/** The entry inventory of an input package: names, rows and symbolic link chains. */
module Manifest {
  import opened Words

  /** A recorded name, as the pieces of its text between slashes. */
  type Name = seq<string>

  datatype Row =
    | FileRow(digest: string, bytes: int, mode: int)
    | DirectoryRow(mode: int)
    | SymlinkRow(target: Name)
    | UnknownRow

  type Entries = map<Name, Row>

  const DOT: Name := ["."]

  predicate Contains(name: Name, c: char) { exists k :: 0 <= k < |name| && c in name[k] }

  /** Relative, in normal form, without dot-dot; the text "." also passes, having no parts at all. */
  predicate SafeName(name: Name) {
    && name != [] && name != [""]
    && !Contains(name, '\\') && !Contains(name, '\0') && !Contains(name, '\r') && !Contains(name, '\n')
    && (name == DOT || forall k :: 0 <= k < |name| ==> name[k] != "" && name[k] != "." && name[k] != "..")
  }

  /** The parts of the path a safe name denotes: "." denotes the root. */
  function PathOf(name: Name): seq<string> { if name == DOT then [] else name }

  function NameOf(path: seq<string>): Name { if path == [] then DOT else path }

  // ---- Rows ----

  predicate LowerHex(c: char) { '0' <= c <= '9' || 'a' <= c <= 'f' }

  predicate IsSha256(digest: string) { |digest| == 64 && forall c :: c in digest ==> LowerHex(c) }

  predicate ValidMode(mode: int) { 0 <= mode <= 0x1ff }

  predicate ValidRow(row: Row) {
    match row
    case FileRow(digest, _, mode) => IsSha256(digest) && ValidMode(mode)
    case DirectoryRow(mode) => ValidMode(mode)
    case SymlinkRow(target) => target != [] && target[0] != "" && !Contains(target, '\0')
    case UnknownRow => false
  }

  predicate ParentIsDirectory(entries: Entries, name: Name, k: nat)
    requires k < |PathOf(name)|
  {
    var parent := NameOf(PathOf(name)[..k]);
    parent in entries ==> entries[parent].DirectoryRow?
  }

  /** Whatever of the ancestors is recorded at all is recorded as a directory. */
  predicate ParentsAreDirectories(entries: Entries, name: Name) {
    forall k :: 0 <= k < |PathOf(name)| ==> ParentIsDirectory(entries, name, k)
  }

  // ---- Lexical resolution ----

  /** `normpath` of a relative path: drop empty pieces and dots, cancel dot-dot against the piece before it. */
  function Normalize(pieces: seq<string>, done: seq<string>): seq<string>
    decreases |pieces|
  {
    if pieces == [] then done
    else
      var piece := pieces[0];
      if piece == "" || piece == "." then Normalize(pieces[1..], done)
      else if piece != ".." || done == [] || done[|done| - 1] == ".." then Normalize(pieces[1..], done + [piece])
      else Normalize(pieces[1..], done[..|done| - 1])
  }

  predicate IsLink(entries: Entries, name: Name) { name in entries && entries[name].SymlinkRow? }

  predicate IsFile(entries: Entries, name: Name) { name in entries && entries[name].FileRow? }

  /** The name a link's target denotes, resolved lexically from the link's directory. */
  function Next(entries: Entries, name: Name): Name
    requires IsLink(entries, name)
  {
    NameOf(Normalize((if name == [] then [] else name[..|name| - 1]) + entries[name].target, []))
  }

  // ---- Chains ----

  predicate Steps(entries: Entries, from: Name, to: Name) {
    IsLink(entries, from) && to == Next(entries, from) && SafeName(to)
  }

  /** Each name but the last is a link, and the next name is the safe name it resolves to. */
  predicate Chain(entries: Entries, names: seq<Name>) {
    forall k :: 0 <= k < |names| - 1 ==> Steps(entries, names[k], names[k + 1])
  }

  predicate ReachesBy(entries: Entries, name: Name, names: seq<Name>) {
    names != [] && names[0] == name && Chain(entries, names) && IsFile(entries, names[|names| - 1])
  }

  /** The chain of links from the name ends at a recorded regular file. */
  ghost predicate Reaches(entries: Entries, name: Name) {
    exists names :: ReachesBy(entries, name, names)
  }

  /** Resolution is a function: a chain from the same name goes through the same names. */
  lemma {:induction false} ChainsAgree(entries: Entries, a: seq<Name>, b: seq<Name>, k: nat)
    requires Chain(entries, a) && Chain(entries, b) && k < |a| && k < |b| && a[0] == b[0]
    ensures a[k] == b[k]
  {
    if k > 0 {
      ChainsAgree(entries, a, b, k - 1);
      assert Steps(entries, a[k - 1], a[k]) && Steps(entries, b[k - 1], b[k]);
    }
  }

  /** A longer chain from the same name takes the step after a shorter one. */
  lemma LongerChainSteps(entries: Entries, trail: seq<Name>, names: seq<Name>)
    requires trail != [] && Chain(entries, trail) && Chain(entries, names)
    requires |trail| < |names| && names[0] == trail[0]
    ensures Steps(entries, trail[|trail| - 1], names[|trail|])
  {
    ChainsAgree(entries, trail, names, |trail| - 1);
    assert Steps(entries, names[|trail| - 1], names[|trail|]);
  }

  lemma LinksBefore(entries: Entries, trail: seq<Name>, k: nat)
    requires k < |trail| && Chain(entries, trail) && IsLink(entries, trail[|trail| - 1])
    ensures IsLink(entries, trail[k])
  {
    if k < |trail| - 1 {
      assert Steps(entries, trail[k], trail[k + 1]);
    }
  }

  /** A chain of links that has not ended yet is a proper prefix of every chain to a file. */
  lemma OpenChainIsPrefix(entries: Entries, trail: seq<Name>, names: seq<Name>)
    requires trail != [] && Chain(entries, trail) && IsLink(entries, trail[|trail| - 1])
    requires ReachesBy(entries, trail[0], names)
    ensures |trail| < |names| && Steps(entries, trail[|trail| - 1], names[|trail|])
  {
    if |names| <= |trail| {
      ChainsAgree(entries, trail, names, |names| - 1);
      LinksBefore(entries, trail, |names| - 1);
    } else {
      LongerChainSteps(entries, trail, names);
    }
  }

  /** A link that resolves to an unsafe name reaches nothing. */
  lemma UnsafeReachesNothing(entries: Entries, trail: seq<Name>)
    requires trail != [] && Chain(entries, trail) && IsLink(entries, trail[|trail| - 1])
    requires !SafeName(Next(entries, trail[|trail| - 1]))
    ensures !Reaches(entries, trail[0])
  {
    forall names | ReachesBy(entries, trail[0], names)
      ensures false
    {
      OpenChainIsPrefix(entries, trail, names);
    }
  }

  lemma {:induction false} OnTheTrail(entries: Entries, trail: seq<Name>, j: nat, names: seq<Name>, k: nat)
    requires j < |trail| - 1 && Chain(entries, trail) && trail[j] == trail[|trail| - 1]
    requires Chain(entries, names) && k < |names| && names[0] == trail[0]
    ensures names[k] in trail[..|trail| - 1] && IsLink(entries, names[k])
  {
    if k == 0 {
      assert Steps(entries, trail[0], trail[1]);
    } else {
      OnTheTrail(entries, trail, j, names, k - 1);
      var i :| 0 <= i < |trail| - 1 && trail[i] == names[k - 1];
      assert Steps(entries, trail[i], trail[i + 1]) && Steps(entries, names[k - 1], names[k]);
      var at := if i + 1 == |trail| - 1 then j else i + 1;
      assert names[k] == trail[at];
      assert Steps(entries, trail[at], trail[at + 1]);
    }
  }

  /** A chain that comes back to one of its names reaches nothing. */
  lemma CycleReachesNothing(entries: Entries, trail: seq<Name>, j: nat)
    requires j < |trail| - 1 && Chain(entries, trail) && trail[j] == trail[|trail| - 1]
    ensures !Reaches(entries, trail[0])
  {
    forall names | ReachesBy(entries, trail[0], names)
      ensures false
    {
      OnTheTrail(entries, trail, j, names, |names| - 1);
    }
  }

  /** A chain that ends elsewhere than at a file reaches nothing. */
  lemma DeadEndReachesNothing(entries: Entries, trail: seq<Name>)
    requires trail != [] && Chain(entries, trail)
    requires !IsLink(entries, trail[|trail| - 1]) && !IsFile(entries, trail[|trail| - 1])
    ensures !Reaches(entries, trail[0])
  {
    forall names | ReachesBy(entries, trail[0], names)
      ensures false
    {
      if |trail| < |names| {
        LongerChainSteps(entries, trail, names);
      } else if |names| < |trail| {
        LongerChainSteps(entries, names, trail);
      } else {
        ChainsAgree(entries, trail, names, |names| - 1);
      }
    }
  }

  datatype LinkError = Cycle | Unsafe | NoFile

  function Links(entries: Entries): set<Name> { set name | name in entries && entries[name].SymlinkRow? }

  /** Follow a link to the file it ends at. It terminates because each round visits one more recorded link. */
  method Follow(entries: Entries, name: Name) returns (error: Option<LinkError>)
    ensures error.None? <==> Reaches(entries, name)
  {
    hide Next, SafeName;
    var current, visited := name, {};
    ghost var trail: seq<Name> := [name];
    while IsLink(entries, current)
      invariant trail != [] && trail[0] == name && trail[|trail| - 1] == current && Chain(entries, trail)
      invariant visited <= Links(entries)
      invariant forall n :: n in visited <==> n in trail[..|trail| - 1]
      decreases Links(entries) - visited
    {
      if current in visited {
        ghost var j :| 0 <= j < |trail| - 1 && trail[j] == current;
        CycleReachesNothing(entries, trail, j);
        return Some(Cycle);
      }
      visited := visited + {current};
      var next := Next(entries, current);
      if !SafeName(next) {
        UnsafeReachesNothing(entries, trail);
        return Some(Unsafe);
      }
      assert Steps(entries, current, next);
      assert (trail + [next])[..|trail|] == trail[..|trail| - 1] + [current];
      trail, current := trail + [next], next;
    }
    if !IsFile(entries, current) {
      DeadEndReachesNothing(entries, trail);
      return Some(NoFile);
    }
    assert ReachesBy(entries, name, trail);
    return None;
  }

  // ---- The inventory ----

  ghost predicate ValidEntries(entries: Entries) {
    && entries != map[]
    && (forall name :: name in entries ==>
          SafeName(name) && ParentsAreDirectories(entries, name) && ValidRow(entries[name]))
    && (forall name :: IsLink(entries, name) ==> Reaches(entries, name))
  }

  /** Accepts exactly the valid inventories, in whatever order they are listed. */
  method EntriesValid(names: seq<Name>, entries: Entries) returns (ok: bool)
    requires forall name :: name in names <==> name in entries
    ensures ok <==> ValidEntries(entries)
  {
    hide SafeName, ValidRow, ParentsAreDirectories, Reaches;
    if |names| == 0 {
      assert entries == map[] by {
        assert forall name :: name !in entries;
      }
      return false;
    }
    assert names[0] in entries;
    for i := 0 to |names|
      invariant forall k :: 0 <= k < i ==>
                  SafeName(names[k]) && ParentsAreDirectories(entries, names[k]) && ValidRow(entries[names[k]])
    {
      assert names[i] in names;
      if !SafeName(names[i]) || !ParentsAreDirectories(entries, names[i]) || !ValidRow(entries[names[i]]) {
        return false;
      }
    }
    for i := 0 to |names|
      invariant forall k :: 0 <= k < i && IsLink(entries, names[k]) ==> Reaches(entries, names[k])
    {
      assert names[i] in names;
      if IsLink(entries, names[i]) {
        var error := Follow(entries, names[i]);
        if error.Some? {
          return false;
        }
      }
    }
    return true;
  }

  /** A link to itself, to nothing, to a directory or out of the package is refused. */
  lemma BadLinksAreRefused(entries: Entries, name: Name)
    requires IsLink(entries, name)
    requires var next := Next(entries, name);
      next == name || !SafeName(next) || next !in entries || entries[next].DirectoryRow?
    ensures !ValidEntries(entries)
  {
    hide Next, SafeName;
    var next := Next(entries, name);
    if !SafeName(next) {
      UnsafeReachesNothing(entries, [name]);
    } else {
      assert Steps(entries, name, next);
      if next == name {
        CycleReachesNothing(entries, [name, next], 0);
      } else {
        DeadEndReachesNothing(entries, [name, next]);
      }
    }
  }
}
