/** Staging an archive into a new directory: files at once, links after them, directory modes deepest first. */
module Staging {
  import opened Words
  import opened Manifest

  type Path = seq<string>

  type Digest = string -> string

  // ---- The archive ----

  datatype Kind = RegularMember(content: string) | DirectoryMember | SymlinkMember(target: Name) | OtherMember

  /** `plain`: root ownership, no names, zero time, no link name on a non-link, not sparse. */
  datatype Member = Member(name: Name, kind: Kind, mode: int, plain: bool)

  type Archive = seq<Member>

  const LINK_MODE := 0x1ff

  /** The metadata and the bytes the row records. */
  predicate MatchesRow(member: Member, row: Row, digest: Digest) {
    match row
    case FileRow(expected, bytes, mode) =>
      member.kind.RegularMember? && |member.kind.content| == bytes && member.mode == mode
      && digest(member.kind.content) == expected
    case DirectoryRow(mode) => member.kind.DirectoryMember? && member.mode == mode
    case SymlinkRow(target) => member.kind == SymlinkMember(target) && member.mode == LINK_MODE
    case UnknownRow => false
  }

  predicate Admitted(member: Member, entries: Entries, digest: Digest) {
    && SafeName(member.name) && member.name in entries && member.plain
    && MatchesRow(member, entries[member.name], digest)
  }

  ghost predicate InArchive(archive: Archive, name: Name) {
    exists k :: 0 <= k < |archive| && archive[k].name == name
  }

  /** Every member admitted, none repeated, none missing: nothing here depends on the order. */
  ghost predicate ArchiveMatches(archive: Archive, entries: Entries, digest: Digest) {
    && (forall k :: 0 <= k < |archive| ==> Admitted(archive[k], entries, digest))
    && (forall j, k :: 0 <= j < k < |archive| ==> archive[j].name != archive[k].name)
    && (forall name :: name in entries ==> InArchive(archive, name))
  }

  method VerifyArchive(archive: Archive, entries: Entries, digest: Digest) returns (ok: bool)
    ensures ok <==> ArchiveMatches(archive, entries, digest)
  {
    hide Admitted;
    var seen := {};
    for i := 0 to |archive|
      invariant forall k :: 0 <= k < i ==> Admitted(archive[k], entries, digest)
      invariant forall j, k :: 0 <= j < k < i ==> archive[j].name != archive[k].name
      invariant forall name :: name in seen <==> InArchive(archive[..i], name)
    {
      assert archive[..i + 1] == archive[..i] + [archive[i]];
      var name := archive[i].name;
      if name in seen {
        var k :| 0 <= k < i && archive[..i][k].name == name;
        assert archive[k].name == archive[i].name;
        return false;
      }
      if !Admitted(archive[i], entries, digest) {
        return false;
      }
      assert forall other :: InArchive(archive[..i + 1], other) <==>
          InArchive(archive[..i], other) || other == name by {
        assert archive[..i + 1][i].name == name;
        assert forall k :: 0 <= k < i ==> archive[..i + 1][k] == archive[..i][k];
      }
      seen := seen + {name};
    }
    assert archive[..|archive|] == archive;
    ok := entries.Keys <= seen;
  }

  /** The bytes recorded under each regular name. */
  function Contents(archive: Archive): map<Name, string> {
    if archive == [] then map[]
    else
      var last := archive[|archive| - 1];
      var before := Contents(archive[..|archive| - 1]);
      if last.kind.RegularMember? then before[last.name := last.kind.content] else before
  }

  lemma {:induction false} ContentsOfMember(archive: Archive, entries: Entries, digest: Digest, k: nat)
    requires k < |archive| && archive[k].kind.RegularMember?
    requires forall i, j :: 0 <= i < j < |archive| ==> archive[i].name != archive[j].name
    ensures archive[k].name in Contents(archive) && Contents(archive)[archive[k].name] == archive[k].kind.content
    decreases |archive|
  {
    var n := |archive| - 1;
    if k < n {
      ContentsOfMember(archive[..n], entries, digest, k);
    }
  }

  lemma {:induction false} OnlyMembersHaveContents(archive: Archive, name: Name) returns (k: nat)
    requires name in Contents(archive)
    ensures k < |archive| && archive[k].name == name && archive[k].kind.RegularMember?
    decreases |archive|
  {
    var n := |archive| - 1;
    if archive[n].kind.RegularMember? && archive[n].name == name {
      k := n;
    } else {
      k := OnlyMembersHaveContents(archive[..n], name);
    }
  }

  // ---- The staged tree ----

  datatype Node = FileNode(content: string, mode: int) | DirectoryNode(mode: int) | LinkNode(target: Name)

  type Tree = map<Path, Node>

  function At(tree: Tree, path: Path): Option<Node> { if path in tree then Some(tree[path]) else None }

  predicate OwnerRead(mode: int) { (mode / 256) % 2 == 1 }

  predicate OwnerWrite(mode: int) { (mode / 128) % 2 == 1 }

  predicate OwnerSearch(mode: int) { (mode / 64) % 2 == 1 }

  /** A proper ancestor of the named path. */
  predicate Below(path: Path, name: Name) { |path| < |PathOf(name)| && path == PathOf(name)[..|path|] }

  ghost predicate Implied(entries: Entries, path: Path) {
    path == [] || exists name :: name in entries && Below(path, name)
  }

  /** The row recorded for a path. The text "." names the root, so no other path has that name. */
  function RowAt(entries: Entries, path: Path): Option<Row> {
    if path == DOT || NameOf(path) !in entries then None else Some(entries[NameOf(path)])
  }

  function ContentOf(contents: map<Name, string>, path: Path): string {
    if NameOf(path) in contents then contents[NameOf(path)] else ""
  }

  /** What the staged tree is to hold at a path. */
  ghost function Expected(entries: Entries, contents: map<Name, string>, standard: int, path: Path): Option<Node> {
    match RowAt(entries, path)
    case Some(FileRow(_, _, mode)) => Some(FileNode(ContentOf(contents, path), mode))
    case Some(DirectoryRow(mode)) => Some(DirectoryNode(mode))
    case Some(SymlinkRow(target)) => Some(LinkNode(target))
    case _ => if Implied(entries, path) then Some(DirectoryNode(standard)) else None
  }

  /** The same while some links are still to be made and some directory modes still to be set. */
  ghost function Sofar(
    entries: Entries, contents: map<Name, string>, standard: int, linked: set<Path>, moded: set<Path>, path: Path)
    : Option<Node>
  {
    match RowAt(entries, path)
    case Some(FileRow(_, _, mode)) => Some(FileNode(ContentOf(contents, path), mode))
    case Some(DirectoryRow(mode)) => Some(DirectoryNode(if path in moded then mode else standard))
    case Some(SymlinkRow(target)) =>
      if path in linked then Some(LinkNode(target)) else if path == [] then Some(DirectoryNode(standard)) else None
    case _ => if Implied(entries, path) then Some(DirectoryNode(standard)) else None
  }

  ghost predicate Holds(
    tree: Tree, entries: Entries, contents: map<Name, string>, standard: int, linked: set<Path>, moded: set<Path>)
  {
    forall path :: At(tree, path) == Sofar(entries, contents, standard, linked, moded, path)
  }

  predicate Searchable(tree: Tree, directory: Path, privileged: bool) {
    directory in tree && tree[directory].DirectoryNode? && (privileged || OwnerSearch(tree[directory].mode))
  }

  /** Search permission on every directory above the path. */
  predicate Reachable(tree: Tree, path: Path, privileged: bool) {
    forall k :: 0 <= k < |path| ==> Searchable(tree, path[..k], privileged)
  }

  /** A new entry also needs write permission on its directory. */
  predicate Creatable(tree: Tree, path: Path, privileged: bool) {
    && path !in tree && path != [] && Reachable(tree, path, privileged)
    && (privileged || OwnerWrite(tree[path[..|path| - 1]].mode))
  }

  predicate Usable(mode: int) { OwnerRead(mode) && OwnerWrite(mode) && OwnerSearch(mode) }

  predicate IsDirectory(tree: Tree, path: Path) { path in tree && tree[path].DirectoryNode? }

  /** While members are restored every directory is as `mkdir` made it, and has its parents. */
  ghost predicate Growing(tree: Tree, standard: int) {
    && IsDirectory(tree, [])
    && (forall path :: path in tree && tree[path].DirectoryNode? ==> tree[path].mode == standard)
    && (forall path, k :: path in tree && 0 <= k < |path| ==> IsDirectory(tree, path[..k]))
  }

  /** The tree with the missing directories of a path, itself included, made. */
  function WithDirectories(tree: Tree, path: Path, standard: int): Tree
    decreases |path|
  {
    if path == [] then tree
    else
      var above := WithDirectories(tree, path[..|path| - 1], standard);
      if path in above then above else above[path := DirectoryNode(standard)]
  }

  lemma {:induction false} WithDirectoriesAt(tree: Tree, path: Path, standard: int, at: Path)
    ensures At(WithDirectories(tree, path, standard), at) ==
            if at in tree then Some(tree[at])
            else if at != [] && at <= path then Some(DirectoryNode(standard)) else None
    decreases |path|
  {
    if path != [] {
      var parent := path[..|path| - 1];
      WithDirectoriesAt(tree, parent, standard, at);
      WithDirectoriesAt(tree, parent, standard, path);
      assert at <= path <==> at <= parent || at == path by {
        if at <= path && at != path {
          assert at == path[..|at|] == parent[..|at|];
        }
      }
    }
  }

  /** The rows restored so far belong to a valid inventory. */
  ghost predicate Part(done: Entries, entries: Entries) {
    forall name :: name in done ==> name in entries && done[name] == entries[name]
  }

  /** Above the target there are directories or nothing, and the target itself is a directory or nothing. */
  ghost predicate Room(tree: Tree, target: Path) {
    forall k :: 0 <= k <= |target| ==> target[..k] !in tree || tree[target[..k]].DirectoryNode?
  }

  lemma SafeWhenValid(entries: Entries, name: Name)
    requires ValidEntries(entries) && name in entries
    ensures SafeName(name) && !entries[name].UnknownRow?
  {
  }

  lemma NamesAndPaths(name: Name)
    requires SafeName(name)
    ensures NameOf(PathOf(name)) == name && PathOf(name) != DOT
    ensures forall k :: 0 <= k < |PathOf(name)| ==> PathOf(name)[k] != "."
  {
  }

  /** Nothing but a directory is recorded above a recorded name. */
  lemma AboveIsDirectory(entries: Entries, name: Name, path: Path)
    requires ValidEntries(entries) && name in entries && Below(path, name)
    ensures path != DOT && match RowAt(entries, path) case Some(row) => row.DirectoryRow? case None => true
  {
    NamesAndPaths(name);
    assert ParentIsDirectory(entries, name, |path|);
    assert path != [] ==> path[0] == PathOf(name)[0];
  }

  /** Above a new name the staged tree has directories or nothing, and its own place is free or implied. */
  lemma RoomForOneMore(
    tree: Tree, done: Entries, entries: Entries, contents: map<Name, string>, standard: int, name: Name)
    requires ValidEntries(entries) && Part(done, entries) && name in entries && name !in done
    requires Holds(tree, done, contents, standard, {}, {})
    ensures Room(tree, PathOf(name))
    ensures !entries[name].DirectoryRow? ==> (PathOf(name) in tree <==> name == DOT)
  {
    hide ValidEntries;
    var target := PathOf(name);
    SafeWhenValid(entries, name);
    NamesAndPaths(name);
    forall k | 0 <= k < |target|
      ensures target[..k] !in tree || tree[target[..k]].DirectoryNode?
    {
      AboveIsDirectory(entries, name, target[..k]);
      assert At(tree, target[..k]) == Sofar(done, contents, standard, {}, {}, target[..k]);
    }
    assert At(tree, target) == Sofar(done, contents, standard, {}, {}, target);
    assert target[..|target|] == target && RowAt(done, target) == None;
    if target in tree && target != [] && !entries[name].DirectoryRow? {
      var other :| other in done && Below(target, other);
      AboveIsDirectory(entries, other, target);
    }
  }

  lemma RowsOfOneMore(done: Entries, name: Name, row: Row, path: Path)
    requires SafeName(name)
    ensures RowAt(done[name := row], path) == if path == PathOf(name) then Some(row) else RowAt(done, path)
    ensures Implied(done[name := row], path) <==> Implied(done, path) || Below(path, name)
  {
    NamesAndPaths(name);
    var more := done[name := row];
    if path != [] && Implied(done, path) && name !in done {
      var other :| other in done && Below(path, other);
      assert other in more;
    }
    if path != [] && Implied(more, path) && !Below(path, name) {
      var other :| other in more && Below(path, other);
      assert other in done;
    }
    if Below(path, name) {
      assert name in more;
    }
    if path != [] && Implied(done, path) {
      var other :| other in done && Below(path, other);
      assert other in more;
    }
  }

  /** Making the directories above a new name is the same as recording it, up to its own place. */
  lemma ParentsRestored(
    tree: Tree, done: Entries, entries: Entries, contents: map<Name, string>, standard: int, name: Name, path: Path)
    requires ValidEntries(entries) && Part(done, entries) && name in entries && name !in done
    requires Holds(tree, done, contents, standard, {}, {}) && PathOf(name) != [] && IsDirectory(tree, [])
    requires path != PathOf(name)
    ensures var parent := PathOf(name)[..|PathOf(name)| - 1];
      At(WithDirectories(tree, parent, standard), path) ==
      Sofar(done[name := entries[name]], contents, standard, {}, {}, path)
  {
    hide ValidEntries;
    var target := PathOf(name);
    var parent := target[..|target| - 1];
    SafeWhenValid(entries, name);
    RowsOfOneMore(done, name, entries[name], path);
    WithDirectoriesAt(tree, parent, standard, path);
    assert At(tree, path) == Sofar(done, contents, standard, {}, {}, path);
    assert path <= parent <==> Below(path, name) by {
      if path <= parent {
        assert path == parent[..|path|] == target[..|path|];
      }
      if Below(path, name) {
        assert parent[..|path|] == target[..|path|];
      }
    }
    if Below(path, name) {
      AboveIsDirectory(entries, name, path);
    }
  }

  /** The tree after one member: directories above it, then the file or the directory itself. */
  function Restored(tree: Tree, target: Path, row: Row, content: string, standard: int): Tree {
    var above := if target == [] then tree else WithDirectories(tree, target[..|target| - 1], standard);
    match row
    case FileRow(_, _, mode) => above[target := FileNode(content, mode)]
    case DirectoryRow(_) => if target in above then above else above[target := DirectoryNode(standard)]
    case _ => above
  }

  lemma OwnPlace(tree: Tree, target: Path, standard: int)
    ensures target != [] ==> At(WithDirectories(tree, target[..|target| - 1], standard), target) == At(tree, target)
  {
    if target != [] {
      WithDirectoriesAt(tree, target[..|target| - 1], standard, target);
    }
  }

  lemma RestoredInPlace(
    tree: Tree, done: Entries, entries: Entries, contents: map<Name, string>, standard: int, name: Name,
    content: string)
    requires ValidEntries(entries) && Part(done, entries) && name in entries && name !in done
    requires Holds(tree, done, contents, standard, {}, {}) && IsDirectory(tree, [])
    requires entries[name].FileRow? ==> name != DOT && ContentOf(contents, PathOf(name)) == content
    ensures At(Restored(tree, PathOf(name), entries[name], content, standard), PathOf(name)) ==
            Sofar(done[name := entries[name]], contents, standard, {}, {}, PathOf(name))
  {
    hide ValidEntries, WithDirectories, ContentOf;
    var target := PathOf(name);
    SafeWhenValid(entries, name);
    NamesAndPaths(name);
    RoomForOneMore(tree, done, entries, contents, standard, name);
    RowsOfOneMore(done, name, entries[name], target);
    OwnPlace(tree, target, standard);
    assert At(tree, target) == Sofar(done, contents, standard, {}, {}, target);
  }

  /** At its own place a member puts what its row says; elsewhere it adds only the directories above it. */
  lemma RestoredHolds(
    tree: Tree, done: Entries, entries: Entries, contents: map<Name, string>, standard: int, name: Name,
    content: string)
    requires ValidEntries(entries) && Part(done, entries) && name in entries && name !in done
    requires Holds(tree, done, contents, standard, {}, {}) && IsDirectory(tree, [])
    requires entries[name].FileRow? ==> name != DOT && ContentOf(contents, PathOf(name)) == content
    ensures Holds(Restored(tree, PathOf(name), entries[name], content, standard), done[name := entries[name]],
        contents, standard, {}, {})
  {
    hide ValidEntries, WithDirectories, Implied, ContentOf;
    var target, row, more := PathOf(name), entries[name], done[name := entries[name]];
    var now := Restored(tree, target, row, content, standard);
    SafeWhenValid(entries, name);
    NamesAndPaths(name);
    forall path
      ensures At(now, path) == Sofar(more, contents, standard, {}, {}, path)
    {
      if path == target {
        RestoredInPlace(tree, done, entries, contents, standard, name, content);
      } else {
        RowsOfOneMore(done, name, row, path);
        assert At(tree, path) == Sofar(done, contents, standard, {}, {}, path);
        if target != [] {
          ParentsRestored(tree, done, entries, contents, standard, name, path);
        }
      }
    }
  }

  /** A link or a directory mode noted for later. */
  datatype Pending = Pending(path: Path, row: Row)

  predicate Deepest(pending: seq<Pending>) {
    forall j, k :: 0 <= j < k < |pending| ==> |pending[k].path| <= |pending[j].path|
  }

  function Insert(p: Pending, sorted: seq<Pending>): seq<Pending> {
    if sorted == [] || |sorted[0].path| <= |p.path| then [p] + sorted else [sorted[0]] + Insert(p, sorted[1..])
  }

  /** A stable sort by depth. */
  function DeepestFirst(pending: seq<Pending>): seq<Pending> {
    if pending == [] then [] else Insert(pending[0], DeepestFirst(pending[1..]))
  }

  lemma {:induction false} InsertKeepsOrder(p: Pending, sorted: seq<Pending>)
    requires Deepest(sorted)
    ensures Deepest(Insert(p, sorted))
    ensures forall q :: q in Insert(p, sorted) <==> q == p || q in sorted
  {
    if sorted != [] && |sorted[0].path| > |p.path| {
      InsertKeepsOrder(p, sorted[1..]);
      var rest := Insert(p, sorted[1..]);
      forall k | 0 <= k < |rest|
        ensures |rest[k].path| <= |sorted[0].path|
      {
        assert rest[k] in rest;
      }
    }
  }

  lemma {:induction false} SortedIsTheSame(pending: seq<Pending>)
    ensures Deepest(DeepestFirst(pending))
    ensures forall p :: p in DeepestFirst(pending) <==> p in pending
  {
    if pending != [] {
      SortedIsTheSame(pending[1..]);
      InsertKeepsOrder(pending[0], DeepestFirst(pending[1..]));
    }
  }

  /** The list holds exactly the recorded directories. */
  ghost predicate ListsDirectories(pending: seq<Pending>, done: Entries) {
    forall p :: p in pending <==> RowAt(done, p.path) == Some(p.row) && p.row.DirectoryRow?
  }

  ghost predicate Closed(tree: Tree) {
    && IsDirectory(tree, [])
    && (forall path, k :: path in tree && 0 <= k < |path| ==> IsDirectory(tree, path[..k]))
  }

  function PathsOf(pending: seq<Pending>): set<Path> { set p | p in pending :: p.path }

  lemma RecordedIsBelow(entries: Entries, path: Path, k: nat)
    requires ValidEntries(entries) && RowAt(entries, path).Some? && k < |path|
    ensures Below(path[..k], NameOf(path)) && NameOf(path) in entries && Implied(entries, path[..k])
  {
    hide ValidEntries;
    SafeWhenValid(entries, NameOf(path));
    assert PathOf(NameOf(path)) == path;
  }

  lemma DirectoryIsReachable(
    tree: Tree, sorted: seq<Pending>, i: nat, directories: seq<Pending>, entries: Entries, contents: map<Name, string>,
    standard: int, linked: set<Path>, privileged: bool)
    requires i < |sorted| && Deepest(sorted) && ListsDirectories(directories, entries) && ValidEntries(entries)
    requires forall p :: p in sorted <==> p in directories
    requires Closed(tree) && Usable(standard) && Holds(tree, entries, contents, standard, linked, PathsOf(sorted[..i]))
    ensures RowAt(entries, sorted[i].path) == Some(sorted[i].row) && sorted[i].row.DirectoryRow?
    ensures Reachable(tree, sorted[i].path, privileged) && IsDirectory(tree, sorted[i].path)
  {
    hide ValidEntries;
    var path, moded := sorted[i].path, PathsOf(sorted[..i]);
    assert sorted[i] in sorted;
    assert At(tree, path) == Sofar(entries, contents, standard, linked, moded, path);
    forall k | 0 <= k < |path|
      ensures Searchable(tree, path[..k], privileged)
    {
      RecordedIsBelow(entries, path, k);
      AboveIsDirectory(entries, NameOf(path), path[..k]);
      assert path[..k] !in moded by {
        assert forall j :: 0 <= j < i ==> sorted[..i][j] == sorted[j] && |path| <= |sorted[j].path|;
      }
      assert At(tree, path[..k]) == Sofar(entries, contents, standard, linked, moded, path[..k]);
    }
  }

  lemma OneMoreMode(
    tree: Tree, sorted: seq<Pending>, i: nat, entries: Entries, contents: map<Name, string>, standard: int,
    linked: set<Path>)
    requires i < |sorted| && sorted[i].row.DirectoryRow? && RowAt(entries, sorted[i].path) == Some(sorted[i].row)
    requires Closed(tree) && IsDirectory(tree, sorted[i].path)
    requires Holds(tree, entries, contents, standard, linked, PathsOf(sorted[..i]))
    ensures var now := tree[sorted[i].path := DirectoryNode(sorted[i].row.mode)];
      Closed(now) && Holds(now, entries, contents, standard, linked, PathsOf(sorted[..i + 1]))
  {
    var path := sorted[i].path;
    var now := tree[path := DirectoryNode(sorted[i].row.mode)];
    assert sorted[..i + 1] == sorted[..i] + [sorted[i]];
    forall at
      ensures At(now, at) == Sofar(entries, contents, standard, linked, PathsOf(sorted[..i + 1]), at)
    {
      assert At(tree, at) == Sofar(entries, contents, standard, linked, PathsOf(sorted[..i]), at);
      assert at in PathsOf(sorted[..i + 1]) <==> at in PathsOf(sorted[..i]) || at == path by {
        assert sorted[i] in sorted[..i + 1];
      }
    }
  }

  /** The list holds exactly the recorded symbolic links. */
  ghost predicate ListsLinks(pending: seq<Pending>, done: Entries) {
    && (forall p :: p in pending <==> RowAt(done, p.path) == Some(p.row) && p.row.SymlinkRow?)
    && (forall j, k :: 0 <= j < k < |pending| ==> pending[j].path != pending[k].path)
  }

  ghost predicate IsStaged(tree: Tree, entries: Entries, contents: map<Name, string>, standard: int) {
    forall path :: At(tree, path) == Expected(entries, contents, standard, path)
  }

  /** With every link made and every mode set the tree is the expected one. */
  lemma FinishedIsExpected(
    tree: Tree, links: seq<Pending>, directories: seq<Pending>, entries: Entries, contents: map<Name, string>,
    standard: int)
    requires ListsLinks(links, entries) && ListsDirectories(directories, entries)
    requires Holds(tree, entries, contents, standard, PathsOf(links), PathsOf(directories))
    ensures IsStaged(tree, entries, contents, standard)
  {
    forall path
      ensures At(tree, path) == Expected(entries, contents, standard, path)
    {
      assert At(tree, path) == Sofar(entries, contents, standard, PathsOf(links), PathsOf(directories), path);
      var row := RowAt(entries, path);
      if row.Some? && row.value.SymlinkRow? {
        assert Pending(path, row.value) in links;
      }
      if row.Some? && row.value.DirectoryRow? {
        assert Pending(path, row.value) in directories;
      }
    }
  }

  lemma GrowingRoot(tree: Tree, standard: int)
    requires Growing(tree, standard)
    ensures Closed(tree)
  {
  }

  lemma NothingRestored(contents: map<Name, string>, standard: int)
    ensures Growing(map[[] := DirectoryNode(standard)], standard)
    ensures Holds(map[[] := DirectoryNode(standard)], map[], contents, standard, {}, {})
    ensures ListsLinks([], map[]) && ListsDirectories([], map[])
  {
  }

  lemma MemberContent(archive: Archive, entries: Entries, digest: Digest, i: nat)
    requires ArchiveMatches(archive, entries, digest) && i < |archive| && Admitted(archive[i], entries, digest)
    ensures entries[archive[i].name].FileRow? ==>
              && archive[i].kind.RegularMember?
              && ContentOf(Contents(archive), PathOf(archive[i].name)) == archive[i].kind.content
  {
    hide Contents;
    if entries[archive[i].name].FileRow? {
      ContentsOfMember(archive, entries, digest, i);
      NamesAndPaths(archive[i].name);
    }
  }

  /** A recorded link: its place is free until it is made, and everything above it is a directory. */
  lemma LinkIsNext(
    tree: Tree, links: seq<Pending>, i: nat, entries: Entries, contents: map<Name, string>, standard: int)
    requires i < |links| && ListsLinks(links, entries) && ValidEntries(entries) && Growing(tree, standard)
    requires Holds(tree, entries, contents, standard, PathsOf(links[..i]), {})
    ensures links[i].row.SymlinkRow? && RowAt(entries, links[i].path) == Some(links[i].row)
    ensures links[i].path == [] ==> DOT in entries
    ensures links[i].path != [] ==> links[i].path !in tree
    ensures forall k :: 0 <= k < |links[i].path| ==> IsDirectory(tree, links[i].path[..k])
  {
    hide ValidEntries;
    var path := links[i].path;
    assert links[i] in links;
    assert path !in PathsOf(links[..i]) by {
      assert forall j :: 0 <= j < i ==> links[..i][j] == links[j];
    }
    assert At(tree, path) == Sofar(entries, contents, standard, PathsOf(links[..i]), {}, path);
    forall k | 0 <= k < |path|
      ensures IsDirectory(tree, path[..k])
    {
      RecordedIsBelow(entries, path, k);
      AboveIsDirectory(entries, NameOf(path), path[..k]);
      assert At(tree, path[..k]) == Sofar(entries, contents, standard, PathsOf(links[..i]), {}, path[..k]);
    }
  }

  lemma LinkIsCreatable(tree: Tree, path: Path, standard: int, privileged: bool)
    requires Growing(tree, standard) && Usable(standard) && path != [] && path !in tree
    requires forall k :: 0 <= k < |path| ==> IsDirectory(tree, path[..k])
    ensures Creatable(tree, path, privileged)
  {
  }

  lemma OneMoreLink(
    tree: Tree, links: seq<Pending>, i: nat, entries: Entries, contents: map<Name, string>, standard: int)
    requires i < |links| && links[i].row.SymlinkRow? && RowAt(entries, links[i].path) == Some(links[i].row)
    requires Growing(tree, standard) && links[i].path !in tree
    requires forall k :: 0 <= k < |links[i].path| ==> IsDirectory(tree, links[i].path[..k])
    requires Holds(tree, entries, contents, standard, PathsOf(links[..i]), {})
    ensures var now := tree[links[i].path := LinkNode(links[i].row.target)];
      Growing(now, standard) && Holds(now, entries, contents, standard, PathsOf(links[..i + 1]), {})
  {
    var path := links[i].path;
    var now := tree[path := LinkNode(links[i].row.target)];
    assert links[..i + 1] == links[..i] + [links[i]];
    forall at
      ensures At(now, at) == Sofar(entries, contents, standard, PathsOf(links[..i + 1]), {}, at)
    {
      assert At(tree, at) == Sofar(entries, contents, standard, PathsOf(links[..i]), {}, at);
      assert at in PathsOf(links[..i + 1]) <==> at in PathsOf(links[..i]) || at == path by {
        assert links[i] in links[..i + 1];
      }
    }
  }

  lemma RoomAbove(tree: Tree, target: Path)
    requires Room(tree, target) && target != []
    ensures Room(tree, target[..|target| - 1])
  {
    var parent := target[..|target| - 1];
    forall k | 0 <= k <= |parent|
      ensures parent[..k] !in tree || tree[parent[..k]].DirectoryNode?
    {
      assert parent[..k] == target[..k];
    }
  }

  lemma DirectoriesGrow(tree: Tree, path: Path, standard: int)
    requires Growing(tree, standard) && Room(tree, path)
    ensures Growing(WithDirectories(tree, path, standard), standard)
    ensures forall k :: 0 <= k <= |path| ==> IsDirectory(WithDirectories(tree, path, standard), path[..k])
  {
    var now := WithDirectories(tree, path, standard);
    forall at
      ensures At(now, at) ==
        if at in tree then Some(tree[at])
        else if at != [] && at <= path then Some(DirectoryNode(standard))
        else None
    {
      WithDirectoriesAt(tree, path, standard, at);
    }
    forall at | at in now && now[at].DirectoryNode?
      ensures now[at].mode == standard
    {
      assert At(now, at) == Some(now[at]);
    }
    forall at, k | at in now && 0 <= k < |at|
      ensures IsDirectory(now, at[..k])
    {
      if at !in tree {
        assert at[..k] == path[..k];
      }
    }
  }

  lemma RestoredGrows(tree: Tree, target: Path, row: Row, content: string, standard: int)
    requires Growing(tree, standard) && Room(tree, target)
    ensures row.FileRow? ==> target in tree || Growing(Restored(tree, target, row, content, standard), standard)
    ensures !row.FileRow? ==> Growing(Restored(tree, target, row, content, standard), standard)
  {
    hide WithDirectories;
    if !(row.FileRow? && target in tree) {
      var above := if target == [] then tree else WithDirectories(tree, target[..|target| - 1], standard);
      if target != [] {
        RoomAbove(tree, target);
        DirectoriesGrow(tree, target[..|target| - 1], standard);
        OwnPlace(tree, target, standard);
        assert forall k :: 0 <= k < |target| ==> target[..|target| - 1][..k] == target[..k];
      }
      assert forall k :: 0 <= k < |target| ==> IsDirectory(above, target[..k]);
    }
  }

  // ---- One member ----

  lemma OneMoreDirectory(before: Tree, now: Tree, path: Path, k: nat, standard: int)
    requires k < |path| && now == WithDirectories(before, path[..k], standard)
    ensures WithDirectories(before, path[..k + 1], standard) ==
            if path[..k + 1] in now then now else now[path[..k + 1] := DirectoryNode(standard)]
    ensures path[..k + 1] in now <==> path[..k + 1] in before
    ensures path[..k + 1] in before ==> now[path[..k + 1]] == before[path[..k + 1]]
  {
    assert path[..k + 1][..k] == path[..k];
    WithDirectoriesAt(before, path[..k], standard, path[..k + 1]);
  }

  // ---- The loops over the archive ----

  lemma OneMorePending(links: seq<Pending>, directories: seq<Pending>, done: Entries, name: Name, row: Row)
    requires ListsLinks(links, done) && ListsDirectories(directories, done) && SafeName(name) && name !in done
    ensures var p := Pending(PathOf(name), row);
      && ListsLinks(if row.SymlinkRow? then links + [p] else links, done[name := row])
      && ListsDirectories(if row.DirectoryRow? then directories + [p] else directories, done[name := row])
  {
    hide SafeName;
    NamesAndPaths(name);
    forall p: Pending
      ensures RowAt(done[name := row], p.path) == if p.path == PathOf(name) then Some(row) else RowAt(done, p.path)
    {
      RowsOfOneMore(done, name, row, p.path);
    }
    assert RowAt(done, PathOf(name)) == None;
    forall k | 0 <= k < |links|
      ensures links[k].path != PathOf(name)
    {
      assert links[k] in links;
    }
  }

  /** Restoring every member of a matching archive restores every recorded name. */
  lemma AllRestored(archive: Archive, entries: Entries, digest: Digest, done: Entries)
    requires ArchiveMatches(archive, entries, digest) && Part(done, entries)
    requires forall name :: name in done <==> InArchive(archive, name)
    ensures done == entries
  {
    hide Admitted;
    forall name | name in done
      ensures name in entries
    {
    }
  }

  lemma MemberIsNew(archive: Archive, entries: Entries, digest: Digest, done: Entries, i: nat)
    requires ArchiveMatches(archive, entries, digest) && i < |archive|
    requires forall name :: name in done <==> InArchive(archive[..i], name)
    ensures archive[i].name in entries && archive[i].name !in done && Admitted(archive[i], entries, digest)
    ensures forall name :: name in done + map[archive[i].name := entries[archive[i].name]] <==>
        InArchive(archive[..i + 1], name)
  {
    hide MatchesRow;
    var name := archive[i].name;
    assert forall k :: 0 <= k < i ==> archive[..i][k].name != name;
    assert archive[..i + 1][i].name == name;
    assert forall k :: 0 <= k < i ==> archive[..i + 1][k] == archive[..i][k];
    forall other
      ensures InArchive(archive[..i + 1], other) <==> InArchive(archive[..i], other) || other == name
    {
      if InArchive(archive[..i], other) {
        var k :| 0 <= k < i && archive[..i][k].name == other;
        assert archive[..i + 1][k].name == other;
      }
    }
  }

  // ---- The destination ----

  class Destination {
    var tree: Tree
    const standard: int
    const privileged: bool

    constructor (standard: int, privileged: bool)
      ensures this.standard == standard && this.privileged == privileged
      ensures tree == map[[] := DirectoryNode(standard)]
    {
      this.standard, this.privileged := standard, privileged;
      tree := map[[] := DirectoryNode(standard)];
    }

    /** `mkdir(parents=True, exist_ok=True)` */
    method MakeDirectories(path: Path) returns (ok: bool)
      requires Growing(tree, standard) && Usable(standard)
      modifies this
      ensures Growing(tree, standard)
      ensures ok <==> Room(old(tree), path)
      ensures ok ==> tree == WithDirectories(old(tree), path, standard)
    {
      assert path[..0] == [];
      for k := 0 to |path|
        invariant Growing(tree, standard)
        invariant tree == WithDirectories(old(tree), path[..k], standard)
        invariant forall j :: 0 <= j <= k ==> IsDirectory(tree, path[..j])
        invariant forall j :: 0 <= j <= k ==> path[..j] !in old(tree) || old(tree)[path[..j]].DirectoryNode?
      {
        var directory := path[..k + 1];
        assert directory[..k] == path[..k];
        OneMoreDirectory(old(tree), tree, path, k, standard);
        if directory in tree {
          if !tree[directory].DirectoryNode? {
            return false;
          }
        } else {
          assert Creatable(tree, directory, privileged) by {
            assert forall j :: 0 <= j < |directory| ==> directory[..j] == path[..j];
          }
          tree := tree[directory := DirectoryNode(standard)];
        }
      }
      assert path[..|path|] == path;
      return true;
    }

    /** One member of the archive: links and directory modes are only noted by the caller. */
    method Restore(target: Path, row: Row, content: string) returns (ok: bool)
      requires Growing(tree, standard) && Usable(standard) && Room(tree, target)
      modifies this
      ensures ok <==> !(row.FileRow? && target in old(tree))
      ensures ok ==> tree == Restored(old(tree), target, row, content, standard) && Growing(tree, standard)
    {
      hide Growing, WithDirectories;
      ghost var before := tree;
      if target != [] {
        RoomAbove(tree, target);
        var made := MakeDirectories(target[..|target| - 1]);
        assert made;
        OwnPlace(before, target, standard);
      }
      RestoredGrows(before, target, row, content, standard);
      match row {
        case FileRow(_, _, mode) =>
          if target in tree {
            return false;
          }
          tree := tree[target := FileNode(content, mode)];
        case DirectoryRow(_) =>
          if target !in tree {
            tree := tree[target := DirectoryNode(standard)];
          }
        case _ =>
      }
      ok := true;
    }

    /** Every member in archive order. Only a file recorded at the root of the destination fails. */
    method RestoreAll(archive: Archive, entries: Entries, digest: Digest)
      returns (ok: bool, links: seq<Pending>, directories: seq<Pending>)
      requires tree == map[[] := DirectoryNode(standard)] && Usable(standard)
      requires ValidEntries(entries) && ArchiveMatches(archive, entries, digest)
      modifies this
      ensures !ok ==> DOT in entries
      ensures ok ==> Growing(tree, standard) && Holds(tree, entries, Contents(archive), standard, {}, {})
      ensures ok ==> ListsLinks(links, entries) && ListsDirectories(directories, entries)
    {
      hide ValidEntries, ArchiveMatches, Holds, Growing, ListsLinks;
      hide ListsDirectories, Restored, Room, MatchesRow, SafeName;
      ghost var done: Entries, contents := map[], Contents(archive);
      links, directories := [], [];
      NothingRestored(contents, standard);
      for i := 0 to |archive|
        invariant Growing(tree, standard) && Holds(tree, done, contents, standard, {}, {})
        invariant Part(done, entries) && forall name :: name in done <==> InArchive(archive[..i], name)
        invariant ListsLinks(links, done) && ListsDirectories(directories, done)
      {
        MemberIsNew(archive, entries, digest, done, i);
        var name := archive[i].name;
        var row := entries[name];
        var content := if archive[i].kind.RegularMember? then archive[i].kind.content else "";
        RoomForOneMore(tree, done, entries, contents, standard, name);
        MemberContent(archive, entries, digest, i);
        GrowingRoot(tree, standard);
        ghost var before := tree;
        ok := Restore(PathOf(name), row, content);
        if !ok {
          return;
        }
        RestoredHolds(before, done, entries, contents, standard, name, content);
        OneMorePending(links, directories, done, name, row);
        if row.SymlinkRow? {
          links := links + [Pending(PathOf(name), row)];
        } else if row.DirectoryRow? {
          directories := directories + [Pending(PathOf(name), row)];
        }
        done := done[name := row];
      }
      assert archive[..|archive|] == archive;
      AllRestored(archive, entries, digest, done);
      ok := true;
    }

    /** The links, once every member is in place. */
    method MakeLinks(links: seq<Pending>, entries: Entries, ghost contents: map<Name, string>) returns (ok: bool)
      requires Growing(tree, standard) && Usable(standard) && Holds(tree, entries, contents, standard, {}, {})
      requires ValidEntries(entries) && ListsLinks(links, entries)
      modifies this
      ensures !ok ==> DOT in entries
      ensures ok ==> Closed(tree) && Holds(tree, entries, contents, standard, PathsOf(links), {})
    {
      hide ValidEntries, Holds, Growing, Expected, Sofar;
      assert links[..0] == [] && PathsOf([]) == {};
      for i := 0 to |links|
        invariant Growing(tree, standard) && Holds(tree, entries, contents, standard, PathsOf(links[..i]), {})
      {
        assert links[..i + 1] == links[..i] + [links[i]];
        LinkIsNext(tree, links, i, entries, contents, standard);
        var path, row := links[i].path, links[i].row;
        if path == [] {
          return false;
        }
        LinkIsCreatable(tree, path, standard, privileged);
        if !Creatable(tree, path, privileged) {
          return false;
        }
        OneMoreLink(tree, links, i, entries, contents, standard);
        tree := tree[path := LinkNode(row.target)];
      }
      assert links[..|links|] == links;
      GrowingRoot(tree, standard);
      return true;
    }

    /** The recorded directory modes, deepest directory first: what is still above a directory is still open. */
    method SetModes(directories: seq<Pending>, entries: Entries, ghost contents: map<Name, string>,
        ghost linked: set<Path>)
      returns (ok: bool)
      requires Closed(tree) && Usable(standard) && Holds(tree, entries, contents, standard, linked, {})
      requires ValidEntries(entries) && ListsDirectories(directories, entries)
      modifies this
      ensures ok && Closed(tree) && Holds(tree, entries, contents, standard, linked, PathsOf(directories))
    {
      hide ValidEntries, Holds, Closed, Expected, Sofar, ListsDirectories, DeepestFirst;
      var sorted := DeepestFirst(directories);
      SortedIsTheSame(directories);
      assert sorted[..0] == [] && PathsOf([]) == {};
      for i := 0 to |sorted|
        invariant Closed(tree) && Holds(tree, entries, contents, standard, linked, PathsOf(sorted[..i]))
      {
        var path, row := sorted[i].path, sorted[i].row;
        DirectoryIsReachable(tree, sorted, i, directories, entries, contents, standard, linked, privileged);
        if !Reachable(tree, path, privileged) {
          return false;
        }
        OneMoreMode(tree, sorted, i, entries, contents, standard, linked);
        tree := tree[path := DirectoryNode(row.mode)];
      }
      assert sorted[..|sorted|] == sorted;
      assert PathsOf(sorted) == PathsOf(directories);
      return true;
    }
  }

  // ---- The check of the staged tree ----

  /** `identity` of a node that can be read. */
  function IdentityOf(node: Node, digest: Digest): Row {
    match node
    case FileNode(content, mode) => FileRow(digest(content), |content|, mode)
    case DirectoryNode(mode) => DirectoryRow(mode)
    case LinkNode(target) => SymlinkRow(target)
  }

  predicate Listable(tree: Tree, directory: Path, privileged: bool) {
    directory in tree && tree[directory].DirectoryNode? && (privileged || OwnerRead(tree[directory].mode))
  }

  /** The walk finds the path: every directory above it can be listed. An unreadable directory is skipped. */
  predicate Walked(tree: Tree, path: Path, privileged: bool) {
    path != [] && forall k :: 0 <= k < |path| ==> Listable(tree, path[..k], privileged)
  }

  /** The walked path can be examined, and is what is recorded or a directory above something recorded. */
  ghost predicate PassesAt(tree: Tree, entries: Entries, digest: Digest, privileged: bool, path: Path)
    requires path in tree
  {
    && Reachable(tree, path, privileged)
    && (tree[path].FileNode? ==> privileged || OwnerRead(tree[path].mode))
    && (if tree[path].DirectoryNode? && RowAt(entries, path) == None then Implied(entries, path)
        else RowAt(entries, path) == Some(IdentityOf(tree[path], digest)))
  }

  ghost predicate Verified(tree: Tree, entries: Entries, digest: Digest, privileged: bool) {
    && (forall path :: path in tree && Walked(tree, path, privileged) ==>
         PassesAt(tree, entries, digest, privileged, path))
    && (forall name :: name in entries ==> PathOf(name) in tree && Walked(tree, PathOf(name), privileged))
  }

  /** No file the walk finds has a second name. */
  ghost predicate SingleNames(tree: Tree, names: Path -> nat, privileged: bool) {
    forall path :: path in tree && Walked(tree, path, privileged) && tree[path].FileNode? ==> names(path) == 1
  }

  /** The names of all recorded ancestors, as the check computes them. */
  method ImpliedBy(names: seq<Name>, path: Path) returns (implied: bool)
    ensures implied <==> exists k :: 0 <= k < |names| && Below(path, names[k])
  {
    for i := 0 to |names|
      invariant forall k :: 0 <= k < i ==> !Below(path, names[k])
    {
      if Below(path, names[i]) {
        return true;
      }
    }
    return false;
  }

  lemma ImpliedByNames(names: seq<Name>, entries: Entries, path: Path)
    requires forall name :: name in names <==> name in entries
    ensures path != [] ==> (Implied(entries, path) <==> exists k :: 0 <= k < |names| && Below(path, names[k]))
  {
    if path != [] && Implied(entries, path) {
      var name :| name in entries && Below(path, name);
      var k :| 0 <= k < |names| && names[k] == name;
    }
    if k: nat :| k < |names| && Below(path, names[k]) {
      assert names[k] in names;
    }
  }

  lemma WalkedIsNotRoot(tree: Tree, path: Path, privileged: bool)
    requires Walked(tree, path, privileged)
    ensures path != []
  {
  }

  /** One walked node: whether it passes, and whether it is one of the recorded ones. */
  method ExamineNode(tree: Tree, path: Path, linkCount: Path -> nat, names: seq<Name>, entries: Entries, digest: Digest,
                     privileged: bool) returns (ok: bool, recorded: bool)
    requires path in tree && Walked(tree, path, privileged) && forall name :: name in names <==> name in entries
    ensures ok <==> PassesAt(tree, entries, digest, privileged, path) && (tree[path].FileNode? ==> linkCount(path) == 1)
    ensures ok ==> recorded == RowAt(entries, path).Some?
  {
    hide Walked, Reachable, IdentityOf, Implied, RowAt;
    recorded := false;
    var implied := ImpliedBy(names, path);
    ImpliedByNames(names, entries, path);
    WalkedIsNotRoot(tree, path, privileged);
    if !Reachable(tree, path, privileged) {
      return false, false;
    }
    if tree[path].DirectoryNode? && RowAt(entries, path) == None {
      return implied, false;
    }
    if tree[path].FileNode? && !privileged && !OwnerRead(tree[path].mode) {
      return false, false;
    }
    if RowAt(entries, path) != Some(IdentityOf(tree[path], digest)) {
      return false, false;
    }
    return tree[path].FileNode? ==> linkCount(path) == 1, true;
  }

  lemma NamedHasRow(entries: Entries, name: Name)
    requires SafeName(name) && name in entries
    ensures RowAt(entries, PathOf(name)).Some?
  {
    NamesAndPaths(name);
  }

  /** The walk visits `listing`, which names every node; `names` are the recorded names, `linkCount` the number of
      hard links of a file. */
  method VerifyStaged(tree: Tree, listing: seq<Path>, linkCount: Path -> nat, names: seq<Name>, entries: Entries,
                      digest: Digest, privileged: bool) returns (ok: bool)
    requires forall path :: path in listing <==> path in tree
    requires forall name :: name in names <==> name in entries
    requires DOT !in tree && forall name :: name in entries ==> SafeName(name)
    ensures ok <==> Verified(tree, entries, digest, privileged) && SingleNames(tree, linkCount, privileged)
  {
    hide Walked, PassesAt, SafeName, Implied, RowAt;
    var observed: set<Path> := {};
    for i := 0 to |listing|
      invariant forall k :: 0 <= k < i && Walked(tree, listing[k], privileged) ==>
                  && listing[k] in tree && PassesAt(tree, entries, digest, privileged, listing[k])
                  && (tree[listing[k]].FileNode? ==> linkCount(listing[k]) == 1)
      invariant forall path :: path in observed <==>
                  path in listing[..i] && Walked(tree, path, privileged) && RowAt(entries, path).Some?
    {
      var path := listing[i];
      assert path in listing;
      assert listing[..i + 1] == listing[..i] + [path];
      if Walked(tree, path, privileged) {
        var passes, recorded := ExamineNode(tree, path, linkCount, names, entries, digest, privileged);
        if !passes {
          return false;
        }
        if recorded {
          observed := observed + {path};
        }
      }
    }
    assert listing[..|listing|] == listing;
    ok := forall name :: name in names ==> PathOf(name) in observed;
    forall name | name in entries
      ensures PathOf(name) in observed <==> PathOf(name) in tree && Walked(tree, PathOf(name), privileged)
    {
      NamedHasRow(entries, name);
    }
  }

  // ---- When staging succeeds ----

  /** What the owner must be able to read to check the tree: every file, and every directory with something in it. */
  ghost predicate Visible(entries: Entries) {
    forall name :: name in entries ==>
      match entries[name]
      case FileRow(_, _, mode) => OwnerRead(mode)
      case DirectoryRow(mode) => (exists other :: other in entries && Below(PathOf(name), other)) ==>
          OwnerRead(mode) && OwnerSearch(mode)
      case _ => true
  }

  /** The bytes staged are the bytes recorded. */
  ghost predicate Recorded(entries: Entries, contents: map<Name, string>, digest: Digest) {
    forall path :: RowAt(entries, path).Some? && RowAt(entries, path).value.FileRow? ==>
      RowAt(entries, path).value ==
        FileRow(digest(ContentOf(contents, path)), |ContentOf(contents, path)|, RowAt(entries, path).value.mode)
  }

  /** Something staged has a recorded name at or below it. */
  lemma StagedHasName(tree: Tree, entries: Entries, contents: map<Name, string>, standard: int, path: Path, k: nat)
    returns (other: Name)
    requires ValidEntries(entries) && IsStaged(tree, entries, contents, standard) && path in tree && k < |path|
    ensures other in entries && Below(path[..k], other)
  {
    hide ValidEntries;
    assert At(tree, path) == Expected(entries, contents, standard, path);
    if RowAt(entries, path).Some? {
      RecordedIsBelow(entries, path, k);
      other := NameOf(path);
    } else {
      other :| other in entries && Below(path, other);
      assert PathOf(other)[..k] == path[..k];
    }
  }

  lemma OpenAbove(
    tree: Tree, entries: Entries, contents: map<Name, string>, standard: int, privileged: bool, path: Path, k: nat)
    requires ValidEntries(entries) && IsStaged(tree, entries, contents, standard) && Closed(tree) && Usable(standard)
    requires privileged || Visible(entries)
    requires path in tree && k < |path|
    ensures Listable(tree, path[..k], privileged) && Searchable(tree, path[..k], privileged)
  {
    hide ValidEntries;
    var directory := path[..k];
    assert IsDirectory(tree, directory);
    assert At(tree, directory) == Expected(entries, contents, standard, directory);
    var other := StagedHasName(tree, entries, contents, standard, path, k);
    if RowAt(entries, directory).Some? {
      SafeWhenValid(entries, NameOf(directory));
      assert PathOf(NameOf(directory)) == directory;
    }
  }

  lemma StagedPasses(
    tree: Tree, entries: Entries, contents: map<Name, string>, standard: int, digest: Digest, privileged: bool,
    path: Path)
    requires ValidEntries(entries) && IsStaged(tree, entries, contents, standard) && Closed(tree) && Usable(standard)
    requires Recorded(entries, contents, digest) && (privileged || Visible(entries)) && path in tree
    ensures PassesAt(tree, entries, digest, privileged, path)
  {
    hide ValidEntries, Usable, Implied;
    forall k | 0 <= k < |path|
      ensures Searchable(tree, path[..k], privileged)
    {
      OpenAbove(tree, entries, contents, standard, privileged, path, k);
    }
    assert At(tree, path) == Expected(entries, contents, standard, path);
    if RowAt(entries, path).Some? {
      SafeWhenValid(entries, NameOf(path));
    }
  }

  lemma NamedIsStaged(tree: Tree, entries: Entries, contents: map<Name, string>, standard: int, name: Name)
    requires ValidEntries(entries) && IsStaged(tree, entries, contents, standard) && name in entries
    ensures RowAt(entries, PathOf(name)) == Some(entries[name]) && PathOf(name) in tree
    ensures entries[name].FileRow? ==> tree[PathOf(name)].FileNode? && tree[PathOf(name)].mode == entries[name].mode
    ensures entries[name].DirectoryRow? ==> tree[PathOf(name)] == DirectoryNode(entries[name].mode)
  {
    hide ValidEntries;
    SafeWhenValid(entries, name);
    NamesAndPaths(name);
    assert At(tree, PathOf(name)) == Expected(entries, contents, standard, PathOf(name));
  }

  lemma VerifiedIsVisible(
    tree: Tree, entries: Entries, contents: map<Name, string>, standard: int, digest: Digest)
    requires ValidEntries(entries) && IsStaged(tree, entries, contents, standard)
    requires Verified(tree, entries, digest, false)
    ensures Visible(entries)
  {
    hide ValidEntries, IsStaged;
    forall name | name in entries
      ensures match entries[name]
        case FileRow(_, _, mode) => OwnerRead(mode)
        case DirectoryRow(mode) => (exists other :: other in entries && Below(PathOf(name), other)) ==>
            OwnerRead(mode) && OwnerSearch(mode)
        case _ => true
    {
      NamedIsStaged(tree, entries, contents, standard, name);
      var path := PathOf(name);
      assert PassesAt(tree, entries, digest, false, path);
      if entries[name].DirectoryRow? {
        forall other | other in entries && Below(path, other)
          ensures OwnerRead(entries[name].mode) && OwnerSearch(entries[name].mode)
        {
          assert PathOf(other)[..|path|] == path;
          assert Walked(tree, PathOf(other), false) && PassesAt(tree, entries, digest, false, PathOf(other));
          assert Listable(tree, path, false) && Searchable(tree, path, false);
        }
      }
    }
  }

  /** The staged tree passes its check exactly when the root is not recorded and its owner can look into it. */
  lemma StagedTreeIsVerified(
    tree: Tree, entries: Entries, contents: map<Name, string>, standard: int, digest: Digest, privileged: bool)
    requires ValidEntries(entries) && IsStaged(tree, entries, contents, standard) && Closed(tree) && Usable(standard)
    requires Recorded(entries, contents, digest)
    ensures Verified(tree, entries, digest, privileged) <==> DOT !in entries && (privileged || Visible(entries))
  {
    hide ValidEntries, Usable, IsStaged, Closed;
    if Verified(tree, entries, digest, privileged) {
      if !privileged {
        VerifiedIsVisible(tree, entries, contents, standard, digest);
      }
    }
    if DOT !in entries && (privileged || Visible(entries)) {
      forall path | path in tree
        ensures PassesAt(tree, entries, digest, privileged, path)
      {
        StagedPasses(tree, entries, contents, standard, digest, privileged, path);
      }
      forall name | name in entries
        ensures PathOf(name) in tree && Walked(tree, PathOf(name), privileged)
      {
        NamedIsStaged(tree, entries, contents, standard, name);
        SafeWhenValid(entries, name);
        forall k | 0 <= k < |PathOf(name)|
          ensures Listable(tree, PathOf(name)[..k], privileged)
        {
          OpenAbove(tree, entries, contents, standard, privileged, PathOf(name), k);
        }
      }
    }
  }

  lemma AdmittedMatches(member: Member, entries: Entries, digest: Digest)
    requires Admitted(member, entries, digest)
    ensures member.name in entries && MatchesRow(member, entries[member.name], digest)
  {
  }

  lemma MatchingIsRecorded(archive: Archive, entries: Entries, digest: Digest)
    requires ArchiveMatches(archive, entries, digest)
    ensures Recorded(entries, Contents(archive), digest)
  {
    hide Contents, Admitted;
    forall path | RowAt(entries, path).Some? && RowAt(entries, path).value.FileRow?
      ensures RowAt(entries, path).value ==
        FileRow(digest(ContentOf(Contents(archive), path)), |ContentOf(Contents(archive), path)|,
            RowAt(entries, path).value.mode)
    {
      var name := NameOf(path);
      assert InArchive(archive, name);
      var k :| 0 <= k < |archive| && archive[k].name == name;
      AdmittedMatches(archive[k], entries, digest);
      ContentsOfMember(archive, entries, digest, k);
    }
  }

  /** Every node of a tree, in some order: what a recursive walk that may see everything lists. */
  method Walk(tree: Tree) returns (listing: seq<Path>)
    ensures forall path :: path in listing <==> path in tree
  {
    listing := [];
    var rest := tree.Keys;
    while rest != {}
      invariant rest <= tree.Keys
      invariant forall path :: path in listing <==> path in tree.Keys - rest
    {
      var path :| path in rest;
      listing := listing + [path];
      rest := rest - {path};
    }
  }

  lemma StagedHasNoDot(tree: Tree, entries: Entries, contents: map<Name, string>, standard: int)
    requires ValidEntries(entries) && IsStaged(tree, entries, contents, standard)
    ensures DOT !in tree && forall name :: name in entries ==> SafeName(name)
  {
    hide ValidEntries;
    assert At(tree, DOT) == Expected(entries, contents, standard, DOT);
    forall name | name in entries
      ensures SafeName(name) && !Below(DOT, name)
    {
      SafeWhenValid(entries, name);
      NamesAndPaths(name);
      if |PathOf(name)| > 1 {
        assert PathOf(name)[..1][0] == PathOf(name)[0];
      }
    }
  }

  /** Stage an archive against a valid inventory whose names are listed in `names`. It succeeds exactly when the
      archive matches, the root is not recorded and the owner can look into what was staged; and then the tree is
      the expected one. */
  method Stage(archive: Archive, names: seq<Name>, entries: Entries, digest: Digest, standard: int, privileged: bool)
    returns (ok: bool, tree: Tree)
    requires ValidEntries(entries) && Usable(standard) && forall name :: name in names <==> name in entries
    ensures ok <==> ArchiveMatches(archive, entries, digest) && DOT !in entries && (privileged || Visible(entries))
    ensures ok ==> IsStaged(tree, entries, Contents(archive), standard)
  {
    hide ValidEntries, ArchiveMatches, IsStaged, Verified, Visible, Holds;
    hide Growing, Closed, ListsLinks, ListsDirectories, Usable;
    tree := map[];
    ok := VerifyArchive(archive, entries, digest);
    if !ok {
      return;
    }
    var destination := new Destination(standard, privileged);
    var links, directories;
    ok, links, directories := destination.RestoreAll(archive, entries, digest);
    if !ok {
      return;
    }
    ok := destination.MakeLinks(links, entries, Contents(archive));
    if !ok {
      return;
    }
    ok := destination.SetModes(directories, entries, Contents(archive), PathsOf(links));
    tree := destination.tree;
    FinishedIsExpected(tree, links, directories, entries, Contents(archive), standard);
    MatchingIsRecorded(archive, entries, digest);
    StagedTreeIsVerified(tree, entries, Contents(archive), standard, digest, privileged);
    StagedHasNoDot(tree, entries, Contents(archive), standard);
    var listing := Walk(tree);
    // Every file was just created, under one name.
    ok := VerifyStaged(tree, listing, _ => 1, names, entries, digest, privileged);
  }

  // ---- Order ----

  lemma SameMember(a: Archive, b: Archive, k: nat) returns (j: nat)
    requires multiset(a) == multiset(b) && k < |a|
    ensures j < |b| && b[j] == a[k]
  {
    assert a[k] in multiset(b);
    j :| 0 <= j < |b| && b[j] == a[k];
  }

  lemma OnceIsOnce(a: Archive, i: nat)
    requires i < |a| && forall j, k :: 0 <= j < k < |a| ==> a[j].name != a[k].name
    ensures multiset(a)[a[i]] == 1
  {
    assert a == a[..i] + [a[i]] + a[i + 1..];
    assert a[i] !in a[..i] && a[i] !in a[i + 1..];
  }

  lemma TwiceIsTwice(b: Archive, j: nat, k: nat)
    requires j < k < |b| && b[j] == b[k]
    ensures multiset(b)[b[j]] >= 2
  {
    assert b == b[..k] + [b[k]] + b[k + 1..];
    assert b[..k][j] == b[j];
    assert b[j] in multiset(b[..k]);
  }

  lemma OrderKeepsMatch(a: Archive, b: Archive, entries: Entries, digest: Digest)
    requires multiset(a) == multiset(b) && ArchiveMatches(a, entries, digest)
    ensures ArchiveMatches(b, entries, digest)
  {
    hide Admitted;
    forall k | 0 <= k < |b|
      ensures Admitted(b[k], entries, digest)
    {
      var j := SameMember(b, a, k);
    }
    forall name | name in entries
      ensures InArchive(b, name)
    {
      assert InArchive(a, name);
      var k :| 0 <= k < |a| && a[k].name == name;
      var j := SameMember(a, b, k);
    }
    forall j, k | 0 <= j < k < |b|
      ensures b[j].name != b[k].name
    {
      var i := SameMember(b, a, j);
      var l := SameMember(b, a, k);
      OnceIsOnce(a, i);
      if b[j] == b[k] {
        TwiceIsTwice(b, j, k);
      }
    }
  }

  lemma OrderKeepsContents(a: Archive, b: Archive, entries: Entries, digest: Digest, name: Name)
    requires multiset(a) == multiset(b) && name in Contents(a)
    requires ArchiveMatches(a, entries, digest) && ArchiveMatches(b, entries, digest)
    ensures name in Contents(b) && Contents(b)[name] == Contents(a)[name]
  {
    hide Contents, Admitted;
    var k := OnlyMembersHaveContents(a, name);
    ContentsOfMember(a, entries, digest, k);
    var j := SameMember(a, b, k);
    ContentsOfMember(b, entries, digest, j);
  }

  /** Two orders of the same members match alike and hold the same bytes, so they stage alike. */
  lemma OrderDoesNotMatter(a: Archive, b: Archive, entries: Entries, digest: Digest)
    requires multiset(a) == multiset(b)
    ensures ArchiveMatches(a, entries, digest) <==> ArchiveMatches(b, entries, digest)
    ensures ArchiveMatches(a, entries, digest) ==> Contents(a) == Contents(b)
  {
    hide Contents, Admitted;
    if ArchiveMatches(b, entries, digest) {
      OrderKeepsMatch(b, a, entries, digest);
    }
    if ArchiveMatches(a, entries, digest) {
      OrderKeepsMatch(a, b, entries, digest);
      forall name
        ensures name in Contents(a) <==> name in Contents(b)
        ensures name in Contents(a) && name in Contents(b) ==> Contents(a)[name] == Contents(b)[name]
      {
        if name in Contents(a) {
          OrderKeepsContents(a, b, entries, digest, name);
        }
        if name in Contents(b) {
          OrderKeepsContents(b, a, entries, digest, name);
        }
      }
    }
  }

  /** What is staged from one order of an archive is, path by path, what is staged from any other. */
  lemma EveryOrderStagesTheSameTree(
    a: Archive, b: Archive, entries: Entries, digest: Digest, standard: int, first: Tree, second: Tree)
    requires multiset(a) == multiset(b) && ArchiveMatches(a, entries, digest)
    requires IsStaged(first, entries, Contents(a), standard) && IsStaged(second, entries, Contents(b), standard)
    ensures ArchiveMatches(b, entries, digest) && first == second
  {
    hide ArchiveMatches, Contents, Expected;
    OrderDoesNotMatter(a, b, entries, digest);
    forall path
      ensures At(first, path) == At(second, path)
    {
      assert At(first, path) == Expected(entries, Contents(a), standard, path);
    }
    assert forall path :: path in first <==> At(first, path).Some?;
    assert forall path :: path in second <==> At(second, path).Some?;
  }

  // ---- Valid inventories that cannot be staged ----

  const SOME_DIGEST := seq(64, i => 'a')

  /** An inventory may record the root itself, as a directory say; no tree at all passes its check. */
  lemma RecordedRootIsNeverStaged(tree: Tree, digest: Digest, privileged: bool)
    ensures ValidEntries(map[DOT := DirectoryRow(0x1ed), ["a"] := FileRow(SOME_DIGEST, 0, 0x1a4)])
    ensures !Verified(tree, map[DOT := DirectoryRow(0x1ed), ["a"] := FileRow(SOME_DIGEST, 0, 0x1a4)], digest,
        privileged)
  {
    var entries: Entries := map[DOT := DirectoryRow(0x1ed), ["a"] := FileRow(SOME_DIGEST, 0, 0x1a4)];
    assert forall k :: 0 <= k < |["a"]| ==> ["a"][..k] == [];
    assert DOT in entries && PathOf(DOT) == [];
  }

  /** A closed directory with a file in it is valid, and is staged by a privileged user only. */
  lemma ClosedDirectoryNeedsPrivilege()
    ensures var entries: Entries := map[["a"] := DirectoryRow(0), ["a", "b"] := FileRow(SOME_DIGEST, 0, 0x1a4)];
      ValidEntries(entries) && DOT !in entries && !Visible(entries)
  {
    var entries: Entries := map[["a"] := DirectoryRow(0), ["a", "b"] := FileRow(SOME_DIGEST, 0, 0x1a4)];
    assert forall k :: 0 <= k < |["a"]| ==> ["a"][..k] == [];
    assert ["a", "b"][..0] == [] && ["a", "b"][..1] == ["a"];
    assert ["a"] in entries && ["a", "b"] in entries && Below(["a"], ["a", "b"]);
  }
}
