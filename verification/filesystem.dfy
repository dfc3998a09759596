/** A file system as a map from paths to whole trees; rename is one atomic step that may fail. */
module FileSystem {
  import opened Words

  /** Path components from the root of the file system. */
  type Path = seq<string>

  datatype Tree = File(content: string) | Directory(children: map<string, Tree>) | Link(to: string)

  type Entries = map<Path, Tree>

  function At(entries: Entries, path: Path): Option<Tree> {
    if path in entries then Some(entries[path]) else None
  }

  predicate Under(path: Path, directory: Path) { directory <= path }

  /** A directory just made by `mkdtemp`: nothing is in it yet. */
  ghost predicate Fresh(directory: Path, entries: Entries) {
    forall path :: path in entries ==> !Under(path, directory)
  }

  /** Names differ below the same directory. */
  lemma ChildrenDiffer(directory: Path, a: string, b: string)
    requires a != b
    ensures directory + [a] != directory + [b]
  {
    assert (directory + [a])[|directory|] == a;
    assert (directory + [b])[|directory|] == b;
  }

  /** The tree at `from`, if any, is at `to` instead, where it replaces whatever was there. */
  function Renamed(entries: Entries, from: Path, to: Path): Entries
    requires from in entries
  {
    (entries - {from})[to := entries[from]]
  }

  /** The steps of saving an old tree that is there: the move and the save of the record. */
  function SavingSteps(former: Option<Tree>): nat { if former.Some? then 2 else 0 }

  ghost predicate AllSucceeded(fails: nat -> bool, from: nat, to: nat) {
    forall k :: from <= k < to ==> !fails(k)
  }

  /** The primitive steps of a transaction. The adversary `fails` decides, by number, which of them fail. */
  class Disk {
    var entries: Entries
    var steps: nat
    const fails: nat -> bool

    constructor (entries: Entries, fails: nat -> bool)
      ensures this.entries == entries && this.fails == fails && steps == 0
    {
      this.entries := entries;
      this.fails := fails;
      steps := 0;
    }

    /** At most `count` steps were taken since `from`; `ok` says that all of them were, and succeeded. */
    ghost predicate Took(ok: bool, from: nat, count: nat)
      reads this
    {
      && from <= steps <= from + count
      && (ok <==> AllSucceeded(fails, from, from + count))
      && (ok ==> steps == from + count)
    }

    /** A step outside the map (a save, a copy, a check), which succeeds or fails. */
    method Step() returns (ok: bool)
      modifies this`steps
      ensures ok == !fails(old(steps)) && steps == old(steps) + 1
    {
      ok := !fails(steps);
      steps := steps + 1;
    }

    /** A rename that may fail, and then changes nothing. */
    method Move(from: Path, to: Path) returns (ok: bool)
      requires from in entries
      modifies this
      ensures ok == !fails(old(steps)) && steps == old(steps) + 1
      ensures entries == if ok then Renamed(old(entries), from, to) else old(entries)
    {
      ok := Step();
      if ok {
        Rename(from, to);
      }
    }

    /** A rename of recovery, which is taken not to fail. */
    method Rename(from: Path, to: Path)
      requires from in entries
      modifies this`entries
      ensures entries == Renamed(old(entries), from, to)
    {
      entries := Renamed(entries, from, to);
    }
  }
}
