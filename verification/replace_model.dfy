/** Regeneration and publication of a model tree: generate, stage, adapt, publish, recover. */
module ReplaceModel {
  import opened Words
  import opened FileSystem

  // ---- What a fresh output may contain ----

  const FORBIDDEN_NAMES := {".lake", ".git", "target", "__pycache__"}

  const FORBIDDEN_SUFFIXES := {".olean", ".ilean", ".o", ".so", ".a", ".vo", ".vos", ".vok"}

  function SuffixFrom(name: string, i: int): string
    requires i < |name|
    decreases i + 1
  {
    if i <= 0 then "" else if name[i] == '.' then name[i..] else SuffixFrom(name, i - 1)
  }

  /** The last dot-suffix of a name; a leading or a final dot starts none. */
  function Suffix(name: string): string { SuffixFrom(name, |name| - 2) }

  predicate AllowedName(name: string) { name !in FORBIDDEN_NAMES && Suffix(name) !in FORBIDDEN_SUFFIXES }

  predicate AllRegular(tree: Tree) {
    match tree
    case File(_) => true
    case Directory(children) => forall name :: name in children ==> AllowedName(name) && AllRegular(children[name])
    case Link(_) => false
  }

  predicate HasFile(tree: Tree) {
    match tree
    case File(_) => true
    case Directory(children) => exists name :: name in children && HasFile(children[name])
    case Link(_) => false
  }

  /** A directory with at least one regular file and nothing but allowed directories and regular files. */
  predicate RegularTree(tree: Option<Tree>) {
    tree.Some? && tree.value.Directory? && AllRegular(tree.value) && HasFile(tree.value)
  }

  // ---- The places of a replacement ----

  datatype Places = Places(
    source: Path, sourcePrevious: Path, failedOutput: Path, destination: Path, destinationPrevious: Path, stage: Path)

  function PlacesOf(source: Path, destination: Path, generation: Path, install: Path): Places {
    Places(source, generation + ["previous"], generation + ["failed-output"],
           destination, install + ["previous"], install + ["staged"])
  }

  ghost predicate Different(p: Places) {
    && p.source != p.sourcePrevious && p.source != p.failedOutput && p.source != p.destination
    && p.source != p.destinationPrevious && p.source != p.stage
    && p.sourcePrevious != p.failedOutput && p.sourcePrevious != p.destination
    && p.sourcePrevious != p.destinationPrevious && p.sourcePrevious != p.stage
    && p.failedOutput != p.destination && p.failedOutput != p.destinationPrevious && p.failedOutput != p.stage
    && p.destination != p.destinationPrevious && p.destination != p.stage && p.destinationPrevious != p.stage
  }

  predicate Apart(a: Path, b: Path) { !Under(a, b) && !Under(b, a) }

  lemma ChildrenOfApart(a: Path, b: Path, x: string, y: string)
    requires Apart(a, b)
    ensures a + [x] != b + [y]
  {
    assert a == (a + [x])[..|a|] && b == (b + [y])[..|b|];
  }

  lemma PlacesAreDifferent(source: Path, destination: Path, generation: Path, install: Path)
    requires Apart(generation, install) && Apart(source, destination)
    requires !Under(source, generation) && !Under(source, install)
    requires !Under(destination, generation) && !Under(destination, install)
    ensures Different(PlacesOf(source, destination, generation, install))
  {
    ChildrenDiffer(generation, "previous", "failed-output");
    ChildrenDiffer(install, "previous", "staged");
    ChildrenOfApart(generation, install, "previous", "previous");
    ChildrenOfApart(generation, install, "previous", "staged");
    ChildrenOfApart(generation, install, "failed-output", "previous");
    ChildrenOfApart(generation, install, "failed-output", "staged");
  }

  datatype Record = Record(oldSourceSaved: bool, oldDestinationSaved: bool, published: bool)

  /** What the callbacks have produced so far. */
  datatype Work = Work(started: bool, generated: Option<Tree>, staged: Option<Tree>)

  function AllPlaces(p: Places): set<Path> {
    {p.source, p.sourcePrevious, p.failedOutput, p.destination, p.destinationPrevious, p.stage}
  }

  ghost predicate Elsewhere(now: Entries, before: Entries, p: Places) {
    forall path :: path !in AllPlaces(p) ==> At(now, path) == At(before, path)
  }

  /** Where everything is, read off the record and the work done. */
  ghost predicate LaidOut(now: Entries, before: Entries, p: Places, record: Record, work: Work) {
    var oldSource, oldDestination := At(before, p.source), At(before, p.destination);
    && (record.oldSourceSaved ==> oldSource.Some?) && (record.oldDestinationSaved ==> oldDestination.Some?)
    && (work.started ==> record.oldSourceSaved == oldSource.Some?)
    && (record.published ==> record.oldDestinationSaved == oldDestination.Some? && work.staged.Some? && work.started)
    && At(now, p.source) ==
         (if work.started then work.generated else if record.oldSourceSaved then None else oldSource)
    && At(now, p.sourcePrevious) == (if record.oldSourceSaved then oldSource else None)
    && At(now, p.failedOutput) == None
    && At(now, p.destination) ==
         (if record.published then work.staged else if record.oldDestinationSaved then None else oldDestination)
    && At(now, p.destinationPrevious) == (if record.oldDestinationSaved then oldDestination else None)
    && At(now, p.stage) == (if record.published then None else work.staged)
    && Elsewhere(now, before, p)
  }

  /** Both names as before the call, every output of the callbacks retained beside them. */
  ghost predicate Recovered(now: Entries, before: Entries, p: Places, work: Work) {
    && At(now, p.source) == At(before, p.source) && At(now, p.destination) == At(before, p.destination)
    && At(now, p.failedOutput) == (if work.started then work.generated else None)
    && At(now, p.stage) == work.staged
    && At(now, p.sourcePrevious) == None && At(now, p.destinationPrevious) == None
    && Elsewhere(now, before, p)
  }

  lemma SourceSaved(now: Entries, before: Entries, p: Places, record: Record, work: Work)
    requires Different(p) && LaidOut(now, before, p, record, work)
    requires record == Record(false, false, false) && !work.started && p.source in now
    ensures LaidOut(Renamed(now, p.source, p.sourcePrevious), before, p, record.(oldSourceSaved := true), work)
  {
  }

  lemma DestinationSaved(now: Entries, before: Entries, p: Places, record: Record, work: Work)
    requires Different(p) && LaidOut(now, before, p, record, work)
    requires !record.oldDestinationSaved && !record.published && p.destination in now
    ensures LaidOut(Renamed(now, p.destination, p.destinationPrevious), before, p,
        record.(oldDestinationSaved := true), work)
  {
  }

  lemma StagePublished(now: Entries, before: Entries, p: Places, record: Record, work: Work)
    requires Different(p) && LaidOut(now, before, p, record, work) && work.started && work.staged.Some?
    requires !record.published && record.oldDestinationSaved == At(before, p.destination).Some?
    ensures p.stage in now
    ensures LaidOut(Renamed(now, p.stage, p.destination), before, p, record.(published := true), work)
  {
  }

  /** Put a tree, or nothing, at a path. */
  function Placed(entries: Entries, path: Path, tree: Option<Tree>): Entries {
    if tree.Some? then entries[path := tree.value] else entries - {path}
  }

  lemma OutputGenerated(now: Entries, before: Entries, p: Places, record: Record, generated: Option<Tree>)
    requires Different(p) && LaidOut(now, before, p, record, Work(false, None, None)) && !record.published
    requires record.oldSourceSaved == At(before, p.source).Some?
    ensures LaidOut(Placed(now, p.source, generated), before, p, record, Work(true, generated, None))
  {
  }

  lemma OutputStaged(now: Entries, before: Entries, p: Places, record: Record, work: Work, staged: Option<Tree>)
    requires Different(p) && LaidOut(now, before, p, record, work) && !record.published
    ensures LaidOut(Placed(now, p.stage, staged), before, p, record, work.(staged := staged))
  {
  }

  /** What the callbacks and the copy leave behind, whether they succeed or fail. */
  datatype Callbacks = Callbacks(generated: Option<Tree>, partialCopy: Option<Tree>, adapted: Option<Tree>)

  /** What is produced when the guarded steps are numbered from `first`: generation starts once the old source is
      out of the way, and each later stage replaces what the one before it left. */
  ghost function WorkDone(fails: nat -> bool, first: nat, oldSource: Option<Tree>, callbacks: Callbacks): Work {
    var generating := first + SavingSteps(oldSource);
    if !AllSucceeded(fails, first, generating) then Work(false, None, None)
    else
      Work(true, callbacks.generated,
           if fails(generating) || !RegularTree(callbacks.generated) then None
           else if fails(generating + 1) then callbacks.partialCopy
           else callbacks.adapted)
  }

  /** The guarded steps up to the move that publishes: the old source, generation, copy, adaptation, the check of
      the destination, the old destination, the move. */
  function PublishingSteps(oldSource: Option<Tree>, oldDestination: Option<Tree>): nat {
    SavingSteps(oldSource) + 3 + 1 + SavingSteps(oldDestination) + 1
  }

  lemma Visible(now: Entries, before: Entries, p: Places, record: Record, work: Work)
    requires LaidOut(now, before, p, record, work)
    ensures !work.started && !record.oldSourceSaved ==> At(now, p.source) == At(before, p.source)
    ensures !record.published && !record.oldDestinationSaved ==> At(now, p.destination) == At(before, p.destination)
  {
  }

  class Replacement {
    const disk: Disk
    const places: Places
    ghost const before: Entries
    var record: Record
    var started: bool
    ghost var work: Work

    ghost predicate Valid()
      reads this, disk
    {
      && Different(places) && LaidOut(disk.entries, before, places, record, work) && work.started == started
    }

    constructor (disk: Disk, places: Places)
      requires Different(places)
      requires places.sourcePrevious !in disk.entries && places.failedOutput !in disk.entries
      requires places.destinationPrevious !in disk.entries && places.stage !in disk.entries
      ensures this.disk == disk && this.places == places && before == disk.entries
      ensures Valid() && record == Record(false, false, false) && work == Work(false, None, None)
    {
      this.disk, this.places, before := disk, places, disk.entries;
      record, started, work := Record(false, false, false), false, Work(false, None, None);
    }

    method SaveSource() returns (ok: bool)
      requires Valid() && record == Record(false, false, false) && work == Work(false, None, None)
      modifies this`record, disk
      ensures Valid() && disk.Took(ok, old(disk.steps), SavingSteps(At(before, places.source)))
      ensures record == Record(record.oldSourceSaved, false, false)
      ensures ok ==> record.oldSourceSaved == At(before, places.source).Some?
    {
      hide LaidOut, Renamed;
      Visible(disk.entries, before, places, record, work);
      ok := true;
      if places.source in disk.entries {
        SourceSaved(disk.entries, before, places, record, work);
        ok := disk.Move(places.source, places.sourcePrevious);
        if !ok { return; }
        record := record.(oldSourceSaved := true);
        ok := disk.Step();
      }
    }

    /** The copy of the generated tree to the stage, and its adaptation there. */
    method CopyAndAdapt(callbacks: Callbacks) returns (ok: bool)
      requires Valid() && !record.published && work == Work(true, callbacks.generated, None)
      modifies this`work, disk
      ensures Valid() && old(disk.steps) <= disk.steps
      ensures work == Work(true, callbacks.generated,
                           if disk.fails(old(disk.steps)) then callbacks.partialCopy else callbacks.adapted)
      ensures ok ==> disk.steps == old(disk.steps) + 2
      ensures ok <==> AllSucceeded(disk.fails, old(disk.steps), old(disk.steps) + 2) && RegularTree(callbacks.adapted)
    {
      hide LaidOut, RegularTree, Renamed, Placed;
      var copied := disk.Step();
      var copy := if copied then callbacks.generated else callbacks.partialCopy;
      OutputStaged(disk.entries, before, places, record, work, copy);
      work := work.(staged := copy);
      disk.entries := Placed(disk.entries, places.stage, copy);
      if !copied {
        return false;
      }
      OutputStaged(disk.entries, before, places, record, work, callbacks.adapted);
      work := work.(staged := callbacks.adapted);
      disk.entries := Placed(disk.entries, places.stage, callbacks.adapted);
      ok := disk.Step();
      ok := ok && RegularTree(callbacks.adapted);
    }

    /** Both callbacks, the copy between them, and the checks of what they leave. */
    method GenerateAndAdapt(callbacks: Callbacks) returns (ok: bool)
      requires Valid() && !record.published && work == Work(false, None, None)
      requires record.oldSourceSaved == At(before, places.source).Some?
      modifies this`started, this`work, disk
      ensures Valid() && work == WorkDone(disk.fails, old(disk.steps), None, callbacks)
      ensures old(disk.steps) <= disk.steps
        && (ok ==> disk.steps == old(disk.steps) + 3 && work.staged == callbacks.adapted)
      ensures ok <==> AllSucceeded(disk.fails, old(disk.steps), old(disk.steps) + 3)
                      && RegularTree(callbacks.generated) && RegularTree(callbacks.adapted)
    {
      hide LaidOut, RegularTree, Renamed, Placed;
      OutputGenerated(disk.entries, before, places, record, callbacks.generated);
      started, work := true, Work(true, callbacks.generated, None);
      disk.entries := Placed(disk.entries, places.source, callbacks.generated);
      ok := disk.Step();
      if !ok || !RegularTree(callbacks.generated) {
        return false;
      }
      ok := CopyAndAdapt(callbacks);
    }

    /** The guarded steps. Only the last save can fail once `published` is set. */
    method Publish(callbacks: Callbacks) returns (ok: bool)
      requires Valid() && record == Record(false, false, false) && work == Work(false, None, None)
      modifies this`record, this`started, this`work, disk
      ensures Valid() && old(disk.steps) <= disk.steps
      ensures work == WorkDone(disk.fails, old(disk.steps), At(before, places.source), callbacks)
      ensures record.published ==> work.staged == callbacks.adapted && work.generated == callbacks.generated
      ensures var count := PublishingSteps(At(before, places.source), At(before, places.destination));
        && (record.published <==> AllSucceeded(disk.fails, old(disk.steps), old(disk.steps) + count)
                                  && RegularTree(callbacks.generated) && RegularTree(callbacks.adapted))
        && (ok <==> record.published && !disk.fails(old(disk.steps) + count))
        && (ok ==> disk.steps == old(disk.steps) + count + 1)
    {
      hide LaidOut, RegularTree, Different;
      ok := SaveSource();
      if !ok { return; }
      ok := GenerateAndAdapt(callbacks);
      if !ok { return; }
      ok := disk.Step();
      if !ok { return; }
      ok := MoveIntoPlace(callbacks);
    }

    method MoveIntoPlace(callbacks: Callbacks) returns (ok: bool)
      requires Valid() && !record.oldDestinationSaved && !record.published && started
      requires work.staged == callbacks.adapted && RegularTree(callbacks.adapted)
      modifies this`record, disk
      ensures Valid() && old(disk.steps) <= disk.steps
      ensures var count := SavingSteps(At(before, places.destination)) + 1;
        && (record.published <==> AllSucceeded(disk.fails, old(disk.steps), old(disk.steps) + count))
        && (ok <==> record.published && !disk.fails(old(disk.steps) + count))
        && (ok ==> disk.steps == old(disk.steps) + count + 1)
    {
      hide LaidOut, Renamed;
      Visible(disk.entries, before, places, record, work);
      if places.destination in disk.entries {
        DestinationSaved(disk.entries, before, places, record, work);
        ok := disk.Move(places.destination, places.destinationPrevious);
        if !ok { return; }
        record := record.(oldDestinationSaved := true);
        ok := disk.Step();
        if !ok { return; }
      }
      StagePublished(disk.entries, before, places, record, work);
      ok := disk.Move(places.stage, places.destination);
      if !ok { return; }
      record := record.(published := true);
      ok := disk.Step();
    }

    /** Recovery, driven by the record: nothing is undone once `published` is set. */
    method Recover()
      requires Valid()
      modifies disk`entries
      ensures record.published ==> disk.entries == old(disk.entries)
      ensures !record.published ==> Recovered(disk.entries, before, places, work)
    {
      if !record.published {
        if record.oldDestinationSaved && places.destination !in disk.entries {
          disk.Rename(places.destinationPrevious, places.destination);
        }
        if started && places.source in disk.entries {
          disk.Rename(places.source, places.failedOutput);
        }
        if record.oldSourceSaved {
          disk.Rename(places.sourcePrevious, places.source);
        }
      }
    }
  }

  /** The old trees retained, the new tree in place. */
  ghost predicate PublishedWith(now: Entries, before: Entries, p: Places, callbacks: Callbacks) {
    && At(now, p.destination) == callbacks.adapted && RegularTree(callbacks.adapted)
    && At(now, p.destinationPrevious) == At(before, p.destination)
    && At(now, p.source) == callbacks.generated && RegularTree(callbacks.generated)
    && At(now, p.sourcePrevious) == At(before, p.source)
    && Elsewhere(now, before, p)
  }

  /** Distinct, non-nested, and each absent or a directory. */
  predicate Acceptable(entries: Entries, source: Path, destination: Path) {
    && source != [] && destination != [] && Apart(source, destination)
    && (source in entries ==> entries[source].Directory?)
    && (destination in entries ==> entries[destination].Directory?)
  }

  /** The transaction gets as far as its guarded steps: the paths are acceptable and the first save succeeds. */
  predicate Begins(entries: Entries, source: Path, destination: Path, parentIsDirectory: bool, fails: nat -> bool,
      first: nat) {
    Acceptable(entries, source, destination) && parentIsDirectory && !fails(first)
  }

  lemma NothingProduced(entries: Entries, p: Places)
    requires p.failedOutput !in entries && p.stage !in entries
    requires p.sourcePrevious !in entries && p.destinationPrevious !in entries
    ensures Recovered(entries, entries, p, Work(false, None, None))
  {
  }

  /** `generation` and `install` are the directories made by `mkdtemp` beside source and destination. */
  method Replace(disk: Disk, source: Path, destination: Path, parentIsDirectory: bool, generation: Path, install: Path,
                 callbacks: Callbacks) returns (returned: bool, published: bool)
    requires Fresh(generation, disk.entries) && Fresh(install, disk.entries) && Apart(generation, install)
    requires !Under(source, generation) && !Under(source, install)
    requires !Under(destination, generation) && !Under(destination, install)
    modifies disk
    // Not published: both names as before, and whatever the steps had produced is retained beside them.
    // Published: the adapted stage in place, and both old trees retained.
    ensures var p := PlacesOf(source, destination, generation, install);
      if published then PublishedWith(disk.entries, old(disk.entries), p, callbacks)
      else Recovered(disk.entries, old(disk.entries), p,
                     if Begins(old(disk.entries), source, destination, parentIsDirectory, disk.fails, old(disk.steps))
                     then WorkDone(disk.fails, old(disk.steps) + 1, At(old(disk.entries), source), callbacks)
                     else Work(false, None, None))
    ensures !Begins(old(disk.entries), source, destination, parentIsDirectory, disk.fails, old(disk.steps)) ==>
      disk.entries == old(disk.entries)
    // It publishes exactly when no step up to the publishing move fails and both trees are regular, and returns
    // exactly when the save after that does not fail either.
    ensures var first := old(disk.steps) + 1;
      var count := PublishingSteps(At(old(disk.entries), source), At(old(disk.entries), destination));
      && (published <==>
            && Begins(old(disk.entries), source, destination, parentIsDirectory, disk.fails, old(disk.steps))
            && AllSucceeded(disk.fails, first, first + count)
            && RegularTree(callbacks.generated) && RegularTree(callbacks.adapted))
      && (returned <==> published && !disk.fails(first + count))
      && (returned ==> disk.steps == first + count + 1)
  {
    hide RegularTree, WorkDone;
    returned, published := false, false;
    NothingProduced(disk.entries, PlacesOf(source, destination, generation, install));
    if !Acceptable(disk.entries, source, destination) || !parentIsDirectory {
      return;
    }
    PlacesAreDifferent(source, destination, generation, install);
    var saved := disk.Step();
    if !saved {
      return;
    }
    var replacement := new Replacement(disk, PlacesOf(source, destination, generation, install));
    returned := replacement.Publish(callbacks);
    published := replacement.record.published;
    if !returned {
      replacement.Recover();
      var noted := disk.Step();
    }
  }
}
