/** Publication of a model directory and its LLBC file as a pair, with backups and rollback. */
module Install {
  import opened Words
  import opened FileSystem

  /** The SHA-256 of some contents; nothing about it is used but that it is a function. */
  type Digest = string -> string

  datatype Provenance = Provenance(modelDigest: string, llbcDigest: string)

  datatype Status = Running | Installed | FailedRestored

  datatype Record = Record(
    status: Status, oldModelSaved: bool, oldLlbcSaved: bool, newModelInstalled: bool, newLlbcInstalled: bool)

  const MODEL := "CkbVmProduction.lean"

  function Destination(root: Path): Path { root + ["proof", "lean", "generated", "rust"] }

  function Target(root: Path): Path { root + ["target", "CkbVmProduction.llbc"] }

  function Backup(root: Path, suffix: string): Path {
    root + ["proof", "lean", "generated", ".rust-install-" + suffix]
  }

  /** All the steps of an installation that goes through: staging, the first save, saving the old pair, a move and a
      save for each new object, the last save. */
  function InstallSteps(entries: Entries, root: Path): nat {
    2 + SavingSteps(At(entries, Destination(root))) + SavingSteps(At(entries, Target(root))) + 4 + 1
  }

  /** What `sha(destination / MODEL)` and `sha(target)` read; `None` when there is no such file. */
  function PairDigests(model: Option<Tree>, llbc: Option<Tree>, digest: Digest): Option<Provenance> {
    if model.Some? && model.value.Directory? && MODEL in model.value.children && model.value.children[MODEL].File?
       && llbc.Some? && llbc.value.File?
    then Some(Provenance(digest(model.value.children[MODEL].content), digest(llbc.value.content)))
    else None
  }

  /** The (model, LLBC) pair as a reader of the two published paths sees it. */
  function Published(entries: Entries, root: Path): (Option<Tree>, Option<Tree>) {
    (At(entries, Destination(root)), At(entries, Target(root)))
  }

  // ---- Where the two objects are ----

  /** One of the two objects: where it is published, and its places in the backup directory. */
  datatype Half = Half(published: Path, previous: Path, staged: Path, failed: Path, output: Tree)

  function ModelHalf(root: Path, suffix: string, model: Tree): Half {
    var backup := Backup(root, suffix);
    Half(Destination(root), backup + ["previous"], backup + ["staged"], backup + ["failed-new-model"], model)
  }

  function LlbcHalf(root: Path, suffix: string, llbc: Tree): Half {
    var backup := Backup(root, suffix);
    Half(Target(root), backup + ["previous.llbc"], backup + ["staged.llbc"], backup + ["failed-new.llbc"], llbc)
  }

  function Places(half: Half): seq<Path> { [half.published, half.previous, half.staged, half.failed] }

  ghost predicate AllDifferent(paths: seq<Path>) {
    forall j, k :: 0 <= j < k < |paths| ==> paths[j] != paths[k]
  }

  ghost predicate Disjoint(a: Half, b: Half) {
    && AllDifferent(Places(a)) && AllDifferent(Places(b))
    && forall path :: path in Places(a) ==> path !in Places(b)
  }

  datatype Whereabouts = Staged | Out | Aside

  /** The new tree is in exactly one of its places; the old one is published until it is saved. */
  ghost predicate HalfAt(now: Entries, before: Entries, half: Half, saved: bool, place: Whereabouts) {
    var former := At(before, half.published);
    && (saved ==> former.Some?) && (place == Out ==> saved == former.Some?)
    && At(now, half.published) == (if place == Out then Some(half.output) else if saved then None else former)
    && At(now, half.previous) == (if saved then former else None)
    && At(now, half.staged) == (if place == Staged then Some(half.output) else None)
    && At(now, half.failed) == (if place == Aside then Some(half.output) else None)
  }

  lemma DifferentPlaces(half: Half)
    requires AllDifferent(Places(half))
    ensures half.published != half.previous && half.published != half.staged && half.previous != half.staged
    ensures half.failed != half.published && half.failed != half.previous && half.failed != half.staged
  {
    var places := Places(half);
    assert places[0] != places[1] && places[0] != places[2] && places[1] != places[2];
    assert places[0] != places[3] && places[1] != places[3] && places[2] != places[3];
  }

  lemma OldIsSaved(now: Entries, before: Entries, half: Half)
    requires AllDifferent(Places(half)) && HalfAt(now, before, half, false, Staged) && half.published in now
    ensures HalfAt(Renamed(now, half.published, half.previous), before, half, true, Staged)
  {
    DifferentPlaces(half);
  }

  lemma NewGoesOut(now: Entries, before: Entries, half: Half, saved: bool)
    requires AllDifferent(Places(half)) && HalfAt(now, before, half, saved, Staged)
    requires saved == At(before, half.published).Some?
    ensures half.staged in now
    ensures HalfAt(Renamed(now, half.staged, half.published), before, half, saved, Out)
  {
    DifferentPlaces(half);
  }

  lemma NewGoesAside(now: Entries, before: Entries, half: Half, saved: bool)
    requires AllDifferent(Places(half)) && HalfAt(now, before, half, saved, Out)
    ensures half.published in now
    ensures HalfAt(Renamed(now, half.published, half.failed), before, half, saved, Aside)
  {
    DifferentPlaces(half);
  }

  lemma OldComesBack(now: Entries, before: Entries, half: Half, place: Whereabouts)
    requires AllDifferent(Places(half)) && HalfAt(now, before, half, true, place) && place != Out
    ensures half.previous in now
    ensures HalfAt(Renamed(now, half.previous, half.published), before, half, false, place)
  {
    DifferentPlaces(half);
  }

  /** Moving one object about does not disturb the other. */
  lemma OtherHalfStays(now: Entries, before: Entries, half: Half, other: Half, from: Path, to: Path, saved: bool,
      place: Whereabouts)
    requires Disjoint(half, other) && from in Places(half) && to in Places(half) && from in now
    requires HalfAt(now, before, other, saved, place)
    ensures HalfAt(Renamed(now, from, to), before, other, saved, place)
  {
    forall path | path in Places(other)
      ensures At(Renamed(now, from, to), path) == At(now, path)
    {
    }
    assert other.published in Places(other) && other.previous in Places(other);
    assert other.staged in Places(other) && other.failed in Places(other);
  }

  /** The published paths are different and outside the backup directory. */
  lemma PublishedOutside(root: Path, suffix: string)
    ensures Destination(root) != Target(root)
    ensures !Under(Destination(root), Backup(root, suffix)) && !Under(Target(root), Backup(root, suffix))
  {
    var backup := Backup(root, suffix);
    assert |Destination(root)| == |backup| && |Target(root)| < |backup|;
    assert Destination(root)[|root| + 3] == "rust" && backup[|root| + 3][0] == '.';
    assert "rust"[0] == 'r';
  }

  lemma PlacesDiffer(root: Path, suffix: string, model: Tree, llbc: Tree)
    ensures Disjoint(ModelHalf(root, suffix, model), LlbcHalf(root, suffix, llbc))
    ensures Disjoint(LlbcHalf(root, suffix, llbc), ModelHalf(root, suffix, model))
  {
    hide Backup, Destination, Target;
    PublishedOutside(root, suffix);
    var backup := Backup(root, suffix);
    var m, l := Places(ModelHalf(root, suffix, model)), Places(LlbcHalf(root, suffix, llbc));
    assert |"previous"| == 8 && |"previous.llbc"| == 13 && |"staged"| == 6;
    assert |"staged.llbc"| == 11 && |"failed-new.llbc"| == 15 && |"failed-new-model"| == 16;
    assert m[1][|backup|] == "previous" && m[2][|backup|] == "staged" && m[3][|backup|] == "failed-new-model";
    assert l[1][|backup|] == "previous.llbc" && l[2][|backup|] == "staged.llbc" && l[3][|backup|] == "failed-new.llbc";
  }

  /** Nothing outside the backup directory is touched, but for the two published paths. */
  ghost predicate Elsewhere(now: Entries, before: Entries, root: Path, suffix: string) {
    forall path :: !Under(path, Backup(root, suffix)) && path != Destination(root) && path != Target(root) ==>
      At(now, path) == At(before, path)
  }

  /** The tree is at one of the published paths or in the backup directory. */
  ghost predicate Kept(tree: Tree, entries: Entries, root: Path, suffix: string) {
    exists path :: At(entries, path) == Some(tree) &&
      (path == Destination(root) || path == Target(root) || Under(path, Backup(root, suffix)))
  }

  /** An object of this installation: its places are published paths or in the backup directory. */
  ghost predicate Owned(half: Half, root: Path, suffix: string) {
    forall path :: path in Places(half) ==>
      path == Destination(root) || path == Target(root) || Under(path, Backup(root, suffix))
  }

  lemma ElsewhereStays(now: Entries, before: Entries, root: Path, suffix: string, half: Half, from: Path, to: Path)
    requires Elsewhere(now, before, root, suffix) && Owned(half, root, suffix)
    requires from in Places(half) && to in Places(half) && from in now
    ensures Elsewhere(Renamed(now, from, to), before, root, suffix)
  {
  }

  lemma NoSharedPlaces(a: Half, b: Half)
    requires Disjoint(a, b)
    ensures AllDifferent(Places(a)) && AllDifferent(Places(b))
    ensures a.staged != b.published && a.staged != b.previous && a.staged != b.staged && a.staged != b.failed
    ensures b.staged != a.published && b.staged != a.previous && b.staged != a.failed
  {
    assert a.staged in Places(a) && b.staged in Places(b) && a.published in Places(a) && b.published in Places(b);
    assert a.previous in Places(a) && b.previous in Places(b) && a.failed in Places(a) && b.failed in Places(b);
  }

  lemma StagedInFreshBackup(before: Entries, root: Path, suffix: string, model: Tree, llbc: Tree)
    requires Fresh(Backup(root, suffix), before)
    ensures var a, b := ModelHalf(root, suffix, model), LlbcHalf(root, suffix, llbc);
      var now := before[a.staged := model][b.staged := llbc];
      && HalfAt(now, before, a, false, Staged) && HalfAt(now, before, b, false, Staged)
      && Elsewhere(now, before, root, suffix) && Owned(a, root, suffix) && Owned(b, root, suffix)
  {
    hide Backup, Destination, Target, Disjoint, AllDifferent;
    PublishedOutside(root, suffix);
    PlacesDiffer(root, suffix, model, llbc);
    var a, b := ModelHalf(root, suffix, model), LlbcHalf(root, suffix, llbc);
    NoSharedPlaces(a, b);
    DifferentPlaces(a);
    DifferentPlaces(b);
  }

  lemma WhatIsPublished(now: Entries, before: Entries, half: Half, saved: bool, place: Whereabouts)
    requires HalfAt(now, before, half, saved, place)
    ensures place == Out ==> At(now, half.published) == Some(half.output)
    ensures place != Out && !saved ==> At(now, half.published) == At(before, half.published)
  {
  }

  /** Each move keeps the other object and everything else in place. */
  lemma SaveOfHalf(now: Entries, before: Entries, half: Half, other: Half, root: Path, suffix: string, saved: bool,
      place: Whereabouts)
    requires Disjoint(half, other) && Owned(half, root, suffix) && Elsewhere(now, before, root, suffix)
    requires HalfAt(now, before, half, false, Staged) && HalfAt(now, before, other, saved, place)
    requires half.published in now
    ensures var later := Renamed(now, half.published, half.previous);
      && HalfAt(later, before, half, true, Staged) && HalfAt(later, before, other, saved, place)
      && Elsewhere(later, before, root, suffix)
  {
    hide HalfAt, Elsewhere, Renamed, Owned;
    OldIsSaved(now, before, half);
    OtherHalfStays(now, before, half, other, half.published, half.previous, saved, place);
    ElsewhereStays(now, before, root, suffix, half, half.published, half.previous);
  }

  lemma NewOfHalf(now: Entries, before: Entries, half: Half, other: Half, root: Path, suffix: string,
                  saved: bool, otherSaved: bool, place: Whereabouts)
    requires Disjoint(half, other) && Owned(half, root, suffix) && Elsewhere(now, before, root, suffix)
    requires HalfAt(now, before, half, saved, Staged) && HalfAt(now, before, other, otherSaved, place)
    requires saved == At(before, half.published).Some?
    ensures half.staged in now
    ensures var later := Renamed(now, half.staged, half.published);
      && HalfAt(later, before, half, saved, Out) && HalfAt(later, before, other, otherSaved, place)
      && Elsewhere(later, before, root, suffix)
  {
    hide HalfAt, Elsewhere, Renamed, Owned;
    NewGoesOut(now, before, half, saved);
    OtherHalfStays(now, before, half, other, half.staged, half.published, otherSaved, place);
    ElsewhereStays(now, before, root, suffix, half, half.staged, half.published);
  }

  lemma AsideOfHalf(now: Entries, before: Entries, half: Half, other: Half, root: Path, suffix: string,
                    saved: bool, otherSaved: bool, place: Whereabouts)
    requires Disjoint(half, other) && Owned(half, root, suffix) && Elsewhere(now, before, root, suffix)
    requires HalfAt(now, before, half, saved, Out) && HalfAt(now, before, other, otherSaved, place)
    ensures half.published in now
    ensures var later := Renamed(now, half.published, half.failed);
      && HalfAt(later, before, half, saved, Aside) && HalfAt(later, before, other, otherSaved, place)
      && Elsewhere(later, before, root, suffix)
  {
    hide HalfAt, Elsewhere, Renamed, Owned;
    NewGoesAside(now, before, half, saved);
    OtherHalfStays(now, before, half, other, half.published, half.failed, otherSaved, place);
    ElsewhereStays(now, before, root, suffix, half, half.published, half.failed);
  }

  lemma BackOfHalf(now: Entries, before: Entries, half: Half, other: Half, root: Path, suffix: string,
                   at: Whereabouts, otherSaved: bool, place: Whereabouts)
    requires Disjoint(half, other) && Owned(half, root, suffix) && Elsewhere(now, before, root, suffix)
    requires HalfAt(now, before, half, true, at) && at != Out && HalfAt(now, before, other, otherSaved, place)
    ensures half.previous in now
    ensures var later := Renamed(now, half.previous, half.published);
      && HalfAt(later, before, half, false, at) && HalfAt(later, before, other, otherSaved, place)
      && Elsewhere(later, before, root, suffix)
  {
    hide HalfAt, Elsewhere, Renamed, Owned;
    OldComesBack(now, before, half, at);
    OtherHalfStays(now, before, half, other, half.previous, half.published, otherSaved, place);
    ElsewhereStays(now, before, root, suffix, half, half.previous, half.published);
  }

  class Installation {
    const disk: Disk
    const root: Path
    const suffix: string
    const model: Half
    const llbc: Half
    ghost const before: Entries
    var record: Record

    /** The flags of the record say where everything is. */
    ghost predicate Valid()
      reads this, disk
    {
      && Settled()
      && HalfAt(disk.entries, before, model, record.oldModelSaved, if record.newModelInstalled then Out else Staged)
      && HalfAt(disk.entries, before, llbc, record.oldLlbcSaved, if record.newLlbcInstalled then Out else Staged)
      && Elsewhere(disk.entries, before, root, suffix)
    }

    ghost predicate Settled() {
      && Disjoint(model, llbc) && Disjoint(llbc, model)
      && Owned(model, root, suffix) && Owned(llbc, root, suffix)
      && model.published == Destination(root) && llbc.published == Target(root)
    }

    /** The backup directory with the staged copies of the new pair in it. */
    constructor (disk: Disk, root: Path, suffix: string, model: Tree, llbc: Tree)
      requires Fresh(Backup(root, suffix), disk.entries)
      modifies disk
      ensures this.disk == disk && this.root == root && this.suffix == suffix
      ensures this.model == ModelHalf(root, suffix, model) && this.llbc == LlbcHalf(root, suffix, llbc)
      ensures before == old(disk.entries) && disk.steps == old(disk.steps)
      ensures record == Record(Running, false, false, false, false) && Valid()
    {
      this.disk, this.root, this.suffix := disk, root, suffix;
      this.model, this.llbc := ModelHalf(root, suffix, model), LlbcHalf(root, suffix, llbc);
      before := disk.entries;
      record := Record(Running, false, false, false, false);
      new;
      disk.entries := disk.entries[this.model.staged := model][this.llbc.staged := llbc];
      PlacesDiffer(root, suffix, model, llbc);
      StagedInFreshBackup(before, root, suffix, model, llbc);
    }

    /** Move each old object away, if there is one: the move, the flag that says it happened, the save. */
    method SaveOldPair() returns (ok: bool)
      requires Valid() && record == Record(Running, false, false, false, false)
      modifies this`record, disk
      ensures Valid()
      ensures disk.Took(
          ok, old(disk.steps), SavingSteps(At(before, model.published)) + SavingSteps(At(before, llbc.published)))
      ensures !record.newModelInstalled && !record.newLlbcInstalled
      ensures ok ==> record.oldModelSaved == At(before, model.published).Some?
      ensures ok ==> record.oldLlbcSaved == At(before, llbc.published).Some?
    {
      hide HalfAt, Elsewhere, Disjoint, Owned, PairDigests, Renamed;
      WhatIsPublished(disk.entries, before, model, false, Staged);
      if model.published in disk.entries {
        SaveOfHalf(disk.entries, before, model, llbc, root, suffix, false, Staged);
        ok := disk.Move(model.published, model.previous);
        if !ok { return; }
        record := record.(oldModelSaved := true);
        ok := disk.Step();
        if !ok { return; }
      }
      WhatIsPublished(disk.entries, before, llbc, false, Staged);
      if llbc.published in disk.entries {
        SaveOfHalf(disk.entries, before, llbc, model, root, suffix, record.oldModelSaved, Staged);
        ok := disk.Move(llbc.published, llbc.previous);
        if !ok { return; }
        record := record.(oldLlbcSaved := true);
        ok := disk.Step();
        if !ok { return; }
      }
      ok := true;
    }

    /** Move each new object into place: the move, the flag that says it happened, the save. */
    method PutNewPair() returns (ok: bool)
      requires Valid() && !record.newModelInstalled && !record.newLlbcInstalled
      requires record.oldModelSaved == At(before, model.published).Some?
      requires record.oldLlbcSaved == At(before, llbc.published).Some?
      modifies this`record, disk
      ensures Valid() && disk.Took(ok, old(disk.steps), 4)
      ensures ok ==> record.newModelInstalled && record.newLlbcInstalled
    {
      hide HalfAt, Elsewhere, Disjoint, Owned, PairDigests, Renamed;
      NewOfHalf(disk.entries, before, model, llbc, root, suffix, record.oldModelSaved, record.oldLlbcSaved, Staged);
      ok := disk.Move(model.staged, model.published);
      if !ok { return; }
      record := record.(newModelInstalled := true);
      ok := disk.Step();
      if !ok { return; }
      NewOfHalf(disk.entries, before, llbc, model, root, suffix, record.oldLlbcSaved, record.oldModelSaved, Out);
      ok := disk.Move(llbc.staged, llbc.published);
      if !ok { return; }
      record := record.(newLlbcInstalled := true);
      ok := disk.Step();
    }

    /** The guarded steps: save the old pair, put the new pair, read the digests back. */
    method Publish(provenance: Provenance, digest: Digest) returns (ok: bool)
      requires Valid() && record == Record(Running, false, false, false, false)
      modifies this`record, disk
      ensures Valid() && old(disk.steps) <= disk.steps
      ensures ok ==> record.newModelInstalled && record.newLlbcInstalled
      ensures var count := SavingSteps(At(before, model.published)) + SavingSteps(At(before, llbc.published)) + 4 + 1;
        && (ok ==> disk.steps == old(disk.steps) + count)
        && (ok <==> AllSucceeded(disk.fails, old(disk.steps), old(disk.steps) + count)
                    && PairDigests(Some(model.output), Some(llbc.output), digest) == Some(provenance))
    {
      hide HalfAt, Elsewhere, Disjoint, Owned, PairDigests, Renamed;
      ok := SaveOldPair();
      if !ok { return; }
      ok := PutNewPair();
      if !ok { return; }
      WhatIsPublished(disk.entries, before, model, record.oldModelSaved, Out);
      WhatIsPublished(disk.entries, before, llbc, record.oldLlbcSaved, Out);
      if PairDigests(At(disk.entries, model.published), At(disk.entries, llbc.published), digest) != Some(provenance) {
        return false;
      }
      record := record.(status := Installed);
      ok := disk.Step();
    }

    /** Undo by the flags: the new pair is kept in the backup, the old pair goes back. */
    method RollBack()
      requires Valid()
      modifies this`record, disk`entries
      ensures HalfAt(disk.entries, before, model, false, if old(record.newModelInstalled) then Aside else Staged)
      ensures HalfAt(disk.entries, before, llbc, false, if old(record.newLlbcInstalled) then Aside else Staged)
      ensures Elsewhere(disk.entries, before, root, suffix)
      ensures record == old(record).(status := FailedRestored)
    {
      hide HalfAt, Elsewhere, Disjoint, Owned, Renamed;
      var modelAt := if record.newModelInstalled then Out else Staged;
      var llbcAt := if record.newLlbcInstalled then Out else Staged;
      if record.newLlbcInstalled {
        AsideOfHalf(disk.entries, before, llbc, model, root, suffix, record.oldLlbcSaved, record.oldModelSaved,
            modelAt);
        disk.Rename(llbc.published, llbc.failed);
        llbcAt := Aside;
      }
      if record.newModelInstalled {
        AsideOfHalf(disk.entries, before, model, llbc, root, suffix, record.oldModelSaved, record.oldLlbcSaved, llbcAt);
        disk.Rename(model.published, model.failed);
        modelAt := Aside;
      }
      if record.oldLlbcSaved {
        BackOfHalf(disk.entries, before, llbc, model, root, suffix, llbcAt, record.oldModelSaved, modelAt);
        disk.Rename(llbc.previous, llbc.published);
      }
      if record.oldModelSaved {
        BackOfHalf(disk.entries, before, model, llbc, root, suffix, modelAt, false, llbcAt);
        disk.Rename(model.previous, model.published);
      }
      record := record.(status := FailedRestored);
    }
  }

  /** Neither object out: the old pair is published and the new pair is in the backup. */
  lemma NothingOut(now: Entries, before: Entries, root: Path, suffix: string, model: Tree, llbc: Tree,
                   modelAt: Whereabouts, llbcAt: Whereabouts)
    requires HalfAt(now, before, ModelHalf(root, suffix, model), false, modelAt) && modelAt != Out
    requires HalfAt(now, before, LlbcHalf(root, suffix, llbc), false, llbcAt) && llbcAt != Out
    ensures Published(now, root) == Published(before, root)
    ensures Kept(model, now, root, suffix) && Kept(llbc, now, root, suffix)
  {
    hide Destination, Target, Backup;
    var m, l := ModelHalf(root, suffix, model), LlbcHalf(root, suffix, llbc);
    var path := if modelAt == Staged then m.staged else m.failed;
    var other := if llbcAt == Staged then l.staged else l.failed;
    assert At(now, path) == Some(model) && Under(path, Backup(root, suffix));
    assert At(now, other) == Some(llbc) && Under(other, Backup(root, suffix));
  }

  /** Both objects out: the new pair is published and the old pair is in the backup. */
  lemma BothOut(now: Entries, before: Entries, root: Path, suffix: string, model: Tree, llbc: Tree, record: Record)
    requires HalfAt(now, before, ModelHalf(root, suffix, model), record.oldModelSaved, Out)
    requires HalfAt(now, before, LlbcHalf(root, suffix, llbc), record.oldLlbcSaved, Out)
    ensures Published(now, root) == (Some(model), Some(llbc))
    ensures At(now, Backup(root, suffix) + ["previous"]) == At(before, Destination(root))
    ensures At(now, Backup(root, suffix) + ["previous.llbc"]) == At(before, Target(root))
    ensures Kept(model, now, root, suffix) && Kept(llbc, now, root, suffix)
  {
    hide Destination, Target, Backup;
    assert At(now, Destination(root)) == Some(model) && At(now, Target(root)) == Some(llbc);
  }

  /** The old destination is absent or a directory, the old LLBC absent or a regular file. */
  predicate SafeTargets(entries: Entries, root: Path) {
    var (model, llbc) := Published(entries, root);
    && (model.Some? ==> model.value.Directory?)
    && (llbc.Some? ==> llbc.value.File?)
  }

  lemma NothingElsewhere(entries: Entries, root: Path, suffix: string)
    ensures Elsewhere(entries, entries, root, suffix)
  {
  }

  /** Install the pair or leave the old pair, whichever step fails. `read` is what the digests were taken of;
      `model` and `llbc` are what the copies then staged. */
  method Install(disk: Disk, root: Path, suffix: string, read: Option<Provenance>, model: Tree, llbc: Tree,
                 provenance: Provenance, digest: Digest) returns (installed: bool)
    requires Fresh(Backup(root, suffix), disk.entries)
    modifies disk
    // Returned: the new pair, digests checked, and both old trees kept in the backup.
    ensures installed ==> Published(disk.entries, root) == (Some(model), Some(llbc))
    ensures installed ==>
      At(disk.entries, Backup(root, suffix) + ["previous"]) == At(old(disk.entries), Destination(root))
    ensures installed ==>
      At(disk.entries, Backup(root, suffix) + ["previous.llbc"]) == At(old(disk.entries), Target(root))
    // Raised: exactly the old pair, absence included.
    ensures !installed ==> Published(disk.entries, root) == Published(old(disk.entries), root)
    // Either way nothing else moved, and a new pair once staged is kept: published, or in the backup.
    ensures Elsewhere(disk.entries, old(disk.entries), root, suffix)
    ensures SafeTargets(old(disk.entries), root) && read == Some(provenance) && !disk.fails(old(disk.steps)) ==>
              Kept(model, disk.entries, root, suffix) && Kept(llbc, disk.entries, root, suffix)
    // It returns exactly when the targets are safe, the digests are right and none of its steps fails.
    ensures installed ==> disk.steps == old(disk.steps) + InstallSteps(old(disk.entries), root)
    ensures installed <==>
      && SafeTargets(old(disk.entries), root) && read == Some(provenance)
      && PairDigests(Some(model), Some(llbc), digest) == Some(provenance)
      && AllSucceeded(disk.fails, old(disk.steps), old(disk.steps) + InstallSteps(old(disk.entries), root))
  {
    hide HalfAt, Kept, Disjoint, Owned, Backup, PairDigests, Elsewhere, SafeTargets;
    ghost var before := disk.entries;
    NothingElsewhere(before, root, suffix);
    installed := false;
    if !SafeTargets(disk.entries, root) || read != Some(provenance) {
      return;
    }
    var staged := disk.Step();
    if !staged {
      return;
    }
    var installation := new Installation(disk, root, suffix, model, llbc);
    var saved := disk.Step();
    if !saved {
      NothingOut(disk.entries, before, root, suffix, model, llbc, Staged, Staged);
      return;
    }
    installed := installation.Publish(provenance, digest);
    if !installed {
      ghost var record := installation.record;
      installation.RollBack();
      NothingOut(disk.entries, before, root, suffix, model, llbc,
                 if record.newModelInstalled then Aside else Staged, if record.newLlbcInstalled then Aside else Staged);
      var noted := disk.Step();
    } else {
      BothOut(disk.entries, before, root, suffix, model, llbc, installation.record);
    }
  }
}
