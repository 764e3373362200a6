/**
 * The per-directory step of the batch: each sub-directory of the export root
 * whose name resolves to a date is renamed to that date, or, when a sibling of
 * that name already exists, its files are moved into the sibling one by one
 * and the emptied directory is deleted. The file system is one level of
 * directories under the export root, each a set of file names and a set of
 * sub-directory names; failures the file system may raise for reasons outside
 * this state (locks, permissions) are a parameter.
 */
module MergeRename {
  import opened FolderName

  /** One directory under the export root. */
  datatype Folder = Folder(files: set<string>, subfolders: set<string>)

  /**
   * Failures outside the modelled state that the file system may raise for one
   * directory: files `File.Move` refuses (locks, permissions, or a name that
   * differs only in case on a volume that ignores case), a refused delete and a
   * refused rename.
   */
  datatype Faults = Faults(moveRefused: set<string>, deleteRefused: bool, renameRefused: bool)

  /** What happened to one directory. */
  datatype Outcome =
    | Skipped                                  // the name holds no date: nothing is touched
    | ParseFailed                              // `int.Parse` threw: the batch stops
    | Renamed(target: string)                  // `Directory.Move` to the new name
    | RenameFailed(target: string)             // `Directory.Move` threw; caught, nothing changed
    | Merged(target: string)                   // every file moved, the empty directory deleted
    | MergedWithResidue(target: string)        // every file moved, `Directory.Delete` threw; caught
    | MoveFailed(target: string, file: string) // `File.Move` threw: the batch stops
  {
    /** The exception is not caught inside the step, so no further directory is started. */
    predicate Aborts() {
      ParseFailed? || MoveFailed?
    }

    /** The step got as far as computing a new name. */
    predicate HasTarget() {
      !Skipped? && !ParseFailed?
    }
  }

  /** The outcome of a step is the one its resolution leads to. */
  predicate Follows(outcome: Outcome, resolution: Resolution) {
    && (outcome == Skipped <==> resolution == NoDate)
    && (outcome == ParseFailed <==> resolution == NotANumber)
    && (outcome.HasTarget() ==> resolution == NewName(outcome.target))
  }

  /** The directories after `src` is renamed to `dst`. */
  function Rename(fs: map<string, Folder>, src: string, dst: string): map<string, Folder>
    requires src in fs
  {
    (fs - {src})[dst := fs[src]]
  }

  /** The directories after the files `moved` went from `src` into `dst` under the same names. */
  function MoveFiles(fs: map<string, Folder>, src: string, dst: string, moved: set<string>): map<string, Folder>
    requires src in fs && dst in fs
  {
    fs[src := Folder(fs[src].files - moved, fs[src].subfolders)]
      [dst := Folder(fs[dst].files + moved, fs[dst].subfolders)]
  }

  /**
   * `File.Move` refuses to overwrite: a file or directory of that name in the
   * destination makes it throw. Names are compared exactly; on a volume that
   * ignores case, a name differing only in case collides too, and such a
   * collision is one of the `moveRefused` faults.
   */
  predicate Collides(target: Folder, file: string) {
    file in target.files || file in target.subfolders
  }

  /** `File.Move` takes each of the files `moved` into `target`: none collides there and none is refused. */
  predicate MovesCleanly(target: Folder, faults: Faults, moved: set<string>) {
    forall g :: g in moved ==> !Collides(target, g) && g !in faults.moveRefused
  }

  /** The step for `src` that ended in `outcome` may have changed the directory `k`: its source or its target. */
  predicate Touches(src: string, outcome: Outcome, k: string) {
    k == src || (outcome.HasTarget() && outcome.target == k)
  }

  /**
   * Renaming keeps every directory's content: the source disappears, the
   * destination holds exactly the source's files and sub-directories, and no
   * other directory changes.
   */
  lemma RenameKeepsContent(fs: map<string, Folder>, src: string, dst: string)
    requires src in fs && dst !in fs
    ensures var r := Rename(fs, src, dst);
      && src !in r && dst in r && r[dst] == fs[src]
      && r.Keys == fs.Keys - {src} + {dst}
      && forall k :: k in fs && k != src ==> r[k] == fs[k]
  {
  }

  /**
   * Moving files that do not collide loses and overwrites nothing: the two
   * directories hold the same files between them, as many as before, and only
   * they change.
   */
  lemma MoveFilesConserves(fs: map<string, Folder>, src: string, dst: string, moved: set<string>)
    requires src in fs && dst in fs && src != dst
    requires moved <= fs[src].files && moved !! fs[dst].files
    ensures var r := MoveFiles(fs, src, dst, moved);
      && r.Keys == fs.Keys
      && r[src].files + r[dst].files == fs[src].files + fs[dst].files
      && (r[src].files !! r[dst].files <==> fs[src].files !! fs[dst].files)
      && |r[src].files| + |r[dst].files| == |fs[src].files| + |fs[dst].files|
      && r[src].subfolders == fs[src].subfolders && r[dst].subfolders == fs[dst].subfolders
      && forall k :: k in fs && k != src && k != dst ==> r[k] == fs[k]
  {
    var r := MoveFiles(fs, src, dst, moved);
    var a, b := fs[src].files, fs[dst].files;
    assert r[src].files == a - moved && r[dst].files == b + moved;
    assert |a - moved| == |a| - |moved| by {
      assert a == (a - moved) + moved;
    }
    assert |b + moved| == |b| + |moved|;
  }

  /** Moving no file changes nothing. */
  lemma MoveNothing(fs: map<string, Folder>, src: string, dst: string)
    requires src in fs && dst in fs
    ensures MoveFiles(fs, src, dst, {}) == fs
  {
    assert fs[src].files - {} == fs[src].files;
    assert fs[dst].files + {} == fs[dst].files;
  }

  /** Moving one more file continues a run of moves. */
  lemma MoveFilesStep(fs: map<string, Folder>, src: string, dst: string, moved: set<string>, f: string)
    requires src in fs && dst in fs && src != dst
    ensures var r := MoveFiles(fs, src, dst, moved);
      MoveFiles(r, src, dst, {f}) == MoveFiles(fs, src, dst, moved + {f})
  {
    var r := MoveFiles(fs, src, dst, moved);
    assert r[src].files - {f} == fs[src].files - (moved + {f});
    assert r[dst].files + {f} == fs[dst].files + (moved + {f});
  }

  /**
   * What moving the files of `src` into the existing `dst` and then deleting
   * `src` may end in, given the state `before` and `after` it.
   */
  predicate MergeSpec(before: map<string, Folder>, after: map<string, Folder>, src: string, dst: string,
                      faults: Faults, outcome: Outcome)
    requires src in before && dst in before
  {
    var files := before[src].files;
    match outcome
    case Merged(t) =>
      && t == dst && before[src].subfolders == {} && !faults.deleteRefused
      && MovesCleanly(before[dst], faults, files)
      && after == MoveFiles(before, src, dst, files) - {src}
    case MergedWithResidue(t) =>
      && t == dst && (before[src].subfolders != {} || faults.deleteRefused)
      && MovesCleanly(before[dst], faults, files)
      && after == MoveFiles(before, src, dst, files)
    case MoveFailed(t, f) =>
      && t == dst && f in files
      && (Collides(before[dst], f) || f in faults.moveRefused)
      && exists moved :: moved <= files - {f} && MovesCleanly(before[dst], faults, moved)
                         && after == MoveFiles(before, src, dst, moved)
    case _ => false
  }

  /** What renaming `src` to `dst`, or merging it into `dst` when that exists, may end in. */
  predicate RelocateSpec(before: map<string, Folder>, after: map<string, Folder>, src: string, dst: string,
                         faults: Faults, outcome: Outcome)
    requires src in before
  {
    if dst in before then MergeSpec(before, after, src, dst, faults, outcome)
    else if faults.renameRefused then outcome == RenameFailed(dst) && after == before
    else outcome == Renamed(dst) && after == Rename(before, src, dst)
  }

  /** What the step for `src` with the resolution of its name may end in, given the state `before` and `after` it. */
  predicate StepSpec(before: map<string, Folder>, after: map<string, Folder>, src: string, resolution: Resolution,
                     faults: Faults, outcome: Outcome)
  {
    && src in before
    && match resolution
       case NoDate => outcome == Skipped && after == before
       case NotANumber => outcome == ParseFailed && after == before
       case NewName(dst) => RelocateSpec(before, after, src, dst, faults, outcome)
  }

  /**
   * A merge, finished or stopped at a file, loses and overwrites no file: the
   * files left in the source and those in the destination are the files both
   * held before, as many as before, and the source is gone only when the merge
   * finished and the delete succeeded.
   */
  lemma MergeConserves(before: map<string, Folder>, after: map<string, Folder>, src: string, dst: string,
                       faults: Faults, outcome: Outcome)
    requires src in before && dst in before && src != dst
    requires MergeSpec(before, after, src, dst, faults, outcome)
    ensures dst in after
    ensures src !in after <==> outcome.Merged?
    ensures var left := if src in after then after[src].files else {};
      && left + after[dst].files == before[src].files + before[dst].files
      && |left| + |after[dst].files| == |before[src].files| + |before[dst].files|
  {
    var files := before[src].files;
    if outcome.MoveFailed? {
      var moved :| moved <= files - {outcome.file} && MovesCleanly(before[dst], faults, moved)
                    && after == MoveFiles(before, src, dst, moved);
      MoveFilesConserves(before, src, dst, moved);
    } else {
      MoveFilesConserves(before, src, dst, files);
      assert files - files == {};
    }
  }

  /** Each state in `states` follows from the one before it by the step for the name and outcome of that index. */
  predicate Steps(states: seq<map<string, Folder>>, names: seq<string>, resolutions: seq<Resolution>,
                  faults: string -> Faults, outcomes: seq<Outcome>)
  {
    && |states| == |outcomes| + 1 && |outcomes| <= |names| && |outcomes| <= |resolutions|
    && forall i :: 0 <= i < |outcomes| ==>
         StepSpec(states[i], states[i + 1], names[i], resolutions[i], faults(names[i]), outcomes[i])
  }

  /** One more step extends a run of steps. */
  lemma StepsSnoc(states: seq<map<string, Folder>>, names: seq<string>, resolutions: seq<Resolution>,
                  faults: string -> Faults, outcomes: seq<Outcome>, after: map<string, Folder>, outcome: Outcome)
    requires Steps(states, names, resolutions, faults, outcomes)
    requires |outcomes| < |names| && |outcomes| < |resolutions|
    requires var i := |outcomes|;
      StepSpec(states[i], after, names[i], resolutions[i], faults(names[i]), outcome)
    ensures Steps(states + [after], names, resolutions, faults, outcomes + [outcome])
  {
    var states', outcomes' := states + [after], outcomes + [outcome];
    forall i | 0 <= i < |outcomes'|
      ensures StepSpec(states'[i], states'[i + 1], names[i], resolutions[i], faults(names[i]), outcomes'[i])
    {
      if i < |outcomes| {
        assert states'[i] == states[i] && states'[i + 1] == states[i + 1] && outcomes'[i] == outcomes[i];
      }
    }
  }

  /**
   * Whatever the outcome, only the source and the destination change: every
   * other directory is still there with the same content, and the destination
   * is never removed.
   */
  lemma RelocateFrame(before: map<string, Folder>, after: map<string, Folder>, src: string, dst: string,
                      faults: Faults, outcome: Outcome)
    requires src in before && src != dst
    requires RelocateSpec(before, after, src, dst, faults, outcome)
    ensures forall k :: k in before && k != src ==> k in after
    ensures forall k :: k in before && k != src && k != dst ==> after[k] == before[k]
    ensures forall k :: k in after ==> k in before || k == dst
    ensures outcome.HasTarget() && outcome.target == dst
  {
    if dst in before && outcome.MoveFailed? {
      var moved :| moved <= before[src].files - {outcome.file} && after == MoveFiles(before, src, dst, moved);
    }
  }

  /**
   * The resolver never maps a name to itself, so the resolutions of any
   * directory list meet what the batch asks of them.
   */
  lemma ResolutionsAreNew(names: seq<string>)
    ensures forall i :: 0 <= i < |names| && Resolve(names[i]).NewName? ==> Resolve(names[i]).name != names[i]
  {
    forall i | 0 <= i < |names| && Resolve(names[i]).NewName?
      ensures Resolve(names[i]).name != names[i]
    {
      ResolvedNameIsNew(names[i]);
    }
  }

  /** A merge stops on a file exactly when some file of the source collides or is refused. */
  lemma MergeFailsIff(before: map<string, Folder>, after: map<string, Folder>, src: string, dst: string,
                      faults: Faults, outcome: Outcome)
    requires src in before && dst in before
    requires MergeSpec(before, after, src, dst, faults, outcome)
    ensures outcome.MoveFailed? <==>
      exists f :: f in before[src].files && (Collides(before[dst], f) || f in faults.moveRefused)
  {
    if outcome.MoveFailed? {
      assert outcome.file in before[src].files;
    }
  }

  /** The export root: its sub-directories by name. */
  class ExportFolder {
    var folders: map<string, Folder>

    constructor (initial: map<string, Folder>)
      ensures folders == initial
    {
      folders := initial;
    }

    /**
     * The body of the per-directory lambda for the directory `src`, with the
     * failures the file system raises for it beyond those its state decides.
     */
    method ProcessDirectory(src: string, faults: Faults) returns (outcome: Outcome)
      requires src in folders
      modifies this
      ensures Resolve(src) == NoDate ==> outcome == Skipped && folders == old(folders)
      ensures Resolve(src) == NotANumber ==> outcome == ParseFailed && folders == old(folders)
      ensures Resolve(src).NewName? ==>
        src != Resolve(src).name && RelocateSpec(old(folders), folders, src, Resolve(src).name, faults, outcome)
    {
      var resolution := Resolve(src);
      if resolution.NewName? {
        ResolvedNameIsNew(src);
      }
      outcome := ApplyResolution(src, resolution, faults);
    }

    /**
     * The step once the name of `src` is resolved: leave it, throw from
     * `int.Parse`, or rename or merge it into the new name. Whatever happens,
     * no directory other than the source and the target changes.
     */
    method ApplyResolution(src: string, resolution: Resolution, faults: Faults) returns (outcome: Outcome)
      requires src in folders
      requires resolution.NewName? ==> resolution.name != src
      modifies this
      ensures StepSpec(old(folders), folders, src, resolution, faults, outcome)
      ensures Follows(outcome, resolution)
      ensures forall k :: k in old(folders) && k != src ==> k in folders
      ensures forall k :: k in old(folders) && !Touches(src, outcome, k) ==> k in folders && folders[k] == old(folders)[k]
    {
      if resolution == NoDate {
        return Skipped;
      }
      if resolution == NotANumber {
        return ParseFailed;
      }
      var dst := resolution.name;
      if dst !in folders {
        if faults.renameRefused {
          return RenameFailed(dst);
        }
        RenameKeepsContent(folders, src, dst);
        folders := Rename(folders, src, dst);
        return Renamed(dst);
      }
      ghost var before := folders;
      outcome := MergeInto(src, dst, faults);
      RelocateFrame(before, folders, src, dst, faults, outcome);
    }

    /**
     * Moves each file of `src` into `dst`, stopping at the first that `File.Move`
     * refuses, then tries to delete `src` and catches the failure.
     */
    method MergeInto(src: string, dst: string, faults: Faults) returns (outcome: Outcome)
      requires src in folders && dst in folders && src != dst
      modifies this
      ensures MergeSpec(old(folders), folders, src, dst, faults, outcome)
    {
      var remaining := folders[src].files;
      ghost var moved: set<string> := {};
      MoveNothing(folders, src, dst);
      while remaining != {}
        invariant moved <= old(folders)[src].files
        invariant remaining == old(folders)[src].files - moved
        invariant MovesCleanly(old(folders)[dst], faults, moved)
        invariant folders == MoveFiles(old(folders), src, dst, moved)
        decreases remaining
      {
        var f :| f in remaining;
        if Collides(folders[dst], f) || f in faults.moveRefused {
          return MoveFailed(dst, f);
        }
        MoveFilesStep(old(folders), src, dst, moved, f);
        folders := MoveFiles(folders, src, dst, {f});
        moved := moved + {f};
        remaining := remaining - {f};
      }
      assert moved == old(folders)[src].files;
      if folders[src].subfolders == {} && !faults.deleteRefused {
        folders := folders - {src};
        return Merged(dst);
      }
      return MergedWithResidue(dst);
    }

    /**
     * The batch over the directory list taken before it starts, one directory
     * after the other in the given order, each with the resolution of its name.
     * An exception a step does not catch ends the batch: no further directory
     * is started. `states` are the directories before each step and after the
     * last: each step goes from one to the next as `ApplyResolution` says, and
     * a directory no step touched is as it was.
     */
    method Execute(names: seq<string>, resolutions: seq<Resolution>, faults: string -> Faults)
      returns (outcomes: seq<Outcome>, ghost states: seq<map<string, Folder>>)
      requires |resolutions| == |names|
      requires forall i, j :: 0 <= i < j < |names| ==> names[i] != names[j]
      requires forall i :: 0 <= i < |names| ==> names[i] in folders
      requires forall i :: 0 <= i < |names| && resolutions[i].NewName? ==> resolutions[i].name != names[i]
      modifies this
      ensures |outcomes| <= |names|
      ensures forall i :: 0 <= i < |outcomes| - 1 ==> !outcomes[i].Aborts()
      ensures |outcomes| < |names| ==> outcomes != [] && outcomes[|outcomes| - 1].Aborts()
      ensures forall i :: 0 <= i < |outcomes| ==> Follows(outcomes[i], resolutions[i])
      ensures Steps(states, names, resolutions, faults, outcomes)
      ensures states[0] == old(folders) && states[|outcomes|] == folders
      ensures forall k :: k in old(folders) && (forall j :: 0 <= j < |outcomes| ==> !Touches(names[j], outcomes[j], k)) ==>
        k in folders && folders[k] == old(folders)[k]
    {
      outcomes, states := [], [folders];
      var i := 0;
      while i < |names|
        invariant 0 <= i <= |names| && |outcomes| == i
        invariant Steps(states, names, resolutions, faults, outcomes)
        invariant states[0] == old(folders) && states[i] == folders
        invariant forall j :: 0 <= j < i ==> !outcomes[j].Aborts()
        invariant forall j :: i <= j < |names| ==> names[j] in folders
        invariant forall j :: 0 <= j < i ==> Follows(outcomes[j], resolutions[j])
        invariant forall k :: k in old(folders) && (forall j :: 0 <= j < i ==> !Touches(names[j], outcomes[j], k)) ==>
          k in folders && folders[k] == old(folders)[k]
      {
        var src := names[i];
        var outcome := ApplyResolution(src, resolutions[i], faults(src));
        StepsSnoc(states, names, resolutions, faults, outcomes, folders, outcome);
        outcomes, states := outcomes + [outcome], states + [folders];
        forall k | k in old(folders) && (forall j :: 0 <= j < i + 1 ==> !Touches(names[j], outcomes[j], k))
          ensures k in folders && folders[k] == old(folders)[k]
        {
          assert !Touches(names[i], outcomes[i], k);
        }
        if outcome.Aborts() {
          return;
        }
        i := i + 1;
      }
    }
  }
}
