/** The two directory swaps: rebuildBlueprintDir (ludus-api/api_blueprint_management.go)
    and the upload branch of fetchAndWalkSource (ludus-api/source_sync.go). Each is
    run against every schedule of failures and watched at every step. */
module Swap {
  import opened Options
  import opened Disk

  /** Writing a staging directory: the stages it passes through, then either the
      finished tree or a failure that is cleaned up. */
  datatype Build = Build(stages: seq<Tree>, tree: Tree, ok: bool, cleanup: Removal)

  // ---------------------------------------------------------------- Shared: put the new directory in place

  datatype Env = Env(
    before: Removal,         // upload only: clearing .incoming
    clear: Removal,          // upload only: the extractor clearing .incoming again
    build: Build,
    dropBackup: Removal,     // upload only: clearing .old
    statOk: bool, rotateOk: bool, installOk: bool, rollbackOk: bool,
    cleanup: Removal, finish: Removal, saveOk: bool)

  datatype Outcome = BuildFailed | RotateFailed | InstallFailed(rolledBack: bool) | SaveFailed | Done

  datatype Run = Run(trace: seq<FS>, end: FS, outcome: Outcome)

  function BuildTrace(fs: FS, staging: string, b: Build): seq<FS>
  {
    WriteTrace(fs, staging, b.stages + (if b.ok then [b.tree] else []))
  }

  function BuildEnd(fs: FS, staging: string, b: Build): FS
  {
    if b.ok then fs[staging := b.tree]
    else if b.stages == [] then fs
    else fs[staging := b.stages[|b.stages| - 1]]
  }

  /** Writing the staging directory, cleaned up when it fails. */
  function BuildRun(fs: FS, staging: string, b: Build): Run
  {
    var built := BuildEnd(fs, staging, b);
    if b.ok then Run(BuildTrace(fs, staging, b), built, Done)
    else
      Run(BuildTrace(fs, staging, b) + RemovalTrace(built, staging, b.cleanup),
          AfterRemoval(built, staging, b.cleanup), BuildFailed)
  }

  method BuildOn(drive: Drive, staging: string, b: Build) returns (ok: bool)
    requires drive.Valid()
    modifies drive
    ensures drive.Valid()
    ensures var run := BuildRun(old(drive.dirs), staging, b);
            ok == run.outcome.Done? && drive.dirs == run.end && drive.history == old(drive.history) + run.trace
  {
    hide RemovalTrace, AfterRemoval, WriteTrace;
    drive.Write(staging, b.stages + (if b.ok then [b.tree] else []));
    if !b.ok {
      var _ := drive.RemoveAll(staging, b.cleanup);
    }
    ok := b.ok;
  }

  /** Rotate the current directory out, move the new one in, undo on failure. The
      backup is removed at the end, by an upload (`always`) even if none was made. */
  function Exchange(fs: FS, final: string, staging: string, backup: string, e: Env, always: bool): Run
  {
    var present := e.statOk && final in fs;
    var rotated := if present then Rename(fs, final, backup, e.rotateOk) else Some(fs);
    if rotated.None? then
      Run(RemovalTrace(fs, staging, e.cleanup), AfterRemoval(fs, staging, e.cleanup), RotateFailed)
    else
      var rest := Install(rotated.value, present, final, staging, backup, e, always);
      Run((if present then [rotated.value] else []) + rest.trace, rest.end, rest.outcome)
  }

  /** The second half, once the current directory is out of the way, or there was none. */
  function Install(fs1: FS, renamedOld: bool, final: string, staging: string, backup: string, e: Env, always: bool): Run
  {
    var installed := Rename(fs1, staging, final, e.installOk);
    if installed.Some? then
      var fs2 := installed.value;
      if renamedOld || always then
        Run([fs2] + RemovalTrace(fs2, backup, e.finish), AfterRemoval(fs2, backup, e.finish), Done)
      else Run([fs2], fs2, Done)
    else Undo(fs1, renamedOld, final, staging, backup, e)
  }

  /** Moving the old directory back, if it was moved away, and clearing the new one. */
  function Undo(fs1: FS, renamedOld: bool, final: string, staging: string, backup: string, e: Env): Run
  {
    var undone := if renamedOld then Rename(fs1, backup, final, e.rollbackOk) else None;
    var fs2 := if undone.Some? then undone.value else fs1;
    Run((if undone.Some? then [fs2] else []) + RemovalTrace(fs2, staging, e.cleanup),
        AfterRemoval(fs2, staging, e.cleanup), InstallFailed(undone.Some?))
  }

  method UndoOn(drive: Drive, renamedOld: bool, final: string, staging: string, backup: string, e: Env)
    returns (outcome: Outcome)
    requires drive.Valid()
    modifies drive
    ensures drive.Valid()
    ensures var run := Undo(old(drive.dirs), renamedOld, final, staging, backup, e);
            outcome == run.outcome && drive.dirs == run.end && drive.history == old(drive.history) + run.trace
  {
    hide Rename, RemovalTrace, AfterRemoval;
    var rolledBack := false;
    if renamedOld {
      rolledBack := drive.Move(backup, final, e.rollbackOk);
    }
    var _ := drive.RemoveAll(staging, e.cleanup);
    outcome := InstallFailed(rolledBack);
  }

  method InstallOn(drive: Drive, renamedOld: bool, final: string, staging: string, backup: string, e: Env, always: bool)
    returns (outcome: Outcome)
    requires drive.Valid()
    modifies drive
    ensures drive.Valid()
    ensures var run := Install(old(drive.dirs), renamedOld, final, staging, backup, e, always);
            outcome == run.outcome && drive.dirs == run.end && drive.history == old(drive.history) + run.trace
  {
    hide Rename, RemovalTrace, AfterRemoval, Undo;
    var installed := drive.Move(staging, final, e.installOk);
    if !installed {
      outcome := UndoOn(drive, renamedOld, final, staging, backup, e);
      return;
    }
    if renamedOld || always {
      var _ := drive.RemoveAll(backup, e.finish);
    }
    outcome := Done;
  }

  method ExchangeOn(drive: Drive, final: string, staging: string, backup: string, e: Env, always: bool)
    returns (outcome: Outcome)
    requires drive.Valid()
    modifies drive
    ensures drive.Valid()
    ensures var run := Exchange(old(drive.dirs), final, staging, backup, e, always);
            outcome == run.outcome && drive.dirs == run.end && drive.history == old(drive.history) + run.trace
  {
    hide Rename, RemovalTrace, AfterRemoval, Install;
    var renamedOld := false;
    if e.statOk && final in drive.dirs {
      var moved := drive.Move(final, backup, e.rotateOk);
      if !moved {
        var _ := drive.RemoveAll(staging, e.cleanup);
        return RotateFailed;
      }
      renamedOld := true;
    }
    outcome := InstallOn(drive, renamedOld, final, staging, backup, e, always);
  }

  // ---------------------------------------------------------------- rebuildBlueprintDir

  function Rebuild(fs: FS, final: string, staging: string, backup: string, e: Env): Run
  {
    var built := BuildRun(fs, staging, e.build);
    if !built.outcome.Done? then built
    else
      var x := Exchange(built.end, final, staging, backup, e, false);
      Run(built.trace + x.trace, x.end, if x.outcome.Done? && !e.saveOk then SaveFailed else x.outcome)
  }

  method RebuildBlueprintDir(drive: Drive, final: string, staging: string, backup: string, e: Env)
    returns (outcome: Outcome)
    requires drive.Valid()
    modifies drive
    ensures drive.Valid()
    ensures var run := Rebuild(old(drive.dirs), final, staging, backup, e);
            outcome == run.outcome && drive.dirs == run.end && drive.history == old(drive.history) + run.trace
  {
    hide Exchange, BuildRun;
    BuildOutcome(drive.dirs, staging, e.build);
    var built := BuildOn(drive, staging, e.build);
    if !built {
      return BuildFailed;
    }
    outcome := ExchangeOn(drive, final, staging, backup, e, false);
    if outcome.Done? && !e.saveOk {
      outcome := SaveFailed;
    }
  }

  /** The complete old tree is at the final or the backup path, or the complete
      new tree is at the final path. */
  ghost predicate Safe(st: FS, final: string, backup: string, old_: Tree, new_: Tree)
  {
    || (final in st && st[final] == old_)
    || (backup in st && st[backup] == old_)
    || (final in st && st[final] == new_)
  }

  ghost predicate Apart(final: string, staging: string, backup: string)
  {
    final != staging && final != backup && staging != backup
  }

  ghost predicate Untouched(fs: FS, st: FS, final: string, staging: string, backup: string)
  {
    forall q :: q !in {final, staging, backup} ==> (q in fs <==> q in st) && (q in fs ==> fs[q] == st[q])
  }

  lemma ExchangeSafe(fs: FS, final: string, staging: string, backup: string, e: Env, always: bool)
    requires Apart(final, staging, backup) && staging in fs && final in fs
    ensures var run := Exchange(fs, final, staging, backup, e, always);
            && (forall i :: 0 <= i < |run.trace| ==> Safe(run.trace[i], final, backup, fs[final], fs[staging]))
            && (run.outcome.Done? ==> final in run.end && run.end[final] == fs[staging])
            && (!run.outcome.Done? ==>
                  || (final in run.end && run.end[final] == fs[final])
                  || (run.outcome == InstallFailed(false) && backup in run.end && run.end[backup] == fs[final]))
  {
    hide RemovalTrace, AfterRemoval, Install;
    var present := e.statOk && final in fs;
    var rotated := if present then Rename(fs, final, backup, e.rotateOk) else Some(fs);
    if rotated.None? {
      RemovalElsewhere(fs, staging, e.cleanup, final);
    } else {
      InstallSafe(rotated.value, present, final, staging, backup, e, always, fs[final], fs[staging]);
    }
  }

  lemma InstallSafe(fs1: FS, renamedOld: bool, final: string, staging: string, backup: string, e: Env, always: bool,
                    was: Tree, new_: Tree)
    requires Apart(final, staging, backup) && staging in fs1 && fs1[staging] == new_
    requires if renamedOld then final !in fs1 && backup in fs1 && fs1[backup] == was
             else final in fs1 && fs1[final] == was
    ensures var run := Install(fs1, renamedOld, final, staging, backup, e, always);
            && (forall i :: 0 <= i < |run.trace| ==> Safe(run.trace[i], final, backup, was, new_))
            && (run.outcome.Done? ==> final in run.end && run.end[final] == new_)
            && (!run.outcome.Done? ==>
                  || (final in run.end && run.end[final] == was)
                  || (run.outcome == InstallFailed(false) && backup in run.end && run.end[backup] == was))
  {
    hide RemovalTrace, AfterRemoval;
    var installed := Rename(fs1, staging, final, e.installOk);
    if installed.Some? {
      RemovalElsewhere(installed.value, backup, e.finish, final);
    } else {
      var undone := if renamedOld then Rename(fs1, backup, final, e.rollbackOk) else None;
      var fs2 := if undone.Some? then undone.value else fs1;
      RemovalElsewhere(fs2, staging, e.cleanup, if renamedOld && undone.None? then backup else final);
    }
  }

  lemma ExchangeFrame(fs: FS, final: string, staging: string, backup: string, e: Env, always: bool)
    requires Apart(final, staging, backup)
    ensures var run := Exchange(fs, final, staging, backup, e, always);
            Untouched(fs, run.end, final, staging, backup)
            && forall i :: 0 <= i < |run.trace| ==> Untouched(fs, run.trace[i], final, staging, backup)
  {
    hide Rename, AfterRemoval, Untouched;
    SameUntouched(fs, final, staging, backup);
    var present := e.statOk && final in fs;
    var rotated := if present then Rename(fs, final, backup, e.rotateOk) else Some(fs);
    if rotated.None? {
      RemovalFrame(fs, fs, staging, e.cleanup, final, staging, backup);
    } else {
      var fs1 := rotated.value;
      if present {
        RenameFrame(fs, fs, final, backup, e.rotateOk, final, staging, backup);
      }
      var installed := Rename(fs1, staging, final, e.installOk);
      if installed.Some? {
        RenameFrame(fs, fs1, staging, final, e.installOk, final, staging, backup);
        RemovalFrame(fs, installed.value, backup, e.finish, final, staging, backup);
      } else {
        RenameFrame(fs, fs1, backup, final, e.rollbackOk, final, staging, backup);
        var undone := if present then Rename(fs1, backup, final, e.rollbackOk) else None;
        RemovalFrame(fs, if undone.Some? then undone.value else fs1, staging, e.cleanup, final, staging, backup);
      }
    }
  }

  lemma SameUntouched(fs: FS, final: string, staging: string, backup: string)
    ensures Untouched(fs, fs, final, staging, backup)
  {
  }

  lemma RenameFrame(fs: FS, st: FS, from: string, to: string, ok: bool, final: string, staging: string, backup: string)
    requires Untouched(fs, st, final, staging, backup) && {from, to} <= {final, staging, backup}
    ensures Rename(st, from, to, ok).Some? ==> Untouched(fs, Rename(st, from, to, ok).value, final, staging, backup)
  {
    assert from in {from, to} && to in {from, to};
  }

  lemma RemovalFrame(fs: FS, st: FS, path: string, r: Removal, final: string, staging: string, backup: string)
    requires Untouched(fs, st, final, staging, backup) && path in {final, staging, backup}
    ensures Untouched(fs, AfterRemoval(st, path, r), final, staging, backup)
    ensures forall i :: 0 <= i < |RemovalTrace(st, path, r)| ==>
      Untouched(fs, RemovalTrace(st, path, r)[i], final, staging, backup)
  {
  }

  /** At no step of a rebuild, under no schedule of failures, is a blueprint
      without one complete version; and the outcome says which one is in place. */
  lemma RebuildSafe(fs: FS, final: string, staging: string, backup: string, e: Env)
    requires Apart(final, staging, backup) && final in fs
    ensures var run := Rebuild(fs, final, staging, backup, e);
            && (forall i :: 0 <= i < |run.trace| ==> Safe(run.trace[i], final, backup, fs[final], e.build.tree))
            && (run.outcome.Done? || run.outcome.SaveFailed? ==> final in run.end && run.end[final] == e.build.tree)
            && (run.outcome in {BuildFailed, RotateFailed, InstallFailed(true)} ==>
                  final in run.end && run.end[final] == fs[final])
            && (run.outcome == InstallFailed(false) ==>
                  (final in run.end && run.end[final] == fs[final])
                    || (backup in run.end && run.end[backup] == fs[final]))
  {
    if e.build.ok {
      ExchangeSafe(BuildEnd(fs, staging, e.build), final, staging, backup, e, false);
    }
  }

  /** A rebuild touches only its own three paths. */
  lemma RebuildFrame(fs: FS, final: string, staging: string, backup: string, e: Env)
    requires Apart(final, staging, backup)
    ensures Untouched(fs, Rebuild(fs, final, staging, backup, e).end, final, staging, backup)
  {
    var built := BuildEnd(fs, staging, e.build);
    assert Untouched(fs, built, final, staging, backup);
    if e.build.ok {
      ExchangeFrame(built, final, staging, backup, e, false);
    }
  }

  // ---------------------------------------------------------------- When a swap succeeds

  /** A directory can be renamed to this path: nothing is there, or an empty directory. */
  ghost predicate Free(fs: FS, path: string)
  {
    path in fs ==> fs[path] == map[]
  }

  /** The old directory is seen, and goes out of the way. */
  ghost predicate Rotates(fs: FS, final: string, backup: string, e: Env)
  {
    e.statOk && final in fs && e.rotateOk && Free(fs, backup)
  }

  /** How an exchange ends, in terms of where it starts and what fails. */
  lemma ExchangeOutcome(fs: FS, final: string, staging: string, backup: string, e: Env, always: bool)
    requires Apart(final, staging, backup) && staging in fs
    ensures var o := Exchange(fs, final, staging, backup, e, always).outcome;
            && (o.RotateFailed? <==> e.statOk && final in fs && !Rotates(fs, final, backup, e))
            && (o.Done? <==>
                  e.installOk && (Rotates(fs, final, backup, e) || (!(e.statOk && final in fs) && Free(fs, final))))
            && (o == InstallFailed(true) <==> Rotates(fs, final, backup, e) && !e.installOk && e.rollbackOk)
            && (o.InstallFailed? || o.RotateFailed? || o.Done?)
  {
    hide RemovalTrace, AfterRemoval;
  }

  /** What an exchange leaves when every removal it makes finishes. */
  lemma ExchangeEnd(fs: FS, final: string, staging: string, backup: string, e: Env, always: bool)
    requires Apart(final, staging, backup) && staging in fs && e.cleanup.left.None? && e.finish.left.None?
    ensures var run := Exchange(fs, final, staging, backup, e, always);
            && (run.outcome.RotateFailed? ==> run.end == fs - {staging})
            && (run.outcome.Done? ==>
                  run.end == (fs - {staging} - (if always || (e.statOk && final in fs) then {backup} else {}))
                               [final := fs[staging]])
            && (run.outcome == InstallFailed(true) ==> run.end == fs - {staging, backup})
            && (run.outcome == InstallFailed(false) && e.statOk && final in fs ==>
                  run.end == (fs - {staging, final})[backup := fs[final]])
            && (run.outcome == InstallFailed(false) && !(e.statOk && final in fs) ==> run.end == fs - {staging})
  {
    hide RemovalTrace;
  }

  /** A rebuild installs the new directory if and only if it is written, the install
      works, and the old one either moved out of the way, or was not seen and the
      path is free all the same; every other outcome has its own condition. */
  lemma RebuildOutcome(fs: FS, final: string, staging: string, backup: string, e: Env)
    requires Apart(final, staging, backup)
    ensures var o := Rebuild(fs, final, staging, backup, e).outcome;
            && (o.BuildFailed? <==> !e.build.ok)
            && (o.RotateFailed? <==> e.build.ok && e.statOk && final in fs && !Rotates(fs, final, backup, e))
            && (o.Done? || o.SaveFailed? <==>
                  && e.build.ok && e.installOk
                  && (Rotates(fs, final, backup, e) || (!(e.statOk && final in fs) && Free(fs, final))))
            && (o.Done? ==> e.saveOk) && (o.SaveFailed? ==> !e.saveOk)
            && (o == InstallFailed(true) <==>
                  e.build.ok && Rotates(fs, final, backup, e) && !e.installOk && e.rollbackOk)
  {
    if e.build.ok {
      ExchangeOutcome(fs[staging := e.build.tree], final, staging, backup, e, false);
    }
    hide Exchange;
  }

  /** Nothing fails. */
  ghost predicate AllWorks(e: Env)
  {
    && e.build.ok && e.statOk && e.rotateOk && e.installOk && e.saveOk
    && e.before.left.None? && e.clear.left.None? && e.dropBackup.left.None? && e.cleanup.left.None?
         && e.finish.left.None?
  }

  /** When nothing fails, a rebuild whose names are free puts the new directory in
      place of the old one and changes nothing else. */
  lemma RebuildWorks(fs: FS, final: string, staging: string, backup: string, e: Env)
    requires Apart(final, staging, backup) && staging !in fs && backup !in fs && AllWorks(e)
    ensures var run := Rebuild(fs, final, staging, backup, e);
            run.outcome.Done? && run.end == fs[final := e.build.tree]
  {
    RebuildOutcome(fs, final, staging, backup, e);
    ExchangeEnd(fs[staging := e.build.tree], final, staging, backup, e, false);
    hide Exchange;
  }

  /** A rebuild that fails leaves everything as it was, if its clean-up works and
      a directory moved away could be moved back. */
  lemma RebuildFailsClean(fs: FS, final: string, staging: string, backup: string, e: Env)
    requires Apart(final, staging, backup) && staging !in fs && backup !in fs
    requires e.build.cleanup.left.None? && e.cleanup.left.None? && e.finish.left.None? && e.rollbackOk
    ensures var run := Rebuild(fs, final, staging, backup, e);
            !run.outcome.Done? && !run.outcome.SaveFailed? ==> run.end == fs
  {
    if e.build.ok {
      var built := fs[staging := e.build.tree];
      ExchangeOutcome(built, final, staging, backup, e, false);
      ExchangeEnd(built, final, staging, backup, e, false);
      assert built - {staging} == fs && built - {staging, backup} == fs;
    }
    hide Exchange;
  }

  /** The paths the rebuild uses never coincide. */
  lemma RebuildPathsApart(root: string, id: string, suffix: string)
    ensures Apart(root + "/" + id, root + "/" + id + ".rebuild-" + suffix, root + "/" + id + ".old-" + suffix)
  {
    var final := root + "/" + id;
    var staging, backup := final + ".rebuild-" + suffix, final + ".old-" + suffix;
    assert staging[|final| + 1] == 'r' && backup[|final| + 1] == 'o';
  }

  // ---------------------------------------------------------------- The upload swap

  function Incoming(checkout: string): string
  {
    checkout + ".incoming"
  }

  function Old(checkout: string): string
  {
    checkout + ".old"
  }

  lemma UploadPathsApart(checkout: string)
    ensures Apart(checkout, Incoming(checkout), Old(checkout))
  {
    assert Incoming(checkout)[|checkout| + 1] == 'i' && Old(checkout)[|checkout| + 1] == 'o';
  }

  /** Extracting the archive beside the checkout, cleaned up when it fails. */
  function Extraction(fs: FS, staging: string, e: Env): Run
  {
    var fs1 := AfterRemoval(fs, staging, e.before);
    var fs2 := AfterRemoval(fs1, staging, e.clear);
    var t2 := RemovalTrace(fs, staging, e.before) + RemovalTrace(fs1, staging, e.clear);
    var rest := if e.clear.left.Some? then CleanedUp(fs2, staging, e.build.cleanup)
      else BuildRun(fs2, staging, e.build);
    Run(t2 + rest.trace, rest.end, rest.outcome)
  }

  function CleanedUp(fs: FS, staging: string, r: Removal): Run
  {
    Run(RemovalTrace(fs, staging, r), AfterRemoval(fs, staging, r), BuildFailed)
  }

  /** Extract, clear the fixed backup name, then exchange. */
  function Upload(fs: FS, checkout: string, e: Env): Run
  {
    var staging, backup := Incoming(checkout), Old(checkout);
    var extracted := Extraction(fs, staging, e);
    if !extracted.outcome.Done? then extracted
    else
      var x := Exchange(AfterRemoval(extracted.end, backup, e.dropBackup), checkout, staging, backup, e, true);
      Run(extracted.trace + RemovalTrace(extracted.end, backup, e.dropBackup) + x.trace, x.end, x.outcome)
  }

  method ExtractArchive(drive: Drive, staging: string, e: Env) returns (ok: bool)
    requires drive.Valid()
    modifies drive
    ensures drive.Valid()
    ensures var run := Extraction(old(drive.dirs), staging, e);
            ok == run.outcome.Done? && drive.dirs == run.end && drive.history == old(drive.history) + run.trace
  {
    hide RemovalTrace, AfterRemoval, BuildRun;
    ghost var h, fs := drive.history, drive.dirs;
    var _ := drive.RemoveAll(staging, e.before);
    ghost var fs1 := drive.dirs;
    var cleared := drive.RemoveAll(staging, e.clear);
    ghost var t2 := RemovalTrace(fs, staging, e.before) + RemovalTrace(fs1, staging, e.clear);
    assert drive.history == h + t2;
    if cleared {
      ok := BuildOn(drive, staging, e.build);
    } else {
      var _ := drive.RemoveAll(staging, e.build.cleanup);
      ok := false;
    }
  }

  method UploadArchive(drive: Drive, checkout: string, e: Env) returns (outcome: Outcome)
    requires drive.Valid()
    modifies drive
    ensures drive.Valid()
    ensures var run := Upload(old(drive.dirs), checkout, e);
            outcome == run.outcome && drive.dirs == run.end && drive.history == old(drive.history) + run.trace
  {
    hide Exchange, RemovalTrace, AfterRemoval, Extraction;
    ExtractionOutcome(drive.dirs, Incoming(checkout), e);
    var staging, backup := Incoming(checkout), Old(checkout);
    var extracted := ExtractArchive(drive, staging, e);
    if !extracted {
      return BuildFailed;
    }
    var _ := drive.RemoveAll(backup, e.dropBackup);
    outcome := ExchangeOn(drive, checkout, staging, backup, e, true);
  }

  lemma BuildOutcome(fs: FS, staging: string, b: Build)
    ensures BuildRun(fs, staging, b).outcome == if b.ok then Done else BuildFailed
  {
  }

  lemma ExtractionOutcome(fs: FS, staging: string, e: Env)
    ensures Extraction(fs, staging, e).outcome in {Done, BuildFailed}
  {
  }

  /** What clearing .old leaves stands in the way of nothing. */
  ghost predicate Clears(fs: FS, path: string, r: Removal)
  {
    r.left.None? || path !in fs || forall f :: f in fs[path] ==> f !in r.left.value
  }

  lemma ClearsFree(fs: FS, path: string, r: Removal)
    ensures Free(AfterRemoval(fs, path, r), path) <==> Clears(fs, path, r)
  {
    if path in fs && r.left.Some? {
      var kept := map f | f in fs[path] && f in r.left.value :: fs[path][f];
      if f :| f in fs[path] && f in r.left.value {
        assert f in kept;
      }
    }
  }

  /** The extraction works exactly when .incoming could be cleared and the archive is good. */
  lemma ExtractionEnds(fs: FS, staging: string, backup: string, e: Env)
    requires staging != backup
    ensures var x := Extraction(fs, staging, e);
            && (x.outcome.Done? <==> e.clear.left.None? && e.build.ok)
            && (x.outcome.Done? ==> x.end == fs[staging := e.build.tree])
            && (e.before.left.None? && e.build.cleanup.left.None? && !x.outcome.Done? ==> x.end == fs - {staging})
  {
    hide RemovalTrace;
  }

  /** An upload installs the new checkout if and only if the archive extracts, the
      install works, and the old checkout moved out of the way, or was not seen and
      the path is free all the same. */
  lemma UploadOutcome(fs: FS, checkout: string, e: Env)
    ensures var o := Upload(fs, checkout, e).outcome;
            var extracted := e.clear.left.None? && e.build.ok;
            var seen := e.statOk && checkout in fs;
            var rotates := seen && e.rotateOk && Clears(fs, checkout + ".old", e.dropBackup);
            && (o.BuildFailed? <==> !extracted)
            && (o.RotateFailed? <==> extracted && seen && !rotates)
            && (o.Done? <==> extracted && e.installOk && (rotates || (!seen && Free(fs, checkout))))
            && (o == InstallFailed(true) <==> extracted && rotates && !e.installOk && e.rollbackOk)
            && !o.SaveFailed?
  {
    UploadPathsApart(checkout);
    assert Incoming(checkout) == checkout + ".incoming" && Old(checkout) == checkout + ".old";
    hide Incoming, Old, Exchange, Extraction;
    var staging, backup := Incoming(checkout), Old(checkout);
    ExtractionOutcome(fs, staging, e);
    ExtractionEnds(fs, staging, backup, e);
    if e.clear.left.None? && e.build.ok {
      var fs2 := fs[staging := e.build.tree];
      var fs3 := AfterRemoval(fs2, backup, e.dropBackup);
      ClearsFree(fs2, backup, e.dropBackup);
      ExchangeOutcome(fs3, checkout, staging, backup, e, true);
    }
  }

  /** When nothing fails, an upload puts the new checkout in place of the old one
      and leaves neither .incoming nor .old. */
  lemma UploadWorks(fs: FS, checkout: string, e: Env)
    requires AllWorks(e)
    ensures var run := Upload(fs, checkout, e);
            run.outcome.Done? && run.end == (fs - {checkout + ".incoming", checkout + ".old"})[checkout := e.build.tree]
  {
    UploadOutcome(fs, checkout, e);
    UploadPathsApart(checkout);
    assert Incoming(checkout) == checkout + ".incoming" && Old(checkout) == checkout + ".old";
    hide Incoming, Old, Exchange, Extraction;
    var staging, backup := Incoming(checkout), Old(checkout);
    ExtractionEnds(fs, staging, backup, e);
    ExchangeEnd(fs[staging := e.build.tree] - {backup}, checkout, staging, backup, e, true);
  }

  /** What survives removing some other path. */
  lemma RemovalElsewhere(fs: FS, path: string, r: Removal, kept: string)
    requires kept != path && kept in fs
    ensures kept in AfterRemoval(fs, path, r) && AfterRemoval(fs, path, r)[kept] == fs[kept]
    ensures forall i :: 0 <= i < |RemovalTrace(fs, path, r)| ==>
      kept in RemovalTrace(fs, path, r)[i] && RemovalTrace(fs, path, r)[i][kept] == fs[kept]
  {
  }

  /** One upload onto an existing checkout, under every schedule of failures. */
  lemma UploadSafe(fs: FS, checkout: string, e: Env)
    requires checkout in fs
    ensures var run := Upload(fs, checkout, e);
            && (forall i :: 0 <= i < |run.trace| ==>
                  Safe(run.trace[i], checkout, Old(checkout), fs[checkout], e.build.tree))
            && (run.outcome.Done? ==> checkout in run.end && run.end[checkout] == e.build.tree)
            && (!run.outcome.Done? ==>
                  || (checkout in run.end && run.end[checkout] == fs[checkout])
                  || (run.outcome == InstallFailed(false) && Old(checkout) in run.end
                      && run.end[Old(checkout)] == fs[checkout]))
  {
    hide AfterRemoval, RemovalTrace, Exchange, Incoming, Old;
    UploadPathsApart(checkout);
    var staging, backup := Incoming(checkout), Old(checkout);
    var fs1 := AfterRemoval(fs, staging, e.before);
    var fs2 := AfterRemoval(fs1, staging, e.clear);
    RemovalElsewhere(fs, staging, e.before, checkout);
    RemovalElsewhere(fs1, staging, e.clear, checkout);
    if e.clear.left.Some? {
      RemovalElsewhere(fs2, staging, e.build.cleanup, checkout);
    } else {
      var fs3 := BuildEnd(fs2, staging, e.build);
      RemovalElsewhere(fs3, staging, e.build.cleanup, checkout);
      if e.build.ok {
        RemovalElsewhere(fs3, backup, e.dropBackup, checkout);
        RemovalElsewhere(fs3, backup, e.dropBackup, staging);
        ExchangeSafe(AfterRemoval(fs3, backup, e.dropBackup), checkout, staging, backup, e, true);
      }
    }
  }

  /** The complete tree a source holds when an upload starts: its checkout, or
      the backup an earlier upload could not move back. */
  function Held(fs: FS, checkout: string): Option<Tree>
  {
    if checkout in fs then Some(fs[checkout])
    else if Old(checkout) in fs then Some(fs[Old(checkout)])
    else None
  }

  ghost predicate KeepsHeld(fs: FS, checkout: string, e: Env)
  {
    Held(fs, checkout).Some? ==>
      forall i :: 0 <= i < |Upload(fs, checkout, e).trace| ==>
        Safe(Upload(fs, checkout, e).trace[i], checkout, Old(checkout), Held(fs, checkout).value, e.build.tree)
  }

  const SMOOTH := Removal([], None)
  const SMOOTH_ENV :=
    Env(SMOOTH, SMOOTH, Build([], map[], true, SMOOTH), SMOOTH, true, true, true, true, SMOOTH, SMOOTH, true)

  /** With only the backup left, even an upload in which nothing fails passes
      through a state that holds no complete version. */
  lemma BackupOnlyIsLost(fs: FS, checkout: string)
    requires checkout !in fs && Old(checkout) in fs
    ensures !KeepsHeld(fs, checkout, SMOOTH_ENV)
  {
    UploadPathsApart(checkout);
    var staging, backup := Incoming(checkout), Old(checkout);
    var run := Upload(fs, checkout, SMOOTH_ENV);
    var lost := AfterRemoval(BuildEnd(fs - {staging}, staging, SMOOTH_ENV.build), backup, SMOOTH);
    assert (fs - {staging}) - {staging} == fs - {staging};
    assert run.trace[3] == lost;
    assert checkout !in lost && backup !in lost;
  }

  /** The swap always keeps a complete version if and only if the upload starts
      with a checkout in place, or with nothing to lose. */
  lemma UploadKeepsHeldIff(fs: FS, checkout: string)
    ensures (forall e :: KeepsHeld(fs, checkout, e)) <==> checkout in fs || Old(checkout) !in fs
  {
    if checkout in fs {
      forall e ensures KeepsHeld(fs, checkout, e) {
        UploadSafe(fs, checkout, e);
      }
    } else if Old(checkout) in fs {
      BackupOnlyIsLost(fs, checkout);
    }
  }

  /** Such a start is reachable: one upload whose install and rollback both fail. */
  lemma FailedRollbackLeavesBackupOnly(fs: FS, checkout: string)
    requires checkout in fs
    ensures var end := Upload(fs, checkout, SMOOTH_ENV.(installOk := false, rollbackOk := false)).end;
            checkout !in end && Old(checkout) in end && end[Old(checkout)] == fs[checkout]
  {
    UploadPathsApart(checkout);
  }
}
