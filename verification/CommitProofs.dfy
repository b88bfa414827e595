/** What the commit loop and the rollback of zpip.py leave behind, in closed form. */
module CommitProofs {
  import opened Prelude
  import opened PackageStore

  /** The files that the first k members denote. */
  ghost function Targets(files: seq<string>, k: nat): set<Path>
    requires k <= |files|
  {
    set i | 0 <= i < k :: Norm(files[i])
  }

  /** The disk with the staged content of the given files over it. */
  ghost function Overlay(disk: Disk, staging: Disk, targets: set<Path>): Disk {
    disk + map p | p in targets && p in staging :: staging[p]
  }

  ghost function Restrict(disk: Disk, targets: set<Path>): Disk {
    map p | p in targets && p in disk :: disk[p]
  }

  /** The files a rollback touches get their backup back or disappear; the others stay. */
  ghost function Restored(disk: Disk, backup: Disk, targets: set<Path>): Disk {
    (disk - targets) + Restrict(backup, targets)
  }

  lemma TargetsSnoc(files: seq<string>, k: nat)
    requires k < |files|
    ensures Targets(files, k + 1) == Targets(files, k) + {Norm(files[k])}
  {
  }

  // ---------------------------------------------------------------- rollback

  lemma RestoredAgain(disk: Disk, backup: Disk, rest: set<Path>, t: Path)
    requires t !in rest && t in backup
    ensures Restored(disk[t := backup[t]], backup - {t}, rest) == Restored(disk, backup, rest + {t})
  {
    assert Restrict(backup - {t}, rest) == Restrict(backup, rest);
    assert Restrict(backup, rest + {t}) == Restrict(backup, rest)[t := backup[t]];
    assert disk[t := backup[t]] - rest == (disk - (rest + {t}))[t := backup[t]];
  }

  lemma RemovedAgain(disk: Disk, backup: Disk, rest: set<Path>, t: Path)
    requires t !in rest && t !in backup
    ensures Restored(disk - {t}, backup, rest) == Restored(disk, backup, rest + {t})
  {
    assert Restrict(backup, rest + {t}) == Restrict(backup, rest);
    assert disk - {t} - rest == disk - (rest + {t});
  }

  lemma {:induction false} RollbackForm(disk: Disk, backup: Disk, files: seq<string>, k: nat)
    requires k <= |files| && Distinct(files, k)
    ensures Rollback(disk, backup, files[..k]) == Restored(disk, backup, Targets(files, k))
    decreases k
  {
    hide Norm, Restored;
    if k == 0 {
      assert Restored(disk, backup, {}) == disk by { RestoredNothing(disk, backup); }
      assert Targets(files, 0) == {};
    } else {
      var t := Norm(files[k - 1]);
      assert files[..k][..k - 1] == files[..k - 1];
      TargetsSnoc(files, k - 1);
      if t in backup {
        RestoredAgain(disk, backup, Targets(files, k - 1), t);
        RollbackForm(disk[t := backup[t]], backup - {t}, files, k - 1);
      } else {
        RemovedAgain(disk, backup, Targets(files, k - 1), t);
        RollbackForm(disk - {t}, backup, files, k - 1);
      }
    }
  }

  lemma RestoredNothing(disk: Disk, backup: Disk)
    ensures Restored(disk, backup, {}) == disk
  {
  }

  // ---------------------------------------------------------------- the commit loop

  /** Where the loop ends: at the end, at the fault, or at a second spelling of a file. */
  ghost function StopAt(files: seq<string>, fault: Fault, index: nat): (k: nat)
    requires index <= |files|
    ensures index <= k <= |files|
    decreases |files| - index
  {
    if index == |files| || index == fault.at || Norm(files[index]) in Targets(files, index) then index
    else StopAt(files, fault, index + 1)
  }

  /** The loop has copied the first k members and nothing went wrong. */
  ghost predicate Progress(disk: Disk, staging: Disk, files: seq<string>, k: nat, tx: Tx) {
    && k <= |files| && !tx.failed && tx.committed == files[..k] && Distinct(files, k)
    && tx.disk == Overlay(disk, staging, Targets(files, k))
    && tx.staging == staging - Targets(files, k)
    && tx.backup == Restrict(disk, Targets(files, k))
  }

  lemma OverlayAdd(disk: Disk, staging: Disk, targets: set<Path>, t: Path)
    requires t in staging
    ensures Overlay(disk, staging, targets)[t := staging[t]] == Overlay(disk, staging, targets + {t})
  {
  }

  lemma RestrictAdd(disk: Disk, targets: set<Path>, t: Path)
    ensures t in disk ==> Restrict(disk, targets)[t := disk[t]] == Restrict(disk, targets + {t})
    ensures t !in disk ==> Restrict(disk, targets) == Restrict(disk, targets + {t})
  {
  }

  lemma OverlayOutside(disk: Disk, staging: Disk, targets: set<Path>, t: Path)
    requires t !in targets
    ensures t in Overlay(disk, staging, targets) <==> t in disk
    ensures t in disk ==> Overlay(disk, staging, targets)[t] == disk[t]
  {
  }

  /** A turn that neither meets the fault nor a second spelling makes progress. */
  lemma {:induction false} TurnProgress(disk: Disk, staging: Disk, files: seq<string>, k: nat, tx: Tx, fault: Fault)
    requires Progress(disk, staging, files, k, tx) && k < |files| && k != fault.at
    requires Staged(files, staging) && Norm(files[k]) !in Targets(files, k)
    ensures Progress(disk, staging, files, k + 1, Turn(tx, files[k], k, fault))
  {
    hide Norm, Overlay, Restrict;
    var t := Norm(files[k]);
    var targets := Targets(files, k);
    TargetsSnoc(files, k);
    OverlayAdd(disk, staging, targets, t);
    OverlayOutside(disk, staging, targets, t);
    RestrictAdd(disk, targets, t);
    assert files[..k + 1] == files[..k] + [files[k]];
    assert staging - (targets + {t}) == (staging - targets) - {t};
    assert files[k] in files && t in staging - targets;
    DistinctSnoc(files, k);
  }

  lemma DistinctSnoc(files: seq<string>, k: nat)
    requires k < |files| && Distinct(files, k) && Norm(files[k]) !in Targets(files, k)
    ensures Distinct(files, k + 1)
  {
    hide Norm;
    forall i, j | 0 <= i < j < k + 1 ensures Norm(files[i]) != Norm(files[j]) {
      assert Norm(files[i]) in Targets(files, i + 1);
    }
  }

  lemma {:induction false} LoopForm(disk: Disk, staging: Disk, files: seq<string>, k: nat, tx: Tx, fault: Fault)
    returns (before: Tx)
    requires Progress(disk, staging, files, k, tx) && Staged(files, staging)
    ensures var stop := StopAt(files, fault, k);
      && Progress(disk, staging, files, stop, before) && !before.failed
      && CommitLoop(tx, files, k, fault) ==
          if stop == |files| then before else Turn(before, files[stop], stop, fault)
    ensures StopAt(files, fault, k) < |files| <==> CommitLoop(tx, files, k, fault).failed
    decreases |files| - k
  {
    hide Norm, Progress, Turn;
    ProgressFacts(disk, staging, files, k, tx);
    before := tx;
    if k < |files| {
      var next := Turn(tx, files[k], k, fault);
      if k == fault.at || Norm(files[k]) in Targets(files, k) {
        TurnFails(disk, staging, files, k, tx, fault);
        assert CommitLoop(next, files, k + 1, fault) == next;
      } else {
        TurnProgress(disk, staging, files, k, tx, fault);
        before := LoopForm(disk, staging, files, k + 1, next, fault);
      }
    }
  }

  lemma ProgressFacts(disk: Disk, staging: Disk, files: seq<string>, k: nat, tx: Tx)
    requires Progress(disk, staging, files, k, tx)
    ensures !tx.failed && k <= |files|
  {
  }

  lemma TurnFails(disk: Disk, staging: Disk, files: seq<string>, k: nat, tx: Tx, fault: Fault)
    requires Progress(disk, staging, files, k, tx) && k < |files|
    requires k == fault.at || Norm(files[k]) in Targets(files, k)
    ensures var next := Turn(tx, files[k], k, fault);
      && next.failed && next.disk == tx.disk && next.committed == tx.committed
      && next.backup == (if (k != fault.at || fault.afterBackup) && Norm(files[k]) in tx.disk
                         then tx.backup[Norm(files[k]) := tx.disk[Norm(files[k])]] else tx.backup)
  {
    hide Norm, Overlay, Restrict;
  }

  // ---------------------------------------------------------------- rollback restores

  /** The loop stopped after it had backed up, a second time, a file it had already replaced. */
  ghost predicate BackedUpTwice(files: seq<string>, fault: Fault) {
    var k := StopAt(files, fault, 0);
    k < |files| && Norm(files[k]) in Targets(files, k) && (k != fault.at || fault.afterBackup)
  }

  lemma RestoredOverlay(disk: Disk, staging: Disk, targets: set<Path>, backup: Disk)
    requires Restrict(backup, targets) == Restrict(disk, targets)
    ensures Restored(Overlay(disk, staging, targets), backup, targets) == disk
  {
    var r := Restored(Overlay(disk, staging, targets), backup, targets);
    assert r.Keys == disk.Keys;
  }

  lemma RestoredTwice(disk: Disk, staging: Disk, targets: set<Path>, t: Path)
    requires t in targets && t in staging
    ensures Restored(Overlay(disk, staging, targets), Restrict(disk, targets)[t := staging[t]], targets)
      == disk[t := staging[t]]
  {
    var r := Restored(Overlay(disk, staging, targets), Restrict(disk, targets)[t := staging[t]], targets);
    assert r.Keys == disk.Keys + {t};
  }

  lemma RestrictTwice(disk: Disk, targets: set<Path>, t: Path, b: Bytes)
    ensures Restrict(Restrict(disk, targets), targets) == Restrict(disk, targets)
    ensures t !in targets ==> Restrict(Restrict(disk, targets)[t := b], targets) == Restrict(disk, targets)
  {
  }

  /** The disk after a failed commit has been rolled back: as it was, except that a file backed up
      twice keeps its new content. */
  lemma FailedCommitForm(s: Store, r: Request)
    requires Staged(r.files, r.staging) && !Collides(s, r.pkg, r.files) && Committed(s, r).failed
    ensures StopAt(r.files, r.fault, 0) < |r.files|
    ensures var t := Norm(r.files[StopAt(r.files, r.fault, 0)]);
      Apply(s, r) == if BackedUpTwice(r.files, r.fault) && t in r.staging then s.(disk := s.disk[t := r.staging[t]]) else s
  {
    hide Norm, Overlay, Restrict, Restored, Turn, Collides, CommitLoop, Rollback, StopAt;
    var k := StopAt(r.files, r.fault, 0);
    var start := Tx(s.disk, r.staging, map[], [], false);
    StartProgress(s.disk, r.staging, r.files);
    var before := LoopForm(s.disk, r.staging, r.files, 0, start, r.fault);
    StopReason(r.files, r.fault, 0);
    TurnFails(s.disk, r.staging, r.files, k, before, r.fault);
    var tx := Committed(s, r);
    var targets := Targets(r.files, k);
    var t := Norm(r.files[k]);
    RollbackForm(tx.disk, tx.backup, r.files, k);
    RestrictTwice(s.disk, targets, t, if t in before.disk then before.disk[t] else []);
    if BackedUpTwice(r.files, r.fault) {
      assert r.files[k] in r.files;
      OverlayInside(s.disk, r.staging, targets, t);
      RestoredTwice(s.disk, r.staging, targets, t);
    } else {
      RestoredOverlay(s.disk, r.staging, targets, tx.backup);
    }
  }

  lemma OverlayInside(disk: Disk, staging: Disk, targets: set<Path>, t: Path)
    requires t in targets && t in staging
    ensures t in Overlay(disk, staging, targets) && Overlay(disk, staging, targets)[t] == staging[t]
  {
  }

  lemma StartProgress(disk: Disk, staging: Disk, files: seq<string>)
    ensures Progress(disk, staging, files, 0, Tx(disk, staging, map[], [], false))
  {
    hide Norm;
    assert Targets(files, 0) == {};
    assert Overlay(disk, staging, {}) == disk;
    assert Restrict(disk, {}) == map[];
    assert staging - {} == staging;
  }

  lemma {:induction false} StopReason(files: seq<string>, fault: Fault, index: nat)
    requires index <= |files|
    ensures var k := StopAt(files, fault, index);
      k == |files| || k == fault.at || Norm(files[k]) in Targets(files, k)
    decreases |files| - index
  {
    hide Norm, Targets;
    if !(index == |files| || index == fault.at || Norm(files[index]) in Targets(files, index)) {
      StopReason(files, fault, index + 1);
    }
  }

  /** A commit that fails at any point is undone completely if and only if no file was backed up
      twice, or its new content happens to be the old one. The database is untouched in any case. */
  lemma RollbackRestores(s: Store, r: Request)
    requires Staged(r.files, r.staging) && !Collides(s, r.pkg, r.files) && Committed(s, r).failed
    ensures Apply(s, r).db == s.db
    ensures Apply(s, r).disk == s.disk <==>
      (BackedUpTwice(r.files, r.fault) ==>
        var k := StopAt(r.files, r.fault, 0);
        k < |r.files| && Norm(r.files[k]) in s.disk && s.disk[Norm(r.files[k])] == r.staging[Norm(r.files[k])])
  {
    hide Norm, Apply, Committed, Collides, Targets, StopAt;
    FailedCommitForm(s, r);
    var t := Norm(r.files[StopAt(r.files, r.fault, 0)]);
    assert r.files[StopAt(r.files, r.fault, 0)] in r.files;
    if BackedUpTwice(r.files, r.fault) && Apply(s, r).disk == s.disk {
      assert t in s.disk[t := r.staging[t]];
    }
  }

  /** Archives whose members denote different files, whatever their spelling, are always undone. */
  lemma DistinctMembersRestored(s: Store, r: Request)
    requires Staged(r.files, r.staging) && Distinct(r.files, |r.files|) && !Succeeds(s, r)
    ensures Apply(s, r) == s
  {
    hide Norm, Apply, Committed, Collides, StopAt;
    if Collides(s, r.pkg, r.files) {
      CollisionChangesNothing(s, r);
    } else {
      FailedCommitForm(s, r);
      NeverTwice(r.files, r.fault);
    }
  }

  lemma CollisionChangesNothing(s: Store, r: Request)
    requires Collides(s, r.pkg, r.files)
    ensures Apply(s, r) == s
  {
  }

  lemma NeverTwice(files: seq<string>, fault: Fault)
    requires Distinct(files, |files|)
    ensures !BackedUpTwice(files, fault)
  {
    hide Norm, StopAt;
    var k := StopAt(files, fault, 0);
    assert forall i :: 0 <= i < k < |files| ==> Norm(files[i]) != Norm(files[k]);
  }

  // ---------------------------------------------------------------- success

  /** A commit succeeds exactly when no fault occurs and all members denote different files; then
      the disk holds the staged content at their places and is otherwise unchanged. */
  lemma CommitForm(s: Store, r: Request)
    requires Staged(r.files, r.staging)
    ensures var tx := Committed(s, r);
      !tx.failed <==> r.fault.at >= |r.files| && Distinct(r.files, |r.files|)
    ensures var tx := Committed(s, r);
      !tx.failed ==> tx.disk == Overlay(s.disk, r.staging, Targets(r.files, |r.files|))
  {
    hide Norm, Overlay, Restrict, Turn, CommitLoop, StopAt;
    var start := Tx(s.disk, r.staging, map[], [], false);
    StartProgress(s.disk, r.staging, r.files);
    var _ := LoopForm(s.disk, r.staging, r.files, 0, start, r.fault);
    var k := StopAt(r.files, r.fault, 0);
    StopReason(r.files, r.fault, 0);
    StopIsFirst(r.files, r.fault, 0);
    if k < |r.files| && Norm(r.files[k]) in Targets(r.files, k) {
      var i :| 0 <= i < k && Norm(r.files[i]) == Norm(r.files[k]);
      assert !Distinct(r.files, |r.files|);
    }
  }

  lemma {:induction false} StopIsFirst(files: seq<string>, fault: Fault, index: nat)
    requires index <= |files|
    ensures StopAt(files, fault, index) == |files| ==> fault.at < index || fault.at >= |files|
    decreases |files| - index
  {
    hide Norm, Targets;
    if index < |files| && index != fault.at && Norm(files[index]) !in Targets(files, index) {
      StopIsFirst(files, fault, index + 1);
    }
  }
}
