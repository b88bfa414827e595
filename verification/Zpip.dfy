/** zpip.py: install with its dependencies, uninstall and verify, over the package directory and database. */
module Zpip {
  import opened Prelude
  import opened PackageNames
  import opened PackageStore
  import opened StoreProofs
  import opened Archive
  import opened Dependencies

  /** Every archive on offer spells its members plainly. */
  ghost predicate PlainWorld(w: World) {
    forall t, pkg :: w.download(t, pkg).Some? ==> forall m :: m in w.download(t, pkg).value ==> Plain(m.filename)
  }

  /** The packages a trace may name besides the one it is about. */
  ghost predicate Within(trace: seq<Op>, pkg: string, others: set<string>) {
    forall op :: op in trace ==> Subject(op) == pkg || Subject(op) !in others
  }

  /** The last thing the trace records is the package's own successful commit. */
  ghost predicate EndsInCommit(s: Store, trace: seq<Op>, pkg: string, depth: nat) {
    trace != [] &&
      var last := trace[|trace| - 1];
      && last.Install? && last.request.pkg == pkg && last.request.depth == depth
      && Succeeds(Run(s, trace[..|trace| - 1]), last.request)
  }

  /** An install whose archive has passed the checks, plainly spelled if all archives on offer are. */
  ghost predicate Delivered(w: World, op: Op) {
    CheckedOp(op) && (PlainWorld(w) ==> PlainOp(op))
  }

  ghost predicate Checked(w: World, trace: seq<Op>) {
    forall op :: op in trace ==> Delivered(w, op)
  }

  class PackageManager {
    var disk: Disk
    var db: map<string, Record>
    var clock: nat
    const world: World

    constructor (disk: Disk, world: World)
      ensures this.disk == disk && db == map[] && this.world == world
    {
      this.disk, this.world, db, clock := disk, world, map[], 0;
    }

    ghost function Contents(): Store
      reads this
    {
      Store(disk, db)
    }

    /** The ownership check, the commit loop with its rollback, the sweep and the new record. */
    method CommitWheel(r: Request) returns (ok: bool)
      modifies this`disk, this`db
      ensures Contents() == Apply(old(Contents()), r) && ok == Succeeds(old(Contents()), r)
    {
      hide Norm, Rollback, CommitLoop, Turn;
      ghost var before := Contents();
      var previous := if r.pkg in db then db[r.pkg].files else {};
      var explicit := r.pkg in db && db[r.pkg].explicit;
      var owned := set owner, f | owner in db && owner != r.pkg && f in db[owner].files :: f;
      OwnershipConflict(before, r, owned);
      if AsSet(r.files) * owned != {} {
        return false;
      }
      var failed, backup, committed := CommitFiles(r);
      if failed {
        UndoFiles(backup, committed);
        return false;
      }
      Sweep(previous - AsSet(r.files));
      db := db[r.pkg := Record(AsSet(r.files), r.version, explicit || r.depth == 0)];
      ok := true;
    }

    method CommitFiles(r: Request) returns (failed: bool, backup: Disk, committed: seq<string>)
      modifies this`disk
      ensures var tx := Committed(old(Contents()), r);
        failed == tx.failed && disk == tx.disk && backup == tx.backup && committed == tx.committed
    {
      hide Norm;
      ghost var all := Committed(Contents(), r);
      var staging := r.staging;
      var index := 0;
      backup, committed := map[], [];
      while index < |r.files|
        invariant 0 <= index <= |r.files|
        invariant all == CommitLoop(Tx(disk, staging, backup, committed, false), r.files, index, r.fault)
      {
        var relative := r.files[index];
        var target := Norm(relative);
        if index == r.fault.at && !r.fault.afterBackup {
          return true, backup, committed;
        }
        if target in disk {
          backup := backup[target := disk[target]];
        }
        if index == r.fault.at || target !in staging {
          return true, backup, committed;
        }
        disk := disk[target := staging[target]];
        staging := staging - {target};
        committed := committed + [relative];
        index := index + 1;
      }
      failed := false;
    }

    method UndoFiles(backup: Disk, committed: seq<string>)
      modifies this`disk
      ensures disk == Rollback(old(disk), backup, committed)
    {
      hide Norm;
      var saved, rest := backup, committed;
      while rest != []
        invariant Rollback(disk, saved, rest) == Rollback(old(disk), backup, committed)
        decreases |rest|
      {
        var target := Norm(rest[|rest| - 1]);
        rest := rest[..|rest| - 1];
        if target in saved {
          disk := disk[target := saved[target]];
          saved := saved - {target};
        } else if target in disk {
          disk := disk - {target};
        } else {
          assert disk - {target} == disk;
        }
      }
    }

    /** Unlinks the files of the given names, in any order. */
    method Sweep(names: set<string>)
      modifies this`disk
      ensures disk == old(disk) - Paths(names)
    {
      hide Norm;
      var rest := names;
      while rest != {}
        invariant rest <= names && disk == old(disk) - Paths(names - rest)
        decreases rest
      {
        var obsolete :| obsolete in rest;
        rest := rest - {obsolete};
        assert names - rest == (names - rest - {obsolete}) + {obsolete};
        PathsAdd(names - rest - {obsolete}, obsolete);
        var target := Norm(obsolete);
        if target in disk {
          disk := disk - {target};
        }
      }
      assert names - rest == names;
    }

    /** None stands for an invalid name (a ValueError), Some(false) for an unmanaged package. */
    method Uninstall(name: string) returns (managed: Option<bool>, removed: nat)
      modifies this`disk, this`db
      ensures match Canonicalize(name)
        case None => managed == None && Contents() == old(Contents())
        case Some(pkg) => managed == Some(pkg in old(db)) && Contents() == Remove(old(Contents()), pkg)
      ensures Inv(old(Contents())) && managed == Some(true) ==> removed == |old(db)[Canonicalize(name).value].files|
    {
      hide Norm, Canonicalize;
      removed := 0;
      var canonical := Canonicalize(name);
      if canonical == None {
        return None, 0;
      }
      var pkg := canonical.value;
      if pkg !in db {
        return Some(false), 0;
      }
      ghost var before := Contents();
      var files := db[pkg].files;
      var rest := files;
      while rest != {}
        invariant rest <= files && db == old(db)
        invariant disk == before.disk - Paths(files - rest)
        invariant Inv(before) ==> removed == |files| - |rest|
        decreases rest
      {
        var relative :| relative in rest;
        ghost var done := files - rest;
        if Inv(before) {
          StillThere(before, pkg, done, relative);
        }
        rest := rest - {relative};
        assert files - rest == done + {relative};
        PathsAdd(done, relative);
        var target := Norm(relative);
        if target in disk {
          disk := disk - {target};
          removed := removed + 1;
        }
      }
      assert files - rest == files;
      db := db - {pkg};
      managed := Some(true);
    }

    /** The recorded files that are missing; None for an invalid or unmanaged name. */
    method Verify(name: string) returns (missing: Option<set<string>>)
      ensures missing.Some? <==> Canonicalize(name).Some? && Canonicalize(name).value in db
      ensures missing.Some? ==> missing.value == set f | f in db[Canonicalize(name).value].files && Norm(f) !in disk
      ensures Inv(Contents()) && missing.Some? ==> missing.value == {}
    {
      hide Norm, Canonicalize;
      var canonical := Canonicalize(name);
      if canonical == None || canonical.value !in db {
        return None;
      }
      var files := db[canonical.value].files;
      missing := Some(set f | f in files && Norm(f) !in disk);
      if Inv(Contents()) {
        forall f | f in files ensures Norm(f) in disk {
          assert Norm(f) in Paths(Contents().db[canonical.value].files);
        }
      }
    }

    /** Uninstalls the dependencies this call has added, last one first. */
    method UndoDependencies(added: seq<string>) returns (ghost trace: seq<Op>)
      requires forall d :: d in added ==> IsCanonical(d)
      modifies this`disk, this`db
      ensures Contents() == Run(old(Contents()), trace)
      ensures forall op :: op in trace ==> op.Uninstall? && op.pkg in added
      ensures forall d :: d in added ==> d !in db
    {
      hide Canonicalize, IsCanonical, Norm;
      ghost var before := Contents();
      trace := [];
      var i := |added|;
      while i > 0
        invariant 0 <= i <= |added|
        invariant Contents() == Run(before, trace)
        invariant forall op :: op in trace ==> op.Uninstall? && op.pkg in added
        invariant forall k :: i <= k < |added| ==> added[k] !in db
      {
        i := i - 1;
        CanonicalIsFixed(added[i]);
        var _, _ := Uninstall(added[i]);
        ghost var op := Op.Uninstall(added[i]);
        RunSnoc(before, trace, op);
        trace := trace + [op];
      }
    }

    /** Installs a package and, first, the dependencies it misses. stack holds the packages whose
        installation is under way. The trace lists the commits and uninstalls that were made. */
    method Install(name: string, version: Option<string>, stack: seq<string>)
      returns (ok: bool, ghost trace: seq<Op>, ghost added: seq<string>, ghost cause: Cause)
      modifies this`disk, this`db, this`clock
      ensures old(clock) <= clock
      ensures ok ==>
        && Canonicalize(name).Some?
        && Done(world, old(Contents()), old(clock) + 1, Canonicalize(name).value, version, |stack|, trace)
      ensures !ok ==> Justified(world, old(Contents()), old(clock), name, version, stack, trace, cause)
      ensures Contents() == Run(old(Contents()), trace) && Checked(world, trace)
      ensures Canonicalize(name) == None || Canonicalize(name).value in stack ==> !ok && trace == []
      ensures Canonicalize(name).Some? ==> var pkg := Canonicalize(name).value;
        && Within(trace, pkg, old(db).Keys + SetOf(stack))
        && (ok ==> pkg in db && EndsInCommit(old(Contents()), trace, pkg, |stack|))
        && (!ok ==> Spares(old(Contents()), trace, pkg) && (pkg in db <==> pkg in old(db)))
      ensures forall op :: op in trace && op.Install? ==> op.request.depth >= |stack|
      ensures CommitsAt(old(Contents()), trace, |stack|, if ok then Requested(name) else {})
      ensures CommitsAt(old(Contents()), trace, |stack| + 1, SetOf(added))
      ensures forall d :: d in added ==> d !in old(db)
      ensures !ok ==> forall d :: d in added ==> d !in db
      decreases |Free(stack)|, 1
    {
      hide Canonicalize, IsCanonical, Free, Norm, Inv, Spares, Succeeds, Apply, Delivered, Run, Subject, CommitsAt,
        Built, Stopped;
      ok, trace, added, cause := false, [], [], InvalidName;
      ghost var start := Contents();
      RunNothing(start);
      CommitsElsewhere(start, [], |stack|);
      CommitsElsewhere(start, [], |stack| + 1);
      assert SetOf([]) == {};
      var canonical := Canonicalize(name);
      if canonical == None {
        return;
      }
      var pkg := canonical.value;
      SparesNothing(start, pkg);
      if pkg in stack {
        cause := Cycle;
        return;
      }
      CanonicalizeIsCanonical(name);
      clock := clock + 1;
      var manifest := world.resolve(clock, pkg, version);
      if manifest == None {
        cause := Unresolved;
        return;
      }
      ok, trace, added, cause := InstallManifest(pkg, manifest.value, stack);
      if !ok {
        StoppedEarlier(world, start, old(clock) + 1, old(clock), pkg, manifest.value, stack, trace, cause);
      }
    }

    /** Dependencies, archive, commit; on any failure the dependencies added are uninstalled again. */
    method InstallManifest(pkg: string, manifest: Manifest, stack: seq<string>)
      returns (ok: bool, ghost trace: seq<Op>, ghost added: seq<string>, ghost cause: Cause)
      requires IsCanonical(pkg) && pkg !in stack
      modifies this`disk, this`db, this`clock
      ensures old(clock) <= clock
      ensures ok ==> Built(world, old(Contents()), pkg, manifest, |stack|, trace)
      ensures !ok ==> Stopped(world, old(Contents()), old(clock), pkg, manifest, stack, trace, cause)
      ensures Contents() == Run(old(Contents()), trace) && Checked(world, trace)
      ensures Within(trace, pkg, old(db).Keys + SetOf(stack))
      ensures ok ==> pkg in db && EndsInCommit(old(Contents()), trace, pkg, |stack|)
      ensures !ok ==> Spares(old(Contents()), trace, pkg) && (pkg in db <==> pkg in old(db))
      ensures forall op :: op in trace && op.Install? ==> op.request.depth >= |stack|
      ensures CommitsAt(old(Contents()), trace, |stack|, if ok then {pkg} else {})
      ensures CommitsAt(old(Contents()), trace, |stack| + 1, SetOf(added))
      ensures forall d :: d in added ==> d !in old(db)
      ensures !ok ==> forall d :: d in added ==> d !in db
      decreases |Free(stack)|, 0
    {
      hide IsCanonical, Free, Norm, Inv, Spares, Succeeds, Apply, Delivered, Run, Subject, CommitsAt, Within, Checked,
        EndsInCommit, Canonicalize, Met, Blocked, Offered, Stopped;
      ghost var start := Contents();
      StackGrowsTowardsEnd(stack, pkg);
      var ready, newDependencies;
      ready, newDependencies, trace, cause := InstallDependencies(manifest.requirements, stack + [pkg]);
      added := newDependencies;
      ghost var prepared := trace;
      if !ready {
        BlockedStops(world, start, old(clock), pkg, manifest, stack, trace, cause);
      }
      ghost var others := start.db.Keys + SetOf(stack);
      WithinStack(trace, start.db.Keys, stack, pkg);
      SparesUnnamed(start, trace, pkg);
      KeepsKey(start, trace, pkg);
      CommitsElsewhere(start, trace, |stack|);
      ok := false;
      var request := None;
      if ready {
        request := Prepare(pkg, manifest.version, |stack|);
        if request == None {
          cause := Unprepared(clock);
          UnpreparedStops(world, start, old(clock), pkg, manifest, stack, trace, clock);
        }
      }
      if request.Some? {
        ok, trace := Attempt(request.value, start, trace, others, SetOf(added));
        if ok {
          CommitBuilds(world, start, pkg, manifest, |stack|, prepared, request.value, clock);
        } else {
          cause := Uncommitted(clock, |prepared|);
          RefusalStops(world, start, old(clock), pkg, manifest, stack, prepared, request.value, clock);
        }
      }
      if !ok {
        trace := Abandon(start, trace, newDependencies, pkg, others, stack, manifest, old(clock), cause);
      }
    }

    /** The commit of a package whose dependencies are there. */
    method Attempt(r: Request, ghost start: Store, ghost before: seq<Op>, ghost others: set<string>,
        ghost direct: set<string>)
      returns (ok: bool, ghost trace: seq<Op>)
      requires Contents() == Run(start, before) && Checked(world, before) && Within(before, r.pkg, others)
      requires Spares(start, before, r.pkg) && (r.pkg in db <==> r.pkg in start.db)
      requires Delivered(world, Op.Install(r))
      requires forall op :: op in before && op.Install? ==> op.request.depth > r.depth
      requires CommitsAt(start, before, r.depth + 1, direct)
      modifies this`disk, this`db
      ensures forall op :: op in trace && op.Install? ==> op.request.depth >= r.depth
      ensures CommitsAt(start, trace, r.depth, if ok then {r.pkg} else {})
      ensures CommitsAt(start, trace, r.depth + 1, direct)
      ensures trace == before + [Op.Install(r)] && ok == Succeeds(Run(start, before), r)
      ensures Contents() == Run(start, trace) && Checked(world, trace) && Within(trace, r.pkg, others)
      ensures ok ==> r.pkg in db && EndsInCommit(start, trace, r.pkg, r.depth)
      ensures !ok ==> Spares(start, trace, r.pkg) && (r.pkg in db <==> r.pkg in start.db)
    {
      hide Norm, Spares, Succeeds, Apply, Delivered, Run, CommitsAt;
      ghost var prepared := Contents();
      ok := CommitWheel(r);
      CommitsOwn(start, before, r, direct);
      ghost var op := Op.Install(r);
      RunSnoc(start, before, op);
      trace := before + [op];
      CommitEffect(prepared, r);
      assert trace[..|trace| - 1] == before;
      if !ok {
        SparesFailure(start, before, r);
      }
    }

    /** The end of a failed install: the dependencies it added are uninstalled again. */
    method Abandon(ghost start: Store, ghost before: seq<Op>, newDependencies: seq<string>, ghost pkg: string,
                   ghost others: set<string>, ghost stack: seq<string>, ghost manifest: Manifest,
                   ghost since: nat, ghost cause: Cause) returns (ghost trace: seq<Op>)
      requires Stopped(world, start, since, pkg, manifest, stack, before, cause)
      requires Contents() == Run(start, before) && Checked(world, before) && Within(before, pkg, others)
      requires Spares(start, before, pkg) && (pkg in db <==> pkg in start.db)
      requires pkg !in newDependencies && forall d :: d in newDependencies ==> IsCanonical(d) && d !in others
      requires forall op :: op in before && op.Install? ==> op.request.depth >= |stack|
      requires CommitsAt(start, before, |stack|, {}) && CommitsAt(start, before, |stack| + 1, SetOf(newDependencies))
      modifies this`disk, this`db
      ensures forall op :: op in trace && op.Install? ==> op.request.depth >= |stack|
      ensures CommitsAt(start, trace, |stack|, {}) && CommitsAt(start, trace, |stack| + 1, SetOf(newDependencies))
      ensures Stopped(world, start, since, pkg, manifest, stack, trace, cause)
      ensures Contents() == Run(start, trace) && Checked(world, trace) && Within(trace, pkg, others)
      ensures Spares(start, trace, pkg) && (pkg in db <==> pkg in start.db)
      ensures forall d :: d in newDependencies ==> d !in db
    {
      hide IsCanonical, Norm, Spares, Delivered, Run, Step, CommitsAt, Stopped;
      ghost var depth := |stack|;
      ghost var failed := Contents();
      ghost var undone;
      undone := UndoDependencies(newDependencies);
      RunAppend(start, before, undone);
      NotAmong(undone, newDependencies, pkg);
      SparesUnnamed(failed, undone, pkg);
      SparesAppend(start, before, undone, pkg);
      KeepsKey(failed, undone, pkg);
      UndoIsChecked(world, undone);
      WithinUndo(undone, newDependencies, pkg, others);
      NoFurtherCommits(start, before, undone, depth, {});
      NoFurtherCommits(start, before, undone, depth + 1, SetOf(newDependencies));
      trace := before + undone;
      StoppedMore(world, start, since, pkg, manifest, stack, before, undone, cause);
    }

    /** A user's call, for every world. If no archive it met spells a recorded file otherwise, every
        recorded file stays in place, and the packages that were there before keep their records and the
        bytes of their files: all of them if the call fails, all but the one asked for if it succeeds.
        Every state on the way keeps the invariant if and only if no commit that succeeded did so. */
    method InstallByName(name: string, version: Option<string>)
      returns (ok: bool, ghost trace: seq<Op>, ghost cause: Cause)
      requires Inv(Contents())
      modifies this`disk, this`db, this`clock
      ensures Contents() == Run(old(Contents()), trace)
      ensures ok ==>
        && Canonicalize(name).Some?
        && Done(world, old(Contents()), old(clock) + 1, Canonicalize(name).value, version, 0, trace)
      ensures !ok ==> Justified(world, old(Contents()), old(clock), name, version, [], trace, cause)
      ensures ok ==>
        var pkg := Canonicalize(name).value;
        && world.resolve(old(clock) + 1, pkg, version).Some?
        && (forall r :: r in world.resolve(old(clock) + 1, pkg, version).value.requirements ==>
             Available(old(Contents()), trace, r))
        && (Tidy(old(Contents()), trace) ==>
             exists later: nat :: world.download(later, pkg).Some? &&
               Holds(Contents(), pkg, world.download(later, pkg).value))
      ensures InvThroughout(old(Contents()), trace) <==> NoRespellingCommits(old(Contents()), trace)
      ensures Tidy(old(Contents()), trace) ==>
        && Inv(Contents())
        && forall q :: q in old(db) && !(ok && Canonicalize(name) == Some(q)) ==>
          SamePackage(old(Contents()), Contents(), q)
      ensures PlainWorld(world) && PlainStore(old(Contents())) ==>
        Tidy(old(Contents()), trace) && PlainStore(Contents())
      ensures ok ==> Canonicalize(name).Some? && Canonicalize(name).value in db && db[Canonicalize(name).value].explicit
    {
      hide Canonicalize, Norm, Inv, PlainStore, PlainWorld, Spares, Succeeds, SamePackage, Subject, CommitsAt, Tidy,
        CheckedOp, PlainOp, InvThroughout, NoRespellingCommits, Run, Done, Justified,
        Available, Holds;
      ghost var start := Contents();
      ghost var added;
      ok, trace, added, cause := Install(name, version, []);
      RunKeepsInv(start, trace);
      if PlainWorld(world) && PlainStore(start) {
        PlainRunIsTidy(start, trace);
      }
      if Tidy(start, trace) {
        TidyKeepsInv(start, trace);
        forall q | q in start.db && !(ok && Canonicalize(name) == Some(q)) ensures SamePackage(start, Contents(), q) {
          if Canonicalize(name).Some? {
            InstallSparesOthers(start, trace, Canonicalize(name).value, start.db.Keys + SetOf([]), ok, q);
          } else {
            RunNothing(start);
            SameAsItself(start, q);
          }
        }
      }
      if ok {
        ghost var pkg := Canonicalize(name).value;
        DoneMeansAvailable(world, start, old(clock) + 1, pkg, version, 0, trace);
        if Tidy(start, trace) {
          DoneLeaves(world, start, old(clock) + 1, pkg, version, 0, trace);
        }
        RunSnoc(start, trace[..|trace| - 1], trace[|trace| - 1]);
        assert trace == trace[..|trace| - 1] + [trace[|trace| - 1]];
        MarkedExplicit(Run(start, trace[..|trace| - 1]), trace[|trace| - 1].request);
      }
    }

    /** The requirements loop: a dependency that is recorded must satisfy its requirement, one that is
        not is installed and checked. On failure the dependencies added so far are reported as well. */
    method InstallDependencies(requirements: seq<Requirement>, stack: seq<string>)
      returns (ok: bool, newDependencies: seq<string>, ghost trace: seq<Op>, ghost cause: Cause)
      modifies this`disk, this`db, this`clock
      ensures old(clock) <= clock
      ensures ok ==> forall r :: r in requirements ==>
        && Met(world, old(Contents()), r, |stack|, trace)
        && Canonicalize(r.name).Some?
        && var d := Canonicalize(r.name).value;
           (d in old(db) && r.accepts(old(db)[d].version)) || d in newDependencies
      ensures !ok ==> Blocked(world, old(Contents()), old(clock), requirements, stack, trace, cause)
      ensures forall d :: d in newDependencies ==> CommittedIn(old(Contents()), trace, d)
      ensures Contents() == Run(old(Contents()), trace) && Checked(world, trace)
      ensures forall op :: op in trace ==> Subject(op) !in old(db) && Subject(op) !in stack
      ensures forall d :: d in newDependencies ==> IsCanonical(d) && d !in old(db) && d !in stack
      ensures forall op :: op in trace && op.Install? ==> op.request.depth >= |stack|
      ensures CommitsAt(old(Contents()), trace, |stack|, SetOf(newDependencies))
      decreases |Free(stack)|, 2
    {
      hide Canonicalize, IsCanonical, Free, Norm, Inv, Spares, Succeeds, Apply, Delivered, Run, Subject, CommitsAt,
        Done, Justified, Met, CommittedIn, Handled;
      ghost var start := Contents();
      RunNothing(start);
      CommitsElsewhere(start, [], |stack|);
      assert SetOf([]) == {};
      var dbBefore := db;
      newDependencies, trace, cause := [], [], InvalidName;
      HandledNothing(world, start, requirements, |stack|);
      var i := 0;
      while i < |requirements|
        invariant 0 <= i <= |requirements| && old(clock) <= clock
        invariant Contents() == Run(start, trace) && Checked(world, trace)
        invariant forall op :: op in trace ==> Subject(op) !in dbBefore && Subject(op) !in stack
        invariant forall d :: d in newDependencies ==> IsCanonical(d) && d !in dbBefore && d !in stack
        invariant forall op :: op in trace && op.Install? ==> op.request.depth >= |stack|
        invariant CommitsAt(start, trace, |stack|, SetOf(newDependencies))
        invariant Handled(world, start, requirements, i, |stack|, trace, newDependencies)
      {
        var requirement := requirements[i];
        i := i + 1;
        var canonical := Canonicalize(requirement.name);
        if canonical == None {
          cause := InvalidRequirement(i - 1);
          AllCommitted(world, start, requirements, i - 1, |stack|, trace, newDependencies);
          return false, newDependencies, trace, cause;
        }
        var dependency := canonical.value;
        var existing := if dependency in dbBefore then Some(dbBefore[dependency]) else None;
        if Satisfies(existing, requirement) {
          HandledRecorded(world, start, requirements, i - 1, |stack|, trace, newDependencies);
          continue;
        }
        if existing.Some? {
          cause := Conflict(i - 1);
          AllCommitted(world, start, requirements, i - 1, |stack|, trace, newDependencies);
          return false, newDependencies, trace, cause;
        }
        CanonicalizeIsCanonical(requirement.name);
        CanonicalIsFixed(dependency);
        KeepsAllKeys(start, trace);
        ghost var tick := clock;
        var installed; ghost var more, inner, why;
        installed, more, inner, why := Install(dependency, requirement.exact, stack);
        RunAppend(start, trace, more);
        MoreCommits(start, trace, more, |stack|, newDependencies, dependency, installed);
        ghost var earlier := trace;
        trace := trace + more;
        assert trace[..|earlier|] == earlier && trace[|earlier|..] == more;
        if !installed {
          cause := DependencyFailed(i - 1, |earlier|, tick, why);
          HandledMore(world, start, requirements, i - 1, |stack|, earlier, more, newDependencies);
          AllCommitted(world, start, requirements, i - 1, |stack|, trace, newDependencies);
          return false, newDependencies, trace, cause;
        }
        InstalledIsCommitted(world, start, requirement, dependency, |stack|, earlier, more, tick + 1);
        HandledMore(world, start, requirements, i - 1, |stack|, earlier, more, newDependencies);
        HandledAdded(world, start, requirements, i - 1, |stack|, trace, newDependencies, dependency);
        newDependencies := newDependencies + [dependency];
        var recorded := if dependency in db then Some(db[dependency]) else None;
        if !Satisfies(recorded, requirement) {
          cause := WrongVersion(i - 1, |trace| - 1);
          AllCommitted(world, start, requirements, i - 1, |stack|, trace, newDependencies);
          return false, newDependencies, trace, cause;
        }
        InstalledIsMet(world, start, requirement, dependency, |stack|, earlier, more, tick + 1);
        HandledNext(world, start, requirements, i - 1, |stack|, trace, newDependencies);
      }
      ok := true;
      HandledAll(world, start, requirements, |stack|, trace, newDependencies);
      AllCommitted(world, start, requirements, i, |stack|, trace, newDependencies);
    }

    /** Download, archive checks, extraction and smoke import; None if any of them fails. */
    method Prepare(pkg: string, version: string, depth: nat) returns (r: Option<Request>)
      modifies this`clock
      ensures clock == old(clock) + 1
      ensures r.Some? <==>
        && world.download(clock, pkg).Some? && world.smokeTest(clock, pkg)
        && var entries := world.download(clock, pkg).value;
           Acceptable(entries) && HasMetadata(Files(entries)) && Extractable(Files(entries))
      ensures r.Some? ==> var files := Files(world.download(clock, pkg).value);
        r.value == Request(pkg, Names(files), Extracted(files), version, depth, world.fault(clock))
      ensures r.Some? ==> Delivered(world, Op.Install(r.value))
      ensures r == Offered(world, clock, pkg, version, depth)
    {
      hide Norm, Spell, Extracted, Acceptable, HasMetadata, Extractable, Files;
      clock := clock + 1;
      var entries := world.download(clock, pkg);
      if entries == None {
        return None;
      }
      var members := SafeMembers(entries.value);
      if members.Err? {
        return None;
      }
      var staging := Extract(members.value);
      if staging == None || !world.smokeTest(clock, pkg) {
        return None;
      }
      var names := Names(members.value);
      ExtractedIsStaged(members.value);
      r := Some(Request(pkg, names, staging.value, version, depth, world.fault(clock)));
      if PlainWorld(world) {
        FilesAreEntries(entries.value);
        forall f | f in names ensures Plain(f) {
          var k :| 0 <= k < |names| && names[k] == f;
          assert members.value[k] in members.value;
        }
      }
    }
  }

  lemma OwnershipConflict(s: Store, r: Request, owned: set<string>)
    requires forall f :: f in owned <==> exists owner :: owner in s.db && owner != r.pkg && f in s.db[owner].files
    ensures AsSet(r.files) * owned != {} <==> Collides(s, r.pkg, r.files)
  {
    if AsSet(r.files) * owned != {} {
      var f :| f in AsSet(r.files) * owned;
      assert f in r.files;
    }
    if Collides(s, r.pkg, r.files) {
      var owner :| owner in s.db && owner != r.pkg && exists f :: f in r.files && f in s.db[owner].files;
      var f :| f in r.files && f in s.db[owner].files;
      assert f in AsSet(r.files) * owned;
    }
  }

  lemma PathsAdd(names: set<string>, name: string)
    ensures Paths(names + {name}) == Paths(names) + {Norm(name)}
  {
    hide Norm;
  }

  lemma StillThere(s: Store, pkg: string, done: set<string>, name: string)
    requires Inv(s) && pkg in s.db && done <= s.db[pkg].files && name in s.db[pkg].files - done
    ensures Norm(name) in s.disk - Paths(done)
  {
    hide Norm;
    assert Norm(name) in Paths(s.db[pkg].files);
  }

  ghost function SetOf(stack: seq<string>): set<string> {
    set x | x in stack
  }

  /** The package a name asks for. */
  ghost function Requested(name: string): set<string> {
    if Canonicalize(name).Some? then {Canonicalize(name).value} else {}
  }

  lemma CommitsOwn(s: Store, before: seq<Op>, r: Request, direct: set<string>)
    requires forall op :: op in before && op.Install? ==> op.request.depth > r.depth
    requires CommitsAt(s, before, r.depth + 1, direct)
    ensures CommitsAt(s, before + [Op.Install(r)], r.depth, if Succeeds(Run(s, before), r) then {r.pkg} else {})
    ensures CommitsAt(s, before + [Op.Install(r)], r.depth + 1, direct)
  {
    hide Run, CommitsAt, Succeeds;
    var own := if Succeeds(Run(s, before), r) then {r.pkg} else {};
    CommitsElsewhere(s, before, r.depth);
    CommitsAtMore(s, before, r.depth, {}, own);
    CommitsOnce(Run(s, before), r);
    CommitsAtAppend(s, before, [Op.Install(r)], r.depth, own);
    CommitsElsewhere(Run(s, before), [Op.Install(r)], r.depth + 1);
    CommitsAtMore(Run(s, before), [Op.Install(r)], r.depth + 1, {}, direct);
    CommitsAtAppend(s, before, [Op.Install(r)], r.depth + 1, direct);
  }

  lemma NoFurtherCommits(s: Store, before: seq<Op>, undone: seq<Op>, depth: nat, allowed: set<string>)
    requires CommitsAt(s, before, depth, allowed) && forall op :: op in undone ==> op.Uninstall?
    ensures CommitsAt(s, before + undone, depth, allowed)
  {
    hide Run, CommitsAt;
    CommitsElsewhere(Run(s, before), undone, depth);
    CommitsAtMore(Run(s, before), undone, depth, {}, allowed);
    CommitsAtAppend(s, before, undone, depth, allowed);
  }

  lemma MoreCommits(s: Store, trace: seq<Op>, more: seq<Op>, depth: nat, added: seq<string>, name: string,
      installed: bool)
    requires CommitsAt(s, trace, depth, SetOf(added)) && Canonicalize(name) == Some(name)
    requires CommitsAt(Run(s, trace), more, depth, if installed then Requested(name) else {})
    ensures CommitsAt(s, trace + more, depth, SetOf(if installed then added + [name] else added))
  {
    hide Run, CommitsAt, Canonicalize;
    var all := SetOf(if installed then added + [name] else added);
    assert installed ==> (added + [name])[|added|] == name;
    assert forall d :: d in added ==> d in added + [name];
    CommitsAtMore(s, trace, depth, SetOf(added), all);
    CommitsAtMore(Run(s, trace), more, depth, if installed then Requested(name) else {}, all);
    CommitsAtAppend(s, trace, more, depth, all);
  }

  lemma FilesAreEntries(entries: seq<Member>)
    ensures forall m :: m in Files(entries) ==> m in entries
  {
  }

  lemma RunSnoc(s: Store, ops: seq<Op>, op: Op)
    ensures Run(s, ops + [op]) == Step(Run(s, ops), op)
  {
    hide Step;
    RunAppend(s, ops, [op]);
    assert [op][1..] == [];
    assert Run(Step(Run(s, ops), op), []) == Step(Run(s, ops), op);
  }

  lemma RunNothing(s: Store)
    ensures Run(s, []) == s
  {
  }

  lemma SparesNothing(s: Store, pkg: string)
    ensures Spares(s, [], pkg)
  {
  }

  lemma SparesFailure(s: Store, ops: seq<Op>, r: Request)
    requires Spares(s, ops, r.pkg) && !Succeeds(Run(s, ops), r)
    ensures Spares(s, ops + [Op.Install(r)], r.pkg)
  {
    hide Succeeds, Apply;
    var op := Op.Install(r);
    assert [op][1..] == [];
    assert Spares(Step(Run(s, ops), op), [], r.pkg);
    assert Spares(Run(s, ops), [op], r.pkg);
    SparesAppend(s, ops, [op], r.pkg);
  }

  /** What one commit does to the keys of the database. */
  lemma CommitEffect(s: Store, r: Request)
    ensures Succeeds(s, r) ==> r.pkg in Apply(s, r).db
    ensures !Succeeds(s, r) ==> Apply(s, r).db == s.db
  {
    hide Norm, Committed, Collides, Rollback;
  }

  lemma MarkedExplicit(s: Store, r: Request)
    requires Succeeds(s, r) && r.depth == 0
    ensures r.pkg in Apply(s, r).db && Apply(s, r).db[r.pkg].explicit
  {
    hide Norm, Committed, Collides, Rollback;
  }

  lemma KeepsKey(s: Store, ops: seq<Op>, pkg: string)
    requires forall op :: op in ops ==> Subject(op) != pkg
    ensures pkg in Run(s, ops).db <==> pkg in s.db
  {
    hide Run, Subject;
    if pkg in s.db {
      RunKeepsRecord(s, ops, pkg);
    } else {
      RunKeepsAbsent(s, ops, pkg);
    }
  }

  lemma KeepsAllKeys(s: Store, ops: seq<Op>)
    requires forall op :: op in ops ==> Subject(op) !in s.db
    ensures s.db.Keys <= Run(s, ops).db.Keys
  {
    hide Run, Subject;
    forall k | k in s.db ensures k in Run(s, ops).db {
      RunKeepsRecord(s, ops, k);
    }
  }

  lemma WithinStack(ops: seq<Op>, keys: set<string>, stack: seq<string>, pkg: string)
    requires forall op :: op in ops ==> Subject(op) !in keys && Subject(op) !in stack + [pkg]
    ensures Within(ops, pkg, keys + SetOf(stack)) && forall op :: op in ops ==> Subject(op) != pkg
  {
    hide Subject;
    forall op | op in ops ensures Subject(op) != pkg && Subject(op) !in stack {
      assert Subject(op) !in stack + [pkg];
    }
  }

  lemma NotAmong(undone: seq<Op>, added: seq<string>, pkg: string)
    requires forall op :: op in undone ==> op.Uninstall? && op.pkg in added
    requires pkg !in added
    ensures forall op :: op in undone ==> Subject(op) != pkg
  {
  }

  lemma UndoIsChecked(w: World, undone: seq<Op>)
    requires forall op :: op in undone ==> op.Uninstall?
    ensures Checked(w, undone)
  {
  }

  lemma WithinUndo(undone: seq<Op>, added: seq<string>, pkg: string, others: set<string>)
    requires forall op :: op in undone ==> op.Uninstall? && op.pkg in added
    requires forall d :: d in added ==> d !in others
    ensures Within(undone, pkg, others)
  {
  }

  /** A tidy failed install, with everything it did to dependencies and undid again, leaves every package
      that was installed before exactly as it was: record and file contents. A successful one leaves
      all the others so. */
  lemma InstallSparesOthers(s: Store, trace: seq<Op>, pkg: string, others: set<string>, ok: bool, q: string)
    requires Inv(s) && Tidy(s, trace) && forall op :: op in trace ==> CheckedOp(op)
    requires Within(trace, pkg, others) && s.db.Keys <= others
    requires !ok ==> Spares(s, trace, pkg)
    requires q in s.db && (q != pkg || !ok)
    ensures SamePackage(s, Run(s, trace), q) && Inv(Run(s, trace))
  {
    hide Inv, CheckedOp, Tidy, Spares, Subject, SamePackage, Run;
    if q != pkg {
      forall op | op in trace ensures Subject(op) != q {
      }
      SparesUnnamed(s, trace, q);
    }
    RunSpares(s, trace, q);
    TidyKeepsInv(s, trace);
  }
}
