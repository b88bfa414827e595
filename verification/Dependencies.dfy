/** What an install of zpip.py owes to the manifests and archives it met: why it succeeded, or why it failed. */
module Dependencies {
  import opened Prelude
  import opened PackageNames
  import opened PackageStore
  import opened StoreProofs
  import opened Archive

  datatype Requirement = Requirement(name: string, accepts: string -> bool, exact: Option<string>)

  datatype Manifest = Manifest(version: string, requirements: seq<Requirement>)

  /** The outside world, asked once per clock tick: manifests, downloaded archives, the smoke import,
      and errors of the file system during a commit. */
  datatype World = World(
    resolve: (nat, string, Option<string>) -> Option<Manifest>,
    download: (nat, string) -> Option<seq<Member>>,
    smokeTest: (nat, string) -> bool,
    fault: nat -> Fault)

  function Satisfies(record: Option<Record>, requirement: Requirement): bool {
    record.Some? && requirement.accepts(record.value.version)
  }

  /** The request the archive on offer at a tick gives rise to, if it passes all checks. */
  ghost function Offered(w: World, tick: nat, pkg: string, version: string, depth: nat): Option<Request> {
    match w.download(tick, pkg)
    case None => None
    case Some(entries) =>
      var files := Files(entries);
      if Acceptable(entries) && HasMetadata(files) && Extractable(files) && w.smokeTest(tick, pkg) then
        Some(Request(pkg, Names(files), Extracted(files), version, depth, w.fault(tick)))
      else None
  }

  // ---------------------------------------------------------------- success

  /** The trace from s is one successful install of what was resolved at the given tick. */
  ghost predicate Done(w: World, s: Store, tick: nat, pkg: string, version: Option<string>, depth: nat, trace: seq<Op>)
    decreases |trace|, 1
  {
    w.resolve(tick, pkg, version).Some? && Built(w, s, pkg, w.resolve(tick, pkg, version).value, depth, trace)
  }

  /** Its last step commits the archive offered for the manifest, and before it every requirement of the
      manifest was met. */
  ghost predicate Built(w: World, s: Store, pkg: string, manifest: Manifest, depth: nat, trace: seq<Op>)
    decreases |trace|, 0
  {
    trace != [] &&
      var before, last := trace[..|trace| - 1], trace[|trace| - 1];
      && last.Install? && last.request.pkg == pkg && Succeeds(Run(s, before), last.request)
      && (exists later: nat :: Offered(w, later, pkg, manifest.version, depth) == Some(last.request))
      && (forall r :: r in manifest.requirements ==> Met(w, s, r, depth + 1, before))
  }

  /** The requirement holds of a package recorded at the start, or of one that the trace installs, with its
      own requirements. */
  ghost predicate Met(w: World, s: Store, r: Requirement, depth: nat, trace: seq<Op>)
    decreases |trace|, 3
  {
    Canonicalize(r.name).Some? &&
      var d := Canonicalize(r.name).value;
      if d in s.db then r.accepts(s.db[d].version)
      else exists from: nat, to: nat, tick: nat :: MetBetween(w, s, r, d, depth, trace, from, to, tick)
  }

  ghost predicate MetBetween(w: World, s: Store, r: Requirement, d: string, depth: nat, trace: seq<Op>,
                             from: nat, to: nat, tick: nat)
    decreases |trace|, 2
  {
    && from < to <= |trace| && trace[to - 1].Install? && r.accepts(trace[to - 1].request.version)
    && Done(w, Run(s, trace[..from]), tick, d, r.exact, depth, trace[from..to])
  }

  lemma MetMore(w: World, s: Store, r: Requirement, depth: nat, trace: seq<Op>, more: seq<Op>)
    requires Met(w, s, r, depth, trace)
    ensures Met(w, s, r, depth, trace + more)
  {
    hide Done, Canonicalize, Run;
    var d := Canonicalize(r.name).value;
    if d !in s.db {
      var from: nat, to: nat, tick: nat :| MetBetween(w, s, r, d, depth, trace, from, to, tick);
      assert (trace + more)[..from] == trace[..from] && (trace + more)[from..to] == trace[from..to];
      assert MetBetween(w, s, r, d, depth, trace + more, from, to, tick);
    }
  }

  /** In plain words: a dependency that was recorded has an accepted version; one that was not is installed,
      successfully and in an accepted version, by a step of the trace. */
  ghost predicate Available(s: Store, trace: seq<Op>, r: Requirement) {
    Canonicalize(r.name).Some? &&
      var d := Canonicalize(r.name).value;
      if d in s.db then r.accepts(s.db[d].version) else exists k: nat :: InstalledAt(s, trace, d, r, k)
  }

  ghost predicate InstalledAt(s: Store, trace: seq<Op>, d: string, r: Requirement, k: nat) {
    && k < |trace| && trace[k].Install? && trace[k].request.pkg == d
    && Succeeds(Run(s, trace[..k]), trace[k].request) && r.accepts(trace[k].request.version)
  }

  lemma DoneEnds(w: World, s: Store, tick: nat, pkg: string, version: Option<string>, depth: nat, trace: seq<Op>)
    requires Done(w, s, tick, pkg, version, depth, trace)
    ensures w.resolve(tick, pkg, version).Some?
    ensures trace != [] && var last := trace[|trace| - 1];
      last.Install? && last.request.pkg == pkg && Succeeds(Run(s, trace[..|trace| - 1]), last.request)
    ensures forall r :: r in w.resolve(tick, pkg, version).value.requirements ==>
      Met(w, s, r, depth + 1, trace[..|trace| - 1])
  {
    hide Met, Succeeds, Run, Offered;
  }

  lemma MetIsAvailable(w: World, s: Store, r: Requirement, depth: nat, trace: seq<Op>)
    requires Met(w, s, r, depth, trace)
    ensures Available(s, trace, r)
  {
    hide Canonicalize, Run, Succeeds, Done;
    var d := Canonicalize(r.name).value;
    if d !in s.db {
      var from: nat, to: nat, tick: nat :| MetBetween(w, s, r, d, depth, trace, from, to, tick);
      var part := trace[from..to];
      DoneEnds(w, Run(s, trace[..from]), tick, d, r.exact, depth, part);
      assert part[|part| - 1] == trace[to - 1] && part[..|part| - 1] == trace[from..to - 1];
      assert trace[..to - 1] == trace[..from] + trace[from..to - 1];
      RunAppend(s, trace[..from], trace[from..to - 1]);
      assert InstalledAt(s, trace, d, r, to - 1);
    }
  }

  /** What a successful install has seen to: every requirement of the manifest it was given. */
  lemma DoneMeansAvailable(w: World, s: Store, tick: nat, pkg: string, version: Option<string>, depth: nat,
      trace: seq<Op>)
    requires Done(w, s, tick, pkg, version, depth, trace)
    ensures w.resolve(tick, pkg, version).Some?
    ensures forall r :: r in w.resolve(tick, pkg, version).value.requirements ==> Available(s, trace, r)
  {
    hide Met, Available, Succeeds, Run, Done;
    DoneEnds(w, s, tick, pkg, version, depth, trace);
    var before := trace[..|trace| - 1];
    forall r | r in w.resolve(tick, pkg, version).value.requirements ensures Available(s, trace, r) {
      MetIsAvailable(w, s, r, depth + 1, before);
      AvailableMore(s, before, [trace[|trace| - 1]], r);
      assert before + [trace[|trace| - 1]] == trace;
    }
  }

  lemma AvailableMore(s: Store, trace: seq<Op>, more: seq<Op>, r: Requirement)
    requires Available(s, trace, r)
    ensures Available(s, trace + more, r)
  {
    hide Canonicalize, Run, Succeeds;
    var d := Canonicalize(r.name).value;
    if d !in s.db {
      var k: nat :| InstalledAt(s, trace, d, r, k);
      assert (trace + more)[..k] == trace[..k] && (trace + more)[k] == trace[k];
      assert InstalledAt(s, trace + more, d, r, k);
    }
  }

  /** And what it leaves on disk and in the database, unless a name respells a recorded file: every file of
      the archive it took, with the bytes of that archive, under the version of the manifest. */
  lemma DoneMeansInstalled(w: World, s: Store, tick: nat, pkg: string, version: Option<string>, depth: nat,
      trace: seq<Op>)
    requires Done(w, s, tick, pkg, version, depth, trace)
    requires trace != [] && trace[|trace| - 1].Install?
    requires NoRespelling(Run(s, trace[..|trace| - 1]), trace[|trace| - 1].request.files)
    ensures exists later: nat :: w.download(later, pkg).Some? && Holds(Run(s, trace), pkg, w.download(later, pkg).value)
    ensures pkg in Run(s, trace).db && Run(s, trace).db[pkg].version == w.resolve(tick, pkg, version).value.version
  {
    hide Met, Succeeds, Apply, Run, Files, Extracted, Acceptable, HasMetadata, Extractable, NoRespelling, Holds;
    var before, r := trace[..|trace| - 1], trace[|trace| - 1].request;
    var u := Run(s, before);
    assert trace == before + [Op.Install(r)];
    RunLast(s, before, Op.Install(r));
    var manifest := w.resolve(tick, pkg, version).value;
    var later: nat :| Offered(w, later, pkg, manifest.version, depth) == Some(r);
    InstalledRecord(u, r);
    InstalledArchive(u, r, w.download(later, pkg).value);
  }

  /** Both in one, for a trace that respells nothing. */
  lemma DoneLeaves(w: World, s: Store, tick: nat, pkg: string, version: Option<string>, depth: nat, trace: seq<Op>)
    requires Done(w, s, tick, pkg, version, depth, trace) && Tidy(s, trace)
    ensures exists later: nat :: w.download(later, pkg).Some? && Holds(Run(s, trace), pkg, w.download(later, pkg).value)
    ensures w.resolve(tick, pkg, version).Some?
    ensures pkg in Run(s, trace).db && Run(s, trace).db[pkg].version == w.resolve(tick, pkg, version).value.version
  {
    hide Done, Run, Holds, NoRespelling, Tidy;
    DoneEnds(w, s, tick, pkg, version, depth, trace);
    var before, last := trace[..|trace| - 1], trace[|trace| - 1];
    assert trace == before + [last];
    TidyLast(s, before, last);
    DoneMeansInstalled(w, s, tick, pkg, version, depth, trace);
  }

  lemma RunLast(s: Store, ops: seq<Op>, op: Op)
    ensures Run(s, ops + [op]) == Step(Run(s, ops), op)
  {
    hide Step;
    RunAppend(s, ops, [op]);
    assert [op][1..] == [];
    assert Run(Step(Run(s, ops), op), []) == Step(Run(s, ops), op);
  }

  /** The package directory holds the archive's files with their bytes, all recorded for the package. */
  ghost predicate Holds(t: Store, pkg: string, entries: seq<Member>) {
    pkg in t.db && forall m :: m in entries && !IsDir(m) ==>
      m.filename in t.db[pkg].files && Norm(m.filename) in t.disk && t.disk[Norm(m.filename)] == m.content
  }

  lemma InstalledArchive(s: Store, r: Request, entries: seq<Member>)
    requires var files := Files(entries); r.files == Names(files) && r.staging == Extracted(files)
    requires Succeeds(s, r) && NoRespelling(s, r.files)
    ensures Holds(Apply(s, r), r.pkg, entries)
  {
    hide Norm, Succeeds, Apply, Extracted, NoRespelling, IsDir, Files, Distinct;
    var files := Files(entries);
    ExtractedIsStaged(files);
    ApplySucceeds(s, r);
    InstalledRecord(s, r);
    forall m | m in entries && !IsDir(m)
      ensures m.filename in r.files && Norm(m.filename) in Apply(s, r).disk
      ensures Apply(s, r).disk[Norm(m.filename)] == m.content
    {
      assert m in files;
      var i :| 0 <= i < |files| && files[i] == m;
      assert r.files[i] == m.filename;
      LastAmongDistinct(files, i);
      ExtractedContent(files, i);
      InstalledContent(s, r, m.filename);
    }
  }

  lemma LastAmongDistinct(files: seq<Member>, i: nat)
    requires i < |files| && Distinct(Names(files), |files|)
    ensures LastOf(files, i)
  {
    hide Norm;
    forall j | i < j < |files| ensures Norm(files[j].filename) != Norm(files[i].filename) {
      assert Norm(Names(files)[i]) != Norm(Names(files)[j]);
    }
  }

  // ---------------------------------------------------------------- failure

  /** Why an install failed. Requirements are given by their index in the manifest, steps of the trace by
      theirs, and the world's answers by the tick they were asked at. */
  datatype Cause =
    | InvalidName | Cycle | Unresolved
    | InvalidRequirement(i: nat)
    | Conflict(i: nat)
    | DependencyFailed(i: nat, step: nat, tick: nat, inner: Cause)
    | WrongVersion(i: nat, step: nat)
    | Unprepared(tick: nat)
    | Uncommitted(tick: nat, step: nat)

  /** The cause is one that the world, the store at the start and the trace really give. */
  ghost predicate Justified(w: World, s: Store, clock: nat, name: string, version: Option<string>, stack: seq<string>,
                            trace: seq<Op>, cause: Cause)
    decreases cause, 2
  {
    if cause.InvalidName? then Canonicalize(name) == None
    else
      Canonicalize(name).Some? &&
      var pkg := Canonicalize(name).value;
      if cause.Cycle? then pkg in stack
      else if cause.Unresolved? then w.resolve(clock + 1, pkg, version) == None
      else
        w.resolve(clock + 1, pkg, version).Some? &&
        Stopped(w, s, clock, pkg, w.resolve(clock + 1, pkg, version).value, stack, trace, cause)
  }

  ghost predicate Stopped(w: World, s: Store, clock: nat, pkg: string, manifest: Manifest, stack: seq<string>,
                          trace: seq<Op>, cause: Cause)
    decreases cause, 1
  {
    match cause
    case Unprepared(tick) => clock < tick && Offered(w, tick, pkg, manifest.version, |stack|) == None
    case Uncommitted(tick, step) =>
      && clock < tick && step < |trace| && trace[step].Install?
      && Offered(w, tick, pkg, manifest.version, |stack|) == Some(trace[step].request)
      && !Succeeds(Run(s, trace[..step]), trace[step].request)
    case _ => Blocked(w, s, clock, manifest.requirements, stack + [pkg], trace, cause)
  }

  /** A requirement that cannot be met: its name is invalid, another version is recorded, its installation
      failed, or it came in a version that is not accepted. */
  ghost predicate Blocked(w: World, s: Store, clock: nat, requirements: seq<Requirement>, stack: seq<string>,
                          trace: seq<Op>, cause: Cause)
    decreases cause, 0
  {
    match cause
    case InvalidRequirement(i) => i < |requirements| && Canonicalize(requirements[i].name) == None
    case Conflict(i) =>
      && i < |requirements| && Canonicalize(requirements[i].name).Some?
      && Canonicalize(requirements[i].name).value in s.db
      && !requirements[i].accepts(s.db[Canonicalize(requirements[i].name).value].version)
    case DependencyFailed(i, step, tick, inner) =>
      && i < |requirements| && Canonicalize(requirements[i].name).Some?
      && Canonicalize(requirements[i].name).value !in s.db && step <= |trace| && clock <= tick
      && Justified(w, Run(s, trace[..step]), tick, Canonicalize(requirements[i].name).value, requirements[i].exact,
                   stack, trace[step..], inner)
    case WrongVersion(i, step) =>
      && i < |requirements| && Canonicalize(requirements[i].name).Some?
      && Canonicalize(requirements[i].name).value !in s.db
      && step < |trace| && trace[step].Install? && trace[step].request.pkg == Canonicalize(requirements[i].name).value
      && Succeeds(Run(s, trace[..step]), trace[step].request) && !requirements[i].accepts(trace[step].request.version)
    case _ => false
  }

  /** A cause that lies after a later tick lies after an earlier one. */
  lemma StoppedEarlier(w: World, s: Store, clock: nat, earlier: nat, pkg: string, manifest: Manifest,
      stack: seq<string>,
                       trace: seq<Op>, cause: Cause)
    requires Stopped(w, s, clock, pkg, manifest, stack, trace, cause) && earlier <= clock
    ensures Stopped(w, s, earlier, pkg, manifest, stack, trace, cause)
    ensures !cause.InvalidName? && !cause.Cycle? && !cause.Unresolved?
  {
    hide Canonicalize, Run, Succeeds, Justified, Offered;
  }

  /** What is done afterwards does not take a cause away. */
  lemma {:induction false} BlockedMore(w: World, s: Store, clock: nat, requirements: seq<Requirement>,
      stack: seq<string>,
                                       trace: seq<Op>, more: seq<Op>, cause: Cause)
    requires Blocked(w, s, clock, requirements, stack, trace, cause)
    ensures Blocked(w, s, clock, requirements, stack, trace + more, cause)
    decreases cause, 0
  {
    hide Canonicalize, Run, Succeeds, Stopped;
    match cause
    case DependencyFailed(i, step, tick, inner) =>
      assert (trace + more)[..step] == trace[..step] && (trace + more)[step..] == trace[step..] + more;
      JustifiedMore(w, Run(s, trace[..step]), tick, Canonicalize(requirements[i].name).value, requirements[i].exact,
        stack, trace[step..], more, inner);
    case WrongVersion(i, step) =>
      assert (trace + more)[..step] == trace[..step] && (trace + more)[step] == trace[step];
    case _ =>
  }

  lemma {:induction false} StoppedMore(w: World, s: Store, clock: nat, pkg: string, manifest: Manifest,
      stack: seq<string>,
                                       trace: seq<Op>, more: seq<Op>, cause: Cause)
    requires Stopped(w, s, clock, pkg, manifest, stack, trace, cause)
    ensures Stopped(w, s, clock, pkg, manifest, stack, trace + more, cause)
    decreases cause, 1
  {
    hide Canonicalize, Run, Succeeds, Blocked, Offered;
    match cause
    case Unprepared(tick) =>
    case Uncommitted(tick, step) =>
      assert (trace + more)[..step] == trace[..step] && (trace + more)[step] == trace[step];
    case _ => BlockedMore(w, s, clock, manifest.requirements, stack + [pkg], trace, more, cause);
  }

  lemma {:induction false} JustifiedMore(w: World, s: Store, clock: nat, name: string, version: Option<string>,
                                         stack: seq<string>, trace: seq<Op>, more: seq<Op>, cause: Cause)
    requires Justified(w, s, clock, name, version, stack, trace, cause)
    ensures Justified(w, s, clock, name, version, stack, trace + more, cause)
    decreases cause, 2
  {
    hide Canonicalize, Run, Succeeds, Stopped, Offered;
    if !cause.InvalidName? && !cause.Cycle? && !cause.Unresolved? {
      var pkg := Canonicalize(name).value;
      StoppedMore(w, s, clock, pkg, w.resolve(clock + 1, pkg, version).value, stack, trace, more, cause);
    }
  }

  // ---------------------------------------------------------------- one requirement, one commit

  /** Some step of the trace is a successful commit of the package. */
  ghost predicate CommittedIn(s: Store, trace: seq<Op>, d: string) {
    exists k: nat :: CommittedBy(s, trace, d, k)
  }

  ghost predicate CommittedBy(s: Store, trace: seq<Op>, d: string, k: nat) {
    k < |trace| && trace[k].Install? && trace[k].request.pkg == d && Succeeds(Run(s, trace[..k]), trace[k].request)
  }

  lemma StillCommitted(s: Store, trace: seq<Op>, more: seq<Op>, ds: seq<string>)
    requires forall d :: d in ds ==> CommittedIn(s, trace, d)
    ensures forall d :: d in ds ==> CommittedIn(s, trace + more, d)
  {
    hide Run, Succeeds;
    forall d | d in ds ensures CommittedIn(s, trace + more, d) {
      var k: nat :| CommittedBy(s, trace, d, k);
      assert (trace + more)[..k] == trace[..k] && (trace + more)[k] == trace[k];
      assert CommittedBy(s, trace + more, d, k);
    }
  }

  lemma RecordedIsMet(w: World, s: Store, r: Requirement, depth: nat, trace: seq<Op>)
    requires Canonicalize(r.name).Some? && Canonicalize(r.name).value in s.db
    requires r.accepts(s.db[Canonicalize(r.name).value].version)
    ensures Met(w, s, r, depth, trace)
  {
  }

  lemma InstalledIsCommitted(w: World, s: Store, r: Requirement, d: string, depth: nat, before: seq<Op>,
      more: seq<Op>, tick: nat)
    requires Done(w, Run(s, before), tick, d, r.exact, depth, more)
    ensures more != [] && more[|more| - 1].Install?
    ensures CommittedBy(s, before + more, d, |before + more| - 1) && CommittedIn(s, before + more, d)
    ensures var last := more[|more| - 1].request;
      d in Run(s, before + more).db && Run(s, before + more).db[d].version == last.version
  {
    hide Run, Succeeds, Done, Apply;
    DoneEnds(w, Run(s, before), tick, d, r.exact, depth, more);
    var trace := before + more;
    var front, last := more[..|more| - 1], more[|more| - 1];
    assert trace[..|trace| - 1] == before + front && trace[|trace| - 1] == last;
    RunAppend(s, before, front);
    RunLast(s, before + front, last);
    assert trace == before + front + [last];
    InstalledRecord(Run(s, before + front), last.request);
  }

  lemma InstalledIsMet(w: World, s: Store, r: Requirement, d: string, depth: nat, before: seq<Op>, more: seq<Op>,
      tick: nat)
    requires Canonicalize(r.name) == Some(d) && d !in s.db
    requires Done(w, Run(s, before), tick, d, r.exact, depth, more)
    requires more != [] && more[|more| - 1].Install? && r.accepts(more[|more| - 1].request.version)
    ensures Met(w, s, r, depth, before + more)
  {
    hide Run, Done, Canonicalize;
    var trace := before + more;
    assert trace[..|before|] == before && trace[|before|..|trace|] == more;
    assert MetBetween(w, s, r, d, depth, trace, |before|, |trace|, tick);
  }

  /** A requirement that what was recorded, or what has been installed since, answers to. */
  ghost predicate Covered(db: map<string, Record>, r: Requirement, installed: seq<string>) {
    Canonicalize(r.name).Some? &&
      var d := Canonicalize(r.name).value;
      (d in db && r.accepts(db[d].version)) || d in installed
  }

  /** The first i requirements are met, and what was installed for them has been committed. */
  ghost predicate Handled(w: World, s: Store, requirements: seq<Requirement>, i: nat, depth: nat, trace: seq<Op>,
                          installed: seq<string>) {
    && i <= |requirements|
    && (forall k :: 0 <= k < i ==> Met(w, s, requirements[k], depth, trace))
    && (forall k :: 0 <= k < i ==> Covered(s.db, requirements[k], installed))
    && (forall d :: d in installed ==> CommittedIn(s, trace, d))
  }

  lemma HandledNothing(w: World, s: Store, requirements: seq<Requirement>, depth: nat)
    ensures Handled(w, s, requirements, 0, depth, [], [])
  {
  }

  lemma HandledMore(w: World, s: Store, requirements: seq<Requirement>, i: nat, depth: nat, trace: seq<Op>,
      more: seq<Op>,
                    installed: seq<string>)
    requires Handled(w, s, requirements, i, depth, trace, installed)
    ensures Handled(w, s, requirements, i, depth, trace + more, installed)
  {
    hide Met, Covered, CommittedIn;
    forall k | 0 <= k < i ensures Met(w, s, requirements[k], depth, trace + more) {
      MetMore(w, s, requirements[k], depth, trace, more);
    }
    StillCommitted(s, trace, more, installed);
  }

  lemma HandledAdded(w: World, s: Store, requirements: seq<Requirement>, i: nat, depth: nat, trace: seq<Op>,
                     installed: seq<string>, d: string)
    requires Handled(w, s, requirements, i, depth, trace, installed) && CommittedIn(s, trace, d)
    ensures Handled(w, s, requirements, i, depth, trace, installed + [d])
  {
    hide Met, CommittedIn, Canonicalize;
  }

  lemma HandledNext(w: World, s: Store, requirements: seq<Requirement>, i: nat, depth: nat, trace: seq<Op>,
                    installed: seq<string>)
    requires Handled(w, s, requirements, i, depth, trace, installed) && i < |requirements|
    requires Met(w, s, requirements[i], depth, trace) && Canonicalize(requirements[i].name).Some?
    requires Canonicalize(requirements[i].name).value in installed || Canonicalize(requirements[i].name).value in s.db
    ensures Handled(w, s, requirements, i + 1, depth, trace, installed)
  {
    hide CommittedIn, Canonicalize, MetBetween;
  }

  lemma HandledRecorded(w: World, s: Store, requirements: seq<Requirement>, i: nat, depth: nat, trace: seq<Op>,
                        installed: seq<string>)
    requires Handled(w, s, requirements, i, depth, trace, installed) && i < |requirements|
    requires Canonicalize(requirements[i].name).Some? && Canonicalize(requirements[i].name).value in s.db
    requires requirements[i].accepts(s.db[Canonicalize(requirements[i].name).value].version)
    ensures Handled(w, s, requirements, i + 1, depth, trace, installed)
  {
    hide Met, CommittedIn, Canonicalize;
    RecordedIsMet(w, s, requirements[i], depth, trace);
    HandledNext(w, s, requirements, i, depth, trace, installed);
  }

  lemma AllCommitted(w: World, s: Store, requirements: seq<Requirement>, i: nat, depth: nat, trace: seq<Op>,
                     installed: seq<string>)
    requires Handled(w, s, requirements, i, depth, trace, installed)
    ensures forall d :: d in installed ==> CommittedIn(s, trace, d)
  {
  }

  lemma HandledAll(w: World, s: Store, requirements: seq<Requirement>, depth: nat, trace: seq<Op>,
      installed: seq<string>)
    requires Handled(w, s, requirements, |requirements|, depth, trace, installed)
    ensures forall r :: r in requirements ==> Met(w, s, r, depth, trace) && Covered(s.db, r, installed)
  {
    hide Met, Covered, CommittedIn;
    forall r | r in requirements ensures Met(w, s, r, depth, trace) && Covered(s.db, r, installed) {
      var k :| 0 <= k < |requirements| && requirements[k] == r;
    }
  }

  lemma CommitBuilds(w: World, s: Store, pkg: string, manifest: Manifest, depth: nat, before: seq<Op>, r: Request,
      tick: nat)
    requires Offered(w, tick, pkg, manifest.version, depth) == Some(r) && Succeeds(Run(s, before), r)
    requires forall q :: q in manifest.requirements ==> Met(w, s, q, depth + 1, before)
    ensures Built(w, s, pkg, manifest, depth, before + [Op.Install(r)])
  {
    hide Run, Succeeds, Met, Acceptable, HasMetadata, Extractable, Files, Extracted;
    var trace := before + [Op.Install(r)];
    assert trace[..|trace| - 1] == before;
  }

  lemma BlockedStops(w: World, s: Store, clock: nat, pkg: string, manifest: Manifest, stack: seq<string>,
                     trace: seq<Op>, cause: Cause)
    requires Blocked(w, s, clock, manifest.requirements, stack + [pkg], trace, cause)
    ensures Stopped(w, s, clock, pkg, manifest, stack, trace, cause)
  {
    hide Run, Succeeds, Justified, Canonicalize;
  }

  lemma UnpreparedStops(w: World, s: Store, clock: nat, pkg: string, manifest: Manifest, stack: seq<string>,
                        trace: seq<Op>, tick: nat)
    requires clock < tick && Offered(w, tick, pkg, manifest.version, |stack|) == None
    ensures Stopped(w, s, clock, pkg, manifest, stack, trace, Unprepared(tick))
  {
    hide Offered;
  }

  lemma RefusalStops(w: World, s: Store, clock: nat, pkg: string, manifest: Manifest, stack: seq<string>,
                     before: seq<Op>, r: Request, tick: nat)
    requires clock < tick && Offered(w, tick, pkg, manifest.version, |stack|) == Some(r) && !Succeeds(Run(s, before), r)
    ensures Stopped(w, s, clock, pkg, manifest, stack, before + [Op.Install(r)], Uncommitted(tick, |before|))
  {
    hide Offered, Run, Succeeds;
    assert (before + [Op.Install(r)])[..|before|] == before;
  }
}
