/** What every run of installs and uninstalls keeps. */
module StoreProofs {
  import opened PackageStore
  import opened CommitProofs

  // ---------------------------------------------------------------- one install

  lemma TargetsAreFiles(files: seq<string>)
    ensures Targets(files, |files|) == Paths(AsSet(files))
  {
    hide Norm;
    var files' := AsSet(files);
    forall t | t in Targets(files, |files|) ensures t in Paths(files') {
      var i :| 0 <= i < |files| && Norm(files[i]) == t;
      assert files[i] in files';
    }
  }

  /** A successful install in one piece. */
  ghost function Installed(s: Store, r: Request): Store {
    var files := AsSet(r.files);
    Store(Overlay(s.disk, r.staging, Paths(files)) - Paths(Previous(s, r.pkg) - files),
          s.db[r.pkg := Record(files, r.version, (r.pkg in s.db && s.db[r.pkg].explicit) || r.depth == 0)])
  }

  lemma ApplySucceeds(s: Store, r: Request)
    requires Staged(r.files, r.staging) && Succeeds(s, r)
    ensures Apply(s, r) == Installed(s, r) && Distinct(r.files, |r.files|)
  {
    hide Norm, Collides, Committed, Overlay, Paths;
    CommitForm(s, r);
    TargetsAreFiles(r.files);
  }

  /** The outcome t differs from s by one staged file. */
  ghost predicate LeavesOne(s: Store, r: Request, t: Store) {
    exists f :: f in r.files && Norm(f) in r.staging && t == s.(disk := s.disk[Norm(f) := r.staging[Norm(f)]])
  }

  /** Every outcome in one piece: installed, unchanged, or with one file left over from a second backup. */
  lemma ApplyForm(s: Store, r: Request)
    requires Staged(r.files, r.staging)
    ensures Succeeds(s, r) ==> Apply(s, r) == Installed(s, r) && Distinct(r.files, |r.files|)
    ensures !Succeeds(s, r) ==> Apply(s, r) == s || (!Collides(s, r.pkg, r.files) && LeavesOne(s, r, Apply(s, r)))
  {
    hide Norm, Apply, Committed, Collides, Installed, StopAt, Distinct;
    if Succeeds(s, r) {
      ApplySucceeds(s, r);
    } else if Collides(s, r.pkg, r.files) {
      CollisionChangesNothing(s, r);
    } else {
      FailedCommitForm(s, r);
      assert r.files[StopAt(r.files, r.fault, 0)] in r.files;
    }
  }

  lemma InstalledIsPresent(s: Store, r: Request)
    requires Inv(s) && Staged(r.files, r.staging) && NoRespelling(s, r.files)
    ensures Present(Installed(s, r))
  {
    hide Norm;
    var t := Installed(s, r);
    var files := AsSet(r.files);
    forall pkg | pkg in t.db ensures Paths(t.db[pkg].files) <= t.disk.Keys {
      forall g | g in t.db[pkg].files ensures Norm(g) in t.disk {
        if pkg != r.pkg {
          assert Norm(g) in Paths(s.db[pkg].files);
        } else {
          assert g in r.files && Norm(g) in Paths(files);
        }
      }
    }
  }

  lemma InstalledIsApart(s: Store, r: Request)
    requires Apart(s) && NoRespelling(s, r.files) && !Collides(s, r.pkg, r.files) && Distinct(r.files, |r.files|)
    ensures Apart(Installed(s, r))
  {
    hide Norm, Overlay, Paths;
    var t := Installed(s, r);
    forall p, q, f, g | p in t.db && q in t.db && f in t.db[p].files && g in t.db[q].files && Norm(f) == Norm(g)
      ensures p == q && f == g
    {
      if p == r.pkg && q == r.pkg {
        OneSpelling(r.files, f, g);
      }
    }
  }

  lemma OneSpelling(files: seq<string>, f: string, g: string)
    requires Distinct(files, |files|) && f in files && g in files && Norm(f) == Norm(g)
    ensures f == g
  {
    hide Norm;
    var i :| 0 <= i < |files| && files[i] == f;
    var j :| 0 <= j < |files| && files[j] == g;
    assert !(i < j) && !(j < i);
  }

  lemma OthersKeepFiles(s: Store, r: Request, q: string, g: string)
    requires q in s.db && g in s.db[q].files
    ensures q != r.pkg ==> q in Installed(s, r).db && g in Installed(s, r).db[q].files
  {
  }

  lemma InstalledBreaks(s: Store, r: Request)
    requires Inv(s) && Inv(Installed(s, r)) && Distinct(r.files, |r.files|)
    ensures NoRespelling(s, r.files)
  {
    hide Norm;
    var t := Installed(s, r);
    var files := AsSet(r.files);
    forall f, q, g | f in r.files && q in s.db && g in s.db[q].files && Norm(f) == Norm(g) ensures f == g {
      assert f in files && f in t.db[r.pkg].files && Norm(f) in Paths(t.db[r.pkg].files);
      assert Norm(f) in t.disk;
      OthersKeepFiles(s, r, q, g);
      assert q == r.pkg && g !in files ==> Norm(g) in Paths(Previous(s, r.pkg) - files);
      if q == r.pkg && g in r.files {
        OneSpelling(r.files, f, g);
      }
    }
  }

  /** One install: a failed one keeps the invariant; a successful one keeps it if and only if no
      member is another spelling of a file that is already recorded. */
  lemma InstallKeepsInv(s: Store, r: Request)
    requires Inv(s) && Staged(r.files, r.staging)
    ensures !Succeeds(s, r) ==> Inv(Apply(s, r))
    ensures Succeeds(s, r) ==> (Inv(Apply(s, r)) <==> NoRespelling(s, r.files))
  {
    hide Norm, Installed, Committed, Apply, NoRespelling, Distinct, Apart, Paths;
    ApplyForm(s, r);
    if Succeeds(s, r) {
      if NoRespelling(s, r.files) {
        InstalledIsPresent(s, r);
        InstalledIsApart(s, r);
      } else if Inv(Installed(s, r)) {
        InstalledBreaks(s, r);
      }
    } else if Apply(s, r) != s {
      LeftoverKeepsInv(s, Apply(s, r));
    }
  }

  lemma LeftoverKeepsInv(s: Store, t: Store)
    requires Inv(s) && t.db == s.db && s.disk.Keys <= t.disk.Keys
    ensures Inv(t)
  {
    hide Norm, Paths;
  }

  /** Same record and the same bytes in all its files. */
  ghost predicate SamePackage(s: Store, t: Store, pkg: string) {
    && pkg in s.db && pkg in t.db && t.db[pkg] == s.db[pkg]
    && forall g :: g in s.db[pkg].files ==> Norm(g) in s.disk && Norm(g) in t.disk && t.disk[Norm(g)] == s.disk[Norm(g)]
  }

  lemma InstalledIsolates(s: Store, r: Request, other: string)
    requires Inv(s) && Staged(r.files, r.staging) && NoRespelling(s, r.files) && !Collides(s, r.pkg, r.files)
    requires other in s.db && other != r.pkg
    ensures SamePackage(s, Installed(s, r), other)
  {
    hide Norm;
    var files := AsSet(r.files);
    forall g | g in s.db[other].files
      ensures Norm(g) in s.disk && Norm(g) in Installed(s, r).disk && Installed(s, r).disk[Norm(g)] == s.disk[Norm(g)]
    {
      assert Norm(g) in Paths(s.db[other].files);
      assert Norm(g) !in Paths(files);
    }
  }

  lemma LeftoverIsolates(s: Store, r: Request, f: string, other: string)
    requires Inv(s) && NoRespelling(s, r.files) && !Collides(s, r.pkg, r.files)
    requires f in r.files && Norm(f) in r.staging && other in s.db && other != r.pkg
    ensures SamePackage(s, s.(disk := s.disk[Norm(f) := r.staging[Norm(f)]]), other)
  {
    hide Norm;
    forall g | g in s.db[other].files ensures Norm(g) in s.disk && Norm(g) != Norm(f) {
      assert Norm(g) in Paths(s.db[other].files);
    }
  }

  /** Whatever becomes of an install, the other packages keep their records and every byte of their files. */
  lemma InstallIsolates(s: Store, r: Request, other: string)
    requires Inv(s) && Staged(r.files, r.staging) && NoRespelling(s, r.files)
    requires other in s.db && other != r.pkg
    ensures SamePackage(s, Apply(s, r), other)
  {
    hide Norm, Installed, Committed, Apply, NoRespelling, Distinct, Collides;
    ApplyForm(s, r);
    if Succeeds(s, r) {
      InstalledIsolates(s, r, other);
    } else if Apply(s, r) == s {
      SameAsItself(s, other);
    } else {
      var f :| f in r.files && Norm(f) in r.staging && Apply(s, r) == s.(disk := s.disk[Norm(f) := r.staging[Norm(f)]]);
      LeftoverIsolates(s, r, f, other);
    }
  }

  lemma SameAsItself(s: Store, pkg: string)
    requires Inv(s) && pkg in s.db
    ensures SamePackage(s, s, pkg)
  {
    hide Norm;
    forall g | g in s.db[pkg].files ensures Norm(g) in s.disk {
      assert Norm(g) in Paths(s.db[pkg].files);
    }
  }

  /** A successful install puts every member's content in its place. */
  lemma InstalledContent(s: Store, r: Request, f: string)
    requires Staged(r.files, r.staging) && Succeeds(s, r) && NoRespelling(s, r.files) && f in r.files
    ensures Norm(f) in Apply(s, r).disk && Apply(s, r).disk[Norm(f)] == r.staging[Norm(f)]
  {
    hide Norm, Apply, Succeeds;
    ApplySucceeds(s, r);
    var files := AsSet(r.files);
    assert f in files && Norm(f) in Paths(files);
    forall o | o in Previous(s, r.pkg) - files ensures Norm(o) != Norm(f) {
      assert r.pkg in s.db && o in s.db[r.pkg].files;
    }
  }

  /** An install succeeds exactly when no member's name is recorded for another package, no fault occurs and
      all members denote different files. */
  lemma SucceedsExactly(s: Store, r: Request)
    requires Staged(r.files, r.staging)
    ensures Succeeds(s, r) <==>
      && (forall q, f :: q in s.db && q != r.pkg && f in r.files ==> f !in s.db[q].files)
      && r.fault.at >= |r.files|
      && (forall i, j :: 0 <= i < j < |r.files| ==> Norm(r.files[i]) != Norm(r.files[j]))
  {
    hide Norm, Committed;
    CommitForm(s, r);
  }

  /** Some name of the list denotes the path. */
  ghost predicate Denoted(files: set<string>, p: Path) {
    exists f :: f in files && Norm(f) == p
  }

  /** The package directory after a successful install, path by path: what the package recorded before and
      no longer ships is gone, its members hold their staged content, all else is as it was. */
  lemma InstalledDisk(s: Store, r: Request, p: Path)
    requires Staged(r.files, r.staging) && Succeeds(s, r)
    ensures var t := Apply(s, r);
      var files := set f | f in r.files;
      var old' := if r.pkg in s.db then s.db[r.pkg].files else {};
      && (p in t.disk <==> !Denoted(old' - files, p) && (p in s.disk || Denoted(files, p)))
      && (p in t.disk ==> if Denoted(files, p) then p in r.staging && t.disk[p] == r.staging[p]
                          else p in s.disk && t.disk[p] == s.disk[p])
  {
    hide Norm, Apply, Succeeds, Distinct;
    ApplySucceeds(s, r);
    var files := AsSet(r.files);
    PathIsDenoted(files, p);
    PathIsDenoted(Previous(s, r.pkg) - files, p);
    if f :| f in files && Norm(f) == p {
      assert f in r.files;
    }
  }

  lemma PathIsDenoted(files: set<string>, p: Path)
    ensures p in Paths(files) <==> Denoted(files, p)
  {
    hide Norm;
  }

  /** A successful install records exactly its members, the version it was for, and whether the user has ever
      asked for the package by name; no other record changes. */
  lemma InstalledRecord(s: Store, r: Request)
    requires Succeeds(s, r)
    ensures var t := Apply(s, r);
      && t.db.Keys == s.db.Keys + {r.pkg}
      && (forall q :: q in s.db && q != r.pkg ==> t.db[q] == s.db[q])
      && (forall f :: f in t.db[r.pkg].files <==> f in r.files)
      && t.db[r.pkg].version == r.version
      && (t.db[r.pkg].explicit <==> r.depth == 0 || (r.pkg in s.db && s.db[r.pkg].explicit))
  {
    hide Norm, Committed, Collides, Paths;
  }

  /** Every file of the package directory is recorded. */
  ghost predicate NoOrphans(s: Store) {
    forall p :: p in s.disk ==> Recorded(s, p)
  }

  ghost predicate Recorded(s: Store, p: Path) {
    exists pkg, f :: pkg in s.db && f in s.db[pkg].files && Norm(f) == p
  }

  lemma InstalledLeavesNoOrphans(s: Store, r: Request)
    requires NoOrphans(s)
    ensures NoOrphans(Installed(s, r))
  {
    hide Norm;
    var t := Installed(s, r);
    var files := AsSet(r.files);
    forall p | p in t.disk ensures Recorded(t, p) {
      if p in Paths(files) {
        var f :| f in files && Norm(f) == p;
        assert f in t.db[r.pkg].files;
      } else {
        assert p in s.disk && Recorded(s, p);
        var pkg, f :| pkg in s.db && f in s.db[pkg].files && Norm(f) == p;
        assert f in Previous(s, r.pkg) - files ==> p in Paths(Previous(s, r.pkg) - files);
        if pkg != r.pkg {
          assert f in t.db[pkg].files;
        }
      }
    }
  }

  lemma FileHasPath(files: set<string>, f: string)
    ensures f in files ==> Norm(f) in Paths(files)
  {
    hide Norm;
  }

  lemma RemoveLeavesNoOrphans(s: Store, pkg: string)
    requires NoOrphans(s)
    ensures NoOrphans(Remove(s, pkg))
  {
    hide Norm;
    var t := Remove(s, pkg);
    if pkg in s.db {
      forall p | p in t.disk ensures Recorded(t, p) {
        assert p in s.disk && Recorded(s, p);
        var q, f :| q in s.db && f in s.db[q].files && Norm(f) == p;
        FileHasPath(s.db[pkg].files, f);
        assert q in t.db && f in t.db[q].files;
      }
    }
  }

  // ---------------------------------------------------------------- uninstall

  /** `uninstall`, path by path: the recorded files and the record are gone, all else is as it was. */
  lemma RemoveExactly(s: Store, pkg: string)
    ensures pkg !in s.db ==> Remove(s, pkg) == s
    ensures pkg in s.db ==>
      var t := Remove(s, pkg);
      && t.db == (map q | q in s.db && q != pkg :: s.db[q])
      && (forall p :: p in t.disk <==> p in s.disk && !Denoted(s.db[pkg].files, p))
      && (forall p :: p in t.disk ==> t.disk[p] == s.disk[p])
  {
    hide Norm;
    if pkg in s.db {
      forall p | p in s.disk ensures p in Paths(s.db[pkg].files) <==> Denoted(s.db[pkg].files, p) {
        PathIsDenoted(s.db[pkg].files, p);
      }
    }
  }

  lemma RemoveKeepsInv(s: Store, pkg: string)
    requires Inv(s)
    ensures Inv(Remove(s, pkg))
  {
    hide Norm;
    var t := Remove(s, pkg);
    if pkg in s.db {
      forall q | q in t.db ensures Paths(t.db[q].files) <= t.disk.Keys {
        forall g | g in s.db[q].files ensures Norm(g) in t.disk {
          assert Norm(g) in Paths(s.db[q].files);
        }
      }
    }
  }

  lemma RemoveIsolates(s: Store, pkg: string, other: string)
    requires Inv(s) && other in s.db && other != pkg
    ensures SamePackage(s, Remove(s, pkg), other)
  {
    hide Norm;
    forall g | g in s.db[other].files ensures Norm(g) in s.disk && Norm(g) in Remove(s, pkg).disk {
      assert Norm(g) in Paths(s.db[other].files);
    }
  }

  /** Uninstalling undoes a first install whose files were not there before. */
  lemma UninstallUndoesInstall(s: Store, r: Request)
    requires Staged(r.files, r.staging) && Succeeds(s, r)
    requires r.pkg !in s.db && forall f :: f in r.files ==> Norm(f) !in s.disk
    ensures Remove(Apply(s, r), r.pkg) == s
  {
    hide Norm, Apply, Succeeds;
    ApplySucceeds(s, r);
    var t := Installed(s, r);
    var files := AsSet(r.files);
    assert Previous(s, r.pkg) - files == {};
    assert Paths({}) == {};
    assert t.disk - Paths(files) == s.disk by {
      assert forall p :: p in Paths(files) ==> p !in s.disk;
    }
    assert t.db - {r.pkg} == s.db;
  }

  // ---------------------------------------------------------------- whole runs

  /** What the archive checks and the extraction make sure of: every member staged, no name twice. */
  ghost predicate CheckedOp(op: Op) {
    op.Install? ==> Staged(op.request.files, op.request.staging) && AllDifferent(op.request.files)
  }

  /** A successful install of another spelling of a recorded file. */
  ghost predicate CommitsRespelling(s: Store, op: Op) {
    op.Install? && Succeeds(s, op.request) && !NoRespelling(s, op.request.files)
  }

  lemma {:induction false} StepKeepsInv(s: Store, op: Op)
    requires Inv(s) && CheckedOp(op)
    ensures Inv(Step(s, op)) <==> !CommitsRespelling(s, op)
  {
    hide Norm, Inv, Apply, NoRespelling, Committed, Collides;
    match op
    case Install(r) => InstallKeepsInv(s, r);
    case Uninstall(pkg) => RemoveKeepsInv(s, pkg);
  }

  /** The invariant holds in every state the run goes through. */
  ghost predicate InvThroughout(s: Store, ops: seq<Op>) {
    forall k :: 0 <= k <= |ops| ==> Inv(Run(s, ops[..k]))
  }

  ghost predicate NoRespellingCommits(s: Store, ops: seq<Op>)
    decreases ops
  {
    ops == [] || (!CommitsRespelling(s, ops[0]) && NoRespellingCommits(Step(s, ops[0]), ops[1..]))
  }

  lemma ThroughoutStep(s: Store, ops: seq<Op>)
    requires ops != []
    ensures InvThroughout(s, ops) <==> Inv(s) && InvThroughout(Step(s, ops[0]), ops[1..])
  {
    hide Inv, Step;
    var t := Step(s, ops[0]);
    forall k | 0 < k <= |ops| ensures Run(s, ops[..k]) == Run(t, ops[1..][..k - 1]) {
      assert ops[..k][1..] == ops[1..][..k - 1];
    }
    assert Run(s, ops[..0]) == s;
    if InvThroughout(s, ops) {
      forall k | 0 <= k <= |ops| - 1 ensures Inv(Run(t, ops[1..][..k])) {
        assert Inv(Run(s, ops[..k + 1]));
      }
    }
  }

  lemma ThroughoutEnds(s: Store, ops: seq<Op>)
    requires InvThroughout(s, ops)
    ensures Inv(s) && Inv(Run(s, ops))
  {
    hide Inv, Step;
    assert Run(s, ops[..0]) == s;
    assert ops[..|ops|] == ops;
  }

  lemma ThroughoutNothing(s: Store)
    requires Inv(s)
    ensures InvThroughout(s, [])
  {
    hide Inv;
    var none: seq<Op> := [];
    assert none[..0] == none;
  }

  /** Over every run of installs and uninstalls, each succeeding or failing at any point of its commit:
      recorded files exist and no two recorded names denote one file, in every state of the run, if and
      only if no install that succeeds carries another spelling of a recorded file. */
  lemma {:induction false} RunKeepsInv(s: Store, ops: seq<Op>)
    requires Inv(s) && forall op :: op in ops ==> CheckedOp(op)
    ensures InvThroughout(s, ops) <==> NoRespellingCommits(s, ops)
    ensures NoRespellingCommits(s, ops) ==> Inv(Run(s, ops))
    decreases ops
  {
    hide Inv, CheckedOp, Step, InvThroughout, CommitsRespelling;
    if ops == [] {
      ThroughoutNothing(s);
    } else {
      assert ops[0] in ops;
      var t := Step(s, ops[0]);
      StepKeepsInv(s, ops[0]);
      ThroughoutStep(s, ops);
      if InvThroughout(t, ops[1..]) {
        ThroughoutEnds(t, ops[1..]);
      }
      if Inv(t) {
        RunKeepsInv(t, ops[1..]);
      }
    }
  }

  /** No name is recorded for two packages. */
  ghost predicate NamesApart(s: Store) {
    forall p, q, f :: p in s.db && q in s.db && f in s.db[p].files && f in s.db[q].files ==> p == q
  }

  lemma ApplyKeepsNamesApart(s: Store, r: Request)
    requires NamesApart(s)
    ensures NamesApart(Apply(s, r))
  {
    hide Committed, Rollback, Paths;
  }

  /** What the ownership check is for, whatever the archives hold and however the calls end: over every
      run no name is ever recorded for two packages. */
  lemma {:induction false} RunKeepsNamesApart(s: Store, ops: seq<Op>)
    requires NamesApart(s)
    ensures NamesApart(Run(s, ops))
    decreases ops
  {
    hide NamesApart, Apply;
    if ops != [] {
      match ops[0] {
        case Install(r) => ApplyKeepsNamesApart(s, r);
        case Uninstall(pkg) => RemoveKeepsNamesApart(s, pkg);
      }
      RunKeepsNamesApart(Step(s, ops[0]), ops[1..]);
    }
  }

  lemma RemoveKeepsNamesApart(s: Store, pkg: string)
    requires NamesApart(s)
    ensures NamesApart(Remove(s, pkg))
  {
    hide Paths;
  }

  /** Started without unrecorded files, every run leaves none behind, as long as no archive spells one
      file twice: failing installs leave nothing, successful ones sweep what they no longer ship. */
  lemma {:induction false} RunLeavesNoOrphans(s: Store, ops: seq<Op>)
    requires NoOrphans(s)
    requires forall op :: op in ops ==>
      CheckedOp(op) && (op.Install? ==> Distinct(op.request.files, |op.request.files|))
    ensures NoOrphans(Run(s, ops))
    decreases ops
  {
    hide NoOrphans, Apply, Remove, Succeeds, AllDifferent, Distinct, Staged;
    if ops != [] {
      assert ops[0] in ops;
      match ops[0] {
        case Install(r) =>
          if Succeeds(s, r) {
            ApplySucceeds(s, r);
            InstalledLeavesNoOrphans(s, r);
          } else {
            DistinctMembersRestored(s, r);
          }
        case Uninstall(pkg) => RemoveLeavesNoOrphans(s, pkg);
      }
      RunLeavesNoOrphans(Step(s, ops[0]), ops[1..]);
    }
  }

  // ---------------------------------------------------------------- other packages over whole runs

  /** No install of the run, successful or not, carries another spelling of a recorded file. */
  ghost predicate Tidy(s: Store, ops: seq<Op>)
    decreases ops
  {
    ops == [] || (TidyStep(s, ops[0]) && Tidy(Step(s, ops[0]), ops[1..]))
  }

  ghost predicate TidyStep(s: Store, op: Op) {
    op.Install? ==> NoRespelling(s, op.request.files)
  }

  lemma {:induction false} TidyKeepsInv(s: Store, ops: seq<Op>)
    requires Inv(s) && Tidy(s, ops) && forall op :: op in ops ==> CheckedOp(op)
    ensures Inv(Run(s, ops))
    decreases ops
  {
    hide Inv, CheckedOp, Step, NoRespelling, Succeeds;
    if ops != [] {
      assert ops[0] in ops;
      StepKeepsInv(s, ops[0]);
      TidyKeepsInv(Step(s, ops[0]), ops[1..]);
    }
  }

  lemma {:induction false} TidyLast(s: Store, ops: seq<Op>, op: Op)
    requires Tidy(s, ops + [op])
    ensures TidyStep(Run(s, ops), op)
    decreases ops
  {
    hide Step, NoRespelling;
    if ops == [] {
      assert ops + [op] == [op];
    } else {
      assert (ops + [op])[1..] == ops[1..] + [op];
      TidyLast(Step(s, ops[0]), ops[1..], op);
    }
  }

  /** An archive whose members are plainly spelled. */
  ghost predicate PlainOp(op: Op) {
    op.Install? ==> forall f :: f in op.request.files ==> Plain(f)
  }

  ghost predicate PlainStore(s: Store) {
    forall q, g :: q in s.db && g in s.db[q].files ==> Plain(g)
  }

  lemma PlainMeansNoRespelling(s: Store, files: seq<string>)
    requires PlainStore(s) && forall f :: f in files ==> Plain(f)
    ensures NoRespelling(s, files)
  {
    hide Norm, Spell;
    forall f, q, g | f in files && q in s.db && g in s.db[q].files && Norm(f) == Norm(g) ensures f == g {
      PlainNamesAgree(f, g);
    }
  }

  lemma ApplyKeepsPlain(s: Store, r: Request)
    requires PlainStore(s) && PlainOp(Op.Install(r)) && CheckedOp(Op.Install(r))
    ensures PlainStore(Apply(s, r))
  {
    hide Norm, Plain, Committed, Overlay, Paths, Collides, Distinct;
    ApplyForm(s, r);
    if Succeeds(s, r) {
      var t := Installed(s, r);
      forall q, g | q in t.db && g in t.db[q].files ensures Plain(g) {
        if q == r.pkg {
          assert g in r.files;
        }
      }
    }
  }

  /** A run of plainly spelled archives is tidy. */
  lemma {:induction false} PlainRunIsTidy(s: Store, ops: seq<Op>)
    requires PlainStore(s) && forall op :: op in ops ==> CheckedOp(op) && PlainOp(op)
    ensures Tidy(s, ops) && PlainStore(Run(s, ops))
    decreases ops
  {
    hide PlainStore, CheckedOp, Apply, NoRespelling, Plain;
    if ops != [] {
      assert ops[0] in ops;
      match ops[0] {
        case Install(r) =>
          PlainMeansNoRespelling(s, r.files);
          ApplyKeepsPlain(s, r);
        case Uninstall(pkg) => RemoveKeepsPlain(s, pkg);
      }
      PlainRunIsTidy(Step(s, ops[0]), ops[1..]);
    }
  }

  lemma RemoveKeepsPlain(s: Store, pkg: string)
    requires PlainStore(s)
    ensures PlainStore(Remove(s, pkg))
  {
    hide Plain, Paths;
  }

  function Subject(op: Op): string {
    match op
    case Install(r) => r.pkg
    case Uninstall(pkg) => pkg
  }

  lemma StepIsolates(s: Store, op: Op, other: string)
    requires Inv(s) && CheckedOp(op) && TidyStep(s, op) && other in s.db && Subject(op) != other
    ensures SamePackage(s, Step(s, op), other)
  {
    hide Norm, Inv, Apply, NoRespelling, SamePackage;
    match op
    case Install(r) => InstallIsolates(s, r, other);
    case Uninstall(pkg) => RemoveIsolates(s, pkg, other);
  }

  lemma SameIsThere(s: Store, t: Store, pkg: string)
    requires SamePackage(s, t, pkg)
    ensures pkg in t.db
  {
  }

  lemma SameTransitive(s: Store, t: Store, u: Store, pkg: string)
    requires SamePackage(s, t, pkg) && SamePackage(t, u, pkg)
    ensures SamePackage(s, u, pkg)
  {
    hide Norm;
  }

  /** A run that never names a package does not make it appear. */
  lemma {:induction false} RunKeepsAbsent(s: Store, ops: seq<Op>, other: string)
    requires other !in s.db && forall op :: op in ops ==> Subject(op) != other
    ensures other !in Run(s, ops).db
    decreases ops
  {
    hide Committed, Collides, Rollback, Paths;
    if ops != [] {
      assert ops[0] in ops;
      RunKeepsAbsent(Step(s, ops[0]), ops[1..], other);
    }
  }

  /** Once asked for by name, a package stays marked as such until it is uninstalled. */
  lemma {:induction false} ExplicitIsKept(s: Store, ops: seq<Op>, pkg: string)
    requires pkg in s.db && s.db[pkg].explicit && Op.Uninstall(pkg) !in ops
    ensures pkg in Run(s, ops).db && Run(s, ops).db[pkg].explicit
    decreases ops
  {
    hide Committed, Collides, Rollback, Paths;
    if ops != [] {
      assert ops[0] in ops;
      ExplicitIsKept(Step(s, ops[0]), ops[1..], pkg);
    }
  }

  lemma {:induction false} RunKeepsRecord(s: Store, ops: seq<Op>, other: string)
    requires other in s.db && forall op :: op in ops ==> Subject(op) != other
    ensures other in Run(s, ops).db && Run(s, ops).db[other] == s.db[other]
    decreases ops
  {
    hide Committed, Collides, Rollback, Paths;
    if ops != [] {
      assert ops[0] in ops;
      RunKeepsRecord(Step(s, ops[0]), ops[1..], other);
    }
  }

  /** The run names the package at most in installs that fail. */
  ghost predicate Spares(s: Store, ops: seq<Op>, pkg: string)
    decreases ops
  {
    ops == [] ||
      ((Subject(ops[0]) == pkg ==> ops[0].Install? && !Succeeds(s, ops[0].request)) &&
       Spares(Step(s, ops[0]), ops[1..], pkg))
  }

  lemma {:induction false} SparesUnnamed(s: Store, ops: seq<Op>, pkg: string)
    requires forall op :: op in ops ==> Subject(op) != pkg
    ensures Spares(s, ops, pkg)
    decreases ops
  {
    hide Step, Subject, Succeeds;
    if ops != [] {
      assert ops[0] in ops;
      SparesUnnamed(Step(s, ops[0]), ops[1..], pkg);
    }
  }

  lemma {:induction false} SparesAppend(s: Store, a: seq<Op>, b: seq<Op>, pkg: string)
    requires Spares(s, a, pkg) && Spares(Run(s, a), b, pkg)
    ensures Spares(s, a + b, pkg)
    decreases a
  {
    hide Step, Subject, Succeeds;
    if a == [] {
      assert a + b == b;
    } else {
      assert (a + b)[1..] == a[1..] + b;
      SparesAppend(Step(s, a[0]), a[1..], b, pkg);
    }
  }

  /** Every commit the run makes successfully at the given depth is for an allowed package. */
  ghost predicate CommitsAt(s: Store, ops: seq<Op>, depth: nat, allowed: set<string>)
    decreases ops
  {
    ops == [] ||
      ((ops[0].Install? && ops[0].request.depth == depth && Succeeds(s, ops[0].request) ==> ops[0].request.pkg in allowed) &&
       CommitsAt(Step(s, ops[0]), ops[1..], depth, allowed))
  }

  lemma {:induction false} CommitsAtMore(s: Store, ops: seq<Op>, depth: nat, allowed: set<string>, more: set<string>)
    requires CommitsAt(s, ops, depth, allowed) && allowed <= more
    ensures CommitsAt(s, ops, depth, more)
    decreases ops
  {
    hide Step, Succeeds;
    if ops != [] {
      CommitsAtMore(Step(s, ops[0]), ops[1..], depth, allowed, more);
    }
  }

  lemma {:induction false} CommitsAtAppend(s: Store, a: seq<Op>, b: seq<Op>, depth: nat, allowed: set<string>)
    requires CommitsAt(s, a, depth, allowed) && CommitsAt(Run(s, a), b, depth, allowed)
    ensures CommitsAt(s, a + b, depth, allowed)
    decreases a
  {
    hide Step, Succeeds;
    if a == [] {
      assert a + b == b;
    } else {
      assert (a + b)[1..] == a[1..] + b;
      CommitsAtAppend(Step(s, a[0]), a[1..], b, depth, allowed);
    }
  }

  /** No commit at that depth, no condition. */
  lemma {:induction false} CommitsElsewhere(s: Store, ops: seq<Op>, depth: nat)
    requires forall op :: op in ops ==> op.Install? ==> op.request.depth != depth
    ensures CommitsAt(s, ops, depth, {})
    decreases ops
  {
    hide Step, Succeeds;
    if ops != [] {
      assert ops[0] in ops;
      CommitsElsewhere(Step(s, ops[0]), ops[1..], depth);
    }
  }

  lemma CommitsOnce(s: Store, r: Request)
    ensures CommitsAt(s, [Op.Install(r)], r.depth, if Succeeds(s, r) then {r.pkg} else {})
  {
    hide Succeeds, Apply;
    assert [Op.Install(r)][1..] == [];
  }

  /** A failed install leaves every package alone, the one it was for included: the one file it may leave
      behind had two spellings, so it is no recorded one. */
  lemma FailedInstallSpares(s: Store, r: Request, pkg: string)
    requires Inv(s) && CheckedOp(Op.Install(r)) && NoRespelling(s, r.files) && !Succeeds(s, r) && pkg in s.db
    ensures SamePackage(s, Apply(s, r), pkg)
  {
    hide Norm, Inv, Apply, Committed, Collides, StopAt, Targets, SamePackage, NoRespelling;
    if Collides(s, r.pkg, r.files) {
      CollisionChangesNothing(s, r);
      SameAsItself(s, pkg);
    } else {
      FailedCommitForm(s, r);
      var k := StopAt(r.files, r.fault, 0);
      if BackedUpTwice(r.files, r.fault) {
        TwoSpellings(s, r.files, k);
        LeftoverSpares(s, Norm(r.files[k]), r.staging, pkg);
      } else {
        SameAsItself(s, pkg);
      }
    }
  }

  lemma TwoSpellings(s: Store, files: seq<string>, k: nat)
    requires AllDifferent(files) && NoRespelling(s, files)
    requires k < |files| && Norm(files[k]) in Targets(files, k)
    ensures forall q, g :: q in s.db && g in s.db[q].files ==> Norm(g) != Norm(files[k])
  {
    hide Norm;
    var i :| 0 <= i < k && Norm(files[i]) == Norm(files[k]);
    assert files[i] in files && files[k] in files && files[i] != files[k];
  }

  lemma LeftoverSpares(s: Store, t: Path, staging: Disk, pkg: string)
    requires Inv(s) && pkg in s.db
    requires forall q, g :: q in s.db && g in s.db[q].files ==> Norm(g) != t
    ensures t in staging ==> SamePackage(s, s.(disk := s.disk[t := staging[t]]), pkg)
    ensures SamePackage(s, s, pkg)
  {
    hide Norm, Inv;
    SameAsItself(s, pkg);
  }

  lemma StepSpares(s: Store, op: Op, pkg: string)
    requires Inv(s) && CheckedOp(op) && TidyStep(s, op) && pkg in s.db
    requires Subject(op) == pkg ==> op.Install? && !Succeeds(s, op.request)
    ensures SamePackage(s, Step(s, op), pkg)
  {
    hide Norm, Inv, NoRespelling, CheckedOp, Succeeds, SamePackage;
    if Subject(op) == pkg {
      FailedInstallSpares(s, op.request, pkg);
    } else {
      StepIsolates(s, op, pkg);
    }
  }

  /** A tidy run that names a package at most in failing installs leaves its record and every byte of its
      files alone. */
  lemma {:induction false} RunSpares(s: Store, ops: seq<Op>, pkg: string)
    requires Inv(s) && Tidy(s, ops) && pkg in s.db && Spares(s, ops, pkg)
    requires forall op :: op in ops ==> CheckedOp(op)
    ensures SamePackage(s, Run(s, ops), pkg)
    decreases ops
  {
    hide Inv, CheckedOp, Step, SamePackage, Subject, Succeeds, NoRespelling;
    if ops == [] {
      SameAsItself(s, pkg);
    } else {
      assert ops[0] in ops;
      StepSpares(s, ops[0], pkg);
      StepKeepsInv(s, ops[0]);
      SameIsThere(s, Step(s, ops[0]), pkg);
      RunSpares(Step(s, ops[0]), ops[1..], pkg);
      SameTransitive(s, Step(s, ops[0]), Run(s, ops), pkg);
    }
  }

  lemma {:induction false} RunAppend(s: Store, a: seq<Op>, b: seq<Op>)
    ensures Run(s, a + b) == Run(Run(s, a), b)
    decreases a
  {
    hide Step;
    if a == [] {
      assert a + b == b;
    } else {
      assert (a + b)[1..] == a[1..] + b;
      RunAppend(Step(s, a[0]), a[1..], b);
    }
  }
}
