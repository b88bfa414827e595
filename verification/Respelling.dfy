/** What two spellings of one file cost: archives that zpip.py accepts and that break its promises. */
module Respelling {
  import opened Prelude
  import opened PackageStore
  import opened CommitProofs
  import StoreProofs
  import opened Archive

  // ---------------------------------------------------------------- concrete names

  const WHEEL := "q.dist-info/WHEEL"
  const RECORD := "q.dist-info/RECORD"

  lemma ModuleSpellings()
    ensures Norm("a.py") == ["a.py"] && Norm("./a.py") == ["a.py"]
  {
    hide Norm;
    NormSplits("a.py", "");
    NormSplits(".", "a.py");
    assert "." + "/" + "a.py" == "./a.py";
  }

  lemma MetadataSpelling(name: string)
    requires '/' !in name && name != "" && name != "."
    ensures Norm("q.dist-info/" + name) == ["q.dist-info", name]
  {
    hide Norm;
    NormSplits("q.dist-info", name);
    assert "q.dist-info" + "/" + name == "q.dist-info/" + name;
    NormSplits(name, "");
  }

  lemma Spellings()
    ensures Norm("a.py") == ["a.py"] && Norm("./a.py") == ["a.py"]
    ensures Norm(WHEEL) == ["q.dist-info", "WHEEL"] && Norm(RECORD) == ["q.dist-info", "RECORD"]
  {
    hide Norm;
    ModuleSpellings();
    MetadataSpelling("WHEEL");
    assert "q.dist-info/" + "WHEEL" == WHEEL;
    MetadataSpelling("RECORD");
    assert "q.dist-info/" + "RECORD" == RECORD;
  }

  /** A module under one or two names, behind the two metadata files. */
  function Wheel(names: seq<string>, content: Bytes): (r: seq<Member>)
    ensures |r| == 2 + |names|
  {
    [Member(WHEEL, 1, []), Member(RECORD, 1, [])] +
    seq(|names|, i requires 0 <= i < |names| => Member(names[i], 1, content))
  }

  lemma {:induction false} OnlyFiles(entries: seq<Member>)
    requires forall m :: m in entries ==> !IsDir(m) && m.size == 1
    ensures Files(entries) == entries && TotalSize(entries) == |entries|
  {
    hide IsDir;
    if entries != [] {
      var front, last := entries[..|entries| - 1], entries[|entries| - 1];
      assert last in entries;
      forall m | m in front ensures m in entries {
      }
      OnlyFiles(front);
      assert entries == front + [last];
    }
  }

  lemma MetadataIsThere(entries: seq<Member>)
    requires |entries| >= 2 && entries[0].filename == WHEEL && entries[1].filename == RECORD
    ensures HasMetadata(entries)
  {
    assert EndsWith(WHEEL, ".dist-info/WHEEL") && EndsWith(RECORD, ".dist-info/RECORD");
    assert entries[0] in entries && entries[1] in entries;
  }

  const PLACES: set<Path> := {["a.py"], ["q.dist-info", "WHEEL"], ["q.dist-info", "RECORD"]}

  lemma NameIsFine(name: string)
    requires name in [WHEEL, RECORD, "a.py", "./a.py"]
    ensures !Unsafe(name) && name != "" && name[|name| - 1] != '/' && Norm(name) in PLACES
  {
    hide Norm;
    Spellings();
  }

  lemma PlacesAreApart(p: Path, q: Path)
    requires p in PLACES && q in PLACES
    ensures p != [] && !(p < q)
  {
    assert p[0] != q[0] || |p| == |q|;
  }

  lemma PlacesAreExtractable(members: seq<Member>)
    requires forall m :: m in members ==> Norm(m.filename) in PLACES
    ensures Extractable(members)
  {
    hide Norm;
    forall m, n | m in members && n in members
      ensures Norm(m.filename) != [] && !(Norm(m.filename) < Norm(n.filename))
    {
      PlacesAreApart(Norm(m.filename), Norm(n.filename));
    }
  }

  /** The archives are accepted as they stand. */
  lemma WheelIsAccepted(names: seq<string>, content: Bytes)
    requires names == ["./a.py"] || names == ["a.py", "./a.py"]
    ensures Files(Wheel(names, content)) == Wheel(names, content)
    ensures Acceptable(Wheel(names, content)) && HasMetadata(Wheel(names, content))
    ensures Extractable(Wheel(names, content))
  {
    hide Norm, Acceptable, HasMetadata, Unsafe, Extractable, Files, TotalSize;
    var entries := Wheel(names, content);
    forall m | m in entries ensures m.size == 1 && !IsDir(m) && !Unsafe(m.filename) && Norm(m.filename) in PLACES {
      assert m.filename in [WHEEL, RECORD, "a.py", "./a.py"];
      NameIsFine(m.filename);
    }
    PlacesAreExtractable(entries);
    OnlyFiles(entries);
    MetadataIsThere(entries);
    AcceptedByNames(entries);
  }

  lemma AcceptedByNames(entries: seq<Member>)
    requires 3 <= |entries| <= 4 && Files(entries) == entries && TotalSize(entries) == |entries|
    requires forall m :: m in entries ==> m.size == 1 && !Unsafe(m.filename)
    requires entries[0].filename == WHEEL && entries[1].filename == RECORD
    requires entries[2].filename == (if |entries| == 3 then "./a.py" else "a.py")
    requires |entries| == 4 ==> entries[3].filename == "./a.py"
    ensures Acceptable(entries)
  {
    hide Unsafe, Files, TotalSize;
    var names := Names(entries);
    forall i, j | 0 <= i < j < |entries| ensures names[i] != names[j] {
      assert |names[i]| != |names[j]|;
    }
  }

  /** What extraction leaves at the module's place. */
  lemma ModuleIsStaged(names: seq<string>, content: Bytes)
    requires names == ["./a.py"] || names == ["a.py", "./a.py"]
    ensures ["a.py"] in Extracted(Wheel(names, content)) && Extracted(Wheel(names, content))[["a.py"]] == content
  {
    hide Norm;
    Spellings();
    var entries := Wheel(names, content);
    assert entries[|entries| - 1] == Member("./a.py", 1, content);
  }

  /** The request zpip.py makes of such an archive when nothing else goes wrong. */
  function RequestOf(pkg: string, names: seq<string>, content: Bytes): Request {
    var entries := Wheel(names, content);
    Request(pkg, Names(entries), Extracted(entries), "1", 0, Fault(|entries|, false))
  }

  // ---------------------------------------------------------------- the failing families are real

  /** An archive with two spellings of one file passes every check, its commit fails at the second one,
      and the rollback leaves the new file instead of the old one. */
  lemma TwoSpellingsAreNotUndone(old': Bytes, new': Bytes)
    requires old' != new'
    ensures var entries := Wheel(["a.py", "./a.py"], new');
      Files(entries) == entries && Acceptable(entries) && HasMetadata(Files(entries)) && Extractable(Files(entries))
    ensures var s := Store(map[["a.py"] := old'], map[]);
      var r := RequestOf("q", ["a.py", "./a.py"], new');
      !Succeeds(s, r) && Apply(s, r).disk == map[["a.py"] := new'] && Apply(s, r).disk != s.disk
  {
    hide Norm, Acceptable, HasMetadata, Extractable, Apply, Extracted, Files, Distinct, Staged, Overlay, StopAt;
    var names := ["a.py", "./a.py"];
    WheelIsAccepted(names, new');
    ModuleIsStaged(names, new');
    ExtractedIsStaged(Wheel(names, new'));
    Spellings();
    var s := Store(map[["a.py"] := old'], map[]);
    var r := RequestOf("q", names, new');
    assert r.files == [WHEEL, RECORD, "a.py", "./a.py"];
    CommitForm(s, r);
    TwoAlike(r.files, 2, 3);
    FailedCommitForm(s, r);
    StopAtFourth(r.files, r.fault);
    assert Apply(s, r).disk == map[["a.py"] := new'];
    assert s.disk[["a.py"]] == old';
  }

  lemma TwoAlike(files: seq<string>, i: nat, j: nat)
    requires i < j < |files| && Norm(files[i]) == Norm(files[j])
    ensures !Distinct(files, |files|)
  {
    hide Norm;
  }

  lemma StopAtFourth(files: seq<string>, fault: Fault)
    requires |files| == 4 && fault == Fault(4, false) && Norm(files[2]) == Norm(files[3])
    requires Norm(files[0]) != Norm(files[1]) && Norm(files[2]) !in [Norm(files[0]), Norm(files[1])]
    ensures StopAt(files, fault, 0) == 3 && BackedUpTwice(files, fault)
  {
    hide Norm;
    assert Norm(files[2]) in Targets(files, 3);
    assert StopAt(files, fault, 3) == 3;
    assert StopAt(files, fault, 2) == 3;
    assert StopAt(files, fault, 1) == 3;
  }

  /** A store with one package that holds one file. */
  function OneFile(content: Bytes): Store {
    Store(map[["a.py"] := content], map["p" := Record({"a.py"}, "1", true)])
  }

  lemma OneFileIsSound(content: Bytes)
    ensures Inv(OneFile(content))
  {
    hide Norm;
    Spellings();
  }

  lemma DistinctNames(files: seq<string>)
    requires files == [WHEEL, RECORD, "./a.py"]
    ensures Distinct(files, 3) && AllDifferent(files)
    ensures forall f :: f in files ==> |f| != |"a.py"|
  {
    hide Norm;
    Spellings();
    assert |files[0]| == 17 && |files[1]| == 18 && |files[2]| == 6;
  }

  /** An archive that spells the file of the package otherwise is committed without objection. */
  lemma RespelledRequest(owner: Bytes, content: Bytes, pkg: string)
    ensures var r := RequestOf(pkg, ["./a.py"], content);
      && Staged(r.files, r.staging) && Succeeds(OneFile(owner), r)
      && r.files == [WHEEL, RECORD, "./a.py"]
  {
    hide Norm, Committed, Extracted, Distinct;
    var r := RequestOf(pkg, ["./a.py"], content);
    ExtractedIsStaged(Wheel(["./a.py"], content));
    assert r.files == [WHEEL, RECORD, "./a.py"];
    DistinctNames(r.files);
    CommitForm(OneFile(owner), r);
    assert !Collides(OneFile(owner), r.pkg, r.files);
  }

  lemma RemoveOther(s: Store, r: Request)
    requires Staged(r.files, r.staging) && Succeeds(s, r) && r.pkg !in s.db
    ensures var t := Remove(Apply(s, r), r.pkg);
      t.db == s.db && forall f :: f in r.files ==> Norm(f) !in t.disk
  {
    hide Norm, Apply, Succeeds, Overlay;
    StoreProofs.ApplySucceeds(s, r);
    assert s.db[r.pkg := Apply(s, r).db[r.pkg]] - {r.pkg} == s.db;
    forall f | f in r.files ensures Norm(f) in Paths(AsSet(r.files)) {
      assert f in AsSet(r.files);
    }
  }

  /** The ownership check lets another package take a recorded file under another spelling; uninstalling
      that package then deletes the file of the first. */
  lemma RespellingTakesAFile(owner: Bytes, content: Bytes)
    ensures var entries := Wheel(["./a.py"], content);
      Files(entries) == entries && Acceptable(entries) && HasMetadata(Files(entries)) && Extractable(Files(entries))
    ensures var s := OneFile(owner);
      var r := RequestOf("q", ["./a.py"], content);
      var t := Run(s, [Op.Install(r), Op.Uninstall("q")]);
      && Inv(s) && Succeeds(s, r) && !NoRespelling(s, r.files) && !Inv(Apply(s, r))
      && t.db == s.db && "a.py" in t.db["p"].files && Norm("a.py") !in t.disk
  {
    hide Norm, Acceptable, HasMetadata, Extractable, Apply, Remove, Extracted, Files, Succeeds, Inv, Run;
    WheelIsAccepted(["./a.py"], content);
    OneFileIsSound(owner);
    RespelledRequest(owner, content, "q");
    Spellings();
    var s := OneFile(owner);
    var r := RequestOf("q", ["./a.py"], content);
    DistinctNames(r.files);
    assert "./a.py" in r.files && "a.py" in s.db["p"].files && "./a.py" != "a.py";
    StoreProofs.InstallKeepsInv(s, r);
    RemoveOther(s, r);
    RunTwo(s, Op.Install(r), Op.Uninstall("q"));
  }

  lemma RunTwo(s: Store, a: Op, b: Op)
    ensures Run(s, [a, b]) == Step(Step(s, a), b)
  {
    hide Step;
    assert [a, b][1..] == [b];
    assert [b][1..] == [];
    assert Run(Step(s, a), [b]) == Run(Step(Step(s, a), b), []);
  }

  /** A package reinstalled from an archive that spells its file otherwise loses it at once: the sweep
      takes the old name for an obsolete file. */
  lemma RespellingSweepsItsOwnFile(owner: Bytes, content: Bytes)
    ensures var s := OneFile(owner);
      var r := RequestOf("p", ["./a.py"], content);
      var t := Apply(s, r);
      Inv(s) && Succeeds(s, r) && "p" in t.db && "./a.py" in t.db["p"].files && Norm("./a.py") !in t.disk
  {
    hide Norm, Apply, Extracted, Succeeds, Inv, Overlay;
    OneFileIsSound(owner);
    RespelledRequest(owner, content, "p");
    Spellings();
    var s := OneFile(owner);
    var r := RequestOf("p", ["./a.py"], content);
    StoreProofs.ApplySucceeds(s, r);
    DistinctNames(r.files);
    var obsolete := Previous(s, "p") - AsSet(r.files);
    assert "a.py" in obsolete;
    assert Norm("a.py") in Paths(obsolete);
    assert "./a.py" in r.files;
  }
}
