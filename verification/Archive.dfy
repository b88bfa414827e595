/** The archive checks of zpip.py before anything is extracted. */
module Archive {
  import opened Prelude
  import opened PackageStore

  datatype Member = Member(filename: string, size: nat, content: Bytes)

  datatype ArchiveError = UnsafePath | DuplicateMember | TooLarge | NoWheelMetadata | NoRecord

  const MAX_WHEEL_BYTES: nat := 104_857_600

  predicate IsDir(m: Member) {
    m.filename != "" && m.filename[|m.filename| - 1] == '/'
  }

  /** An absolute path, or one that climbs with "..". */
  predicate Unsafe(name: string) {
    (name != "" && name[0] == '/') || ".." in Norm(name)
  }

  predicate EndsWith(s: string, suffix: string) {
    |suffix| <= |s| && s[|s| - |suffix|..] == suffix
  }

  function Files(entries: seq<Member>): (r: seq<Member>)
    ensures forall m :: m in r <==> m in entries && !IsDir(m)
  {
    if entries == [] then []
    else
      var last := entries[|entries| - 1];
      var front := Files(entries[..|entries| - 1]);
      if IsDir(last) then front else front + [last]
  }

  function TotalSize(members: seq<Member>): nat {
    if members == [] then 0 else TotalSize(members[..|members| - 1]) + members[|members| - 1].size
  }

  function Names(members: seq<Member>): (r: seq<string>)
    ensures |r| == |members| && forall i :: 0 <= i < |members| ==> r[i] == members[i].filename
  {
    seq(|members|, i requires 0 <= i < |members| => members[i].filename)
  }

  /** What the per-member checks accept. */
  ghost predicate Acceptable(entries: seq<Member>) {
    && (forall m :: m in entries ==> !Unsafe(m.filename))
    && AllDifferent(Names(Files(entries)))
    && (forall m :: m in Files(entries) ==> m.size <= MAX_WHEEL_BYTES)
    && TotalSize(Files(entries)) <= 3 * MAX_WHEEL_BYTES
  }

  predicate AnyEndsWith(members: seq<Member>, suffix: string) {
    exists m :: m in members && EndsWith(m.filename, suffix)
  }

  ghost predicate HasMetadata(members: seq<Member>) {
    AnyEndsWith(members, ".dist-info/WHEEL") && AnyEndsWith(members, ".dist-info/RECORD")
  }

  // What the checks mean, entry by entry.

  ghost predicate FileNamesDiffer(entries: seq<Member>) {
    forall i, j :: 0 <= i < j < |entries| && !IsDir(entries[i]) && !IsDir(entries[j]) ==>
      entries[i].filename != entries[j].filename
  }

  lemma {:induction false} FilesDiffer(entries: seq<Member>)
    ensures AllDifferent(Names(Files(entries))) <==> FileNamesDiffer(entries)
  {
    hide IsDir;
    if entries != [] {
      var front, last := entries[..|entries| - 1], entries[|entries| - 1];
      FilesDiffer(front);
      assert forall i :: 0 <= i < |front| ==> entries[i] == front[i];
      if !IsDir(last) {
        NamesSnoc(Files(front), last);
        NamedAmongFiles(front, last.filename);
      }
    }
  }

  lemma NamedAmongFiles(entries: seq<Member>, name: string)
    ensures name in Names(Files(entries)) <==> exists i :: 0 <= i < |entries| && !IsDir(entries[i]) && entries[i].filename == name
  {
    hide IsDir;
    var names := Names(Files(entries));
    if name in names {
      var k :| 0 <= k < |names| && names[k] == name;
      assert Files(entries)[k] in Files(entries);
    }
    if i :| 0 <= i < |entries| && !IsDir(entries[i]) && entries[i].filename == name {
      assert entries[i] in Files(entries);
      var k :| 0 <= k < |Files(entries)| && Files(entries)[k] == entries[i];
      assert names[k] == name;
    }
  }

  lemma EndsWithIs(s: string, suffix: string)
    ensures EndsWith(s, suffix) <==> exists front :: s == front + suffix
  {
    if EndsWith(s, suffix) {
      assert s == s[..|s| - |suffix|] + suffix;
    }
  }

  /** Accepted are exactly the archives whose entries neither are absolute nor climb, whose files (what does
      not end in a slash) have different names and keep the size limits, and that hold both metadata files. */
  lemma AcceptedExactly(entries: seq<Member>)
    ensures Acceptable(entries) && HasMetadata(Files(entries)) <==>
      && (forall m :: m in entries ==> !("/" <= m.filename) && ".." !in Norm(m.filename))
      && FileNamesDiffer(entries)
      && (forall m :: m in entries && !("/" <= m.filename) && !IsDir(m) ==> m.size <= 100 * 1024 * 1024)
      && TotalSize(Files(entries)) <= 300 * 1024 * 1024
      && (exists m, front :: m in entries && !IsDir(m) && m.filename == front + ".dist-info/WHEEL")
      && (exists m, front :: m in entries && !IsDir(m) && m.filename == front + ".dist-info/RECORD")
  {
    hide Norm, TotalSize, EndsWith, IsDir, FileNamesDiffer, Files, AllDifferent;
    FilesDiffer(entries);
    forall m, suffix | m in entries ensures EndsWith(m.filename, suffix) <==> exists front :: m.filename == front + suffix {
      EndsWithIs(m.filename, suffix);
    }
    forall m | m in entries ensures !Unsafe(m.filename) <==> !("/" <= m.filename) && ".." !in Norm(m.filename) {
    }
  }

  /** A directory entry is one whose name ends in a slash. */
  lemma IsDirExactly(m: Member)
    ensures IsDir(m) <==> exists front :: m.filename == front + "/"
  {
    if IsDir(m) {
      assert m.filename == m.filename[..|m.filename| - 1] + "/";
    }
  }

  lemma {:induction false} AcceptableStep(entries: seq<Member>, m: Member)
    ensures Acceptable(entries + [m]) <==>
      && Acceptable(entries) && !Unsafe(m.filename)
      && (!IsDir(m) ==>
        && m.filename !in Names(Files(entries))
        && m.size <= MAX_WHEEL_BYTES && TotalSize(Files(entries)) + m.size <= 3 * MAX_WHEEL_BYTES)
    ensures Files(entries + [m]) == if IsDir(m) then Files(entries) else Files(entries) + [m]
    ensures !IsDir(m) ==> TotalSize(Files(entries + [m])) == TotalSize(Files(entries)) + m.size
  {
    hide Unsafe, TotalSize;
    var all := entries + [m];
    assert all[..|entries|] == entries;
    var files := Files(entries);
    assert m in all && forall x :: x in entries ==> x in all;
    if !IsDir(m) {
      TotalSnoc(files, m);
      NamesSnoc(files, m);
      assert forall x :: x in files ==> x in files + [m];
      assert m in files + [m];
    }
  }

  lemma TotalSnoc(files: seq<Member>, m: Member)
    ensures TotalSize(files + [m]) == TotalSize(files) + m.size
  {
    assert (files + [m])[..|files|] == files;
  }

  lemma NamesSnoc(files: seq<Member>, m: Member)
    ensures AllDifferent(Names(files + [m])) <==> AllDifferent(Names(files)) && m.filename !in Names(files)
  {
    var names := Names(files + [m]);
    assert names == Names(files) + [m.filename];
    if AllDifferent(names) {
      forall i | 0 <= i < |files| ensures Names(files)[i] != m.filename {
        assert names[i] != names[|files|];
      }
      forall i, j | 0 <= i < j < |files| ensures Names(files)[i] != Names(files)[j] {
        assert names[i] != names[j];
      }
    }
  }

  lemma {:induction false} AcceptablePrefix(entries: seq<Member>, k: nat)
    requires k <= |entries| && Acceptable(entries)
    ensures Acceptable(entries[..k])
    decreases |entries|
  {
    hide Acceptable;
    if k < |entries| {
      var front := entries[..|entries| - 1];
      assert entries == front + [entries[|entries| - 1]];
      AcceptableStep(front, entries[|entries| - 1]);
      AcceptablePrefix(front, k);
      assert front[..k] == entries[..k];
    } else {
      assert entries[..k] == entries;
    }
  }

  /** Accepts exactly the archives without unsafe paths, repeated files or excessive sizes that carry
      both metadata files, and returns their files in order. */
  method SafeMembers(entries: seq<Member>) returns (r: Result<seq<Member>, ArchiveError>)
    ensures r.Ok? <==> Acceptable(entries) && HasMetadata(Files(entries))
    ensures r.Ok? ==> r.value == Files(entries) && AllDifferent(Names(r.value))
    ensures r == Err(UnsafePath) ==> exists m :: m in entries && Unsafe(m.filename)
    ensures r == Err(DuplicateMember) ==> !FileNamesDiffer(entries)
    ensures r == Err(TooLarge) ==>
      (exists m :: m in entries && m.size > MAX_WHEEL_BYTES) || TotalSize(Files(entries)) > 3 * MAX_WHEEL_BYTES
    ensures r == Err(NoWheelMetadata) ==> !AnyEndsWith(Files(entries), ".dist-info/WHEEL")
    ensures r == Err(NoRecord) ==>
      AnyEndsWith(Files(entries), ".dist-info/WHEEL") && !AnyEndsWith(Files(entries), ".dist-info/RECORD")
  {
    hide Unsafe, TotalSize, AnyEndsWith, Acceptable, Files;
    var seen: set<string> := {};
    var members: seq<Member> := [];
    var total := 0;
    var i := 0;
    NothingIsAcceptable();
    assert entries[..0] == [];
    while i < |entries|
      invariant 0 <= i <= |entries|
      invariant Acceptable(entries[..i])
      invariant members == Files(entries[..i]) && total == TotalSize(members)
      invariant forall name :: name in seen <==> name in Names(members)
    {
      var member := entries[i];
      assert entries[..i + 1] == entries[..i] + [member];
      AcceptableStep(entries[..i], member);
      if Acceptable(entries) {
        AcceptablePrefix(entries, i + 1);
      }
      if Unsafe(member.filename) {
        return Err(UnsafePath);
      }
      if member.filename in seen {
        DirectoriesAreNotSeen(entries[..i], member);
        SeenTwice(entries, i);
        return Err(DuplicateMember);
      }
      i := i + 1;
      if IsDir(member) {
        continue;
      }
      seen := seen + {member.filename};
      total := total + member.size;
      TotalGrows(entries, i);
      if member.size > MAX_WHEEL_BYTES || total > MAX_WHEEL_BYTES * 3 {
        return Err(TooLarge);
      }
      assert Names(members + [member]) == Names(members) + [member.filename];
      members := members + [member];
    }
    assert entries[..i] == entries;
    if !AnyEndsWith(members, ".dist-info/WHEEL") {
      return Err(NoWheelMetadata);
    }
    if !AnyEndsWith(members, ".dist-info/RECORD") {
      return Err(NoRecord);
    }
    r := Ok(members);
    assert AllDifferent(Names(members)) by { AcceptableNames(entries); }
  }

  lemma SeenTwice(entries: seq<Member>, i: nat)
    requires i < |entries| && entries[i].filename in Names(Files(entries[..i])) && !IsDir(entries[i])
    ensures !FileNamesDiffer(entries)
  {
    hide IsDir, Files;
    NamedAmongFiles(entries[..i], entries[i].filename);
    var k :| 0 <= k < i && !IsDir(entries[..i][k]) && entries[..i][k].filename == entries[i].filename;
    assert entries[k] == entries[..i][k];
  }

  /** What has been added up so far is part of the whole. */
  lemma {:induction false} TotalGrows(entries: seq<Member>, k: nat)
    requires k <= |entries|
    ensures TotalSize(Files(entries[..k])) <= TotalSize(Files(entries))
    decreases |entries|
  {
    hide IsDir;
    if k == |entries| {
      assert entries[..k] == entries;
    } else {
      var front := entries[..|entries| - 1];
      TotalGrows(front, k);
      assert front[..k] == entries[..k];
      TotalSnoc(Files(front), entries[|entries| - 1]);
    }
  }

  lemma NothingIsAcceptable()
    ensures Acceptable([]) && Files([]) == [] && TotalSize([]) == 0
  {
  }

  lemma AcceptableNames(entries: seq<Member>)
    requires Acceptable(entries)
    ensures AllDifferent(Names(Files(entries)))
  {
  }

  lemma DirectoriesAreNotSeen(entries: seq<Member>, m: Member)
    requires m.filename in Names(Files(entries))
    ensures !IsDir(m)
  {
    var names := Names(Files(entries));
    var i :| 0 <= i < |names| && names[i] == m.filename;
    assert Files(entries)[i] in Files(entries);
  }

  /** The staging directory after extraction; a later member overwrites an earlier one. */
  function Extracted(members: seq<Member>): Disk {
    if members == [] then map[]
    else
      var last := members[|members| - 1];
      Extracted(members[..|members| - 1])[Norm(last.filename) := last.content]
  }

  lemma {:induction false} ExtractedIsStaged(members: seq<Member>)
    ensures Staged(Names(members), Extracted(members))
  {
    hide Norm;
    if members != [] {
      var front := members[..|members| - 1];
      ExtractedIsStaged(front);
      assert Names(members) == Names(front) + [members[|members| - 1].filename];
    }
  }

  /** No later member denotes the same file. */
  ghost predicate LastOf(members: seq<Member>, i: nat)
    requires i < |members|
  {
    forall j :: i < j < |members| ==> Norm(members[j].filename) != Norm(members[i].filename)
  }

  /** Where several members denote one file, the last one's content stays. */
  lemma {:induction false} ExtractedContent(members: seq<Member>, i: nat)
    requires i < |members| && LastOf(members, i)
    ensures Norm(members[i].filename) in Extracted(members)
    ensures Extracted(members)[Norm(members[i].filename)] == members[i].content
    decreases |members|
  {
    hide Norm;
    var front := members[..|members| - 1];
    if i < |front| {
      assert Norm(members[|members| - 1].filename) != Norm(members[i].filename);
      forall j | i < j < |front| ensures Norm(front[j].filename) != Norm(front[i].filename) {
        assert front[j] == members[j];
      }
      ExtractedContent(front, i);
    }
  }

  /** No member denotes the staging directory itself or a directory that another member lies in. */
  ghost predicate Extractable(members: seq<Member>) {
    && (forall m :: m in members ==> Norm(m.filename) != [])
    && (forall m, n :: m in members && n in members ==> !(Norm(m.filename) < Norm(n.filename)))
  }

  lemma {:induction false} ExtractedKeys(members: seq<Member>)
    ensures forall p :: p in Extracted(members) <==> exists m :: m in members && Norm(m.filename) == p
  {
    hide Norm;
    if members != [] {
      var front, last := members[..|members| - 1], members[|members| - 1];
      ExtractedKeys(front);
      assert members == front + [last];
      forall p | p in Extracted(members) ensures exists m :: m in members && Norm(m.filename) == p {
        if p == Norm(last.filename) {
          assert last in members;
        } else {
          assert p in Extracted(front);
          var m :| m in front && Norm(m.filename) == p;
          assert m in members;
        }
      }
    }
  }

  /** A file in the way of a directory, or the other way round: what makes mkdir or open fail. */
  predicate InTheWay(staging: Disk, target: Path) {
    target == [] || exists p :: p in staging && (p < target || target < p)
  }

  lemma InTheWayOfMember(members: seq<Member>, m: Member)
    requires Extractable(members)
    ensures InTheWay(Extracted(members), Norm(m.filename)) <==> !Extractable(members + [m])
  {
    hide Norm, Extracted;
    ExtractedKeys(members);
    var all := members + [m];
    var target := Norm(m.filename);
    assert m in all && forall n :: n in members ==> n in all;
    if InTheWay(Extracted(members), target) && target != [] {
      var p :| p in Extracted(members) && (p < target || target < p);
      var n :| n in members && Norm(n.filename) == p;
      assert n in all;
    }
    if !InTheWay(Extracted(members), target) {
      forall n | n in members ensures Norm(n.filename) in Extracted(members) {
      }
    }
  }

  lemma ExtractablePrefix(members: seq<Member>, k: nat)
    requires k <= |members| && Extractable(members)
    ensures Extractable(members[..k])
  {
    hide Norm;
    assert forall m :: m in members[..k] ==> m in members;
  }

  /** Writes the members one after the other; None when one of them denotes the staging directory or is
      in the way of another. */
  method Extract(members: seq<Member>) returns (r: Option<Disk>)
    ensures r.Some? <==> Extractable(members)
    ensures r.Some? ==> r.value == Extracted(members)
    ensures r.Some? ==> r.value.Keys == set m | m in members :: Norm(m.filename)
    ensures r.Some? ==> forall i :: 0 <= i < |members| && LastOf(members, i) ==>
      Norm(members[i].filename) in r.value && r.value[Norm(members[i].filename)] == members[i].content
  {
    hide Norm, Extractable, InTheWay, Extracted;
    ExtractedNothing();
    var staging: Disk := map[];
    var i := 0;
    NothingIsExtractable();
    while i < |members|
      invariant 0 <= i <= |members|
      invariant Extractable(members[..i])
      invariant staging == Extracted(members[..i])
    {
      var target := Norm(members[i].filename);
      assert members[..i + 1] == members[..i] + [members[i]];
      InTheWayOfMember(members[..i], members[i]);
      if InTheWay(staging, target) {
        if Extractable(members) {
          ExtractablePrefix(members, i + 1);
        }
        return None;
      }
      ExtractedSnoc(members[..i], members[i]);
      staging := staging[target := members[i].content];
      i := i + 1;
    }
    assert members[..i] == members;
    r := Some(staging);
    ExtractedKeys(members);
    forall k | 0 <= k < |members| && LastOf(members, k)
      ensures Norm(members[k].filename) in staging && staging[Norm(members[k].filename)] == members[k].content
    {
      ExtractedContent(members, k);
    }
  }

  lemma ExtractedNothing()
    ensures Extracted([]) == map[]
  {
  }

  lemma ExtractedSnoc(members: seq<Member>, m: Member)
    ensures Extracted(members + [m]) == Extracted(members)[Norm(m.filename) := m.content]
  {
    hide Norm;
    assert (members + [m])[..|members|] == members;
  }

  lemma NothingIsExtractable()
    ensures Extractable([])
  {
  }
}
