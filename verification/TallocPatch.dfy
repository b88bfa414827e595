/** The length-preserving rewrite of build_proot_android.py. */
module TallocPatch {
  import opened Prelude
  import opened Search

  /** "libtalloc.so.2" */
  const TALLOC_NEEDED: Bytes :=
    [0x6c, 0x69, 0x62, 0x74, 0x61, 0x6c, 0x6c, 0x6f, 0x63, 0x2e, 0x73, 0x6f, 0x2e, 0x32]

  /** "libtalloc.so" and two NUL bytes */
  const TALLOC_NEEDED_REPLACEMENT: Bytes :=
    [0x6c, 0x69, 0x62, 0x74, 0x61, 0x6c, 0x6c, 0x6f, 0x63, 0x2e, 0x73, 0x6f, 0, 0]

  /** Both names as text. */
  lemma NamesAsText()
    ensures |TALLOC_NEEDED| == 14 && forall i :: 0 <= i < 14 ==> TALLOC_NEEDED[i] == "libtalloc.so.2"[i] as int
    ensures |TALLOC_NEEDED_REPLACEMENT| == 14 && TALLOC_NEEDED_REPLACEMENT[12..] == [0, 0]
    ensures forall i :: 0 <= i < 12 ==> TALLOC_NEEDED_REPLACEMENT[i] == "libtalloc.so"[i] as int
  {
  }

  function Patch(data: Bytes): Bytes {
    Replace(data, TALLOC_NEEDED, TALLOC_NEEDED_REPLACEMENT)
  }

  predicate Needle(data: Bytes, at: int) {
    OccursAt(data, TALLOC_NEEDED, at)
  }

  /** Index i holds one of the last two bytes of an occurrence. */
  predicate Zeroed(data: Bytes, i: int) {
    Needle(data, i - 12) || Needle(data, i - 13)
  }

  lemma NeedleByte(data: Bytes, at: int, i: int)
    requires Needle(data, at) && at <= i < at + 14
    ensures 0 <= at && at + 14 <= |data|
    ensures data[i] == TALLOC_NEEDED[i - at] && data[i] != 0
  {
    assert data[at + (i - at)] == TALLOC_NEEDED[i - at];
  }

  /** The needle ends in a byte it holds nowhere else, so its occurrences never overlap. */
  lemma NeedlesAreApart(data: Bytes, p: int, q: int)
    requires Needle(data, p) && Needle(data, q) && p < q
    ensures p + 14 <= q
  {
    if q < p + 14 {
      NeedleByte(data, p, p + 13);
      NeedleByte(data, q, p + 13);
    }
  }

  lemma NeedleInSuffix(data: Bytes, from: nat, j: int)
    requires from <= |data| && 0 <= j
    ensures Needle(data[from..], j) <==> Needle(data, from + j)
  {
    OccursShift(data[..from], data[from..], TALLOC_NEEDED, j);
    assert data[..from] + data[from..] == data;
  }

  ghost predicate Pointwise(data: Bytes, patched: Bytes) {
    && |patched| == |data|
    && forall i :: 0 <= i < |data| ==> patched[i] == if Zeroed(data, i) then 0 else data[i]
  }

  /** Behind the first occurrence, the rest is patched on its own. */
  lemma ZeroedInSuffix(data: Bytes, at: nat, i: nat)
    requires Needle(data, at) && at + 14 <= i < |data|
    ensures Zeroed(data, i) <==> Zeroed(data[at + 14..], i - at - 14)
  {
    NeedleBehind(data, at, i - 12);
    NeedleBehind(data, at, i - 13);
  }

  lemma NeedleBehind(data: Bytes, at: nat, p: int)
    requires Needle(data, at) && at < p
    ensures at + 14 <= |data|
    ensures Needle(data, p) <==> Needle(data[at + 14..], p - at - 14)
  {
    if p >= at + 14 {
      NeedleInSuffix(data, at + 14, p - at - 14);
    } else if Needle(data, p) {
      NeedlesAreApart(data, at, p);
    }
  }

  lemma PatchJoin(data: Bytes, at: nat, rest: Bytes)
    requires Needle(data, at) && at + 14 <= |data| && NoneBefore(data, TALLOC_NEEDED, at)
    requires Pointwise(data[at + 14..], rest)
    ensures Pointwise(data, data[..at] + TALLOC_NEEDED_REPLACEMENT + rest)
  {
    hide Needle;
    var patched := data[..at] + TALLOC_NEEDED_REPLACEMENT + rest;
    forall i | 0 <= i < |data| ensures patched[i] == if Zeroed(data, i) then 0 else data[i] {
      if i >= at + 14 {
        ZeroedInSuffix(data, at, i);
      } else {
        if at <= i {
          NeedleByte(data, at, i);
        }
        NoneBeforeIs(data, at, i - 12);
        NoneBeforeIs(data, at, i - 13);
      }
    }
  }

  lemma NoneBeforeIs(data: Bytes, at: nat, i: int)
    requires NoneBefore(data, TALLOC_NEEDED, at)
    ensures i < at ==> !Needle(data, i)
  {
  }

  /** The rewrite does nothing but put NUL over the last two bytes of every occurrence. */
  lemma {:induction false} PatchIsPointwise(data: Bytes)
    ensures Pointwise(data, Patch(data))
    decreases |data|
  {
    hide Find, Pointwise;
    FindIsLeftmost(data, TALLOC_NEEDED);
    var at := Find(data, TALLOC_NEEDED);
    if at >= 0 {
      PatchIsPointwise(data[at + 14..]);
      PatchJoin(data, at, Patch(data[at + 14..]));
    } else {
      NothingToPatch(data);
    }
  }

  lemma NothingToPatch(data: Bytes)
    requires NoneBefore(data, TALLOC_NEEDED, |data| + 1)
    ensures Pointwise(data, data)
  {
    forall i | 0 <= i < |data| ensures !Zeroed(data, i) {
      NoneBeforeIs(data, |data| + 1, i - 12);
      NoneBeforeIs(data, |data| + 1, i - 13);
    }
  }

  /** NUL bytes cannot complete a needle. */
  lemma NeedleComesFromData(data: Bytes, patched: Bytes, p: int)
    requires Pointwise(data, patched) && Needle(patched, p)
    ensures Needle(data, p)
  {
    forall k | 0 <= k < 14 ensures data[p + k] == TALLOC_NEEDED[k] {
      NeedleByte(patched, p, p + k);
    }
  }

  /** No occurrence is left, and none can form across a rewritten region. */
  lemma PatchLeavesNoNeedle(data: Bytes)
    ensures forall p :: !Needle(Patch(data), p)
    ensures Count(Patch(data), TALLOC_NEEDED) == 0
  {
    hide Replace, Count, Find;
    var patched := Patch(data);
    PatchIsPointwise(data);
    forall p ensures !Needle(patched, p) {
      if Needle(patched, p) {
        NeedleComesFromData(data, patched, p);
        assert Needle(data, p + 12 - 12);
        NeedleByte(patched, p, p + 12);
      }
    }
    forall j | 0 <= j < |patched| + 1 ensures !OccursAt(patched, TALLOC_NEEDED, j) {
      assert !Needle(patched, j);
    }
    FindNone(patched, TALLOC_NEEDED);
    CountNone(patched);
  }

  lemma CountNone(data: Bytes)
    requires Find(data, TALLOC_NEEDED) < 0
    ensures Count(data, TALLOC_NEEDED) == 0 && Patch(data) == data
  {
    hide Find;
  }

  /** Running the rewrite again changes nothing. */
  lemma PatchIsIdempotent(data: Bytes)
    ensures Patch(Patch(data)) == Patch(data)
  {
    hide Patch, Count, Find;
    PatchLeavesNoNeedle(data);
    FindIsLeftmost(Patch(data), TALLOC_NEEDED);
    assert !Needle(Patch(data), Find(Patch(data), TALLOC_NEEDED));
    CountNone(Patch(data));
  }

  /** Every byte outside an occurrence is kept, and so is the length. */
  lemma PatchKeepsTheRest(data: Bytes, i: nat)
    requires i < |data| && forall p :: Needle(data, p) ==> i < p || p + 14 <= i
    ensures |Patch(data)| == |data| && Patch(data)[i] == data[i]
  {
    hide Patch;
    PatchIsPointwise(data);
    assert !Needle(data, i - 12) && !Needle(data, i - 13);
  }

  const LIBRARIES := ["libproot.so", "libtalloc.so"]

  datatype BuildError = SizeChanged(name: string)

  /** Rewrites both libraries of an output directory, if they are there. The size check never fires. */
  method PatchTallocNames(out: map<string, Bytes>) returns (r: Result<map<string, Bytes>, BuildError>)
    ensures r.Ok? && r.value.Keys == out.Keys
    ensures forall name :: name in out ==>
      r.value[name] == if name in ["libproot.so", "libtalloc.so"] then Patch(out[name]) else out[name]
  {
    hide Patch, Count;
    var dir := out;
    var i := 0;
    while i < |LIBRARIES|
      invariant 0 <= i <= |LIBRARIES| && dir.Keys == out.Keys
      invariant forall name :: name in out ==>
        dir[name] == if name in LIBRARIES[..i] then Patch(out[name]) else out[name]
    {
      var name := LIBRARIES[i];
      assert LIBRARIES[..i + 1] == LIBRARIES[..i] + [name];
      assert name !in LIBRARIES[..i];
      i := i + 1;
      if name in dir {
        var data := dir[name];
        var count := Count(data, TALLOC_NEEDED);
        if count == 0 {
          CountZero(data);
        } else {
          var patched := Patch(data);
          PatchIsPointwise(data);
          if |patched| != |data| {
            assert false;
            return Err(SizeChanged(name));
          }
          dir := dir[name := patched];
        }
      }
    }
    assert LIBRARIES[..i] == LIBRARIES;
    r := Ok(dir);
  }

  lemma CountZero(data: Bytes)
    requires Count(data, TALLOC_NEEDED) == 0
    ensures Patch(data) == data
  {
    hide Find;
  }
}
