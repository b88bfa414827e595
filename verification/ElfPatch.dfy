/** Patching talloc's name commutes with reading DT_NEEDED. */
module ElfPatch {
  import opened Prelude
  import opened Search
  import opened TallocPatch
  import opened ElfReader

  /** No occurrence of the needle touches bytes lo..hi. */
  ghost predicate Clear(data: Bytes, lo: nat, hi: nat) {
    forall p :: Needle(data, p) ==> p + 14 <= lo || hi <= p
  }

  ghost predicate Agree(data: Bytes, other: Bytes, lo: nat, hi: nat) {
    |other| == |data| && forall i :: lo <= i < hi && i < |data| ==> other[i] == data[i]
  }

  ghost predicate HeaderIndex(l: Layout, index: nat) {
    index < l.num || index == l.strndx
  }

  /** How many bytes of .dynamic the walk may read: its size in whole entries. */
  function DynamicExtent(t: Tables): nat {
    var size := EntrySize(t.layout);
    (t.dynamic.size + size - 1) / size * size
  }

  /** No occurrence touches what is read of the ELF header, the section headers, their string table and
      .dynamic. */
  ghost predicate TablesClear(data: Bytes, t: Tables) {
    && Clear(data, 0, FileHeaderSize(t.layout.wide))
    && (forall index :: HeaderIndex(t.layout, index) ==>
         Clear(data, HeaderAt(t.layout, index), HeaderAt(t.layout, index) + SectionHeaderSize(t.layout.wide)))
    && Clear(data, t.strings.offset, t.strings.offset + t.strings.size)
    && Clear(data, t.dynamic.offset, t.dynamic.offset + DynamicExtent(t))
  }

  ghost predicate TablesAgree(data: Bytes, other: Bytes, t: Tables) {
    && Agree(data, other, 0, FileHeaderSize(t.layout.wide))
    && (forall index :: HeaderIndex(t.layout, index) ==>
         Agree(data, other, HeaderAt(t.layout, index), HeaderAt(t.layout, index) + SectionHeaderSize(t.layout.wide)))
    && Agree(data, other, t.strings.offset, t.strings.offset + t.strings.size)
    && Agree(data, other, t.dynamic.offset, t.dynamic.offset + DynamicExtent(t))
  }

  lemma ClearIsKept(data: Bytes, lo: nat, hi: nat)
    requires Clear(data, lo, hi)
    ensures Agree(data, Patch(data), lo, hi)
  {
    hide Patch, Needle;
    PatchIsPointwise(data);
    forall i | lo <= i < hi && i < |data| ensures Patch(data)[i] == data[i] {
      PatchKeepsTheRest(data, i);
    }
  }

  lemma TablesAreKept(data: Bytes, t: Tables)
    requires TablesClear(data, t)
    ensures TablesAgree(data, Patch(data), t)
  {
    hide Patch, Clear, Agree, HeaderAt;
    ClearIsKept(data, 0, FileHeaderSize(t.layout.wide));
    forall index | HeaderIndex(t.layout, index)
      ensures Agree(data, Patch(data),
        HeaderAt(t.layout, index), HeaderAt(t.layout, index) + SectionHeaderSize(t.layout.wide))
    {
      ClearIsKept(data, HeaderAt(t.layout, index), HeaderAt(t.layout, index) + SectionHeaderSize(t.layout.wide));
    }
    ClearIsKept(data, t.strings.offset, t.strings.offset + t.strings.size);
    ClearIsKept(data, t.dynamic.offset, t.dynamic.offset + DynamicExtent(t));
  }

  // ---------------------------------------------------------------- the reader depends on its tables only

  lemma {:induction false} UIntAgrees(data: Bytes, other: Bytes, lo: nat, hi: nat, off: nat, n: nat, little: bool)
    requires Agree(data, other, lo, hi) && lo <= off && off + n <= hi && off + n <= |data|
    ensures UInt(other, off, n, little) == UInt(data, off, n, little)
    decreases n
  {
    if n > 0 {
      UIntAgrees(data, other, lo, hi, if little then off + 1 else off, n - 1, little);
    }
  }

  lemma {:induction false} LayoutAgrees(data: Bytes, other: Bytes)
    requires |data| >= 6 && Agree(data, other, 0, FileHeaderSize(data[4] != 1))
    ensures ReadLayout(other) == ReadLayout(data)
  {
    hide UInt;
    var size := FileHeaderSize(data[4] != 1);
    forall off, n, little | 0 <= off && 0 <= n && off + n <= size && off + n <= |data|
      ensures UInt(other, off, n, little) == UInt(data, off, n, little)
    {
      UIntAgrees(data, other, 0, size, off, n, little);
    }
  }

  lemma {:induction false} HeaderAgrees(data: Bytes, other: Bytes)
    requires ParseHeader(data).Ok? && Agree(data, other, 0, FileHeaderSize(ParseHeader(data).value.wide))
    ensures ParseHeader(other) == ParseHeader(data)
  {
    hide ReadLayout;
    assert other[..4] == data[..4];
    WideByClass(data);
    LayoutAgrees(data, other);
  }

  lemma WideByClass(data: Bytes)
    requires |data| >= 6 && ReadLayout(data).Ok?
    ensures ReadLayout(data).value.wide == (data[4] != 1)
  {
    hide UInt;
  }

  lemma SectionAgrees(data: Bytes, other: Bytes, l: Layout, index: nat)
    requires Agree(data, other, HeaderAt(l, index), HeaderAt(l, index) + SectionHeaderSize(l.wide))
    ensures SectionHeader(other, l, index) == SectionHeader(data, l, index)
  {
    hide UInt, HeaderAt;
    var off := HeaderAt(l, index);
    var end := off + SectionHeaderSize(l.wide);
    if end <= |data| {
      UIntAgrees(data, other, off, end, off, 4, l.little);
      UIntAgrees(data, other, off, end, off + 4, 4, l.little);
      if l.wide {
        UIntAgrees(data, other, off, end, off + 24, 8, l.little);
        UIntAgrees(data, other, off, end, off + 32, 8, l.little);
      } else {
        UIntAgrees(data, other, off, end, off + 16, 4, l.little);
        UIntAgrees(data, other, off, end, off + 20, 4, l.little);
      }
    }
  }

  lemma {:induction false} FindNulAgrees(data: Bytes, other: Bytes, start: nat, end: nat)
    requires Agree(data, other, start, end)
    ensures FindNul(other, start, end) == FindNul(data, start, end)
    decreases |data| - start
  {
    if start < end && start < |data| {
      FindNulAgrees(data, other, start + 1, end);
    }
  }

  lemma SectionNameAgrees(data: Bytes, other: Bytes, strings: Section, nameIndex: nat)
    requires Agree(data, other, strings.offset, strings.offset + strings.size)
    ensures SectionName(other, strings, nameIndex) == SectionName(data, strings, nameIndex)
  {
    var start := strings.offset + nameIndex;
    var end := strings.offset + strings.size;
    FindNulAgrees(data, other, start, end);
    if FindNul(data, start, end).Some? {
      assert other[start..FindNul(data, start, end).value] == data[start..FindNul(data, start, end).value];
    }
  }

  lemma {:induction false} ScanAgrees(data: Bytes, other: Bytes, l: Layout, strings: Section, index: nat, found: Found)
    requires Agree(data, other, strings.offset, strings.offset + strings.size)
    requires forall i :: HeaderIndex(l, i) ==>
      Agree(data, other, HeaderAt(l, i), HeaderAt(l, i) + SectionHeaderSize(l.wide))
    ensures Scan(other, l, strings, index, found) == Scan(data, l, strings, index, found)
    decreases l.num - index
  {
    hide SectionHeader, SectionName, Agree, HeaderAt;
    if index < l.num {
      assert HeaderIndex(l, index);
      SectionAgrees(data, other, l, index);
      var s := SectionHeader(data, l, index);
      if s.Ok? {
        SectionNameAgrees(data, other, strings, s.value.name);
        var next := ScanOne(data, l, strings, index, found);
        if next.Ok? {
          ScanAgrees(data, other, l, strings, index + 1, next.value);
        }
      }
    }
  }

  lemma {:induction false} ReadTablesAgrees(data: Bytes, other: Bytes, t: Tables)
    requires ReadTables(data) == Ok(t) && TablesAgree(data, other, t)
    ensures ReadTables(other) == Ok(t)
  {
    hide ParseHeader, SectionHeader, Scan, Agree, HeaderAt;
    HeaderAgrees(data, other);
    assert HeaderIndex(t.layout, t.layout.strndx);
    SectionAgrees(data, other, t.layout, t.layout.strndx);
    ScanAgrees(data, other, t.layout, t.strings, 0, Found(None, None));
  }

  /** An entry that starts inside .dynamic lies in its extent. */
  lemma EntryInExtent(t: Tables, at: nat)
    requires at < t.dynamic.size && at % EntrySize(t.layout) == 0
    ensures at + EntrySize(t.layout) <= DynamicExtent(t)
  {
  }

  lemma EntryAgrees(data: Bytes, other: Bytes, t: Tables, at: nat)
    requires Agree(data, other, t.dynamic.offset, t.dynamic.offset + DynamicExtent(t))
    requires at < t.dynamic.size && at % EntrySize(t.layout) == 0
    ensures EntryAt(other, t, at) == EntryAt(data, t, at)
  {
    hide UInt, DynamicExtent;
    EntryInExtent(t, at);
    var lo := t.dynamic.offset;
    var hi := lo + DynamicExtent(t);
    var half := EntrySize(t.layout) / 2;
    if lo + at + 2 * half <= |data| {
      UIntAgrees(data, other, lo, hi, lo + at, half, t.layout.little);
      UIntAgrees(data, other, lo, hi, lo + at + half, half, t.layout.little);
    }
  }

  lemma {:induction false} WalkAgrees(data: Bytes, other: Bytes, t: Tables, at: nat)
    requires Agree(data, other, t.dynamic.offset, t.dynamic.offset + DynamicExtent(t))
    requires at % EntrySize(t.layout) == 0
    requires forall start :: NameAt(data, t, start).Ok? ==> NameAt(other, t, start).Ok?
    requires Walk(data, t, at).Ok?
    ensures Walk(other, t, at).Ok? && NeededStarts(other, t, at) == NeededStarts(data, t, at)
    decreases t.dynamic.size - at
  {
    hide EntryAt, NameAt, Agree, DynamicExtent;
    if at < t.dynamic.size {
      EntryAgrees(data, other, t, at);
      if EntryAt(data, t, at).value.tag != 0 {
        WalkAgrees(data, other, t, at + EntrySize(t.layout));
      }
    }
  }

  // ---------------------------------------------------------------- names

  /** The name as the patch is meant to leave it: cut behind "libtalloc.so" if it held the needle. */
  function Renamed(name: Bytes): Bytes {
    var at := Find(name, TALLOC_NEEDED);
    if at < 0 then name else name[..at + 12]
  }

  /** The place lies strictly inside an occurrence. */
  ghost predicate Inside(data: Bytes, start: nat) {
    exists p :: Needle(data, p) && p < start < p + 14
  }

  lemma SecondNul(data: Bytes, start: nat, end: nat, first: nat)
    requires start <= first < end && first < |data| && data[first] == 0
    requires forall i :: start <= i < first ==> data[i] != 0
    ensures FindNul(data, start, end) == Some(first)
  {
  }

  /** In a string without NUL, occurrences that meet it start in it or contain its first byte. */
  lemma NeedleWithin(data: Bytes, start: nat, end: nat, p: int)
    requires start <= end < |data| && data[end] == 0 && (forall i :: start <= i < end ==> data[i] != 0)
    requires Needle(data, p) && start <= p < end
    ensures p + 14 <= end && OccursAt(data[start..end], TALLOC_NEEDED, p - start)
  {
    if end < p + 14 {
      NeedleByte(data, p, end);
    } else {
      forall k | 0 <= k < 14 ensures data[start..end][p - start + k] == TALLOC_NEEDED[k] {
        NeedleByte(data, p, p + k);
      }
    }
  }

  lemma NeedleFromName(data: Bytes, start: nat, end: nat, at: nat)
    requires start <= end <= |data| && OccursAt(data[start..end], TALLOC_NEEDED, at)
    ensures Needle(data, start + at)
  {
    forall k | 0 <= k < 14 ensures data[start + at + k] == TALLOC_NEEDED[k] {
      assert data[start..end][at + k] == TALLOC_NEEDED[k];
    }
  }

  /** Where the patch cuts a name that contains the needle and does not start inside one. */
  lemma CutOfName(data: Bytes, start: nat, end: nat, at: nat)
    requires start <= end < |data| && data[end] == 0 && (forall i :: start <= i < end ==> data[i] != 0)
    requires !Inside(data, start)
    requires OccursAt(data[start..end], TALLOC_NEEDED, at) && NoneBefore(data[start..end], TALLOC_NEEDED, at)
    ensures Zeroed(data, start + at + 12)
    ensures forall i :: start <= i < start + at + 12 ==> !Zeroed(data, i)
  {
    hide Needle;
    NeedleFromName(data, start, end, at);
    assert Needle(data, start + at + 12 - 12);
    forall i | start <= i < start + at + 12 ensures !Zeroed(data, i) {
      NoEarlierNeedle(data, start, end, at, i - 12, i);
      NoEarlierNeedle(data, start, end, at, i - 13, i);
    }
  }

  lemma NoEarlierNeedle(data: Bytes, start: nat, end: nat, at: nat, p: int, i: int)
    requires start <= end < |data| && data[end] == 0 && (forall i :: start <= i < end ==> data[i] != 0)
    requires !Inside(data, start) && NoneBefore(data[start..end], TALLOC_NEEDED, at) && at <= end - start
    requires start <= i && p < start + at && p < i < p + 14
    ensures !Needle(data, p)
  {
    hide Needle, OccursAt;
    if Needle(data, p) {
      if start <= p {
        NeedleWithin(data, start, end, p);
      }
    }
  }

  lemma NoNeedleNoCut(data: Bytes, start: nat, end: nat)
    requires start <= end < |data| && data[end] == 0 && (forall i :: start <= i < end ==> data[i] != 0)
    requires !Inside(data, start) && NoneBefore(data[start..end], TALLOC_NEEDED, end - start + 1)
    ensures forall i :: start <= i < end ==> !Zeroed(data, i)
  {
    hide Needle, OccursAt;
    forall i | start <= i < end ensures !Zeroed(data, i) {
      forall p | p == i - 12 || p == i - 13 ensures !Needle(data, p) {
        if Needle(data, p) {
          if start <= p {
            NeedleWithin(data, start, end, p);
          }
        }
      }
      assert !Needle(data, i - 12) && !Needle(data, i - 13);
    }
  }

  /** A name that does not start strictly inside an occurrence reads back renamed. */
  lemma NameOutside(data: Bytes, patched: Bytes, t: Tables, start: nat)
    requires Pointwise(data, patched) && NameAt(data, t, start).Ok? && !Inside(data, start)
    ensures NameAt(patched, t, start) == Ok(Renamed(NameAt(data, t, start).value))
  {
    hide Zeroed, Inside, Find, OccursAt;
    var limit := t.dynstr.offset + t.dynstr.size;
    var end := FindNul(data, start, limit).value;
    var name := data[start..end];
    var at := Find(name, TALLOC_NEEDED);
    FindIsLeftmost(name, TALLOC_NEEDED);
    if at >= 0 {
      CutOfName(data, start, end, at);
      SecondNul(patched, start, limit, start + at + 12);
      forall i | 0 <= i < at + 12 ensures patched[start + i] == name[i] {
        assert data[start + i] == name[i];
      }
      assert patched[start..start + at + 12] == name[..at + 12];
    } else {
      NoNeedleNoCut(data, start, end);
      SecondNul(patched, start, limit, end);
      assert patched[start..end] == name;
    }
  }

  /** A name that starts strictly inside an occurrence is cut too early. */
  lemma NameInside(data: Bytes, patched: Bytes, t: Tables, start: nat)
    requires Pointwise(data, patched) && NameAt(data, t, start).Ok? && Inside(data, start)
    ensures NameAt(patched, t, start).Ok?
    ensures NameAt(patched, t, start).value != Renamed(NameAt(data, t, start).value)
  {
    hide Find, OccursAt;
    var limit := t.dynstr.offset + t.dynstr.size;
    var end := FindNul(data, start, limit).value;
    var name := data[start..end];
    var p :| Needle(data, p) && p < start < p + 14;
    EndBehindNeedle(data, start, end, p);
    var cut := if start < p + 12 then p + 12 else start;
    assert Zeroed(data, cut) by {
      assert Needle(data, cut - 12) || Needle(data, cut - 13);
    }
    assert patched[cut] == 0;
    var found := FindNul(patched, start, limit);
    assert found.Some? && found.value <= cut;
    var at := Find(name, TALLOC_NEEDED);
    FindIsLeftmost(name, TALLOC_NEEDED);
    if at >= 0 {
      NeedleFromName(data, start, end, at);
      NeedlesAreApart(data, p, start + at);
    }
    assert |patched[start..found.value]| < |Renamed(name)|;
  }

  lemma EndBehindNeedle(data: Bytes, start: nat, end: nat, p: int)
    requires start <= end < |data| && data[end] == 0 && Needle(data, p) && p < start < p + 14
    ensures p + 14 <= end
  {
    if end < p + 14 {
      NeedleByte(data, p, end);
    }
  }

  // ---------------------------------------------------------------- the theorem

  /** Patching commutes with reading. Whenever the reader succeeds and no occurrence touches the tables
      it uses, it succeeds after the patch with the same tables and as many names; the k-th name
      is the renamed old one if and only if its offset is not strictly inside an occurrence. */
  lemma {:induction false} PatchCommutesWithReading(data: Bytes, t: Tables)
    requires ReadTables(data) == Ok(t) && Needed(data).Ok? && TablesClear(data, t)
    ensures ReadTables(Patch(data)) == Ok(t) && Needed(Patch(data)).Ok?
    ensures NeededStarts(data, t, 0).Ok?
    ensures var starts := NeededStarts(data, t, 0).value;
      var old' := Needed(data).value;
      var new' := Needed(Patch(data)).value;
      && |old'| == |new'| == |starts|
      && forall k :: 0 <= k < |starts| ==> (new'[k] == Renamed(old'[k]) <==> !Inside(data, starts[k]))
  {
    hide Patch, ReadTables, Walk, NameAt, NeededStarts, TablesClear, Pointwise, Inside, Renamed, Agree, HeaderAt;
    var patched := Patch(data);
    PatchIsPointwise(data);
    TablesAreKept(data, t);
    ReadTablesAgrees(data, patched, t);
    forall start | NameAt(data, t, start).Ok? ensures NameAt(patched, t, start).Ok? {
      EveryNameSurvives(data, patched, t, start);
    }
    WalkAgrees(data, patched, t, 0);
    WalkNames(data, t, 0);
    WalkNames(patched, t, 0);
    var starts := NeededStarts(data, t, 0).value;
    forall k | 0 <= k < |starts|
      ensures Needed(patched).value[k] == Renamed(Needed(data).value[k]) <==> !Inside(data, starts[k])
    {
      EveryNameSurvives(data, patched, t, starts[k]);
    }
  }

  lemma {:induction false} EveryNameSurvives(data: Bytes, patched: Bytes, t: Tables, start: nat)
    requires Pointwise(data, patched) && NameAt(data, t, start).Ok?
    ensures NameAt(patched, t, start).Ok?
    ensures NameAt(patched, t, start).value == Renamed(NameAt(data, t, start).value) <==> !Inside(data, start)
  {
    hide Pointwise, NameAt, Inside, Renamed;
    if Inside(data, start) {
      NameInside(data, patched, t, start);
    } else {
      NameOutside(data, patched, t, start);
    }
  }

  /** The renaming on the names that matter: the old SONAME becomes "libtalloc.so", and names
      without the needle stay as they are. */
  lemma RenamedNames(name: Bytes)
    ensures Renamed(TALLOC_NEEDED) == TALLOC_NEEDED_REPLACEMENT[..12]
    ensures (forall p :: !Needle(name, p)) ==> Renamed(name) == name
  {
    hide Find;
    FindIs(TALLOC_NEEDED, TALLOC_NEEDED, 0);
    assert TALLOC_NEEDED[..12] == TALLOC_NEEDED_REPLACEMENT[..12];
    FindIsLeftmost(name, TALLOC_NEEDED);
    if Find(name, TALLOC_NEEDED) >= 0 {
      assert Needle(name, Find(name, TALLOC_NEEDED));
    }
  }

  /** The usual reason for the tables to be clear: all occurrences lie in .dynstr, which shares no
      byte with the tables. */
  lemma DynstrKeepsTablesClear(data: Bytes, t: Tables)
    requires forall p :: Needle(data, p) ==> t.dynstr.offset <= p && p + 14 <= t.dynstr.offset + t.dynstr.size
    requires Apart(t.dynstr, 0, FileHeaderSize(t.layout.wide))
    requires forall index :: HeaderIndex(t.layout, index) ==>
      Apart(t.dynstr, HeaderAt(t.layout, index), HeaderAt(t.layout, index) + SectionHeaderSize(t.layout.wide))
    requires Apart(t.dynstr, t.strings.offset, t.strings.offset + t.strings.size)
    requires Apart(t.dynstr, t.dynamic.offset, t.dynamic.offset + DynamicExtent(t))
    ensures TablesClear(data, t)
  {
    hide Needle, HeaderAt;
  }

  ghost predicate Apart(s: Section, lo: nat, hi: nat) {
    s.offset + s.size <= lo || hi <= s.offset
  }
}
