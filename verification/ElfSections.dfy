/** Which sections, entries and names the readers of elfscan.py go by, said without their loops. */
module ElfSections {
  import opened Prelude
  import opened ElfReader
  import opened ElfBounds
  import ElfSoname

  /** The constants, as text. */
  lemma NamesAsText()
    ensures MAGIC[0] == 0x7f && |MAGIC| == 4 && forall i :: 0 <= i < 3 ==> MAGIC[i + 1] == "ELF"[i] as int
    ensures ElfSoname.DT_SONAME == 14
    ensures |DYNSTR_NAME| == 7 && forall i :: 0 <= i < 7 ==> DYNSTR_NAME[i] == ".dynstr"[i] as int
  {
  }

  /** The header: what each of the reader's own errors means, and which class and byte order are taken. */
  lemma HeaderExactly(data: Bytes)
    ensures ParseHeader(data) == Err(NotElf) <==> |data| < 4 || data[..4] != MAGIC
    ensures ParseHeader(data) == Err(BadClass) <==>
      |data| >= 6 && data[..4] == MAGIC && data[4] != 1 && data[4] != 2
    ensures ParseHeader(data).Ok? ==>
      var l := ParseHeader(data).value;
      && |data| >= 6 && (data[4] == 1 || data[4] == 2)
      && l.wide == (data[4] == 2) && l.little == (data[5] == 1)
      && l.shoff != 0 && l.num != 0 && l.entsize != 0
    ensures ParseHeader(data) == Err(NoSectionTable) ==>
      && |data| >= 52
      && var wide, little := data[4] == 2, data[5] == 1;
        (UInt(data, if wide then 40 else 32, if wide then 8 else 4, little) == 0 ||
         UInt(data, if wide then 58 else 46, 2, little) == 0 || UInt(data, if wide then 60 else 48, 2, little) == 0)
  {
    hide UInt;
  }

  // ---------------------------------------------------------------- sections

  /** The name of a section, in the string table, is ".dynstr". */
  ghost predicate NamedDynstr(data: Bytes, strings: Section, s: Section) {
    var start := strings.offset + s.name;
    IsString(data, start, strings.offset + strings.size, DYNSTR_NAME)
  }

  /** A NUL-terminated string that starts and ends in the range. */
  ghost predicate IsString(data: Bytes, start: nat, limit: nat, name: Bytes) {
    && start + |name| < limit && start + |name| < |data|
    && data[start..start + |name|] == name && data[start + |name|] == 0 && 0 !in name
  }

  lemma StringIsFound(data: Bytes, start: nat, limit: nat, name: Bytes)
    ensures IsString(data, start, limit, name) <==>
      FindNul(data, start, limit).Some? && data[start..FindNul(data, start, limit).value] == name
  {
    if IsString(data, start, limit, name) {
      forall i | start <= i < start + |name| ensures data[i] != 0 {
        assert name[i - start] in name;
      }
      var r := FindNul(data, start, limit);
      assert r == Some(start + |name|);
    }
  }

  ghost predicate DynamicAt(data: Bytes, l: Layout, index: nat) {
    index < l.num && index != l.strndx && SectionHeader(data, l, index).Ok? && SectionHeader(data, l, index).value.kind == 6
  }

  ghost predicate DynstrAt(data: Bytes, l: Layout, strings: Section, index: nat) {
    && index < l.num && index != l.strndx && SectionHeader(data, l, index).Ok?
    && SectionHeader(data, l, index).value.kind == 3
    && NamedDynstr(data, strings, SectionHeader(data, l, index).value)
  }

  /** One turn of the section loop. */
  lemma PickExactly(data: Bytes, l: Layout, strings: Section, index: nat, found: Found)
    requires index < l.num && ScanOne(data, l, strings, index, found).Ok?
    ensures var next := ScanOne(data, l, strings, index, found).value;
      && next.dynamic == (if found.dynamic == None && DynamicAt(data, l, index)
                          then Some(SectionHeader(data, l, index).value) else found.dynamic)
      && next.dynstr == (if DynstrAt(data, l, strings, index)
                         then Some(SectionHeader(data, l, index).value) else found.dynstr)
  {
    hide SectionHeader, IsString, FindNul;
    var s := SectionHeader(data, l, index).value;
    StringIsFound(data, strings.offset + s.name, strings.offset + strings.size, DYNSTR_NAME);
  }

  /** The section loop from an index on: the first dynamic section and the last .dynstr stay. */
  lemma {:induction false} ScanChooses(data: Bytes, l: Layout, strings: Section, index: nat, found: Found)
    requires Scan(data, l, strings, index, found).Ok?
    ensures var r := Scan(data, l, strings, index, found).value;
      && (found.dynamic.Some? ==> r.dynamic == found.dynamic)
      && (found.dynamic == None && r.dynamic == None ==> forall i :: index <= i ==> !DynamicAt(data, l, i))
      && (found.dynamic == None && r.dynamic.Some? ==> exists d :: index <= d && FirstDynamic(data, l, index, d, r.dynamic.value))
    ensures var r := Scan(data, l, strings, index, found).value;
      || (r.dynstr == found.dynstr && forall i :: index <= i ==> !DynstrAt(data, l, strings, i))
      || (r.dynstr.Some? && exists d :: index <= d && LastDynstr(data, l, strings, d, r.dynstr.value))
    decreases l.num - index
  {
    hide SectionHeader, NamedDynstr, ScanOne;
    if index < l.num {
      var next := ScanOne(data, l, strings, index, found).value;
      PickExactly(data, l, strings, index, found);
      ScanChooses(data, l, strings, index + 1, next);
      var r := Scan(data, l, strings, index, found).value;
      if found.dynamic == None && DynamicAt(data, l, index) {
        assert FirstDynamic(data, l, index, index, r.dynamic.value);
      } else if found.dynamic == None && r.dynamic.Some? {
        var d :| index + 1 <= d && FirstDynamic(data, l, index + 1, d, r.dynamic.value);
        assert FirstDynamic(data, l, index, d, r.dynamic.value);
      }
      if DynstrAt(data, l, strings, index) && (forall i :: index + 1 <= i ==> !DynstrAt(data, l, strings, i)) {
        assert LastDynstr(data, l, strings, index, SectionHeader(data, l, index).value);
      }
    }
  }

  /** Section d is the first dynamic one from the index on. */
  ghost predicate FirstDynamic(data: Bytes, l: Layout, index: nat, d: nat, s: Section) {
    DynamicAt(data, l, d) && SectionHeader(data, l, d) == Ok(s) && forall i :: index <= i < d ==> !DynamicAt(data, l, i)
  }

  ghost predicate LastDynstr(data: Bytes, l: Layout, strings: Section, d: nat, s: Section) {
    DynstrAt(data, l, strings, d) && SectionHeader(data, l, d) == Ok(s) &&
    forall i :: d < i ==> !DynstrAt(data, l, strings, i)
  }

  /** Which sections the reader goes by: the string table the header names, the first section of type 6, and
      the last one of type 3 that is called ".dynstr"; the one that holds section names is never either. */
  lemma {:induction false} TablesExactly(data: Bytes, t: Tables)
    requires ReadTables(data) == Ok(t)
    ensures ParseHeader(data) == Ok(t.layout)
    ensures SectionHeader(data, t.layout, t.layout.strndx) == Ok(t.strings) && t.strings.kind == 3
    ensures exists d: nat :: FirstDynamic(data, t.layout, 0, d, t.dynamic)
    ensures exists d: nat :: LastDynstr(data, t.layout, t.strings, d, t.dynstr)
  {
    hide ParseHeader, SectionHeader, Scan, FirstDynamic, LastDynstr, DynamicAt, DynstrAt;
    ScanChooses(data, t.layout, t.strings, 0, Found(None, None));
  }

  /** The reader's own error for a missing table means that there is none. */
  lemma {:induction false} NoDynamicExactly(data: Bytes)
    requires ReadTables(data) == Err(NoDynamic)
    ensures ParseHeader(data).Ok?
    ensures var l := ParseHeader(data).value;
      && SectionHeader(data, l, l.strndx).Ok?
      && ((forall i: nat :: !DynamicAt(data, l, i)) ||
          (forall i: nat :: !DynstrAt(data, l, SectionHeader(data, l, l.strndx).value, i)))
  {
    hide UInt, SectionHeader, Scan, FirstDynamic, LastDynstr, DynamicAt, DynstrAt;
    var l := ParseHeader(data).value;
    SectionFails(data, l, l.strndx);
    var strings := SectionHeader(data, l, l.strndx).value;
    ScanFails(data, l, strings, 0, Found(None, None));
    ScanChooses(data, l, strings, 0, Found(None, None));
  }

  // ---------------------------------------------------------------- entries and names

  /** Entry k asks for a library whose name starts in .dynstr, and no DT_NULL stands between from and k. */
  ghost predicate Asks(data: Bytes, t: Tables, from: nat, k: nat) {
    && from <= k && k * EntrySize(t.layout) < t.dynamic.size && NoNull(data, t, from, k) && EntryInside(data, t, k)
    && EntryNo(data, t, k).tag == 1 && EntryNo(data, t, k).val < t.dynstr.size
  }

  ghost predicate Listed(picks: seq<nat>, data: Bytes, t: Tables, from: nat) {
    && (forall i, j :: 0 <= i < j < |picks| ==> picks[i] < picks[j])
    && (forall k: nat :: k in picks <==> Asks(data, t, from, k))
  }

  ghost predicate NamesFor(picks: seq<nat>, data: Bytes, t: Tables, names: seq<Bytes>) {
    && |names| == |picks|
    && forall i :: 0 <= i < |picks| ==>
      && EntryInside(data, t, picks[i])
      && IsString(data, t.dynstr.offset + EntryNo(data, t, picks[i]).val, t.dynstr.offset + t.dynstr.size, names[i])
  }

  lemma AsksFrom(data: Bytes, t: Tables, from: nat, k: nat)
    requires EntryInside(data, t, from) && from * EntrySize(t.layout) < t.dynamic.size
    ensures EntryNo(data, t, from).tag == 0 ==> !Asks(data, t, from, k)
    ensures EntryNo(data, t, from).tag != 0 ==>
      (Asks(data, t, from, k) <==>
        Asks(data, t, from + 1, k) || (k == from && EntryNo(data, t, k).tag == 1 && EntryNo(data, t, k).val < t.dynstr.size))
  {
    hide EntryInside, EntryNo;
    assert NoNull(data, t, from, from);
    if from < k {
      assert NoNull(data, t, from, k) <==> EntryNo(data, t, from).tag != 0 && NoNull(data, t, from + 1, k);
    }
  }

  lemma AsksBehind(data: Bytes, t: Tables, from: nat, k: nat)
    requires from * EntrySize(t.layout) >= t.dynamic.size
    ensures !Asks(data, t, from, k)
  {
    hide EntryInside, EntryNo, NoNull;
    if from <= k {
      assert from * EntrySize(t.layout) <= k * EntrySize(t.layout);
    }
  }

  /** The walk over .dynamic: exactly the DT_NEEDED entries in front of DT_NULL whose names start in .dynstr,
      in order, each with the string found there. */
  lemma {:induction false} WalkLists(data: Bytes, t: Tables, from: nat) returns (picks: seq<nat>)
    requires Walk(data, t, from * EntrySize(t.layout)).Ok?
    ensures Listed(picks, data, t, from)
    ensures NamesFor(picks, data, t, Walk(data, t, from * EntrySize(t.layout)).value)
    decreases t.dynamic.size - from * EntrySize(t.layout)
  {
    hide EntryAt, EntryInside, EntryNo, Asks, IsString, FindNul;
    var at := from * EntrySize(t.layout);
    assert (from + 1) * EntrySize(t.layout) == at + EntrySize(t.layout);
    picks := [];
    if at >= t.dynamic.size {
      forall k: nat ensures !Asks(data, t, from, k) { AsksBehind(data, t, from, k); }
    } else {
      EntryFails(data, t, from);
      var entry := EntryNo(data, t, from);
      forall k: nat ensures
        if entry.tag == 0 then !Asks(data, t, from, k)
        else Asks(data, t, from, k) <==>
          Asks(data, t, from + 1, k) || (k == from && entry.tag == 1 && entry.val < t.dynstr.size)
      {
        AsksFrom(data, t, from, k);
      }
      if entry.tag != 0 {
        var rest := WalkLists(data, t, from + 1);
        AsksAreBehind(data, t, from + 1);
        if entry.tag == 1 && entry.val < t.dynstr.size {
          picks := [from] + rest;
          forall k: nat ensures k in picks <==> Asks(data, t, from, k) {
            assert k in rest <==> Asks(data, t, from + 1, k);
          }
          forall j | 0 <= j < |rest| ensures from < rest[j] {
            assert rest[j] in rest;
          }
          var start := t.dynstr.offset + entry.val;
          var name := NameAt(data, t, start).value;
          StringIsFound(data, start, t.dynstr.offset + t.dynstr.size, name);
        } else {
          picks := rest;
          forall k: nat ensures k in picks <==> Asks(data, t, from, k) {
            assert k in rest <==> Asks(data, t, from + 1, k);
          }
        }
      }
    }
  }

  lemma AsksAreBehind(data: Bytes, t: Tables, next: nat)
    ensures forall k: nat :: Asks(data, t, next, k) ==> next <= k
  {
  }

  /** What the reader returns, in full: the strings that the DT_NEEDED entries of .dynamic name. */
  lemma NeededExactly(data: Bytes) returns (picks: seq<nat>)
    requires Needed(data).Ok?
    ensures ReadTables(data).Ok?
    ensures Listed(picks, data, ReadTables(data).value, 0)
    ensures NamesFor(picks, data, ReadTables(data).value, Needed(data).value)
  {
    hide ReadTables, Walk, Listed, NamesFor;
    var t := ReadTables(data).value;
    assert 0 * EntrySize(t.layout) == 0;
    picks := WalkLists(data, t, 0);
  }

  // ---------------------------------------------------------------- the single-string reader

  /** It goes by the same sections; unlike the first reader it does not look at the type of the string table
      the header names. */
  lemma {:induction false} LaxTablesExactly(data: Bytes, t: Tables)
    requires ElfSoname.LaxTables(data) == Ok(Some(t))
    ensures ElfSoname.LaxHeader(data) == Ok(t.layout)
    ensures SectionHeader(data, t.layout, t.layout.strndx) == Ok(t.strings)
    ensures exists d: nat :: FirstDynamic(data, t.layout, 0, d, t.dynamic)
    ensures exists d: nat :: LastDynstr(data, t.layout, t.strings, d, t.dynstr)
  {
    hide ElfSoname.LaxHeader, SectionHeader, Scan, FirstDynamic, LastDynstr, DynamicAt, DynstrAt;
    ScanChooses(data, t.layout, t.strings, 0, Found(None, None));
  }

  /** Where both headers are accepted they are read alike. */
  lemma HeadersAgree(data: Bytes)
    ensures ParseHeader(data).Ok? ==> ElfSoname.LaxHeader(data) == ParseHeader(data)
  {
    hide ReadLayout;
  }

  /** Entry k carries the tag, and neither it nor DT_NULL stands before. */
  ghost predicate FirstTagged(data: Bytes, t: Tables, tag: nat, from: nat, k: nat) {
    && from <= k && k * EntrySize(t.layout) < t.dynamic.size && EntryInside(data, t, k) && EntryNo(data, t, k).tag == tag
    && forall j :: from <= j < k && EntryInside(data, t, j) ==>
      EntryNo(data, t, j).tag != 0 && EntryNo(data, t, j).tag != tag
  }

  lemma TaggedBehind(data: Bytes, t: Tables, tag: nat, from: nat, k: nat)
    requires from * EntrySize(t.layout) >= t.dynamic.size
    ensures !FirstTagged(data, t, tag, from, k)
  {
    hide EntryInside, EntryNo;
    if from <= k {
      assert from * EntrySize(t.layout) <= k * EntrySize(t.layout);
    }
  }

  lemma TaggedFrom(data: Bytes, t: Tables, tag: nat, from: nat, k: nat)
    requires EntryInside(data, t, from) && EntryNo(data, t, from).tag != tag
    ensures FirstTagged(data, t, tag, from, k) ==> FirstTagged(data, t, tag, from + 1, k)
  {
    hide EntryInside, EntryNo;
  }

  lemma {:induction false} FirstTagExactly(data: Bytes, t: Tables, tag: nat, from: nat)
    requires tag != 0 && ElfSoname.FirstWithTag(data, t, tag, from * EntrySize(t.layout)).Ok?
    ensures var r := ElfSoname.FirstWithTag(data, t, tag, from * EntrySize(t.layout)).value;
      && (r.Some? ==> exists k: nat :: FirstTagged(data, t, tag, from, k) && r.value == t.dynstr.offset + EntryNo(data, t, k).val)
      && (r == None ==> forall k: nat :: !FirstTagged(data, t, tag, from, k))
    decreases t.dynamic.size - from * EntrySize(t.layout)
  {
    hide EntryAt, EntryInside, EntryNo;
    var at := from * EntrySize(t.layout);
    assert (from + 1) * EntrySize(t.layout) == at + EntrySize(t.layout);
    var r := ElfSoname.FirstWithTag(data, t, tag, at).value;
    if at >= t.dynamic.size {
      forall k: nat ensures !FirstTagged(data, t, tag, from, k) {
        TaggedBehind(data, t, tag, from, k);
      }
    } else {
      EntryFails(data, t, from);
      var entry := EntryNo(data, t, from);
      if entry.tag == tag {
        assert FirstTagged(data, t, tag, from, from);
      } else if entry.tag != 0 {
        FirstTagExactly(data, t, tag, from + 1);
        if r.Some? {
          var k: nat :| FirstTagged(data, t, tag, from + 1, k) && r.value == t.dynstr.offset + EntryNo(data, t, k).val;
          assert FirstTagged(data, t, tag, from, k);
        } else {
          forall k: nat ensures !FirstTagged(data, t, tag, from, k) {
            TaggedFrom(data, t, tag, from, k);
          }
        }
      }
    }
  }

  /** What the single-string reader returns: the string that the first entry with the tag names, or none if
      there is no such entry in front of DT_NULL. */
  lemma OneStringExactly(data: Bytes, t: Tables, tag: nat)
    requires tag != 0 && ElfSoname.LaxTables(data) == Ok(Some(t)) && ElfSoname.DynamicString(data, tag).Ok?
    ensures var r := ElfSoname.DynamicString(data, tag).value;
      if r == None then forall k: nat :: !FirstTagged(data, t, tag, 0, k)
      else
        exists k: nat ::
          && FirstTagged(data, t, tag, 0, k)
          && IsString(data, t.dynstr.offset + EntryNo(data, t, k).val, t.dynstr.offset + t.dynstr.size, r.value)
  {
    hide ElfSoname.LaxTables, ElfSoname.FirstWithTag, FirstTagged, EntryNo, IsString, FindNul;
    assert 0 * EntrySize(t.layout) == 0;
    FirstTagExactly(data, t, tag, 0);
    var first := ElfSoname.FirstWithTag(data, t, tag, 0);
    if first.value.Some? {
      StringIsFound(data, first.value.value, t.dynstr.offset + t.dynstr.size, ElfSoname.DynamicString(data, tag).value.value);
    }
  }
}
