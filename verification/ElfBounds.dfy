/** Which images make the reader of elfscan.py raise something else than its own ElfError. */
module ElfBounds {
  import opened Prelude
  import opened ElfReader

  /** An error of indexing, struct or bytes.index that the reader lets through. */
  predicate Foreign(e: Failure) {
    e == IndexOutOfRange || e == StructTooShort || e == NoTerminator
  }

  // ---------------------------------------------------------------- bounds a caller can check

  predicate HeaderInside(data: Bytes) {
    |data| >= 4 && data[..4] == MAGIC ==>
      |data| >= 6 && (data[4] == 1 || data[4] == 2 ==> FileHeaderSize(data[4] == 2) <= |data|)
  }

  ghost predicate Terminated(data: Bytes, lo: nat, hi: nat) {
    exists i :: lo <= i < hi && i < |data| && data[i] == 0
  }

  predicate SectionInside(data: Bytes, l: Layout, index: nat) {
    HeaderAt(l, index) + SectionHeaderSize(l.wide) <= |data|
  }

  /** A section header lies in the file, and its name ends inside the string table. */
  ghost predicate SectionReadable(data: Bytes, l: Layout, strings: Section, index: nat) {
    SectionInside(data, l, index) &&
      var start := strings.offset + UInt(data, HeaderAt(l, index), 4, l.little);
      (index != l.strndx ==> Terminated(data, start, strings.offset + strings.size))
  }

  predicate EntryInside(data: Bytes, t: Tables, k: nat) {
    t.dynamic.offset + k * EntrySize(t.layout) + EntrySize(t.layout) <= |data|
  }

  function EntryNo(data: Bytes, t: Tables, k: nat): Entry
    requires EntryInside(data, t, k)
  {
    var off, half := t.dynamic.offset + k * EntrySize(t.layout), EntrySize(t.layout) / 2;
    Entry(UInt(data, off, half, t.layout.little), UInt(data, off + half, half, t.layout.little))
  }

  /** An entry lies in the file, and if it needs a library whose name starts in .dynstr, the name ends there. */
  ghost predicate EntryReadable(data: Bytes, t: Tables, k: nat) {
    EntryInside(data, t, k) &&
      var entry := EntryNo(data, t, k);
      (entry.tag == DT_NEEDED && entry.val < t.dynstr.size ==>
        Terminated(data, t.dynstr.offset + entry.val, t.dynstr.offset + t.dynstr.size))
  }

  /** No DT_NULL among the entries from..k. */
  ghost predicate NoNull(data: Bytes, t: Tables, from: nat, k: nat) {
    forall j :: from <= j < k && EntryInside(data, t, j) ==> EntryNo(data, t, j).tag != 0
  }

  /** Every entry of .dynamic up to the first DT_NULL is readable. */
  ghost predicate DynamicReadable(data: Bytes, t: Tables, from: nat) {
    forall k :: from <= k && k * EntrySize(t.layout) < t.dynamic.size && NoNull(data, t, from, k) ==>
      EntryReadable(data, t, k)
  }

  /** All that is read lies in the file: the header, each section header with its name, each entry of
      .dynamic up to DT_NULL with its name. Each part matters once the parts before it are accepted. */
  ghost predicate WithinBounds(data: Bytes) {
    HeaderInside(data) &&
    (ParseHeader(data).Ok? ==>
      var l := ParseHeader(data).value;
      SectionInside(data, l, l.strndx) &&
      var strings := SectionHeader(data, l, l.strndx).value;
      (strings.kind == SHT_STRTAB ==>
        (forall index :: 0 <= index < l.num ==> SectionReadable(data, l, strings, index)) &&
        (ReadTables(data).Ok? ==> DynamicReadable(data, ReadTables(data).value, 0))))
  }

  // ---------------------------------------------------------------- each part of the reader

  lemma HeaderFails(data: Bytes)
    ensures ParseHeader(data).Err? && Foreign(ParseHeader(data).error) <==> !HeaderInside(data)
  {
    hide UInt;
  }

  lemma SectionFails(data: Bytes, l: Layout, index: nat)
    ensures SectionHeader(data, l, index).Ok? <==> SectionInside(data, l, index)
    ensures SectionHeader(data, l, index).Err? ==> SectionHeader(data, l, index).error == StructTooShort
    ensures SectionInside(data, l, index) ==>
      SectionHeader(data, l, index).value.name == UInt(data, HeaderAt(l, index), 4, l.little)
  {
    hide UInt, HeaderAt;
  }

  lemma NameFails(data: Bytes, start: nat, end: nat)
    ensures FindNul(data, start, end).Some? <==> Terminated(data, start, end)
  {
  }

  lemma {:induction false} ScanFails(data: Bytes, l: Layout, strings: Section, index: nat, found: Found)
    ensures Scan(data, l, strings, index, found).Ok? <==>
      forall i :: index <= i < l.num ==> SectionReadable(data, l, strings, i)
    ensures Scan(data, l, strings, index, found).Err? ==> Foreign(Scan(data, l, strings, index, found).error)
    decreases l.num - index
  {
    hide SectionHeader, UInt, HeaderAt, FindNul, Terminated, Pick;
    if index < l.num {
      SectionFails(data, l, index);
      if SectionInside(data, l, index) {
        var start := strings.offset + UInt(data, HeaderAt(l, index), 4, l.little);
        NameFails(data, start, strings.offset + strings.size);
      }
      assert ScanOne(data, l, strings, index, found).Ok? <==> SectionReadable(data, l, strings, index);
      if ScanOne(data, l, strings, index, found).Ok? {
        ScanFails(data, l, strings, index + 1, ScanOne(data, l, strings, index, found).value);
      }
    }
  }

  /** One more entry: what .dynamic from k on needs, in terms of what it needs from k + 1 on. */
  lemma DynamicFrom(data: Bytes, t: Tables, k: nat)
    ensures k * EntrySize(t.layout) >= t.dynamic.size ==> DynamicReadable(data, t, k)
    ensures k * EntrySize(t.layout) < t.dynamic.size ==>
      (DynamicReadable(data, t, k) <==>
        EntryReadable(data, t, k) && (EntryNo(data, t, k).tag == 0 || DynamicReadable(data, t, k + 1)))
  {
    hide EntryInside, EntryNo, Terminated;
    forall j | k < j ensures NoNull(data, t, k, j) <==>
      (EntryInside(data, t, k) ==> EntryNo(data, t, k).tag != 0) && NoNull(data, t, k + 1, j)
    {
    }
    assert NoNull(data, t, k, k);
    if EntryReadable(data, t, k) && EntryNo(data, t, k).tag == 0 {
      forall j | k <= j && NoNull(data, t, k, j) ensures j == k {
      }
    }
  }

  lemma EntryFails(data: Bytes, t: Tables, k: nat)
    ensures var r := EntryAt(data, t, k * EntrySize(t.layout));
      if EntryInside(data, t, k) then r == Ok(EntryNo(data, t, k)) else r == Err(StructTooShort)
  {
    hide UInt;
  }

  lemma {:induction false} WalkFails(data: Bytes, t: Tables, k: nat)
    ensures Walk(data, t, k * EntrySize(t.layout)).Ok? <==> DynamicReadable(data, t, k)
    ensures Walk(data, t, k * EntrySize(t.layout)).Err? ==> Foreign(Walk(data, t, k * EntrySize(t.layout)).error)
    decreases t.dynamic.size - k * EntrySize(t.layout)
  {
    hide EntryAt, EntryInside, EntryNo, DynamicReadable, FindNul, Terminated;
    var at := k * EntrySize(t.layout);
    assert (k + 1) * EntrySize(t.layout) == at + EntrySize(t.layout);
    DynamicFrom(data, t, k);
    if at < t.dynamic.size {
      EntryFails(data, t, k);
      if EntryInside(data, t, k) {
        var entry := EntryNo(data, t, k);
        NameFails(data, t.dynstr.offset + entry.val, t.dynstr.offset + t.dynstr.size);
        WalkFails(data, t, k + 1);
      }
    }
  }

  /** The reader raises something else than its own error if and only if something it reads is not there. */
  lemma ForeignErrorsExactly(data: Bytes)
    ensures Needed(data).Err? && Foreign(Needed(data).error) <==> !WithinBounds(data)
  {
    hide ParseHeader, HeaderInside, SectionHeader, SectionInside, SectionReadable, Scan, Walk, DynamicReadable;
    HeaderFails(data);
    if ParseHeader(data).Ok? {
      var l := ParseHeader(data).value;
      SectionFails(data, l, l.strndx);
      if SectionInside(data, l, l.strndx) {
        var strings := SectionHeader(data, l, l.strndx).value;
        ScanFails(data, l, strings, 0, Found(None, None));
        if ReadTables(data).Ok? {
          WalkFails(data, ReadTables(data).value, 0);
        }
      }
    }
  }

  // ---------------------------------------------------------------- the failing family is real

  /** A 32-bit image of two section headers with an empty string table: the name of section 1 has no end. */
  function Nameless(): (r: Bytes)
    ensures |r| == 100
  {
    seq(100, i requires 0 <= i < 100 =>
      if i < 4 then MAGIC[i] else if i == 4 || i == 5 then 1
      else if i == 0x20 then 52 else if i == 0x2E then 24 else if i == 0x30 then 2
      else if i == 56 then SHT_STRTAB else 0)
  }

  /** Low bytes of a field, the rest zero. */
  lemma {:induction false} SmallInteger(data: Bytes, off: nat, n: nat)
    requires 0 < n && off + n <= |data| && forall i :: off < i < off + n ==> data[i] == 0
    ensures UInt(data, off, n, true) == data[off]
    decreases n
  {
    if n > 1 {
      SmallInteger(data, off + 1, n - 1);
    } else {
      assert UInt(data, off + 1, 0, true) == 0;
    }
  }

  lemma NamelessTables()
    ensures ParseHeader(Nameless()) == Ok(Layout(false, true, 52, 24, 2, 0))
    ensures SectionHeader(Nameless(), Layout(false, true, 52, 24, 2, 0), 0) == Ok(Section(0, SHT_STRTAB, 0, 0))
  {
    hide UInt;
    var data := Nameless();
    assert data[..4] == MAGIC;
    SmallInteger(data, 0x20, 4);
    SmallInteger(data, 0x2E, 2);
    SmallInteger(data, 0x30, 2);
    SmallInteger(data, 0x32, 2);
    SmallInteger(data, 52, 4);
    SmallInteger(data, 56, 4);
    SmallInteger(data, 68, 4);
    SmallInteger(data, 72, 4);
  }

  /** Three files that are no well-formed ELF and get none of the reader's own errors: the magic number
      alone, a header cut short, and a section name without an end. */
  lemma MalformedWithoutElfError()
    ensures Needed(MAGIC) == Err(IndexOutOfRange)
    ensures Needed(MAGIC + [2, 1]) == Err(StructTooShort)
    ensures Needed(Nameless()) == Err(NoTerminator)
  {
    hide Scan, Walk, SectionHeader;
    assert MAGIC[..4] == MAGIC;
    assert (MAGIC + [2, 1])[..4] == MAGIC;
    NamelessTables();
    NamelessScan(Layout(false, true, 52, 24, 2, 0), Section(0, SHT_STRTAB, 0, 0));
  }

  lemma NamelessScan(l: Layout, strings: Section)
    requires l == Layout(false, true, 52, 24, 2, 0) && strings == Section(0, SHT_STRTAB, 0, 0)
    requires SectionHeader(Nameless(), l, 0) == Ok(strings)
    ensures Scan(Nameless(), l, strings, 0, Found(None, None)) == Err(NoTerminator)
  {
    hide UInt, Scan;
    var data, none := Nameless(), Found(None, None);
    ScanTurn(data, l, strings, 0, none);
    ScanTurn(data, l, strings, 1, none);
    SectionFails(data, l, 1);
  }

  lemma ScanTurn(data: Bytes, l: Layout, strings: Section, index: nat, found: Found)
    requires index < l.num
    ensures Scan(data, l, strings, index, found) ==
      match ScanOne(data, l, strings, index, found) {
        case Err(e) => Err(e)
        case Ok(next) => Scan(data, l, strings, index + 1, next)
      }
  {
    hide ScanOne;
  }
}
