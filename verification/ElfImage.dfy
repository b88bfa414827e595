/** Whole ELF images, laid out as linkers do, and what the reader of elfscan.py makes of them. */
module ElfImage {
  import opened Prelude
  import opened ElfReader
  import opened ElfLayout
  import opened ElfBounds
  import opened ElfSections

  // ---------------------------------------------------------------- tables of integers

  /** One structure: its fields one behind the other. */
  function Struct(values: seq<nat>, sizes: seq<nat>, little: bool): (r: Bytes)
    requires |values| == |sizes|
    ensures |r| == OffsetOf(sizes, |sizes|)
  {
    if values == [] then []
    else
      var n := |values| - 1;
      OffsetOfFront(sizes, n);
      Struct(values[..n], sizes[..n], little) + Encoded(values[n], sizes[n], little)
  }

  lemma {:induction false} OffsetOfFront(sizes: seq<nat>, n: nat)
    requires n <= |sizes|
    ensures forall k :: 0 <= k <= n ==> OffsetOf(sizes[..n], k) == OffsetOf(sizes, k)
  {
    forall k | 0 <= k <= n ensures OffsetOf(sizes[..n], k) == OffsetOf(sizes, k) {
      OffsetOfFrontAt(sizes, n, k);
    }
  }

  lemma {:induction false} OffsetOfFrontAt(sizes: seq<nat>, n: nat, k: nat)
    requires k <= n <= |sizes|
    ensures OffsetOf(sizes[..n], k) == OffsetOf(sizes, k)
  {
    if k > 0 {
      OffsetOfFrontAt(sizes, n, k - 1);
    }
  }

  /** A structure around its k-th field. */
  lemma {:induction false} StructSplits(values: seq<nat>, sizes: seq<nat>, little: bool, k: nat)
    returns (front: Bytes, back: Bytes)
    requires |values| == |sizes| && k < |sizes|
    ensures Struct(values, sizes, little) == front + Encoded(values[k], sizes[k], little) + back
    ensures |front| == OffsetOf(sizes, k)
    decreases |values|
  {
    hide Encoded;
    var n := |values| - 1;
    OffsetOfFront(sizes, n);
    if k == n {
      front, back := Struct(values[..n], sizes[..n], little), [];
    } else {
      front, back := StructSplits(values[..n], sizes[..n], little, k);
      back := back + Encoded(values[n], sizes[n], little);
    }
  }

  ghost predicate Rows(rows: seq<seq<nat>>, sizes: seq<nat>) {
    forall j :: 0 <= j < |rows| ==> Fits(rows[j], sizes)
  }

  ghost predicate Fits(row: seq<nat>, sizes: seq<nat>) {
    |row| == |sizes| && forall k :: 0 <= k < |row| ==> row[k] < Pow256(sizes[k])
  }

  /** Structures of one kind, one behind the other. */
  ghost function Table(rows: seq<seq<nat>>, sizes: seq<nat>, little: bool): Bytes
    requires Rows(rows, sizes)
  {
    if rows == [] then [] else Struct(rows[0], sizes, little) + Table(rows[1..], sizes, little)
  }

  lemma {:induction false} TableLength(rows: seq<seq<nat>>, sizes: seq<nat>, little: bool)
    requires Rows(rows, sizes)
    ensures |Table(rows, sizes, little)| == |rows| * OffsetOf(sizes, |sizes|)
  {
    hide Struct, OffsetOf, Fits;
    var size := OffsetOf(sizes, |sizes|);
    if rows == [] {
      assert 0 * size == 0;
    } else {
      FitsLength(rows[0], sizes);
      TableLength(rows[1..], sizes, little);
      assert |rows| * size == size + |rows[1..]| * size;
    }
  }

  lemma FitsLength(row: seq<nat>, sizes: seq<nat>)
    requires Fits(row, sizes)
    ensures |row| == |sizes|
  {
  }

  lemma FirstRowReads(before: Bytes, row: seq<nat>, sizes: seq<nat>, after: Bytes, little: bool, k: nat)
    requires Fits(row, sizes) && k < |sizes|
    ensures var at := |before| + OffsetOf(sizes, k);
      var data := before + Struct(row, sizes, little) + after;
      at + sizes[k] <= |data| && UInt(data, at, sizes[k], little) == row[k]
  {
    hide Struct, Encoded, UInt, Pow256, OffsetOf;
    var front, back := StructSplits(row, sizes, little, k);
    var middle := Encoded(row[k], sizes[k], little);
    assert before + (front + middle + back) + after == (before + front) + middle + (back + after);
    IntegersReadBack(before + front, row[k], sizes[k], back + after, little);
  }

  /** Every field of every row reads back, wherever the table stands. */
  lemma {:induction false} TableReadsBack(before: Bytes, rows: seq<seq<nat>>, sizes: seq<nat>, after: Bytes,
      little: bool,
                                          i: nat, k: nat)
    requires Rows(rows, sizes) && i < |rows| && k < |sizes|
    ensures |rows[i]| == |sizes|
    ensures var at := |before| + i * OffsetOf(sizes, |sizes|) + OffsetOf(sizes, k);
      var data := before + Table(rows, sizes, little) + after;
      at + sizes[k] <= |data| && UInt(data, at, sizes[k], little) == rows[i][k]
    decreases |rows|
  {
    hide Struct, UInt, OffsetOf, Fits;
    var size := OffsetOf(sizes, |sizes|);
    FitsLength(rows[0], sizes);
    FitsLength(rows[i], sizes);
    var first, rest := Struct(rows[0], sizes, little), Table(rows[1..], sizes, little);
    if i == 0 {
      FirstRowReads(before, rows[0], sizes, rest + after, little, k);
      assert before + (first + rest) + after == before + first + (rest + after);
      assert 0 * size == 0;
    } else {
      TableReadsBack(before + first, rows[1..], sizes, after, little, i - 1, k);
      assert before + (first + rest) + after == (before + first) + rest + after;
      assert size + (i - 1) * size == i * size;
    }
  }

  // ---------------------------------------------------------------- string tables

  /** NUL-terminated names, one behind the other. */
  function Terminated0(names: seq<Bytes>): Bytes {
    if names == [] then [] else names[0] + [0] + Terminated0(names[1..])
  }

  function Offset0(names: seq<Bytes>, i: nat): nat
    requires i < |names|
  {
    if i == 0 then 0 else |names[0]| + 1 + Offset0(names[1..], i - 1)
  }

  /** A string table: an empty name in front. */
  function StringTable(names: seq<Bytes>): Bytes {
    [0] + Terminated0(names)
  }

  function NameOffset(names: seq<Bytes>, i: nat): nat
    requires i < |names|
  {
    1 + Offset0(names, i)
  }

  lemma {:induction false} NameStands(before: Bytes, names: seq<Bytes>, i: nat, after: Bytes)
    requires i < |names|
    ensures var start := |before| + Offset0(names, i);
      var data := before + Terminated0(names) + after;
      && Offset0(names, i) + |names[i]| < |Terminated0(names)|
      && start + |names[i]| < |data|
      && data[start..start + |names[i]|] == names[i] && data[start + |names[i]|] == 0
    decreases |names|
  {
    var first := names[0] + [0];
    var rest := Terminated0(names[1..]);
    if i == 0 {
      assert before + (first + rest) + after == before + names[0] + ([0] + rest + after);
    } else {
      NameStands(before + first, names[1..], i - 1, after);
      assert before + (first + rest) + after == (before + first) + rest + after;
    }
  }

  /** Names without NUL are strings of the table, wherever it stands. */
  lemma TableString(before: Bytes, names: seq<Bytes>, i: nat, after: Bytes)
    requires i < |names| && 0 !in names[i]
    ensures var data := before + StringTable(names) + after;
      && NameOffset(names, i) < |StringTable(names)|
      && IsString(data, |before| + NameOffset(names, i), |before| + |StringTable(names)|, names[i])
  {
    hide Terminated0, Offset0;
    NameStands(before + [0], names, i, after);
    assert before + ([0] + Terminated0(names)) + after == (before + [0]) + Terminated0(names) + after;
  }

  // ---------------------------------------------------------------- an image

  /** The sections: .dynstr, .dynamic, .strtab, .shstrtab. */
  const SECTION_NAMES: seq<Bytes> := [
    DYNSTR_NAME,
    [0x2e, 0x64, 0x79, 0x6e, 0x61, 0x6d, 0x69, 0x63],
    [0x2e, 0x73, 0x74, 0x72, 0x74, 0x61, 0x62],
    [0x2e, 0x73, 0x68, 0x73, 0x74, 0x72, 0x74, 0x61, 0x62]]

  /** Where the parts of the image start. */
  datatype Plan = Plan(wide: bool, little: bool, names: seq<Bytes>, symbols: Bytes) {
    function Dynstr(): nat { FileHeaderSize(wide) }
    function Strtab(): nat { Dynstr() + |StringTable(names)| }
    function Shstrtab(): nat { Strtab() + |symbols| }
    function Dynamic(): nat { Shstrtab() + |StringTable(SECTION_NAMES)| }
    function EntryBytes(): nat { if wide then 16 else 8 }
    function Sections(): nat { Dynamic() + (|names| + 1) * EntryBytes() }
    function SectionBytes(): nat { if wide then 64 else 40 }
    function Total(): nat { Sections() + 4 * SectionBytes() }

    function Layout(): Layout { ElfReader.Layout.Layout(wide, little, Sections(), SectionBytes(), 4, 3) }

    /** The section with the given index, as its header describes it. */
    function At(index: nat): Section
      requires index < 4
    {
      var name := NameOffset(SECTION_NAMES, index);
      if index == 0 then Section(name, 3, Dynstr(), |StringTable(names)|)
      else if index == 1 then Section(name, 6, Dynamic(), (|names| + 1) * EntryBytes())
      else if index == 2 then Section(name, 3, Strtab(), |symbols|)
      else Section(name, 3, Shstrtab(), |StringTable(SECTION_NAMES)|)
    }

    function HeadRow(): seq<nat> {
      [3, 0, 1, 0, 0, Sections(), 0, FileHeaderSize(wide), 0, 0, SectionBytes(), 4, 3]
    }

    function SectionRow(index: nat): seq<nat>
      requires index < 4
    {
      var s := At(index);
      [s.name, s.kind, 0, 0, s.offset, s.size, 0, 0, 1, 0]
    }

    function EntryRow(k: nat): seq<nat>
      requires k <= |names|
    {
      if k < |names| then [1, NameOffset(names, k)] else [0, 0]
    }

    function Ident(): (r: Bytes)
      ensures |r| == 16
    {
      MAGIC + [if wide then 2 else 1, if little then 1 else 2, 1, 0, 0, 0, 0, 0, 0, 0, 0, 0]
    }
  }

  function HeadSizes(wide: bool): seq<nat> {
    HeaderFields(wide)[1..]
  }

  function EntrySizes(wide: bool): seq<nat> {
    if wide then [8, 8] else [4, 4]
  }

  function EntryRows(p: Plan): seq<seq<nat>> {
    seq(|p.names| + 1, k requires 0 <= k <= |p.names| => p.EntryRow(k))
  }

  function SectionRows(p: Plan): seq<seq<nat>> {
    [p.SectionRow(0), p.SectionRow(1), p.SectionRow(2), p.SectionRow(3)]
  }

  lemma {:induction false} OffsetBound(names: seq<Bytes>, i: nat)
    requires i < |names|
    ensures NameOffset(names, i) < |StringTable(names)|
  {
    hide Offset0, Terminated0;
    NameStands([], names, i, []);
  }

  lemma Pow256Small()
    ensures Pow256(2) == 0x1_0000 && Pow256(4) == 0x1_0000_0000 && Pow256(8) == 0x1_0000_0000_0000_0000
  {
    assert Pow256(3) == 0x100_0000 && Pow256(5) == 0x100_0000_0000 && Pow256(6) == 0x1_0000_0000_0000;
    assert Pow256(7) == 0x100_0000_0000_0000;
  }

  lemma {:induction false} RowsFit(p: Plan)
    requires p.Total() < 0x1_0000_0000
    ensures Rows([p.HeadRow()], HeadSizes(p.wide))
    ensures Rows(EntryRows(p), EntrySizes(p.wide))
    ensures Rows(SectionRows(p), SectionFields(p.wide))
  {
    hide Pow256, StringTable, NameOffset;
    Pow256Small();
    forall k | 0 <= k <= |p.names| ensures Fits(p.EntryRow(k), EntrySizes(p.wide)) {
      if k < |p.names| {
        OffsetBound(p.names, k);
      }
    }
    forall index | 0 <= index < 4 ensures Fits(p.SectionRow(index), SectionFields(p.wide)) {
      OffsetBound(SECTION_NAMES, index);
    }
  }

  /** The image: header, .dynstr with the names, some other bytes as .strtab, the section names, .dynamic with
      one DT_NEEDED per name and DT_NULL, and the section headers. */
  ghost function Image(p: Plan): Bytes
    requires p.Total() < 0x1_0000_0000
  {
    RowsFit(p);
    p.Ident() + Table([p.HeadRow()], HeadSizes(p.wide), p.little) + StringTable(p.names) + p.symbols +
    StringTable(SECTION_NAMES) + Table(EntryRows(p), EntrySizes(p.wide), p.little) +
    Table(SectionRows(p), SectionFields(p.wide), p.little)
  }

  lemma {:induction false} OffsetOfTail(fields: seq<nat>, k: nat)
    requires fields != [] && k < |fields|
    ensures fields[0] + OffsetOf(fields[1..], k) == OffsetOf(fields, k + 1)
  {
    if k > 0 {
      OffsetOfTail(fields, k - 1);
    } else {
      assert OffsetOf(fields, 1) == OffsetOf(fields, 0) + fields[0];
    }
  }

  lemma HeadOffsets(wide: bool)
    ensures OffsetOf(HeadSizes(wide), 5) == (if wide then 24 else 16)
    ensures OffsetOf(HeadSizes(wide), 10) == (if wide then 42 else 30)
    ensures OffsetOf(HeadSizes(wide), 11) == (if wide then 44 else 32)
    ensures OffsetOf(HeadSizes(wide), 12) == (if wide then 46 else 34)
    ensures OffsetOf(HeadSizes(wide), 13) == (if wide then 48 else 36)
  {
    hide OffsetOf;
    HeaderOffsets(wide);
    OffsetStep(HeaderFields(wide), 13);
    OffsetOfTail(HeaderFields(wide), 5);
    OffsetOfTail(HeaderFields(wide), 10);
    OffsetOfTail(HeaderFields(wide), 11);
    OffsetOfTail(HeaderFields(wide), 12);
    OffsetOfTail(HeaderFields(wide), 13);
  }

  lemma OffsetStep(fields: seq<nat>, k: nat)
    requires k < |fields|
    ensures OffsetOf(fields, k + 1) == OffsetOf(fields, k) + fields[k]
  {
  }

  lemma SectionWidth(wide: bool)
    ensures OffsetOf(SectionFields(wide), 0) == 0
    ensures OffsetOf(SectionFields(wide), 10) == (if wide then 64 else 40)
  {
    hide OffsetOf;
    var f := SectionFields(wide);
    OffsetOfFirst(f);
    SectionOffsets(wide);
    OffsetStep(f, 6);
    OffsetStep(f, 7);
    OffsetStep(f, 8);
    OffsetStep(f, 9);
  }

  lemma EntryOffsets(wide: bool)
    ensures var f := EntrySizes(wide);
      OffsetOf(f, 0) == 0 && OffsetOf(f, 1) == f[0] && OffsetOf(f, 2) == (if wide then 16 else 8)
  {
    hide OffsetOf;
    OffsetOfFirst(EntrySizes(wide));
    OffsetStep(EntrySizes(wide), 0);
    OffsetStep(EntrySizes(wide), 1);
  }

  lemma SevenParts(i: Bytes, h: Bytes, d: Bytes, y: Bytes, n: Bytes, e: Bytes, x: Bytes)
    ensures var all := i + h + d + y + n + e + x;
      && all == i + h + (d + y + n + e + x)
      && all == (i + h) + d + (y + n + e + x)
      && all == (i + h + d + y) + n + (e + x)
      && all == (i + h + d + y + n) + e + x
      && all == (i + h + d + y + n + e) + x + []
  {
  }

  /** The image around each of its parts. */
  lemma ImageParts(p: Plan) returns (i: Bytes, h: Bytes, d: Bytes, n: Bytes, e: Bytes, x: Bytes)
    requires p.Total() < 0x1_0000_0000
    ensures Rows([p.HeadRow()], HeadSizes(p.wide)) && Rows(EntryRows(p), EntrySizes(p.wide))
    ensures Rows(SectionRows(p), SectionFields(p.wide))
    ensures i == p.Ident() && h == Table([p.HeadRow()], HeadSizes(p.wide), p.little) && d == StringTable(p.names)
    ensures n == StringTable(SECTION_NAMES) && e == Table(EntryRows(p), EntrySizes(p.wide), p.little)
    ensures x == Table(SectionRows(p), SectionFields(p.wide), p.little)
    ensures Image(p) == i + h + d + p.symbols + n + e + x
    ensures |i + h| == p.Dynstr() && |i + h + d + p.symbols| == p.Shstrtab()
    ensures |i + h + d + p.symbols + n| == p.Dynamic() && |i + h + d + p.symbols + n + e| == p.Sections()
    ensures |Image(p)| == p.Total()
  {
    hide Table, StringTable, Rows, OffsetOf, SectionRows, Plan.HeadRow, Plan.Ident, SECTION_NAMES, HeadSizes,
      SectionFields, EntrySizes;
    RowsFit(p);
    i, h, d := p.Ident(), Table([p.HeadRow()], HeadSizes(p.wide), p.little), StringTable(p.names);
    n, e := StringTable(SECTION_NAMES), Table(EntryRows(p), EntrySizes(p.wide), p.little);
    x := Table(SectionRows(p), SectionFields(p.wide), p.little);
    Widths(p);
    TableLength([p.HeadRow()], HeadSizes(p.wide), p.little);
    TableLength(EntryRows(p), EntrySizes(p.wide), p.little);
    TableLength(SectionRows(p), SectionFields(p.wide), p.little);
  }

  lemma Widths(p: Plan)
    ensures |HeadSizes(p.wide)| == 13 && |EntrySizes(p.wide)| == 2 && |SectionFields(p.wide)| == 10
    ensures 16 + OffsetOf(HeadSizes(p.wide), 13) == FileHeaderSize(p.wide) && OffsetOf(EntrySizes(p.wide), 2) == p.EntryBytes()
    ensures OffsetOf(SectionFields(p.wide), 10) == p.SectionBytes() && |SectionRows(p)| == 4
  {
    hide OffsetOf;
    HeadOffsets(p.wide);
    SectionWidth(p.wide);
    EntryOffsets(p.wide);
  }

  // ---------------------------------------------------------------- what is read

  lemma HeadField(p: Plan, k: nat)
    requires p.Total() < 0x1_0000_0000 && k < 13
    ensures |HeadSizes(p.wide)| == 13
    ensures var at := 16 + OffsetOf(HeadSizes(p.wide), k);
      at + HeadSizes(p.wide)[k] <= |Image(p)| && UInt(Image(p), at, HeadSizes(p.wide)[k], p.little) == p.HeadRow()[k]
  {
    hide Table, OffsetOf, UInt, Rows, HeadSizes, Image, StringTable, SECTION_NAMES;
    Widths(p);
    var i, h, d, n, e, x := ImageParts(p);
    SevenParts(i, h, d, p.symbols, n, e, x);
    TableReadsBack(i, [p.HeadRow()], HeadSizes(p.wide), d + p.symbols + n + e + x, p.little, 0, k);
    assert 0 * OffsetOf(HeadSizes(p.wide), 13) == 0;
  }

  lemma HeaderReads(p: Plan)
    requires p.Total() < 0x1_0000_0000
    ensures ParseHeader(Image(p)) == Ok(p.Layout())
  {
    hide OffsetOf, UInt, Image, Table, StringTable, SECTION_NAMES;
    IdentReads(p);
    HeadOffsets(p.wide);
    HeadField(p, 5);
    HeadField(p, 10);
    HeadField(p, 11);
    HeadField(p, 12);
  }

  lemma IdentReads(p: Plan)
    requires p.Total() < 0x1_0000_0000
    ensures |Image(p)| == p.Total()
    ensures Image(p)[..4] == MAGIC && Image(p)[4] == (if p.wide then 2 else 1) && Image(p)[5] == (if p.little then 1 else 2)
  {
    hide OffsetOf, Image, Table, StringTable, SECTION_NAMES;
    var i, h, d, n, e, x := ImageParts(p);
    var rest := h + d + p.symbols + n + e + x;
    assert Image(p) == i + rest;
    assert Image(p)[..16] == i;
    assert Image(p)[..4] == i[..4] && Image(p)[4] == i[4] && Image(p)[5] == i[5];
    assert i[..4] == MAGIC;
  }

  lemma SectionField(p: Plan, index: nat, k: nat)
    requires p.Total() < 0x1_0000_0000 && index < 4 && k < 10
    ensures var at := p.Sections() + index * p.SectionBytes() + OffsetOf(SectionFields(p.wide), k);
      && at + SectionFields(p.wide)[k] <= |Image(p)|
      && UInt(Image(p), at, SectionFields(p.wide)[k], p.little) == p.SectionRow(index)[k]
  {
    hide Table, OffsetOf, UInt, Rows, Image, StringTable, SECTION_NAMES, Plan.SectionRow;
    Widths(p);
    var i, h, d, n, e, x := ImageParts(p);
    SevenParts(i, h, d, p.symbols, n, e, x);
    TableReadsBack(i + h + d + p.symbols + n + e, SectionRows(p), SectionFields(p.wide), [], p.little, index, k);
    assert SectionRows(p)[index] == p.SectionRow(index);
  }

  lemma SectionReads(p: Plan, index: nat)
    requires p.Total() < 0x1_0000_0000 && index < 4
    ensures SectionHeader(Image(p), p.Layout(), index) == Ok(p.At(index))
  {
    hide OffsetOf, UInt, Image, StringTable, SECTION_NAMES, Plan.At, Plan.Sections;
    SectionOffsets(p.wide);
    SectionWidth(p.wide);
    IdentReads(p);
    SectionField(p, index, 0);
    SectionField(p, index, 1);
    SectionField(p, index, 4);
    SectionField(p, index, 5);
    assert HeaderAt(p.Layout(), index) == p.Sections() + index * p.SectionBytes();
    assert index * p.SectionBytes() <= 3 * p.SectionBytes();
  }

  lemma EntryField(p: Plan, index: nat, k: nat)
    requires p.Total() < 0x1_0000_0000 && index <= |p.names| && k < 2
    ensures var at := p.Dynamic() + index * p.EntryBytes() + OffsetOf(EntrySizes(p.wide), k);
      && at + EntrySizes(p.wide)[k] <= |Image(p)|
      && UInt(Image(p), at, EntrySizes(p.wide)[k], p.little) == p.EntryRow(index)[k]
  {
    hide Table, OffsetOf, UInt, Rows, Image, StringTable, SECTION_NAMES, NameOffset;
    Widths(p);
    var i, h, d, n, e, x := ImageParts(p);
    SevenParts(i, h, d, p.symbols, n, e, x);
    TableReadsBack(i + h + d + p.symbols + n, EntryRows(p), EntrySizes(p.wide), x, p.little, index, k);
    assert EntryRows(p)[index] == p.EntryRow(index);
  }

  ghost function TablesOf(p: Plan): Tables {
    Tables(p.Layout(), p.At(3), p.At(1), p.At(0))
  }

  lemma EntryReads(p: Plan, index: nat)
    requires p.Total() < 0x1_0000_0000 && index <= |p.names|
    ensures EntryAt(Image(p), TablesOf(p), index * p.EntryBytes()) ==
      Ok(if index < |p.names| then Entry(1, NameOffset(p.names, index)) else Entry(0, 0))
  {
    hide OffsetOf, UInt, Image, StringTable, SECTION_NAMES, NameOffset;
    EntryOffsets(p.wide);
    EntryField(p, index, 0);
    EntryField(p, index, 1);
  }

  lemma NameReads(p: Plan, k: nat)
    requires p.Total() < 0x1_0000_0000 && k < |p.names| && 0 !in p.names[k]
    ensures NameOffset(p.names, k) < |StringTable(p.names)|
    ensures NameAt(Image(p), TablesOf(p), p.Dynstr() + NameOffset(p.names, k)) == Ok(p.names[k])
  {
    hide OffsetOf, UInt, Image, Table, StringTable, SECTION_NAMES, NameOffset, IsString, FindNul;
    var i, h, d, n, e, x := ImageParts(p);
    SevenParts(i, h, d, p.symbols, n, e, x);
    TableString(i + h, p.names, k, p.symbols + n + e + x);
    StringIsFound(Image(p), p.Dynstr() + NameOffset(p.names, k), p.Dynstr() + |StringTable(p.names)|, p.names[k]);
  }

  lemma SectionNameReads(p: Plan, index: nat)
    requires p.Total() < 0x1_0000_0000 && index < 4
    ensures SectionName(Image(p), p.At(3), p.At(index).name) == Ok(SECTION_NAMES[index])
  {
    hide OffsetOf, UInt, Image, Table, StringTable, NameOffset, IsString, FindNul;
    var i, h, d, n, e, x := ImageParts(p);
    SevenParts(i, h, d, p.symbols, n, e, x);
    NoNulInNames(index);
    TableString(i + h + d + p.symbols, SECTION_NAMES, index, e + x);
    StringIsFound(Image(p), p.Shstrtab() + NameOffset(SECTION_NAMES, index),
      p.Shstrtab() + |StringTable(SECTION_NAMES)|, SECTION_NAMES[index]);
  }

  lemma NoNulInNames(index: nat)
    requires index < 4
    ensures |SECTION_NAMES| == 4 && 0 !in SECTION_NAMES[index] && (SECTION_NAMES[index] == DYNSTR_NAME <==> index == 0)
  {
    assert |SECTION_NAMES[1]| == 8 && |SECTION_NAMES[3]| == 9;
    assert SECTION_NAMES[2][1] != DYNSTR_NAME[1];
  }

  /** The section loop on the image. */
  lemma ScanReads(p: Plan)
    requires p.Total() < 0x1_0000_0000
    ensures Scan(Image(p), p.Layout(), p.At(3), 0, Found(None, None)) == Ok(Found(Some(p.At(1)), Some(p.At(0))))
  {
    hide Image, SectionHeader, SectionName, StringTable, NameOffset, SECTION_NAMES, Scan;
    var data, l, strings := Image(p), p.Layout(), p.At(3);
    NoNulInNames(0);
    forall index | 0 <= index < 4
      ensures SectionHeader(data, l, index) == Ok(p.At(index))
      ensures SectionName(data, strings, p.At(index).name) == Ok(SECTION_NAMES[index])
      ensures SECTION_NAMES[index] == DYNSTR_NAME <==> index == 0
    {
      SectionReads(p, index);
      SectionNameReads(p, index);
      NoNulInNames(index);
    }
    ScanTurn(data, l, strings, 0, Found(None, None));
    ScanTurn(data, l, strings, 1, Found(None, Some(p.At(0))));
    ScanTurn(data, l, strings, 2, Found(Some(p.At(1)), Some(p.At(0))));
    ScanTurn(data, l, strings, 3, Found(Some(p.At(1)), Some(p.At(0))));
    ScanEnd(data, l, strings, Found(Some(p.At(1)), Some(p.At(0))));
  }

  lemma ScanEnd(data: Bytes, l: Layout, strings: Section, found: Found)
    ensures Scan(data, l, strings, l.num, found) == Ok(found)
  {
  }

  lemma {:induction false} WalkReads(p: Plan, k: nat)
    requires p.Total() < 0x1_0000_0000 && k <= |p.names| && forall name :: name in p.names ==> 0 !in name
    ensures Walk(Image(p), TablesOf(p), k * p.EntryBytes()) == Ok(p.names[k..])
    decreases |p.names| - k
  {
    hide Image, EntryAt, NameAt, StringTable, NameOffset, SECTION_NAMES;
    EntryReads(p, k);
    InsideDynamic(p, k);
    if k == |p.names| {
      assert p.names[k..] == [];
    } else {
      assert p.names[k] in p.names;
      NameReads(p, k);
      WalkReads(p, k + 1);
      assert (k + 1) * p.EntryBytes() == k * p.EntryBytes() + p.EntryBytes();
      assert p.names[k..] == [p.names[k]] + p.names[k + 1..];
    }
  }

  lemma InsideDynamic(p: Plan, k: nat)
    requires k <= |p.names|
    ensures k * p.EntryBytes() < (|p.names| + 1) * p.EntryBytes()
  {
  }

  /** The round trip: an image built from a list of names, in either class and byte order, with any other
      string table behind .dynstr, reads back as that list. */
  lemma ImageReadsBack(p: Plan)
    requires p.Total() < 0x1_0000_0000 && forall name :: name in p.names ==> 0 !in name
    ensures Needed(Image(p)) == Ok(p.names)
  {
    hide Image, ParseHeader, SectionHeader, Scan, Walk, StringTable, SECTION_NAMES;
    HeaderReads(p);
    SectionReads(p, 3);
    ScanReads(p);
    WalkReads(p, 0);
    assert 0 * p.EntryBytes() == 0 && p.names[0..] == p.names;
  }
}
