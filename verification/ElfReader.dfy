/** elfscan.py: section headers, string tables and .dynamic of an ELF image (System V gABI,
    chapter 4 "Sections" and "String Table", chapter 5 "Dynamic Section"). */
module ElfReader {
  import opened Prelude

  const DT_NEEDED: nat := 1
  const SHT_STRTAB: nat := 3
  const SHT_DYNAMIC: nat := 6
  const MAGIC: Bytes := [0x7f, 0x45, 0x4c, 0x46]
  /** ".dynstr" */
  const DYNSTR_NAME: Bytes := [0x2e, 0x64, 0x79, 0x6e, 0x73, 0x74, 0x72]

  /** What the reader raises: its own ElfError in five cases, or what indexing, struct (also for an offset
      no machine word holds) and bytes.index raise. */
  datatype Failure =
    | NotElf | BadClass | NoSectionTable | BadStringTable | NoDynamic
    | IndexOutOfRange | StructTooShort | NoTerminator

  /** An unsigned integer of n bytes. */
  function UInt(data: Bytes, off: nat, n: nat, little: bool): nat
    requires off + n <= |data|
    decreases n
  {
    if n == 0 then 0
    else if little then data[off] + 256 * UInt(data, off + 1, n - 1, little)
    else data[off + n - 1] + 256 * UInt(data, off, n - 1, little)
  }

  /** One field read with struct.unpack_from. */
  function Field(data: Bytes, off: nat, n: nat, little: bool): Result<nat, Failure> {
    if off + n <= |data| then Ok(UInt(data, off, n, little)) else Err(StructTooShort)
  }

  /** How many bytes of the file header and of a section header are read, by class. */
  function FileHeaderSize(wide: bool): nat {
    if wide then 64 else 52
  }

  function SectionHeaderSize(wide: bool): nat {
    if wide then 40 else 24
  }

  datatype Layout = Layout(wide: bool, little: bool, shoff: nat, entsize: nat, num: nat, strndx: nat)

  /** The fields of the file header that lead to the section table; class 1 is the 32-bit layout. */
  function ReadLayout(data: Bytes): Result<Layout, Failure>
    requires |data| >= 6
  {
    var wide := data[4] != 1;
    var little := data[5] == 1;
    var shoff := if wide then Field(data, 0x28, 8, little) else Field(data, 0x20, 4, little);
    var at := if wide then 0x3A else 0x2E;
    if shoff.Err? || at + 6 > |data| then Err(StructTooShort)
    else
      Ok(Layout(wide, little, shoff.value,
        UInt(data, at, 2, little), UInt(data, at + 2, 2, little), UInt(data, at + 4, 2, little)))
  }

  function ParseHeader(data: Bytes): Result<Layout, Failure> {
    if |data| < 4 || data[..4] != MAGIC then Err(NotElf)
    else if |data| < 6 then Err(IndexOutOfRange)
    else if data[4] != 1 && data[4] != 2 then Err(BadClass)
    else
      match ReadLayout(data)
      case Err(e) => Err(e)
      case Ok(layout) =>
        if layout.shoff == 0 || layout.num == 0 || layout.entsize == 0 then Err(NoSectionTable) else Ok(layout)
  }

  datatype Section = Section(name: nat, kind: nat, offset: nat, size: nat)

  function HeaderAt(l: Layout, index: nat): nat {
    l.shoff + index * l.entsize
  }

  function SectionHeader(data: Bytes, l: Layout, index: nat): Result<Section, Failure> {
    var off := HeaderAt(l, index);
    if off + SectionHeaderSize(l.wide) > |data| then Err(StructTooShort)
    else
      var name := UInt(data, off, 4, l.little);
      var kind := UInt(data, off + 4, 4, l.little);
      if l.wide then
        Ok(Section(name, kind, UInt(data, off + 24, 8, l.little), UInt(data, off + 32, 8, l.little)))
      else
        Ok(Section(name, kind, UInt(data, off + 16, 4, l.little), UInt(data, off + 20, 4, l.little)))
  }

  /** `data.index(b"\x00", start, end)`: the first NUL of the range, if any. */
  function FindNul(data: Bytes, start: nat, end: nat): (r: Option<nat>)
    ensures r.Some? ==> start <= r.value < end && r.value < |data| && data[r.value] == 0
    ensures r.Some? ==> forall i :: start <= i < r.value ==> data[i] != 0
    ensures r.None? ==> forall i :: start <= i < end && i < |data| ==> data[i] != 0
    decreases |data| - start
  {
    if start >= end || start >= |data| then None
    else if data[start] == 0 then Some(start)
    else FindNul(data, start + 1, end)
  }

  function SectionName(data: Bytes, strings: Section, nameIndex: nat): Result<Bytes, Failure> {
    match FindNul(data, strings.offset + nameIndex, strings.offset + strings.size)
    case None => Err(NoTerminator)
    case Some(end) => Ok(data[strings.offset + nameIndex..end])
  }

  /** The sections the loop over the header table has picked so far. */
  datatype Found = Found(dynamic: Option<Section>, dynstr: Option<Section>)

  function Pick(found: Found, name: Bytes, s: Section): Found {
    if s.kind == SHT_DYNAMIC && found.dynamic == None then found.(dynamic := Some(s))
    else if name == DYNSTR_NAME && s.kind == SHT_STRTAB then found.(dynstr := Some(s))
    else found
  }

  /** One turn of the loop over the section headers. */
  function ScanOne(data: Bytes, l: Layout, strings: Section, index: nat, found: Found): Result<Found, Failure> {
    match SectionHeader(data, l, index)
    case Err(e) => Err(e)
    case Ok(s) =>
      if index == l.strndx then Ok(found)
      else
        match SectionName(data, strings, s.name)
        case Err(e) => Err(e)
        case Ok(name) => Ok(Pick(found, name, s))
  }

  function Scan(data: Bytes, l: Layout, strings: Section, index: nat, found: Found): Result<Found, Failure>
    decreases l.num - index
  {
    if index >= l.num then Ok(found)
    else
      match ScanOne(data, l, strings, index, found)
      case Err(e) => Err(e)
      case Ok(next) => Scan(data, l, strings, index + 1, next)
  }

  /** Everything the reader knows before it walks .dynamic. */
  datatype Tables = Tables(layout: Layout, strings: Section, dynamic: Section, dynstr: Section)

  function ReadTables(data: Bytes): Result<Tables, Failure> {
    match ParseHeader(data)
    case Err(e) => Err(e)
    case Ok(l) =>
      match SectionHeader(data, l, l.strndx)
      case Err(e) => Err(e)
      case Ok(strings) =>
        if strings.kind != SHT_STRTAB then Err(BadStringTable)
        else
          match Scan(data, l, strings, 0, Found(None, None))
          case Err(e) => Err(e)
          case Ok(found) =>
            if found.dynamic == None || found.dynstr == None then Err(NoDynamic)
            else Ok(Tables(l, strings, found.dynamic.value, found.dynstr.value))
  }

  function EntrySize(l: Layout): nat {
    if l.wide then 16 else 8
  }

  datatype Entry = Entry(tag: nat, val: nat)

  /** One .dynamic entry. The tag is signed in the file; it is only compared with 0 and 1, which
      read the same unsigned. */
  function EntryAt(data: Bytes, t: Tables, at: nat): Result<Entry, Failure> {
    var off := t.dynamic.offset + at;
    var half := EntrySize(t.layout) / 2;
    if off + 2 * half > |data| then Err(StructTooShort)
    else Ok(Entry(UInt(data, off, half, t.layout.little), UInt(data, off + half, half, t.layout.little)))
  }

  /** Where the names of the DT_NEEDED entries start, up to DT_NULL; names outside .dynstr are skipped. */
  function NeededStarts(data: Bytes, t: Tables, at: nat): Result<seq<nat>, Failure>
    decreases t.dynamic.size - at
  {
    if at >= t.dynamic.size then Ok([])
    else
      match EntryAt(data, t, at)
      case Err(e) => Err(e)
      case Ok(entry) =>
        if entry.tag == 0 then Ok([])
        else
          var start := t.dynstr.offset + entry.val;
          var rest := NeededStarts(data, t, at + EntrySize(t.layout));
          if entry.tag != DT_NEEDED || start >= t.dynstr.offset + t.dynstr.size then rest
          else if rest.Err? then rest
          else Ok([start] + rest.value)
  }

  /** The name that starts at the given place of .dynstr. */
  function NameAt(data: Bytes, t: Tables, start: nat): Result<Bytes, Failure> {
    match FindNul(data, start, t.dynstr.offset + t.dynstr.size)
    case None => Err(NoTerminator)
    case Some(end) => Ok(data[start..end])
  }

  /** The walk over .dynamic as the code makes it: names are decoded as the entries are met. */
  function Walk(data: Bytes, t: Tables, at: nat): Result<seq<Bytes>, Failure>
    decreases t.dynamic.size - at
  {
    if at >= t.dynamic.size then Ok([])
    else
      match EntryAt(data, t, at)
      case Err(e) => Err(e)
      case Ok(entry) =>
        if entry.tag == 0 then Ok([])
        else
          var start := t.dynstr.offset + entry.val;
          if entry.tag != DT_NEEDED || start >= t.dynstr.offset + t.dynstr.size then
            Walk(data, t, at + EntrySize(t.layout))
          else
            match NameAt(data, t, start)
            case Err(e) => Err(e)
            case Ok(name) =>
              var rest := Walk(data, t, at + EntrySize(t.layout));
              if rest.Err? then rest else Ok([name] + rest.value)
  }

  function Needed(data: Bytes): Result<seq<Bytes>, Failure> {
    match ReadTables(data)
    case Err(e) => Err(e)
    case Ok(t) => Walk(data, t, 0)
  }

  /** A successful walk has decoded one name per start, in order. */
  lemma {:induction false} WalkNames(data: Bytes, t: Tables, at: nat)
    requires Walk(data, t, at).Ok?
    ensures NeededStarts(data, t, at).Ok?
    ensures var starts := NeededStarts(data, t, at).value;
      var names := Walk(data, t, at).value;
      |names| == |starts| && forall k :: 0 <= k < |starts| ==> NameAt(data, t, starts[k]) == Ok(names[k])
    decreases t.dynamic.size - at
  {
    hide UInt, NameAt;
    if at < t.dynamic.size && EntryAt(data, t, at).value.tag != 0 {
      WalkNames(data, t, at + EntrySize(t.layout));
    }
  }

  /** The reader, loop by loop. */
  method ElfDynamicNeeded(data: Bytes) returns (r: Result<seq<Bytes>, Failure>)
    ensures r == Needed(data)
  {
    hide Scan, Walk, SectionHeader, ParseHeader;
    var header := ParseHeader(data);
    if header.Err? { return Err(header.error); }
    var l := header.value;
    var strings := SectionHeader(data, l, l.strndx);
    if strings.Err? { return Err(strings.error); }
    if strings.value.kind != SHT_STRTAB { return Err(BadStringTable); }
    var found := ScanSections(data, l, strings.value);
    if found.Err? { return Err(found.error); }
    if found.value.dynamic == None || found.value.dynstr == None { return Err(NoDynamic); }
    r := WalkDynamic(data, Tables(l, strings.value, found.value.dynamic.value, found.value.dynstr.value));
  }

  method ScanSections(data: Bytes, l: Layout, strings: Section) returns (r: Result<Found, Failure>)
    ensures r == Scan(data, l, strings, 0, Found(None, None))
  {
    hide SectionHeader, SectionName;
    var found := Found(None, None);
    var index := 0;
    while index < l.num
      invariant 0 <= index <= l.num
      invariant Scan(data, l, strings, index, found) == Scan(data, l, strings, 0, Found(None, None))
    {
      var section := SectionHeader(data, l, index);
      if section.Err? { return Err(section.error); }
      if index != l.strndx {
        var name := SectionName(data, strings, section.value.name);
        if name.Err? { return Err(name.error); }
        if section.value.kind == SHT_DYNAMIC && found.dynamic == None {
          found := found.(dynamic := Some(section.value));
        } else if name.value == DYNSTR_NAME && section.value.kind == SHT_STRTAB {
          found := found.(dynstr := Some(section.value));
        }
      }
      index := index + 1;
    }
    r := Ok(found);
  }

  /** Names already collected, in front of what the rest of a walk yields. */
  function Behind(names: seq<Bytes>, rest: Result<seq<Bytes>, Failure>): Result<seq<Bytes>, Failure> {
    if rest.Err? then rest else Ok(names + rest.value)
  }

  method WalkDynamic(data: Bytes, t: Tables) returns (r: Result<seq<Bytes>, Failure>)
    ensures r == Walk(data, t, 0)
  {
    hide EntryAt, NameAt;
    var needed: seq<Bytes> := [];
    var at := 0;
    assert Walk(data, t, 0).Ok? ==> needed + Walk(data, t, 0).value == Walk(data, t, 0).value;
    while at < t.dynamic.size
      invariant Behind(needed, Walk(data, t, at)) == Walk(data, t, 0)
      decreases t.dynamic.size - at
    {
      var entry := EntryAt(data, t, at);
      if entry.Err? { return Err(entry.error); }
      if entry.value.tag == 0 {
        assert needed + [] == needed;
        return Ok(needed);
      }
      at := at + EntrySize(t.layout);
      if entry.value.tag != DT_NEEDED { continue; }
      var start := t.dynstr.offset + entry.value.val;
      if start >= t.dynstr.offset + t.dynstr.size { continue; }
      var name := NameAt(data, t, start);
      if name.Err? { return Err(name.error); }
      ghost var rest := Walk(data, t, at);
      assert rest.Ok? ==> needed + ([name.value] + rest.value) == needed + [name.value] + rest.value;
      needed := needed + [name.value];
    }
    assert needed + [] == needed;
    r := Ok(needed);
  }
}
