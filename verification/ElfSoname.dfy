/** The second reader of elfscan.py: one string-valued .dynamic tag, such as the SONAME. It checks less
    than the first: any class but 1 is read as 64-bit, and names outside .dynstr are not skipped. */
module ElfSoname {
  import opened Prelude
  import TallocPatch
  import opened ElfReader
  import opened ElfPatch

  const DT_SONAME: nat := 14

  function LaxHeader(data: Bytes): Result<Layout, Failure> {
    if |data| < 4 || data[..4] != MAGIC then Err(NotElf)
    else if |data| < 6 then Err(IndexOutOfRange)
    else ReadLayout(data)
  }

  /** None when the sections are missing. */
  function LaxTables(data: Bytes): Result<Option<Tables>, Failure> {
    match LaxHeader(data)
    case Err(e) => Err(e)
    case Ok(l) =>
      match SectionHeader(data, l, l.strndx)
      case Err(e) => Err(e)
      case Ok(strings) =>
        match Scan(data, l, strings, 0, Found(None, None))
        case Err(e) => Err(e)
        case Ok(found) =>
          if found.dynamic == None || found.dynstr == None then Ok(None)
          else Ok(Some(Tables(l, strings, found.dynamic.value, found.dynstr.value)))
  }

  /** Where the string of the first entry with the tag starts. */
  function FirstWithTag(data: Bytes, t: Tables, tag: nat, at: nat): Result<Option<nat>, Failure>
    decreases t.dynamic.size - at
  {
    if at >= t.dynamic.size then Ok(None)
    else
      match EntryAt(data, t, at)
      case Err(e) => Err(e)
      case Ok(entry) =>
        if entry.tag == 0 then Ok(None)
        else if entry.tag == tag then Ok(Some(t.dynstr.offset + entry.val))
        else FirstWithTag(data, t, tag, at + EntrySize(t.layout))
  }

  function DynamicString(data: Bytes, tag: nat): Result<Option<Bytes>, Failure> {
    match LaxTables(data)
    case Err(e) => Err(e)
    case Ok(None) => Ok(None)
    case Ok(Some(t)) =>
      match FirstWithTag(data, t, tag, 0)
      case Err(e) => Err(e)
      case Ok(None) => Ok(None)
      case Ok(Some(start)) =>
        match NameAt(data, t, start)
        case Err(e) => Err(e)
        case Ok(name) => Ok(Some(name))
  }

  method ElfDynamicString(data: Bytes, tag: nat) returns (r: Result<Option<Bytes>, Failure>)
    ensures r == DynamicString(data, tag)
  {
    hide Scan, SectionHeader, LaxHeader, EntryAt, NameAt;
    var header := LaxHeader(data);
    if header.Err? { return Err(header.error); }
    var l := header.value;
    var strings := SectionHeader(data, l, l.strndx);
    if strings.Err? { return Err(strings.error); }
    var found := ScanSections(data, l, strings.value);
    if found.Err? { return Err(found.error); }
    if found.value.dynamic == None || found.value.dynstr == None { return Ok(None); }
    var t := Tables(l, strings.value, found.value.dynamic.value, found.value.dynstr.value);
    var at := 0;
    while at < t.dynamic.size
      invariant FirstWithTag(data, t, tag, at) == FirstWithTag(data, t, tag, 0)
      decreases t.dynamic.size - at
    {
      var entry := EntryAt(data, t, at);
      if entry.Err? { return Err(entry.error); }
      if entry.value.tag == 0 { break; }
      if entry.value.tag == tag {
        var name := NameAt(data, t, t.dynstr.offset + entry.value.val);
        if name.Err? { return Err(name.error); }
        return Ok(Some(name.value));
      }
      at := at + EntrySize(t.layout);
    }
    r := Ok(None);
  }

  /** The SONAME; only the reader's own error is turned into "none". */
  method ElfSoname(data: Bytes) returns (r: Result<Option<Bytes>, Failure>)
    ensures r == match DynamicString(data, DT_SONAME) {
      case Err(NotElf) => Ok(None)
      case other => other
    }
  {
    r := ElfDynamicString(data, DT_SONAME);
    if r == Err(NotElf) {
      r := Ok(None);
    }
  }

  lemma LaxTablesAgree(data: Bytes, other: Bytes, t: Tables)
    requires LaxTables(data) == Ok(Some(t)) && TablesAgree(data, other, t)
    ensures LaxTables(other) == Ok(Some(t))
  {
    hide ReadLayout, SectionHeader, Scan, HeaderAt;
    assert LaxHeader(other) == LaxHeader(data) by {
      assert other[..4] == data[..4];
      WideByClass(data);
      LayoutAgrees(data, other);
    }
    assert HeaderIndex(t.layout, t.layout.strndx);
    SectionAgrees(data, other, t.layout, t.layout.strndx);
    ScanAgrees(data, other, t.layout, t.strings, 0, Found(None, None));
  }

  lemma {:induction false} FirstWithTagAgrees(data: Bytes, other: Bytes, t: Tables, tag: nat, at: nat)
    requires Agree(data, other, t.dynamic.offset, t.dynamic.offset + DynamicExtent(t)) && at % EntrySize(t.layout) == 0
    ensures FirstWithTag(other, t, tag, at) == FirstWithTag(data, t, tag, at)
    decreases t.dynamic.size - at
  {
    hide EntryAt, Agree, DynamicExtent;
    if at < t.dynamic.size {
      EntryAgrees(data, other, t, at);
      FirstWithTagAgrees(data, other, t, tag, at + EntrySize(t.layout));
    }
  }

  /** Patching commutes with reading one string: it is found at the same place after the patch, and it
      is the renamed old one if and only if it does not start strictly inside an occurrence. */
  lemma PatchCommutesWithOneString(data: Bytes, t: Tables, tag: nat)
    requires LaxTables(data) == Ok(Some(t)) && DynamicString(data, tag).Ok? && TablesClear(data, t)
    ensures DynamicString(data, tag) == Ok(None) ==> DynamicString(TallocPatch.Patch(data), tag) == Ok(None)
    ensures DynamicString(data, tag) != Ok(None) ==>
      FirstWithTag(data, t, tag, 0).Ok? && FirstWithTag(data, t, tag, 0).value.Some? &&
      var start := FirstWithTag(data, t, tag, 0).value.value;
      var name := DynamicString(data, tag).value.value;
      && DynamicString(TallocPatch.Patch(data), tag).Ok? && DynamicString(TallocPatch.Patch(data), tag).value.Some?
      && (DynamicString(TallocPatch.Patch(data), tag).value.value == Renamed(name) <==> !Inside(data, start))
  {
    hide TallocPatch.Patch, TallocPatch.Pointwise, LaxTables, FirstWithTag, NameAt, TablesClear, Inside, Renamed,
      Agree, HeaderAt;
    var patched := TallocPatch.Patch(data);
    TallocPatch.PatchIsPointwise(data);
    TablesAreKept(data, t);
    LaxTablesAgree(data, patched, t);
    FirstWithTagAgrees(data, patched, t, tag, 0);
    if FirstWithTag(data, t, tag, 0).Ok? && FirstWithTag(data, t, tag, 0).value.Some? {
      EveryNameSurvives(data, patched, t, FirstWithTag(data, t, tag, 0).value.value);
    }
  }
}
