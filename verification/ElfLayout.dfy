/** The offsets the reader uses, against the structures of the System V gABI, chapter 4. */
module ElfLayout {
  import opened Prelude
  import opened ElfReader

  /** Field sizes of the file header: identification, type, machine, version, entry, program header
      offset, section header offset, flags, header size, program entry size and count, section entry
      size and count, index of the name table. */
  function HeaderFields(wide: bool): seq<nat> {
    var word: nat := if wide then 8 else 4;
    [16, 2, 2, 4, word, word, word, 4, 2, 2, 2, 2, 2, 2]
  }

  /** Field sizes of a section header: name, type, flags, address, offset, size, link, info,
      alignment, entry size. */
  function SectionFields(wide: bool): seq<nat> {
    var word: nat := if wide then 8 else 4;
    [4, 4, word, word, word, word, 4, 4, word, word]
  }

  function OffsetOf(fields: seq<nat>, k: nat): nat
    requires k <= |fields|
  {
    if k == 0 then 0 else OffsetOf(fields, k - 1) + fields[k - 1]
  }

  lemma HeaderOffsets(wide: bool)
    ensures OffsetOf(HeaderFields(wide), 6) == (if wide then 0x28 else 0x20)
    ensures OffsetOf(HeaderFields(wide), 11) == (if wide then 0x3A else 0x2E)
    ensures OffsetOf(HeaderFields(wide), 12) == OffsetOf(HeaderFields(wide), 11) + 2
    ensures OffsetOf(HeaderFields(wide), 13) == OffsetOf(HeaderFields(wide), 11) + 4
  {
    var f := HeaderFields(wide);
    forall k | 0 <= k < 13 ensures OffsetOf(f, k + 1) == OffsetOf(f, k) + f[k] {
    }
    assert OffsetOf(f, 0) == 0 && OffsetOf(f, 0 + 1) == 16;
    assert OffsetOf(f, 1 + 1) == 18;
    assert OffsetOf(f, 2 + 1) == 20;
    assert OffsetOf(f, 3 + 1) == 24;
    assert OffsetOf(f, 4 + 1) == 24 + f[4];
    assert OffsetOf(f, 5 + 1) == 24 + f[4] + f[5];
    assert OffsetOf(f, 6 + 1) == 24 + f[4] + f[5] + f[6];
    assert OffsetOf(f, 7 + 1) == OffsetOf(f, 7) + 4;
    assert OffsetOf(f, 8 + 1) == OffsetOf(f, 8) + 2;
    assert OffsetOf(f, 9 + 1) == OffsetOf(f, 9) + 2;
    assert OffsetOf(f, 10 + 1) == OffsetOf(f, 10) + 2;
    assert OffsetOf(f, 11 + 1) == OffsetOf(f, 11) + 2;
    assert OffsetOf(f, 12 + 1) == OffsetOf(f, 12) + 2;
  }

  lemma SectionOffsets(wide: bool)
    ensures OffsetOf(SectionFields(wide), 1) == 4
    ensures OffsetOf(SectionFields(wide), 4) == (if wide then 24 else 16)
    ensures OffsetOf(SectionFields(wide), 5) == (if wide then 32 else 20)
    ensures OffsetOf(SectionFields(wide), 6) == (if wide then 40 else 24)
  {
    var f := SectionFields(wide);
    forall k | 0 <= k < 9 ensures OffsetOf(f, k + 1) == OffsetOf(f, k) + f[k] {
    }
    assert OffsetOf(f, 0) == 0 && OffsetOf(f, 0 + 1) == 4;
    assert OffsetOf(f, 1 + 1) == 8;
    assert OffsetOf(f, 2 + 1) == 8 + f[2];
    assert OffsetOf(f, 3 + 1) == 8 + f[2] + f[3];
    assert OffsetOf(f, 4 + 1) == 8 + f[2] + f[3] + f[4];
    assert OffsetOf(f, 5 + 1) == 8 + f[2] + f[3] + f[4] + f[5];
  }

  /** A structure field, read by its number. */
  function Read(data: Bytes, base: nat, fields: seq<nat>, k: nat, little: bool): Result<nat, Failure>
    requires k < |fields|
  {
    Field(data, base + OffsetOf(fields, k), fields[k], little)
  }

  /** The reader takes the section table from the fields the standard puts it in. */
  lemma HeaderFollowsStandard(data: Bytes)
    requires ParseHeader(data).Ok?
    ensures var l := ParseHeader(data).value;
      var fields := HeaderFields(l.wide);
      && Read(data, 0, fields, 6, l.little) == Ok(l.shoff) && Read(data, 0, fields, 11, l.little) == Ok(l.entsize)
      && Read(data, 0, fields, 12, l.little) == Ok(l.num) && Read(data, 0, fields, 13, l.little) == Ok(l.strndx)
  {
    hide UInt, OffsetOf;
    HeaderOffsets(ParseHeader(data).value.wide);
  }

  /** The same for the four fields of a section header. */
  lemma SectionFollowsStandard(data: Bytes, l: Layout, index: nat)
    requires SectionHeader(data, l, index).Ok?
    ensures var s := SectionHeader(data, l, index).value;
      var fields := SectionFields(l.wide);
      var base := l.shoff + index * l.entsize;
      && Read(data, base, fields, 0, l.little) == Ok(s.name) && Read(data, base, fields, 1, l.little) == Ok(s.kind)
      && Read(data, base, fields, 4, l.little) == Ok(s.offset) && Read(data, base, fields, 5, l.little) == Ok(s.size)
  {
    hide UInt, OffsetOf;
    SectionOffsets(l.wide);
    assert OffsetOf(SectionFields(l.wide), 0) == 0 by { OffsetOfFirst(SectionFields(l.wide)); }
  }

  lemma OffsetOfFirst(fields: seq<nat>)
    ensures OffsetOf(fields, 0) == 0
  {
  }

  /** The bytes of a number in either order. */
  function Encoded(value: nat, n: nat, little: bool): (r: Bytes)
    ensures |r| == n
  {
    if n == 0 then []
    else if little then [value % 256] + Encoded(value / 256, n - 1, little)
    else Encoded(value / 256, n - 1, little) + [value % 256]
  }

  /** Reading an integer back, wherever it stands and in either byte order. */
  lemma {:induction false} IntegersReadBack(before: Bytes, value: nat, n: nat, after: Bytes, little: bool)
    requires value < Pow256(n)
    ensures UInt(before + Encoded(value, n, little) + after, |before|, n, little) == value
    decreases n
  {
    if n > 0 {
      var data := before + Encoded(value, n, little) + after;
      var rest := Encoded(value / 256, n - 1, little);
      if little {
        assert data == (before + [value % 256]) + rest + after;
        IntegersReadBack(before + [value % 256], value / 256, n - 1, after, little);
      } else {
        assert data == before + rest + ([value % 256] + after);
        IntegersReadBack(before, value / 256, n - 1, [value % 256] + after, little);
        assert data[|before| + n - 1] == value % 256;
      }
    }
  }

  /** What an integer of n bytes is: the k-th byte from its low end counts 256 to the k. */
  lemma {:induction false} IntegerDigits(data: Bytes, off: nat, n: nat, little: bool, k: nat)
    requires off + n <= |data| && k < n
    ensures Pow256(k) > 0
    ensures UInt(data, off, n, little) / Pow256(k) % 256 == data[if little then off + k else off + n - 1 - k]
    decreases k
  {
    hide Pow256;
    Pow256Steps(k);
    var low := data[if little then off else off + n - 1];
    var rest := if little then UInt(data, off + 1, n - 1, little) else UInt(data, off, n - 1, little);
    assert UInt(data, off, n, little) == low + 256 * rest;
    LowByte(low, rest);
    if k > 0 {
      IntegerDigits(data, if little then off + 1 else off, n - 1, little, k - 1);
      DivPast(UInt(data, off, n, little), Pow256(k - 1));
    }
  }

  lemma LowByte(low: Byte, rest: nat)
    ensures (low + 256 * rest) % 256 == low && (low + 256 * rest) / 256 == rest
  {
  }

  lemma {:induction false} IntegerBound(data: Bytes, off: nat, n: nat, little: bool)
    requires off + n <= |data|
    ensures UInt(data, off, n, little) < Pow256(n)
    decreases n
  {
    if n > 0 {
      IntegerBound(data, if little then off + 1 else off, n - 1, little);
    }
  }
}
