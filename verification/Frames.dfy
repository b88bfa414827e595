/** Sections 5.2 and 5.3 of RFC 6455 as ws_server.py, protocol_check.py and the mock server speak them. */
module Frames {
  import opened Prelude

  type Opcode = op: int | 0 <= op < 16

  // ---------------------------------------------------------------- masking

  function Pow2(bits: nat): (r: nat)
    ensures r > 0
  {
    if bits == 0 then 1 else 2 * Pow2(bits - 1)
  }

  /** Exclusive or of the lowest bits of two numbers, bit by bit. */
  function XorBits(a: nat, b: nat, bits: nat): (r: nat)
    ensures r < Pow2(bits)
  {
    if bits == 0 then 0 else XorBit(a % 2, b % 2) + 2 * XorBits(a / 2, b / 2, bits - 1)
  }

  function XorBit(a: nat, b: nat): (r: nat)
    ensures r < 2
  {
    if a == b then 0 else 1
  }

  lemma {:induction false} XorBitsTwice(a: nat, b: nat, bits: nat)
    requires a < Pow2(bits)
    ensures XorBits(XorBits(a, b, bits), b, bits) == a
  {
    if bits > 0 {
      var bit := XorBit(a % 2, b % 2);
      var rest := XorBits(a / 2, b / 2, bits - 1);
      assert XorBits(a, b, bits) == bit + 2 * rest;
      BitAndRest(bit, rest);
      XorBitsTwice(a / 2, b / 2, bits - 1);
    }
  }

  lemma BitAndRest(bit: nat, rest: nat)
    requires bit < 2
    ensures (bit + 2 * rest) % 2 == bit && (bit + 2 * rest) / 2 == rest
  {
  }

  lemma {:induction false} XorBitsZero(a: nat, bits: nat)
    requires a < Pow2(bits)
    ensures XorBits(a, 0, bits) == a
  {
    if bits > 0 {
      XorBitsZero(a / 2, bits - 1);
    }
  }

  lemma Pow2OfEight()
    ensures Pow2(8) == 256
  {
    assert Pow2(4) == 16 && Pow2(6) == 64;
  }

  function Xor(a: Byte, b: Byte): Byte {
    Pow2OfEight();
    XorBits(a, b, 8)
  }

  lemma XorTwice(a: Byte, b: Byte)
    ensures Xor(Xor(a, b), b) == a
  {
    hide XorBits, Pow2;
    Pow2OfEight();
    XorBitsTwice(a, b, 8);
  }

  lemma XorZero(a: Byte)
    ensures Xor(a, 0) == a
  {
    hide XorBits, Pow2;
    Pow2OfEight();
    XorBitsZero(a, 8);
  }

  /** Every payload byte combined with the mask byte at its index modulo 4. */
  function Masked(payload: Bytes, mask: Bytes): (r: Bytes)
    requires |mask| == 4
    ensures |r| == |payload|
  {
    seq(|payload|, i requires 0 <= i < |payload| => Xor(payload[i], mask[i % 4]))
  }

  lemma MaskedTwice(payload: Bytes, mask: Bytes)
    requires |mask| == 4
    ensures Masked(Masked(payload, mask), mask) == payload
  {
    hide Xor;
    forall i | 0 <= i < |payload| ensures Masked(Masked(payload, mask), mask)[i] == payload[i] {
      XorTwice(payload[i], mask[i % 4]);
    }
  }

  // What masking computes, read off the binary digits instead of the recursion.

  lemma DivTwice(x: nat, p: nat)
    requires p > 0
    ensures x / (2 * p) == (x / 2) / p
  {
    var q, r := (x / 2) / p, (x / 2) % p;
    assert x / 2 == q * p + r;
    assert x == q * (2 * p) + (2 * r + x % 2);
    QuotientIs(x, 2 * p, q, 2 * r + x % 2);
  }

  lemma XorUnfold(a: nat, b: nat, bits: nat)
    requires bits > 0
    ensures XorBits(a, b, bits) == XorBit(a % 2, b % 2) + 2 * XorBits(a / 2, b / 2, bits - 1)
  {
  }

  lemma XorBitIsSum(a: nat, b: nat)
    ensures XorBit(a % 2, b % 2) == (a + b) % 2
  {
  }

  lemma XorBitsHalves(a: nat, b: nat, bits: nat)
    requires bits > 0
    ensures XorBits(a, b, bits) % 2 == (a + b) % 2
    ensures XorBits(a, b, bits) / 2 == XorBits(a / 2, b / 2, bits - 1)
  {
    hide Pow2, XorBits, XorBit;
    XorUnfold(a, b, bits);
    XorBitIsSum(a, b);
    BitAndRest(XorBit(a % 2, b % 2), XorBits(a / 2, b / 2, bits - 1));
  }

  /** The k-th binary digit. */
  function Digit(x: nat, k: nat): nat {
    x / Pow2(k) % 2
  }

  lemma DigitOfHalf(x: nat, k: nat)
    ensures Digit(x, k + 1) == Digit(x / 2, k) && Digit(x, 0) == x % 2
  {
    DivTwice(x, Pow2(k));
  }

  lemma {:induction false} XorBitsAt(a: nat, b: nat, bits: nat, k: nat)
    requires k < bits
    ensures Digit(XorBits(a, b, bits), k) == (Digit(a, k) + Digit(b, k)) % 2
  {
    hide XorBits, Pow2, Digit;
    XorBitsHalves(a, b, bits);
    var j := if k > 0 then k - 1 else 0;
    DigitOfHalf(XorBits(a, b, bits), j);
    DigitOfHalf(a, j);
    DigitOfHalf(b, j);
    if k > 0 {
      XorBitsAt(a / 2, b / 2, bits - 1, k - 1);
    } else {
      OddSum(a, b);
    }
  }

  lemma OddSum(a: nat, b: nat)
    ensures (a + b) % 2 == (a % 2 + b % 2) % 2
  {
  }

  /** Section 5.3: every binary digit of a masked byte is the sum, modulo 2, of the digits of the payload
      byte and of the mask byte at its index modulo 4. */
  lemma MaskedDigits(payload: Bytes, mask: Bytes, i: nat, k: nat)
    requires |mask| == 4 && i < |payload| && k < 8
    ensures Masked(payload, mask)[i] / Pow2(k) % 2 == (payload[i] / Pow2(k) + mask[i % 4] / Pow2(k)) % 2
  {
    hide XorBits, Pow2;
    OddSum(payload[i] / Pow2(k), mask[i % 4] / Pow2(k));
    XorBitsAt(payload[i], mask[i % 4], 8, k);
  }

  const ZERO_MASK: Bytes := [0, 0, 0, 0]

  lemma MaskedByZero(payload: Bytes)
    ensures Masked(payload, ZERO_MASK) == payload
  {
    hide Xor;
    forall i | 0 <= i < |payload| ensures Masked(payload, ZERO_MASK)[i] == payload[i] {
      XorZero(payload[i]);
    }
  }

  // ---------------------------------------------------------------- big-endian lengths

  function ToBig(n: nat, width: nat): (r: Bytes)
    ensures |r| == width
  {
    if width == 0 then [] else ToBig(n / 256, width - 1) + [n % 256]
  }

  function FromBig(data: Bytes): nat {
    if data == [] then 0 else 256 * FromBig(data[..|data| - 1]) + data[|data| - 1]
  }

  lemma {:induction false} BigRoundTrip(n: nat, width: nat)
    requires n < Pow256(width)
    ensures FromBig(ToBig(n, width)) == n
  {
    if width > 0 {
      BigRoundTrip(n / 256, width - 1);
      var r := ToBig(n, width);
      assert r[..|r| - 1] == ToBig(n / 256, width - 1);
    }
  }

  /** Most significant byte first: the k-th byte from the end counts 256 to the k. */
  lemma {:induction false} BigDigits(data: Bytes, k: nat)
    requires k < |data|
    ensures Pow256(k) > 0 && (FromBig(data) / Pow256(k)) % 256 == data[|data| - 1 - k]
    decreases k
  {
    hide Pow256;
    var front := data[..|data| - 1];
    Pow256Steps(k);
    assert FromBig(data) / 256 == FromBig(front) && FromBig(data) % 256 == data[|data| - 1];
    if k > 0 {
      BigDigits(front, k - 1);
      DivPast(FromBig(data), Pow256(k - 1));
    }
  }

  lemma {:induction false} BigBound(data: Bytes)
    ensures FromBig(data) < Pow256(|data|)
  {
    if data != [] {
      BigBound(data[..|data| - 1]);
    }
  }

  lemma Pow256Values()
    ensures Pow256(2) == 0x1_0000 && Pow256(8) == 0x1_0000_0000_0000_0000
  {
    assert Pow256(1) == 256 && Pow256(3) == 0x100_0000 && Pow256(4) == 0x1_0000_0000;
    assert Pow256(5) == 0x100_0000_0000 && Pow256(6) == 0x1_0000_0000_0000 && Pow256(7) == 0x100_0000_0000_0000;
  }

  // ---------------------------------------------------------------- encoding

  const LENGTH_LIMIT: nat := 0x1_0000_0000_0000_0000

  /** The second header byte with the mask flag (0 or 128), and the extended length after it. */
  function LengthField(n: nat, flag: Byte): Bytes
    requires (flag == 0 || flag == 128) && n < LENGTH_LIMIT
  {
    if n < 126 then [flag + n]
    else if n < 0x1_0000 then [flag + 126] + ToBig(n, 2)
    else [flag + 127] + ToBig(n, 8)
  }

  /** Section 5.2: seven bits for lengths below 126, else the shorter of the two extended forms that fits,
      most significant byte first. */
  lemma LengthForms(n: nat, flag: Byte)
    requires (flag == 0 || flag == 128) && n < LENGTH_LIMIT
    ensures var field := LengthField(n, flag);
      && (n < 126 ==> field == [flag + n])
      && (126 <= n < 0x1_0000 ==> |field| == 3 && field[0] == flag + 126 && FromBig(field[1..]) == n)
      && (0x1_0000 <= n ==> |field| == 9 && field[0] == flag + 127 && FromBig(field[1..]) == n)
  {
    hide FromBig, ToBig, Pow256;
    Pow256Values();
    if 126 <= n < 0x1_0000 {
      BigRoundTrip(n, 2);
      assert LengthField(n, flag)[1..] == ToBig(n, 2);
    } else if 126 <= n {
      BigRoundTrip(n, 8);
      assert LengthField(n, flag)[1..] == ToBig(n, 8);
    }
  }

  datatype Frame = Frame(opcode: Opcode, payload: Bytes)

  /** What the server and the mock put on the wire. */
  function ServerWire(f: Frame): Bytes
    requires |f.payload| < LENGTH_LIMIT
  {
    [128 + f.opcode] + LengthField(|f.payload|, 0) + f.payload
  }

  /** What the client puts on the wire. */
  function ClientWire(f: Frame, mask: Bytes): Bytes
    requires |f.payload| < LENGTH_LIMIT && |mask| == 4
  {
    [128 + f.opcode] + LengthField(|f.payload|, 128) + mask + Masked(f.payload, mask)
  }

  // ---------------------------------------------------------------- decoding

  datatype Decoded = Decoded(frame: Frame, rest: Bytes)

  function ExtendedSize(second: Byte): nat {
    if second % 128 == 126 then 2 else if second % 128 == 127 then 8 else 0
  }

  /** Payload length announced by a header that is completely there. */
  function Announced(stream: Bytes): nat
    requires |stream| >= 2 && |stream| >= 2 + ExtendedSize(stream[1])
  {
    var ext := ExtendedSize(stream[1]);
    if ext == 0 then stream[1] % 128 else FromBig(stream[2..2 + ext])
  }

  /** The first frame of a stream, or None while it is incomplete. The servers unmask a frame whose
      mask flag is set; the test client never looks at the flag. */
  function Decode(stream: Bytes, unmask: bool): Option<Decoded> {
    if |stream| < 2 then None
    else
      var ext := ExtendedSize(stream[1]);
      if |stream| < 2 + ext then None
      else
        var n := Announced(stream);
        var masked := unmask && stream[1] >= 128;
        var body := 2 + ext + (if masked then 4 else 0);
        if |stream| < body + n then None
        else
          var payload := stream[body..body + n];
          Some(Decoded(
            Frame(stream[0] % 16, if masked then Masked(payload, stream[body - 4..body]) else payload),
            stream[body + n..]))
  }

  /** What any first frame of a stream looks like, whoever wrote it and whatever its first byte, length form
      and mask flag: Decode finds exactly these parts. */
  lemma DecodeOfParts(first: Byte, second: Byte, ext: Bytes, key: Bytes, body: Bytes, rest: Bytes, unmask: bool)
    requires |ext| == (if second % 128 == 126 then 2 else if second % 128 == 127 then 8 else 0)
    requires |key| == (if unmask && second >= 128 then 4 else 0)
    requires |body| == (if ext == [] then second % 128 else FromBig(ext))
    ensures Decode([first, second] + ext + key + body + rest, unmask) ==
      Some(Decoded(Frame(first % 16, if key == [] then body else Masked(body, key)), rest))
  {
    hide FromBig, Masked;
    var stream := [first, second] + ext + key + body + rest;
    PartsAt(first, second, ext, key, body, rest);
    assert ExtendedSize(stream[1]) == |ext| && Announced(stream) == |body|;
    assert |key| == 0 ==> key == [];
  }

  lemma PartsAt(first: Byte, second: Byte, ext: Bytes, key: Bytes, body: Bytes, rest: Bytes)
    ensures var stream := [first, second] + ext + key + body + rest;
      var at := 2 + |ext| + |key|;
      && |stream| == at + |body| + |rest| && stream[0] == first && stream[1] == second
      && stream[2..2 + |ext|] == ext && stream[2 + |ext|..at] == key
      && stream[at..at + |body|] == body && stream[at + |body|..] == rest
  {
  }

  /** And it finds none exactly while one of these parts is incomplete. */
  lemma DecodeNeedsAll(stream: Bytes, unmask: bool)
    ensures Decode(stream, unmask) == None <==>
      |stream| < 2 ||
      var ext := if stream[1] % 128 == 126 then 2 else if stream[1] % 128 == 127 then 8 else 0;
      |stream| < 2 + ext ||
      |stream| < 2 + ext + (if unmask && stream[1] >= 128 then 4 else 0) +
        (if ext == 0 then stream[1] % 128 else FromBig(stream[2..2 + ext]))
  {
    hide FromBig, Masked;
  }

  /** The header of either encoding is read back as written. */
  lemma HeaderRoundTrip(op: Opcode, n: nat, flag: Byte, tail: Bytes)
    requires (flag == 0 || flag == 128) && n < LENGTH_LIMIT
    ensures var stream := [128 + op] + LengthField(n, flag) + tail;
      var ext := |LengthField(n, flag)| - 1;
      && |stream| >= 2 + ext && ExtendedSize(stream[1]) == ext
      && stream[0] % 16 == op && (stream[1] >= 128 <==> flag == 128)
      && Announced(stream) == n && stream[2 + ext..] == tail
  {
    hide FromBig, ToBig, Pow256;
    var field := LengthField(n, flag);
    var stream := [128 + op] + field + tail;
    assert stream[1] == field[0];
    Pow256Values();
    if 126 <= n < 0x1_0000 {
      BigRoundTrip(n, 2);
      assert stream[2..4] == ToBig(n, 2);
    } else if 126 <= n {
      BigRoundTrip(n, 8);
      assert stream[2..10] == ToBig(n, 8);
    }
  }

  /** Masked client frames: for every opcode, payload, mask and trailing data the server's decoder
      returns the frame and consumes exactly its bytes. */
  lemma {:induction false} ClientToServer(f: Frame, mask: Bytes, rest: Bytes)
    requires |f.payload| < LENGTH_LIMIT && |mask| == 4
    ensures Decode(ClientWire(f, mask) + rest, true) == Some(Decoded(f, rest))
  {
    hide FromBig, ToBig, Masked, LengthField, ExtendedSize, Announced;
    var n := |f.payload|;
    var hidden := Masked(f.payload, mask);
    var stream := ClientWire(f, mask) + rest;
    var tail := mask + hidden + rest;
    assert stream == [128 + f.opcode] + LengthField(n, 128) + tail;
    HeaderRoundTrip(f.opcode, n, 128, tail);
    var body := 2 + ExtendedSize(stream[1]) + 4;
    SliceOfSlice(stream, body - 4, 4, n);
    assert tail[..4] == mask && tail[4..4 + n] == hidden && tail[4 + n..] == rest;
    MaskedTwice(f.payload, mask);
  }

  /** Both encodings, byte by byte: a final fragment without reserved bits, the mask flag only on the
      client's side, the length in its shortest form, the mask in front of the masked payload. */
  lemma WireForms(f: Frame, mask: Bytes)
    requires |f.payload| < LENGTH_LIMIT && |mask| == 4
    ensures var n := |f.payload|;
      var field, masked := LengthField(n, 0), LengthField(n, 128);
      && ServerWire(f) == [0x80 + f.opcode] + field + f.payload
      && |ClientWire(f, mask)| == 1 + |masked| + 4 + n && ClientWire(f, mask)[0] == 0x80 + f.opcode
      && ClientWire(f, mask)[1..1 + |masked|] == masked
      && ClientWire(f, mask)[1 + |masked|..5 + |masked|] == mask
      && ClientWire(f, mask)[5 + |masked|..] == Masked(f.payload, mask)
  {
    hide LengthField, Masked;
  }

  lemma SliceOfSlice(s: Bytes, from: nat, skip: nat, n: nat)
    requires from + skip + n <= |s|
    ensures s[from + skip..from + skip + n] == s[from..][skip..skip + n]
    ensures s[from + skip + n..] == s[from..][skip + n..]
    ensures s[from..from + skip] == s[from..][..skip]
  {
  }

  /** Server frames, read by the client's buffered decoder or by a server's decoder. */
  lemma ServerToClient(f: Frame, rest: Bytes, unmask: bool)
    requires |f.payload| < LENGTH_LIMIT
    ensures Decode(ServerWire(f) + rest, unmask) == Some(Decoded(f, rest))
  {
    hide FromBig, ToBig, LengthField, ExtendedSize, Announced;
    var n := |f.payload|;
    var stream := ServerWire(f) + rest;
    var tail := f.payload + rest;
    assert stream == [128 + f.opcode] + LengthField(n, 0) + tail;
    HeaderRoundTrip(f.opcode, n, 0, tail);
    SliceOfSlice(stream, 2 + ExtendedSize(stream[1]), 0, n);
    assert tail[0..n] == f.payload && tail[n..] == rest;
  }

  lemma SliceOfLonger(a: Bytes, b: Bytes, lo: nat, hi: nat)
    requires lo <= hi <= |a|
    ensures (a + b)[lo..hi] == a[lo..hi]
  {
  }

  lemma DropOfLonger(a: Bytes, b: Bytes, lo: nat)
    requires lo <= |a|
    ensures (a + b)[lo..] == a[lo..] + b
  {
  }

  /** A decoded frame stays decoded when more bytes follow. */
  lemma DecodeStable(a: Bytes, b: Bytes, unmask: bool)
    requires Decode(a, unmask).Some?
    ensures Decode(a + b, unmask) ==
      Some(Decoded(Decode(a, unmask).value.frame, Decode(a, unmask).value.rest + b))
  {
    hide FromBig, Masked;
    var ext := ExtendedSize(a[1]);
    SliceOfLonger(a, b, 2, 2 + ext);
    var n := Announced(a);
    var body := 2 + ext + (if unmask && a[1] >= 128 then 4 else 0);
    SliceOfLonger(a, b, body, body + n);
    if body >= 4 {
      SliceOfLonger(a, b, body - 4, body);
    }
    DropOfLonger(a, b, body + n);
  }

  /** A proper beginning of a frame is never taken for a frame. */
  lemma PartialIsIncomplete(f: Frame, part: Bytes, missing: Bytes)
    requires |f.payload| < LENGTH_LIMIT && part + missing == ServerWire(f) && missing != []
    ensures Decode(part, false) == None
  {
    hide Decode, ServerWire;
    ServerToClient(f, [], false);
    assert ServerWire(f) + [] == ServerWire(f);
    if Decode(part, false).Some? {
      assert |Decode(part, false).value.rest + missing| > 0;
      DecodeStable(part, missing, false);
    }
  }

  // ---------------------------------------------------------------- many frames

  datatype Drained = Drained(frames: seq<Frame>, rest: Bytes)

  /** All complete frames of a buffer, and what remains. */
  function Drain(buf: Bytes): Drained
    decreases |buf|
  {
    match Decode(buf, false)
    case None => Drained([], buf)
    case Some(d) =>
      var more := Drain(d.rest);
      Drained([d.frame] + more.frames, more.rest)
  }

  /** Where the buffer is cut makes no difference: draining early and again later is draining once. */
  lemma {:induction false} DrainIncremental(a: Bytes, b: Bytes)
    ensures Drain(a + b) ==
      Drained(Drain(a).frames + Drain(Drain(a).rest + b).frames, Drain(Drain(a).rest + b).rest)
    decreases |a|
  {
    hide Decode;
    match Decode(a, false)
    case None =>
    case Some(d) =>
      DecodeSmaller(a);
      DecodeStable(a, b, false);
      DrainIncremental(d.rest, b);
  }

  lemma DecodeSmaller(a: Bytes)
    ensures Decode(a, false).Some? ==> |Decode(a, false).value.rest| < |a|
  {
  }

  function Wire(frames: seq<Frame>): Bytes
    requires forall f :: f in frames ==> |f.payload| < LENGTH_LIMIT
  {
    if frames == [] then [] else ServerWire(frames[0]) + Wire(frames[1..])
  }

  /** Received so far: a beginning of the frames' wire form. Decoded: the frames that are completely
      there, in order; what remains is a proper beginning of the next one. */
  lemma {:induction false} DrainBeginning(frames: seq<Frame>, got: Bytes)
    requires forall f :: f in frames ==> |f.payload| < LENGTH_LIMIT
    requires got <= Wire(frames)
    ensures var d := Drain(got);
      && |d.frames| <= |frames| && d.frames == frames[..|d.frames|]
      && (got == Wire(frames) ==> d == Drained(frames, []))
      && (|d.frames| == |frames| ==> d.rest == [])
      && (|d.frames| < |frames| ==> d.rest < ServerWire(frames[|d.frames|]))
    decreases |frames|
  {
    hide Decode, ServerWire;
    if frames == [] {
      assert Decode([], false) == None by { EmptyIsIncomplete(); }
    } else {
      var first := ServerWire(frames[0]);
      if |got| < |first| {
        var missing := first[|got|..];
        assert got + missing == first;
        PartialIsIncomplete(frames[0], got, missing);
      } else {
        var more := got[|first|..];
        assert got == first + more;
        assert more <= Wire(frames[1..]);
        ServerToClient(frames[0], more, false);
        DrainBeginning(frames[1..], more);
        assert Drain(got).frames == [frames[0]] + Drain(more).frames;
      }
    }
  }

  lemma EmptyIsIncomplete()
    ensures Decode([], false) == None
  {
  }

  // ---------------------------------------------------------------- examples of section 5.7

  /** "Hello" */
  const HELLO: Bytes := [0x48, 0x65, 0x6c, 0x6c, 0x6f]

  /** The two single-frame text messages of section 5.7, unmasked and masked. */
  lemma HelloExamples()
    ensures Decode([0x81, 0x05] + HELLO, false) == Some(Decoded(Frame(1, HELLO), []))
    ensures Decode([0x81, 0x85, 0x37, 0xfa, 0x21, 0x3d, 0x7f, 0x9f, 0x4d, 0x51, 0x58], true) ==
      Some(Decoded(Frame(1, HELLO), []))
  {
    var key: Bytes, body: Bytes := [0x37, 0xfa, 0x21, 0x3d], [0x7f, 0x9f, 0x4d, 0x51, 0x58];
    assert Masked(body, key) == HELLO by { HelloMasked(); }
    hide Decode, Masked;
    DecodeOfParts(0x81, 0x05, [], [], HELLO, [], false);
    assert [0x81, 0x05] + [] + [] + HELLO + [] == [0x81, 0x05] + HELLO;
    DecodeOfParts(0x81, 0x85, [], key, body, [], true);
    assert [0x81, 0x85] + [] + key + body + [] == [0x81, 0x85, 0x37, 0xfa, 0x21, 0x3d, 0x7f, 0x9f, 0x4d, 0x51, 0x58];
  }

  lemma HelloMasked()
    ensures Masked([0x7f, 0x9f, 0x4d, 0x51, 0x58], [0x37, 0xfa, 0x21, 0x3d]) == HELLO
  {
    hide Xor;
    HelloLetters();
  }

  lemma HelloLetters()
    ensures Xor(0x7f, 0x37) == 0x48 && Xor(0x9f, 0xfa) == 0x65 && Xor(0x4d, 0x21) == 0x6c
    ensures Xor(0x51, 0x3d) == 0x6c && Xor(0x58, 0x37) == 0x6f
  {
    hide Xor, LowNibble;
    XorIs(0x7f, 0x37);
    XorIs(0x9f, 0xfa);
    XorIs(0x4d, 0x21);
    XorIs(0x51, 0x3d);
    XorIs(0x58, 0x37);
    HelloLows();
    HelloHighs();
  }

  lemma HelloLows()
    ensures LowNibble(0x7f, 0x37) == 8 && LowNibble(0x9f, 0xfa) == 5 && LowNibble(0x4d, 0x21) == 12
    ensures LowNibble(0x51, 0x3d) == 12 && LowNibble(0x58, 0x37) == 15
  {
  }

  lemma HelloHighs()
    ensures LowNibble(7, 3) == 4 && LowNibble(9, 15) == 6
    ensures LowNibble(4, 2) == 6 && LowNibble(5, 3) == 6
  {
    assert LowNibble(7, 3) == 4;
    assert LowNibble(9, 15) == 6;
    assert LowNibble(4, 2) == 6;
    assert LowNibble(5, 3) == 6;
  }

  /** All eight digits of an exclusive or, written out. */
  lemma XorIs(a: Byte, b: Byte)
    ensures Xor(a, b) == LowNibble(a, b) + 16 * LowNibble(a / 16, b / 16)
  {
    hide Pow2, XorBits, LowNibble;
    XorNibble(a, b, 8);
    XorNibble(a / 16, b / 16, 4);
    XorOfNothing(a / 16 / 16, b / 16 / 16);
  }

  function LowNibble(a: nat, b: nat): nat {
    XorBit(a % 2, b % 2) + 2 * XorBit(a / 2 % 2, b / 2 % 2) + 4 * XorBit(a / 4 % 2, b / 4 % 2) +
    8 * XorBit(a / 8 % 2, b / 8 % 2)
  }

  lemma XorNibble(a: nat, b: nat, bits: nat)
    requires bits >= 4
    ensures XorBits(a, b, bits) == LowNibble(a, b) + 16 * XorBits(a / 16, b / 16, bits - 4)
  {
    hide Pow2, XorBits, XorBit;
    XorUnfold(a, b, bits);
    XorUnfold(a / 2, b / 2, bits - 1);
    assert a / 2 / 2 == a / 4 && b / 2 / 2 == b / 4;
    XorUnfold(a / 4, b / 4, bits - 2);
    assert a / 4 / 2 == a / 8 && b / 4 / 2 == b / 8;
    XorUnfold(a / 8, b / 8, bits - 3);
    assert a / 8 / 2 == a / 16 && b / 8 / 2 == b / 16;
  }

  lemma XorOfNothing(a: nat, b: nat)
    ensures XorBits(a, b, 0) == 0
  {
  }
}
