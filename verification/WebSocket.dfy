/** The loops that move frames over sockets: ws_server.py, protocol_check.py, mock_pty_ws_server.py. */
module WebSocket {
  import opened Prelude
  import opened Search
  import opened Frames

  /** One direction of a connection: the bytes the peer sends before it closes, and how TCP cuts them. */
  class Socket {
    var incoming: Bytes
    var calls: nat
    const cuts: nat -> nat

    constructor (incoming: Bytes, cuts: nat -> nat)
      ensures this.incoming == incoming
    {
      this.incoming, this.cuts, calls := incoming, cuts, 0;
    }

    /** At least one byte and at most limit, as the cut decides; nothing at the end of the stream. */
    method Recv(limit: nat) returns (chunk: Bytes)
      requires limit > 0
      modifies this
      ensures old(incoming) == chunk + incoming && |chunk| <= limit
      ensures chunk == [] <==> old(incoming) == []
    {
      var size := if cuts(calls) == 0 then 1 else cuts(calls);
      size := if size < limit then size else limit;
      size := if size < |incoming| then size else |incoming|;
      calls := calls + 1;
      chunk, incoming := incoming[..size], incoming[size..];
    }
  }

  datatype Closed = PeerClosed

  /** Exactly length bytes, over as many short reads as it takes. */
  method RecvExact(sock: Socket, length: nat) returns (r: Result<Bytes, Closed>)
    modifies sock
    ensures length <= |old(sock.incoming)| ==>
      r == Ok(old(sock.incoming)[..length]) && sock.incoming == old(sock.incoming)[length..]
    ensures length > |old(sock.incoming)| ==> r == Err(PeerClosed) && sock.incoming == []
  {
    ghost var stream := sock.incoming;
    var data: Bytes := [];
    while |data| < length
      invariant |data| <= length && stream == data + sock.incoming
      decreases length - |data|
    {
      var chunk := sock.Recv(length - |data|);
      if chunk == [] {
        return Err(PeerClosed);
      }
      data := data + chunk;
    }
    assert stream[..length] == data;
    r := Ok(data);
  }

  /** The payload length: seven bits, or the extended field they announce. */
  method ReadLength(sock: Socket, second: Byte, ghost stream: Bytes) returns (r: Result<nat, Closed>)
    requires |stream| >= 2 && second == stream[1] && sock.incoming == stream[2..]
    modifies sock
    ensures |stream| < 2 + ExtendedSize(second) ==> r == Err(PeerClosed) && sock.incoming == []
    ensures |stream| >= 2 + ExtendedSize(second) ==>
      r == Ok(Announced(stream)) && sock.incoming == stream[2 + ExtendedSize(second)..]
  {
    hide FromBig;
    var length: nat := second % 128;
    if length == 126 {
      var field := RecvExact(sock, 2);
      if field.Err? { return Err(PeerClosed); }
      assert field.value == stream[2..4];
      length := FromBig(field.value);
    } else if length == 127 {
      var field := RecvExact(sock, 8);
      if field.Err? { return Err(PeerClosed); }
      assert field.value == stream[2..10];
      length := FromBig(field.value);
    }
    r := Ok(length);
  }

  /** The server's blocking decoder. */
  method ReadFrame(sock: Socket) returns (r: Result<Frame, Closed>)
    modifies sock
    ensures match Decode(old(sock.incoming), true)
      case None => r == Err(PeerClosed) && sock.incoming == []
      case Some(d) => r == Ok(d.frame) && sock.incoming == d.rest
  {
    hide FromBig, Masked, Announced;
    ghost var stream := sock.incoming;
    var first := RecvExact(sock, 1);
    if first.Err? { return Err(PeerClosed); }
    var second := RecvExact(sock, 1);
    if second.Err? { return Err(PeerClosed); }
    assert sock.incoming == stream[2..];
    var opcode: Opcode := first.value[0] % 16;
    var masked := second.value[0] >= 128;
    ghost var ext := ExtendedSize(stream[1]);
    var field := ReadLength(sock, second.value[0], stream);
    if field.Err? { return Err(PeerClosed); }
    var length := field.value;
    var key: Bytes := ZERO_MASK;
    if masked {
      var bytes := RecvExact(sock, 4);
      if bytes.Err? { return Err(PeerClosed); }
      SliceOfSlice(stream, 2 + ext, 4, 0);
      key := bytes.value;
    }
    ghost var body := 2 + ext + (if masked then 4 else 0);
    assert sock.incoming == stream[body..];
    assert masked ==> key == stream[body - 4..body];
    var payload := RecvExact(sock, length);
    if payload.Err? { return Err(PeerClosed); }
    SliceOfSlice(stream, body, 0, length);
    assert payload.value == stream[body..][0..length];
    r := Ok(Frame(opcode, if masked then Masked(payload.value, key) else payload.value));
  }

  /** The mock's unmasking, byte by byte in the received buffer. */
  method UnmaskInPlace(payload: array<Byte>, mask: Bytes)
    requires |mask| == 4
    modifies payload
    ensures payload[..] == Masked(old(payload[..]), mask)
  {
    hide Xor;
    var i := 0;
    while i < payload.Length
      invariant 0 <= i <= payload.Length
      invariant forall k :: 0 <= k < i ==> payload[k] == Xor(old(payload[k]), mask[k % 4])
      invariant forall k :: i <= k < payload.Length ==> payload[k] == old(payload[k])
    {
      payload[i] := Xor(payload[i], mask[i % 4]);
      i := i + 1;
    }
  }

  /** The received payload as a buffer, unmasked in place. */
  method Unmasked(received: Bytes, mask: Bytes) returns (payload: Bytes)
    requires |mask| == 4
    ensures payload == Masked(received, mask)
  {
    hide Masked;
    var buffer := new Byte[|received|](i requires 0 <= i < |received| => received[i]);
    assert buffer[..] == received;
    UnmaskInPlace(buffer, mask);
    payload := buffer[..];
  }

  /** The mock's decoder: one read for both header bytes, a zero mask when none was sent. It agrees
      with the server's decoder on every stream. */
  method MockReadFrame(sock: Socket) returns (r: Result<Frame, Closed>)
    modifies sock
    ensures match Decode(old(sock.incoming), true)
      case None => r == Err(PeerClosed) && sock.incoming == []
      case Some(d) => r == Ok(d.frame) && sock.incoming == d.rest
  {
    hide FromBig, Masked, Announced;
    ghost var stream := sock.incoming;
    var header := RecvExact(sock, 2);
    if header.Err? { return Err(PeerClosed); }
    var opcode: Opcode := header.value[0] % 16;
    var masked := header.value[1] >= 128;
    ghost var ext := ExtendedSize(stream[1]);
    var field := ReadLength(sock, header.value[1], stream);
    if field.Err? { return Err(PeerClosed); }
    var length := field.value;
    var mask: Bytes := ZERO_MASK;
    if masked {
      var bytes := RecvExact(sock, 4);
      if bytes.Err? { return Err(PeerClosed); }
      SliceOfSlice(stream, 2 + ext, 4, 0);
      mask := bytes.value;
    }
    ghost var body := 2 + ext + (if masked then 4 else 0);
    assert sock.incoming == stream[body..];
    assert masked ==> mask == stream[body - 4..body];
    var received := RecvExact(sock, length);
    if received.Err? { return Err(PeerClosed); }
    SliceOfSlice(stream, body, 0, length);
    assert received.value == stream[body..][0..length];
    var payload := Unmasked(received.value, mask);
    MaskedByZero(received.value);
    r := Ok(Frame(opcode, payload));
  }

  /** The server's encoder. */
  method SendFrame(opcode: Opcode, payload: Bytes) returns (wire: Bytes)
    requires |payload| < LENGTH_LIMIT
    ensures wire == ServerWire(Frame(opcode, payload))
  {
    hide ToBig;
    var header: Bytes := [];
    header := header + [128 + opcode];
    var length := |payload|;
    if length < 126 {
      header := header + [length];
    } else if length <= 65535 {
      header := header + [126];
      header := header + ToBig(length, 2);
    } else {
      header := header + [127];
      header := header + ToBig(length, 8);
    }
    assert header == [128 + opcode] + LengthField(length, 0);
    wire := header + payload;
  }

  /** The client's masking encoder; the mask is the four random bytes. */
  method Send(payload: Bytes, opcode: Opcode, mask: Bytes) returns (wire: Bytes)
    requires |payload| < LENGTH_LIMIT && |mask| == 4
    ensures wire == ClientWire(Frame(opcode, payload), mask)
  {
    hide ToBig, Masked;
    var header: Bytes := [128 + opcode];
    var n := |payload|;
    if n < 126 {
      header := header + [128 + n];
    } else if n < 0x1_0000 {
      header := header + [128 + 126];
      header := header + ToBig(n, 2);
    } else {
      header := header + [128 + 127];
      header := header + ToBig(n, 8);
    }
    assert header == [128 + opcode] + LengthField(n, 128);
    wire := header + mask + Masked(payload, mask);
  }

  // ---------------------------------------------------------------- the test client

  const BLANK_LINE: Bytes := [13, 10, 13, 10]

  /** Reads up to the end of the HTTP head and keeps the bytes that came with it. However the stream
      is cut, what is kept and what is still to come are exactly what follows the first blank line. */
  method ReadHead(sock: Socket) returns (header: Bytes, pending: Bytes)
    modifies sock
    ensures var at := Find(old(sock.incoming), BLANK_LINE);
      && (at >= 0 ==> header == old(sock.incoming)[..at] && pending + sock.incoming == old(sock.incoming)[at + 4..])
      && (at < 0 ==> header == old(sock.incoming) && pending == [] && sock.incoming == [])
  {
    hide Find;
    ghost var stream := sock.incoming;
    var head: Bytes := [];
    while Find(head, BLANK_LINE) < 0
      invariant stream == head + sock.incoming
      decreases |sock.incoming|
    {
      var chunk := sock.Recv(4096);
      if chunk == [] {
        break;
      }
      head := head + chunk;
    }
    var at := Find(head, BLANK_LINE);
    if at >= 0 {
      FindStable(head, sock.incoming, BLANK_LINE);
      header, pending := head[..at], head[at + 4..];
    } else {
      assert head == stream;
      header, pending := head, [];
    }
  }

  function Binary(frames: seq<Frame>): Bytes {
    if frames == [] then []
    else (if frames[0].opcode == 2 then frames[0].payload else []) + Binary(frames[1..])
  }

  function Texts(frames: seq<Frame>): seq<Bytes> {
    if frames == [] then []
    else (if frames[0].opcode == 1 then [frames[0].payload] else []) + Texts(frames[1..])
  }

  /** What a reader has decoded of a buffer after reads that brought the given bytes, and what it still holds. */
  function Pumped(buf: Bytes, got: Bytes): Drained {
    if got == [] then Drained([], buf) else Drain(buf + got)
  }

  /** Accumulates decoded frames. */
  class Reader {
    const sock: Socket
    var buf: Bytes
    var binary: Bytes
    var texts: seq<Bytes>

    constructor (sock: Socket, initial: Bytes)
      ensures this.sock == sock && buf == initial && binary == [] && texts == []
    {
      this.sock, buf, binary, texts := sock, initial, [], [];
    }

    /** The next complete frame of the buffer. */
    method Take() returns (frame: Option<Frame>)
      modifies this`buf
      ensures match Decode(old(buf), false)
        case None => frame == None && buf == old(buf)
        case Some(d) => frame == Some(d.frame) && buf == d.rest
    {
      hide FromBig;
      if |buf| < 2 {
        return None;
      }
      var length: nat := buf[1] % 128;
      var offset := 2;
      if length == 126 {
        if |buf| < 4 {
          return None;
        }
        length := FromBig(buf[2..4]);
        offset := 4;
      } else if length == 127 {
        if |buf| < 10 {
          return None;
        }
        length := FromBig(buf[2..10]);
        offset := 10;
      }
      if |buf| < offset + length {
        return None;
      }
      var payload := buf[offset..offset + length];
      frame := Some(Frame(buf[0] % 16, payload));
      buf := buf[offset + length..];
    }

    /** One read; false on a timeout or at the end of the stream. */
    method Fill(timeout: bool) returns (filled: bool, ghost arrived: Bytes)
      modifies this`buf, sock
      ensures buf == old(buf) + arrived && old(sock.incoming) == arrived + sock.incoming
      ensures filled <==> !timeout && old(sock.incoming) != []
      ensures filled <==> arrived != []
    {
      if timeout {
        return false, [];
      }
      var chunk := sock.Recv(65536);
      buf := buf + chunk;
      filled, arrived := chunk != [], chunk;
    }

    /** The inner loop of pump: takes every complete frame. */
    method TakeAll()
      modifies this`buf, this`binary, this`texts
      ensures var d := Drain(old(buf));
        buf == d.rest && binary == old(binary) + Binary(d.frames) && texts == old(texts) + Texts(d.frames)
      ensures Decode(buf, false) == None
    {
      hide Decode, Drain, Binary, Texts;
      ghost var all := Drain(buf);
      ghost var done: seq<Frame> := [];
      assert [] + all.frames == all.frames;
      assert Binary([]) == [] && Texts([]) == [] by { NoFrames(); }
      while true
        invariant all == Drained(done + Drain(buf).frames, Drain(buf).rest)
        invariant binary == old(binary) + Binary(done) && texts == old(texts) + Texts(done)
        decreases |buf|
      {
        DecodeSmaller(buf);
        DrainStep(buf);
        var frame := Take();
        if frame == None {
          assert done + [] == done;
          break;
        }
        BinaryTextsSnoc(done, frame.value);
        assert done + ([frame.value] + Drain(buf).frames) == done + [frame.value] + Drain(buf).frames;
        done := done + [frame.value];
        if frame.value.opcode == 2 {
          binary := binary + frame.value.payload;
        } else if frame.value.opcode == 1 {
          texts := texts + [frame.value.payload];
        }
      }
    }

    /** Reads until the deadline; timeouts says which reads come back empty-handed. If any read brought
        data, everything buffered or received is decoded as if it had come in one piece. */
    method Pump(timeouts: seq<bool>) returns (ghost got: Bytes)
      modifies this`buf, this`binary, this`texts, sock
      ensures old(sock.incoming) == got + sock.incoming
      ensures var d := Pumped(old(buf), got);
        buf == d.rest && binary == old(binary) + Binary(d.frames) && texts == old(texts) + Texts(d.frames)
      ensures got != [] <==> (exists i :: 0 <= i < |timeouts| && !timeouts[i]) && old(sock.incoming) != []
    {
      hide Decode, Drain;
      got := [];
      ghost var start, stream := buf, sock.incoming;
      ghost var frames: seq<Frame> := [];
      var i := 0;
      while i < |timeouts|
        invariant 0 <= i <= |timeouts|
        invariant stream == got + sock.incoming
        invariant Drained(frames, buf) == Pumped(start, got)
        invariant binary == old(binary) + Binary(frames) && texts == old(texts) + Texts(frames)
        invariant got != [] <==> (exists k :: 0 <= k < i && !timeouts[k]) && stream != []
      {
        var filled; ghost var chunk;
        filled, chunk := Fill(timeouts[i]);
        i := i + 1;
        if filled {
          ghost var d := Drain(buf);
          TakeAll();
          DrainIncremental(start + got, chunk);
          assert start + (got + chunk) == start + got + chunk;
          assert start + [] == start;
          BinaryTextsAppend(frames, d.frames);
          assert [] + d.frames == d.frames;
          assert stream == (got + chunk) + sock.incoming;
          frames, got := frames + d.frames, got + chunk;
        }
      }
    }
  }

  lemma NoFrames()
    ensures Binary([]) == [] && Texts([]) == []
  {
  }

  lemma DrainStep(buf: Bytes)
    ensures match Decode(buf, false)
      case None => Drain(buf) == Drained([], buf)
      case Some(d) => Drain(buf) == Drained([d.frame] + Drain(d.rest).frames, Drain(d.rest).rest)
  {
    hide Decode;
    DecodeSmaller(buf);
  }

  lemma {:induction false} BinaryAppend(a: seq<Frame>, b: seq<Frame>)
    ensures Binary(a + b) == Binary(a) + Binary(b)
  {
    if a == [] {
      assert a + b == b;
    } else {
      assert (a + b)[1..] == a[1..] + b && (a + b)[0] == a[0];
      BinaryAppend(a[1..], b);
    }
  }

  lemma {:induction false} TextsAppend(a: seq<Frame>, b: seq<Frame>)
    ensures Texts(a + b) == Texts(a) + Texts(b)
  {
    if a == [] {
      assert a + b == b;
    } else {
      assert (a + b)[1..] == a[1..] + b && (a + b)[0] == a[0];
      TextsAppend(a[1..], b);
    }
  }

  lemma BinaryTextsAppend(a: seq<Frame>, b: seq<Frame>)
    ensures Binary(a + b) == Binary(a) + Binary(b)
    ensures Texts(a + b) == Texts(a) + Texts(b)
  {
    hide Binary, Texts;
    BinaryAppend(a, b);
    TextsAppend(a, b);
  }

  lemma BinaryTextsSnoc(a: seq<Frame>, f: Frame)
    ensures Binary(a + [f]) == Binary(a) + (if f.opcode == 2 then f.payload else [])
    ensures Texts(a + [f]) == Texts(a) + (if f.opcode == 1 then [f.payload] else [])
  {
    BinaryTextsAppend(a, [f]);
    assert [f][1..] == [];
  }

  /** The test client's start: the HTTP head, a reader on what came with it, and one pump. */
  method OpenAndPump(sock: Socket, timeouts: seq<bool>) returns (reader: Reader, ghost pending: Bytes, ghost got: Bytes)
    modifies sock
    ensures fresh(reader)
    ensures var at := Find(old(sock.incoming), BLANK_LINE);
      && (at >= 0 ==> pending + got + sock.incoming == old(sock.incoming)[at + 4..])
      && (at < 0 ==> pending == got == [])
    ensures var d := Pumped(pending, got);
      reader.buf == d.rest && reader.binary == Binary(d.frames) && reader.texts == Texts(d.frames)
    ensures (forall i :: 0 <= i < |timeouts| ==> timeouts[i]) ==> got == []
  {
    hide Find, Pumped, Binary, Texts;
    var header, initial := ReadHead(sock);
    reader := new Reader(sock, initial);
    pending := initial;
    ghost var left := sock.incoming;
    got := reader.Pump(timeouts);
    assert pending + (got + sock.incoming) == pending + got + sock.incoming;
    ghost var frames := Pumped(pending, got).frames;
    assert [] + Binary(frames) == Binary(frames) && [] + Texts(frames) == Texts(frames);
  }

  /** After a pump everything that is there has been decoded, as the pump is for, if and only if a read
      brought data or what came with the head held no complete frame. */
  lemma PumpDecodesAll(pending: Bytes, got: Bytes)
    ensures Pumped(pending, got) == Drain(pending + got) <==> got != [] || Decode(pending, false) == None
    ensures got == [] ==> Pumped(pending, got) == Drained([], pending)
  {
    hide Decode;
    DrainStep(pending);
    if got == [] {
      assert pending + got == pending;
    }
  }

  /** The failing family is real: a server's frame that comes in one piece with the head. A pump whose reads
      all time out leaves it in the buffer, although it is complete. */
  lemma FrameBehindTheHeadWaits(payload: Bytes)
    requires 0 < |payload| < LENGTH_LIMIT
    ensures var wire := ServerWire(Frame(2, payload));
      var stream := [72] + BLANK_LINE + wire;
      && Find(stream, BLANK_LINE) == 1 && stream[5..] == wire
      && Pumped(wire, []) == Drained([], wire) && Binary(Pumped(wire, []).frames) == []
      && Drain(wire) == Drained([Frame(2, payload)], []) && Binary(Drain(wire).frames) == payload
  {
    hide Find, Decode, ServerWire;
    var frame := Frame(2, payload);
    var wire := ServerWire(frame);
    var stream := [72] + BLANK_LINE + wire;
    assert stream[0 + 0] != BLANK_LINE[0] && !OccursAt(stream, BLANK_LINE, 0);
    FindIs(stream, BLANK_LINE, 1);
    assert wire + [] == wire;
    ServerToClient(frame, [], false);
    DrainStep(wire);
    NoFrames();
    assert Decode([], false) == None by { NothingToDecode(); }
    DrainStep([]);
    BinaryTextsSnoc([], frame);
  }

  lemma NothingToDecode()
    ensures Decode([], false) == None
  {
  }

  /** For every cutting of the server's stream: once a read has brought data, the client has decoded,
      in order, the frames after the blank line that are completely there, and holds a proper
      beginning of the next. */
  lemma {:induction false} ClientSeesWire(head: Bytes, frames: seq<Frame>, pending: Bytes, got: Bytes, later: Bytes)
    requires forall f :: f in frames ==> |f.payload| < LENGTH_LIMIT
    requires Find(head + BLANK_LINE + Wire(frames), BLANK_LINE) == |head|
    requires pending + got + later == (head + BLANK_LINE + Wire(frames))[|head| + 4..]
    ensures var d := Drain(pending + got);
      && |d.frames| <= |frames| && d.frames == frames[..|d.frames|]
      && (|d.frames| < |frames| ==> d.rest < ServerWire(frames[|d.frames|]))
      && (later == [] ==> d == Drained(frames, []))
  {
    hide Find, Drain, Wire, ServerWire;
    assert (head + BLANK_LINE + Wire(frames))[|head| + 4..] == Wire(frames);
    assert pending + got <= Wire(frames);
    DrainBeginning(frames, pending + got);
  }
}
