/** The private OSC control of pty_session.py and its removal from a chunked stream. */
module ControlFilter {
  import opened Prelude
  import opened Search

  /** ESC ] 777 ; zmux-setup-storage BEL */
  const STORAGE_SETUP_OSC: Bytes :=
    [0x1b, 0x5d, 0x37, 0x37, 0x37, 0x3b,
     0x7a, 0x6d, 0x75, 0x78, 0x2d, 0x73, 0x65, 0x74, 0x75, 0x70, 0x2d,
     0x73, 0x74, 0x6f, 0x72, 0x61, 0x67, 0x65, 0x07]

  /** The control as text. */
  lemma ControlAsText()
    ensures |STORAGE_SETUP_OSC| == 25 && STORAGE_SETUP_OSC[0] == 27 && STORAGE_SETUP_OSC[24] == 7
    ensures forall i :: 0 <= i < 23 ==> STORAGE_SETUP_OSC[i + 1] == "]777;zmux-setup-storage"[i] as int
  {
  }

  /** A suffix of data, of the given length, is a proper prefix of the control. */
  predicate MayStart(data: Bytes, control: Bytes, size: nat) {
    size < |control| && size <= |data| && data[|data| - size..] == control[..size]
  }

  /** Length of the longest suffix of data that is a proper prefix of the control. */
  function HeldLength(data: Bytes, control: Bytes): (k: nat)
    requires |control| > 0
    ensures MayStart(data, control, k)
    ensures forall size :: k < size ==> !MayStart(data, control, size)
  {
    LongestUpTo(data, control, if |data| < |control| then |data| else |control| - 1)
  }

  function LongestUpTo(data: Bytes, control: Bytes, size: nat): (k: nat)
    requires |control| > 0 && size < |control| && size <= |data|
    requires forall larger :: size < larger ==> !MayStart(data, control, larger)
    ensures MayStart(data, control, k)
    ensures forall larger :: k < larger ==> !MayStart(data, control, larger)
  {
    if MayStart(data, control, size) then size else LongestUpTo(data, control, size - 1)
  }

  datatype Filtered = Filtered(out: Bytes, tail: Bytes, controls: nat)

  /** What one call of the filter makes of the held tail followed by the new chunk. */
  function FilterPending(pending: Bytes, control: Bytes): (f: Filtered)
    requires |control| > 0
    ensures |f.tail| < |control| && f.tail == control[..|f.tail|]
  {
    var at := Find(pending, control);
    if at >= 0 then
      var rest := FilterPending(pending[at + |control|..], control);
      Filtered(pending[..at] + rest.out, rest.tail, rest.controls + 1)
    else
      var cut := |pending| - HeldLength(pending, control);
      Filtered(pending[..cut], pending[cut..], 0)
  }

  /** An occurrence in s + b that begins in s and ends in b shows a suffix of s that may start one. */
  lemma StartIsHeld(s: Bytes, b: Bytes, control: Bytes, j: nat)
    requires j < |s| && |s| < j + |control|
    ensures OccursAt(s + b, control, j) ==> MayStart(s, control, |s| - j)
  {
    if OccursAt(s + b, control, j) {
      forall k | 0 <= k < |s| - j ensures s[j..][k] == control[..|s| - j][k] {
        assert (s + b)[j + k] == control[k];
      }
    }
  }

  /** Without an occurrence in s, no occurrence in s + b starts before the held suffix. */
  lemma NothingStartsEarly(s: Bytes, b: Bytes, control: Bytes)
    requires |control| > 0 && Find(s, control) < 0
    ensures NoneBefore(s + b, control, |s| - HeldLength(s, control))
  {
    hide OccursAt, MayStart, Find;
    FindIsLeftmost(s, control);
    forall j | 0 <= j < |s| - HeldLength(s, control)
      ensures !OccursAt(s + b, control, j)
    {
      if j + |control| <= |s| {
        OccursPrefix(s, b, control, j);
      } else {
        StartIsHeld(s, b, control, j);
      }
    }
  }

  /** One filter call loses nothing: whatever follows, output and tail stand for the input. */
  lemma {:induction false} FilterPendingStandsFor(pending: Bytes, b: Bytes, control: Bytes)
    requires |control| > 0
    ensures var f := FilterPending(pending, control);
      && f.out + Replace(f.tail + b, control, []) == Replace(pending + b, control, [])
      && f.controls + Count(f.tail + b, control) == Count(pending + b, control)
  {
    hide Find, HeldLength, OccursAt, Replace, Count;
    var at := Find(pending, control);
    if at >= 0 {
      ReplaceStable(pending, b, control, []);
      FilterPendingStandsFor(pending[at + |control|..], b, control);
    } else {
      var cut := |pending| - HeldLength(pending, control);
      assert pending + b == pending[..cut] + (pending[cut..] + b);
      NothingStartsEarly(pending, b, control);
      SkipPrefix(pending[..cut], pending[cut..] + b, control, []);
    }
  }

  /** The filter applied to one chunk after another, carrying the tail. */
  function FilterChunks(tail: Bytes, chunks: seq<Bytes>, control: Bytes): (f: Filtered)
    requires |control| > 0
    requires |tail| < |control| && tail == control[..|tail|]
    ensures |f.tail| < |control| && f.tail == control[..|f.tail|]
    decreases chunks
  {
    if chunks == [] then Filtered([], tail, 0)
    else
      var first := FilterPending(tail + chunks[0], control);
      var rest := FilterChunks(first.tail, chunks[1..], control);
      Filtered(first.out + rest.out, rest.tail, first.controls + rest.controls)
  }

  lemma {:induction false} FilterChunksStandFor(tail: Bytes, chunks: seq<Bytes>, b: Bytes, control: Bytes)
    requires |control| > 0
    requires |tail| < |control| && tail == control[..|tail|]
    ensures var f := FilterChunks(tail, chunks, control);
      && f.out + Replace(f.tail + b, control, []) == Replace(tail + Flatten(chunks) + b, control, [])
      && f.controls + Count(f.tail + b, control) == Count(tail + Flatten(chunks) + b, control)
    decreases chunks
  {
    hide Find, HeldLength, FilterPending, Replace, Count;
    if chunks == [] {
      assert tail + Flatten(chunks) + b == tail + b;
    } else {
      var first := FilterPending(tail + chunks[0], control);
      var later := Flatten(chunks[1..]) + b;
      FilterChunksStandFor(first.tail, chunks[1..], b, control);
      FilterPendingStandsFor(tail + chunks[0], later, control);
      assert first.tail + Flatten(chunks[1..]) + b == first.tail + later;
      assert tail + Flatten(chunks) + b == tail + chunks[0] + later;
    }
  }

  lemma ShortHasNoOccurrence(s: Bytes, control: Bytes)
    requires |s| < |control|
    ensures Find(s, control) == -1 && Replace(s, control, []) == s && Count(s, control) == 0
  {
  }

  /** For every cutting of the stream into chunks, the outputs followed by the held tail are the
      stream without its leftmost non-overlapping controls, and the count is their number. */
  lemma {:induction false} ChunkingIsInvisible(chunks: seq<Bytes>)
    ensures var f := FilterChunks([], chunks, STORAGE_SETUP_OSC);
      && f.out + f.tail == Replace(Flatten(chunks), STORAGE_SETUP_OSC, [])
      && f.controls == Count(Flatten(chunks), STORAGE_SETUP_OSC)
      && |f.tail| < |STORAGE_SETUP_OSC| && f.tail == STORAGE_SETUP_OSC[..|f.tail|]
      && |f.out| + |f.tail| + |STORAGE_SETUP_OSC| * f.controls == |Flatten(chunks)|
  {
    var f := FilterChunks([], chunks, STORAGE_SETUP_OSC);
    FilterChunksStandFor([], chunks, [], STORAGE_SETUP_OSC);
    assert f.tail + [] == f.tail;
    assert [] + Flatten(chunks) + [] == Flatten(chunks);
    ShortHasNoOccurrence(f.tail, STORAGE_SETUP_OSC);
    DeleteLength(Flatten(chunks), STORAGE_SETUP_OSC);
  }

  lemma DeleteWhole(control: Bytes)
    requires |control| > 0
    ensures Replace(control, control, []) == []
  {
    FindIs(control, control, 0);
  }

  /** What was sent is never taken back, and nothing could have been sent earlier: it is the longest
      sequence that begins the filtered form of every continuation of the stream. */
  lemma {:induction false} OutputIsAsEagerAsPossible(chunks: seq<Bytes>)
    ensures var out := FilterChunks([], chunks, STORAGE_SETUP_OSC).out;
      && (forall b :: out <= Replace(Flatten(chunks) + b, STORAGE_SETUP_OSC, []))
      && (exists b :: out == Replace(Flatten(chunks) + b, STORAGE_SETUP_OSC, []))
  {
    hide Find, HeldLength, FilterPending, FilterChunks, Replace, Count;
    var f := FilterChunks([], chunks, STORAGE_SETUP_OSC);
    forall b ensures f.out <= Replace(Flatten(chunks) + b, STORAGE_SETUP_OSC, []) {
      FilterChunksStandFor([], chunks, b, STORAGE_SETUP_OSC);
      assert [] + Flatten(chunks) + b == Flatten(chunks) + b;
    }
    var b := STORAGE_SETUP_OSC[|f.tail|..];
    FilterChunksStandFor([], chunks, b, STORAGE_SETUP_OSC);
    assert [] + Flatten(chunks) + b == Flatten(chunks) + b;
    assert f.tail + b == STORAGE_SETUP_OSC;
    DeleteWhole(STORAGE_SETUP_OSC);
    assert f.out == Replace(Flatten(chunks) + b, STORAGE_SETUP_OSC, []);
  }
}
