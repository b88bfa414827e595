/** The output half of pty_session.py: control filter, bounded scrollback, geometry. */
module PtyOutput {
  import opened Prelude
  import Search
  import opened ControlFilter

  /** 1 MiB of scrollback per session. */
  const SCROLLBACK_MAX: nat := 0x10_0000

  /** The value of a session as the manager sees it. */
  datatype View = View(tail: Bytes, scrollback: Bytes, cols: int, rows: int)

  ghost predicate ViewOk(v: View) {
    && |v.tail| < |STORAGE_SETUP_OSC| && v.tail == STORAGE_SETUP_OSC[..|v.tail|]
    && |v.scrollback| <= SCROLLBACK_MAX
  }

  const NEW_VIEW := View([], [], 80, 24)

  /** The bytes a session passes on when data arrives. */
  function Passed(v: View, data: Bytes): Bytes {
    FilterPending(v.tail + data, STORAGE_SETUP_OSC).out
  }

  function EmitView(v: View, data: Bytes): View {
    v.(tail := FilterPending(v.tail + data, STORAGE_SETUP_OSC).tail,
       scrollback := LastN(v.scrollback + Passed(v, data), SCROLLBACK_MAX))
  }

  function ResizeView(v: View, cols: int, rows: int): View {
    v.(cols := if cols > 0 then cols else v.cols, rows := if rows > 0 then rows else v.rows)
  }

  function EmitChunks(v: View, chunks: seq<Bytes>): View
    decreases chunks
  {
    if chunks == [] then v else EmitChunks(EmitView(v, chunks[0]), chunks[1..])
  }

  lemma EmitViewOk(v: View, data: Bytes)
    requires ViewOk(v)
    ensures ViewOk(EmitView(v, data))
  {
    hide FilterPending;
  }

  /** However the stream is cut, the scrollback is the last MiB of the stream without its controls
      and without the held tail. */
  lemma {:induction false} ScrollbackIsLastOfStream(v: View, chunks: seq<Bytes>)
    requires ViewOk(v)
    ensures var f := FilterChunks(v.tail, chunks, STORAGE_SETUP_OSC);
      EmitChunks(v, chunks) ==
        v.(tail := f.tail, scrollback := LastN(v.scrollback + f.out, SCROLLBACK_MAX))
    decreases chunks
  {
    hide FilterPending, LastN;
    if chunks == [] {
      assert v.scrollback + [] == v.scrollback;
      WholeIsLast(v.scrollback, SCROLLBACK_MAX);
    } else {
      var first := EmitView(v, chunks[0]);
      EmitViewOk(v, chunks[0]);
      ScrollbackIsLastOfStream(first, chunks[1..]);
      var out := FilterPending(v.tail + chunks[0], STORAGE_SETUP_OSC).out;
      var rest := FilterChunks(first.tail, chunks[1..], STORAGE_SETUP_OSC);
      LastNIncremental(v.scrollback + out, rest.out, SCROLLBACK_MAX);
      assert v.scrollback + out + rest.out == v.scrollback + (out + rest.out);
    }
  }

  lemma WholeIsLast(s: Bytes, n: nat)
    requires |s| <= n
    ensures LastN(s, n) == s
  {
  }

  /** For a fresh session: what get_scrollback returns after any chunked stream. */
  lemma {:induction false} ScrollbackOfFreshSession(chunks: seq<Bytes>)
    ensures var v := EmitChunks(NEW_VIEW, chunks);
      var clean := Search.Replace(Flatten(chunks), STORAGE_SETUP_OSC, []);
      && |v.tail| <= |clean|
      && v.scrollback == LastN(clean[..|clean| - |v.tail|], SCROLLBACK_MAX)
      && clean[|clean| - |v.tail|..] == v.tail
  {
    hide FilterPending, FilterChunks, EmitChunks, Search.Replace, LastN, Search.Find;
    var f := FilterChunks([], chunks, STORAGE_SETUP_OSC);
    ScrollbackIsLastOfStream(NEW_VIEW, chunks);
    ChunkingIsInvisible(chunks);
    var clean := Search.Replace(Flatten(chunks), STORAGE_SETUP_OSC, []);
    assert clean == f.out + f.tail;
    assert clean[..|clean| - |f.tail|] == f.out;
    assert [] + f.out == f.out;
  }

  /** ESC [2J and ESC [H */
  const CLEAR_SCREEN: Bytes := [0x1b, 0x5b, 0x32, 0x4a]
  const CURSOR_HOME: Bytes := [0x1b, 0x5b, 0x48]

  predicate EndsIn(data: Bytes, suffix: Bytes) {
    |suffix| <= |data| && data[|data| - |suffix|..] == suffix
  }

  /** Whether the cursor stands at the start of a line after some output: behind a line feed or a cleared
      screen, and still there behind a carriage return. */
  predicate LineStart(out: Bytes, was: bool) {
    Search.Find(out, CLEAR_SCREEN) >= 0 || EndsIn(out, CURSOR_HOME) || EndsIn(out, [10]) ||
    (was && (out == [] || EndsIn(out, [13])))
  }

  /** What the last output says about the cursor, case by case. */
  lemma LineStartExactly(front: Bytes, last: Byte, was: bool)
    ensures LineStart([], was) == was
    ensures last == 10 ==> LineStart(front + [last], was)
    ensures LineStart(front + [27, 91, 72], was)
    ensures forall back: Bytes :: LineStart(front + [27, 91, 50, 74] + back, was)
    ensures var out := front + [last];
      last != 10 && !EndsIn(out, [27, 91, 72]) && Search.Find(out, [27, 91, 50, 74]) < 0 ==>
        LineStart(out, was) == (last == 13 && was)
  {
    hide Search.Find;
    FindNothing();
    assert (front + [27, 91, 72])[|front|..] == [27, 91, 72];
    forall back: Bytes ensures LineStart(front + [27, 91, 50, 74] + back, was) {
      ClearedSomewhere(front, back);
    }
  }

  lemma FindNothing()
    ensures Search.Find([], CLEAR_SCREEN) < 0
  {
  }

  lemma ClearedSomewhere(front: Bytes, back: Bytes)
    ensures Search.Find(front + CLEAR_SCREEN + back, CLEAR_SCREEN) >= 0
  {
    var all := front + CLEAR_SCREEN + back;
    forall k | 0 <= k < 4 ensures all[|front| + k] == CLEAR_SCREEN[k] {
    }
    assert Search.OccursAt(all, CLEAR_SCREEN, |front|);
    Search.FindIsLeftmost(all, CLEAR_SCREEN);
  }

  /** Geometry: each positive value is taken over, the other values and the rest of the session stay. */
  lemma ResizeViewExactly(v: View, cols: int, rows: int)
    ensures cols > 0 && rows > 0 ==> ResizeView(v, cols, rows) == View(v.tail, v.scrollback, cols, rows)
    ensures cols > 0 && rows <= 0 ==> ResizeView(v, cols, rows) == View(v.tail, v.scrollback, cols, v.rows)
    ensures cols <= 0 && rows > 0 ==> ResizeView(v, cols, rows) == View(v.tail, v.scrollback, v.cols, rows)
    ensures cols <= 0 && rows <= 0 ==> ResizeView(v, cols, rows) == v
  {
  }

  class PtySession {
    /** The id its emit callback was built for. */
    const id: nat
    var controlTail: Bytes
    var scrollback: Bytes
    var cols: int
    var rows: int
    var atLineStart: bool

    ghost function State(): View
      reads this
    {
      View(controlTail, scrollback, cols, rows)
    }

    constructor (id: nat)
      ensures this.id == id && State() == NEW_VIEW && atLineStart
    {
      this.id := id;
      controlTail, scrollback, cols, rows, atLineStart := [], [], 80, 24, true;
    }

    method GetScrollback() returns (data: Bytes)
      ensures data == scrollback
    {
      data := scrollback;
    }

    /** How many trailing bytes have to be held back. */
    static method PossibleControlPrefix(data: Bytes) returns (size: nat)
      ensures size == HeldLength(data, STORAGE_SETUP_OSC)
    {
      size := if |data| < |STORAGE_SETUP_OSC| - 1 then |data| else |STORAGE_SETUP_OSC| - 1;
      while size > 0
        invariant size < |STORAGE_SETUP_OSC| && size <= |data|
        invariant forall larger :: size < larger ==> !MayStart(data, STORAGE_SETUP_OSC, larger)
      {
        if data[|data| - size..] == STORAGE_SETUP_OSC[..size] {
          break;
        }
        size := size - 1;
      }
      assert MayStart(data, STORAGE_SETUP_OSC, size);
    }

    method FilterPtyControls(data: Bytes) returns (out: Bytes, controls: nat)
      requires ViewOk(State())
      modifies this`controlTail
      ensures var f := FilterPending(old(controlTail) + data, STORAGE_SETUP_OSC);
        out == f.out && controls == f.controls && controlTail == f.tail
    {
      hide HeldLength, Search.Find;
      var pending := controlTail + data;
      ghost var all := FilterPending(pending, STORAGE_SETUP_OSC);
      controlTail := [];
      out, controls := [], 0;
      while pending != []
        invariant controlTail == []
        invariant var rest := FilterPending(pending, STORAGE_SETUP_OSC);
          all == Filtered(out + rest.out, rest.tail, controls + rest.controls)
        decreases |pending|
      {
        var at := Search.Find(pending, STORAGE_SETUP_OSC);
        if at >= 0 {
          out := out + pending[..at];
          pending := pending[at + |STORAGE_SETUP_OSC|..];
          controls := controls + 1;
        } else {
          var keep := PossibleControlPrefix(pending);
          if keep > 0 {
            out := out + pending[..|pending| - keep];
            controlTail := pending[|pending| - keep..];
          } else {
            out := out + pending;
          }
          return;
        }
      }
    }

    /** Filters data, records what passes, and hands it to the caller for the websocket, with one storage
        request per removed control; keeps track of whether the cursor stands at the start of a line. */
    method Emit(data: Bytes) returns (passed: Bytes, requests: nat)
      requires ViewOk(State())
      modifies this`controlTail, this`scrollback, this`atLineStart
      ensures passed == Passed(old(State()), data)
      ensures requests == FilterPending(old(controlTail) + data, STORAGE_SETUP_OSC).controls
      ensures State() == EmitView(old(State()), data) && ViewOk(State())
      ensures atLineStart == LineStart(passed, old(atLineStart))
    {
      hide FilterPending, Search.Find;
      passed, requests := FilterPtyControls(data);
      if passed == [] {
        return;
      }
      if Search.Find(passed, CLEAR_SCREEN) >= 0 || EndsIn(passed, CURSOR_HOME) {
        atLineStart := true;
      } else if passed[|passed| - 1] == 10 {
        atLineStart := true;
      } else if passed[|passed| - 1] != 13 {
        atLineStart := false;
      }
      scrollback := scrollback + passed;
      if |scrollback| > SCROLLBACK_MAX {
        scrollback := scrollback[|scrollback| - SCROLLBACK_MAX..];
      }
    }

    method Resize(cols: int, rows: int)
      modifies this`cols, this`rows
      ensures State() == ResizeView(old(State()), cols, rows)
    {
      if cols > 0 {
        this.cols := cols;
      }
      if rows > 0 {
        this.rows := rows;
      }
    }
  }
}
