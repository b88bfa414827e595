/** streams.py: the writer that streams complete lines and keeps the full text. */
module Streams {
  import opened Prelude
  import opened LineEndings

  const PARTIAL_FLUSH_THRESHOLD: nat := 256

  /** The texts converted and emitted so far, the unfinished line, and everything written. */
  datatype Text = Text(pieces: seq<string>, pending: string, written: seq<string>)

  const NOTHING := Text([], "", [])

  /** One past the last line feed, or 0. */
  function AfterLastLf(s: string): (i: nat)
    ensures i <= |s| && '\n' !in s[i..]
    ensures i > 0 ==> s[i - 1] == '\n'
    ensures i == 0 <==> '\n' !in s
  {
    if s == "" then 0
    else if s[|s| - 1] == '\n' then |s|
    else AfterLastLf(s[..|s| - 1])
  }

  function FlushStep(t: Text): Text {
    if t.pending == "" then t else t.(pieces := t.pieces + [t.pending], pending := "")
  }

  function WriteStep(t: Text, text: string): Text {
    if text == "" then t
    else
      var all := t.pending + text;
      var cut := AfterLastLf(all);
      var noted := t.(written := t.written + [text], pending := all);
      if cut > 0 then noted.(pieces := t.pieces + [all[..cut]], pending := all[cut..])
      else if |all| >= PARTIAL_FLUSH_THRESHOLD then FlushStep(noted)
      else noted
  }

  datatype Op = Write(text: string) | Flush

  function Step(t: Text, op: Op): Text {
    match op
    case Write(text) => WriteStep(t, text)
    case Flush => FlushStep(t)
  }

  function Run(t: Text, ops: seq<Op>): Text
    decreases ops
  {
    if ops == [] then t else Run(Step(t, ops[0]), ops[1..])
  }

  /** Nothing is lost or reordered; an unfinished line holds no line feed and is short. */
  ghost predicate Faithful(t: Text) {
    && AllNonEmpty(t.pieces)
    && Flatten(t.written) == Joined(t.pieces) + t.pending
    && '\n' !in t.pending
  }

  /** What one write does, said by the last line feed instead of a search for it. */
  lemma WriteExactly(t: Text, text: string, head: string, tail: string)
    requires text != "" && t.pending + text == head + tail && '\n' !in tail && (head != "" ==> head[|head| - 1] == '\n')
    ensures WriteStep(t, text) == t.(written := t.written + [text],
      pieces := if head != "" then t.pieces + [head] else if |tail| >= 256 then t.pieces + [tail] else t.pieces,
      pending := if head == "" && |tail| >= 256 then "" else tail)
  {
    hide AfterLastLf;
    var all := t.pending + text;
    var cut := AfterLastLf(all);
    LastLfIs(head, tail);
    assert cut == |head| && all[..cut] == head && all[cut..] == tail;
  }

  lemma {:induction false} LastLfIs(head: string, tail: string)
    requires '\n' !in tail && (head != "" ==> head[|head| - 1] == '\n')
    ensures AfterLastLf(head + tail) == |head|
    decreases |tail|
  {
    var all := head + tail;
    if tail == "" {
      assert all == head;
    } else {
      assert all[|all| - 1] == tail[|tail| - 1] && tail[|tail| - 1] in tail;
      assert all[..|all| - 1] == head + tail[..|tail| - 1];
      LastLfIs(head, tail[..|tail| - 1]);
    }
  }

  /** The text ends in a long line that is not finished. */
  ghost predicate LongTail(text: string) {
    exists front, tail :: text == front + "\n" + tail && '\n' !in tail && |tail| >= 256
  }

  /** A write leaves 256 or more characters of an unfinished line behind exactly when it finishes a line and
      begins such a long one itself: the threshold is only looked at when there is no line feed. */
  lemma LongPendingExactly(t: Text, text: string)
    requires '\n' !in t.pending && text != ""
    ensures |WriteStep(t, text).pending| >= 256 <==> LongTail(text)
  {
    hide AfterLastLf;
    var all := t.pending + text;
    var cut := AfterLastLf(all);
    if cut > 0 {
      assert cut > |t.pending|;
      var k := cut - |t.pending|;
      assert text[k - 1] == '\n' && all[cut..] == text[k..];
      assert text == text[..k - 1] + "\n" + text[k..];
      if LongTail(text) {
        LongTailIsPending(t, text);
      }
    } else if LongTail(text) {
      LongTailIsPending(t, text);
    }
  }

  lemma LongTailIsPending(t: Text, text: string)
    requires '\n' !in t.pending && LongTail(text)
    ensures |WriteStep(t, text).pending| >= 256
  {
    var front, tail :| text == front + "\n" + tail && '\n' !in tail && |tail| >= 256;
    var head := t.pending + front + "\n";
    assert t.pending + text == head + tail;
    WriteExactly(t, text, head, tail);
  }

  /** Such a write exists: a line feed and 256 more characters wait for a newline that may never come. */
  lemma LongTailStays()
    ensures var text := "\n" + seq(256, _ => 'x'); |WriteStep(NOTHING, text).pending| == 256
  {
    var tail := seq(256, _ => 'x');
    assert "" + ("\n" + tail) == "\n" + tail;
    WriteExactly(NOTHING, "\n" + tail, "\n", tail);
  }

  /** An explicit flush leaves nothing behind. */
  lemma FlushLeavesNothing(t: Text)
    ensures FlushStep(t).pending == ""
    ensures FlushStep(t).pieces == t.pieces + if t.pending == "" then [] else [t.pending]
  {
    assert t.pieces + [] == t.pieces;
  }

  lemma JoinedSnoc(pieces: seq<string>, piece: string)
    ensures Joined(pieces + [piece]) == Joined(pieces) + piece
    ensures Converted(pieces + [piece]) == Converted(pieces) + ToCrlf(piece)
    ensures forall next :: Tears(pieces + [piece], next) == Tears(pieces, piece) + (if Torn(piece, next) then 1 else 0)
  {
    hide ToCrlf, Torn;
    assert (pieces + [piece])[..|pieces|] == pieces;
  }

  lemma FlushIsFaithful(t: Text)
    requires AllNonEmpty(t.pieces) && Flatten(t.written) == Joined(t.pieces) + t.pending
    ensures Faithful(FlushStep(t)) || ('\n' in t.pending)
    ensures AllNonEmpty(FlushStep(t).pieces) && Flatten(t.written) == Joined(FlushStep(t).pieces) + FlushStep(t).pending
  {
    hide Flatten, Joined;
    if t.pending != "" {
      JoinedSnoc(t.pieces, t.pending);
    }
  }

  lemma WriteIsFaithful(t: Text, text: string)
    requires Faithful(t)
    ensures Faithful(WriteStep(t, text))
  {
    hide Flatten, Joined, AfterLastLf;
    if text != "" {
      var all := t.pending + text;
      var cut := AfterLastLf(all);
      FlattenSnoc(t.written, text);
      assert Joined(t.pieces) + t.pending + text == Joined(t.pieces) + all;
      if cut > 0 {
        JoinedSnoc(t.pieces, all[..cut]);
        assert Joined(t.pieces) + all == Joined(t.pieces) + all[..cut] + all[cut..];
      } else {
        FlushIsFaithful(t.(written := t.written + [text], pending := all));
        assert all[cut..] == all;
      }
    }
  }

  lemma {:induction false} RunIsFaithful(t: Text, ops: seq<Op>)
    requires Faithful(t)
    ensures Faithful(Run(t, ops))
    decreases ops
  {
    hide Faithful, WriteStep, FlushStep;
    if ops != [] {
      match ops[0] {
        case Write(text) => WriteIsFaithful(t, text);
        case Flush => FlushFaithful(t);
      }
      RunIsFaithful(Step(t, ops[0]), ops[1..]);
    }
  }

  lemma FlushFaithful(t: Text)
    requires Faithful(t)
    ensures Faithful(FlushStep(t))
  {
    hide Flatten, Joined;
    FlushIsFaithful(t);
  }

  /** For every sequence of writes and flushes: what was emitted, followed by the converted unfinished
      line, is the one-shot conversion of everything written if and only if no CRLF was torn by a
      flush; every torn one costs an extra CR. */
  lemma StreamingRefinesOneShot(ops: seq<Op>)
    ensures var t := Run(NOTHING, ops);
      && '\n' !in t.pending
      && |Converted(t.pieces) + ToCrlf(t.pending)| == |ToCrlf(Flatten(t.written))| + Tears(t.pieces, t.pending)
      && (Converted(t.pieces) + ToCrlf(t.pending) == ToCrlf(Flatten(t.written)) <==> Tears(t.pieces, t.pending) == 0)
  {
    hide Run, ToCrlf, Tears, Converted, Flatten;
    assert Flatten([]) == "" by { FlattenNothing(); }
    RunIsFaithful(NOTHING, ops);
    var t := Run(NOTHING, ops);
    PiecewiseLength(t.pieces, t.pending);
  }

  lemma FlattenNothing()
    ensures Flatten<char>([]) == ""
  {
  }

  // ---------------------------------------------------------------- when nothing is torn

  /** No flush, explicit or at the threshold, happens while the unfinished line ends in CR. */
  ghost predicate NoFlushAfterCr(t: Text, ops: seq<Op>)
    decreases ops
  {
    if ops == [] then true
    else
      var careful := match ops[0]
        case Flush => !EndsInCr(t.pending)
        case Write(text) => AfterLastLf(t.pending + text) == 0 && |t.pending + text| >= PARTIAL_FLUSH_THRESHOLD ==>
          !EndsInCr(t.pending + text);
      careful && NoFlushAfterCr(Step(t, ops[0]), ops[1..])
  }

  ghost predicate NoCrEnds(pieces: seq<string>) {
    forall p :: p in pieces ==> !EndsInCr(p)
  }

  lemma {:induction false} NoCrEndsNoTears(pieces: seq<string>, next: string)
    requires NoCrEnds(pieces)
    ensures Tears(pieces, next) == 0
    decreases |pieces|
  {
    if pieces != [] {
      assert pieces[|pieces| - 1] in pieces;
      NoCrEndsNoTears(pieces[..|pieces| - 1], pieces[|pieces| - 1]);
    }
  }

  lemma {:induction false} CarefulRun(t: Text, ops: seq<Op>)
    requires NoCrEnds(t.pieces) && NoFlushAfterCr(t, ops)
    ensures NoCrEnds(Run(t, ops).pieces)
    decreases ops
  {
    hide AfterLastLf;
    if ops != [] {
      if ops[0].Write? {
        LineEnd(t.pending + ops[0].text);
      }
      CarefulRun(Step(t, ops[0]), ops[1..]);
    }
  }

  lemma LineEnd(s: string)
    ensures AfterLastLf(s) > 0 ==> !EndsInCr(s[..AfterLastLf(s)])
  {
  }

  /** Without such flushes streaming is exact. */
  lemma CarefulStreamingIsExact(ops: seq<Op>)
    requires NoFlushAfterCr(NOTHING, ops)
    ensures var t := Run(NOTHING, ops); Converted(t.pieces) + ToCrlf(t.pending) == ToCrlf(Flatten(t.written))
  {
    hide Run, ToCrlf, Tears, Converted, Flatten, NoFlushAfterCr;
    CarefulRun(NOTHING, ops);
    var t := Run(NOTHING, ops);
    NoCrEndsNoTears(t.pieces, t.pending);
    StreamingRefinesOneShot(ops);
  }

  /** The failing family is real: a flush between CR and LF. */
  lemma FlushBetweenCrAndLf()
    ensures var t := Run(NOTHING, [Write("\r"), Flush, Write("\n")]);
      Converted(t.pieces) + ToCrlf(t.pending) != ToCrlf(Flatten(t.written))
  {
    hide ToCrlf, Converted, Flatten, AfterLastLf, Run;
    var ops := [Write("\r"), Flush, Write("\n")];
    assert AfterLastLf("\r") == 0 && AfterLastLf("\n") == 1 by { CutsOfSingles(); }
    var t1 := Step(NOTHING, ops[0]);
    assert "" + "\r" == "\r" && "" + "\n" == "\n";
    assert t1 == Text([], "\r", ["\r"]) by { assert [] + ["\r"] == ["\r"]; }
    var t2 := Step(t1, ops[1]);
    assert t2 == Text(["\r"], "", ["\r"]) by { assert [] + ["\r"] == ["\r"]; }
    var t3 := Step(t2, ops[2]);
    assert t3.pieces == ["\r"] + ["\n"] && t3.pending == "" by { assert "\n"[..1] == "\n" && "\n"[1..] == ""; }
    RunOfThree(NOTHING, ops[0], ops[1], ops[2]);
    JoinedSnoc(["\r"], "\n");
    assert Torn("\r", "\n");
    assert Tears(["\r"], "\n") == 1;
    StreamingRefinesOneShot(ops);
  }

  lemma CutsOfSingles()
    ensures AfterLastLf("\r") == 0 && AfterLastLf("\n") == 1
  {
    assert "\r"[..0] == "";
  }

  lemma RunOfThree(t: Text, a: Op, b: Op, c: Op)
    ensures Run(t, [a, b, c]) == Step(Step(Step(t, a), b), c)
  {
    hide Step;
    var u, v := Step(t, a), Step(Step(t, a), b);
    assert [a, b, c][1..] == [b, c];
    assert [b, c][1..] == [c];
    assert [c][1..] == [];
    assert Run(Step(v, c), []) == Step(v, c);
    assert Run(v, [c]) == Step(v, c);
    assert Run(u, [b, c]) == Run(v, [c]);
  }

  // ---------------------------------------------------------------- the writer

  class StreamingWriter {
    var pending: string
    var bufferText: seq<string>
    /** Everything handed to emit, in order. */
    var emitted: string
    ghost var pieces: seq<string>

    ghost function Contents(): Text
      reads this
    {
      Text(pieces, pending, bufferText)
    }

    ghost predicate Valid()
      reads this
    {
      emitted == Converted(pieces) && Faithful(Contents())
    }

    constructor ()
      ensures Valid() && Contents() == NOTHING
    {
      pending, bufferText, emitted, pieces := "", [], "", [];
    }

    method Write(text: string) returns (n: nat)
      requires Valid()
      modifies this
      ensures Valid() && Contents() == WriteStep(old(Contents()), text)
      ensures n == |text|
      ensures old(emitted) <= emitted
    {
      hide ToCrlf, Flatten, Joined, Converted, AfterLastLf;
      n := |text|;
      if text == "" {
        return;
      }
      ghost var before := Contents();
      WriteIsFaithful(before, text);
      bufferText := bufferText + [text];
      pending := pending + text;
      if '\n' in pending {
        var cut := AfterLastLf(pending);
        var head := pending[..cut];
        pending := pending[cut..];
        emitted := emitted + ToCrlf(head);
        JoinedSnoc(pieces, head);
        pieces := pieces + [head];
      } else if |pending| >= PARTIAL_FLUSH_THRESHOLD {
        Flush();
      }
      assert Contents() == WriteStep(before, text);
    }

    method Flush()
      requires emitted == Converted(pieces)
      modifies this`pending, this`emitted, this`pieces
      ensures emitted == Converted(pieces) && Contents() == FlushStep(old(Contents()))
      ensures old(Valid()) ==> Valid()
      ensures old(emitted) <= emitted
    {
      hide ToCrlf, Flatten, Joined, Converted;
      if Valid() {
        FlushFaithful(Contents());
      }
      if pending != "" {
        emitted := emitted + ToCrlf(pending);
        JoinedSnoc(pieces, pending);
        pieces := pieces + [pending];
        pending := "";
      }
    }

    /** Everything written, exactly as written. */
    method GetValue() returns (text: string)
      ensures text == Flatten(bufferText)
      ensures Valid() ==> text == Joined(pieces) + pending
    {
      hide ToCrlf, Joined, Converted;
      text := Flatten(bufferText);
    }
  }
}
