/** Line history of pty_session.py: recall with Up and Down, recording of submitted lines. */
module History {
  import opened Prelude

  const HISTORY_LIMIT: nat := 500

  datatype Editor = Editor(line: string, history: seq<string>, index: Option<nat>, stash: string, busy: bool)

  const EMPTY := Editor("", [], None, "", false)

  datatype Direction = Up | Down

  /** One arrow key. */
  function Arrow(e: Editor, d: Direction): Editor {
    if e.busy || e.history == [] || (e.index == None && d == Down) then e
    else
      var started := if e.index == None then e.(stash := e.line, index := Some(|e.history|)) else e;
      var at := started.index.value + (if d == Up then -1 else 1);
      if at >= |e.history| then started.(index := None, line := started.stash)
      else
        var shown := if at < 0 then 0 else at;
        started.(index := Some(shown), line := e.history[shown])
  }

  function Arrows(e: Editor, d: Direction, k: nat): Editor {
    if k == 0 then e else Arrow(Arrows(e, d, k - 1), d)
  }

  function Record(e: Editor, line: string): Editor {
    e.(index := None,
       history := if line != "" && (e.history == [] || e.history[|e.history| - 1] != line)
                  then LastN(e.history + [line], HISTORY_LIMIT) else e.history)
  }

  datatype Op = Key(d: Direction) | Submit(line: string) | Edit(line: string) | SetBusy(busy: bool)

  function Step(e: Editor, op: Op): Editor {
    match op
    case Key(d) => Arrow(e, d)
    case Submit(line) => Record(e, line)
    case Edit(line) => e.(line := line)
    case SetBusy(busy) => e.(busy := busy)
  }

  function Run(e: Editor, ops: seq<Op>): Editor
    decreases ops
  {
    if ops == [] then e else Run(Step(e, ops[0]), ops[1..])
  }

  ghost predicate Sound(e: Editor) {
    && |e.history| <= HISTORY_LIMIT
    && Varied(e.history)
    && (e.index.Some? ==> e.index.value < |e.history|)
  }

  /** No empty line and no two equal neighbours. */
  ghost predicate Varied(h: seq<string>) {
    && (forall i :: 0 <= i < |h| ==> h[i] != "")
    && (forall i :: 0 < i < |h| ==> h[i - 1] != h[i])
  }

  lemma VariedSnoc(h: seq<string>, line: string)
    requires Varied(h) && line != "" && (h == [] || h[|h| - 1] != line)
    ensures Varied(h + [line])
  {
    forall i | 0 < i < |h| + 1 ensures (h + [line])[i - 1] != (h + [line])[i] {
      if i < |h| {
        assert h[i - 1] != h[i];
      }
    }
  }

  lemma VariedSuffix(h: seq<string>, cut: nat)
    requires Varied(h) && cut <= |h|
    ensures Varied(h[cut..])
  {
    forall i | 0 < i < |h| - cut ensures h[cut..][i - 1] != h[cut..][i] {
      assert h[cut + i - 1] != h[cut + i];
    }
  }

  lemma RecordKeepsSound(e: Editor, line: string)
    requires Sound(e)
    ensures Sound(Record(e, line))
  {
    hide Varied;
    var h := e.history;
    if line != "" && (h == [] || h[|h| - 1] != line) {
      VariedSnoc(h, line);
      var longer := h + [line];
      VariedSuffix(longer, if |longer| <= HISTORY_LIMIT then 0 else |longer| - HISTORY_LIMIT);
      assert longer[0..] == longer;
    }
  }

  /** Over every run: at most 500 lines, none empty, no two equal neighbours, a valid index. */
  lemma {:induction false} RunKeepsSound(e: Editor, ops: seq<Op>)
    requires Sound(e)
    ensures Sound(Run(e, ops))
    decreases ops
  {
    hide Record;
    if ops != [] {
      if ops[0].Submit? {
        RecordKeepsSound(e, ops[0].line);
      }
      RunKeepsSound(Step(e, ops[0]), ops[1..]);
    }
  }

  /** The lines a run submits. */
  function SubmittedBy(ops: seq<Op>): seq<string> {
    if ops == [] then [] else (if ops[0].Submit? then [ops[0].line] else []) + SubmittedBy(ops[1..])
  }

  /** Lines behind others that were kept: blank ones and repetitions of their predecessor left out. */
  function Squeezed(kept: seq<string>, lines: seq<string>): seq<string>
    decreases lines
  {
    if lines == [] then kept
    else if lines[0] == "" || (kept != [] && kept[|kept| - 1] == lines[0]) then Squeezed(kept, lines[1..])
    else Squeezed(kept + [lines[0]], lines[1..])
  }

  lemma LastOfLast(kept: seq<string>)
    ensures LastN(kept, HISTORY_LIMIT) == [] <==> kept == []
    ensures kept != [] ==> var last := LastN(kept, HISTORY_LIMIT); last[|last| - 1] == kept[|kept| - 1]
  {
  }

  /** The history of a run: the last 500 of the submitted lines, without blank ones and without
      repetitions of the line before. */
  lemma {:induction false} RunKeepsLastLines(e: Editor, kept: seq<string>, ops: seq<Op>)
    requires e.history == LastN(kept, 500)
    ensures Run(e, ops).history == LastN(Squeezed(kept, SubmittedBy(ops)), 500)
    decreases ops
  {
    hide LastN, Record, Arrow, Squeezed;
    SqueezeNothing(kept);
    if ops != [] {
      var t := Step(e, ops[0]);
      var rest := SubmittedBy(ops[1..]);
      if ops[0].Submit? {
        var line := ops[0].line;
        var more := if line == "" || (kept != [] && kept[|kept| - 1] == line) then kept else kept + [line];
        RecordKeepsLast(e, kept, line);
        SqueezeOne(kept, line, rest);
        RunKeepsLastLines(t, more, ops[1..]);
      } else {
        assert [] + rest == rest;
        OthersKeepHistory(e, ops[0]);
        RunKeepsLastLines(t, kept, ops[1..]);
      }
    }
  }

  lemma SqueezeNothing(kept: seq<string>)
    ensures Squeezed(kept, []) == kept
  {
  }

  lemma SqueezeOne(kept: seq<string>, line: string, rest: seq<string>)
    ensures Squeezed(kept, [line] + rest) ==
      Squeezed(if line == "" || (kept != [] && kept[|kept| - 1] == line) then kept else kept + [line], rest)
  {
    assert ([line] + rest)[1..] == rest;
  }

  lemma RecordKeepsLast(e: Editor, kept: seq<string>, line: string)
    requires e.history == LastN(kept, 500)
    ensures Record(e, line).history ==
      LastN(if line == "" || (kept != [] && kept[|kept| - 1] == line) then kept else kept + [line], 500)
  {
    hide LastN;
    LastOfLast(kept);
    LastNIncremental(kept, [line], 500);
  }

  lemma OthersKeepHistory(e: Editor, op: Op)
    requires !op.Submit?
    ensures Step(e, op).history == e.history
  {
  }

  /** Down on a line that is being typed does nothing. */
  lemma DownOnTypedLine(e: Editor)
    ensures e.index == None ==> Arrow(e, Down) == e
  {
  }

  /** A submitted line is the first one Up recalls, repeated or not. */
  lemma SubmittedLineIsRecalled(e: Editor, line: string)
    requires line != "" && !e.busy
    ensures Arrow(Record(e, line), Up).line == line
  {
    var longer := e.history + [line];
    assert longer[|longer| - 1] == line;
  }

  function Least(i: int): nat {
    if i < 0 then 0 else i
  }

  /** k times Up from a typed line. */
  lemma {:induction false} UpFromLine(e: Editor, k: nat)
    requires e.index == None && e.history != [] && !e.busy && k > 0
    ensures var i := Least(|e.history| - k);
      Arrows(e, Up, k) == e.(index := Some(i), line := e.history[i], stash := e.line)
  {
    if k > 1 {
      UpFromLine(e, k - 1);
    }
  }

  /** k times Up while browsing. */
  lemma {:induction false} UpFromIndex(e: Editor, k: nat)
    requires e.index.Some? && e.index.value < |e.history| && !e.busy && k > 0
    ensures var i := Least(e.index.value - k);
      Arrows(e, Up, k) == e.(index := Some(i), line := e.history[i])
  {
    if k > 1 {
      UpFromIndex(e, k - 1);
    }
  }

  /** k times Down while browsing: past the newest line the typed one comes back, and stays. */
  lemma {:induction false} DownFromIndex(e: Editor, k: nat)
    requires e.index.Some? && e.index.value < |e.history| && !e.busy && k > 0
    ensures var i := e.index.value + k;
      Arrows(e, Down, k) == if i < |e.history| then e.(index := Some(i), line := e.history[i])
                            else e.(index := None, line := e.stash)
  {
    if k > 1 {
      DownFromIndex(e, k - 1);
    }
  }

  /** k times Up and k times Down restore the typed line, for every k, also beyond the oldest entry. */
  lemma UpThenDownRestores(e: Editor, k: nat)
    requires e.index == None
    ensures Arrows(Arrows(e, Up, k), Down, k).line == e.line
    ensures Arrows(Arrows(e, Up, k), Down, k).index == None
    ensures Arrows(Arrows(e, Up, k), Down, k).history == e.history
  {
    if k > 0 && e.history != [] && !e.busy {
      UpFromLine(e, k);
      DownFromIndex(Arrows(e, Up, k), k);
    } else if k > 0 {
      Stuck(e, Up, k);
      Stuck(e, Down, k);
    }
  }

  lemma {:induction false} Stuck(e: Editor, d: Direction, k: nat)
    requires e.busy || e.history == []
    ensures Arrows(e, d, k) == e
  {
    if k > 0 {
      Stuck(e, d, k - 1);
    }
  }

  /** From inside the history the same keys end at entry max(i, k), or at the typed line if there is
      no such entry: the start is found again exactly when k does not pass the oldest entry. */
  lemma UpThenDownWhileBrowsing(e: Editor, k: nat)
    requires e.index.Some? && e.index.value < |e.history| && !e.busy && k > 0
    ensures var end := if k > e.index.value then k else e.index.value;
      Arrows(Arrows(e, Up, k), Down, k) ==
        if end < |e.history| then e.(index := Some(end), line := e.history[end])
        else e.(index := None, line := e.stash)
    ensures Arrows(Arrows(e, Up, k), Down, k).index == e.index <==> k <= e.index.value
  {
    UpFromIndex(e, k);
    DownFromIndex(Arrows(e, Up, k), k);
  }

  class LineEditor {
    var line: string
    var history: seq<string>
    var index: Option<nat>
    var stash: string
    var busy: bool

    ghost function State(): Editor
      reads this
    {
      Editor(line, history, index, stash, busy)
    }

    constructor ()
      ensures State() == EMPTY
    {
      line, history, index, stash, busy := "", [], None, "", false;
    }

    method HistoryStep(d: Direction)
      requires Sound(State())
      modifies this
      ensures State() == Arrow(old(State()), d) && Sound(State())
    {
      if busy || history == [] {
        return;
      }
      if index == None {
        if d == Down {
          return;
        }
        stash := line;
        index := Some(|history|);
      }
      var newIndex := index.value + (if d == Up then -1 else 1);
      if newIndex >= |history| {
        index := None;
        line := stash;
        return;
      }
      index := Some(if newIndex < 0 then 0 else newIndex);
      line := history[index.value];
    }

    method HistoryRecord(text: string)
      requires Sound(State())
      modifies this`history, this`index
      ensures State() == Record(old(State()), text) && Sound(State())
    {
      RecordKeepsSound(State(), text);
      if text != "" && (history == [] || history[|history| - 1] != text) {
        history := history + [text];
        if |history| > HISTORY_LIMIT {
          history := history[|history| - HISTORY_LIMIT..];
        }
      }
      index := None;
    }
  }
}
