/** Type-ahead of pty_session.py: submitted lines, the command queue and the standard input queue. */
module TypeAhead {
  import PythonText

  datatype Mode = ShellMode | ReplMode

  /** A submitted line with its submission number. */
  datatype Line = Line(ticket: nat, text: string)

  /** The queues of the session, and where every line has gone so far. */
  datatype State = State(
    mode: Mode, blockOpen: bool, busy: bool, running: bool, interrupted: bool,
    commands: seq<Line>, stdin: seq<Line>,
    submitted: seq<Line>, ran: seq<Line>, read: seq<Line>, discarded: seq<Line>, handled: seq<Line>)

  const START := State(ShellMode, false, false, false, false, [], [], [], [], [], [], [])

  const REPL_ENTER := {"python", "python3"}
  const REPL_EXIT := {"exit", "quit", "exit()", "quit()"}
  const ALPINE_ENTER := {"linux", "alpine"}

  /** Where a submitted line goes. */
  datatype Route = ToStdin | ToWorker | EnterRepl | LeaveRepl | Handled

  function RouteOf(s: State, text: string): Route {
    var stripped := PythonText.Strip(text);
    if s.busy then ToStdin
    else if stripped == "" then (if s.blockOpen then ToWorker else Handled)
    else if s.mode == ShellMode && stripped in REPL_ENTER then EnterRepl
    else if s.mode == ShellMode && stripped in ALPINE_ENTER then Handled
    else if s.mode == ReplMode && stripped in REPL_EXIT then LeaveRepl
    else ToWorker
  }

  function Accept(s: State, line: Line): State {
    match RouteOf(s, line.text)
    case ToStdin => s.(stdin := s.stdin + [line])
    case ToWorker => s.(commands := s.commands + [line])
    case EnterRepl => s.(mode := ReplMode, handled := s.handled + [line])
    case LeaveRepl => s.(mode := ShellMode, blockOpen := false, handled := s.handled + [line])
    case Handled => s.(handled := s.handled + [line])
  }

  function AcceptAll(s: State, lines: seq<Line>): State
    decreases lines
  {
    if lines == [] then s else AcceptAll(Accept(s, lines[0]), lines[1..])
  }

  datatype Event =
    | Submit(text: string)       // Enter
    | Take                       // the worker starts the next command
    | ReadStdin                  // the running command reads a line
    | CtrlC
    | AwaitMore                  // an unfinished block: busy is cleared while the command still finishes
    | Finish(blockOpen: bool)    // _finish_command, with the state of the open block

  predicate Enabled(s: State, e: Event) {
    match e
    case Submit(_) => true
    case Take => !s.running && s.commands != []
    case ReadStdin => s.running && s.busy && !s.interrupted && s.stdin != []
    case CtrlC => true
    case AwaitMore => s.running && s.busy
    case Finish(_) => s.running
  }

  function Step(s: State, e: Event): State
    requires Enabled(s, e)
  {
    match e
    case Submit(text) =>
      var line := Line(|s.submitted|, text);
      Accept(s.(submitted := s.submitted + [line]), line)
    case Take =>
      s.(running := true, busy := true, interrupted := false, commands := s.commands[1..], ran := s.ran + [s.commands[0]])
    case ReadStdin => s.(stdin := s.stdin[1..], read := s.read + [s.stdin[0]])
    case CtrlC => s.(blockOpen := false, interrupted := s.interrupted || s.busy)
    case AwaitMore => s.(busy := false, blockOpen := true)
    case Finish(open) =>
      var done := s.(running := false, busy := false, blockOpen := open, stdin := []);
      if s.interrupted then done.(interrupted := false, discarded := s.discarded + s.stdin)
      else AcceptAll(done, s.stdin)
  }

  ghost predicate IsRun(s: State, events: seq<Event>)
    decreases events
  {
    events == [] || (Enabled(s, events[0]) && IsRun(Step(s, events[0]), events[1..]))
  }

  function Run(s: State, events: seq<Event>): State
    requires IsRun(s, events)
    decreases events
  {
    if events == [] then s else Run(Step(s, events[0]), events[1..])
  }

  // ---------------------------------------------------------------- where lines go

  /** A submitted line, case by case. */
  lemma SubmitRoutes(s: State, text: string)
    ensures var t := Step(s, Submit(text));
      var line := Line(|s.submitted|, text);
      var word := PythonText.Strip(text);
      && t.submitted == s.submitted + [line]
      && (s.busy ==> t == s.(submitted := t.submitted, stdin := s.stdin + [line]))
      && (!s.busy && word == "" ==> t == if s.blockOpen
            then s.(submitted := t.submitted, commands := s.commands + [line])
            else s.(submitted := t.submitted, handled := s.handled + [line]))
      && (!s.busy && s.mode == ShellMode && word in ["python", "python3"] ==>
            t == s.(submitted := t.submitted, handled := s.handled + [line], mode := ReplMode))
      && (!s.busy && s.mode == ShellMode && word in ["linux", "alpine"] ==>
            t == s.(submitted := t.submitted, handled := s.handled + [line]))
      && (!s.busy && s.mode == ReplMode && word in ["exit", "quit", "exit()", "quit()"] ==>
            t == s.(submitted := t.submitted, handled := s.handled + [line], mode := ShellMode, blockOpen := false))
      && (!s.busy && word != "" && word !in (if s.mode == ShellMode then ["python", "python3", "linux", "alpine"]
                                             else ["exit", "quit", "exit()", "quit()"]) ==>
            t == s.(submitted := t.submitted, commands := s.commands + [line]))
  {
    hide PythonText.Strip;
  }

  /** A line that always needs the worker: neither blank nor one of the words that are acted on in place. */
  predicate ForWorker(text: string) {
    var word := PythonText.Strip(text);
    word != "" && word !in ["python", "python3", "linux", "alpine", "exit", "quit", "exit()", "quit()"]
  }

  lemma AcceptForWorker(s: State, line: Line)
    requires !s.busy
    ensures ForWorker(line.text) ==> Accept(s, line) == s.(commands := s.commands + [line])
    ensures s.commands <= Accept(s, line).commands && !Accept(s, line).busy
    ensures Accept(s, line).commands == s.commands || Accept(s, line).commands == s.commands + [line]
    ensures Accept(s, line).stdin == s.stdin && Accept(s, line).discarded == s.discarded
    ensures Accept(s, line).ran == s.ran && Accept(s, line).read == s.read && Accept(s, line).running == s.running
  {
    hide PythonText.Strip;
  }

  /** The lines of the list that are kept, in order. */
  ghost predicate Keeps(kept: seq<Line>, lines: seq<Line>)
    decreases lines
  {
    if lines == [] then kept == []
    else
      || (kept != [] && kept[0] == lines[0] && Keeps(kept[1..], lines[1..]))
      || (!ForWorker(lines[0].text) && Keeps(kept, lines[1..]))
  }

  lemma {:induction false} AcceptAllKeeps(s: State, lines: seq<Line>) returns (kept: seq<Line>)
    requires !s.busy
    ensures AcceptAll(s, lines).commands == s.commands + kept && Keeps(kept, lines)
    ensures AcceptAll(s, lines).stdin == s.stdin && AcceptAll(s, lines).discarded == s.discarded
    ensures AcceptAll(s, lines).ran == s.ran && AcceptAll(s, lines).read == s.read
    ensures !AcceptAll(s, lines).busy && AcceptAll(s, lines).running == s.running
    decreases lines
  {
    hide Accept, ForWorker;
    kept := [];
    if lines != [] {
      AcceptForWorker(s, lines[0]);
      var next := Accept(s, lines[0]);
      var rest := AcceptAllKeeps(next, lines[1..]);
      if next.commands == s.commands {
        WorkerLineIsQueued(s, lines[0]);
        kept := rest;
      } else {
        kept := [lines[0]] + rest;
        assert kept[1..] == rest;
        assert next.commands + rest == s.commands + kept;
      }
    }
  }

  lemma WorkerLineIsQueued(s: State, line: Line)
    requires !s.busy && Accept(s, line).commands == s.commands
    ensures !ForWorker(line.text)
  {
    hide ForWorker, Accept;
    AcceptForWorker(s, line);
    assert ForWorker(line.text) ==> |Accept(s, line).commands| == |s.commands| + 1;
  }

  /** The end of a command that was not interrupted: the lines typed ahead become the next commands, in
      order; only blank lines and words that are acted on in place may be missing. */
  lemma FinishResubmits(s: State, open: bool) returns (kept: seq<Line>)
    requires s.running && !s.interrupted
    ensures var t := Step(s, Finish(open));
      && t.commands == s.commands + kept && Keeps(kept, s.stdin)
      && t.stdin == [] && t.discarded == s.discarded && t.ran == s.ran && t.read == s.read && !t.running && !t.busy
  {
    hide AcceptAll, Keeps;
    kept := AcceptAllKeeps(s.(running := false, busy := false, blockOpen := open, stdin := []), s.stdin);
  }

  /** The end of an interrupted one: everything typed ahead is dropped and the interrupt is over. */
  lemma FinishDiscards(s: State, open: bool)
    requires s.running && s.interrupted
    ensures Step(s, Finish(open)) == s.(running := false, busy := false, blockOpen := open, stdin := [],
      interrupted := false, discarded := s.discarded + s.stdin)
  {
  }

  /** The other steps: the oldest command starts, with no interrupt from before; the oldest line typed ahead
      is read; Ctrl+C closes an open block and interrupts what is busy; an unfinished block clears busy. */
  lemma OtherSteps(s: State)
    ensures Enabled(s, Take) <==> !s.running && s.commands != []
    ensures Enabled(s, Take) ==> Step(s, Take) == s.(running := true, busy := true, interrupted := false,
      commands := s.commands[1..], ran := s.ran + s.commands[..1])
    ensures Enabled(s, ReadStdin) ==> Step(s, ReadStdin) == s.(stdin := s.stdin[1..], read := s.read + s.stdin[..1])
    ensures Step(s, CtrlC) == s.(blockOpen := false, interrupted := s.busy || s.interrupted)
    ensures Enabled(s, AwaitMore) ==> Step(s, AwaitMore) == s.(busy := false, blockOpen := true)
  {
  }

  // ---------------------------------------------------------------- no line is lost or doubled

  ghost function Times(lines: seq<Line>, l: Line): nat {
    multiset(lines)[l]
  }

  /** How often a line is found, over all the places it can be. */
  ghost function Places(s: State, l: Line): nat {
    Times(s.ran, l) + Times(s.commands, l) + Times(s.stdin, l) + Times(s.read, l) + Times(s.discarded, l) + Times(s.handled, l)
  }

  ghost predicate Numbered(lines: seq<Line>) {
    forall i :: 0 <= i < |lines| ==> lines[i].ticket == i
  }

  /** Every line is found as often as it was submitted. */
  ghost predicate Conserved(s: State) {
    Numbered(s.submitted) && forall l :: Places(s, l) == Times(s.submitted, l)
  }

  lemma TimesAppend(a: seq<Line>, b: seq<Line>, l: Line)
    ensures Times(a + b, l) == Times(a, l) + Times(b, l)
  {
  }

  lemma TimesOfNone(l: Line)
    ensures Times([], l) == 0
  {
  }

  lemma TimesHead(lines: seq<Line>, l: Line)
    requires lines != []
    ensures Times(lines, l) == Times([lines[0]], l) + Times(lines[1..], l)
  {
    assert lines == [lines[0]] + lines[1..];
    TimesAppend([lines[0]], lines[1..], l);
  }

  lemma {:induction false} AcceptMoves(s: State, line: Line, l: Line)
    ensures Places(Accept(s, line), l) == Places(s, l) + Times([line], l)
    ensures Accept(s, line).submitted == s.submitted
  {
    hide RouteOf, Times;
    TimesAppend(s.stdin, [line], l);
    TimesAppend(s.commands, [line], l);
    TimesAppend(s.handled, [line], l);
  }

  lemma {:induction false} AcceptAllMoves(s: State, lines: seq<Line>, l: Line)
    ensures Places(AcceptAll(s, lines), l) == Places(s, l) + Times(lines, l)
    ensures AcceptAll(s, lines).submitted == s.submitted
    decreases lines
  {
    hide Accept, Places, Times;
    if lines == [] {
      TimesOfNone(l);
    } else {
      AcceptMoves(s, lines[0], l);
      AcceptAllMoves(Accept(s, lines[0]), lines[1..], l);
      TimesHead(lines, l);
    }
  }

  /** What one step adds to the places of a line: itself, when it is submitted. */
  lemma {:induction false} StepMoves(s: State, e: Event, l: Line)
    requires Enabled(s, e)
    ensures Places(Step(s, e), l) - Places(s, l) == Times(Step(s, e).submitted, l) - Times(s.submitted, l)
  {
    hide Accept, AcceptAll, RouteOf, Times;
    match e
    case Submit(text) =>
      var line := Line(|s.submitted|, text);
      TimesAppend(s.submitted, [line], l);
      AcceptMoves(s.(submitted := s.submitted + [line]), line, l);
    case Take =>
      TimesHead(s.commands, l);
      TimesAppend(s.ran, [s.commands[0]], l);
    case ReadStdin =>
      TimesHead(s.stdin, l);
      TimesAppend(s.read, [s.stdin[0]], l);
    case CtrlC =>
    case AwaitMore =>
    case Finish(open) =>
      var done := s.(running := false, busy := false, blockOpen := open, stdin := []);
      TimesOfNone(l);
      AcceptAllMoves(done, s.stdin, l);
      TimesAppend(s.discarded, s.stdin, l);
  }

  lemma StepConserves(s: State, e: Event)
    requires Conserved(s) && Enabled(s, e)
    ensures Conserved(Step(s, e))
  {
    hide Accept, AcceptAll, RouteOf, Times, Places;
    forall l ensures Places(Step(s, e), l) == Times(Step(s, e).submitted, l) {
      StepMoves(s, e, l);
    }
    KeepsSubmitted(s, e);
  }

  lemma KeepsSubmitted(s: State, e: Event)
    requires Enabled(s, e)
    ensures Step(s, e).submitted == if e.Submit? then s.submitted + [Line(|s.submitted|, e.text)] else s.submitted
  {
    hide Accept, AcceptAll, RouteOf, Places, Times;
    var any := Line(0, "");
    match e
    case Submit(text) =>
      var line := Line(|s.submitted|, text);
      AcceptMoves(s.(submitted := s.submitted + [line]), line, any);
    case Finish(open) =>
      AcceptAllMoves(s.(running := false, busy := false, blockOpen := open, stdin := []), s.stdin, any);
    case _ =>
  }

  lemma {:induction false} RunConserves(s: State, events: seq<Event>)
    requires Conserved(s) && IsRun(s, events)
    ensures Conserved(Run(s, events))
    decreases events
  {
    hide Conserved, Step, Enabled;
    if events != [] {
      StepConserves(s, events[0]);
      RunConserves(Step(s, events[0]), events[1..]);
    }
  }

  lemma StartConserved()
    ensures Conserved(START)
  {
  }

  /** In every reachable state each submitted line has exactly one fate: run, queued for the worker,
      typed ahead, read as input, discarded after an interrupt, or handled without the worker. */
  lemma EveryLineHasOneFate(events: seq<Event>, k: nat)
    requires IsRun(START, events) && k < |Run(START, events).submitted|
    ensures var s := Run(START, events); Places(s, s.submitted[k]) == 1
  {
    hide Run, IsRun, Places, Times;
    StartConserved();
    RunConserves(START, events);
    OnlyOnce(Run(START, events).submitted, k);
  }

  lemma {:induction false} OnlyOnce(lines: seq<Line>, k: nat)
    requires Numbered(lines) && k < |lines|
    ensures Times(lines, lines[k]) == 1
    decreases |lines|
  {
    var front, last := lines[..|lines| - 1], lines[|lines| - 1];
    assert lines == front + [last];
    TimesAppend(front, [last], lines[k]);
    if k < |front| {
      OnlyOnce(front, k);
      assert last != lines[k];
    } else {
      assert forall i :: 0 <= i < |front| ==> front[i].ticket == i;
      assert last !in front;
    }
  }

  lemma {:induction false} DiscardedStays(s: State, events: seq<Event>)
    requires IsRun(s, events)
    ensures s.discarded <= Run(s, events).discarded
    decreases events
  {
    hide Accept, AcceptAll;
    if events != [] {
      if events[0].Finish? {
        var done := s.(running := false, busy := false, blockOpen := events[0].blockOpen, stdin := []);
        AcceptAllKeepsDiscarded(done, s.stdin);
      }
      if events[0].Submit? {
        AcceptKeepsDiscarded(s.(submitted := s.submitted + [Line(|s.submitted|, events[0].text)]), Line(|s.submitted|, events[0].text));
      }
      DiscardedStays(Step(s, events[0]), events[1..]);
    }
  }

  lemma AcceptKeepsDiscarded(s: State, line: Line)
    ensures Accept(s, line).discarded == s.discarded
  {
    hide RouteOf;
  }

  lemma {:induction false} AcceptAllKeepsDiscarded(s: State, lines: seq<Line>)
    ensures AcceptAll(s, lines).discarded == s.discarded
    decreases lines
  {
    hide Accept;
    if lines != [] {
      AcceptKeepsDiscarded(s, lines[0]);
      AcceptAllKeepsDiscarded(Accept(s, lines[0]), lines[1..]);
    }
  }

  /** After Ctrl+C what was typed ahead is never run, however the session goes on. */
  lemma InterruptDropsTypeAhead(s: State, open: bool, events: seq<Event>, l: Line)
    requires Conserved(s) && s.running && s.interrupted && l in s.stdin && l in s.submitted
    requires IsRun(Step(s, Finish(open)), events)
    ensures var t := Run(Step(s, Finish(open)), events); l in t.discarded && l !in t.ran && l !in t.commands
  {
    hide Run, IsRun, Accept, AcceptAll, RouteOf;
    var next := Step(s, Finish(open));
    StepConserves(s, Finish(open));
    RunConserves(next, events);
    DiscardedStays(next, events);
    var t := Run(next, events);
    assert l in next.discarded && l in t.discarded;
    assert Times(t.discarded, l) >= 1;
    NeverTwice(t.submitted, l);
    assert Places(t, l) == Times(t.submitted, l) <= 1;
    assert Times(t.ran, l) == 0 && Times(t.commands, l) == 0;
  }

  lemma {:induction false} InterruptStays(s: State, events: seq<Event>)
    requires s.running && s.interrupted && IsRun(s, events) && forall e :: e in events ==> !e.Finish?
    ensures Run(s, events).running && Run(s, events).interrupted
    decreases events
  {
    hide Accept;
    if events != [] {
      assert events[0] in events && events[0] != Take;
      if events[0].Submit? {
        var line := Line(|s.submitted|, events[0].text);
        AcceptKeepsInterrupt(s.(submitted := s.submitted + [line]), line);
      }
      InterruptStays(Step(s, events[0]), events[1..]);
    }
  }

  lemma AcceptKeepsInterrupt(s: State, line: Line)
    ensures Accept(s, line).interrupted == s.interrupted && Accept(s, line).running == s.running
  {
    hide RouteOf;
  }

  /** Ctrl+C under a busy command: whatever happens until the command ends, what is typed ahead by then is
      discarded and never runs. */
  lemma CtrlCDropsTypeAhead(s: State, before: seq<Event>, open: bool, after: seq<Event>, l: Line)
    requires Conserved(s) && s.running && s.busy && IsRun(Step(s, CtrlC), before) && forall e :: e in before ==> !e.Finish?
    requires var u := Run(Step(s, CtrlC), before);
      l in u.stdin && Enabled(u, Finish(open)) && IsRun(Step(u, Finish(open)), after)
    ensures var t := Run(Step(Run(Step(s, CtrlC), before), Finish(open)), after);
      l in t.discarded && l !in t.ran && l !in t.commands
  {
    hide Run, IsRun, Step, Conserved;
    var c := Step(s, CtrlC);
    OtherSteps(s);
    CtrlCIsEnabled(s);
    StepConserves(s, CtrlC);
    InterruptStays(c, before);
    RunConserves(c, before);
    TypedWasSubmitted(Run(c, before), l);
    InterruptDropsTypeAhead(Run(c, before), open, after, l);
  }

  lemma CtrlCIsEnabled(s: State)
    ensures Enabled(s, CtrlC)
  {
  }

  lemma TypedWasSubmitted(s: State, l: Line)
    requires Conserved(s) && l in s.stdin
    ensures l in s.submitted
  {
    assert Places(s, l) == Times(s.submitted, l);
    assert l in multiset(s.stdin) && l in multiset(s.submitted);
  }

  lemma NeverTwice(lines: seq<Line>, l: Line)
    requires Numbered(lines)
    ensures Times(lines, l) <= 1
  {
    if l in lines {
      var k :| 0 <= k < |lines| && lines[k] == l;
      OnlyOnce(lines, k);
    } else {
      assert l !in multiset(lines);
    }
  }

  // ---------------------------------------------------------------- order

  ghost predicate Ascending(lines: seq<Line>) {
    forall i, j :: 0 <= i < j < |lines| ==> lines[i].ticket < lines[j].ticket
  }

  /** What has run, what is queued and what is typed ahead stand in submission order, all already
      submitted; outside the window of an unfinished block, type-ahead exists only under a command. */
  ghost predicate InOrder(s: State) {
    && Ascending(s.ran + s.commands + s.stdin)
    && (forall l :: l in s.ran + s.commands + s.stdin ==> l.ticket < |s.submitted|)
    && (!s.running ==> !s.busy && s.stdin == [])
  }

  /** A line for the worker that is submitted in the window between the clearing of busy for an
      unfinished block and the end of the command, while older lines still wait as standard input. */
  predicate Overtakes(s: State, e: Event) {
    e.Submit? && !s.busy && s.stdin != [] && RouteOf(s, e.text) == ToWorker
  }

  lemma AscendingSnoc(lines: seq<Line>, line: Line)
    requires Ascending(lines) && forall l :: l in lines ==> l.ticket < line.ticket
    ensures Ascending(lines + [line])
  {
    forall i, j | 0 <= i < j < |lines| + 1 ensures (lines + [line])[i].ticket < (lines + [line])[j].ticket {
      assert lines[i] in lines;
    }
  }

  lemma AscendingDrop(a: seq<Line>, x: Line, b: seq<Line>)
    requires Ascending(a + [x] + b)
    ensures Ascending(a + b)
  {
    var all := a + [x] + b;
    forall i, j | 0 <= i < j < |a + b| ensures (a + b)[i].ticket < (a + b)[j].ticket {
      var p := if i < |a| then i else i + 1;
      var q := if j < |a| then j else j + 1;
      assert all[p] == (a + b)[i] && all[q] == (a + b)[j];
    }
  }

  lemma AscendingPrefix(a: seq<Line>, b: seq<Line>)
    requires Ascending(a + b)
    ensures Ascending(a)
  {
    forall i, j | 0 <= i < j < |a| ensures a[i].ticket < a[j].ticket {
      assert (a + b)[i] == a[i] && (a + b)[j] == a[j];
    }
  }

  /** Resubmitting the type-ahead of a finished command keeps the order. */
  lemma {:induction false} AcceptAllInOrder(s: State, lines: seq<Line>)
    requires !s.busy && !s.running && s.stdin == []
    requires Ascending(s.ran + s.commands + lines)
    requires forall l :: l in s.ran + s.commands + lines ==> l.ticket < |s.submitted|
    ensures InOrder(AcceptAll(s, lines)) && AcceptAll(s, lines).ran == s.ran
    ensures !AcceptAll(s, lines).running && !AcceptAll(s, lines).busy && AcceptAll(s, lines).stdin == []
    decreases lines
  {
    hide RouteOf, Ascending;
    if lines == [] {
      assert s.ran + s.commands + [] == s.ran + s.commands + s.stdin;
    } else {
      var next := Accept(s, lines[0]);
      assert lines == [lines[0]] + lines[1..];
      assert s.ran + s.commands + lines == s.ran + (s.commands + [lines[0]]) + lines[1..];
      assert s.ran + s.commands + lines == (s.ran + s.commands) + [lines[0]] + lines[1..];
      AscendingDrop(s.ran + s.commands, lines[0], lines[1..]);
      NotStdin(s, lines[0]);
      AcceptAllInOrder(next, lines[1..]);
    }
  }

  lemma NotStdin(s: State, line: Line)
    requires !s.busy
    ensures RouteOf(s, line.text) != ToStdin
  {
    hide PythonText.Strip;
  }

  lemma SubmitInOrder(s: State, text: string)
    requires InOrder(s)
    ensures InOrder(Step(s, Submit(text))) <==> !Overtakes(s, Submit(text))
  {
    hide Ascending, PythonText.Strip;
    var line := Line(|s.submitted|, text);
    var t := Step(s, Submit(text));
    match RouteOf(s, text) {
      case ToStdin =>
        AscendingSnoc(s.ran + s.commands + s.stdin, line);
        assert s.ran + s.commands + (s.stdin + [line]) == s.ran + s.commands + s.stdin + [line];
      case ToWorker =>
        if s.stdin == [] {
          assert s.ran + s.commands + s.stdin == s.ran + s.commands;
          AscendingSnoc(s.ran + s.commands, line);
          assert s.ran + (s.commands + [line]) + [] == s.ran + s.commands + [line];
        } else {
          OutOfOrder(s, line);
        }
      case EnterRepl =>
      case LeaveRepl =>
      case Handled =>
    }
  }

  lemma OutOfOrder(s: State, line: Line)
    requires s.stdin != [] && s.stdin[0].ticket < line.ticket
    ensures !Ascending(s.ran + (s.commands + [line]) + s.stdin)
  {
    var all := s.ran + (s.commands + [line]) + s.stdin;
    var k := |s.ran| + |s.commands|;
    assert all[k] == line && all[k + 1] == s.stdin[0];
  }

  /** One step keeps the order if and only if it does not let a line overtake waiting ones. */
  lemma StepInOrder(s: State, e: Event)
    requires InOrder(s) && Enabled(s, e)
    ensures InOrder(Step(s, e)) <==> !Overtakes(s, e)
  {
    hide AcceptAll, Ascending, RouteOf;
    match e
    case Submit(text) => SubmitInOrder(s, text);
    case Take =>
      assert s.ran + [s.commands[0]] + s.commands[1..] + s.stdin == s.ran + s.commands + s.stdin;
    case ReadStdin =>
      assert s.ran + s.commands + s.stdin == (s.ran + s.commands) + [s.stdin[0]] + s.stdin[1..];
      AscendingDrop(s.ran + s.commands, s.stdin[0], s.stdin[1..]);
    case CtrlC =>
    case AwaitMore =>
    case Finish(open) =>
      var done := s.(running := false, busy := false, blockOpen := open, stdin := []);
      AscendingPrefix(s.ran + s.commands, s.stdin);
      assert s.ran + s.commands + [] == s.ran + s.commands;
      AcceptAllInOrder(done, s.stdin);
  }

  /** What running commands have read, and what is there for them to read, stands in submission order. */
  ghost predicate ReadsInOrder(s: State) {
    Ascending(s.read + s.stdin) && forall l :: l in s.read + s.stdin ==> l.ticket < |s.submitted|
  }

  lemma {:induction false} StepReadsInOrder(s: State, e: Event)
    requires ReadsInOrder(s) && Enabled(s, e)
    ensures ReadsInOrder(Step(s, e))
  {
    hide Ascending, RouteOf, AcceptAll, Keeps;
    match e
    case Submit(text) =>
      var line := Line(|s.submitted|, text);
      AscendingSnoc(s.read + s.stdin, line);
      assert s.read + (s.stdin + [line]) == s.read + s.stdin + [line];
    case ReadStdin =>
      assert s.read + [s.stdin[0]] + s.stdin[1..] == s.read + s.stdin;
    case Finish(open) =>
      AscendingPrefix(s.read, s.stdin);
      assert s.read + [] == s.read;
      if !s.interrupted {
        var _ := FinishResubmits(s, open);
        KeepsSubmitted(s, e);
      }
    case _ =>
  }

  /** Over every run, overtaking or not, commands read the lines typed for them in submission order. */
  lemma {:induction false} RunReadsInOrder(s: State, events: seq<Event>)
    requires ReadsInOrder(s) && IsRun(s, events)
    ensures ReadsInOrder(Run(s, events)) && Ascending(Run(s, events).read)
    decreases events
  {
    hide Step, Enabled, Ascending;
    if events == [] {
      AscendingPrefix(s.read, s.stdin);
    } else {
      StepReadsInOrder(s, events[0]);
      RunReadsInOrder(Step(s, events[0]), events[1..]);
    }
  }

  /** No step of the run lets a line overtake. */
  ghost predicate NoOvertaking(s: State, events: seq<Event>)
    requires IsRun(s, events)
    decreases events
  {
    events == [] || (!Overtakes(s, events[0]) && NoOvertaking(Step(s, events[0]), events[1..]))
  }

  lemma {:induction false} RunInOrder(s: State, events: seq<Event>)
    requires InOrder(s) && IsRun(s, events) && NoOvertaking(s, events)
    ensures InOrder(Run(s, events))
    decreases events
  {
    hide InOrder, Step, Enabled, Overtakes;
    if events != [] {
      StepInOrder(s, events[0]);
      RunInOrder(Step(s, events[0]), events[1..]);
    }
  }

  /** The lines that ran are submitted lines, in submission order. */
  lemma LinesRunInOrder(events: seq<Event>)
    requires IsRun(START, events) && NoOvertaking(START, events)
    ensures var s := Run(START, events);
      Ascending(s.ran) && forall l :: l in s.ran ==> l.ticket < |s.submitted| && s.submitted[l.ticket] == l
  {
    hide Run, IsRun, NoOvertaking;
    assert InOrder(START);
    StartConserved();
    RunInOrder(START, events);
    RunConserves(START, events);
    var s := Run(START, events);
    assert s.ran + s.commands + s.stdin == s.ran + (s.commands + s.stdin);
    AscendingPrefix(s.ran, s.commands + s.stdin);
    forall l | l in s.ran ensures l.ticket < |s.submitted| && s.submitted[l.ticket] == l {
      assert l in multiset(s.ran) && Places(s, l) == Times(s.submitted, l);
      assert l in multiset(s.submitted);
    }
  }

  /** Completion as one step, with no separate clearing of busy: then nothing can overtake. */
  lemma {:induction false} OneStepCompletion(s: State, events: seq<Event>)
    requires IsRun(s, events) && AwaitMore !in events
    requires InOrder(s) && (s.running ==> s.busy)
    ensures NoOvertaking(s, events)
    decreases events
  {
    hide InOrder, RouteOf;
    if events != [] {
      assert events[0] != AwaitMore;
      BusyWhileRunning(s, events[0]);
      StepInOrder(s, events[0]);
      OneStepCompletion(Step(s, events[0]), events[1..]);
    }
  }

  lemma BusyWhileRunning(s: State, e: Event)
    requires InOrder(s) && Enabled(s, e) && e != AwaitMore && (s.running ==> s.busy)
    ensures !Overtakes(s, e) && (Step(s, e).running ==> Step(s, e).busy)
  {
    hide Ascending, PythonText.Strip;
    if e.Finish? {
      var done := s.(running := false, busy := false, blockOpen := e.blockOpen, stdin := []);
      assert Ascending(s.ran + s.commands + s.stdin);
      AcceptAllInOrder(done, s.stdin);
    }
  }

  /** The first line of a compound statement: the interpreter asks for more. */
  const OPENER := "if x:"

  lemma PlainLineGoesToWorker(s: State, text: string)
    requires !s.busy && (text == OPENER || text == "x")
    ensures RouteOf(s, text) == ToWorker
  {
    assert PythonText.StripLeft(text) == text;
    assert PythonText.StripRight(text) == text;
    assert PythonText.Strip(text) == text && text != "" && text[|text| - 1] in {':', 'x'};
    assert text !in REPL_ENTER && text !in ALPINE_ENTER && text !in REPL_EXIT by {
      assert text[0] in {'i', 'x'};
    }
  }

  lemma RunCons(s: State, e: Event, events: seq<Event>, end: State)
    requires Enabled(s, e) && IsRun(Step(s, e), events) && Run(Step(s, e), events) == end
    ensures IsRun(s, [e] + events) && Run(s, [e] + events) == end
  {
    assert ([e] + events)[1..] == events;
  }

  /** The failing family is real: behind an unfinished block, a line typed in the window is queued before
      one that waited longer. */
  lemma AWindowCanReorder()
    ensures var events := [Submit(OPENER), Take, Submit("x"), AwaitMore, Submit("x"), Finish(true)];
      IsRun(START, events) && Run(START, events).commands == [Line(2, "x"), Line(1, "x")]
  {
    hide RouteOf, Run, IsRun, AcceptAll;
    var s3 := WindowOpens();
    var s4 := Step(s3, AwaitMore);
    var l1, l2 := Line(1, "x"), Line(2, "x");
    PlainLineGoesToWorker(s4.(submitted := s4.submitted + [l2]), "x");
    var s5 := Step(s4, Submit("x"));
    assert s5.commands == [l2] && s5.stdin == [l1] && !s5.interrupted;
    var done := s5.(running := false, busy := false, blockOpen := true, stdin := []);
    PlainLineGoesToWorker(done, "x");
    OneLeft(done, l1);
    var s6 := Step(s5, Finish(true));
    assert s6.commands == [l2, l1];
    NoEvents(s6);
    RunCons(s5, Finish(true), [], s6);
    assert [Finish(true)] + [] == [Finish(true)];
    RunCons(s4, Submit("x"), [Finish(true)], s6);
    assert [Submit("x")] + [Finish(true)] == [Submit("x"), Finish(true)];
    RunCons(s3, AwaitMore, [Submit("x"), Finish(true)], s6);
    assert [AwaitMore] + [Submit("x"), Finish(true)] == [AwaitMore, Submit("x"), Finish(true)];
    RunPrefix(s6, [AwaitMore, Submit("x"), Finish(true)], s3);
    assert [Submit(OPENER), Take, Submit("x")] + [AwaitMore, Submit("x"), Finish(true)]
      == [Submit(OPENER), Take, Submit("x"), AwaitMore, Submit("x"), Finish(true)];
  }

  /** Up to the point where the unfinished block runs and one more line waits behind it. */
  lemma WindowOpens() returns (s3: State)
    ensures s3.running && s3.busy && !s3.interrupted && s3.commands == [] && s3.stdin == [Line(1, "x")] && |s3.submitted| == 2
    ensures Enabled(START, Submit(OPENER)) && var s1 := Step(START, Submit(OPENER));
      Enabled(s1, Take) && var s2 := Step(s1, Take); Enabled(s2, Submit("x")) && s3 == Step(s2, Submit("x"))
  {
    hide RouteOf;
    var l0, l1 := Line(0, OPENER), Line(1, "x");
    PlainLineGoesToWorker(START.(submitted := [] + [l0]), OPENER);
    var s1 := Step(START, Submit(OPENER));
    assert s1.commands == [l0];
    var s2 := Step(s1, Take);
    BusyLineWaits(s2.(submitted := s2.submitted + [l1]));
    s3 := Step(s2, Submit("x"));
    assert s3.stdin == [l1];
  }

  lemma RunPrefix(end: State, rest: seq<Event>, s3: State)
    requires Enabled(START, Submit(OPENER)) && var s1 := Step(START, Submit(OPENER));
      Enabled(s1, Take) && var s2 := Step(s1, Take); Enabled(s2, Submit("x")) && s3 == Step(s2, Submit("x"))
    requires IsRun(s3, rest) && Run(s3, rest) == end
    ensures var events := [Submit(OPENER), Take, Submit("x")] + rest;
      IsRun(START, events) && Run(START, events) == end
  {
    hide Step, Run, IsRun;
    var s1 := Step(START, Submit(OPENER));
    var s2 := Step(s1, Take);
    RunCons(s2, Submit("x"), rest, end);
    RunCons(s1, Take, [Submit("x")] + rest, end);
    RunCons(START, Submit(OPENER), [Take] + ([Submit("x")] + rest), end);
    assert [Submit(OPENER), Take, Submit("x")] + rest == [Submit(OPENER)] + ([Take] + ([Submit("x")] + rest));
  }

  lemma OneLeft(s: State, line: Line)
    requires RouteOf(s, line.text) == ToWorker
    ensures AcceptAll(s, [line]) == s.(commands := s.commands + [line])
  {
    hide RouteOf;
    assert [line][1..] == [];
    assert AcceptAll(Accept(s, line), []) == Accept(s, line);
  }

  lemma BusyLineWaits(s: State)
    requires s.busy
    ensures RouteOf(s, "x") == ToStdin
  {
  }

  lemma NoEvents(s: State)
    ensures IsRun(s, []) && Run(s, []) == s
  {
  }

  // ---------------------------------------------------------------- the session's methods

  class Console {
    var mode: Mode
    var blockOpen: bool
    var busy: bool
    var running: bool
    var interrupted: bool
    var commands: seq<Line>
    var stdin: seq<Line>
    ghost var submitted: seq<Line>
    ghost var ran: seq<Line>
    ghost var read: seq<Line>
    ghost var discarded: seq<Line>
    ghost var handled: seq<Line>
    var tickets: nat

    ghost function Value(): State
      reads this
    {
      State(mode, blockOpen, busy, running, interrupted, commands, stdin, submitted, ran, read, discarded, handled)
    }

    constructor ()
      ensures Value() == START && tickets == 0
    {
      mode, blockOpen, busy, running, interrupted, commands, stdin := ShellMode, false, false, false, false, [], [];
      submitted, ran, read, discarded, handled, tickets := [], [], [], [], [], 0;
    }

    /** Where a line goes: standard input of a busy command, the worker, or an in-place action. */
    method SubmitLine(line: Line)
      modifies this`mode, this`blockOpen, this`commands, this`stdin, this`handled
      ensures Value() == Accept(old(Value()), line)
    {
      hide PythonText.StripLeft, PythonText.StripRight;
      if busy {
        stdin := stdin + [line];
        return;
      }
      var stripped := PythonText.Strip(line.text);
      if stripped == "" {
        if blockOpen {
          commands := commands + [line];
        } else {
          handled := handled + [line];
        }
        return;
      }
      if mode == ShellMode && stripped in REPL_ENTER {
        mode := ReplMode;
        handled := handled + [line];
        return;
      }
      if mode == ShellMode && stripped in ALPINE_ENTER {
        handled := handled + [line];
        return;
      }
      if mode == ReplMode && stripped in REPL_EXIT {
        mode, blockOpen := ShellMode, false;
        handled := handled + [line];
        return;
      }
      commands := commands + [line];
    }

    /** Enter on a line of text. */
    method Enter(text: string)
      requires tickets == |submitted|
      modifies this
      ensures Value() == Step(old(Value()), Submit(text)) && tickets == |submitted|
    {
      hide RouteOf;
      var line := Line(tickets, text);
      tickets := tickets + 1;
      submitted := submitted + [line];
      SubmitLine(line);
    }

    /** The worker takes the next command; the interrupt flag of the time before is cleared. */
    method TakeCommand() returns (line: Line)
      requires Enabled(Value(), Take)
      modifies this`running, this`busy, this`interrupted, this`commands, this`ran
      ensures Value() == Step(old(Value()), Take) && line == old(commands)[0]
    {
      line := commands[0];
      commands := commands[1..];
      ran := ran + [line];
      running, busy, interrupted := true, true, false;
    }

    method ReadLine() returns (line: Line)
      requires Enabled(Value(), ReadStdin)
      modifies this`stdin, this`read
      ensures Value() == Step(old(Value()), ReadStdin) && line == old(stdin)[0]
    {
      line := stdin[0];
      stdin := stdin[1..];
      read := read + [line];
    }

    /** Ctrl+C: an open block is dropped; a busy command is interrupted. */
    method InterruptRunning()
      modifies this`blockOpen, this`interrupted
      ensures Value() == Step(old(Value()), CtrlC)
    {
      blockOpen := false;
      if busy {
        interrupted := true;
      }
    }

    /** The running line leaves a block open: busy is cleared before the command has finished. */
    method AwaitMoreInput()
      requires Enabled(Value(), AwaitMore)
      modifies this`blockOpen, this`busy
      ensures Value() == Step(old(Value()), AwaitMore)
    {
      blockOpen := true;
      busy := false;
    }

    method Drain() returns (items: seq<Line>)
      modifies this`stdin
      ensures items == old(stdin) && stdin == []
    {
      items := [];
      while stdin != []
        invariant items + stdin == old(stdin)
        decreases |stdin|
      {
        items := items + [stdin[0]];
        stdin := stdin[1..];
      }
    }

    /** The end of a command: type-ahead is discarded after an interrupt, else submitted in order. */
    method FinishCommand(open: bool)
      requires Enabled(Value(), Finish(open))
      modifies this`mode, this`blockOpen, this`busy, this`running, this`interrupted,
        this`commands, this`stdin, this`discarded, this`handled
      ensures Value() == Step(old(Value()), Finish(open))
    {
      hide RouteOf, Accept;
      busy, running, blockOpen := false, false, open;
      var items := Drain();
      if interrupted {
        discarded := discarded + items;
        interrupted := false;
        return;
      }
      ghost var done := Value();
      var i := 0;
      while i < |items|
        invariant 0 <= i <= |items|
        invariant AcceptAll(Value(), items[i..]) == AcceptAll(done, items)
      {
        assert items[i..][0] == items[i] && items[i..][1..] == items[i + 1..];
        SubmitLine(items[i]);
        i := i + 1;
      }
    }
  }
}
