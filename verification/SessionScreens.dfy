/** Consequences of the session invariant: which bytes share the screen, tab succession, ids. */
module SessionScreens {
  import opened Prelude
  import opened ControlFilter
  import PtyOutput
  import opened SessionModel
  import SessionProofs

  // ---------------------------------------------------------------- one session per screen

  /** Everything on this client's screen since its last reset belongs to the given session. */
  ghost predicate Unmixed(log: seq<Frame>, active: Option<nat>) {
    forall f :: f in SinceReset(log) ==> f.Output? && active == Some(f.id)
  }

  ghost predicate AllUnmixed(clients: map<nat, seq<Frame>>, active: Option<nat>) {
    forall c :: c in clients ==> Unmixed(clients[c], active)
  }

  ghost predicate AllBlank(clients: map<nat, seq<Frame>>) {
    forall c :: c in clients ==> SinceReset(clients[c]) == []
  }

  ghost predicate Pure(s: State) {
    AllUnmixed(s.clients, s.active)
  }

  /** The operation takes away the only session. */
  predicate DropsLastTab(s: State, op: Op) {
    op.StopAll? || (op.Close? && s.sessions.Keys == {op.id})
  }

  lemma SinceResetAfter(log: seq<Frame>, frame: Frame)
    ensures SinceReset(log + [frame]) == (if frame.Reset? then [] else SinceReset(log) + [frame])
  {
    assert (log + [frame])[..|log|] == log;
  }

  lemma UnmixedAfterOutput(clients: map<nat, seq<Frame>>, id: nat, data: Bytes)
    ensures AllUnmixed(SentTo(clients, Output(id, data)), Some(id)) <==> AllUnmixed(clients, Some(id))
  {
    hide SinceReset;
    forall c | c in clients
      ensures Unmixed(clients[c] + [Output(id, data)], Some(id)) <==> Unmixed(clients[c], Some(id))
    {
      SinceResetAfter(clients[c], Output(id, data));
      forall f | f in SinceReset(clients[c]) ensures f in SinceReset(clients[c] + [Output(id, data)]) {
      }
    }
    var sent := SentTo(clients, Output(id, data));
    if AllUnmixed(sent, Some(id)) {
      forall c | c in clients ensures Unmixed(clients[c], Some(id)) {
        assert Unmixed(sent[c], Some(id));
      }
    }
  }

  lemma UnmixedAfterReset(clients: map<nat, seq<Frame>>, active: Option<nat>)
    ensures AllUnmixed(SentTo(clients, Reset), active)
  {
    forall c | c in clients ensures Unmixed(clients[c] + [Reset], active) {
      SinceResetAfter(clients[c], Reset);
    }
  }

  /** With a session on screen that never wrote, or with none, the screen is unmixed iff blank. */
  lemma UnmixedOfStranger(clients: map<nat, seq<Frame>>, active: Option<nat>, counter: nat)
    requires LogsOk(clients, counter) && (active.Some? ==> counter < active.value)
    ensures AllUnmixed(clients, active) <==> AllBlank(clients)
  {
    forall c | c in clients ensures Unmixed(clients[c], active) <==> SinceReset(clients[c]) == [] {
      SinceResetWithin(clients[c]);
      if SinceReset(clients[c]) != [] {
        assert SinceReset(clients[c])[0] in clients[c];
      }
    }
  }

  lemma {:induction false} SinceResetWithin(log: seq<Frame>)
    ensures forall f :: f in SinceReset(log) ==> f in log
  {
    if log != [] {
      SinceResetWithin(log[..|log| - 1]);
    }
  }

  lemma EmitKeepsPurity(s: State, id: nat, data: Bytes)
    ensures EmitStep(s, id, data).active == s.active
    ensures Pure(EmitStep(s, id, data)) <==> Pure(s)
  {
    hide FilterPending, LastN, AllUnmixed, SentTo;
    if id in s.sessions {
      UnmixedAfterOutput(s.clients, id, PtyOutput.Passed(s.sessions[id], data));
    }
  }

  lemma {:induction false} EmitsKeepPurity(s: State, id: nat, chunks: seq<Bytes>)
    ensures EmitSteps(s, id, chunks).active == s.active
    ensures Pure(EmitSteps(s, id, chunks)) <==> Pure(s)
    decreases chunks
  {
    hide Pure, EmitStep;
    if chunks != [] {
      EmitKeepsPurity(s, id, chunks[0]);
      EmitsKeepPurity(EmitStep(s, id, chunks[0]), id, chunks[1..]);
    }
  }

  /** From a state without an active session, create leaves the screens pure iff they were blank. */
  lemma CreatePurity(s: State, activate: bool, startup: seq<Bytes>)
    requires Inv(s)
    ensures s.active.Some? && Pure(s) ==> Pure(CreateStep(s, activate, startup))
    ensures s.active == None ==> (Pure(CreateStep(s, activate, startup)) <==> AllBlank(s.clients))
  {
    hide EmitSteps, AllUnmixed, SentTo, AllBlank, LogsOk, TabsOk, InSync;
    if |s.sessions| < MAX_SESSIONS {
      EmitsKeepPurity(Created(s, activate), s.counter + 1, startup);
      UnmixedAfterReset(s.clients, Some(s.counter + 1));
      UnmixedOfStranger(s.clients, Some(s.counter + 1), s.counter);
    }
  }

  lemma RepaintPurity(s: State, id: nat)
    requires id in s.sessions
    ensures Pure(Repaint(s, id))
  {
    hide AllUnmixed, SentTo;
    UnmixedAfterReset(s.clients, Some(id));
    UnmixedAfterOutput(SentTo(s.clients, Reset), id, s.sessions[id].scrollback);
  }

  lemma ClosePurity(s: State, id: nat, startup: seq<Bytes>)
    requires Inv(s) && Pure(s)
    ensures Pure(CloseStep(s, id, startup)) <==> (s.sessions.Keys == {id} ==> AllBlank(s.clients))
  {
    hide CreateStep, Repaint, Successor, Without, LogsOk, AllShow, Increasing, Stored, AllUnmixed, AllBlank;
    if id in s.sessions && id in s.order {
      SessionProofs.TabsAfterRemove(s, id);
      SessionProofs.SuccessorRemains(s.order, id);
      var inactive := s.(sessions := s.sessions - {id}, order := Without(s.order, id), active := None);
      assert inactive.sessions.Keys == s.sessions.Keys - {id};
      if Successor(s.order, id) == None {
        assert s.sessions.Keys == {id};
        CreatePurity(inactive, true, startup);
      } else {
        assert Successor(s.order, id).value in inactive.sessions;
        RepaintPurity(inactive, Successor(s.order, id).value);
      }
    }
  }

  lemma ConnectPurity(s: State, client: nat)
    requires Pure(s)
    ensures Pure(ConnectStep(s, client))
  {
    hide Screen;
    var t := ConnectStep(s, client);
    if client !in s.clients {
      assert SinceReset([Reset]) == [];
      if s.active.Some? {
        SinceResetAfter([Reset], t.clients[client][|t.clients[client]| - 1]);
      }
      if |t.clients[client]| == 2 {
        assert t.clients[client] == [Reset] + [t.clients[client][1]];
      }
      forall c | c in t.clients ensures Unmixed(t.clients[c], t.active) {
      }
    }
  }

  /** Clients see only the active session after any step but one: taking away the only session
      leaves its output on every screen that was not blank, because nothing resets it. */
  lemma {:induction false} StepPurity(s: State, op: Op)
    requires Inv(s) && Pure(s)
    ensures Pure(Step(s, op)) <==> (DropsLastTab(s, op) ==> AllBlank(s.clients))
  {
    hide CreateStep, Repaint, CloseStep, EmitStep, ConnectStep, AllUnmixed, AllBlank, LogsOk, TabsOk, InSync;
    match op
    case Create(activate, startup) =>
      CreatePurity(s, activate, startup);
      UnmixedOfStrangerIfNone(s);
    case Switch(id) =>
      if id in s.sessions {
        RepaintPurity(s, id);
      }
    case Close(id, startup) => ClosePurity(s, id, startup);
    case Resize(cols, rows) =>
    case Emit(id, data) => EmitKeepsPurity(s, id, data);
    case Connect(client) => ConnectPurity(s, client);
    case Disconnect(client) => UnmixedSubset(s.clients, client, s.active);
    case StopAll =>
      UnmixedOfStranger(s.clients, None, s.counter);
  }

  lemma UnmixedOfStrangerIfNone(s: State)
    requires Inv(s) && Pure(s)
    ensures s.active == None ==> AllBlank(s.clients)
  {
    if s.active == None {
      UnmixedOfStranger(s.clients, None, s.counter);
    }
  }

  lemma UnmixedSubset(clients: map<nat, seq<Frame>>, client: nat, active: Option<nat>)
    requires AllUnmixed(clients, active)
    ensures AllUnmixed(clients - {client}, active)
  {
  }

  /** A run in which the only session is never taken away from a screen that shows something. */
  ghost predicate KeepsATab(s: State, ops: seq<Op>)
    decreases ops
  {
    ops == [] ||
      ((DropsLastTab(s, ops[0]) ==> AllBlank(s.clients)) && KeepsATab(Step(s, ops[0]), ops[1..]))
  }

  /** Clients see only the active session since their last reset in every state the run goes through. */
  ghost predicate PureThroughout(s: State, ops: seq<Op>) {
    forall k :: 0 <= k <= |ops| ==> Pure(Run(s, ops[..k]))
  }

  lemma PureThroughoutStep(s: State, ops: seq<Op>)
    requires ops != []
    ensures PureThroughout(s, ops) <==> Pure(s) && PureThroughout(Step(s, ops[0]), ops[1..])
  {
    hide Pure, Step;
    var t := Step(s, ops[0]);
    forall k | 0 < k <= |ops| ensures Run(s, ops[..k]) == Run(t, ops[1..][..k - 1]) {
      assert ops[..k][1..] == ops[1..][..k - 1];
    }
    assert Run(s, ops[..0]) == s;
    if PureThroughout(s, ops) {
      forall k | 0 <= k <= |ops| - 1 ensures Pure(Run(t, ops[1..][..k])) {
        assert Pure(Run(s, ops[..k + 1]));
      }
    }
  }

  /** Whole runs: the screens stay pure throughout if and only if no step drops the last tab from a screen
      that shows something. */
  lemma {:induction false} RunPurity(s: State, ops: seq<Op>)
    requires Inv(s) && Pure(s)
    ensures PureThroughout(s, ops) <==> KeepsATab(s, ops)
    decreases ops
  {
    hide Inv, Step, Pure, DropsLastTab, AllBlank, PureThroughout, Run;
    if ops == [] {
      PureAtStart(s);
    } else {
      SessionProofs.StepKeepsInv(s, ops[0]);
      StepPurity(s, ops[0]);
      PureThroughoutStep(s, ops);
      if PureThroughout(s, ops) {
        PureThroughoutFirst(Step(s, ops[0]), ops[1..]);
      }
      if Pure(Step(s, ops[0])) {
        RunPurity(Step(s, ops[0]), ops[1..]);
      }
    }
  }

  lemma PureAtStart(s: State)
    requires Pure(s)
    ensures PureThroughout(s, [])
  {
    hide Pure;
    var none: seq<Op> := [];
    assert none[..0] == none;
  }

  lemma PureThroughoutFirst(s: State, ops: seq<Op>)
    requires PureThroughout(s, ops)
    ensures Pure(s) && Pure(Run(s, ops))
  {
    hide Pure, Step;
    assert Run(s, ops[..0]) == s;
    assert ops[..|ops|] == ops;
  }

  /** On such runs, all a client was sent since its last reset is the active session's screen,
      and its last MiB is that session's scrollback. */
  lemma ScreenSinceReset(ops: seq<Op>, client: nat)
    requires KeepsATab(START, ops) && client in Run(START, ops).clients
    ensures var s := Run(START, ops);
      s.active.Some? ==>
        && s.active.value in s.sessions
        && LastN(Payload(SinceReset(s.clients[client])), PtyOutput.SCROLLBACK_MAX) == s.sessions[s.active.value].scrollback
  {
    hide Run, LastN, Screen, KeepsATab, SinceReset, Payload;
    SessionProofs.EveryRunInSync(ops);
    RunPurity(START, ops);
    PureThroughoutFirst(START, ops);
    var s := Run(START, ops);
    if s.active.Some? {
      assert Unmixed(s.clients[client], s.active);
      UnmixedScreen(s.clients[client], s.active.value);
    }
  }

  lemma {:induction false} UnmixedScreen(log: seq<Frame>, id: nat)
    requires Unmixed(log, Some(id))
    ensures Payload(SinceReset(log)) == Screen(log, id)
  {
    if log != [] && log[|log| - 1].Output? {
      var last := log[|log| - 1];
      var front := SinceReset(log[..|log| - 1]);
      assert SinceReset(log) == front + [last];
      assert last in SinceReset(log);
      assert forall f :: f in front ==> f in SinceReset(log);
      UnmixedScreen(log[..|log| - 1], id);
      assert (front + [last])[..|front|] == front;
    }
  }

  /** The failing family is real: close the only tab of a client that has seen one byte. */
  lemma {:induction false} LastTabLeavesItsScreen()
    ensures var s := Run(START, [Connect(0), Create(true, [[65]]), Close(1, [])]);
      s.active == Some(2) && 0 in s.clients && Output(1, [65]) in SinceReset(s.clients[0])
  {
    hide FilterPending;
    OneLetterPasses();
    var s1 := Step(START, Connect(0));
    assert s1.clients == map[0 := [Reset]];
    FirstTab(s1);
    var s2 := Step(s1, Create(true, [[65]]));
    var s3 := Step(s2, Close(1, []));
    assert Without([1], 1) == [];
    assert s3.clients[0] == s2.clients[0] && s3.active == Some(2);
    SinceResetAfter([Reset], Output(1, [65]));
    assert [Reset] + [Output(1, [65])] == [Reset, Output(1, [65])];
    RunThree(START, Connect(0), Create(true, [[65]]), Close(1, []));
  }

  /** The first tab writes one byte to the one client. */
  lemma FirstTab(s: State)
    requires s == START.(clients := map[0 := [Reset]])
    ensures var t := Step(s, Create(true, [[65]]));
      && t.order == [1] && t.sessions.Keys == {1} && t.active == Some(1) && t.counter == 1
      && t.clients == map[0 := [Reset, Output(1, [65])]]
  {
    hide PtyOutput.Passed, PtyOutput.EmitView;
    OneLetterPasses();
    var c := Created(s, true);
    assert [[65]][1..] == [];
    assert EmitSteps(c, 1, [[65]]) == EmitStep(c, 1, [65]);
    assert [Reset] + [Output(1, [65])] == [Reset, Output(1, [65])];
  }

  lemma RunThree(s: State, a: Op, b: Op, c: Op)
    ensures Run(s, [a, b, c]) == Step(Step(Step(s, a), b), c)
  {
    hide Step;
    var t := Step(s, a);
    var u := Step(t, b);
    assert [a, b, c][1..] == [b, c];
    assert [b, c][1..] == [c];
    assert [c][1..] == [];
    assert Run(Step(u, c), []) == Step(u, c);
    assert Run(u, [c]) == Step(u, c);
    assert Run(t, [b, c]) == Run(u, [c]);
  }

  lemma OneLetterPasses()
    ensures forall v: PtyOutput.View :: v.tail == [] ==> PtyOutput.Passed(v, [65]) == [65]
  {
    hide HeldLength;
    var letter: Bytes := [65];
    ShortHasNoOccurrence(letter, STORAGE_SETUP_OSC);
    assert HeldLength(letter, STORAGE_SETUP_OSC) == 0 by {
      assert letter[0..] == letter && STORAGE_SETUP_OSC[..1] == [0x1b];
      assert !MayStart(letter, STORAGE_SETUP_OSC, 1);
    }
    assert FilterPending(letter, STORAGE_SETUP_OSC).out == letter;
    assert [] + letter == letter;
  }
}
