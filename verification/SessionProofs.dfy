/** What every step, and so every run, of the session manager keeps. */
module SessionProofs {
  import opened Prelude
  import ControlFilter
  import opened PtyOutput
  import opened SessionModel

  // ---------------------------------------------------------------- frames

  lemma ScreenAfterOutput(log: seq<Frame>, id: nat, data: Bytes)
    ensures Screen(log + [Output(id, data)], id) == Screen(log, id) + data
  {
    assert (log + [Output(id, data)])[..|log|] == log;
  }

  lemma ScreenOfStranger(log: seq<Frame>, id: nat)
    requires forall f :: f in log && f.Output? ==> f.id != id
    ensures Screen(log, id) == []
  {
    if log != [] {
      assert log[|log| - 1] in log;
    }
  }

  lemma ShowAfterOutput(clients: map<nat, seq<Frame>>, id: nat, scrollback: Bytes, out: Bytes)
    requires AllShow(clients, id, scrollback)
    ensures AllShow(SentTo(clients, Output(id, out)), id, LastN(scrollback + out, SCROLLBACK_MAX))
  {
    hide LastN;
    forall c | c in clients
      ensures LastN(Screen(clients[c] + [Output(id, out)], id), SCROLLBACK_MAX) == LastN(scrollback + out, SCROLLBACK_MAX)
    {
      ScreenAfterOutput(clients[c], id, out);
      LastNIncremental(Screen(clients[c], id), out, SCROLLBACK_MAX);
    }
  }

  lemma ShowAfterReset(clients: map<nat, seq<Frame>>, id: nat)
    ensures AllShow(SentTo(clients, Reset), id, [])
  {
  }

  lemma ShowOfStranger(clients: map<nat, seq<Frame>>, id: nat, counter: nat)
    requires LogsOk(clients, counter) && counter < id
    ensures AllShow(clients, id, [])
  {
    forall c | c in clients ensures Screen(clients[c], id) == [] {
      ScreenOfStranger(clients[c], id);
    }
  }

  lemma LogsAfter(clients: map<nat, seq<Frame>>, frame: Frame, counter: nat)
    requires LogsOk(clients, counter) && (frame.Output? ==> frame.id <= counter)
    ensures LogsOk(SentTo(clients, frame), counter)
  {
  }

  // ---------------------------------------------------------------- the tab list

  lemma ListsAfterUpdate(order: seq<nat>, sessions: map<nat, View>, id: nat, v: View)
    requires Lists(order, sessions) && id in sessions
    ensures Lists(order, sessions[id := v])
  {
    assert sessions[id := v].Keys == sessions.Keys;
    assert |sessions[id := v]| == |sessions[id := v].Keys|;
  }

  /** Changing one stored session within its bounds keeps the tab bookkeeping. */
  lemma TabsAfterUpdate(s: State, id: nat, v: View)
    requires TabsOk(s) && id in s.sessions && ViewOk(v)
    ensures TabsOk(s.(sessions := s.sessions[id := v]))
  {
    hide Lists, ViewOk;
    ListsAfterUpdate(s.order, s.sessions, id, v);
  }

  lemma ListsAfterAdd(order: seq<nat>, sessions: map<nat, View>, id: nat, v: View)
    requires Lists(order, sessions) && id !in sessions
    ensures Lists(order + [id], sessions[id := v])
  {
    assert sessions[id := v].Keys == sessions.Keys + {id};
    assert |sessions[id := v]| == |sessions[id := v].Keys|;
  }

  lemma IncreasingAfterAdd(order: seq<nat>, id: nat)
    requires Increasing(order) && forall x :: x in order ==> x < id
    ensures Increasing(order + [id])
  {
    forall i, j | 0 <= i < j < |order| + 1 ensures (order + [id])[i] < (order + [id])[j] {
      assert order[i] in order;
    }
  }

  lemma TabsAfterAdd(s: State, v: View)
    requires TabsOk(s) && |s.sessions| < MAX_SESSIONS && ViewOk(v)
    ensures var id := s.counter + 1;
      TabsOk(s.(counter := id, sessions := s.sessions[id := v], order := s.order + [id]))
  {
    hide Increasing, ViewOk;
    var id := s.counter + 1;
    ListsAfterAdd(s.order, s.sessions, id, v);
    IncreasingAfterAdd(s.order, id);
  }

  lemma CutMembers(order: seq<nat>, i: nat)
    requires Increasing(order) && i < |order|
    ensures Increasing(order[..i] + order[i + 1..])
    ensures forall x :: x in order[..i] + order[i + 1..] ==> x in order && x != order[i]
  {
    var rest := order[..i] + order[i + 1..];
    forall k | 0 <= k < |rest| ensures rest[k] == order[if k < i then k else k + 1] {
    }
  }

  lemma CutKeeps(order: seq<nat>, i: nat, x: nat)
    requires i < |order| && x in order && x != order[i]
    ensures x in order[..i] + order[i + 1..]
  {
    var k :| 0 <= k < |order| && order[k] == x;
    assert x == (order[..i] + order[i + 1..])[if k < i then k else k - 1];
  }

  lemma WithoutMembers(order: seq<nat>, id: nat)
    requires Increasing(order) && id in order
    ensures Increasing(Without(order, id))
    ensures forall x :: x in Without(order, id) <==> x in order && x != id
  {
    hide Increasing;
    var i := IndexOf(order, id);
    CutMembers(order, i);
    forall x | x in order && x != id ensures x in Without(order, id) {
      CutKeeps(order, i, x);
    }
  }

  lemma ListsAfterRemove(order: seq<nat>, sessions: map<nat, View>, id: nat)
    requires Increasing(order) && Lists(order, sessions) && id in order
    ensures Increasing(Without(order, id)) && Lists(Without(order, id), sessions - {id})
  {
    WithoutMembers(order, id);
    assert (sessions - {id}).Keys == sessions.Keys - {id};
    assert |sessions - {id}| == |(sessions - {id}).Keys|;
  }

  lemma TabsAfterRemove(s: State, id: nat)
    requires TabsOk(s) && id in s.order
    ensures TabsOk(s.(sessions := s.sessions - {id}, order := Without(s.order, id)))
  {
    hide Increasing, ViewOk, Lists;
    ListsAfterRemove(s.order, s.sessions, id);
    assert |Without(s.order, id)| == |s.order| - 1;
  }

  lemma SuccessorRemains(order: seq<nat>, id: nat)
    requires id in order
    ensures Successor(order, id) == None <==> Without(order, id) == []
    ensures Successor(order, id).Some? ==> Successor(order, id).value in Without(order, id)
  {
    hide Without;
  }

  // ---------------------------------------------------------------- one step

  lemma {:induction false} EmitKeepsInv(s: State, id: nat, data: Bytes)
    requires Inv(s)
    ensures Inv(EmitStep(s, id, data))
  {
    hide ControlFilter.FilterPending, LastN, Increasing, Lists, Stored, ViewOk, AllShow, LogsOk, SentTo;
    if id in s.sessions {
      var v := s.sessions[id];
      var out := Passed(v, data);
      assert ViewOk(v) by { StoredOk(s.sessions, s.counter, id); }
      EmitViewOk(v, data);
      TabsAfterUpdate(s, id, EmitView(v, data));
      if s.active == Some(id) {
        ShowAfterOutput(s.clients, id, v.scrollback, out);
        StoredOk(s.sessions, s.counter, id);
        LogsAfter(s.clients, Output(id, out), s.counter);
        if out == [] {
          RecordNothing(v);
        }
      }
    }
  }

  lemma StoredOk(sessions: map<nat, View>, counter: nat, id: nat)
    requires Stored(sessions, counter) && id in sessions
    ensures ViewOk(sessions[id]) && id <= counter
  {
  }

  lemma RecordNothing(v: View)
    requires ViewOk(v)
    ensures LastN(v.scrollback + [], SCROLLBACK_MAX) == v.scrollback
  {
    assert v.scrollback + [] == v.scrollback;
  }

  lemma {:induction false} EmitsKeepInv(s: State, id: nat, chunks: seq<Bytes>)
    requires Inv(s)
    ensures Inv(EmitSteps(s, id, chunks))
    decreases chunks
  {
    hide Inv, EmitStep;
    if chunks != [] {
      EmitKeepsInv(s, id, chunks[0]);
      EmitsKeepInv(EmitStep(s, id, chunks[0]), id, chunks[1..]);
    }
  }

  lemma NewViewOk(cols: int, rows: int)
    ensures ViewOk(ResizeView(NEW_VIEW, cols, rows))
  {
  }

  lemma LogsLater(clients: map<nat, seq<Frame>>, counter: nat)
    requires LogsOk(clients, counter)
    ensures LogsOk(clients, counter + 1)
  {
  }

  lemma {:induction false} CreatedInv(s: State, activate: bool)
    requires Inv(s) && |s.sessions| < MAX_SESSIONS
    ensures Inv(Created(s, activate))
  {
    hide LastN, Increasing, Lists, ViewOk, AllShow, LogsOk, SentTo;
    var id := s.counter + 1;
    NewViewOk(s.cols, s.rows);
    TabsAfterAdd(s, ResizeView(NEW_VIEW, s.cols, s.rows));
    ShowOfStranger(s.clients, id, s.counter);
    ShowAfterReset(s.clients, id);
    LogsLater(s.clients, s.counter);
    LogsAfter(s.clients, Reset, id);
  }

  lemma CreateKeepsInv(s: State, activate: bool, startup: seq<Bytes>)
    requires Inv(s)
    ensures Inv(CreateStep(s, activate, startup))
  {
    hide EmitSteps, Created, Inv;
    if |s.sessions| < MAX_SESSIONS {
      CreatedInv(s, activate);
      EmitsKeepInv(Created(s, activate), s.counter + 1, startup);
    }
  }

  lemma ReplayShows(clients: map<nat, seq<Frame>>, id: nat, scrollback: Bytes)
    requires |scrollback| <= SCROLLBACK_MAX
    ensures AllShow(SentTo(SentTo(clients, Reset), Output(id, scrollback)), id, scrollback)
  {
    hide LastN, AllShow, SentTo;
    ShowAfterReset(clients, id);
    ShowAfterOutput(SentTo(clients, Reset), id, [], scrollback);
    assert [] + scrollback == scrollback;
    WholeIsLast(scrollback, SCROLLBACK_MAX);
  }

  /** Switching needs no synchrony beforehand: the reset and the replay establish it. */
  lemma {:induction false} RepaintEstablishesInv(s: State, id: nat)
    requires TabsOk(s) && LogsOk(s.clients, s.counter) && 0 < s.cols && 0 < s.rows && id in s.sessions
    ensures Inv(Repaint(s, id))
  {
    hide LastN, Increasing, Lists, Stored, AllShow, LogsOk, SentTo;
    StoredOk(s.sessions, s.counter, id);
    var shown := ResizeView(s.sessions[id], s.cols, s.rows);
    TabsAfterUpdate(s, id, shown);
    ReplayShows(s.clients, id, shown.scrollback);
    ShowAfterReset(s.clients, id);
    LogsAfter(s.clients, Reset, s.counter);
    LogsAfter(SentTo(s.clients, Reset), Output(id, shown.scrollback), s.counter);
  }

  lemma {:induction false} SwitchKeepsInv(s: State, id: nat)
    requires Inv(s)
    ensures Inv(SwitchStep(s, id))
  {
    hide Repaint, TabsOk, LogsOk, InSync;
    if id in s.sessions && s.active != Some(id) {
      RepaintEstablishesInv(s, id);
    }
  }

  lemma {:induction false} CloseKeepsInv(s: State, id: nat, startup: seq<Bytes>)
    requires Inv(s)
    ensures Inv(CloseStep(s, id, startup))
  {
    hide CreateStep, Repaint, Successor, Without, LogsOk, AllShow, Increasing, Stored;
    if id in s.sessions && id in s.order {
      TabsAfterRemove(s, id);
      SuccessorRemains(s.order, id);
      var removed := s.(sessions := s.sessions - {id}, order := Without(s.order, id));
      if s.active == Some(id) {
        var inactive := removed.(active := None);
        if Successor(s.order, id) == None {
          assert inactive.sessions == map[];
          CreateKeepsInv(inactive, true, startup);
        } else {
          RepaintEstablishesInv(inactive, Successor(s.order, id).value);
        }
      }
    }
  }

  lemma ResizeKeepsInv(s: State, cols: int, rows: int)
    requires Inv(s)
    ensures Inv(ResizeStep(s, cols, rows))
  {
    hide LogsOk, AllShow, Increasing, Lists, Stored;
    if cols > 0 && rows > 0 && s.active.Some? {
      var id := s.active.value;
      StoredOk(s.sessions, s.counter, id);
      TabsAfterUpdate(s, id, ResizeView(s.sessions[id], cols, rows));
    }
  }

  /** What a client that connects now is sent shows exactly the active session's scrollback. */
  lemma ConnectReplay(id: nat, scrollback: Bytes)
    ensures Screen([Reset, Output(id, scrollback)], id) == scrollback
    ensures Screen([Reset], id) == []
  {
    ScreenAfterOutput([Reset], id, scrollback);
    assert [Reset] + [Output(id, scrollback)] == [Reset, Output(id, scrollback)];
    assert Screen([Reset], id) == [];
  }

  lemma ConnectKeepsInv(s: State, client: nat)
    requires Inv(s)
    ensures Inv(ConnectStep(s, client))
  {
    hide LastN, Increasing, Lists, Screen;
    if client !in s.clients && s.active.Some? {
      var scrollback := s.sessions[s.active.value].scrollback;
      ConnectReplay(s.active.value, scrollback);
      WholeIsLast(scrollback, SCROLLBACK_MAX);
    }
  }

  lemma DisconnectKeepsInv(s: State, client: nat)
    requires Inv(s)
    ensures Inv(Step(s, Disconnect(client)))
  {
    hide LastN, Screen, Increasing, Lists, Stored;
  }

  lemma StopKeepsInv(s: State)
    requires Inv(s)
    ensures Inv(Step(s, StopAll))
  {
    hide LogsOk, AllShow;
  }

  lemma {:induction false} StepKeepsInv(s: State, op: Op)
    requires Inv(s)
    ensures Inv(Step(s, op))
  {
    hide Inv, CreateStep, SwitchStep, CloseStep, ResizeStep, EmitStep, ConnectStep;
    match op
    case Create(activate, startup) => CreateKeepsInv(s, activate, startup);
    case Switch(id) => SwitchKeepsInv(s, id);
    case Close(id, startup) => CloseKeepsInv(s, id, startup);
    case Resize(cols, rows) => ResizeKeepsInv(s, cols, rows);
    case Emit(id, data) => EmitKeepsInv(s, id, data);
    case Connect(client) => ConnectKeepsInv(s, client);
    case Disconnect(client) => DisconnectKeepsInv(s, client);
    case StopAll => StopKeepsInv(s);
  }

  // ---------------------------------------------------------------- whole runs

  lemma {:induction false} RunKeepsInv(s: State, ops: seq<Op>)
    requires Inv(s)
    ensures Inv(Run(s, ops))
    decreases ops
  {
    hide Inv, Step;
    if ops != [] {
      StepKeepsInv(s, ops[0]);
      RunKeepsInv(Step(s, ops[0]), ops[1..]);
    }
  }

  /** In every reachable state, every client's view of the active session is its scrollback. */
  lemma {:induction false} EveryRunInSync(ops: seq<Op>)
    ensures Inv(Run(START, ops))
    ensures var s := Run(START, ops);
      s.active.Some? ==>
        && s.active.value in s.sessions
        && forall c :: c in s.clients ==>
          LastN(Screen(s.clients[c], s.active.value), SCROLLBACK_MAX) == s.sessions[s.active.value].scrollback
  {
    hide Run, LastN, Screen;
    assert Inv(START);
    RunKeepsInv(START, ops);
  }
}
