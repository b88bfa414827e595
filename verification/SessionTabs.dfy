/** Tab succession and identity over whole runs of the session manager. */
module SessionTabs {
  import opened Prelude
  import ControlFilter
  import opened PtyOutput
  import opened SessionModel
  import SessionProofs

  lemma {:induction false} EmitsKeepTabs(s: State, id: nat, chunks: seq<Bytes>)
    ensures var t := EmitSteps(s, id, chunks);
      t.sessions.Keys == s.sessions.Keys && t.order == s.order && t.active == s.active && t.counter == s.counter
    decreases chunks
  {
    hide ControlFilter.FilterPending, LastN;
    if chunks != [] {
      var next := EmitStep(s, id, chunks[0]);
      assert next.sessions.Keys == s.sessions.Keys;
      EmitsKeepTabs(next, id, chunks[1..]);
    }
  }

  lemma CreateTabs(s: State, activate: bool, startup: seq<Bytes>)
    requires |s.sessions| < MAX_SESSIONS
    ensures var t := CreateStep(s, activate, startup);
      && t.sessions.Keys == s.sessions.Keys + {s.counter + 1}
      && t.order == s.order + [s.counter + 1]
      && t.counter == s.counter + 1
      && t.active == (if activate || s.active == None then Some(s.counter + 1) else s.active)
  {
    hide EmitSteps, Created;
    CreatedTabs(s, activate);
    EmitsKeepTabs(Created(s, activate), s.counter + 1, startup);
  }

  lemma CreatedTabs(s: State, activate: bool)
    ensures var t := Created(s, activate);
      && t.sessions.Keys == s.sessions.Keys + {s.counter + 1}
      && t.order == s.order + [s.counter + 1]
      && t.counter == s.counter + 1
      && t.active == (if activate || s.active == None then Some(s.counter + 1) else s.active)
  {
    hide SentTo, ResizeView;
  }

  /** Where the neighbour of a tab is found in the list it was taken from. */
  lemma SuccessorIsNeighbour(order: seq<nat>, id: nat)
    requires Increasing(order) && id in order && |order| > 1
    ensures var i := IndexOf(order, id);
      Successor(order, id) == Some(if i + 1 < |order| then order[i + 1] else order[i - 1])
  {
  }

  lemma CloseOnlyTab(s: State, id: nat, startup: seq<Bytes>)
    requires Inv(s) && s.sessions.Keys == {id}
    ensures s.order == [id] && s.active == Some(id)
    ensures var t := CloseStep(s, id, startup);
      id !in t.sessions && t.sessions.Keys == {s.counter + 1} && t.order == [s.counter + 1] && t.active == Some(s.counter + 1)
      && t.counter == s.counter + 1
  {
    hide CreateStep, LogsOk, InSync, ViewOk, Increasing;
    assert |s.sessions| == |s.sessions.Keys| == 1;
    assert id in s.order;
    assert s.order == [id] && Without([id], id) == [];
    InvOfEmptied(s, id);
    var inactive := s.(sessions := s.sessions - {id}, order := [], active := None);
    CreateTabs(inactive, true, startup);
    assert [] + [s.counter + 1] == [s.counter + 1];
  }

  lemma {:induction false} CloseOneOfMany(s: State, id: nat, startup: seq<Bytes>)
    requires Increasing(s.order) && Lists(s.order, s.sessions) && s.active.Some?
    requires id in s.order && |s.order| > 1
    ensures var t := CloseStep(s, id, startup);
      && t.sessions.Keys == s.sessions.Keys - {id}
      && t.order == Without(s.order, id)
      && t.active == (if s.active == Some(id) then Successor(s.order, id) else s.active)
      && t.counter == s.counter
  {
    hide CreateStep, Successor, Without, SentTo, ResizeView, Increasing, IndexOf;
    var rest := s.sessions - {id};
    assert rest.Keys == s.sessions.Keys - {id};
    NeighbourListed(s.order, s.sessions, id);
    var inactive := s.(sessions := rest, order := Without(s.order, id), active := None);
    var next := Successor(s.order, id).value;
    assert Repaint(inactive, next).sessions.Keys == rest.Keys;
  }

  lemma NeighbourListed(order: seq<nat>, sessions: map<nat, View>, id: nat)
    requires Increasing(order) && Lists(order, sessions) && id in order && |order| > 1
    ensures Successor(order, id).Some? && Successor(order, id).value in sessions - {id}
  {
    hide Successor, Without;
    SuccessorIsNeighbour(order, id);
    SessionProofs.SuccessorRemains(order, id);
    SessionProofs.WithoutMembers(order, id);
  }

  /** `close`: the closed tab is gone, some tab remains, and the screen goes to the tab on the right,
      to the left one when the last tab was closed, or to a new one when it was the only tab. */
  lemma CloseSuccession(s: State, id: nat, startup: seq<Bytes>)
    requires Inv(s) && id in s.sessions
    ensures id in s.order
    ensures var t := CloseStep(s, id, startup);
      var i := IndexOf(s.order, id);
      && id !in t.sessions && t.sessions.Keys != {}
      && (|s.order| == 1 ==> t.order == [s.counter + 1] && t.active == Some(s.counter + 1))
      && (|s.order| > 1 ==>
        && t.order == s.order[..i] + s.order[i + 1..]
        && t.active == if s.active != Some(id) then s.active
                       else Some(if i + 1 < |s.order| then s.order[i + 1] else s.order[i - 1]))
  {
    hide CloseStep, Successor, ActiveOk, LogsOk, InSync, Stored;
    if |s.order| == 1 {
      assert forall x :: x in s.sessions ==> x in s.order;
      assert s.sessions.Keys == {id};
      CloseOnlyTab(s, id, startup);
      assert s.counter + 1 in CloseStep(s, id, startup).sessions.Keys;
    } else {
      assert s.active.Some? by { OpenHasActive(s); }
      CloseOneOfMany(s, id, startup);
      SuccessorIsNeighbour(s.order, id);
      var other := s.order[if s.order[0] == id then 1 else 0];
      assert other in s.order && other in CloseStep(s, id, startup).sessions.Keys;
    }
  }

  lemma OpenHasActive(s: State)
    requires ActiveOk(s) && s.sessions != map[]
    ensures s.active.Some?
  {
  }

  lemma InvOfEmptied(s: State, id: nat)
    requires Inv(s) && s.sessions.Keys == {id}
    ensures Inv(s.(sessions := s.sessions - {id}, order := [], active := None))
  {
    assert s.sessions - {id} == map[];
  }

  lemma {:induction false} KeysOfStep(s: State, op: Op)
    requires Inv(s)
    ensures s.counter <= Step(s, op).counter
    ensures forall id :: id in Step(s, op).sessions && id !in s.sessions ==> s.counter < id
  {
    hide CreateStep, EmitStep, CloseStep, ControlFilter.FilterPending, LastN, Screen, Successor, LogsOk, AllShow;
    match op
    case Create(activate, startup) =>
      if |s.sessions| < MAX_SESSIONS {
        CreateTabs(s, activate, startup);
      } else {
        assert CreateStep(s, activate, startup) == s by { CreateAtCap(s, activate, startup); }
      }
    case Close(id, startup) => KeysOfClose(s, id, startup);
    case Emit(id, data) => EmitsKeepTabs(s, id, [data]);
      assert [data][1..] == [];
      assert EmitSteps(EmitStep(s, id, data), id, []) == EmitStep(s, id, data);
    case Switch(id) =>
    case Resize(cols, rows) =>
    case Connect(client) =>
    case Disconnect(client) =>
    case StopAll =>
  }

  lemma CreateAtCap(s: State, activate: bool, startup: seq<Bytes>)
    requires |s.sessions| >= MAX_SESSIONS
    ensures CreateStep(s, activate, startup) == s
  {
  }

  lemma KeysOfClose(s: State, id: nat, startup: seq<Bytes>)
    requires Inv(s)
    ensures s.counter <= CloseStep(s, id, startup).counter
    ensures forall other :: other in CloseStep(s, id, startup).sessions && other !in s.sessions ==> s.counter < other
  {
    hide CloseStep, Successor, ActiveOk, LogsOk, InSync, Stored, Increasing, Without;
    if id !in s.sessions {
      CloseUnknown(s, id, startup);
    } else if |s.order| == 1 {
      assert forall x :: x in s.sessions ==> x in s.order;
      assert s.sessions.Keys == {id};
      CloseOnlyTab(s, id, startup);
      assert forall x :: x in CloseStep(s, id, startup).sessions ==> x in CloseStep(s, id, startup).sessions.Keys;
    } else {
      assert id in s.order;
      OpenHasActive(s);
      CloseOneOfMany(s, id, startup);
      assert forall x :: x in CloseStep(s, id, startup).sessions ==> x in CloseStep(s, id, startup).sessions.Keys;
    }
  }

  lemma CloseUnknown(s: State, id: nat, startup: seq<Bytes>)
    requires id !in s.sessions
    ensures CloseStep(s, id, startup) == s
  {
  }

  /** Over every run an id that was given out and whose session is gone never names a session again. */
  lemma {:induction false} IdsAreNeverReused(s: State, ops: seq<Op>, id: nat)
    requires Inv(s) && id <= s.counter && id !in s.sessions
    ensures id !in Run(s, ops).sessions && s.counter <= Run(s, ops).counter
    decreases ops
  {
    hide Inv, Step;
    if ops != [] {
      SessionProofs.StepKeepsInv(s, ops[0]);
      KeysOfStep(s, ops[0]);
      IdsAreNeverReused(Step(s, ops[0]), ops[1..], id);
    }
  }

  // ---------------------------------------------------------------- geometry and isolation

  /** `resize` reaches the visible session only; the others keep theirs until they are shown. */
  lemma ResizeReachesVisibleOnly(s: State, cols: int, rows: int, id: nat)
    requires Inv(s) && id in s.sessions && cols > 0 && rows > 0
    ensures var t := ResizeStep(s, cols, rows);
      && id in t.sessions && t.cols == cols && t.rows == rows && t.clients == s.clients
      && (if s.active == Some(id) then t.sessions[id] == s.sessions[id].(cols := cols, rows := rows)
          else t.sessions[id] == s.sessions[id])
    ensures var t := SwitchStep(ResizeStep(s, cols, rows), id);
      id in t.sessions && t.sessions[id].cols == cols && t.sessions[id].rows == rows
  {
    hide LogsOk, AllShow, Increasing, Stored, SentTo;
  }

  ghost predicate SameOutput(v: View, w: View) {
    v.tail == w.tail && v.scrollback == w.scrollback
  }

  lemma {:induction false} EmitsElsewhere(s: State, other: nat, chunks: seq<Bytes>, id: nat)
    requires id in s.sessions && id != other
    ensures id in EmitSteps(s, other, chunks).sessions && EmitSteps(s, other, chunks).sessions[id] == s.sessions[id]
    decreases chunks
  {
    hide ControlFilter.FilterPending, LastN, SentTo;
    if chunks != [] {
      EmitsElsewhere(EmitStep(s, other, chunks[0]), other, chunks[1..], id);
    }
  }

  lemma CreateElsewhere(s: State, activate: bool, startup: seq<Bytes>, id: nat)
    requires id in s.sessions && id <= s.counter
    ensures var t := CreateStep(s, activate, startup); id in t.sessions && t.sessions[id] == s.sessions[id]
  {
    hide EmitSteps, SentTo, ResizeView;
    if |s.sessions| < MAX_SESSIONS {
      EmitsElsewhere(Created(s, activate), s.counter + 1, startup, id);
    }
  }

  /** The recorded output of a session changes by its own emits only, shown or not. */
  lemma StepKeepsOutput(s: State, op: Op, id: nat)
    requires Inv(s) && id in s.sessions && !op.StopAll? && !(op.Close? && op.id == id)
    ensures id in Step(s, op).sessions
    ensures SameOutput(Step(s, op).sessions[id],
                       if op.Emit? && op.id == id then EmitView(s.sessions[id], op.data) else s.sessions[id])
  {
    hide CreateStep, ControlFilter.FilterPending, LastN, SentTo, LogsOk, AllShow, Increasing, ViewOk, Successor,
      Without;
    match op
    case Create(activate, startup) => CreateElsewhere(s, activate, startup, id);
    case Switch(other) =>
    case Close(other, startup) =>
      if other in s.sessions && s.active == Some(other) {
        assert other in s.order;
        var inactive := s.(sessions := s.sessions - {other}, order := Without(s.order, other), active := None);
        CreateElsewhere(inactive, true, startup, id);
      }
    case Resize(cols, rows) =>
    case Emit(other, data) =>
    case Connect(client) =>
    case Disconnect(client) =>
    case StopAll =>
  }

  /** The chunks a run makes a session emit. */
  function ChunksOf(ops: seq<Op>, id: nat): seq<Bytes> {
    if ops == [] then []
    else (if ops[0].Emit? && ops[0].id == id then [ops[0].data] else []) + ChunksOf(ops[1..], id)
  }

  lemma {:induction false} SameOutputEmits(v: View, w: View, chunks: seq<Bytes>)
    requires SameOutput(v, w)
    ensures SameOutput(EmitChunks(v, chunks), EmitChunks(w, chunks))
    decreases chunks
  {
    hide ControlFilter.FilterPending, LastN;
    if chunks != [] {
      SameOutputEmits(EmitView(v, chunks[0]), EmitView(w, chunks[0]), chunks[1..]);
    }
  }

  /** Isolation: whatever else happens in a run, what a session has recorded is what it emitted itself. */
  lemma {:induction false} OnlyOwnOutput(s: State, ops: seq<Op>, id: nat)
    requires Inv(s) && id in s.sessions
    requires forall op :: op in ops ==> !op.StopAll? && !(op.Close? && op.id == id)
    ensures id in Run(s, ops).sessions
    ensures SameOutput(Run(s, ops).sessions[id], EmitChunks(s.sessions[id], ChunksOf(ops, id)))
    decreases ops
  {
    hide Inv, Step, EmitView;
    if ops != [] {
      assert ops[0] in ops;
      SessionProofs.StepKeepsInv(s, ops[0]);
      StepKeepsOutput(s, ops[0], id);
      var t := Step(s, ops[0]);
      OnlyOwnOutput(t, ops[1..], id);
      var rest := ChunksOf(ops[1..], id);
      if ops[0].Emit? && ops[0].id == id {
        assert ([ops[0].data] + rest)[1..] == rest;
        SameOutputEmits(t.sessions[id], EmitView(s.sessions[id], ops[0].data), rest);
      } else {
        assert [] + rest == rest;
        SameOutputEmits(t.sessions[id], s.sessions[id], rest);
      }
    }
  }
}
