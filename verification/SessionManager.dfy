/** The objects of sessions.py and the client list of ws_server.py, refining SessionModel. */
module SessionManager {
  import opened Prelude
  import ControlFilter
  import opened PtyOutput
  import opened SessionModel
  import opened SessionProofs

  /** The connected clients, each with the frames it was sent. */
  class WsServer {
    var clients: map<nat, seq<Frame>>

    constructor ()
      ensures clients == map[]
    {
      clients := map[];
    }

    method BroadcastFrame(frame: Frame)
      modifies this
      ensures clients == SentTo(old(clients), frame)
    {
      clients := map c | c in clients :: clients[c] + [frame];
    }

    /** The replay of a connecting client: the reset, then the active session's scrollback. */
    method Connect(client: nat, manager: Manager)
      requires manager.server == this && manager.Valid() && client !in clients
      modifies this
      ensures manager.State() == ConnectStep(old(manager.State()), client) && manager.Valid()
    {
      hide Inv, LastN;
      ghost var before := manager.State();
      ConnectKeepsInv(before, client);
      ActiveIsListed(before);
      var replay := [Reset];
      if manager.active.Some? {
        var scrollback := manager.sessions[manager.active.value].GetScrollback();
        if scrollback != [] {
          replay := replay + [Output(manager.active.value, scrollback)];
          assert replay == [Reset, Output(manager.active.value, scrollback)];
        }
      }
      clients := clients[client := replay];
      assert manager.State() == ConnectStep(before, client);
    }

    method Disconnect(client: nat)
      modifies this
      ensures clients == old(clients) - {client}
    {
      clients := clients - {client};
    }
  }

  class Manager {
    const server: WsServer
    var sessions: map<nat, PtySession>
    var order: seq<nat>
    var active: Option<nat>
    var counter: nat
    var cols: int
    var rows: int

    ghost function Views(): map<nat, View>
      reads this`sessions, sessions.Values
    {
      map id | id in sessions :: sessions[id].State()
    }

    lemma SameSize()
      ensures |Views()| == |sessions|
    {
      assert Views().Keys == sessions.Keys;
      assert |Views()| == |Views().Keys| && |sessions| == |sessions.Keys|;
    }

    ghost function State(): State
      reads this, server, sessions.Values
    {
      SessionModel.State.State(Views(), order, active, counter, cols, rows, server.clients)
    }

    /** Every session carries the id it is stored under, so no object is stored twice. */
    ghost predicate Labelled()
      reads this`sessions
    {
      forall id :: id in sessions ==> sessions[id].id == id
    }

    ghost predicate Valid()
      reads this, server, sessions.Values
    {
      Inv(State()) && Labelled()
    }

    constructor (server: WsServer)
      requires server.clients == map[]
      ensures Valid() && State() == START && this.server == server
    {
      this.server := server;
      sessions, order, active, counter, cols, rows := map[], [], None, 0, 80, 24;
      new;
      assert State() == START;
    }

    /** What a session's emit callback does with a chunk of its output. */
    method Emit(id: nat, data: Bytes)
      requires Valid() && id in sessions
      modifies server, sessions.Values
      ensures Valid() && State() == EmitStep(old(State()), id, data)
      ensures sessions == old(sessions)
    {
      hide Inv, ControlFilter.FilterPending, LastN;
      ghost var before := State();
      EmitKeepsInv(before, id, data);
      InvStored(before);
      StoredOk(before.sessions, before.counter, id);
      var passed, _ := sessions[id].Emit(data);
      if passed != [] && active == Some(id) {
        server.BroadcastFrame(Output(id, passed));
      }
      assert Views() == before.sessions[id := EmitView(before.sessions[id], data)];
    }

    /** A new session writes the given chunks while it starts. */
    method Start(id: nat, startup: seq<Bytes>)
      requires Valid() && id in sessions
      modifies server, sessions.Values
      ensures Valid() && State() == EmitSteps(old(State()), id, startup)
      ensures sessions == old(sessions)
    {
      hide Inv, EmitStep;
      ghost var before := State();
      var i := 0;
      while i < |startup|
        invariant 0 <= i <= |startup|
        invariant Valid() && sessions == old(sessions)
        invariant EmitSteps(State(), id, startup[i..]) == EmitSteps(before, id, startup)
      {
        assert startup[i..][0] == startup[i] && startup[i..][1..] == startup[i + 1..];
        Emit(id, startup[i]);
        i := i + 1;
      }
    }

    method ResizeOne(id: nat)
      requires Labelled() && id in sessions
      modifies sessions[id]
      ensures Labelled() && Views() == old(Views())[id := ResizeView(old(Views())[id], cols, rows)]
    {
      sessions[id].Resize(cols, rows);
    }

    /** A new session object under the next id, sized to the manager's geometry. */
    method AddSession() returns (id: nat)
      requires Labelled() && counter + 1 !in sessions
      modifies this`sessions, this`counter, this`order
      ensures id == counter == old(counter) + 1 && order == old(order) + [id]
      ensures Labelled() && Views() == old(Views())[id := ResizeView(NEW_VIEW, cols, rows)]
      ensures id in sessions && fresh(sessions[id]) && sessions == old(sessions)[id := sessions[id]]
    {
      counter := counter + 1;
      id := counter;
      var session := new PtySession(id);
      sessions := sessions[id := session];
      order := order + [id];
      session.Resize(cols, rows);
    }

    /** `create` up to the start of the new session. */
    method OpenTab(activate: bool) returns (id: nat)
      requires Labelled() && counter + 1 !in sessions
      modifies this`sessions, this`counter, this`order, this`active, server
      ensures Labelled() && State() == Created(old(State()), activate)
      ensures id == old(counter) + 1 && id in sessions && fresh(sessions[id])
      ensures sessions == old(sessions)[id := sessions[id]]
    {
      hide SentTo, ResizeView;
      ghost var before := State();
      var previous := active;
      id := AddSession();
      if activate || active == None {
        active := Some(id);
      }
      if activate && previous != None && previous != Some(id) {
        server.BroadcastFrame(Reset);
      }
      assert State() == Created(before, activate);
    }

    /** Creates a session; startup is what its start() writes. None when the cap is reached. */
    method Create(activate: bool, startup: seq<Bytes>) returns (id: Option<nat>)
      requires Valid()
      modifies this, server, sessions.Values
      ensures Valid() && State() == CreateStep(old(State()), activate, startup)
      ensures id == (if old(|sessions|) >= MAX_SESSIONS then None else Some(old(counter) + 1))
      ensures fresh(sessions.Values - old(sessions.Values))
    {
      hide Inv, EmitSteps, Created;
      ghost var before := State();
      SameSize();
      if |sessions| >= MAX_SESSIONS {
        return None;
      }
      NewIdIsFresh(before);
      CreatedInv(before, activate);
      var newId := OpenTab(activate);
      Start(newId, startup);
      id := Some(newId);
    }

    /** Clears every client's screen and paints the session's scrollback. */
    method Replay(id: nat)
      requires id in sessions
      modifies server
      ensures var scrollback := Views()[id].scrollback;
        var cleared := SentTo(old(server.clients), Reset);
        server.clients == if scrollback != [] then SentTo(cleared, Output(id, scrollback)) else cleared
    {
      hide SentTo;
      server.BroadcastFrame(Reset);
      var scrollback := sessions[id].GetScrollback();
      if scrollback != [] {
        server.BroadcastFrame(Output(id, scrollback));
      }
    }

    /** Shows a session; false if there is none with this id. */
    method Switch(id: nat) returns (known: bool)
      requires Labelled()
      modifies this`active, server, sessions.Values
      ensures Labelled() && State() == SwitchStep(old(State()), id)
      ensures known == (id in sessions)
    {
      hide SentTo, ResizeView;
      ghost var before := State();
      known := id in sessions;
      if !known || active == Some(id) {
        return;
      }
      active := Some(id);
      ResizeOne(id);
      Replay(id);
      assert State() == Repaint(before, id);
    }

    /** Takes a session out of the map and the tab list and names the neighbour. */
    method TakeOut(id: nat) returns (next: Option<nat>)
      requires Labelled() && id in sessions && id in order
      modifies this`sessions, this`order
      ensures Labelled() && Views() == old(Views()) - {id} && order == Without(old(order), id)
      ensures next == Successor(old(order), id)
      ensures sessions == old(sessions) - {id}
    {
      sessions := sessions - {id};
      var index := IndexOf(order, id);
      order := order[..index] + order[index + 1..];
      next := None;
      if order != [] {
        next := Some(order[if index < |order| - 1 then index else |order| - 1]);
      }
    }

    /** Terminates a session; startup is what a replacement writes if it was the only one. */
    method Close(id: nat, startup: seq<Bytes>) returns (known: bool)
      requires Valid()
      modifies this, server, sessions.Values
      ensures Valid() && State() == CloseStep(old(State()), id, startup)
      ensures known == (id in old(sessions))
      ensures fresh(sessions.Values - old(sessions.Values))
    {
      hide Inv, Without, Successor, CloseStep, CreateStep, SwitchStep;
      ghost var before := State();
      CloseKeepsInv(before, id, startup);
      CloseCases(before, id, startup);
      known := id in sessions;
      if !known {
        return;
      }
      InvLists(before);
      CloseRemainder(before, id);
      var wasActive := active == Some(id);
      var next := TakeOut(id);
      if wasActive {
        active := next;
      }
      if active == None {
        assert State() == Taken(before, id).(active := None);
        var _ := Create(true, startup);
      } else if wasActive {
        var shown := active.value;
        active := None;
        assert State() == Taken(before, id).(active := None);
        var _ := Switch(shown);
      } else {
        assert State() == Taken(before, id);
      }
    }

    /** Resizes the visible terminal and remembers the geometry for the others. */
    method Resize(cols: int, rows: int)
      requires Valid()
      modifies this`cols, this`rows, sessions.Values
      ensures Valid() && State() == ResizeStep(old(State()), cols, rows)
    {
      hide Inv;
      ghost var before := State();
      ResizeKeepsInv(before, cols, rows);
      if cols <= 0 || rows <= 0 {
        return;
      }
      this.cols, this.rows := cols, rows;
      ActiveIsListed(before);
      if active.Some? {
        ResizeOne(active.value);
      }
      assert State() == ResizeStep(before, cols, rows);
    }

    method StopAll()
      requires Valid()
      modifies this`sessions, this`order, this`active
      ensures Valid() && State() == Step(old(State()), Op.StopAll)
      ensures sessions == map[] && order == [] && active == None && counter == old(counter)
    {
      hide Inv;
      ghost var before := State();
      StepKeepsInv(before, Op.StopAll);
      sessions, order, active := map[], [], None;
      assert State() == Step(before, Op.StopAll);
    }
  }

  lemma NewIdIsFresh(s: State)
    requires Inv(s)
    ensures s.counter + 1 !in s.sessions
  {
  }

  lemma ActiveIsListed(s: State)
    requires Inv(s)
    ensures s.active.Some? ==> s.active.value in s.sessions
  {
  }

  lemma InvStored(s: State)
    requires Inv(s)
    ensures Stored(s.sessions, s.counter)
  {
  }

  lemma InvLists(s: State)
    requires Inv(s)
    ensures forall id :: id in s.order <==> id in s.sessions
  {
  }

  /** The state of `close` once the tab is out of the map and the list. */
  ghost function Taken(s: State, id: nat): State
    requires id in s.order
  {
    s.(sessions := s.sessions - {id}, order := Without(s.order, id))
  }

  ghost function CloseOutcome(s: State, id: nat, startup: seq<Bytes>): State
    requires id in s.order
  {
    if s.active != Some(id) then Taken(s, id)
    else if Successor(s.order, id) == None then CreateStep(Taken(s, id).(active := None), true, startup)
    else SwitchStep(Taken(s, id).(active := None), Successor(s.order, id).value)
  }

  lemma CloseCases(s: State, id: nat, startup: seq<Bytes>)
    requires Inv(s)
    ensures id !in s.sessions ==> CloseStep(s, id, startup) == s
    ensures id in s.sessions ==> id in s.order && CloseStep(s, id, startup) == CloseOutcome(s, id, startup)
  {
    hide CreateStep, SwitchStep, Without, Successor, LogsOk, InSync, Stored, Increasing;
  }

  /** After taking a tab out: either the rest is usable as it is, or nothing is left. */
  lemma CloseRemainder(s: State, id: nat)
    requires Inv(s) && id in s.order
    ensures s.active != Some(id) ==> s.active.Some?
    ensures Successor(s.order, id) == None ==>
      Inv(s.(sessions := s.sessions - {id}, order := Without(s.order, id), active := None))
    ensures Successor(s.order, id).Some? ==> Successor(s.order, id).value in s.sessions - {id}
  {
    hide Without, Successor, LogsOk, AllShow, Increasing, Stored;
    TabsAfterRemove(s, id);
    SuccessorRemains(s.order, id);
    if Successor(s.order, id) == None {
      assert s.sessions - {id} == map[];
    }
  }
}
