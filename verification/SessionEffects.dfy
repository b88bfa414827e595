/** What each operation of the session manager changes and what every client is sent for it, in full. */
module SessionEffects {
  import opened Prelude
  import ControlFilter
  import opened PtyOutput
  import opened SessionModel
  import SessionProofs
  import opened SessionTabs

  /** The clients have been sent the same frames, each behind its own log. */
  ghost predicate AllSent(before: map<nat, seq<Frame>>, after: map<nat, seq<Frame>>, frames: seq<Frame>) {
    after.Keys == before.Keys && forall c :: c in before ==> after[c] == before[c] + frames
  }

  /** All sessions but one are untouched. */
  ghost predicate OthersKept(before: map<nat, View>, after: map<nat, View>, id: nat) {
    forall other :: other in before && other != id ==> other in after && after[other] == before[other]
  }

  ghost predicate SameFrame(s: State, t: State) {
    t.order == s.order && t.counter == s.counter && t.cols == s.cols && t.rows == s.rows
  }

  function ReplayOf(id: nat, scrollback: Bytes): seq<Frame> {
    [Reset] + if scrollback == [] then [] else [Output(id, scrollback)]
  }

  lemma SentNothing(clients: map<nat, seq<Frame>>)
    ensures AllSent(clients, clients, [])
  {
  }

  lemma SentOne(clients: map<nat, seq<Frame>>, frame: Frame)
    ensures AllSent(clients, SentTo(clients, frame), [frame])
  {
  }

  lemma SentBoth(a: map<nat, seq<Frame>>, b: map<nat, seq<Frame>>, c: map<nat, seq<Frame>>, x: seq<Frame>,
      y: seq<Frame>)
    requires AllSent(a, b, x) && AllSent(b, c, y)
    ensures AllSent(a, c, x + y)
  {
    forall k | k in a ensures c[k] == a[k] + (x + y) {
    }
  }

  /** `switch` to another session: it becomes active at the current geometry, and every client gets a reset
      and then its scrollback; nothing else changes. */
  lemma SwitchShows(s: State, id: nat)
    requires Inv(s) && id in s.sessions && s.active != Some(id)
    ensures var t := SwitchStep(s, id);
      && t.active == Some(id) && SameFrame(s, t) && t.sessions.Keys == s.sessions.Keys
      && OthersKept(s.sessions, t.sessions, id)
      && t.sessions[id] == s.sessions[id].(cols := s.cols, rows := s.rows)
      && AllSent(s.clients, t.clients, [Reset] +
          if s.sessions[id].scrollback == [] then [] else [Output(id, s.sessions[id].scrollback)])
  {
    hide TabsOk, LogsOk, InSync, SentTo, AllSent;
    RepaintShows(s, id);
  }

  lemma RepaintShows(s: State, id: nat)
    requires id in s.sessions && s.cols > 0 && s.rows > 0
    ensures var t := Repaint(s, id);
      && t.active == Some(id) && SameFrame(s, t) && t.sessions.Keys == s.sessions.Keys
      && OthersKept(s.sessions, t.sessions, id)
      && t.sessions[id] == s.sessions[id].(cols := s.cols, rows := s.rows)
      && AllSent(s.clients, t.clients, ReplayOf(id, s.sessions[id].scrollback))
  {
    hide SentTo, AllSent;
    var scrollback := s.sessions[id].scrollback;
    SentOne(s.clients, Reset);
    if scrollback != [] {
      SentOne(SentTo(s.clients, Reset), Output(id, scrollback));
      SentBoth(s.clients, SentTo(s.clients, Reset), SentTo(SentTo(s.clients, Reset), Output(id, scrollback)),
        [Reset], [Output(id, scrollback)]);
    } else {
      assert [Reset] + [] == [Reset];
    }
  }

  /** To the active session, or to one that does not exist: nothing happens. */
  lemma SwitchIsIdle(s: State, id: nat)
    ensures id !in s.sessions || s.active == Some(id) ==> SwitchStep(s, id) == s
  {
  }

  /** The frames a session sends while it is shown: what passes of every chunk, if anything. */
  function Shown(id: nat, v: View, chunks: seq<Bytes>): seq<Frame>
    decreases chunks
  {
    if chunks == [] then []
    else
      var out := Passed(v, chunks[0]);
      (if out == [] then [] else [Output(id, out)]) + Shown(id, EmitView(v, chunks[0]), chunks[1..])
  }

  /** An emit is recorded whether the session is shown or not, and sent to every client exactly if it is. */
  lemma EmitShows(s: State, id: nat, data: Bytes)
    requires id in s.sessions
    ensures var t := EmitStep(s, id, data);
      && t.active == s.active && SameFrame(s, t) && t.sessions.Keys == s.sessions.Keys
      && OthersKept(s.sessions, t.sessions, id)
      && t.sessions[id] == EmitView(s.sessions[id], data)
      && AllSent(s.clients, t.clients,
          if s.active == Some(id) && Passed(s.sessions[id], data) != [] then [Output(id, Passed(s.sessions[id], data))] else [])
  {
    hide ControlFilter.FilterPending, LastN, SentTo, AllSent;
    SentNothing(s.clients);
    SentOne(s.clients, Output(id, Passed(s.sessions[id], data)));
  }

  lemma {:induction false} EmitsShow(s: State, id: nat, chunks: seq<Bytes>)
    requires id in s.sessions
    ensures var t := EmitSteps(s, id, chunks);
      && t.active == s.active && SameFrame(s, t) && t.sessions.Keys == s.sessions.Keys
      && OthersKept(s.sessions, t.sessions, id)
      && t.sessions[id] == EmitChunks(s.sessions[id], chunks)
      && AllSent(s.clients, t.clients, if s.active == Some(id) then Shown(id, s.sessions[id], chunks) else [])
    decreases chunks
  {
    hide EmitStep, EmitView, Passed, AllSent;
    if chunks == [] {
      SentNothing(s.clients);
    } else {
      var u := EmitStep(s, id, chunks[0]);
      EmitShows(s, id, chunks[0]);
      EmitsShow(u, id, chunks[1..]);
      var out := Passed(s.sessions[id], chunks[0]);
      var t := EmitSteps(s, id, chunks);
      if s.active == Some(id) {
        SentBoth(s.clients, u.clients, t.clients, if out == [] then [] else [Output(id, out)],
          Shown(id, u.sessions[id], chunks[1..]));
      } else {
        var none: seq<Frame> := [];
        SentBoth(s.clients, u.clients, t.clients, none, none);
        assert none + none == none;
      }
    }
  }

  /** What a new session looks like before it has written anything. */
  function Blank(s: State): View {
    NEW_VIEW.(cols := s.cols, rows := s.rows)
  }

  lemma CreatedShows(s: State, activate: bool)
    requires Inv(s)
    ensures var t := Created(s, activate);
      var id := s.counter + 1;
      && t.order == s.order + [id] && t.counter == id && t.cols == s.cols && t.rows == s.rows
      && t.active == (if activate || s.active == None then Some(id) else s.active)
      && t.sessions == s.sessions[id := Blank(s)]
      && AllSent(s.clients, t.clients, if activate && s.active.Some? then [Reset] else [])
  {
    hide AllSent, SentTo, InSync, LogsOk;
    NewIsUnknown(s);
    SentNothing(s.clients);
    SentOne(s.clients, Reset);
  }

  /** `create` below the cap: the new session holds what its start wrote, at the current geometry, and the
      others are untouched. */
  lemma CreateShows(s: State, activate: bool, startup: seq<Bytes>)
    requires Inv(s) && |s.sessions| < 8
    ensures var t := CreateStep(s, activate, startup);
      var id := s.counter + 1;
      && t.order == s.order + [id] && t.counter == id && t.cols == s.cols && t.rows == s.rows
      && t.active == (if activate || s.active == None then Some(id) else s.active)
      && t.sessions.Keys == s.sessions.Keys + {id}
      && OthersKept(s.sessions, t.sessions, id)
      && id in t.sessions && t.sessions[id] == EmitChunks(Blank(s), startup)
  {
    hide EmitSteps, EmitChunks, Shown, AllSent, Created, Inv, Blank, CreateStep, OthersKept;
    var id := s.counter + 1;
    NewIsUnknown(s);
    CreatedShows(s, activate);
    CreateInTwo(s, activate, startup);
    EmitsShow(Created(s, activate), id, startup);
    KeptBehindNew(s.sessions, id, Blank(s), CreateStep(s, activate, startup).sessions);
  }

  lemma KeptBehindNew(before: map<nat, View>, id: nat, v: View, after: map<nat, View>)
    requires id !in before && after.Keys == before[id := v].Keys && OthersKept(before[id := v], after, id)
    ensures after.Keys == before.Keys + {id} && id in after && OthersKept(before, after, id)
  {
  }

  lemma CreateInTwo(s: State, activate: bool, startup: seq<Bytes>)
    requires |s.sessions| < 8
    ensures CreateStep(s, activate, startup) == EmitSteps(Created(s, activate), s.counter + 1, startup)
  {
    hide EmitSteps, Created;
  }

  /** Clients see the start of a new session if it is shown, behind a reset if it was asked to replace
      another one. */
  lemma CreateIsSeen(s: State, activate: bool, startup: seq<Bytes>)
    requires Inv(s) && |s.sessions| < 8
    ensures var t := CreateStep(s, activate, startup);
      var id := s.counter + 1;
      AllSent(s.clients, t.clients,
        (if activate && s.active.Some? then [Reset] else []) +
        (if t.active == Some(id) then Shown(id, Blank(s), startup) else []))
  {
    hide EmitSteps, EmitChunks, Shown, AllSent, Created, Inv, Blank, CreateStep;
    var id := s.counter + 1;
    var u := Created(s, activate);
    NewIsUnknown(s);
    CreatedShows(s, activate);
    CreateInTwo(s, activate, startup);
    EmitsShow(u, id, startup);
    SentBoth(s.clients, u.clients, EmitSteps(u, id, startup).clients,
      if activate && s.active.Some? then [Reset] else [], if u.active == Some(id) then Shown(id, Blank(s), startup) else []);
  }

  lemma NewIsUnknown(s: State)
    requires Inv(s)
    ensures s.counter + 1 !in s.sessions && (s.active.Some? ==> s.active.value <= s.counter)
  {
  }

  /** At the cap nothing happens. */
  lemma CreateIsIdle(s: State, activate: bool, startup: seq<Bytes>)
    ensures |s.sessions| >= 8 ==> CreateStep(s, activate, startup) == s
  {
  }

  /** `close` of a tab in the background: it is gone, and nothing else changes. */
  lemma CloseBehind(s: State, id: nat, startup: seq<Bytes>)
    requires Inv(s) && id in s.sessions && s.active != Some(id)
    ensures id in s.order
    ensures var t := CloseStep(s, id, startup);
      t == s.(sessions := s.sessions - {id}, order := s.order[..IndexOf(s.order, id)] + s.order[IndexOf(s.order, id) + 1..])
  {
    hide CreateStep, Repaint, Successor, LogsOk, InSync, Stored, Increasing;
    ActiveIsThere(s);
  }

  lemma ActiveIsThere(s: State)
    requires Inv(s) && s.sessions != map[]
    ensures s.active.Some? && s.active.value in s.sessions
  {
  }

  /** The tab to the right, or the one to the left of the last tab. */
  function Neighbour(order: seq<nat>, id: nat): nat
    requires id in order && |order| > 1
  {
    var i := IndexOf(order, id);
    if i + 1 < |order| then order[i + 1] else order[i - 1]
  }

  /** `close` of the tab on screen when there are others: the neighbour is shown as by `switch`. */
  lemma CloseShown(s: State, id: nat, startup: seq<Bytes>)
    requires Inv(s) && s.active == Some(id) && id in s.order && |s.order| > 1
    ensures var t := CloseStep(s, id, startup);
      var i := IndexOf(s.order, id);
      var next := Neighbour(s.order, id);
      && next != id && next in s.sessions && next in t.sessions
      && t.active == Some(next) && t.order == s.order[..i] + s.order[i + 1..] && t.counter == s.counter
      && t.cols == s.cols && t.rows == s.rows && t.sessions.Keys == s.sessions.Keys - {id}
      && OthersKept(s.sessions - {id}, t.sessions, next)
      && t.sessions[next] == s.sessions[next].(cols := s.cols, rows := s.rows)
      && AllSent(s.clients, t.clients, ReplayOf(next, s.sessions[next].scrollback))
  {
    hide CreateStep, Repaint, Successor, LogsOk, InSync, Stored, AllSent, Increasing, IndexOf, OthersKept;
    SuccessorIsNeighbour(s.order, id);
    NeighbourListed(s.order, s.sessions, id);
    var next := Successor(s.order, id).value;
    var inactive := s.(sessions := s.sessions - {id}, order := Without(s.order, id), active := None);
    assert inactive.sessions.Keys == s.sessions.Keys - {id};
    RepaintShows(inactive, next);
    assert CloseStep(s, id, startup) == Repaint(inactive, next);
  }

  /** `close` of the only tab: a fresh session takes over at once, without a reset. */
  lemma CloseOnly(s: State, id: nat, startup: seq<Bytes>)
    requires Inv(s) && s.sessions.Keys == {id}
    ensures var t := CloseStep(s, id, startup);
      var next := s.counter + 1;
      && t.active == Some(next) && t.order == [next] && t.counter == next && t.cols == s.cols && t.rows == s.rows
      && t.sessions == map[next := EmitChunks(Blank(s), startup)]
      && AllSent(s.clients, t.clients, Shown(next, Blank(s), startup))
  {
    hide CreateStep, LogsOk, InSync, ViewOk, Increasing, AllSent, Shown, EmitChunks;
    assert |s.sessions| == |s.sessions.Keys| == 1;
    assert id in s.order;
    assert s.order == [id] && Without([id], id) == [];
    InvOfEmptied(s, id);
    var inactive := s.(sessions := s.sessions - {id}, order := [], active := None);
    CreateShows(inactive, true, startup);
    CreateIsSeen(inactive, true, startup);
    var next := s.counter + 1;
    assert [] + [next] == [next];
    var shown := Shown(next, Blank(s), startup);
    assert [] + shown == shown;
    assert CreateStep(inactive, true, startup).sessions.Keys == {next};
  }

  lemma CloseIsIdle(s: State, id: nat, startup: seq<Bytes>)
    ensures id !in s.sessions ==> CloseStep(s, id, startup) == s
  {
  }

  /** `resize`: the geometry is remembered and given to the visible session; invalid values change nothing. */
  lemma ResizeShows(s: State, cols: int, rows: int)
    requires Inv(s)
    ensures var t := ResizeStep(s, cols, rows);
      if cols <= 0 || rows <= 0 then t == s
      else
        && t.cols == cols && t.rows == rows && t.clients == s.clients && t.order == s.order
        && t.active == s.active && t.counter == s.counter && t.sessions.Keys == s.sessions.Keys
        && forall id :: id in s.sessions ==>
          t.sessions[id] == (if s.active == Some(id) then s.sessions[id].(cols := cols, rows := rows) else s.sessions[id])
  {
    hide LogsOk, InSync, Increasing, Stored;
  }

  /** The end of the manager: no session is left, the clients stay and ids are not given out again. */
  lemma StopShows(s: State)
    ensures Step(s, StopAll) == State(map[], [], None, s.counter, s.cols, s.rows, s.clients)
  {
  }

  /** A client that leaves takes its log along and nothing else. */
  lemma DisconnectShows(s: State, client: nat)
    ensures var t := Step(s, Disconnect(client));
      && t == s.(clients := t.clients) && t.clients.Keys == s.clients.Keys - {client}
      && forall c :: c in t.clients ==> t.clients[c] == s.clients[c]
  {
  }

  /** A client that joins gets a reset and the active session's scrollback; nobody else notices. */
  lemma ConnectShows(s: State, client: nat)
    requires Inv(s) && client !in s.clients
    ensures ConnectStep(s, client) == s.(clients := s.clients[client :=
      if s.active == None then [Reset] else ReplayOf(s.active.value, s.sessions[s.active.value].scrollback)])
  {
    hide LogsOk, InSync, Increasing, Stored;
    if s.active.Some? {
      var scrollback := s.sessions[s.active.value].scrollback;
      assert [Reset] + [Output(s.active.value, scrollback)] == [Reset, Output(s.active.value, scrollback)];
      assert [Reset] + [] == [Reset];
    }
  }
}
