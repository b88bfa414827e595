/** The state of sessions.py together with what every connected client has been sent. */
module SessionModel {
  import opened Prelude
  import opened PtyOutput

  const MAX_SESSIONS: nat := 8

  /** One binary frame sent to a client: the screen reset, or output of one session. */
  datatype Frame = Reset | Output(id: nat, data: Bytes)

  datatype State = State(
    sessions: map<nat, View>, order: seq<nat>, active: Option<nat>, counter: nat,
    cols: int, rows: int, clients: map<nat, seq<Frame>>)

  const START := State(map[], [], None, 0, 80, 24, map[])

  function IndexOf(order: seq<nat>, id: nat): (i: nat)
    requires id in order
    ensures i < |order| && order[i] == id && id !in order[..i]
  {
    if order[0] == id then 0 else 1 + IndexOf(order[1..], id)
  }

  function Without(order: seq<nat>, id: nat): seq<nat>
    requires id in order
  {
    var i := IndexOf(order, id);
    order[..i] + order[i + 1..]
  }

  function SentTo(clients: map<nat, seq<Frame>>, frame: Frame): map<nat, seq<Frame>> {
    map c | c in clients :: clients[c] + [frame]
  }

  function Broadcast(s: State, frame: Frame): State {
    s.(clients := SentTo(s.clients, frame))
  }

  function EmitStep(s: State, id: nat, data: Bytes): State {
    if id !in s.sessions then s
    else
      var out := Passed(s.sessions[id], data);
      var recorded := s.(sessions := s.sessions[id := EmitView(s.sessions[id], data)]);
      if out != [] && s.active == Some(id) then Broadcast(recorded, Output(id, out)) else recorded
  }

  function EmitSteps(s: State, id: nat, chunks: seq<Bytes>): State
    decreases chunks
  {
    if chunks == [] then s else EmitSteps(EmitStep(s, id, chunks[0]), id, chunks[1..])
  }

  /** `create` up to the point where the new session starts to write. */
  function Created(s: State, activate: bool): State {
    var id := s.counter + 1;
    var added := s.(
      counter := id, sessions := s.sessions[id := ResizeView(NEW_VIEW, s.cols, s.rows)], order := s.order + [id],
      active := if activate || s.active == None then Some(id) else s.active);
    if activate && s.active.Some? && s.active != Some(id) then Broadcast(added, Reset) else added
  }

  /** `create`: the new session's start writes the given chunks. At the cap nothing changes. */
  function CreateStep(s: State, activate: bool, startup: seq<Bytes>): State {
    if |s.sessions| >= MAX_SESSIONS then s
    else EmitSteps(Created(s, activate), s.counter + 1, startup)
  }

  /** `switch` to a session that exists and is not active. */
  function Repaint(s: State, id: nat): State
    requires id in s.sessions
  {
    var shown := ResizeView(s.sessions[id], s.cols, s.rows);
    var cleared := Broadcast(s.(active := Some(id), sessions := s.sessions[id := shown]), Reset);
    if shown.scrollback != [] then Broadcast(cleared, Output(id, shown.scrollback)) else cleared
  }

  function SwitchStep(s: State, id: nat): State {
    if id !in s.sessions || s.active == Some(id) then s else Repaint(s, id)
  }

  /** The tab to the right of the closed one, or the last remaining one. */
  function Successor(order: seq<nat>, id: nat): Option<nat>
    requires id in order
  {
    var i := IndexOf(order, id);
    var rest := Without(order, id);
    if rest == [] then None else Some(rest[if i < |rest| - 1 then i else |rest| - 1])
  }

  /** `close`: startup is what a replacement session writes when the last one is closed. */
  function CloseStep(s: State, id: nat, startup: seq<Bytes>): State {
    if id !in s.sessions || id !in s.order then s
    else
      var removed := s.(sessions := s.sessions - {id}, order := Without(s.order, id));
      var next := Successor(s.order, id);
      if s.active == Some(id) then
        if next == None then CreateStep(removed.(active := None), true, startup)
        else SwitchStep(removed.(active := None), next.value)
      else if s.active == None then CreateStep(removed, true, startup)
      else removed
  }

  function ResizeStep(s: State, cols: int, rows: int): State {
    if cols <= 0 || rows <= 0 then s
    else
      var kept := s.(cols := cols, rows := rows);
      if s.active.Some? && s.active.value in s.sessions then
        kept.(sessions := s.sessions[s.active.value := ResizeView(s.sessions[s.active.value], cols, rows)])
      else kept
  }

  /** A new client: reset, then the active session's scrollback. */
  function ConnectStep(s: State, client: nat): State {
    if client in s.clients then s
    else
      var scrollback :=
        if s.active.Some? && s.active.value in s.sessions then s.sessions[s.active.value].scrollback else [];
      s.(clients := s.clients[client :=
        if scrollback != [] then [Reset, Output(s.active.value, scrollback)] else [Reset]])
  }

  datatype Op =
    | Create(activate: bool, startup: seq<Bytes>)
    | Switch(id: nat)
    | Close(id: nat, startup: seq<Bytes>)
    | Resize(cols: int, rows: int)
    | Emit(id: nat, data: Bytes)
    | Connect(client: nat)
    | Disconnect(client: nat)
    | StopAll

  function Step(s: State, op: Op): State {
    match op
    case Create(activate, startup) => CreateStep(s, activate, startup)
    case Switch(id) => SwitchStep(s, id)
    case Close(id, startup) => CloseStep(s, id, startup)
    case Resize(cols, rows) => ResizeStep(s, cols, rows)
    case Emit(id, data) => EmitStep(s, id, data)
    case Connect(client) => ConnectStep(s, client)
    case Disconnect(client) => s.(clients := s.clients - {client})
    case StopAll => s.(sessions := map[], order := [], active := None)
  }

  function Run(s: State, ops: seq<Op>): State
    decreases ops
  {
    if ops == [] then s else Run(Step(s, ops[0]), ops[1..])
  }

  // ---------------------------------------------------------------- what a client sees

  /** The bytes of the trailing run of frames that belong to one session. */
  function Screen(log: seq<Frame>, id: nat): Bytes {
    if log == [] then []
    else
      var last := log[|log| - 1];
      if last.Output? && last.id == id then Screen(log[..|log| - 1], id) + last.data else []
  }

  /** The frames after the last reset. */
  function SinceReset(log: seq<Frame>): seq<Frame> {
    if log == [] then []
    else
      var last := log[|log| - 1];
      if last.Reset? then [] else SinceReset(log[..|log| - 1]) + [last]
  }

  function Payload(frames: seq<Frame>): Bytes {
    if frames == [] then []
    else Payload(frames[..|frames| - 1]) + (var last := frames[|frames| - 1]; if last.Output? then last.data else [])
  }

  // ---------------------------------------------------------------- invariants

  ghost predicate Increasing(order: seq<nat>) {
    forall i, j :: 0 <= i < j < |order| ==> order[i] < order[j]
  }

  ghost predicate Lists(order: seq<nat>, sessions: map<nat, View>) {
    && (forall id :: id in order <==> id in sessions)
    && |order| == |sessions|
  }

  ghost predicate Stored(sessions: map<nat, View>, counter: nat) {
    forall id :: id in sessions ==> 1 <= id <= counter && ViewOk(sessions[id])
  }

  ghost predicate TabsOk(s: State) {
    Increasing(s.order) && Lists(s.order, s.sessions) && Stored(s.sessions, s.counter) && |s.order| <= MAX_SESSIONS
  }

  ghost predicate ActiveOk(s: State) {
    && 0 < s.cols && 0 < s.rows
    && (s.active == None ==> s.sessions == map[])
    && (s.active.Some? ==>
      && s.active.value in s.sessions
      && s.sessions[s.active.value].cols == s.cols
      && s.sessions[s.active.value].rows == s.rows)
  }

  /** Every client began with a reset, and no frame carries the output of a session that has not
      been created yet. */
  ghost predicate LogsOk(clients: map<nat, seq<Frame>>, counter: nat) {
    forall c :: c in clients ==>
      clients[c] != [] && clients[c][0] == Reset && forall f :: f in clients[c] && f.Output? ==> f.id <= counter
  }

  /** The last MiB every client sees of a session is the given scrollback. */
  ghost predicate AllShow(clients: map<nat, seq<Frame>>, id: nat, scrollback: Bytes) {
    forall c :: c in clients ==> LastN(Screen(clients[c], id), SCROLLBACK_MAX) == scrollback
  }

  ghost predicate InSync(s: State) {
    s.active.Some? && s.active.value in s.sessions ==>
      AllShow(s.clients, s.active.value, s.sessions[s.active.value].scrollback)
  }

  ghost predicate Inv(s: State) {
    TabsOk(s) && ActiveOk(s) && LogsOk(s.clients, s.counter) && InSync(s)
  }
}
