/** What every client has been sent since the active session became active. */
module SessionMarks {
  import opened Prelude
  import PtyOutput
  import opened SessionModel
  import SessionProofs
  import SessionScreens

  /** For every client, the length of its log when the active session became active; 0 if it joined later. */
  type Marks = map<nat, nat>

  ghost function Remark(before: State, marks: Marks, after: State): Marks {
    map c | c in after.clients ::
      if c !in before.clients || c !in marks then 0
      else if after.active != before.active then |before.clients[c]| else marks[c]
  }

  ghost function MarksAfter(s: State, marks: Marks, ops: seq<Op>): Marks
    decreases ops
  {
    if ops == [] then marks else MarksAfter(Step(s, ops[0]), Remark(s, marks, Step(s, ops[0])), ops[1..])
  }

  // ---------------------------------------------------------------- what one step sends

  function Sent(clients: map<nat, seq<Frame>>, frames: seq<Frame>): map<nat, seq<Frame>> {
    map c | c in clients :: clients[c] + frames
  }

  /** Every frame is output of the given session. */
  ghost predicate Own(frames: seq<Frame>, active: Option<nat>) {
    forall f :: f in frames ==> f.Output? && active == Some(f.id)
  }

  function Led(reset: bool, frames: seq<Frame>): seq<Frame> {
    if reset then [Reset] + frames else frames
  }

  lemma SentTwice(clients: map<nat, seq<Frame>>, a: seq<Frame>, b: seq<Frame>)
    ensures Sent(Sent(clients, a), b) == Sent(clients, a + b)
  {
    forall c | c in clients ensures clients[c] + a + b == clients[c] + (a + b) {
    }
  }

  lemma SentBasics(clients: map<nat, seq<Frame>>, frame: Frame)
    ensures Sent(clients, []) == clients
    ensures SentTo(clients, frame) == Sent(clients, [frame])
  {
    forall c | c in clients ensures clients[c] + [] == clients[c] {
    }
  }

  lemma EmitSends(s: State, id: nat, data: Bytes) returns (frames: seq<Frame>)
    ensures var t := EmitStep(s, id, data);
      t.active == s.active && t.clients == Sent(s.clients, frames) && Own(frames, s.active)
  {
    hide Sent, SentTo;
    SentBasics(s.clients, Reset);
    frames := [];
    if id in s.sessions && PtyOutput.Passed(s.sessions[id], data) != [] && s.active == Some(id) {
      frames := [Output(id, PtyOutput.Passed(s.sessions[id], data))];
      SentBasics(s.clients, frames[0]);
    }
  }

  lemma {:induction false} EmitsSend(s: State, id: nat, chunks: seq<Bytes>) returns (frames: seq<Frame>)
    ensures var t := EmitSteps(s, id, chunks);
      t.active == s.active && t.clients == Sent(s.clients, frames) && Own(frames, s.active)
    decreases chunks
  {
    hide Sent, EmitStep;
    frames := [];
    SentBasics(s.clients, Reset);
    if chunks != [] {
      frames := EmitSends(s, id, chunks[0]);
      var more := EmitsSend(EmitStep(s, id, chunks[0]), id, chunks[1..]);
      SentTwice(s.clients, frames, more);
      frames := frames + more;
    }
  }

  /** The step makes another session active while one was active and is not the last to go. */
  ghost predicate HandsOver(s: State, op: Op) {
    var now := Step(s, op).active;
    s.active.Some? && now.Some? && now != s.active && !SessionScreens.DropsLastTab(s, op)
  }

  lemma CreateSends(s: State, activate: bool, startup: seq<Bytes>) returns (reset: bool, frames: seq<Frame>)
    requires Inv(s)
    ensures var t := CreateStep(s, activate, startup);
      && t.clients == Sent(s.clients, Led(reset, frames)) && Own(frames, t.active)
      && (reset <==> s.active.Some? && t.active != s.active)
      && (t.active != s.active ==> t.active.Some? && t.active.value > s.counter)
  {
    hide Sent, SentTo, EmitSteps, Own, LogsOk, InSync;
    reset, frames := false, [];
    SentBasics(s.clients, Reset);
    if |s.sessions| < MAX_SESSIONS {
      var id := s.counter + 1;
      var created := Created(s, activate);
      reset := activate && s.active.Some? && s.active != Some(id);
      frames := EmitsSend(created, id, startup);
      if reset {
        SentTwice(s.clients, [Reset], frames);
      }
    } else {
      NothingIsOwn(s.active);
    }
  }

  lemma NothingIsOwn(active: Option<nat>)
    ensures Own([], active)
  {
  }

  lemma RepaintSends(s: State, id: nat) returns (frames: seq<Frame>)
    requires id in s.sessions
    ensures Repaint(s, id).active == Some(id)
    ensures Repaint(s, id).clients == Sent(s.clients, Led(true, frames)) && Own(frames, Some(id))
  {
    hide Sent, SentTo;
    var scrollback := s.sessions[id].scrollback;
    SentBasics(s.clients, Reset);
    frames := [];
    assert [Reset] + [] == [Reset];
    if scrollback != [] {
      frames := [Output(id, scrollback)];
      SentBasics(SentTo(s.clients, Reset), frames[0]);
      SentTwice(s.clients, [Reset], frames);
    }
  }

  lemma CloseSends(s: State, id: nat, startup: seq<Bytes>) returns (reset: bool, frames: seq<Frame>)
    requires Inv(s)
    ensures var t := CloseStep(s, id, startup);
      && t.clients == Sent(s.clients, Led(reset, frames)) && Own(frames, t.active)
      && (reset <==> s.active.Some? && t.active.Some? && t.active != s.active && s.sessions.Keys != {id})
      && (t.active != s.active && !reset && t.active.Some? ==> t.active.value > s.counter)
  {
    hide CreateStep, Repaint, Successor, Without, LogsOk, AllShow, Increasing, Stored, Sent, Own;
    reset, frames := false, [];
    SentBasics(s.clients, Reset);
    NothingIsOwn(s.active);
    if id in s.sessions && id in s.order && s.active == Some(id) {
      SessionProofs.TabsAfterRemove(s, id);
      SessionProofs.SuccessorRemains(s.order, id);
      var inactive := s.(sessions := s.sessions - {id}, order := Without(s.order, id), active := None);
      assert inactive.sessions.Keys == s.sessions.Keys - {id};
      if Successor(s.order, id) == None {
        assert s.sessions.Keys == {id};
        reset, frames := CreateSends(inactive, true, startup);
      } else {
        var next := Successor(s.order, id).value;
        assert next in inactive.sessions && next != id;
        frames := RepaintSends(inactive, next);
        reset := true;
      }
    }
  }

  /** Everything but a client that joins or leaves: all clients are sent the same frames, at most a reset
      and then output of the session active afterwards. The reset goes out exactly on a hand-over; a
      session that becomes active without one has never written before. */
  lemma {:induction false} StepSends(s: State, op: Op) returns (reset: bool, frames: seq<Frame>)
    requires Inv(s) && !op.Connect? && !op.Disconnect?
    ensures var t := Step(s, op);
      && t.clients == Sent(s.clients, Led(reset, frames)) && Own(frames, t.active)
      && (reset <==> HandsOver(s, op))
      && (t.active != s.active && !reset && t.active.Some? ==> t.active.value > s.counter)
  {
    hide CreateStep, Repaint, CloseStep, EmitStep, LogsOk, TabsOk, InSync, Sent, Own;
    reset, frames := false, [];
    SentBasics(s.clients, Reset);
    NothingIsOwn(s.active);
    NothingIsOwn(None);
    match op
    case Create(activate, startup) => reset, frames := CreateSends(s, activate, startup);
    case Switch(id) =>
      if id in s.sessions && s.active != Some(id) {
        frames := RepaintSends(s, id);
        reset := true;
      }
    case Close(id, startup) => reset, frames := CloseSends(s, id, startup);
    case Emit(id, data) => frames := EmitSends(s, id, data);
    case _ =>
  }

  // ---------------------------------------------------------------- since activation

  /** From the mark on, a client was sent nothing but output of the active session, behind at most one
      reset. */
  ghost predicate OwnSince(log: seq<Frame>, mark: nat, active: Option<nat>) {
    && mark <= |log|
    && (mark < |log| && log[mark].Output? ==> active == Some(log[mark].id))
    && Own(if mark < |log| then log[mark + 1..] else [], active)
  }

  /** What was sent before the mark does not count as output of the active session: a reset follows it,
      or it ends in no output of that session. */
  ghost predicate CutOff(log: seq<Frame>, mark: nat, active: Option<nat>) {
    mark <= |log| && (active.Some? ==> (mark < |log| && log[mark].Reset?) || Screen(log[..mark], active.value) == [])
  }

  ghost predicate Marked(s: State, marks: Marks) {
    && marks.Keys == s.clients.Keys
    && forall c :: c in s.clients ==>
      OwnSince(s.clients[c], marks[c], s.active) && CutOff(s.clients[c], marks[c], s.active)
  }

  lemma OwnSinceGrows(log: seq<Frame>, mark: nat, active: Option<nat>, frames: seq<Frame>)
    requires OwnSince(log, mark, active) && CutOff(log, mark, active) && Own(frames, active)
    ensures OwnSince(log + frames, mark, active) && CutOff(log + frames, mark, active)
  {
    hide Screen;
    var all := log + frames;
    assert all[..mark] == log[..mark];
    if mark < |log| {
      assert all[mark + 1..] == log[mark + 1..] + frames;
    } else if frames != [] {
      assert all[mark] == frames[0] && all[mark + 1..] == frames[1..];
      assert frames[0] in frames && forall f :: f in frames[1..] ==> f in frames;
    }
  }

  lemma OwnSinceStarts(log: seq<Frame>, active: Option<nat>, reset: bool, frames: seq<Frame>)
    requires Own(frames, active) && (active.Some? && !reset ==> Screen(log, active.value) == [])
    ensures OwnSince(log + Led(reset, frames), |log|, active) && CutOff(log + Led(reset, frames), |log|, active)
  {
    hide Screen;
    var all := log + Led(reset, frames);
    assert all[..|log|] == log;
    if reset {
      assert all[|log|] == Reset && all[|log| + 1..] == frames;
    } else if frames != [] {
      assert all[|log|] == frames[0] && all[|log| + 1..] == frames[1..];
      assert frames[0] in frames && forall f :: f in frames[1..] ==> f in frames;
    }
  }

  lemma ConnectIsMarked(s: State, marks: Marks, client: nat)
    requires Inv(s) && Marked(s, marks)
    ensures Marked(ConnectStep(s, client), Remark(s, marks, ConnectStep(s, client)))
  {
    hide Screen, TabsOk, LogsOk, InSync, OwnSince, CutOff;
    var t := ConnectStep(s, client);
    if client !in s.clients {
      var frames := t.clients[client][1..];
      assert Own(frames, s.active);
      assert t.clients[client] == [] + Led(true, frames);
      OwnSinceStarts([], s.active, true, frames);
    }
  }

  lemma SentIsMarked(s: State, marks: Marks, op: Op)
    requires Inv(s) && Marked(s, marks) && !op.Connect? && !op.Disconnect?
    ensures Marked(Step(s, op), Remark(s, marks, Step(s, op)))
  {
    hide Step, Screen, OwnSince, CutOff, Own, TabsOk, ActiveOk, InSync, SessionScreens.DropsLastTab;
    var t := Step(s, op);
    var reset, frames := StepSends(s, op);
    var now := Remark(s, marks, t);
    forall c | c in t.clients
      ensures OwnSince(t.clients[c], now[c], t.active) && CutOff(t.clients[c], now[c], t.active)
    {
      if t.active == s.active {
        OwnSinceGrows(s.clients[c], marks[c], s.active, frames);
      } else {
        if t.active.Some? && !reset {
          SessionProofs.ScreenOfStranger(s.clients[c], t.active.value);
        }
        OwnSinceStarts(s.clients[c], t.active, reset, frames);
      }
    }
  }

  /** One step, whatever it is: clients see only the active session since it became active. */
  lemma {:induction false} StepKeepsMarked(s: State, marks: Marks, op: Op)
    requires Inv(s) && Marked(s, marks)
    ensures Marked(Step(s, op), Remark(s, marks, Step(s, op)))
  {
    hide Inv, ConnectStep, OwnSince, CutOff;
    if op.Connect? {
      ConnectIsMarked(s, marks, op.client);
    } else if !op.Disconnect? {
      SentIsMarked(s, marks, op);
    }
  }

  lemma {:induction false} RunKeepsMarked(s: State, marks: Marks, ops: seq<Op>)
    requires Inv(s) && Marked(s, marks)
    ensures Inv(Run(s, ops)) && Marked(Run(s, ops), MarksAfter(s, marks, ops))
    decreases ops
  {
    hide Inv, Step, Marked, Remark;
    if ops != [] {
      SessionProofs.StepKeepsInv(s, ops[0]);
      StepKeepsMarked(s, marks, ops[0]);
      RunKeepsMarked(Step(s, ops[0]), Remark(s, marks, Step(s, ops[0])), ops[1..]);
    }
  }

  lemma {:induction false} ScreenOverOwn(log: seq<Frame>, frames: seq<Frame>, id: nat)
    requires Own(frames, Some(id))
    ensures Screen(log + frames, id) == Screen(log, id) + Payload(frames)
    decreases |frames|
  {
    hide Screen;
    if frames == [] {
      assert log + frames == log;
    } else {
      var front, last := frames[..|frames| - 1], frames[|frames| - 1];
      assert last in frames && last == Output(id, last.data);
      assert log + frames == log + front + [Output(id, last.data)];
      ScreenOverOwn(log, front, id);
      SessionProofs.ScreenAfterOutput(log + front, id, last.data);
    }
  }

  lemma {:induction false} PayloadBehindReset(frames: seq<Frame>)
    ensures Payload([Reset] + frames) == Payload(frames)
    decreases |frames|
  {
    if frames == [] {
      assert ([Reset] + frames)[..0] == [] && [Reset] + frames == [Reset];
    } else {
      assert ([Reset] + frames)[..|frames|] == [Reset] + frames[..|frames| - 1];
      PayloadBehindReset(frames[..|frames| - 1]);
    }
  }

  lemma ScreenAfterReset(log: seq<Frame>, id: nat)
    ensures Screen(log + [Reset], id) == []
  {
  }

  lemma PayloadSinceReset(before: seq<Frame>, frames: seq<Frame>, id: nat)
    requires Own(frames, Some(id))
    ensures Payload([Reset] + frames) == Screen(before + ([Reset] + frames), id)
  {
    hide Screen, Payload, Own;
    assert before + ([Reset] + frames) == before + [Reset] + frames;
    ScreenAfterReset(before, id);
    ScreenOverOwn(before + [Reset], frames, id);
    PayloadBehindReset(frames);
    assert [] + Payload(frames) == Payload(frames);
  }

  lemma PayloadSinceOutput(before: seq<Frame>, frames: seq<Frame>, id: nat)
    requires Own(frames, Some(id)) && Screen(before, id) == []
    ensures Payload(frames) == Screen(before + frames, id)
  {
    hide Screen, Payload, Own;
    ScreenOverOwn(before, frames, id);
    assert [] + Payload(frames) == Payload(frames);
  }

  lemma PayloadSince(log: seq<Frame>, mark: nat, id: nat)
    requires OwnSince(log, mark, Some(id)) && CutOff(log, mark, Some(id))
    ensures Payload(log[mark..]) == Screen(log, id)
  {
    hide Screen, Payload;
    var tail := log[mark..];
    assert log == log[..mark] + tail;
    if mark < |log| && log[mark].Reset? {
      var frames := log[mark + 1..];
      assert tail == [Reset] + frames;
      PayloadSinceReset(log[..mark], frames, id);
    } else {
      if mark < |log| {
        assert tail == [log[mark]] + log[mark + 1..];
      }
      PayloadSinceOutput(log[..mark], tail, id);
    }
  }

  lemma StartInv()
    ensures Inv(START) && Marked(START, map[])
  {
  }

  /** In every reachable state and for every client: since the active session became active, or since the
      client joined, it was sent nothing but that session's output, behind at most one reset, and the last
      MiB of that is the session's scrollback. */
  lemma SinceActivation(ops: seq<Op>, client: nat)
    requires client in Run(START, ops).clients
    ensures client in MarksAfter(START, map[], ops)
    ensures var s := Run(START, ops);
      var log, mark := s.clients[client], MarksAfter(START, map[], ops)[client];
      && mark <= |log|
      && (forall i :: mark <= i < |log| && log[i].Output? ==> s.active == Some(log[i].id))
      && (forall i :: mark < i < |log| ==> log[i].Output?)
      && (s.active.Some? ==>
        && s.active.value in s.sessions
        && LastN(Payload(log[mark..]), 1024 * 1024) == s.sessions[s.active.value].scrollback)
  {
    hide Run, MarksAfter, LastN, Screen, Payload, CutOff, TabsOk, LogsOk;
    StartInv();
    RunKeepsMarked(START, map[], ops);
    var s := Run(START, ops);
    var log, mark := s.clients[client], MarksAfter(START, map[], ops)[client];
    assert OwnSince(log, mark, s.active);
    forall i | mark < i < |log| ensures log[i].Output? && s.active == Some(log[i].id) {
      assert log[i] == log[mark + 1..][i - mark - 1];
    }
    if s.active.Some? {
      PayloadSince(log, mark, s.active.value);
    }
  }
}
