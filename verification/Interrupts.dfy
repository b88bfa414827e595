/** Ctrl+C against the start of a command: the interrupt flag and its epoch (python_shell.py,
    pty_session.py), one shared access per step. */
module Interrupts {
  import opened Prelude

  /** What clear_interrupt makes of the flag: with an epoch it spares a newer interrupt. */
  function Cleared(flag: bool, since: Option<nat>, epoch: nat): bool {
    flag && since.Some? && since.value != epoch
  }

  /** The flag and the counter of python_shell.py. */
  class Shell {
    var flag: bool
    var epoch: nat

    constructor ()
      ensures !flag && epoch == 0
    {
      flag, epoch := false, 0;
    }

    method Interrupt()
      modifies this
      ensures flag && epoch == old(epoch) + 1
    {
      epoch := epoch + 1;
      flag := true;
    }

    method ClearInterrupt(since: Option<nat>)
      modifies this`flag
      ensures flag == Cleared(old(flag), since, epoch)
    {
      if since == None || since.value == epoch {
        flag := false;
      }
    }
  }

  /** Where the worker stands between taking a command and finishing it. */
  datatype Worker =
    | Idle
    | Snapped(since: nat)                 // the epoch has been read
    | Busy(since: nat)                    // the busy flag has been set
    | Tested(since: nat, clears: bool)    // inside clear_interrupt, behind the comparison
    | Running

  /** Where the input thread stands inside interrupt(); late tells that the epoch was bumped after the
      current command's snapshot. */
  datatype Keyboard = Quiet | Bumped(late: bool)

  /** hit: an interrupt whose bump followed the current command's snapshot has set the flag. */
  datatype State = State(worker: Worker, keyboard: Keyboard, epoch: nat, flag: bool, hit: bool)

  const START := State(Idle, Quiet, 0, false, false)

  datatype Event =
    | Snapshot | SetBusy | ClearTagged | Test | Clear | Finish
    | Bump | SetFlag

  predicate Enabled(s: State, e: Event) {
    match e
    case Snapshot => s.worker.Idle?
    case SetBusy => s.worker.Snapped?
    case ClearTagged => s.worker.Busy?
    case Test => s.worker.Busy?
    case Clear => s.worker.Tested?
    case Finish => s.worker.Running?
    case Bump => s.keyboard.Quiet?
    case SetFlag => s.keyboard.Bumped?
  }

  function Step(s: State, e: Event): State
    requires Enabled(s, e)
  {
    match e
    case Snapshot =>
      s.(worker := Snapped(s.epoch), hit := false, keyboard := if s.keyboard.Bumped? then Bumped(false) else Quiet)
    case SetBusy => s.(worker := Busy(s.worker.since))
    case ClearTagged => s.(worker := Running, flag := Cleared(s.flag, Some(s.worker.since), s.epoch))
    case Test => s.(worker := Tested(s.worker.since, s.worker.since == s.epoch))
    case Clear => s.(worker := Running, flag := s.flag && !s.worker.clears)
    case Finish => s.(worker := Idle, flag := Cleared(s.flag, None, s.epoch), hit := false)
    case Bump => s.(keyboard := Bumped(!s.worker.Idle?), epoch := s.epoch + 1)
    case SetFlag => s.(keyboard := Quiet, flag := true, hit := s.hit || (s.keyboard.late && !s.worker.Idle?))
  }

  /** A run: every event possible in its state; nothing is said about who comes next. */
  ghost predicate IsRun(s: State, events: seq<Event>)
    decreases events
  {
    events == [] || (Enabled(s, events[0]) && IsRun(Step(s, events[0]), events[1..]))
  }

  function Run(s: State, events: seq<Event>): State
    requires IsRun(s, events)
    decreases events
  {
    if events == [] then s else Run(Step(s, events[0]), events[1..])
  }

  /** A late interrupt has moved the epoch past the snapshot, and its flag is still up. */
  ghost predicate Survives(s: State) {
    && (s.hit ==> s.flag && !s.worker.Idle?)
    && (!s.worker.Idle? && !s.worker.Running? ==>
      && s.worker.since <= s.epoch
      && ((s.hit || (s.keyboard.Bumped? && s.keyboard.late)) && !s.worker.Tested? ==> s.worker.since < s.epoch))
  }

  /** The clear that loses an interrupt: it was decided before the interrupt came. */
  predicate Loses(s: State, e: Event) {
    e.Clear? && s.worker.Tested? && s.worker.clears && s.hit
  }

  /** One step keeps every late interrupt if and only if it is not such a clear. */
  lemma StepSurvives(s: State, e: Event)
    requires Survives(s) && Enabled(s, e)
    ensures Survives(Step(s, e)) <==> !Loses(s, e)
  {
  }

  /** With clear_interrupt as one step, an interrupt that came after the snapshot is still flagged when
      the command starts, and stays flagged until it finishes, in every interleaving. */
  lemma {:induction false} AtomicClearSurvives(s: State, events: seq<Event>)
    requires Survives(s) && !s.worker.Tested? && IsRun(s, events) && Test !in events
    ensures Survives(Run(s, events)) && !Run(s, events).worker.Tested?
    ensures Run(s, events).hit ==> Run(s, events).flag
    decreases events
  {
    hide Survives;
    if events != [] {
      assert events[0] != Test;
      NotTested(s, events[0]);
      StepSurvives(s, events[0]);
      AtomicClearSurvives(Step(s, events[0]), events[1..]);
    } else {
      HitIsFlagged(s);
    }
  }

  lemma NotTested(s: State, e: Event)
    requires !s.worker.Tested? && Enabled(s, e) && e != Test
    ensures !Step(s, e).worker.Tested? && !Loses(s, e)
  {
  }

  lemma HitIsFlagged(s: State)
    requires Survives(s)
    ensures s.hit ==> s.flag
  {
  }

  /** An interrupt from before the snapshot does not reach the command: whatever flag the worker finds, it is
      down when the command starts, as long as no key is pressed in between, in both forms of the clear; and
      it is down when the command has finished. */
  lemma OldInterruptIsCleared(s: State, split: bool)
    requires s.worker.Idle?
    ensures var events := [Snapshot, SetBusy] + if split then [Test, Clear] else [ClearTagged];
      && IsRun(s, events) && Run(s, events).worker == Running && !Run(s, events).flag
      && IsRun(s, events + [Finish]) && Run(s, events + [Finish]).worker == Idle && !Run(s, events + [Finish]).flag
  {
    var s1 := Step(s, Snapshot);
    var s2 := Step(s1, SetBusy);
    if split {
      var s3 := Step(s2, Test);
      var s4 := Step(s3, Clear);
      assert s4.worker == Running && !s4.flag;
      var s5 := Step(s4, Finish);
      RunTo(s4, Finish, [], s5);
      RunTo(s3, Clear, [], s4);
      RunTo(s3, Clear, [Finish], s5);
      RunTo(s2, Test, [Clear], s4);
      RunTo(s2, Test, [Clear, Finish], s5);
      RunTo(s1, SetBusy, [Test, Clear], s4);
      RunTo(s1, SetBusy, [Test, Clear, Finish], s5);
      RunTo(s, Snapshot, [SetBusy, Test, Clear], s4);
      RunTo(s, Snapshot, [SetBusy, Test, Clear, Finish], s5);
      assert [Snapshot, SetBusy] + [Test, Clear] + [Finish] == [Snapshot, SetBusy, Test, Clear, Finish];
      assert [Snapshot, SetBusy] + [Test, Clear] == [Snapshot, SetBusy, Test, Clear];
    } else {
      var s3 := Step(s2, ClearTagged);
      assert s3.worker == Running && !s3.flag;
      var s4 := Step(s3, Finish);
      RunTo(s3, Finish, [], s4);
      RunTo(s2, ClearTagged, [], s3);
      RunTo(s2, ClearTagged, [Finish], s4);
      RunTo(s1, SetBusy, [ClearTagged], s3);
      RunTo(s1, SetBusy, [ClearTagged, Finish], s4);
      RunTo(s, Snapshot, [SetBusy, ClearTagged], s3);
      RunTo(s, Snapshot, [SetBusy, ClearTagged, Finish], s4);
      assert [Snapshot, SetBusy] + [ClearTagged] + [Finish] == [Snapshot, SetBusy, ClearTagged, Finish];
      assert [Snapshot, SetBusy] + [ClearTagged] == [Snapshot, SetBusy, ClearTagged];
    }
  }

  /** What a clear does to the flag: nothing, if it is tagged with another epoch than the current one. */
  lemma ClearedExactly(flag: bool, since: Option<nat>, epoch: nat)
    ensures since == None || since == Some(epoch) ==> !Cleared(flag, since, epoch)
    ensures since.Some? && since != Some(epoch) ==> Cleared(flag, since, epoch) == flag
  {
  }

  /** Taken apart, clear_interrupt can lose an interrupt that falls between its comparison and its
      clear: the command runs although Ctrl+C came after its snapshot. */
  lemma SplitClearCanLose()
    ensures var events := [Snapshot, SetBusy, Test, Bump, SetFlag, Clear];
      IsRun(START, events) && Run(START, events).hit && !Run(START, events).flag && Run(START, events).worker == Running
  {
    var s1 := Step(START, Snapshot);
    var s2 := Step(s1, SetBusy);
    var s3 := Step(s2, Test);
    var s4 := Step(s3, Bump);
    var s5 := Step(s4, SetFlag);
    var s6 := Step(s5, Clear);
    assert s6.hit && !s6.flag;
    RunTo(s5, Clear, [], s6);
    RunTo(s4, SetFlag, [Clear], s6);
    RunTo(s3, Bump, [SetFlag, Clear], s6);
    RunTo(s2, Test, [Bump, SetFlag, Clear], s6);
    RunTo(s1, SetBusy, [Test, Bump, SetFlag, Clear], s6);
    RunTo(START, Snapshot, [SetBusy, Test, Bump, SetFlag, Clear], s6);
  }

  lemma RunTo(s: State, e: Event, events: seq<Event>, end: State)
    requires Enabled(s, e) && IsRun(Step(s, e), events) && Run(Step(s, e), events) == end
    ensures IsRun(s, [e] + events) && Run(s, [e] + events) == end
  {
    assert ([e] + events)[1..] == events;
  }
}
