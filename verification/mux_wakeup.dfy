/** The reader's wait for receive credit, with the counter update and the notification as separate steps. */
module MuxWakeup {

  /** Where the reader is in its wait loop. */
  datatype Reader =
    | Running          // has seen a positive bucket and is reading a frame
    | Looping          // about to load the bucket
    | SawEmpty         // loaded a bucket that was not positive
    | Committed        // found the session open and will wait
    | Waiting          // registered with the notifier
    | Woken            // has been notified, about to look whether the session has closed
    | Stopped

  /** `permit` is the notifier's stored permit; `pending` counts refunders that have crossed zero and not yet
      notified; `failer` says how much of announcing the session's death is still to come: waking whoever waits, and
      then leaving a permit. */
  datatype State = State(bucket: int, permit: bool, pending: nat, reader: Reader, closed: bool, failer: nat)

  datatype Action =
    | Load | CheckClosed | Await | Recheck
    | Spend(n: nat)          // the reader queues a frame's bytes and loops
    | Refund(n: nat)         // fetch_add by any reader of any stream
    | Ring                   // one pending refunder notifies
    | KeepAlive              // the keepalive task notifies unconditionally
    | Die                    // closed.swap(true)
    | Announce               // ...and one of the two notifications that follow it

  function Notify(s: State): State {
    if s.reader == Waiting then s.(reader := Woken) else s.(permit := true)
  }

  function Step(s: State, a: Action): State {
    match a
    case Load => if s.reader != Looping then s else s.(reader := if s.bucket > 0 then Running else SawEmpty)
    case CheckClosed => if s.reader != SawEmpty then s else s.(reader := if s.closed then Stopped else Committed)
    case Await =>
      if s.reader != Committed then s
      else if s.permit then s.(permit := false, reader := Woken)
      else s.(reader := Waiting)
    case Recheck => if s.reader != Woken then s else s.(reader := if s.closed then Stopped else Looping)
    case Spend(n) => if s.reader != Running then s else s.(bucket := s.bucket - n, reader := Looping)
    case Refund(n) =>
      s.(bucket := s.bucket + n, pending := s.pending + if n > 0 && s.bucket <= 0 < s.bucket + n then 1 else 0)
    case Ring => if s.pending == 0 then s else Notify(s.(pending := s.pending - 1))
    case KeepAlive => Notify(s)
    case Die => if s.closed then s else s.(closed := true, failer := 2)
    case Announce =>
      if s.failer == 0 then s
      else if s.failer == 1 then Notify(s.(failer := 0))
      else s.(failer := 1, reader := if s.reader == Waiting then Woken else s.reader)
  }

  function Run(s: State, acts: seq<Action>): State
    decreases |acts|
  {
    if acts == [] then s else Run(Step(s, acts[0]), acts[1..])
  }

  function Init(max: nat): State { State(max, false, 0, Looping, false, 0) }

  predicate AboutToWait(s: State) { s.reader == SawEmpty || s.reader == Committed || s.reader == Waiting }

  /** The reader reads only while there is credit, and stops only when the session is dead. */
  predicate GateInv(s: State) {
    && (s.reader == Running ==> s.bucket > 0)
    && (s.reader == Stopped ==> s.closed)
  }

  predicate WakeInv(s: State) {
    && (s.reader == Waiting ==> !s.permit)
    && (AboutToWait(s) && s.bucket > 0 ==> s.permit || s.pending > 0)
    && ((s.reader == Committed || s.reader == Waiting) && s.closed ==> s.permit || s.failer > 0)
  }

  lemma StepKeepsWakeInv(s: State, a: Action)
    requires WakeInv(s)
    ensures WakeInv(Step(s, a))
  {}

  lemma {:induction false} RunKeepsWakeInv(s: State, acts: seq<Action>)
    requires WakeInv(s)
    ensures WakeInv(Run(s, acts))
    decreases |acts|
  {
    if acts != [] {
      StepKeepsWakeInv(s, acts[0]);
      RunKeepsWakeInv(Step(s, acts[0]), acts[1..]);
    }
  }

  /** In every reachable state a reader that has decided to wait, or is waiting, while credit is available (or the
      session is dead) has a permit or a notifier on its way; and that notifier's next step wakes a waiting one. */
  lemma NoLostWakeUp(max: nat, acts: seq<Action>)
    ensures var s := Run(Init(max), acts);
            && (AboutToWait(s) && s.bucket > 0 ==> s.permit || s.pending > 0)
            && (s.reader == Waiting && s.bucket > 0 ==> s.pending > 0 && Step(s, Ring).reader == Woken)
            && (s.reader == Waiting && s.closed ==>
                  s.failer > 0 && Step(s, Announce).reader == Woken && Step(Step(s, Announce), Recheck).reader == Stopped)
  {
    RunKeepsWakeInv(Init(max), acts);
  }

  lemma {:induction false} RunKeepsGate(s: State, acts: seq<Action>)
    requires GateInv(s)
    ensures GateInv(Run(s, acts))
    decreases |acts|
  {
    if acts != [] { RunKeepsGate(Step(s, acts[0]), acts[1..]); }
  }

  /** The steps that bring a reader back to reading when there is credit and the session is open. */
  function Resume(s: State): seq<Action> {
    match s.reader
    case Running => []
    case Looping => [Load]
    case SawEmpty => [CheckClosed] + (if s.permit then [] else [Ring]) + [Await, Recheck, Load]
    case Committed => (if s.permit then [] else [Ring]) + [Await, Recheck, Load]
    case Waiting => [Ring, Recheck, Load]
    case Woken => [Recheck, Load]
    case Stopped => []
  }

  /** In every reachable state of an open session with credit, wherever the reader is in its loop, its own steps and at
      most one pending notification bring it to reading the next frame; and without credit it never reads. */
  lemma ReaderResumes(max: nat, acts: seq<Action>)
    ensures var s := Run(Init(max), acts);
            && (s.reader == Running ==> s.bucket > 0)
            && (s.bucket > 0 && !s.closed ==> Run(s, Resume(s)).reader == Running)
            && (s.reader == Waiting ==> Step(s, KeepAlive).reader == Woken)
  {
    RunKeepsGate(Init(max), acts);
    RunKeepsWakeInv(Init(max), acts);
    var s := Run(Init(max), acts);
    if s.bucket > 0 && !s.closed { ResumeRuns(s); }
  }

  lemma ResumeRuns(s: State)
    requires WakeInv(s) && GateInv(s) && s.bucket > 0 && !s.closed
    ensures Run(s, Resume(s)).reader == Running
  {
    match s.reader
    case SawEmpty =>
      var s1 := Step(s, CheckClosed);
      FromCommitted(s1);
      assert Resume(s) == [CheckClosed] + Resume(s1);
    case Committed => FromCommitted(s);
    case Waiting => FromWoken(Step(s, Ring)); assert Resume(s) == [Ring] + [Recheck, Load];
    case Woken => FromWoken(s);
    case Looping => assert Run(Step(s, Load), []) == Step(s, Load);
    case _ =>
  }

  lemma FromWoken(s: State)
    requires s.reader == Woken && s.bucket > 0 && !s.closed
    ensures Run(s, [Recheck, Load]).reader == Running
  {
    var s1 := Step(s, Recheck);
    assert [Recheck, Load] == [Recheck] + [Load];
    assert Run(s1, [Load]) == Run(Step(s1, Load), []);
  }

  lemma FromCommitted(s: State)
    requires WakeInv(s) && s.reader == Committed && s.bucket > 0 && !s.closed
    ensures Run(s, Resume(s)).reader == Running
  {
    var s1 := if s.permit then s else Step(s, Ring);
    assert s1.permit && s1.reader == Committed;
    FromWoken(Step(s1, Await));
    assert [Await, Recheck, Load] == [Await] + [Recheck, Load];
    assert Run(s1, [Await, Recheck, Load]) == Run(Step(s1, Await), [Recheck, Load]);
    if !s.permit { assert Resume(s) == [Ring] + [Await, Recheck, Load]; } else { assert [] + [Await, Recheck, Load] == [Await, Recheck, Load]; }
  }
}
