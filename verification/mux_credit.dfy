/** The session-wide receive credit against an arbitrary peer: nothing is assumed about the frames that arrive. Every
    section under a lock and every atomic access of the credit is a step of its own. */
module MuxCredit {
  import opened Bytes
  import opened MuxCodec

  /** A handle is in use, or has left the table and is about to be recycled, or is gone. */
  datatype Stage = Open | Leaving | Gone

  /** A stream object. Several may be born under one id, so the table refers to them by index. */
  datatype Obj = Obj(sid: u32, buffered: nat, stage: Stage)

  /** Between two of its steps the reader may have found an id free, or a stream to push to, or paid for the push. */
  datatype Reader = Idle | Registering(sid: u32) | Holding(obj: nat, len: nat) | Spent(obj: nat, len: nat)

  datatype Session = Session(
    bucket: int,
    objs: seq<Obj>,            // every stream object ever made
    table: map<u32, nat>,      // the registered streams
    reader: Reader,
    owed: nat,                 // bytes taken off streams whose refund is still to come
    leaked: nat)               // bytes whose credit can no longer be refunded

  function Init(maxReceiveBuffer: nat): Session { Session(maxReceiveBuffer, [], map[], Idle, 0, 0) }

  datatype Action =
    | PeerSyn(sid: u32)                // the reader looks the id of a SYN up
    | InsertSyn                        // it registers the id it found free
    | PeerPush(sid: u32, len: nat)     // the reader has read such a frame and looks the stream up
    | Spend                            // it spends the credit
    | Push                             // it queues the bytes
    | LocalOpen(sid: u32)              // open_stream registers whatever id it was given
    | Take(obj: nat, n: nat)           // a read takes bytes off the stream
    | Refund(n: nat)                   // a read or a drop returns credit
    | Leave(obj: nat)                  // a drop takes the handle's id out of the table
    | Recycle(obj: nat)                // and, if the id was there, discards what is unread

  function Register(s: Session, sid: u32): Session {
    s.(objs := s.objs + [Obj(sid, 0, Open)], table := s.table[sid := |s.objs|])
  }

  function SetObj(s: Session, i: nat, o: Obj): Session
    requires i < |s.objs|
  {
    s.(objs := s.objs[i := o])
  }

  function Step(s: Session, a: Action): Session {
    match a
    case PeerSyn(sid) =>
      // The reader only starts on a frame while the bucket is positive.
      if s.reader != Idle || s.bucket <= 0 || sid in s.table then s else s.(reader := Registering(sid))
    case InsertSyn => if !s.reader.Registering? then s else Register(s, s.reader.sid).(reader := Idle)
    case PeerPush(sid, len) =>
      if s.reader != Idle || s.bucket <= 0 || !(0 < len <= MAX_FRAME_DATA) || sid !in s.table then s
      else s.(reader := Holding(s.table[sid], len))
    case Spend =>
      if !s.reader.Holding? then s
      else s.(bucket := s.bucket - s.reader.len, reader := Spent(s.reader.obj, s.reader.len))
    case Push =>
      if !s.reader.Spent? || s.reader.obj >= |s.objs| then s
      else
        var i, len := s.reader.obj, s.reader.len;
        if s.objs[i].stage == Gone then s.(reader := Idle, leaked := s.leaked + len)
        else SetObj(s, i, s.objs[i].(buffered := s.objs[i].buffered + len)).(reader := Idle)
    case LocalOpen(sid) => Register(s, sid)
    case Take(i, n) =>
      if i >= |s.objs| || s.objs[i].stage != Open then s
      else
        var k := Min(n, s.objs[i].buffered);
        SetObj(s, i, s.objs[i].(buffered := s.objs[i].buffered - k)).(owed := s.owed + k)
    case Refund(n) => if n > s.owed then s else s.(bucket := s.bucket + n, owed := s.owed - n)
    case Leave(i) =>
      if i >= |s.objs| || s.objs[i].stage != Open then s
      else
        var o := s.objs[i];
        // The table is asked for the id, not for this object.
        if o.sid in s.table then SetObj(s, i, o.(stage := Leaving)).(table := s.table - {o.sid})
        else SetObj(s, i, o.(buffered := 0, stage := Gone)).(leaked := s.leaked + o.buffered)
    case Recycle(i) =>
      if i >= |s.objs| || s.objs[i].stage != Leaving then s
      else
        var o := s.objs[i];
        SetObj(s, i, o.(buffered := 0, stage := Gone)).(owed := s.owed + o.buffered)
  }

  function Run(s: Session, acts: seq<Action>): Session
    decreases |acts|
  {
    if acts == [] then s else Run(Step(s, acts[0]), acts[1..])
  }

  /** Without credit, or in the middle of a frame, the reader starts on nothing; with it, a frame for a registered stream is
      looked up, and a SYN for a free id. */
  lemma ReaderIsGated(s: Session, sid: u32, len: nat)
    requires 0 < len <= MAX_FRAME_DATA
    ensures s.bucket <= 0 || s.reader != Idle ==> Step(s, PeerSyn(sid)) == s && Step(s, PeerPush(sid, len)) == s
    ensures s.bucket > 0 && s.reader == Idle && sid in s.table ==>
              Step(s, PeerPush(sid, len)) == s.(reader := Holding(s.table[sid], len)) && Step(s, PeerSyn(sid)) == s
    ensures s.bucket > 0 && s.reader == Idle && sid !in s.table ==>
              Step(s, PeerSyn(sid)) == s.(reader := Registering(sid)) && Step(s, PeerPush(sid, len)) == s
  {}

  // ------------------------------------------------------------------
  // Sums over stream objects
  // ------------------------------------------------------------------

  function Total(objs: seq<Obj>): nat {
    if objs == [] then 0 else objs[0].buffered + Total(objs[1..])
  }

  lemma {:induction false} TotalAppend(objs: seq<Obj>, o: Obj)
    ensures Total(objs + [o]) == Total(objs) + o.buffered
  {
    if objs != [] {
      TotalAppend(objs[1..], o);
      assert (objs + [o])[1..] == objs[1..] + [o];
    }
  }

  lemma {:induction false} TotalUpdate(objs: seq<Obj>, i: nat, o: Obj)
    requires i < |objs|
    ensures Total(objs[i := o]) == Total(objs) - objs[i].buffered + o.buffered
  {
    if i == 0 {
      assert objs[i := o] == [o] + objs[1..];
    } else {
      TotalUpdate(objs[1..], i - 1, o);
      assert objs[i := o][1..] == objs[1..][i - 1 := o];
    }
  }

  predicate Listed(objs: seq<Obj>, table: map<u32, nat>, i: nat)
    requires i < |objs|
  {
    objs[i].sid in table && table[objs[i].sid] == i
  }

  /** The bytes buffered on the streams of the table. */
  function Registered(objs: seq<Obj>, table: map<u32, nat>, from: nat): nat
    requires from <= |objs|
    decreases |objs| - from
  {
    if from == |objs| then 0
    else (if Listed(objs, table, from) then objs[from].buffered else 0) + Registered(objs, table, from + 1)
  }

  /** The bytes buffered on the streams of the table and on those a drop is about to recycle. */
  function Held(objs: seq<Obj>, table: map<u32, nat>, from: nat): nat
    requires from <= |objs|
    decreases |objs| - from
  {
    if from == |objs| then 0
    else (if Listed(objs, table, from) || objs[from].stage == Leaving then objs[from].buffered else 0)
         + Held(objs, table, from + 1)
  }

  lemma {:induction false} HeldBelowTotal(objs: seq<Obj>, table: map<u32, nat>, from: nat)
    requires from <= |objs|
    ensures Held(objs, table, from) <= Total(objs[from..])
    decreases |objs| - from
  {
    if from < |objs| {
      HeldBelowTotal(objs, table, from + 1);
      assert objs[from..][1..] == objs[from + 1..];
    }
  }

  lemma {:induction false} HeldIsRegistered(objs: seq<Obj>, table: map<u32, nat>, from: nat)
    requires from <= |objs| && forall i :: 0 <= i < |objs| ==> objs[i].stage != Leaving
    ensures Held(objs, table, from) == Registered(objs, table, from)
    decreases |objs| - from
  {
    if from < |objs| { HeldIsRegistered(objs, table, from + 1); }
  }

  /** Every handle in use is in the table. */
  predicate AllListed(s: Session) {
    forall i :: 0 <= i < |s.objs| && s.objs[i].stage == Open ==> Listed(s.objs, s.table, i)
  }

  predicate GoneEmpty(s: Session) {
    forall i :: 0 <= i < |s.objs| && s.objs[i].stage == Gone ==> s.objs[i].buffered == 0
  }

  lemma {:induction false} HeldIsTotal(s: Session, from: nat)
    requires AllListed(s) && GoneEmpty(s) && from <= |s.objs|
    ensures Held(s.objs, s.table, from) == Total(s.objs[from..])
    decreases |s.objs| - from
  {
    if from < |s.objs| {
      HeldIsTotal(s, from + 1);
      assert s.objs[from..][1..] == s.objs[from + 1..];
    }
  }

  // ------------------------------------------------------------------
  // The ledger holds whatever the peer sends
  // ------------------------------------------------------------------

  /** Credit in the hands of calls that are part way through. */
  function Midway(s: Session): nat { s.owed + if s.reader.Spent? then s.reader.len else 0 }

  predicate Busy(r: Reader) { r.Holding? || r.Spent? }

  ghost predicate Ledger(s: Session, max: nat) {
    && s.bucket + Total(s.objs) + Midway(s) + s.leaked == max
    && s.bucket >= 1 - MAX_FRAME_DATA
    && (Busy(s.reader) ==> s.reader.obj < |s.objs| && 0 < s.reader.len <= MAX_FRAME_DATA)
    && (s.reader.Holding? ==> s.bucket > 0)
    && (forall sid :: sid in s.table ==> s.table[sid] < |s.objs|)
    && GoneEmpty(s)
  }

  lemma OpenKeepsLedger(s: Session, sid: u32, max: nat)
    requires Ledger(s, max)
    ensures Ledger(Register(s, sid), max)
  {
    hide Total;
    TotalAppend(s.objs, Obj(sid, 0, Open));
  }

  lemma PushKeepsLedger(s: Session, max: nat)
    requires Ledger(s, max)
    ensures Ledger(Step(s, Push), max)
  {
    hide Total;
    if s.reader.Spent? {
      var o := s.objs[s.reader.obj];
      TotalUpdate(s.objs, s.reader.obj, o.(buffered := o.buffered + s.reader.len));
    }
  }

  /** One stream gives up unread bytes, which are owed or leaked. */
  lemma ReleaseKeepsLedger(s: Session, s': Session, i: nat, o: Obj, max: nat)
    requires Ledger(s, max) && i < |s.objs| && o.buffered <= s.objs[i].buffered
    requires s'.objs == s.objs[i := o] && (o.stage == Gone ==> o.buffered == 0)
    requires s'.owed + s'.leaked == s.owed + s.leaked + s.objs[i].buffered - o.buffered
    requires s'.reader == s.reader && s'.bucket == s.bucket
    requires forall sid :: sid in s'.table ==> sid in s.table && s'.table[sid] == s.table[sid]
    ensures Ledger(s', max)
  {
    hide Total;
    TotalUpdate(s.objs, i, o);
  }

  lemma StepKeepsLedger(s: Session, a: Action, max: nat)
    requires Ledger(s, max)
    ensures Ledger(Step(s, a), max)
  {
    hide Total, GoneEmpty;
    match a
    case InsertSyn => if s.reader.Registering? { InsertKeepsLedger(s, max); }
    case LocalOpen(sid) => OpenKeepsLedger(s, sid, max);
    case Push => PushKeepsLedger(s, max);
    case Take(i, n) =>
      if i < |s.objs| && s.objs[i].stage == Open {
        var o := s.objs[i].(buffered := s.objs[i].buffered - Min(n, s.objs[i].buffered));
        ReleaseKeepsLedger(s, Step(s, a), i, o, max);
      }
    case Leave(i) => if i < |s.objs| && s.objs[i].stage == Open { LeaveKeepsLedger(s, i, max); }
    case Recycle(i) =>
      if i < |s.objs| && s.objs[i].stage == Leaving {
        ReleaseKeepsLedger(s, Step(s, a), i, s.objs[i].(buffered := 0, stage := Gone), max);
      }
    case _ => OtherKeepsLedger(s, a, max);
  }

  lemma InsertKeepsLedger(s: Session, max: nat)
    requires Ledger(s, max) && s.reader.Registering?
    ensures Ledger(Step(s, InsertSyn), max)
  {
    hide Total;
    OpenKeepsLedger(s, s.reader.sid, max);
  }

  lemma LeaveKeepsLedger(s: Session, i: nat, max: nat)
    requires Ledger(s, max) && i < |s.objs| && s.objs[i].stage == Open
    ensures Ledger(Step(s, Leave(i)), max)
  {
    hide Total;
    var o := s.objs[i];
    ReleaseKeepsLedger(s, Step(s, Leave(i)), i,
                       if o.sid in s.table then o.(stage := Leaving) else o.(buffered := 0, stage := Gone), max);
  }

  lemma OtherKeepsLedger(s: Session, a: Action, max: nat)
    requires Ledger(s, max) && (a.PeerSyn? || a.PeerPush? || a.Spend? || a.Refund?)
    ensures Ledger(Step(s, a), max)
  {
    hide Total;
  }

  lemma {:induction false} RunKeepsLedger(s: Session, acts: seq<Action>, max: nat)
    requires Ledger(s, max)
    ensures Ledger(Run(s, acts), max)
    decreases |acts|
  {
    hide Step, Ledger;
    if acts != [] {
      StepKeepsLedger(s, acts[0], max);
      RunKeepsLedger(Step(s, acts[0]), acts[1..], max);
    }
  }

  /** Whatever the peer sends and whoever stops reading: credit is accounted for byte by byte, and the bytes held
      on streams never exceed the receive buffer by more than one frame less a byte. */
  lemma BufferedBytesAreBounded(max: nat, acts: seq<Action>)
    ensures var s := Run(Init(max), acts);
            && s.bucket + Total(s.objs) + Midway(s) + s.leaked == max
            && Total(s.objs) <= max + 65534
  {
    RunKeepsLedger(Init(max), acts, max);
  }

  // ------------------------------------------------------------------
  // When the streams of the table account for the credit
  // ------------------------------------------------------------------

  /** The ways a step can strand credit: opening over an id that is in the table or that the reader is about to
      register, and recycling the very stream the reader is about to push to. */
  predicate Calm(s: Session, a: Action) {
    match a
    case LocalOpen(sid) => sid !in s.table && s.reader != Registering(sid)
    case Recycle(i) => Busy(s.reader) && s.reader.obj == i && i < |s.objs| ==> s.objs[i].stage != Leaving
    case _ => true
  }

  predicate CalmRun(s: Session, acts: seq<Action>)
    decreases |acts|
  {
    acts == [] || (Calm(s, acts[0]) && CalmRun(Step(s, acts[0]), acts[1..]))
  }

  /** The table holds exactly the handles in use, and the reader has nothing of a stream that is gone. */
  predicate Tidy(s: Session) {
    && AllListed(s)
    && (forall sid :: sid in s.table ==>
          s.table[sid] < |s.objs| && s.objs[s.table[sid]].stage == Open && s.objs[s.table[sid]].sid == sid)
    && (Busy(s.reader) ==> s.reader.obj < |s.objs| && s.objs[s.reader.obj].stage != Gone)
    && (s.reader.Registering? ==> s.reader.sid !in s.table)
  }

  ghost predicate Exact(s: Session, max: nat) { Ledger(s, max) && s.leaked == 0 && Tidy(s) }

  lemma RegisterKeepsTidy(s: Session, sid: u32, r: Reader)
    requires Tidy(s) && sid !in s.table && (r == Idle || (r == s.reader && s.reader != Registering(sid)))
    ensures Tidy(Register(s, sid).(reader := r))
  {}

  lemma ReaderKeepsTidy(s: Session, a: Action)
    requires Tidy(s) && s.leaked == 0 && (a.PeerSyn? || a.PeerPush? || a.Spend? || a.Push? || a.Refund?)
    ensures Tidy(Step(s, a)) && Step(s, a).leaked == 0
  {}

  lemma HandleKeepsTidy(s: Session, a: Action)
    requires Tidy(s) && s.leaked == 0 && Calm(s, a) && (a.Take? || a.Leave? || a.Recycle?)
    ensures Tidy(Step(s, a)) && Step(s, a).leaked == 0
  {}

  lemma CalmStepKeepsTidy(s: Session, a: Action)
    requires Tidy(s) && s.leaked == 0 && Calm(s, a)
    ensures Tidy(Step(s, a)) && Step(s, a).leaked == 0
  {
    if a.InsertSyn? {
      InsertKeepsTidy(s);
    } else if a.LocalOpen? {
      hide Tidy;
      RegisterKeepsTidy(s, a.sid, s.reader);
    } else if a.Take? || a.Leave? || a.Recycle? {
      hide Tidy, Step;
      HandleKeepsTidy(s, a);
    } else {
      hide Tidy, Step;
      ReaderKeepsTidy(s, a);
    }
  }

  lemma InsertKeepsTidy(s: Session)
    requires Tidy(s) && s.leaked == 0
    ensures Tidy(Step(s, InsertSyn)) && Step(s, InsertSyn).leaked == 0
  {
    hide AllListed;
    if s.reader.Registering? { RegisterKeepsTidy(s, s.reader.sid, Idle); }
  }

  lemma CalmStepKeepsExact(s: Session, a: Action, max: nat)
    requires Exact(s, max) && Calm(s, a)
    ensures Exact(Step(s, a), max)
  {
    hide Ledger, Step, Tidy, Calm;
    StepKeepsLedger(s, a, max);
    CalmStepKeepsTidy(s, a);
  }

  lemma {:induction false} CalmRunKeepsExact(s: Session, acts: seq<Action>, max: nat)
    requires Exact(s, max) && CalmRun(s, acts)
    ensures Exact(Run(s, acts), max)
    decreases |acts|
  {
    hide Exact, Step, Calm;
    if acts != [] {
      CalmStepKeepsExact(s, acts[0], max);
      CalmRunKeepsExact(Step(s, acts[0]), acts[1..], max);
    }
  }

  /** The bucket, the streams in the table or being recycled, and the calls part way through account for the credit. */
  predicate Accounts(s: Session, max: nat) { s.bucket + Held(s.objs, s.table, 0) + Midway(s) == max }

  /** No call is part way through with credit in its hands. */
  predicate Quiet(s: Session) {
    Midway(s) == 0 && forall i :: 0 <= i < |s.objs| ==> s.objs[i].stage != Leaving
  }

  lemma ExactAccounts(s: Session, max: nat)
    requires Exact(s, max)
    ensures Accounts(s, max)
  {
    HeldIsTotal(s, 0);
    assert s.objs[0..] == s.objs;
  }

  lemma InitIsExact(max: nat)
    ensures Exact(Init(max), max)
  {}

  /** Credit is conserved in every state of every calm run, whatever the peer sends; between calls the bucket and the
      bytes on the streams of the table alone make up the receive buffer. */
  lemma CreditIsConserved(max: nat, acts: seq<Action>)
    requires CalmRun(Init(max), acts)
    ensures var s := Run(Init(max), acts);
            && Accounts(s, max) && s.leaked == 0
            && (Quiet(s) ==> s.bucket + Registered(s.objs, s.table, 0) == max)
  {
    hide Step, Run, CalmRun, Tidy, Ledger;
    InitIsExact(max);
    CalmRunKeepsExact(Init(max), acts, max);
    var s := Run(Init(max), acts);
    ExactAccounts(s, max);
    if Quiet(s) { HeldIsRegistered(s.objs, s.table, 0); }
  }

  /** Calm is exact for one step: from a state that accounts exactly, a step keeps it so if and only if it is calm. */
  lemma StepKeepsExactIff(s: Session, a: Action, max: nat)
    requires Exact(s, max)
    ensures Exact(Step(s, a), max) <==> Calm(s, a)
  {
    hide Ledger;
    if Calm(s, a) {
      CalmStepKeepsExact(s, a, max);
    } else if a.LocalOpen? && a.sid in s.table {
      var first, s' := s.table[a.sid], Step(s, a);
      assert s'.objs[first].stage == Open && s'.table[a.sid] != first;
    }
  }

  // ------------------------------------------------------------------
  // A stream recycled between the reader's lookup and its push
  // ------------------------------------------------------------------

  lemma LeakBreaksTheAccount(s: Session, max: nat)
    requires Ledger(s, max) && s.leaked > 0
    ensures !Accounts(s, max)
  {
    HeldBelowTotal(s.objs, s.table, 0);
    assert s.objs[0..] == s.objs;
  }

  /** The reader still has in hand a frame for a stream that is gone. */
  predicate Doomed(s: Session, i: nat) {
    Busy(s.reader) && s.reader.obj == i && i < |s.objs| && s.objs[i].stage == Gone && s.reader.len > 0
  }

  /** Whatever happens next, such a frame is still in hand or its credit has leaked, and leaked credit stays leaked. */
  lemma {:induction false} DoomedLeaks(s: Session, i: nat, acts: seq<Action>)
    requires Doomed(s, i) || s.leaked > 0
    ensures Doomed(Run(s, acts), i) || Run(s, acts).leaked > 0
    decreases |acts|
  {
    if acts != [] { DoomedLeaks(Step(s, acts[0]), i, acts[1..]); }
  }

  /** Recycling the stream the reader is about to push to: once the reader is done with that frame, however many steps
      of whatever kind later, the account is short, and it is short in every state from then on. */
  lemma GapRecycleLeaks(s: Session, i: nat, acts: seq<Action>, max: nat)
    requires Exact(s, max) && !Calm(s, Recycle(i))
    ensures var t := Run(Step(s, Recycle(i)), acts);
            Doomed(t, i) || !Accounts(t, max)
  {
    var s1 := Step(s, Recycle(i));
    StepKeepsLedger(s, Recycle(i), max);
    RunKeepsLedger(s1, acts, max);
    DoomedLeaks(s1, i, acts);
    var t := Run(s1, acts);
    if t.leaked > 0 { LeakBreaksTheAccount(t, max); }
  }

  // ------------------------------------------------------------------
  // Two live streams under one id
  // ------------------------------------------------------------------

  ghost predicate Doubled(s: Session, max: nat, sid: u32, older: nat) {
    && Ledger(s, max) && s.leaked == 0
    && older < |s.objs| && s.objs[older].stage == Open && s.objs[older].sid == sid
    && sid in s.table && s.table[sid] != older
    && s.objs[s.table[sid]].stage == Open && s.objs[s.table[sid]].sid == sid
  }

  /** Take what is unread on each stream from number `from` on, and recycle it if a drop is about to. */
  function Emptying(s: Session, from: nat): seq<Action>
    requires from <= |s.objs|
    decreases |s.objs| - from
  {
    if from == |s.objs| then []
    else [Take(from, s.objs[from].buffered), Recycle(from)] + Emptying(s, from + 1)
  }

  /** The same table, with nothing unread on the streams below `upTo` and the handles in use still in use. */
  predicate EmptiedTo(s: Session, t: Session, upTo: nat) {
    && t.table == s.table && t.reader == s.reader && t.bucket == s.bucket && t.leaked == s.leaked
    && |t.objs| == |s.objs|
    && (forall i :: 0 <= i < |s.objs| && s.objs[i].stage == Open ==> t.objs[i] == s.objs[i].(buffered := t.objs[i].buffered))
    && (forall i :: 0 <= i < upTo && i < |s.objs| ==> t.objs[i].buffered == 0)
    && (forall i :: upTo <= i < |s.objs| ==> t.objs[i] == s.objs[i])
  }

  lemma EmptyOne(s: Session, t: Session, i: nat, max: nat)
    requires Ledger(t, max) && i < |s.objs| && EmptiedTo(s, t, i) && !Busy(s.reader)
    ensures var t1 := Step(t, Take(i, s.objs[i].buffered));
            var t2 := Step(t1, Recycle(i));
            Ledger(t2, max) && EmptiedTo(s, t2, i + 1) && Calm(t1, Recycle(i))
  {
    var t1 := Step(t, Take(i, s.objs[i].buffered));
    StepKeepsLedger(t, Take(i, s.objs[i].buffered), max);
    StepKeepsLedger(t1, Recycle(i), max);
    LedgerEmpty(t, max, i);
    hide Ledger;
  }

  lemma LedgerEmpty(s: Session, max: nat, i: nat)
    requires Ledger(s, max) && i < |s.objs|
    ensures s.objs[i].stage == Gone ==> s.objs[i].buffered == 0
  {}

  lemma {:induction false} EmptyingEmpties(s: Session, t: Session, from: nat, max: nat)
    requires Ledger(t, max) && from <= |s.objs| && EmptiedTo(s, t, from) && !Busy(s.reader)
    ensures var acts := Emptying(s, from);
            CalmRun(t, acts) && EmptiedTo(s, Run(t, acts), |s.objs|) && Ledger(Run(t, acts), max)
    decreases |s.objs| - from
  {
    hide Step, Ledger, EmptiedTo, Calm;
    if from < |s.objs| {
      var a, b := Take(from, s.objs[from].buffered), Recycle(from);
      EmptyOne(s, t, from, max);
      var t2 := Step(Step(t, a), b);
      EmptyingEmpties(s, t2, from + 1, max);
      TakeIsCalm(t, a);
      TwoSteps(t, a, b);
      RunAppend(t, [a, b], Emptying(s, from + 1));
    }
  }

  lemma TakeIsCalm(s: Session, a: Action)
    requires !a.LocalOpen? && !a.Recycle?
    ensures Calm(s, a)
  {}

  lemma {:induction false} NothingBuffered(objs: seq<Obj>)
    requires forall i :: 0 <= i < |objs| ==> objs[i].buffered == 0
    ensures Total(objs) == 0
  {
    if objs != [] { NothingBuffered(objs[1..]); }
  }

  lemma {:induction false} RunAppend(s: Session, a: seq<Action>, b: seq<Action>)
    ensures Run(s, a + b) == Run(Run(s, a), b)
    ensures CalmRun(s, a + b) <==> CalmRun(s, a) && CalmRun(Run(s, a), b)
    decreases |a|
  {
    hide Step, Calm;
    if a == [] {
      assert a + b == b;
    } else {
      RunAppend(Step(s, a[0]), a[1..], b);
      assert (a + b)[1..] == a[1..] + b;
    }
  }

  lemma OneStep(s: Session, a: Action)
    ensures Run(s, [a]) == Step(s, a) && (CalmRun(s, [a]) <==> Calm(s, a))
  {
    hide Step, Calm;
    assert Run(Step(s, a), []) == Step(s, a);
  }

  lemma TwoSteps(s: Session, a: Action, b: Action)
    ensures Run(s, [a, b]) == Step(Step(s, a), b)
    ensures CalmRun(s, [a, b]) <==> Calm(s, a) && Calm(Step(s, a), b)
  {
    hide Step, Calm, Run, CalmRun;
    assert [a, b] == [a] + [b];
    RunAppend(s, [a], [b]);
    OneStep(s, a);
    OneStep(Step(s, a), b);
  }

  lemma FourSteps(s: Session, a: Action, b: Action, c: Action, d: Action)
    ensures Run(s, [a, b, c, d]) == Step(Step(Step(Step(s, a), b), c), d)
    ensures CalmRun(s, [a, b, c, d]) <==>
            Calm(s, a) && Calm(Step(s, a), b) && Calm(Step(Step(s, a), b), c) && Calm(Step(Step(Step(s, a), b), c), d)
  {
    hide Step, Calm, Run, CalmRun;
    assert [a, b, c, d] == [a, b] + [c, d];
    RunAppend(s, [a, b], [c, d]);
    TwoSteps(s, a, b);
    TwoSteps(Step(Step(s, a), b), c, d);
  }

  /** One byte arrives for the newer of two such streams, and then the older one's drop takes it out of the table. */
  function DropOlder(sid: u32, older: nat): seq<Action> { [PeerPush(sid, 1), Spend, Push, Leave(older)] }

  lemma {:induction false} UnlistedIsShort(objs: seq<Obj>, table: map<u32, nat>, k: nat, from: nat)
    requires from <= k < |objs| && objs[k].sid !in table && objs[k].stage == Open
    ensures Held(objs, table, from) + objs[k].buffered <= Total(objs[from..])
    decreases k - from
  {
    assert objs[from..][1..] == objs[from + 1..];
    if from < k { UnlistedIsShort(objs, table, k, from + 1); } else { HeldBelowTotal(objs, table, from + 1); }
  }

  lemma ShortBreaksTheAccount(s: Session, k: nat, max: nat)
    requires Ledger(s, max) && k < |s.objs| && s.objs[k].sid !in s.table && s.objs[k].stage == Open
    requires s.objs[k].buffered > 0
    ensures !Accounts(s, max)
  {
    UnlistedIsShort(s.objs, s.table, k, 0);
    assert s.objs[0..] == s.objs;
  }

  lemma DropOlderBreaks(s: Session, max: nat, sid: u32, older: nat)
    requires Doubled(s, max, sid, older) && s.reader.Idle? && s.bucket > 0
    ensures CalmRun(s, DropOlder(sid, older)) && !Accounts(Run(s, DropOlder(sid, older)), max)
  {
    var newer := s.table[sid];
    var s1 := Step(s, PeerPush(sid, 1));
    var s2 := Step(s1, Spend);
    var s3 := Step(s2, Push);
    var s4 := Step(s3, Leave(older));
    assert s2.reader == Spent(newer, 1);
    StepKeepsLedger(s, PeerPush(sid, 1), max);
    StepKeepsLedger(s1, Spend, max);
    StepKeepsLedger(s2, Push, max);
    StepKeepsLedger(s3, Leave(older), max);
    ShortBreaksTheAccount(s4, newer, max);
    FourSteps(s, PeerPush(sid, 1), Spend, Push, Leave(older));
  }

  /** The reader finishes what it has in hand. */
  const FINISH: seq<Action> := [InsertSyn, Spend] + [Push]

  lemma FinishIdles(s: Session, max: nat, sid: u32, older: nat)
    requires Doubled(s, max, sid, older) && (Busy(s.reader) ==> s.objs[s.reader.obj].stage != Gone)
    requires s.reader != Registering(sid)
    ensures CalmRun(s, FINISH) && Doubled(Run(s, FINISH), max, sid, older) && Run(s, FINISH).reader.Idle?
  {
    var s1 := Step(s, InsertSyn);
    var s2 := Step(s1, Spend);
    StepKeepsLedger(s, InsertSyn, max);
    StepKeepsLedger(s1, Spend, max);
    StepKeepsLedger(s2, Push, max);
    TwoSteps(s, InsertSyn, Spend);
    OneStep(s2, Push);
    RunAppend(s, [InsertSyn, Spend], [Push]);
    FinishShape(s, sid, older);
  }

  lemma FinishShape(s: Session, sid: u32, older: nat)
    requires older < |s.objs| && s.objs[older].stage == Open && s.objs[older].sid == sid && s.leaked == 0
    requires sid in s.table && s.table[sid] != older && s.table[sid] < |s.objs|
    requires s.objs[s.table[sid]].stage == Open && s.objs[s.table[sid]].sid == sid
    requires Busy(s.reader) ==> s.reader.obj < |s.objs| && s.objs[s.reader.obj].stage != Gone
    requires s.reader != Registering(sid)
    ensures var t := Step(Step(Step(s, InsertSyn), Spend), Push);
            && t.reader.Idle? && t.leaked == 0 && older < |t.objs| && t.objs[older].stage == Open && t.objs[older].sid == sid
            && sid in t.table && t.table[sid] != older && t.table[sid] < |t.objs|
            && t.objs[t.table[sid]].stage == Open && t.objs[t.table[sid]].sid == sid
  {}

  /** From two live streams under one id a calm run breaks the account: finish what is in hand, take and refund
      everything, then let one byte arrive and drop the older handle. */
  lemma DoubledBreaks(s: Session, max: nat, sid: u32, older: nat) returns (acts: seq<Action>)
    requires Doubled(s, max, sid, older) && max > 0
    requires (Busy(s.reader) ==> s.objs[s.reader.obj].stage != Gone) && s.reader != Registering(sid)
    ensures CalmRun(s, acts) && !Accounts(Run(s, acts), max)
  {
    hide Step, Run, CalmRun, Ledger, Accounts;
    FinishIdles(s, max, sid, older);
    var s1 := Run(s, FINISH);
    var empty := Emptying(s1, 0);
    EmptyingStart(s1);
    EmptyingEmpties(s1, s1, 0, max);
    var s2 := Run(s1, empty);
    EmptyKeepsDoubled(s1, s2, max, sid, older);
    var last := [Refund(s2.owed)];
    var s3 := Step(s2, Refund(s2.owed));
    OneStep(s2, Refund(s2.owed));
    RefundFills(s2, max, sid, older);
    DropOlderBreaks(s3, max, sid, older);
    RunAppend(s2, last, DropOlder(sid, older));
    RunAppend(s1, empty, last + DropOlder(sid, older));
    RunAppend(s, FINISH, empty + (last + DropOlder(sid, older)));
    acts := FINISH + (empty + (last + DropOlder(sid, older)));
  }

  lemma EmptyingStart(s: Session)
    ensures EmptiedTo(s, s, 0)
  {}

  lemma EmptyKeepsDoubled(s: Session, t: Session, max: nat, sid: u32, older: nat)
    requires Doubled(s, max, sid, older) && Ledger(t, max) && EmptiedTo(s, t, |s.objs|)
    ensures Doubled(t, max, sid, older) && Total(t.objs) == 0 && t.reader == s.reader
  {
    NothingBuffered(t.objs);
  }

  lemma RefundFills(s: Session, max: nat, sid: u32, older: nat)
    requires Doubled(s, max, sid, older) && Total(s.objs) == 0 && s.reader.Idle?
    ensures var t := Step(s, Refund(s.owed));
            Calm(s, Refund(s.owed)) && Doubled(t, max, sid, older) && t.reader.Idle? && t.bucket == max
  {
    hide Total;
    StepKeepsLedger(s, Refund(s.owed), max);
  }

  // ------------------------------------------------------------------
  // The condition is exact
  // ------------------------------------------------------------------

  /** The account holds in every later state of every calm continuation. */
  ghost predicate StaysAccounted(s: Session, max: nat) {
    forall acts: seq<Action> :: CalmRun(s, acts) ==> Accounts(Run(s, acts), max)
  }

  lemma OpenOverTable(s: Session, sid: u32, max: nat) returns (acts: seq<Action>)
    requires Exact(s, max) && max > 0 && sid in s.table
    ensures var s' := Step(s, LocalOpen(sid)); CalmRun(s', acts) && !Accounts(Run(s', acts), max)
  {
    StepKeepsLedger(s, LocalOpen(sid), max);
    acts := DoubledBreaks(Step(s, LocalOpen(sid)), max, sid, s.table[sid]);
  }

  lemma OpenInTheSynGap(s: Session, sid: u32, max: nat) returns (acts: seq<Action>)
    requires Exact(s, max) && max > 0 && s.reader == Registering(sid)
    ensures var s' := Step(s, LocalOpen(sid)); CalmRun(s', acts) && !Accounts(Run(s', acts), max)
  {
    var s1 := Step(s, LocalOpen(sid));
    var s2 := Step(s1, InsertSyn);
    StepKeepsLedger(s, LocalOpen(sid), max);
    StepKeepsLedger(s1, InsertSyn, max);
    var more := DoubledBreaks(s2, max, sid, |s.objs|);
    OneStep(s1, InsertSyn);
    RunAppend(s1, [InsertSyn], more);
    acts := [InsertSyn] + more;
  }

  lemma RecycleInTheGap(s: Session, i: nat, max: nat) returns (acts: seq<Action>)
    requires Exact(s, max) && !Calm(s, Recycle(i))
    ensures var s' := Step(s, Recycle(i)); CalmRun(s', acts) && !Accounts(Run(s', acts), max)
  {
    var s1 := Step(s, Recycle(i));
    acts := [Spend, Push];
    TwoSteps(s1, Spend, Push);
    GapRecycleLeaks(s, i, acts, max);
  }

  lemma CalmStaysAccounted(s: Session, a: Action, max: nat)
    requires Exact(s, max) && Calm(s, a)
    ensures StaysAccounted(Step(s, a), max)
  {
    hide Exact, Accounts, Calm, Step;
    CalmStepKeepsExact(s, a, max);
    forall acts: seq<Action> | CalmRun(Step(s, a), acts) ensures Accounts(Run(Step(s, a), acts), max) {
      CalmRunKeepsExact(Step(s, a), acts, max);
      ExactAccounts(Run(Step(s, a), acts), max);
    }
  }

  /** For every step from a state that accounts exactly: every calm continuation stays accounted for if and only if
      the step is calm. */
  lemma CalmIsExact(s: Session, a: Action, max: nat)
    requires Exact(s, max) && max > 0
    ensures StaysAccounted(Step(s, a), max) <==> Calm(s, a)
  {
    if Calm(s, a) {
      CalmStaysAccounted(s, a, max);
    } else {
      var acts;
      if a.Recycle? {
        acts := RecycleInTheGap(s, a.obj, max);
      } else if a.sid in s.table {
        acts := OpenOverTable(s, a.sid, max);
      } else {
        acts := OpenInTheSynGap(s, a.sid, max);
      }
      assert CalmRun(Step(s, a), acts) && !Accounts(Run(Step(s, a), acts), max);
    }
  }

  /** An open is safe if and only if its id is neither in the table nor about to be registered by the reader. */
  lemma OpenIsSafeIff(s: Session, sid: u32, max: nat)
    requires Exact(s, max) && max > 0
    ensures StaysAccounted(Step(s, LocalOpen(sid)), max) <==> sid !in s.table && s.reader != Registering(sid)
  {
    CalmIsExact(s, LocalOpen(sid), max);
  }

  /** Recycling a dropped stream is safe if and only if it is not the one the reader is about to push to. If it is, then
      after any steps whatever the frame is still in hand or the account is short. */
  lemma GapDropIsSafeIff(s: Session, i: nat, acts: seq<Action>, max: nat)
    requires Exact(s, max) && max > 0 && i < |s.objs| && s.objs[i].stage == Leaving
    ensures StaysAccounted(Step(s, Recycle(i)), max) <==> !(Busy(s.reader) && s.reader.obj == i)
    ensures var t := Run(Step(s, Recycle(i)), acts);
            Busy(s.reader) && s.reader.obj == i ==> Doomed(t, i) || !Accounts(t, max)
  {
    CalmIsExact(s, Recycle(i), max);
    if Busy(s.reader) && s.reader.obj == i { GapRecycleLeaks(s, i, acts, max); }
  }

  /** At once, an open keeps the account if and only if its id is not registered to a stream with unread bytes. */
  lemma OpenKeepsAccountIff(s: Session, sid: u32, max: nat)
    requires Exact(s, max)
    ensures Accounts(Step(s, LocalOpen(sid)), max) <==> (sid !in s.table || s.objs[s.table[sid]].buffered == 0)
  {
    ExactAccounts(s, max);
    RegisterHeld(s, sid, 0);
  }

  lemma {:induction false} RegisterHeld(s: Session, sid: u32, from: nat)
    requires from <= |s.objs| && Tidy(s)
    ensures var s' := Register(s, sid);
            Held(s'.objs, s'.table, from) == Held(s.objs, s.table, from)
              - (if sid in s.table && s.table[sid] >= from then s.objs[s.table[sid]].buffered else 0)
    decreases |s.objs| - from
  {
    var s' := Register(s, sid);
    if from == |s.objs| {
      assert Held(s'.objs, s'.table, from + 1) == 0;
    } else {
      RegisterHeld(s, sid, from + 1);
    }
  }

  // ------------------------------------------------------------------
  // Failing runs
  // ------------------------------------------------------------------

  /** A stream opened by the peer. */
  function PeerOpened(max: nat, sid: u32): Session { Session(max, [Obj(sid, 0, Open)], map[sid := 0], Idle, 0, 0) }

  lemma PeerOpens(max: nat, sid: u32)
    requires max > 0
    ensures Run(Init(max), [PeerSyn(sid), InsertSyn]) == PeerOpened(max, sid) && Exact(PeerOpened(max, sid), max)
  {
    TwoSteps(Init(max), PeerSyn(sid), InsertSyn);
    assert [Obj(sid, 0, Open)][1..] == [];
  }

  /** And one byte that arrived on it. */
  lemma PeerSends(max: nat, sid: u32)
    requires max > 0
    ensures var s := PeerOpened(max, sid);
            var t := Step(Step(Step(s, PeerPush(sid, 1)), Spend), Push);
            Exact(t, max) && sid in t.table && t.table[sid] == 0 && t.objs[0].buffered == 1
  {
    var s := PeerOpened(max, sid);
    PeerOpens(max, sid);
    var s1 := Step(s, PeerPush(sid, 1));
    var s2 := Step(s1, Spend);
    CalmStepKeepsExact(s, PeerPush(sid, 1), max);
    CalmStepKeepsExact(s1, Spend, max);
    CalmStepKeepsExact(s2, Push, max);
    hide Exact, Run;
    assert s2.reader == Spent(0, 1) && s2.objs == s.objs;
  }

  /** A peer that opens id 3 before the client does, with one byte sent, breaks the account over the table. */
  lemma CollidingIdBreaksTheAccount(max: nat)
    requires max > 0
    ensures !Accounts(Run(Init(max), [PeerSyn(3), InsertSyn] + [PeerPush(3, 1), Spend, Push, LocalOpen(3)]), max)
  {
    hide Run, Step, Exact, Accounts;
    var s := PeerOpened(max, 3);
    PeerOpens(max, 3);
    RunAppend(Init(max), [PeerSyn(3), InsertSyn], [PeerPush(3, 1), Spend, Push, LocalOpen(3)]);
    FourSteps(s, PeerPush(3, 1), Spend, Push, LocalOpen(3));
    PeerSends(max, 3);
    OpenKeepsAccountIff(Step(Step(Step(s, PeerPush(3, 1)), Spend), Push), 3, max);
  }

  /** The same collision over a stream with nothing unread keeps the account for now, and a calm run breaks it later:
      the older handle's drop takes the newer stream out of the table. */
  lemma EmptyCollisionBreaksLater(max: nat)
    requires max > 0
    ensures var s := Run(Init(max), [PeerSyn(3), InsertSyn] + [LocalOpen(3)]);
            Accounts(s, max) && CalmRun(s, DropOlder(3, 0)) && !Accounts(Run(s, DropOlder(3, 0)), max)
  {
    var s := PeerOpened(max, 3);
    PeerOpens(max, 3);
    RunAppend(Init(max), [PeerSyn(3), InsertSyn], [LocalOpen(3)]);
    OneStep(s, LocalOpen(3));
    OpenKeepsAccountIff(s, 3, max);
    StepKeepsLedger(s, LocalOpen(3), max);
    DropOlderBreaks(Step(s, LocalOpen(3)), max, 3, 0);
  }

  /** The collision can also hide in the reader's own gap: the id is free when the reader looks it up and free when the
      open takes it, and the reader then registers it over the open. */
  lemma SynGapBreaksLater(max: nat)
    requires max > 0
    ensures var s := Run(Init(max), [PeerSyn(3), LocalOpen(3)]);
            && 3 !in Run(Init(max), [PeerSyn(3)]).table
            && Accounts(s, max)
            && CalmRun(s, [InsertSyn] + DropOlder(3, 0)) && !Accounts(Run(s, [InsertSyn] + DropOlder(3, 0)), max)
  {
    hide Run, CalmRun, Accounts, Step;
    var s0 := Init(max);
    var s2 := Step(Step(s0, PeerSyn(3)), LocalOpen(3));
    OneStep(s0, PeerSyn(3));
    TwoSteps(s0, PeerSyn(3), LocalOpen(3));
    OneStep(s2, InsertSyn);
    RunAppend(s2, [InsertSyn], DropOlder(3, 0));
    SynGapStates(max);
    TakeIsCalm(s2, InsertSyn);
    DropOlderBreaks(Step(s2, InsertSyn), max, 3, 0);
  }

  lemma SynGapStates(max: nat)
    requires max > 0
    ensures var s1 := Step(Init(max), PeerSyn(3));
            var s2 := Step(s1, LocalOpen(3));
            var s3 := Step(s2, InsertSyn);
            && s1.table == map[] && Accounts(s2, max)
            && Doubled(s3, max, 3, 0) && s3.reader.Idle? && s3.bucket > 0
  {
    var s1 := Step(Init(max), PeerSyn(3));
    var s2 := Step(s1, LocalOpen(3));
    InitIsExact(max);
    CalmStepKeepsExact(Init(max), PeerSyn(3), max);
    OpenKeepsAccountIff(s1, 3, max);
    StepKeepsLedger(s1, LocalOpen(3), max);
    StepKeepsLedger(s2, InsertSyn, max);
    hide Ledger, Accounts, Tidy;
  }

  /** For every id and frame size, a handle dropped between the reader's lookup and its push strands that frame's
      credit. */
  lemma DropInTheGapLeaks(max: nat, sid: u32, len: nat)
    requires max > 0 && 0 < len <= MAX_FRAME_DATA
    ensures var s := Run(Init(max), [PeerSyn(sid), InsertSyn]
                                    + ([PeerPush(sid, len)] + [Leave(0), Recycle(0), Spend, Push]));
            s.bucket == max - len && s.leaked == len && s.table == map[]
  {
    hide Run, CalmRun, Calm, Exact;
    var s := PeerOpened(max, sid);
    var rest := [Leave(0), Recycle(0), Spend, Push];
    PeerOpens(max, sid);
    RunAppend(Init(max), [PeerSyn(sid), InsertSyn], [PeerPush(sid, len)] + rest);
    OneStep(s, PeerPush(sid, len));
    RunAppend(s, [PeerPush(sid, len)], rest);
    var s1 := Step(s, PeerPush(sid, len));
    FourSteps(s1, Leave(0), Recycle(0), Spend, Push);
    var s2 := Step(s1, Leave(0));
    assert s2.table == map[] && s2.objs == [Obj(sid, 0, Leaving)];
    var s3 := Step(s2, Recycle(0));
    assert s3.objs == [Obj(sid, 0, Gone)] && s3.reader == Holding(0, len);
  }
}
