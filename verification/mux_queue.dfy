/** The outbound frame queue of a session: two lanes, one writer that drains in batches, and flush sequence numbers. */
module MuxQueue {
  import opened Bytes
  import opened MuxCodec

  datatype Queue = Queue(
    ctrl: seq<Frame>,     // keepalives, written first
    data: seq<Frame>,     // SYN, PSH and FIN
    dataBytes: nat,
    pushed: nat,
    written: nat,
    closed: bool)

  const EMPTY := Queue([], [], 0, 0, 0, false)

  function PayloadBytes(fs: seq<Frame>): nat {
    if fs == [] then 0 else |fs[0].data| + PayloadBytes(fs[1..])
  }

  lemma {:induction false} PayloadBytesAppend(fs: seq<Frame>, f: Frame)
    ensures PayloadBytes(fs + [f]) == PayloadBytes(fs) + |f.data|
  {
    if fs != [] {
      PayloadBytesAppend(fs[1..], f);
      assert (fs + [f])[1..] == fs[1..] + [f];
    }
  }

  // ------------------------------------------------------------------
  // What each call does to the state
  // ------------------------------------------------------------------

  function PushCtrl(q: Queue, f: Frame): Queue {
    if q.closed then q else q.(ctrl := q.ctrl + [f], pushed := q.pushed + 1)
  }

  function PushData(q: Queue, f: Frame): Queue {
    if q.closed then q
    else q.(data := q.data + [f], dataBytes := q.dataBytes + |f.data|, pushed := q.pushed + 1)
  }

  function TakeBatch(q: Queue): Queue {
    q.(ctrl := [], data := [], dataBytes := 0)
  }

  function MarkWritten(q: Queue, count: nat): Queue {
    q.(written := q.written + count)
  }

  datatype Readiness = Ready | Refused | Pending

  function Reserve(q: Queue, limit: nat): Readiness {
    if q.closed then Refused else if q.dataBytes < limit then Ready else Pending
  }

  function Flushed(q: Queue, seqno: nat): Readiness {
    if q.written >= seqno then Ready else if q.closed then Refused else Pending
  }

  /** The queue object: each method's new state is the step above applied to the old one. */
  class WriteQueue {
    var ctrl: seq<Frame>
    var data: seq<Frame>
    var dataBytes: nat
    var pushed: nat
    var written: nat
    var closed: bool
    const limit: nat

    function View(): Queue
      reads this
    {
      Queue(ctrl, data, dataBytes, pushed, written, closed)
    }

    constructor (limit: nat)
      ensures View() == EMPTY && this.limit == limit
    {
      this.limit := limit;
      ctrl, data, dataBytes, pushed, written, closed := [], [], 0, 0, 0, false;
    }

    method PushCtrlFrame(f: Frame) returns (ok: bool)
      modifies this
      ensures View() == PushCtrl(old(View()), f)
      ensures ok == !old(closed)
      ensures ok ==> View() == old(View()).(ctrl := old(ctrl) + [f], pushed := old(pushed) + 1)
      ensures !ok ==> View() == old(View())
    {
      if closed {
        return false;
      }
      ctrl := ctrl + [f];
      pushed := pushed + 1;
      return true;
    }

    method ForcePushData(f: Frame) returns (seqno: Option<nat>)
      modifies this
      ensures View() == PushData(old(View()), f)
      ensures seqno == if old(closed) then None else Some(pushed)
      ensures seqno.Some? ==>
                View() == old(View()).(data := old(data) + [f], dataBytes := old(dataBytes) + |f.data|, pushed := old(pushed) + 1)
      ensures seqno.None? ==> View() == old(View())
    {
      if closed {
        return None;
      }
      dataBytes := dataBytes + |f.data|;
      data := data + [f];
      pushed := pushed + 1;
      return Some(pushed);
    }

    method PollReserve() returns (r: Readiness)
      ensures r == Reserve(View(), limit)
      ensures (r == Refused <==> closed) && (r == Ready <==> !closed && dataBytes < limit)
    {
      if closed {
        return Refused;
      }
      if dataBytes < limit {
        return Ready;
      }
      return Pending;
    }

    method PollFlushed(seqno: nat) returns (r: Readiness)
      ensures r == Flushed(View(), seqno)
      ensures (r == Ready <==> written >= seqno) && (r == Refused <==> written < seqno && closed)
    {
      if written >= seqno {
        return Ready;
      }
      if closed {
        return Refused;
      }
      return Pending;
    }

    method Take() returns (batch: Option<seq<Frame>>)
      modifies this
      ensures old(ctrl) + old(data) == [] ==> batch == None && View() == old(View())
      ensures old(ctrl) + old(data) != [] ==>
                && batch == Some(old(ctrl) + old(data)) && View() == TakeBatch(old(View()))
                && View() == old(View()).(ctrl := [], data := [], dataBytes := 0)
    {
      if ctrl == [] && data == [] {
        return None;
      }
      batch := Some(ctrl + data);
      ctrl, data, dataBytes := [], [], 0;
    }

    method Mark(count: nat)
      modifies this
      ensures View() == MarkWritten(old(View()), count) == old(View()).(written := old(written) + count)
    {
      written := written + count;
    }

    method Close()
      modifies this
      ensures View() == old(View()).(closed := true)
    {
      closed := true;
    }
  }

  // ------------------------------------------------------------------
  // Flush is exact although control frames overtake data
  // ------------------------------------------------------------------

  /** The queue, its single writer, and a record of which sequence number each frame was given. */
  datatype Flushing = Flushing(
    q: Queue,
    log: seq<Frame>,         // log[t - 1] is the frame that was pushed with sequence number t
    ctrlTags: seq<nat>,      // sequence numbers of q.ctrl and q.data
    dataTags: seq<nat>,
    batch: seq<nat>,         // sequence numbers the writer has taken and not yet flushed
    done: seq<nat>)          // sequence numbers written and flushed, in wire order

  datatype QueueAction = Ctrl(f: Frame) | Data(f: Frame) | Take | Flush | Shut

  function FlushStep(s: Flushing, a: QueueAction): Flushing {
    match a
    case Ctrl(f) =>
      if s.q.closed then s
      else s.(q := PushCtrl(s.q, f), log := s.log + [f], ctrlTags := s.ctrlTags + [s.q.pushed + 1])
    case Data(f) =>
      if s.q.closed then s
      else s.(q := PushData(s.q, f), log := s.log + [f], dataTags := s.dataTags + [s.q.pushed + 1])
    case Take =>
      if s.batch != [] then s
      else s.(q := TakeBatch(s.q), batch := s.ctrlTags + s.dataTags, ctrlTags := [], dataTags := [])
    case Flush => s.(q := MarkWritten(s.q, |s.batch|), done := s.done + s.batch, batch := [])
    case Shut => s.(q := s.q.(closed := true))
  }

  function FlushRun(s: Flushing, acts: seq<QueueAction>): Flushing
    decreases |acts|
  {
    if acts == [] then s else FlushRun(FlushStep(s, acts[0]), acts[1..])
  }

  const FLUSH_INIT := Flushing(EMPTY, [], [], [], [], [])

  ghost predicate TagsCover(tags: seq<nat>, lo: nat, hi: nat) {
    forall t :: t in tags <==> lo < t <= hi
  }

  predicate Labels(tags: seq<nat>, fs: seq<Frame>, log: seq<Frame>) {
    && |tags| == |fs|
    && forall i :: 0 <= i < |tags| ==> 1 <= tags[i] <= |log| && log[tags[i] - 1] == fs[i]
  }

  ghost predicate FlushInv(s: Flushing) {
    && s.q.pushed == |s.log|
    && s.q.pushed - s.q.written == |s.ctrlTags| + |s.dataTags| + |s.batch|
    && Labels(s.ctrlTags, s.q.ctrl, s.log)
    && Labels(s.dataTags, s.q.data, s.log)
    && TagsCover(s.done, 0, s.q.written)
    && TagsCover(s.batch, s.q.written, s.q.written + |s.batch|)
    && TagsCover(s.ctrlTags + s.dataTags, s.q.written + |s.batch|, s.q.pushed)
  }

  lemma FlushStepKeeps(s: Flushing, a: QueueAction)
    requires FlushInv(s)
    ensures FlushInv(FlushStep(s, a))
  {
    var n := s.q.pushed + 1;
    match a
    case Ctrl(f) =>
      assert forall t :: t in (s.ctrlTags + [n]) + s.dataTags <==> t == n || t in s.ctrlTags + s.dataTags;
    case Data(f) =>
      assert forall t :: t in s.ctrlTags + (s.dataTags + [n]) <==> t == n || t in s.ctrlTags + s.dataTags;
    case _ =>
  }

  lemma {:induction false} FlushRunKeeps(s: Flushing, acts: seq<QueueAction>)
    requires FlushInv(s)
    ensures FlushInv(FlushRun(s, acts))
    decreases |acts|
  {
    if acts != [] {
      FlushStepKeeps(s, acts[0]);
      FlushRunKeeps(FlushStep(s, acts[0]), acts[1..]);
    }
  }

  /** In every reachable state a flush up to `seqno` is reported done exactly when every frame numbered up to
      `seqno` has been written and flushed; the writer's batch is always a contiguous range of numbers. */
  lemma FlushIsExact(acts: seq<QueueAction>, seqno: nat)
    requires seqno <= FlushRun(FLUSH_INIT, acts).q.pushed
    ensures var s := FlushRun(FLUSH_INIT, acts);
            && (Flushed(s.q, seqno) == Ready <==> forall t :: 1 <= t <= seqno ==> t in s.done)
            && s.q.pushed - s.q.written == |s.q.ctrl| + |s.q.data| + |s.batch|
            && TagsCover(s.batch, s.q.written, s.q.written + |s.batch|)
  {
    FlushRunKeeps(FLUSH_INIT, acts);
    var s := FlushRun(FLUSH_INIT, acts);
    if s.q.written < seqno {
      assert seqno !in s.done;
    }
  }

  /** A push on an open queue takes the next number, and it is that frame's; once closed the queue takes nothing. */
  lemma PushIsNumbered(s: Flushing, f: Frame)
    requires FlushInv(s) && !s.q.closed
    ensures var c, d := FlushStep(s, Ctrl(f)), FlushStep(s, Data(f));
            && c.q.pushed == s.q.pushed + 1 && c.log == s.log + [f] && c.log[s.q.pushed] == f && c.q.ctrl == s.q.ctrl + [f]
            && d.q.pushed == s.q.pushed + 1 && d.log == s.log + [f] && d.log[s.q.pushed] == f && d.q.data == s.q.data + [f]
    ensures var shut := FlushStep(s, Shut);
            shut.q == s.q.(closed := true) && FlushStep(shut, Ctrl(f)) == shut && FlushStep(shut, Data(f)) == shut
  {}

  /** Nothing stays unflushed: from every reachable state the writer, left alone, writes everything that was pushed. */
  lemma FlushDrains(acts: seq<QueueAction>, seqno: nat)
    ensures var s := FlushRun(FLUSH_INIT, acts);
            var t := FlushStep(FlushStep(FlushStep(s, Flush), Take), Flush);
            && t.q.written == t.q.pushed == s.q.pushed && t.q.ctrl == [] && t.q.data == []
            && (seqno <= s.q.pushed ==> Flushed(t.q, seqno) == Ready)
            && (forall n :: 1 <= n <= s.q.pushed ==> n in t.done)
  {
    FlushRunKeeps(FLUSH_INIT, acts);
    var s := FlushRun(FLUSH_INIT, acts);
    var s1 := FlushStep(s, Flush);
    var s2 := FlushStep(s1, Take);
    FlushStepKeeps(s, Flush);
    FlushStepKeeps(s1, Take);
    FlushStepKeeps(s2, Flush);
  }

  // ------------------------------------------------------------------
  // The send-side bound, with reserving and pushing as separate steps
  // ------------------------------------------------------------------

  function SendQueueLimit(maxFrame: nat): nat { Max(8 * maxFrame, 65536) }

  /** `reserved` holds the writers that were told there is room and have not pushed yet. */
  datatype Sending = Sending(q: Queue, reserved: set<nat>)

  datatype SendAction = Claim(writer: nat) | Push(writer: nat, f: Frame) | Control(f: Frame) | Drain | Stop

  function SendStep(s: Sending, a: SendAction, limit: nat): Sending {
    match a
    case Claim(w) => if Reserve(s.q, limit) == Ready then s.(reserved := s.reserved + {w}) else s
    case Push(w, f) => if w in s.reserved then Sending(PushData(s.q, f), s.reserved - {w}) else s
    case Control(f) => s.(q := PushData(s.q, f))
    case Drain => s.(q := TakeBatch(s.q))
    case Stop => s.(q := s.q.(closed := true))
  }

  /** `writers` streams exist, a data frame carries at most `maxFrame` bytes, and SYN and FIN carry none. */
  predicate SendAllowed(a: SendAction, writers: nat, maxFrame: nat) {
    match a
    case Claim(w) => w < writers
    case Push(w, f) => w < writers && |f.data| <= maxFrame
    case Control(f) => f.data == []
    case _ => true
  }

  function SendRun(s: Sending, acts: seq<SendAction>, limit: nat): Sending
    decreases |acts|
  {
    if acts == [] then s else SendRun(SendStep(s, acts[0], limit), acts[1..], limit)
  }

  lemma {:induction false} BelowCount(s: set<nat>, k: nat)
    requires forall w :: w in s ==> w < k
    ensures |s| <= k
    decreases k
  {
    if k == 0 {
      assert s == {};
    } else {
      BelowCount(s - {k - 1}, k - 1);
    }
  }

  /** The bytes of `n` full frames. */
  function Frames(n: nat, maxFrame: nat): nat {
    if n == 0 then 0 else maxFrame + Frames(n - 1, maxFrame)
  }

  lemma {:induction false} FramesProduct(n: nat, maxFrame: nat)
    ensures Frames(n, maxFrame) == n * maxFrame
  {
    if n > 0 {
      FramesProduct(n - 1, maxFrame);
      assert n * maxFrame == (n - 1) * maxFrame + maxFrame;
    }
  }

  lemma {:induction false} FramesGrow(n: nat, m: nat, maxFrame: nat)
    requires n <= m
    ensures Frames(n, maxFrame) <= Frames(m, maxFrame)
    decreases m
  {
    if n < m { FramesGrow(n, m - 1, maxFrame); }
  }

  ghost predicate SendInv(s: Sending, limit: nat, writers: nat, maxFrame: nat) {
    && s.q.dataBytes == PayloadBytes(s.q.data)
    && (forall w :: w in s.reserved ==> w < writers)
    && |s.reserved| <= writers
    && s.q.dataBytes <= limit - 1 + Frames(writers - |s.reserved|, maxFrame)
  }

  lemma SendStepKeeps(s: Sending, a: SendAction, limit: nat, writers: nat, maxFrame: nat)
    requires limit > 0 && SendInv(s, limit, writers, maxFrame) && SendAllowed(a, writers, maxFrame)
    ensures SendInv(SendStep(s, a, limit), limit, writers, maxFrame)
  {
    var s' := SendStep(s, a, limit);
    BelowCount(s'.reserved, writers);
    match a
    case Claim(w) =>
    case Push(w, f) =>
      PayloadBytesAppend(s.q.data, f);
      if w in s.reserved {
        assert |s'.reserved| == |s.reserved| - 1;
      }
    case Control(f) => PayloadBytesAppend(s.q.data, f);
    case Drain =>
    case Stop =>
  }

  lemma {:induction false} SendRunKeeps(s: Sending, acts: seq<SendAction>, limit: nat, writers: nat, maxFrame: nat)
    requires limit > 0 && SendInv(s, limit, writers, maxFrame)
    requires forall i :: 0 <= i < |acts| ==> SendAllowed(acts[i], writers, maxFrame)
    ensures SendInv(SendRun(s, acts, limit), limit, writers, maxFrame)
    decreases |acts|
  {
    if acts != [] {
      SendStepKeeps(s, acts[0], limit, writers, maxFrame);
      SendRunKeeps(SendStep(s, acts[0], limit), acts[1..], limit, writers, maxFrame);
    }
  }

  /** Whatever the interleaving, the byte counter is the sum over the data lane and k writers overshoot by at
      most k frames. */
  lemma SendQueueBounded(acts: seq<SendAction>, writers: nat, maxFrame: nat)
    requires forall i :: 0 <= i < |acts| ==> SendAllowed(acts[i], writers, maxFrame)
    ensures var limit := SendQueueLimit(maxFrame);
            var q := SendRun(Sending(EMPTY, {}), acts, limit).q;
            q.dataBytes == PayloadBytes(q.data) <= limit - 1 + writers * maxFrame
  {
    var limit := SendQueueLimit(maxFrame);
    var s := SendRun(Sending(EMPTY, {}), acts, limit);
    SendRunKeeps(Sending(EMPTY, {}), acts, limit, writers, maxFrame);
    FramesGrow(writers - |s.reserved|, writers, maxFrame);
    FramesProduct(writers, maxFrame);
  }

  // ------------------------------------------------------------------
  // The bound is reached
  // ------------------------------------------------------------------

  function FrameOf(size: nat): Frame { Frame(1, CMD_PSH, 0, Zeros(size)) }

  /** Writer 0 queues n bytes. */
  function Fill(n: nat, maxFrame: nat): seq<SendAction>
    requires maxFrame > 0
    decreases n
  {
    if n == 0 then []
    else
      var size := Min(n, maxFrame);
      [Claim(0), Push(0, FrameOf(size))] + Fill(n - size, maxFrame)
  }

  /** Each of k writers is told there is room. */
  function Claims(k: nat): seq<SendAction> { if k == 0 then [] else [Claim(k - 1)] + Claims(k - 1) }

  /** Each of k writers queues a full frame. */
  function Pushes(k: nat, maxFrame: nat): seq<SendAction> {
    if k == 0 then [] else [Push(k - 1, FrameOf(maxFrame))] + Pushes(k - 1, maxFrame)
  }

  ghost predicate AllAllowed(acts: seq<SendAction>, writers: nat, maxFrame: nat) {
    forall i :: 0 <= i < |acts| ==> SendAllowed(acts[i], writers, maxFrame)
  }

  lemma {:induction false} SendRunAppend(s: Sending, a: seq<SendAction>, b: seq<SendAction>, limit: nat)
    ensures SendRun(s, a + b, limit) == SendRun(SendRun(s, a, limit), b, limit)
    decreases |a|
  {
    hide SendStep;
    if a == [] {
      assert a + b == b;
    } else {
      SendRunAppend(SendStep(s, a[0], limit), a[1..], b, limit);
      assert (a + b)[1..] == a[1..] + b;
    }
  }

  lemma SendTwo(s: Sending, a: SendAction, b: SendAction, limit: nat)
    ensures SendRun(s, [a, b], limit) == SendStep(SendStep(s, a, limit), b, limit)
  {
    hide SendStep;
    var s1 := SendStep(s, a, limit);
    assert [a, b] == [a] + [b];
    assert SendRun(s1, [b], limit) == SendRun(SendStep(s1, b, limit), [], limit);
  }

  lemma {:induction false} FillReaches(s: Sending, n: nat, maxFrame: nat, limit: nat, writers: nat)
    requires maxFrame > 0 && writers > 0 && !s.q.closed && s.reserved == {} && s.q.dataBytes + n < limit
    ensures var s' := SendRun(s, Fill(n, maxFrame), limit);
            !s'.q.closed && s'.reserved == {} && s'.q.dataBytes == s.q.dataBytes + n
    ensures AllAllowed(Fill(n, maxFrame), writers, maxFrame)
    decreases n
  {
    if n > 0 {
      var size := Min(n, maxFrame);
      var a, b := Claim(0), Push(0, FrameOf(size));
      var s' := SendStep(SendStep(s, a, limit), b, limit);
      assert s'.reserved == {} && s'.q.dataBytes == s.q.dataBytes + size;
      SendRunAppend(s, [a, b], Fill(n - size, maxFrame), limit);
      SendTwo(s, a, b, limit);
      FillReaches(s', n - size, maxFrame, limit, writers);
    }
  }

  lemma {:induction false} ClaimsReach(s: Sending, k: nat, limit: nat, writers: nat, maxFrame: nat)
    requires !s.q.closed && s.q.dataBytes < limit && k <= writers
    ensures var s' := SendRun(s, Claims(k), limit);
            s'.q == s.q && s.reserved <= s'.reserved && forall w: nat :: w < k ==> w in s'.reserved
    ensures AllAllowed(Claims(k), writers, maxFrame)
    decreases k
  {
    if k > 0 {
      var s1 := SendStep(s, Claim(k - 1), limit);
      ClaimsReach(s1, k - 1, limit, writers, maxFrame);
      assert Claims(k)[1..] == Claims(k - 1);
      assert k - 1 in s1.reserved;
    }
  }

  lemma {:induction false} PushesReach(s: Sending, k: nat, limit: nat, writers: nat, maxFrame: nat)
    requires !s.q.closed && k <= writers && forall w: nat :: w < k ==> w in s.reserved
    ensures SendRun(s, Pushes(k, maxFrame), limit).q.dataBytes == s.q.dataBytes + Frames(k, maxFrame)
    ensures AllAllowed(Pushes(k, maxFrame), writers, maxFrame)
    decreases k
  {
    if k > 0 {
      PushesReach(SendStep(s, Push(k - 1, FrameOf(maxFrame)), limit), k - 1, limit, writers, maxFrame);
      assert Pushes(k, maxFrame)[1..] == Pushes(k - 1, maxFrame);
    }
  }

  /** For every number of writers and every frame size, some run from the empty queue meets the bound exactly: the
      queue fills to one byte below the limit, everybody is told there is room, and everybody pushes. */
  lemma SendBoundIsTight(writers: nat, maxFrame: nat) returns (acts: seq<SendAction>)
    requires writers > 0 && maxFrame > 0
    ensures AllAllowed(acts, writers, maxFrame)
    ensures var limit := SendQueueLimit(maxFrame);
            SendRun(Sending(EMPTY, {}), acts, limit).q.dataBytes == limit - 1 + writers * maxFrame
  {
    hide SendRun, SendAllowed, SendStep;
    var limit := SendQueueLimit(maxFrame);
    var s0 := Sending(EMPTY, {});
    var fill, claims, pushes := Fill(limit - 1, maxFrame), Claims(writers), Pushes(writers, maxFrame);
    FillReaches(s0, limit - 1, maxFrame, limit, writers);
    var s1 := SendRun(s0, fill, limit);
    ClaimsReach(s1, writers, limit, writers, maxFrame);
    PushesReach(SendRun(s1, claims, limit), writers, limit, writers, maxFrame);
    SendRunAppend(s1, claims, pushes, limit);
    SendRunAppend(s0, fill, claims + pushes, limit);
    FramesProduct(writers, maxFrame);
    acts := fill + (claims + pushes);
  }
}
