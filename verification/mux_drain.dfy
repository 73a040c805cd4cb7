/** Nothing gets stuck between two session ends: from every reachable state the writers and readers can be run until
    every byte accepted has been delivered. */
module MuxDrain {
  import opened Bytes
  import opened MuxCodec
  import opened MuxQueue
  import opened MuxProtocol
  import MuxSession

  /** The turns of the writers, the transport, the readers and of applications that only read. */
  predicate Pump(t: Turn) {
    t.act.TakeFrames? || t.act.Put? || t.act.Get? || t.act.Process? || t.act.Read?
  }

  predicate AllPump(ts: seq<Turn>) { forall i :: 0 <= i < |ts| ==> Pump(ts[i]) }

  // ------------------------------------------------------------------
  // Runs
  // ------------------------------------------------------------------

  lemma {:induction false} RunAppend(s: System, x: seq<Turn>, y: seq<Turn>)
    ensures Run(s, x + y) == Run(Run(s, x), y)
    decreases |x|
  {
    hide Step;
    if x == [] {
      assert x + y == y;
    } else {
      RunAppend(Step(s, x[0]), x[1..], y);
      assert (x + y)[1..] == x[1..] + y;
    }
  }

  lemma RunOne(s: System, t: Turn)
    ensures Run(s, [t]) == Step(s, t)
  {
    hide Step;
    assert Run(Step(s, t), []) == Step(s, t);
  }

  lemma RunThree(s: System, t1: Turn, t2: Turn, t3: Turn)
    ensures Run(s, [t1, t2, t3]) == Step(Step(Step(s, t1), t2), t3)
  {
    hide Step, Run;
    assert [t1, t2, t3] == [t1] + ([t2] + [t3]);
    RunAppend(s, [t1], [t2] + [t3]);
    RunAppend(Step(s, t1), [t2], [t3]);
    RunOne(s, t1);
    RunOne(Step(s, t1), t2);
    RunOne(Step(Step(s, t1), t2), t3);
  }

  function Mirror(ts: seq<Turn>): seq<Turn> {
    seq(|ts|, i requires 0 <= i < |ts| => ts[i].(isA := !ts[i].isA))
  }

  /** The two ends are built alike. */
  lemma {:induction false} RunMirror(s: System, ts: seq<Turn>)
    ensures Run(Swap(s), Mirror(ts)) == Swap(Run(s, ts))
    ensures AllPump(ts) ==> AllPump(Mirror(ts))
    decreases |ts|
  {
    hide StepA;
    if ts != [] {
      assert Step(Swap(s), Mirror(ts)[0]) == Swap(Step(s, ts[0]));
      assert Mirror(ts)[1..] == Mirror(ts[1..]);
      RunMirror(Step(s, ts[0]), ts[1..]);
    }
  }

  lemma SwapKeeps(s: System)
    ensures Inv(Swap(s)) <==> Inv(s)
  {
    hide DirInv, IdsInv;
  }

  // ------------------------------------------------------------------
  // What pumping leaves alone
  // ------------------------------------------------------------------

  /** As senders the ends are alike: the same bytes accepted, the same FINs sent, nobody's handle gone. */
  predicate SameRecords(e: End, e': End) {
    && e'.queue.closed == e.queue.closed
    && (forall sid: u32 :: sid in e.streams ==>
          && sid in e'.streams
          && e'.streams[sid].accepted == e.streams[sid].accepted
          && e'.streams[sid].finSent == e.streams[sid].finSent
          && e'.streams[sid].life == e.streams[sid].life)
    && (forall sid: u32 :: sid in e'.streams && sid !in e.streams ==>
          e'.streams[sid].accepted == [] && !e'.streams[sid].finSent && e'.streams[sid].life == Open)
  }

  lemma RecordsTrans(x: End, y: End, z: End)
    requires SameRecords(x, y) && SameRecords(y, z)
    ensures SameRecords(x, z)
  {}

  // ------------------------------------------------------------------
  // The sender empties its queue
  // ------------------------------------------------------------------

  lemma PutAll(s: System)
    requires Inv(s)
    ensures var t := StepA(s, Put(|s.a.out|));
            Inv(t) && t == s.(a := s.a.(out := []), ab := s.ab.(bytes := s.ab.bytes + s.a.out))
  {
    hide Inv;
    StepAKeeps(s, Put(|s.a.out|));
    assert s.a.out[|s.a.out|..] == [] && s.a.out[..|s.a.out|] == s.a.out;
  }

  lemma QueueFits(tx: End, w: Pipe, rx: End)
    requires WireInv(tx, w, rx)
    ensures AllFit(tx.queue.ctrl + tx.queue.data)
  {
    hide EncodeAll;
  }

  lemma TakeAll(s: System)
    requires Inv(s) && s.a.out == []
    ensures var t := StepA(s, TakeFrames);
            && Inv(t) && t.a.queue.ctrl == [] && t.a.queue.data == [] && t.a.queue.closed == s.a.queue.closed
            && t.a.streams == s.a.streams && t.a.acc == s.a.acc && t.b == s.b && t.ba == s.ba
  {
    hide Inv, AllFit, StepA;
    StepAKeeps(s, TakeFrames);
    InvFits(s);
    TakeEffect(s);
  }

  lemma InvFits(s: System)
    requires Inv(s)
    ensures AllFit(s.a.queue.ctrl + s.a.queue.data)
  {
    hide SidInv, GotInv, EncodeAll;
    QueueFits(s.a, s.ab, s.b);
  }

  lemma TakeEffect(s: System)
    requires s.a.out == [] && AllFit(s.a.queue.ctrl + s.a.queue.data)
    ensures var t := StepA(s, TakeFrames);
            && t.a.queue.ctrl == [] && t.a.queue.data == [] && t.a.queue.closed == s.a.queue.closed
            && t.a.streams == s.a.streams && t.a.acc == s.a.acc && t.b == s.b && t.ba == s.ba
  {
    hide AllFit, EncodeAll;
    var batch := s.a.queue.ctrl + s.a.queue.data;
    assert |batch| == |s.a.queue.ctrl| + |s.a.queue.data|;
  }

  /** Everything queued goes out. */
  lemma SendAll(s: System) returns (ts: seq<Turn>)
    requires Inv(s)
    ensures AllPump(ts)
    ensures var t := Run(s, ts);
            && Inv(t) && t.a.queue.ctrl == [] && t.a.queue.data == [] && t.a.out == []
            && t.a.queue.closed == s.a.queue.closed
            && t.a.streams == s.a.streams && t.a.acc == s.a.acc && t.b == s.b && t.ba == s.ba
  {
    hide Inv, StepA, Run;
    var s1 := StepA(s, Put(|s.a.out|));
    PutAll(s);
    var s2 := StepA(s1, TakeFrames);
    TakeAll(s1);
    PutAll(s2);
    ts := [Turn(true, Put(|s.a.out|)), Turn(true, TakeFrames), Turn(true, Put(|s2.a.out|))];
    RunThree(s, ts[0], ts[1], ts[2]);
  }

  // ------------------------------------------------------------------
  // The receiver handles one frame
  // ------------------------------------------------------------------

  /** How much the reader still asks for, when its buffer and the bytes to come start with a frame. */
  lemma WantedIs(acc: seq<byte>, future: seq<byte>, f: Frame, rest: seq<byte>)
    requires acc + future == Encoded(f) + rest && OwnFrames([f])
    ensures |Encoded(f)| == HEADER_SIZE + |f.data|
    ensures Wanted(acc) == if |acc| < HEADER_SIZE then HEADER_SIZE - |acc| else Max(0, |Encoded(f)| - |acc|)
  {
    hide DecodeHeader, EncodeHeader;
    var e := Encoded(f);
    assert Sendable([f][0]) && [f][0].cmd != CMD_UPD;
    HeaderSize(HeaderOf(f));
    if |acc| >= HEADER_SIZE {
      HeaderRoundTrip(HeaderOf(f), acc[..HEADER_SIZE]);
      assert acc[..HEADER_SIZE] == (acc + future)[..HEADER_SIZE] == (e + rest)[..HEADER_SIZE] == EncodeHeader(HeaderOf(f));
    }
  }

  lemma HeaderSize(h: Header)
    ensures |EncodeHeader(h)| == HEADER_SIZE
  {}

  lemma GetAll(s: System, n: nat)
    requires Inv(s) && n <= |s.ab.bytes| && n <= Wanted(s.b.acc)
    ensures var t := Step(s, Turn(false, Get(n)));
            && Inv(t)
            && t == s.(b := s.b.(acc := s.b.acc + s.ab.bytes[..n]), ab := s.ab.(bytes := s.ab.bytes[n..]))
  {
    hide Inv, Wanted;
    SwapKeeps(s);
    StepAKeeps(Swap(s), Get(n));
    SwapKeeps(StepA(Swap(s), Get(n)));
  }

  /** What the reader's buffer and the pipe hold, with the writer's buffer empty. */
  lemma FlightBytes(s: System)
    requires Inv(s) && s.a.out == []
    ensures s.b.acc + s.ab.bytes == EncodeAll(s.ab.flight) && OwnFrames(s.ab.flight)
  {
    hide EncodeAll, OwnFrames;
    assert s.b.acc + s.ab.bytes + [] == s.b.acc + s.ab.bytes;
  }

  /** One more read of as much as the reader asks for: a header first, or the rest of the frame. */
  lemma GetMore(s: System)
    requires Inv(s) && s.a.out == [] && s.ab.flight != []
    ensures var n := Wanted(s.b.acc);
            var t := Step(s, Turn(false, Get(n)));
            && n <= |s.ab.bytes| && Inv(t) && t.a == s.a && t.ba == s.ba && t.ab.flight == s.ab.flight
            && t.b == s.b.(acc := t.b.acc) && |t.b.acc| == |s.b.acc| + n
            && (|s.b.acc| < HEADER_SIZE ==> |t.b.acc| == HEADER_SIZE)
            && (|s.b.acc| >= HEADER_SIZE ==> |t.b.acc| >= |Encoded(s.ab.flight[0])|)
  {
    hide Inv, Step, Wanted, Encoded;
    var fs := s.ab.flight;
    FlightBytes(s);
    FirstFrame(fs);
    WantedIs(s.b.acc, s.ab.bytes, fs[0], EncodeAll(fs[1..]));
    assert |s.b.acc| + |s.ab.bytes| == |Encoded(fs[0])| + |EncodeAll(fs[1..])|;
    GetAll(s, Wanted(s.b.acc));
  }

  lemma FirstFrame(fs: seq<Frame>)
    requires fs != [] && OwnFrames(fs)
    ensures EncodeAll(fs) == Encoded(fs[0]) + EncodeAll(fs[1..]) && OwnFrames([fs[0]])
  {
    hide Encoded;
    assert [fs[0]][0] == fs[0];
  }

  /** A frame the buffer holds whole is handled. */
  lemma WholeFrameReads(acc: seq<byte>, future: seq<byte>, f: Frame, rest: seq<byte>)
    requires acc + future == Encoded(f) + rest && OwnFrames([f]) && |acc| >= |Encoded(f)|
    ensures ReadOne(VERSION, acc) == Event(f, |Encoded(f)|)
  {
    hide DecodeHeader, EncodeHeader;
    WantedIs(acc, future, f, rest);
    FrontRead(acc, future, f, rest);
    HeaderRoundTrip(HeaderOf(f), acc[..HEADER_SIZE]);
    assert acc[..HEADER_SIZE] == (acc + future)[..HEADER_SIZE] == (Encoded(f) + rest)[..HEADER_SIZE]
           == EncodeHeader(HeaderOf(f));
    assert Sendable([f][0]) && [f][0].cmd != CMD_UPD;
  }

  lemma HandleOne(s: System)
    requires Inv(s) && s.a.out == [] && s.ab.flight != [] && |s.b.acc| >= |Encoded(s.ab.flight[0])|
    ensures var t := Step(s, Turn(false, Process));
            && Inv(t) && t.a == s.a && t.ba == s.ba && t.ab == s.ab.(flight := s.ab.flight[1..])
            && t.b.queue == s.b.queue && t.b.out == s.b.out && SameRecords(s.b, t.b)
  {
    hide Inv, Encoded;
    var fs, acc := s.ab.flight, s.b.acc;
    FlightBytes(s);
    FirstFrame(fs);
    WholeFrameReads(acc, s.ab.bytes, fs[0], EncodeAll(fs[1..]));
    SwapKeeps(s);
    StepAKeeps(Swap(s), Process);
    SwapKeeps(StepA(Swap(s), Process));
    var e := s.b.(acc := acc[|Encoded(fs[0])|..]);
    ReceiveRecords(e, fs[0], s);
    RecordsTrans(s.b, e, Receive(e, fs[0]));
  }

  /** Handling a frame changes no sender's record, because a SYN only ever names a stream not yet known. */
  lemma ReceiveRecords(e: End, f: Frame, s: System)
    requires Inv(s) && s.ab.flight != [] && f == s.ab.flight[0] && e.streams == s.b.streams
    ensures SameRecords(e, Receive(e, f))
    ensures Receive(e, f).queue == e.queue && Receive(e, f).out == e.out
  {
    if f.cmd == CMD_SYN {
      assert SidInv(s.a, s.ab, s.b, f.sid);
      SynIsNew(s.a, s.ab, s.b);
    }
  }

  lemma SynIsNew(tx: End, w: Pipe, rx: End)
    requires DirInv(tx, w, rx) && w.flight != [] && w.flight[0].cmd == CMD_SYN
    ensures w.flight[0].sid !in rx.streams
  {
    var f, fs := w.flight[0], InFlight(tx, w);
    assert fs[0] == f;
    assert SidInv(tx, w, rx, f.sid);
    if f.sid in rx.streams {
      assert Feed(RxOf(rx, f.sid), f, f.sid) == Broken;
      FeedBroken(fs[1..], f.sid);
    }
  }

  lemma FrameRead(s: System) returns (ts: seq<Turn>)
    requires Inv(s) && s.a.out == [] && s.ab.flight != []
    ensures AllPump(ts)
    ensures var t := Run(s, ts);
            && Inv(t) && t.a == s.a && t.ba == s.ba && t.ab.flight == s.ab.flight[1..]
            && t.b.queue == s.b.queue && t.b.out == s.b.out && SameRecords(s.b, t.b)
  {
    hide Inv, Step, Run, Wanted, SameRecords;
    ts := [Turn(false, Get(Wanted(s.b.acc)))];
    var s1 := Step(s, ts[0]);
    GetMore(s);
    ts := ts + [Turn(false, Get(Wanted(s1.b.acc)))];
    var s2 := Step(s1, ts[1]);
    GetMore(s1);
    FlightHasHeader(s);
    ts := [ts[0], ts[1], Turn(false, Process)];
    HandleOne(s2);
    SameStreams(s.b, s2.b);
    RecordsTrans(s.b, s2.b, Step(s2, ts[2]).b);
    RunThree(s, ts[0], ts[1], ts[2]);
  }

  lemma SameStreams(e: End, e': End)
    requires e'.streams == e.streams && e'.queue == e.queue
    ensures SameRecords(e, e')
  {}

  lemma FlightHasHeader(s: System)
    requires Inv(s) && s.a.out == [] && s.ab.flight != []
    ensures |Encoded(s.ab.flight[0])| >= HEADER_SIZE
  {
    hide Inv, EncodeHeader;
    HeaderSize(HeaderOf(s.ab.flight[0]));
  }

  // ------------------------------------------------------------------
  // One direction runs empty
  // ------------------------------------------------------------------

  predicate Empty(tx: End, w: Pipe, rx: End) {
    tx.queue.ctrl == [] && tx.queue.data == [] && tx.out == [] && w == Pipe([], []) && rx.acc == []
  }

  lemma {:induction false} ReadFlight(s: System) returns (ts: seq<Turn>)
    requires Inv(s) && s.a.out == [] && s.a.queue.ctrl == [] && s.a.queue.data == []
    ensures AllPump(ts)
    ensures var t := Run(s, ts);
            && Inv(t) && t.a == s.a && t.ba == s.ba && Empty(t.a, t.ab, t.b)
            && t.b.queue == s.b.queue && t.b.out == s.b.out && SameRecords(s.b, t.b)
    decreases |s.ab.flight|
  {
    hide Inv, Step, Run, SameRecords;
    if s.ab.flight == [] {
      ts := [];
      RunNone(s);
      NothingInFlight(s);
      SameStreams(s.b, s.b);
    } else {
      ts := FrameRead(s);
      var s1 := Run(s, ts);
      var more := ReadFlight(s1);
      RunAppend(s, ts, more);
      RecordsTrans(s.b, s1.b, Run(s1, more).b);
      ts := ts + more;
    }
  }

  lemma RunNone(s: System)
    ensures Run(s, []) == s
  {}

  lemma NothingInFlight(s: System)
    requires Inv(s) && s.a.out == [] && s.ab.flight == []
    ensures s.ab.bytes == [] && s.b.acc == []
  {
    FlightBytes(s);
    assert |s.b.acc + s.ab.bytes| == 0;
  }

  lemma EmptyOneWay(s: System) returns (ts: seq<Turn>)
    requires Inv(s)
    ensures AllPump(ts)
    ensures var t := Run(s, ts);
            && Inv(t) && Empty(t.a, t.ab, t.b) && t.ba == s.ba && t.a.acc == s.a.acc
            && t.b.queue == s.b.queue && t.b.out == s.b.out
            && SameRecords(s.a, t.a) && SameRecords(s.b, t.b)
  {
    hide Inv, Run;
    ts := SendAll(s);
    var s1 := Run(s, ts);
    var more := ReadFlight(s1);
    RunAppend(s, ts, more);
    ts := ts + more;
  }

  lemma EmptyBothWays(s: System) returns (ts: seq<Turn>)
    requires Inv(s)
    ensures AllPump(ts)
    ensures var t := Run(s, ts);
            && Inv(t) && Empty(t.a, t.ab, t.b) && Empty(t.b, t.ba, t.a)
            && SameRecords(s.a, t.a) && SameRecords(s.b, t.b)
  {
    hide Inv, Run, SameRecords;
    ts := EmptyOneWay(s);
    var s1 := Run(s, ts);
    SwapKeeps(s1);
    var back := EmptyOneWay(Swap(s1));
    var s2 := Run(Swap(s1), back);
    RunMirror(Swap(s1), back);
    SwapKeeps(s2);
    assert Swap(Swap(s1)) == s1;
    RunAppend(s, ts, Mirror(back));
    RecordsTrans(s.a, s1.a, s2.b);
    RecordsTrans(s.b, s1.b, s2.a);
    ts := ts + Mirror(back);
  }

  // ------------------------------------------------------------------
  // The applications read
  // ------------------------------------------------------------------

  /** Nothing but the unread bytes of these streams has changed, and they have been delivered. */
  predicate ReadOut(e: End, e': End, keys: set<u32>) {
    && e'.queue == e.queue && e'.out == e.out && e'.acc == e.acc && e'.streams.Keys == e.streams.Keys
    && forall sid :: sid in e.streams ==>
         var o := e.streams[sid];
         e'.streams[sid] == if sid in keys && o.life != Dropped then o.(unread := [], delivered := o.delivered + o.unread) else o
  }

  lemma ReadStream(s: System, sid: u32)
    requires Inv(s) && sid in s.a.streams
    ensures var t := StepA(s, Read(sid, |s.a.streams[sid].unread|));
            Inv(t) && t.b == s.b && t.ab == s.ab && t.ba == s.ba && ReadOut(s.a, t.a, {sid})
  {
    hide Inv, StepA, ReadOut;
    StepAKeeps(s, Read(sid, |s.a.streams[sid].unread|));
    ReadEffect(s, sid);
  }

  lemma ReadEffect(s: System, sid: u32)
    requires sid in s.a.streams
    ensures var t := StepA(s, Read(sid, |s.a.streams[sid].unread|));
            t.b == s.b && t.ab == s.ab && t.ba == s.ba && ReadOut(s.a, t.a, {sid})
  {
    var u := s.a.streams[sid].unread;
    assert u[|u|..] == [] && u[..|u|] == u;
  }

  lemma ReadOutTrans(x: End, y: End, z: End, ks: set<u32>, sid: u32)
    requires ReadOut(x, y, {sid}) && ReadOut(y, z, ks) && sid !in ks
    ensures ReadOut(x, z, ks + {sid})
  {}

  lemma {:induction false} ReadKeys(s: System, keys: set<u32>) returns (ts: seq<Turn>)
    requires Inv(s) && keys <= s.a.streams.Keys
    ensures AllPump(ts)
    ensures var t := Run(s, ts);
            Inv(t) && t.b == s.b && t.ab == s.ab && t.ba == s.ba && ReadOut(s.a, t.a, keys)
    decreases |keys|
  {
    hide Inv, StepA, Run, ReadOut;
    if keys == {} {
      ts := [];
      RunNone(s);
      ReadNothing(s.a);
    } else {
      var sid :| sid in keys;
      var turn := Turn(true, Read(sid, |s.a.streams[sid].unread|));
      ReadStream(s, sid);
      var s1 := Step(s, turn);
      SameKeys(s.a, s1.a, {sid});
      var rest := keys - {sid};
      var more := ReadKeys(s1, rest);
      RunOne(s, turn);
      RunAppend(s, [turn], more);
      ReadOutTrans(s.a, s1.a, Run(s1, more).a, rest, sid);
      assert rest + {sid} == keys;
      ts := [turn] + more;
    }
  }

  lemma ReadNothing(e: End)
    ensures ReadOut(e, e, {})
  {}

  lemma SameKeys(e: End, e': End, ks: set<u32>)
    requires ReadOut(e, e', ks)
    ensures e'.streams.Keys == e.streams.Keys
  {}

  // ------------------------------------------------------------------
  // Everything is delivered
  // ------------------------------------------------------------------

  /** With nothing under way, an end that has read out has delivered exactly what the other accepted; and every stream
      the sender has is known to the receiver. */
  lemma NothingUnderWay(tx: End, w: Pipe, rx: End, sid: u32)
    requires DirInv(tx, w, rx) && Empty(tx, w, rx)
    ensures sid in tx.streams ==> sid in rx.streams
    ensures sid in rx.streams && rx.streams[sid].life == Open ==>
              && rx.streams[sid].delivered + rx.streams[sid].unread == Accepted(tx, sid)
              && (sid in tx.streams && !tx.queue.closed ==> rx.streams[sid].fin == tx.streams[sid].finSent)
  {
    assert SidInv(tx, w, rx, sid) && GotInv(tx, rx, sid);
    assert InFlight(tx, w) == [];
  }

  /** What the receiver of one direction has after the drain. */
  predicate Delivered(tx: End, rx0: End, rx: End, sid: u32) {
    && (sid in tx.streams ==> sid in rx.streams)
    && (sid in rx0.streams ==> sid in rx.streams && rx.streams[sid].life == rx0.streams[sid].life)
    && (sid in rx.streams && sid !in rx0.streams ==> rx.streams[sid].life == Open)
    && (sid in rx.streams && rx.streams[sid].life == Open ==>
          && rx.streams[sid].delivered == Accepted(tx, sid)
          && (sid in tx.streams && tx.streams[sid].finSent && !tx.queue.closed ==>
                MuxProtocol.ReadResult(rx, sid, 1) == MuxSession.Eof))
  }

  lemma ReadOutDelivers(w: Pipe, rx0: End, rx1: End, rx: End, tx0: End, tx1: End, sid: u32)
    requires DirInv(tx1, w, rx1) && Empty(tx1, w, rx1) && ReadOut(rx1, rx, rx1.streams.Keys)
    requires SameRecords(rx0, rx1) && SameRecords(tx0, tx1)
    requires sid in tx0.streams ==> sid in tx1.streams
    ensures Delivered(tx0, rx0, rx, sid)
  {
    NothingUnderWay(tx1, w, rx1, sid);
    assert Accepted(tx1, sid) == Accepted(tx0, sid);
  }

  lemma ReadBoth(s: System) returns (ts: seq<Turn>)
    requires Inv(s)
    ensures AllPump(ts)
    ensures var t := Run(s, ts);
            && Inv(t) && t.ab == s.ab && t.ba == s.ba
            && ReadOut(s.a, t.a, s.a.streams.Keys) && ReadOut(s.b, t.b, s.b.streams.Keys)
  {
    hide Inv, Run, ReadOut;
    ts := ReadKeys(s, s.a.streams.Keys);
    var s1 := Run(s, ts);
    SwapKeeps(s1);
    var back := ReadKeys(Swap(s1), s1.b.streams.Keys);
    var s2 := Run(Swap(s1), back);
    RunMirror(Swap(s1), back);
    SwapKeeps(s2);
    assert Swap(Swap(s1)) == s1;
    RunAppend(s, ts, Mirror(back));
    ts := ts + Mirror(back);
  }

  /** From every reachable state there is a continuation of writer, transport and reader turns and reads alone after
      which nothing is queued or in flight in either direction, every stream still open at its receiver has delivered
      exactly the bytes its sender had accepted, and reads report end of file where the sender has finished. */
  lemma EverythingIsDelivered(frameSizeA: nat, frameSizeB: nat, turns: seq<Turn>) returns (more: seq<Turn>)
    requires 1 <= frameSizeA <= MAX_FRAME_DATA && 1 <= frameSizeB <= MAX_FRAME_DATA
    ensures AllPump(more)
    ensures var s := Run(Init(frameSizeA, frameSizeB), turns);
            var t := Run(s, more);
            && Empty(t.a, t.ab, t.b) && Empty(t.b, t.ba, t.a)
            && forall sid: u32 :: Delivered(s.a, s.b, t.b, sid) && Delivered(s.b, s.a, t.a, sid)
  {
    hide Run, SameRecords, ReadOut, Inv, Delivered;
    var s := Run(Init(frameSizeA, frameSizeB), turns);
    InitHolds(frameSizeA, frameSizeB);
    RunKeeps(Init(frameSizeA, frameSizeB), turns);
    more := EmptyBothWays(s);
    var s1 := Run(s, more);
    var reads' := ReadBoth(s1);
    var t := Run(s1, reads');
    RunAppend(s, more, reads');
    more := more + reads';
    StaysEmpty(s1, t);
    forall sid: u32 ensures Delivered(s.a, s.b, t.b, sid) && Delivered(s.b, s.a, t.a, sid) {
      KeepsStreams(s.a, s1.a, sid);
      KeepsStreams(s.b, s1.b, sid);
      InvDirs(s1);
      ReadOutDelivers(s1.ab, s.b, s1.b, t.b, s.a, s1.a, sid);
      ReadOutDelivers(s1.ba, s.a, s1.a, t.a, s.b, s1.b, sid);
    }
  }

  lemma InvDirs(s: System)
    requires Inv(s)
    ensures DirInv(s.a, s.ab, s.b) && DirInv(s.b, s.ba, s.a)
  {}

  lemma KeepsStreams(e: End, e': End, sid: u32)
    requires SameRecords(e, e')
    ensures sid in e.streams ==> sid in e'.streams
  {}

  lemma StaysEmpty(s: System, t: System)
    requires Empty(s.a, s.ab, s.b) && Empty(s.b, s.ba, s.a) && t.ab == s.ab && t.ba == s.ba
    requires ReadOut(s.a, t.a, s.a.streams.Keys) && ReadOut(s.b, t.b, s.b.streams.Keys)
    ensures Empty(t.a, t.ab, t.b) && Empty(t.b, t.ba, t.a)
  {}

  // ------------------------------------------------------------------
  // From end to end
  // ------------------------------------------------------------------

  /** A write on an open stream takes up to a frame's worth. */
  lemma WriteTakes(s: System, sid: u32, buf: seq<byte>)
    requires !s.a.queue.closed && sid in s.a.streams && s.a.streams[sid].life == Open && !s.a.streams[sid].finSent
    requires buf != []
    ensures var t := StepA(s, Write(sid, buf));
            var st := s.a.streams[sid];
            && t.a.queue.closed == s.a.queue.closed && t.a.frameSize == s.a.frameSize
            && t.a.streams == s.a.streams[sid := st.(accepted := st.accepted + buf[..Min(|buf|, s.a.frameSize)])]
  {}

  /** Writing again and again until everything is taken. */
  lemma {:induction false} WriteAll(s: System, sid: u32, data: seq<byte>) returns (ts: seq<Turn>)
    requires !s.a.queue.closed && sid in s.a.streams && s.a.streams[sid].life == Open && !s.a.streams[sid].finSent
    requires s.a.frameSize >= 1
    ensures forall i :: 0 <= i < |ts| ==> ts[i].isA && ts[i].act.Write? && ts[i].act.sid == sid
    ensures var t := Run(s, ts);
            && !t.a.queue.closed && sid in t.a.streams && t.a.streams[sid].life == Open && !t.a.streams[sid].finSent
            && t.a.streams[sid].accepted == s.a.streams[sid].accepted + data
    decreases |data|
  {
    hide StepA, Run;
    if data == [] {
      ts := [];
      RunNone(s);
      assert s.a.streams[sid].accepted + [] == s.a.streams[sid].accepted;
    } else {
      var n := Min(|data|, s.a.frameSize);
      var turn := Turn(true, Write(sid, data));
      WriteTakes(s, sid, data);
      var more := WriteAll(Step(s, turn), sid, data[n..]);
      RunOne(s, turn);
      RunAppend(s, [turn], more);
      ConcatAssoc(s.a.streams[sid].accepted, data[..n], data[n..]);
      assert data[..n] + data[n..] == data;
      ts := [turn] + more;
    }
  }

  lemma OpenFirst(frameSizeA: nat, frameSizeB: nat)
    ensures var t := Step(Init(frameSizeA, frameSizeB), Turn(true, OpenStream));
            t.a.streams == map[3 := NEW_STREAM] && !t.a.queue.closed && t.a.frameSize == frameSizeA
  {}

  lemma ShutdownFinishes(s: System, sid: u32)
    requires sid in s.a.streams && s.a.streams[sid].life == Open
    ensures var t := StepA(s, Shutdown(sid));
            sid in t.a.streams && t.a.streams[sid].finSent && t.a.streams[sid].accepted == s.a.streams[sid].accepted
            && t.a.queue.closed == s.a.queue.closed
  {}

  /** The whole way: whatever the client writes on a stream it has opened, and then finishes, can be run through to the
      server, which then has delivered exactly those bytes and reports end of file. */
  lemma EndToEnd(frameSizeA: nat, frameSizeB: nat, data: seq<byte>) returns (turns: seq<Turn>)
    requires 1 <= frameSizeA <= MAX_FRAME_DATA && 1 <= frameSizeB <= MAX_FRAME_DATA
    ensures var t := Run(Init(frameSizeA, frameSizeB), turns);
            && 3 in t.b.streams && t.b.streams[3].delivered == data
            && MuxProtocol.ReadResult(t.b, 3, 1) == MuxSession.Eof
  {
    hide Run, StepA, Inv;
    var s0 := Init(frameSizeA, frameSizeB);
    var open := Turn(true, OpenStream);
    var s1 := Step(s0, open);
    OpenFirst(frameSizeA, frameSizeB);
    RunOne(s0, open);
    var writes := WriteAll(s1, 3, data);
    var s2 := Run(s1, writes);
    var fin := Turn(true, Shutdown(3));
    ShutdownFinishes(s2, 3);
    RunOne(s2, fin);
    RunAppend(s1, writes, [fin]);
    RunAppend(s0, [open], writes + [fin]);
    var talk := [open] + (writes + [fin]);
    var more := EverythingIsDelivered(frameSizeA, frameSizeB, talk);
    RunAppend(s0, talk, more);
    turns := talk + more;
    ghost var s := Run(s0, talk);
    assert Delivered(s.a, s.b, Run(s, more).b, 3);
    assert s.a.streams[3].accepted == [] + data == data;
    ServerHadNothing(s0, talk);
  }

  /** Turns of one end's application leave the other end as it was. */
  lemma {:induction false} ServerHadNothing(s: System, ts: seq<Turn>)
    requires forall i :: 0 <= i < |ts| ==> ts[i].isA && (ts[i].act.OpenStream? || ts[i].act.Write? || ts[i].act.Shutdown?)
    ensures Run(s, ts).b == s.b
    decreases |ts|
  {
    if ts != [] { ServerHadNothing(Step(s, ts[0]), ts[1..]); }
  }

  // ------------------------------------------------------------------
  // Endings and keepalives
  // ------------------------------------------------------------------

  /** A dropped handle is finished and its unread bytes are gone; nothing can be read or written on it any more, and no
      other stream is touched. */
  lemma DropLetsGo(s: System, sid: u32, buf: seq<byte>, cap: nat)
    requires sid in s.a.streams && s.a.streams[sid].life != Dropped
    ensures var t := StepA(s, DropHandle(sid));
            && sid in t.a.streams
            && t.a.streams[sid] == s.a.streams[sid].(life := Dropped, unread := [], finSent := true)
            && (forall k :: k in s.a.streams && k != sid ==> k in t.a.streams && t.a.streams[k] == s.a.streams[k])
            && StepA(t, Write(sid, buf)) == t && StepA(t, Read(sid, cap)) == t && StepA(t, Shutdown(sid)) == t
            && t.b == s.b && t.ab == s.ab && t.ba == s.ba
  {}

  /** A session that fails closes its queue and orphans every open stream: what was received can still be read, nothing
      more is accepted or queued, and no new stream is opened. */
  lemma FailEndsTheSession(s: System, sid: u32, buf: seq<byte>)
    ensures var t := StepA(s, Fail);
            && t.a.queue == s.a.queue.(closed := true) && t.a.streams.Keys == s.a.streams.Keys
            && (sid in s.a.streams ==>
                  && t.a.streams[sid].life != Open
                  && t.a.streams[sid] == s.a.streams[sid].(life := t.a.streams[sid].life))
            && StepA(t, Write(sid, buf)) == t && StepA(t, OpenStream) == t && StepA(t, Ping) == t
            && StepA(t, Shutdown(sid)).a.queue == t.a.queue
            && t.b == s.b && t.ab == s.ab && t.ba == s.ba
  {}

  /** A keepalive goes out ahead of every data frame that was queued before it. */
  lemma KeepaliveOvertakes(s: System)
    requires Inv(s) && !s.a.queue.closed && s.a.out == []
    ensures var nop := Frame(VERSION, CMD_NOP, 0, []);
            var t := StepA(StepA(s, Ping), TakeFrames);
            t.ab.flight == s.ab.flight + (s.a.queue.ctrl + [nop] + s.a.queue.data) && t.a.queue.ctrl == [] && t.a.queue.data == []
  {
    hide Inv, EncodeAll, AllFit;
    StepAKeeps(s, Ping);
    var s1 := StepA(s, Ping);
    InvFits(s1);
    assert s1.a.queue.ctrl == s.a.queue.ctrl + [Frame(VERSION, CMD_NOP, 0, [])];
  }
}
