/** Two session ends joined by two byte pipes, run under every interleaving of their calls, batches and reads. */
module MuxProtocol {
  import opened Bytes
  import opened MuxCodec
  import opened MuxQueue
  import MuxSession

  const VERSION: byte := 1

  /** A handle is open, or its session has died under it, or it has been dropped. */
  datatype Life = Open | Orphan | Dropped

  /** A stream as one end sees it. `accepted` and `delivered` record what its calls have taken and handed over. */
  datatype Stream = Stream(
    unread: seq<byte>, fin: bool, life: Life, finSent: bool,
    accepted: seq<byte>, delivered: seq<byte>)

  const NEW_STREAM := Stream([], false, Open, false, [], [])

  /** One end: its queue, every stream it has ever had, and the writer's and the reader's partial progress. */
  datatype End = End(
    queue: Queue,
    streams: map<u32, Stream>,
    ids: MuxSession.IdState,
    frameSize: nat,
    out: seq<byte>,        // bytes of the current batch the transport has not yet taken
    acc: seq<byte>)        // bytes of the current frame read_exact has collected

  /** One direction of the transport. `flight` records which frames its bytes, with out and acc, stand for. */
  datatype Pipe = Pipe(bytes: seq<byte>, flight: seq<Frame>)

  datatype System = System(a: End, b: End, ab: Pipe, ba: Pipe)

  function Swap(s: System): System { System(s.b, s.a, s.ba, s.ab) }

  function NewEnd(isClient: bool, frameSize: nat): End {
    End(EMPTY, map[], MuxSession.FirstIds(isClient), frameSize, [], [])
  }

  function Init(frameSizeA: nat, frameSizeB: nat): System {
    System(NewEnd(true, frameSizeA), NewEnd(false, frameSizeB), Pipe([], []), Pipe([], []))
  }

  // ------------------------------------------------------------------
  // Steps of one end
  // ------------------------------------------------------------------

  datatype Action =
    | OpenStream
    | Write(sid: u32, buf: seq<byte>)
    | Shutdown(sid: u32)
    | DropHandle(sid: u32)
    | Read(sid: u32, cap: nat)
    | Ping
    | TakeFrames             // the writer takes and encodes a batch
    | Put(n: nat)            // the transport accepts n bytes of it
    | Get(n: nat)            // the reader obtains n bytes
    | Process                // the reader handles a complete frame
    | Fail                   // the session dies

  function Ctl(cmd: byte, sid: u32): Frame { Frame(VERSION, cmd, sid, []) }

  function WithStream(e: End, sid: u32, st: Stream): End { e.(streams := e.streams[sid := st]) }

  function FinishSending(e: End, sid: u32): End
    requires sid in e.streams
  {
    var st := e.streams[sid];
    if st.finSent then e
    else WithStream(e, sid, st.(finSent := true)).(queue := PushData(e.queue, Ctl(CMD_FIN, sid)))
  }

  /** What the reader does to the stream table with one frame. */
  function Receive(e: End, f: Frame): End {
    var known := f.sid in e.streams && e.streams[f.sid].life == Open;
    if f.cmd == CMD_SYN && !known then WithStream(e, f.sid, NEW_STREAM)
    else if f.cmd == CMD_FIN && known then WithStream(e, f.sid, e.streams[f.sid].(fin := true))
    else if f.cmd == CMD_PSH && known then
      WithStream(e, f.sid, e.streams[f.sid].(unread := e.streams[f.sid].unread + f.data))
    else e
  }

  /** How many more bytes read_exact will ask for before the frame in `acc` is complete. */
  function Wanted(acc: seq<byte>): nat {
    if |acc| < HEADER_SIZE then HEADER_SIZE - |acc|
    else
      var h := DecodeHeader(acc[..HEADER_SIZE]);
      Max(0, HEADER_SIZE + (if h.cmd == CMD_PSH then h.length else 0) - |acc|)
  }

  function OrphanAll(m: map<u32, Stream>): map<u32, Stream> {
    map sid | sid in m :: m[sid].(life := if m[sid].life == Open then Orphan else m[sid].life)
  }

  function FailEnd(e: End): End { e.(queue := e.queue.(closed := true), streams := OrphanAll(e.streams)) }

  function ProcessA(s: System): System {
    match ReadOne(VERSION, s.a.acc)
    case Starved => s
    case Fatal => s.(a := FailEnd(s.a))
    case Event(f, n) =>
      s.(a := Receive(s.a.(acc := s.a.acc[n..]), f),
         ba := s.ba.(flight := if s.ba.flight == [] then [] else s.ba.flight[1..]))
  }

  function StepA(s: System, act: Action): System {
    var e := s.a;
    match act
    case OpenStream =>
      if e.queue.closed then s
      else
        var (ids, r) := MuxSession.NextId(e.ids);
        if r.None? then s.(a := e.(ids := ids))
        else s.(a := WithStream(e, r.value, NEW_STREAM).(ids := ids, queue := PushData(e.queue, Ctl(CMD_SYN, r.value))))
    case Write(sid, buf) =>
      if sid !in e.streams || e.streams[sid].life != Open || e.streams[sid].finSent || buf == [] || e.queue.closed then s
      else
        var chunk := buf[..Min(|buf|, e.frameSize)];
        var st := e.streams[sid];
        s.(a := WithStream(e, sid, st.(accepted := st.accepted + chunk))
                .(queue := PushData(e.queue, Frame(VERSION, CMD_PSH, sid, chunk))))
    case Shutdown(sid) =>
      if sid !in e.streams || e.streams[sid].life == Dropped then s else s.(a := FinishSending(e, sid))
    case DropHandle(sid) =>
      if sid !in e.streams || e.streams[sid].life == Dropped then s
      else
        var e' := FinishSending(e, sid);
        s.(a := WithStream(e', sid, e'.streams[sid].(life := Dropped, unread := [])))
    case Read(sid, cap) =>
      if sid !in e.streams || e.streams[sid].life == Dropped then s
      else
        var st := e.streams[sid];
        var k := Min(cap, |st.unread|);
        s.(a := WithStream(e, sid, st.(unread := st.unread[k..], delivered := st.delivered + st.unread[..k])))
    case Ping => s.(a := e.(queue := PushCtrl(e.queue, Ctl(CMD_NOP, 0))))
    case TakeFrames =>
      var batch := e.queue.ctrl + e.queue.data;
      if e.out != [] || batch == [] || !AllFit(batch) then s
      else s.(a := e.(queue := TakeBatch(e.queue), out := EncodeAll(batch)), ab := s.ab.(flight := s.ab.flight + batch))
    case Put(n) =>
      if n > |e.out| then s
      else s.(a := e.(out := e.out[n..]), ab := s.ab.(bytes := s.ab.bytes + e.out[..n]))
    case Get(n) =>
      if n > |s.ba.bytes| || n > Wanted(e.acc) then s
      else s.(a := e.(acc := e.acc + s.ba.bytes[..n]), ba := s.ba.(bytes := s.ba.bytes[n..]))
    case Process => ProcessA(s)
    case Fail => s.(a := FailEnd(e))
  }

  datatype Turn = Turn(isA: bool, act: Action)

  function Step(s: System, t: Turn): System {
    if t.isA then StepA(s, t.act) else Swap(StepA(Swap(s), t.act))
  }

  function Run(s: System, turns: seq<Turn>): System
    decreases |turns|
  {
    if turns == [] then s else Run(Step(s, turns[0]), turns[1..])
  }

  // ------------------------------------------------------------------
  // What the frames in the pipe will do to the receiver
  // ------------------------------------------------------------------

  /** The receiving end's view of one id; `Broken` is what a frame out of protocol order would cause. */
  datatype Rx = Absent | Live(total: seq<byte>, fin: bool) | Gone | Broken

  function RxOf(e: End, sid: u32): Rx {
    if sid !in e.streams then Absent
    else if e.streams[sid].life == Open then Live(e.streams[sid].delivered + e.streams[sid].unread, e.streams[sid].fin)
    else Gone
  }

  function Feed(r: Rx, f: Frame, sid: u32): Rx {
    if f.sid != sid || f.cmd == CMD_NOP then r
    else if f.cmd == CMD_SYN then (if r == Absent then Live([], false) else Broken)
    else if r == Gone then Gone
    else if !r.Live? || r.fin then Broken
    else if f.cmd == CMD_PSH then Live(r.total + f.data, false)
    else Live(r.total, true)
  }

  function FeedAll(r: Rx, fs: seq<Frame>, sid: u32): Rx
    decreases |fs|
  {
    if fs == [] then r else FeedAll(Feed(r, fs[0], sid), fs[1..], sid)
  }

  lemma {:induction false} FeedAppend(r: Rx, a: seq<Frame>, b: seq<Frame>, sid: u32)
    ensures FeedAll(r, a + b, sid) == FeedAll(FeedAll(r, a, sid), b, sid)
    decreases |a|
  {
    if a == [] {
      assert a + b == b;
    } else {
      FeedAppend(Feed(r, a[0], sid), a[1..], b, sid);
      assert (a + b)[1..] == a[1..] + b;
    }
  }

  /** None of these frames concerns the id. */
  predicate Silent(fs: seq<Frame>, sid: u32) {
    forall i :: 0 <= i < |fs| ==> fs[i].sid != sid || fs[i].cmd == CMD_NOP
  }

  lemma SilentAppend(a: seq<Frame>, b: seq<Frame>, sid: u32)
    ensures Silent(a + b, sid) <==> Silent(a, sid) && Silent(b, sid)
  {
    if Silent(a + b, sid) {
      assert forall i :: 0 <= i < |a| ==> (a + b)[i] == a[i];
      assert forall i :: 0 <= i < |b| ==> (a + b)[|a| + i] == b[i];
    }
  }

  lemma {:induction false} FeedSilent(r: Rx, fs: seq<Frame>, sid: u32)
    requires Silent(fs, sid)
    ensures FeedAll(r, fs, sid) == r
    decreases |fs|
  {
    if fs != [] { FeedSilent(r, fs[1..], sid); }
  }

  lemma {:induction false} FeedBroken(fs: seq<Frame>, sid: u32)
    ensures FeedAll(Broken, fs, sid) == Broken
    decreases |fs|
  {
    if fs != [] { FeedBroken(fs[1..], sid); }
  }

  /** Frames that suit a live receiver also suit one that has dropped the stream. */
  lemma {:induction false} FeedGone(r: Rx, fs: seq<Frame>, sid: u32)
    requires r.Live? || r == Gone
    requires FeedAll(r, fs, sid) != Broken
    ensures FeedAll(Gone, fs, sid) == Gone
    ensures r == Gone ==> FeedAll(r, fs, sid) == Gone
    ensures r.Live? ==> FeedAll(r, fs, sid).Live?
    decreases |fs|
  {
    if fs != [] {
      if Feed(r, fs[0], sid) == Broken { FeedBroken(fs[1..], sid); }
      FeedGone(Feed(r, fs[0], sid), fs[1..], sid);
    }
  }

  /** The payload addressed to one id, in order. */
  function PayloadFor(fs: seq<Frame>, sid: u32): seq<byte>
    decreases |fs|
  {
    if fs == [] then []
    else (if fs[0].sid == sid && fs[0].cmd == CMD_PSH then fs[0].data else []) + PayloadFor(fs[1..], sid)
  }

  /** A live receiver ends with what it has plus the payload still to come; after FIN there is none. */
  lemma {:induction false} FeedPayload(r: Rx, fs: seq<Frame>, sid: u32)
    requires FeedAll(r, fs, sid).Live?
    ensures r.Live? || r == Absent
    ensures FeedAll(r, fs, sid).total == (if r.Live? then r.total else []) + PayloadFor(fs, sid)
    ensures r.Live? && r.fin ==> FeedAll(r, fs, sid) == r
    decreases |fs|
  {
    if fs != [] {
      var r' := Feed(r, fs[0], sid);
      if r' == Broken { FeedBroken(fs[1..], sid); }
      FeedPayload(r', fs[1..], sid);
    }
  }

  // ------------------------------------------------------------------
  // The invariant of one direction
  // ------------------------------------------------------------------

  function InFlight(tx: End, w: Pipe): seq<Frame> { w.flight + tx.queue.data }

  predicate OwnFrames(fs: seq<Frame>) {
    AllSendable(fs) && forall i :: 0 <= i < |fs| ==> fs[i].version == VERSION && fs[i].cmd != CMD_UPD
  }

  predicate AllNops(fs: seq<Frame>) { forall i :: 0 <= i < |fs| ==> fs[i].cmd == CMD_NOP }

  function Accepted(tx: End, sid: u32): seq<byte> {
    if sid in tx.streams then tx.streams[sid].accepted else []
  }

  /** After everything in flight has arrived, the receiver holds exactly what the sender accepted. */
  predicate SidInv(tx: End, w: Pipe, rx: End, sid: u32) {
    var fs := InFlight(tx, w);
    var now := RxOf(rx, sid);
    if sid in tx.streams then
      var end := FeedAll(now, fs, sid);
      || end == Gone
      || (&& end.Live?
          && end.total == tx.streams[sid].accepted
          && (end.fin ==> tx.streams[sid].finSent)
          && (!tx.queue.closed ==> end.fin == tx.streams[sid].finSent))
    else Silent(fs, sid) && (now == Absent || now == Live([], false) || now == Gone)
  }

  /** What has been received is a prefix of what was accepted, and all of it once FIN has been seen. */
  predicate GotInv(tx: End, rx: End, sid: u32) {
    sid in rx.streams ==>
      var st := rx.streams[sid];
      && st.delivered + st.unread <= Accepted(tx, sid)
      && (st.fin && st.life != Dropped ==>
            && sid in tx.streams
            && tx.streams[sid].finSent
            && st.delivered + st.unread == tx.streams[sid].accepted)
  }

  predicate WireInv(tx: End, w: Pipe, rx: End) {
    && OwnFrames(w.flight) && OwnFrames(tx.queue.data) && OwnFrames(tx.queue.ctrl) && AllNops(tx.queue.ctrl)
    && rx.acc + w.bytes + tx.out == EncodeAll(w.flight)
    && |rx.acc| <= HEADER_SIZE + MAX_FRAME_DATA
    && 1 <= tx.frameSize <= MAX_FRAME_DATA
  }

  ghost predicate DirInv(tx: End, w: Pipe, rx: End) {
    && WireInv(tx, w, rx)
    && (forall sid: u32 :: SidInv(tx, w, rx, sid))
    && (forall sid: u32 :: GotInv(tx, rx, sid))
  }

  /** Ids of an end's own parity never exceed its counter while it still allocates. */
  predicate IdsInv(x: End, y: End) {
    && x.ids.last % 2 != y.ids.last % 2
    && (!x.ids.goAway ==>
          && (forall sid :: sid in x.streams && sid % 2 == x.ids.last % 2 ==> sid <= x.ids.last)
          && (forall sid :: sid in y.streams && sid % 2 == x.ids.last % 2 ==> sid <= x.ids.last))
  }

  ghost predicate Inv(s: System) {
    && DirInv(s.a, s.ab, s.b)
    && DirInv(s.b, s.ba, s.a)
    && IdsInv(s.a, s.b)
    && IdsInv(s.b, s.a)
  }

  // ------------------------------------------------------------------
  // The sending end changes
  // ------------------------------------------------------------------

  predicate SameSender(x: End, y: End, sid: u32) {
    && (sid in x.streams <==> sid in y.streams)
    && (sid in x.streams ==>
          x.streams[sid].accepted == y.streams[sid].accepted && x.streams[sid].finSent == y.streams[sid].finSent)
  }

  /** How pushing `f` may change its own stream's record. */
  predicate PushFits(tx: End, tx': End, rx: End, f: Frame) {
    && f.sid in tx'.streams
    && var st' := tx'.streams[f.sid];
       if f.cmd == CMD_SYN then f.sid !in tx.streams && f.sid !in rx.streams && st'.accepted == [] && !st'.finSent
       else
         && f.sid in tx.streams
         && var st := tx.streams[f.sid];
            && !st.finSent
            && if f.cmd == CMD_PSH then st'.accepted == st.accepted + f.data && !st'.finSent
               else f.cmd == CMD_FIN && st'.accepted == st.accepted && st'.finSent
  }

  lemma PushKeeps(tx: End, tx': End, w: Pipe, rx: End, f: Frame)
    requires DirInv(tx, w, rx) && !tx.queue.closed
    requires tx'.queue == PushData(tx.queue, f) && tx'.out == tx.out && tx'.frameSize == tx.frameSize
    requires OwnFrames([f]) && PushFits(tx, tx', rx, f)
    requires forall sid: u32 :: sid != f.sid ==> SameSender(tx, tx', sid)
    ensures DirInv(tx', w, rx)
  {
    assert OwnFrames(tx'.queue.data);
    forall sid: u32 ensures SidInv(tx', w, rx, sid) && GotInv(tx', rx, sid) {
      assert SidInv(tx, w, rx, sid) && GotInv(tx, rx, sid);
      var fs := InFlight(tx, w);
      assert InFlight(tx', w) == fs + [f];
      FeedAppend(RxOf(rx, sid), fs, [f], sid);
      assert FeedAll(FeedAll(RxOf(rx, sid), fs, sid), [f], sid) == Feed(FeedAll(RxOf(rx, sid), fs, sid), f, sid);
      if sid == f.sid {
        if f.cmd == CMD_SYN { FeedSilent(Absent, fs, sid); }
      } else {
        assert SameSender(tx, tx', sid);
      }
    }
  }

  /** Nothing the receiver can observe has changed at the sender. */
  lemma SenderQuiet(tx: End, tx': End, w: Pipe, rx: End)
    requires DirInv(tx, w, rx)
    requires tx'.queue.data == tx.queue.data && tx'.queue.closed == tx.queue.closed
    requires OwnFrames(tx'.queue.ctrl) && AllNops(tx'.queue.ctrl)
    requires tx'.out == tx.out && tx'.frameSize == tx.frameSize
    requires forall sid: u32 :: SameSender(tx, tx', sid)
    ensures DirInv(tx', w, rx)
  {
    forall sid: u32 ensures SidInv(tx', w, rx, sid) && GotInv(tx', rx, sid) {
      assert SidInv(tx, w, rx, sid) && GotInv(tx, rx, sid) && SameSender(tx, tx', sid);
    }
  }

  /** The sender's session has died: its records can only freeze. */
  lemma SenderClosed(tx: End, tx': End, w: Pipe, rx: End)
    requires DirInv(tx, w, rx)
    requires tx'.queue == tx.queue.(closed := true)
    requires tx'.out == tx.out && tx'.frameSize == tx.frameSize
    requires forall sid: u32 :: sid in tx.streams <==> sid in tx'.streams
    requires forall sid: u32 :: sid in tx.streams ==>
               && tx'.streams[sid].accepted == tx.streams[sid].accepted
               && (tx.streams[sid].finSent ==> tx'.streams[sid].finSent)
    ensures DirInv(tx', w, rx)
  {
    forall sid: u32 ensures SidInv(tx', w, rx, sid) && GotInv(tx', rx, sid) {
      assert SidInv(tx, w, rx, sid) && GotInv(tx, rx, sid);
    }
  }

  /** The sender learns of a stream the receiver opened. */
  lemma SenderGains(tx: End, w: Pipe, rx: End, sid0: u32)
    requires DirInv(tx, w, rx)
    requires sid0 !in tx.streams && sid0 in rx.streams
    ensures DirInv(WithStream(tx, sid0, NEW_STREAM), w, rx)
  {
    var tx' := WithStream(tx, sid0, NEW_STREAM);
    forall sid: u32 ensures SidInv(tx', w, rx, sid) && GotInv(tx', rx, sid) {
      assert SidInv(tx, w, rx, sid) && GotInv(tx, rx, sid);
      if sid == sid0 { FeedSilent(RxOf(rx, sid), InFlight(tx, w), sid); }
    }
  }

  lemma TakeKeeps(tx: End, w: Pipe, rx: End)
    requires DirInv(tx, w, rx) && tx.out == []
    ensures var batch := tx.queue.ctrl + tx.queue.data;
            && AllSendable(batch)
            && DirInv(tx.(queue := TakeBatch(tx.queue), out := EncodeAll(batch)),
                      w.(flight := w.flight + batch), rx)
  {
    hide EncodeAll, FeedAll;
    var ctrl, data := tx.queue.ctrl, tx.queue.data;
    var tx' := tx.(queue := TakeBatch(tx.queue), out := EncodeAll(ctrl + data));
    var w' := w.(flight := w.flight + (ctrl + data));
    EncodeAllAppend(w.flight, ctrl + data);
    assert rx.acc + w.bytes + tx.out == rx.acc + w.bytes;
    forall sid: u32 ensures SidInv(tx', w', rx, sid) && GotInv(tx', rx, sid) {
      assert SidInv(tx, w, rx, sid) && GotInv(tx, rx, sid);
      var r := RxOf(rx, sid);
      assert InFlight(tx', w') == w.flight + ctrl + data;
      FeedAppend(r, w.flight + ctrl, data, sid);
      FeedAppend(r, w.flight, ctrl, sid);
      FeedAppend(r, w.flight, data, sid);
      FeedSilent(FeedAll(r, w.flight, sid), ctrl, sid);
      SilentAppend(w.flight, data, sid);
      SilentAppend(w.flight, ctrl, sid);
      SilentAppend(w.flight + ctrl, data, sid);
    }
  }

  lemma PutKeeps(tx: End, w: Pipe, rx: End, n: nat)
    requires DirInv(tx, w, rx) && n <= |tx.out|
    ensures DirInv(tx.(out := tx.out[n..]), w.(bytes := w.bytes + tx.out[..n]), rx)
  {
    var tx', w' := tx.(out := tx.out[n..]), w.(bytes := w.bytes + tx.out[..n]);
    assert rx.acc + w'.bytes + tx'.out == rx.acc + w.bytes + tx.out;
    forall sid: u32 ensures SidInv(tx', w', rx, sid) && GotInv(tx', rx, sid) {
      assert SidInv(tx, w, rx, sid) && GotInv(tx, rx, sid);
    }
  }

  // ------------------------------------------------------------------
  // The receiving end changes
  // ------------------------------------------------------------------

  /** A stream's receive side is as before, or the handle has gone. */
  predicate ReceiverFades(x: End, y: End, sid: u32) {
    && (sid in x.streams <==> sid in y.streams)
    && (sid in x.streams ==>
          var o, n := x.streams[sid], y.streams[sid];
          && n.fin == o.fin
          && (n.life == o.life || (o.life == Open && n.life == Orphan) || n.life == Dropped)
          && (n.delivered + n.unread == o.delivered + o.unread
              || (n.life == Dropped && n.delivered + n.unread <= o.delivered + o.unread)))
  }

  lemma ReceiverFadesKeeps(tx: End, w: Pipe, rx: End, rx': End)
    requires DirInv(tx, w, rx) && rx'.acc == rx.acc
    requires forall sid: u32 :: ReceiverFades(rx, rx', sid)
    ensures DirInv(tx, w, rx')
  {
    forall sid: u32 ensures SidInv(tx, w, rx', sid) && GotInv(tx, rx', sid) {
      assert SidInv(tx, w, rx, sid) && GotInv(tx, rx, sid) && ReceiverFades(rx, rx', sid);
      var r, fs := RxOf(rx, sid), InFlight(tx, w);
      if sid in tx.streams && r != Absent { FeedGone(r, fs, sid); }
    }
  }

  lemma ReceiverOpens(tx: End, w: Pipe, rx: End, sid0: u32)
    requires DirInv(tx, w, rx)
    requires sid0 !in tx.streams && sid0 !in rx.streams
    ensures DirInv(tx, w, WithStream(rx, sid0, NEW_STREAM))
  {
    var rx' := WithStream(rx, sid0, NEW_STREAM);
    forall sid: u32 ensures SidInv(tx, w, rx', sid) && GotInv(tx, rx', sid) {
      assert SidInv(tx, w, rx, sid) && GotInv(tx, rx, sid);
    }
  }

  lemma GetKeeps(tx: End, w: Pipe, rx: End, n: nat)
    requires DirInv(tx, w, rx) && n <= |w.bytes| && n <= Wanted(rx.acc)
    ensures DirInv(tx, w.(bytes := w.bytes[n..]), rx.(acc := rx.acc + w.bytes[..n]))
  {
    var rx', w' := rx.(acc := rx.acc + w.bytes[..n]), w.(bytes := w.bytes[n..]);
    assert rx'.acc + w'.bytes + tx.out == rx.acc + w.bytes + tx.out;
    forall sid: u32 ensures SidInv(tx, w', rx', sid) && GotInv(tx, rx', sid) {
      assert SidInv(tx, w, rx, sid) && GotInv(tx, rx, sid);
    }
  }

  /** The reader never meets a fatal frame, and a complete one is the first frame in flight. */
  lemma FrontFrame(tx: End, w: Pipe, rx: End)
    requires WireInv(tx, w, rx)
    ensures var r := ReadOne(VERSION, rx.acc);
            !r.Fatal? && (r.Event? ==> w.flight != [] && r == Event(w.flight[0], r.consumed))
    ensures var r := ReadOne(VERSION, rx.acc);
            r.Event? ==> WireInv(tx, w.(flight := w.flight[1..]), rx.(acc := rx.acc[r.consumed..]))
  {
    hide DecodeHeader, EncodeHeader;
    var acc, future, fs := rx.acc, w.bytes + tx.out, w.flight;
    assert rx.acc + w.bytes + tx.out == acc + future;
    if |acc| >= HEADER_SIZE {
      assert fs != [];
      assert [fs[0]][0] == fs[0] && OwnFrames([fs[0]]);
      FrontRead(acc, future, fs[0], EncodeAll(fs[1..]));
      var r := ReadOne(VERSION, acc);
      if r.Event? {
        assert acc[r.consumed..] + w.bytes + tx.out == acc[r.consumed..] + future;
      }
    }
  }

  /** Reading off a buffer that, with what is to come, starts with an encoded frame. */
  lemma FrontRead(acc: seq<byte>, future: seq<byte>, f: Frame, rest: seq<byte>)
    requires acc + future == Encoded(f) + rest && OwnFrames([f]) && |acc| >= HEADER_SIZE
    ensures var r := ReadOne(VERSION, acc);
            !r.Fatal? && (r.Event? ==> r == Event(f, |Encoded(f)|) && |Encoded(f)| <= |acc|
                                       && acc[|Encoded(f)|..] + future == rest)
  {
    hide DecodeHeader, EncodeHeader;
    var e := Encoded(f);
    assert Sendable([f][0]) && [f][0].version == VERSION;
    HeaderRoundTrip(HeaderOf(f), acc[..HEADER_SIZE]);
    assert acc[..HEADER_SIZE] == (acc + future)[..HEADER_SIZE] == (e + rest)[..HEADER_SIZE] == EncodeHeader(HeaderOf(f));
    if |acc| >= |e| {
      assert acc[..|e|] == (acc + future)[..|e|] == (e + rest)[..|e|] == e;
      assert acc[HEADER_SIZE..|e|] == acc[..|e|][HEADER_SIZE..] == f.data;
      assert acc[|e|..] + future == (acc + future)[|e|..] == (e + rest)[|e|..] == rest;
    }
  }

  lemma ProcessKeeps(tx: End, w: Pipe, rx: End)
    requires DirInv(tx, w, rx) && ReadOne(VERSION, rx.acc).Event?
    ensures w.flight != []
    ensures var r := ReadOne(VERSION, rx.acc);
            DirInv(tx, w.(flight := w.flight[1..]), Receive(rx.(acc := rx.acc[r.consumed..]), r.frame))
    ensures var f := ReadOne(VERSION, rx.acc).frame;
            f.cmd == CMD_SYN ==> f.sid !in rx.streams && f.sid in tx.streams
  {
    FrontFrame(tx, w, rx);
    var r := ReadOne(VERSION, rx.acc);
    var f, w' := r.frame, w.(flight := w.flight[1..]);
    var rx' := Receive(rx.(acc := rx.acc[r.consumed..]), f);
    assert InFlight(tx, w)[0] == f && InFlight(tx, w)[1..] == InFlight(tx, w');
    forall sid: u32
      ensures SidInv(tx, w', rx', sid) && GotInv(tx, rx', sid)
      ensures f.cmd == CMD_SYN && f.sid == sid ==> sid !in rx.streams && sid in tx.streams
    {
      assert SidInv(tx, w, rx, sid) && GotInv(tx, rx, sid);
      ReceiveOne(tx, w, w', rx, rx', f, sid);
    }
    assert SidInv(tx, w, rx, f.sid);
  }

  lemma ReceiveOne(tx: End, w: Pipe, w': Pipe, rx: End, rx': End, f: Frame, sid: u32)
    requires SidInv(tx, w, rx, sid) && GotInv(tx, rx, sid)
    requires f.cmd < CMD_UPD
    requires InFlight(tx, w) != [] && InFlight(tx, w)[0] == f && InFlight(tx, w)[1..] == InFlight(tx, w')
    requires rx'.streams == Receive(rx, f).streams
    ensures SidInv(tx, w', rx', sid) && GotInv(tx, rx', sid)
    ensures f.cmd == CMD_SYN && f.sid == sid ==> sid !in rx.streams && sid in tx.streams
  {
    var r, fs, fs' := RxOf(rx, sid), InFlight(tx, w), InFlight(tx, w');
    assert FeedAll(r, fs, sid) == FeedAll(Feed(r, f, sid), fs', sid);
    if sid in tx.streams {
      if Feed(r, f, sid) == Broken { FeedBroken(fs', sid); }
      if f.sid == sid && f.cmd == CMD_PSH && r.Live? {
        assert rx'.streams[sid].delivered + rx'.streams[sid].unread == r.total + f.data;
      }
      assert RxOf(rx', sid) == Feed(r, f, sid);
      if FeedAll(Feed(r, f, sid), fs', sid).Live? { FeedPayload(Feed(r, f, sid), fs', sid); }
      if r.Live? { FeedGone(r, fs, sid); }
    } else {
      assert fs[0].sid != sid || fs[0].cmd == CMD_NOP;
      assert Silent(fs', sid);
    }
  }

  // ------------------------------------------------------------------
  // Every step keeps the invariant
  // ------------------------------------------------------------------

  /** What IdsInv says depends only on the counters and on which ids are known. */
  lemma IdsSame(x: End, x': End, y: End)
    requires IdsInv(x, y) && IdsInv(y, x)
    requires x'.ids == x.ids && x'.streams.Keys == x.streams.Keys
    ensures IdsInv(x', y) && IdsInv(y, x')
  {
    assert forall sid :: sid in x'.streams <==> sid in x'.streams.Keys;
    assert forall sid :: sid in x.streams <==> sid in x.streams.Keys;
  }

  /** A new id is known to neither end, and is of the allocator's own parity. */
  lemma NewIdIsFresh(x: End, y: End)
    requires IdsInv(x, y) && IdsInv(y, x)
    ensures var (ids, r) := MuxSession.NextId(x.ids);
            && (r.None? ==> IdsInv(x.(ids := ids), y) && IdsInv(y, x.(ids := ids)))
            && (r.Some? ==>
                  && r.value !in x.streams && r.value !in y.streams
                  && IdsInv(WithStream(x, r.value, NEW_STREAM).(ids := ids), y)
                  && IdsInv(y, WithStream(x, r.value, NEW_STREAM).(ids := ids)))
  {}

  lemma OpenKeeps(s: System)
    requires Inv(s)
    ensures Inv(StepA(s, OpenStream))
  {
    hide SidInv, GotInv, EncodeAll, IdsInv, MuxSession.NextId;
    var e := s.a;
    var (ids, r) := MuxSession.NextId(e.ids);
    if !e.queue.closed {
      NewIdIsFresh(s.a, s.b);
      var e' := StepA(s, OpenStream).a;
      if r.None? {
        SenderQuiet(e, e', s.ab, s.b);
        ReceiverFadesKeeps(s.b, s.ba, e, e');
      } else {
        var sid := r.value;
        PushKeeps(e, e', s.ab, s.b, Ctl(CMD_SYN, sid));
        ReceiverOpens(s.b, s.ba, e, sid);
        ReceiverFadesKeeps(s.b, s.ba, WithStream(e, sid, NEW_STREAM), e');
        IdsSame(WithStream(e, sid, NEW_STREAM).(ids := ids), e', s.b);
      }
    }
  }

  lemma WriteKeeps(s: System, sid: u32, buf: seq<byte>)
    requires Inv(s)
    ensures Inv(StepA(s, Write(sid, buf)))
  {
    var s' := StepA(s, Write(sid, buf));
    if s' != s {
      PushKeeps(s.a, s'.a, s.ab, s.b, Frame(VERSION, CMD_PSH, sid, buf[..Min(|buf|, s.a.frameSize)]));
      ReceiverFadesKeeps(s.b, s.ba, s.a, s'.a);
    }
  }

  /** Queueing FIN, whatever then becomes of the receive side of that one stream. */
  lemma FinishKeeps(s: System, sid: u32, e': End)
    requires Inv(s) && sid in s.a.streams
    requires var f := FinishSending(s.a, sid);
             && f.(streams := e'.streams) == e'
             && e'.streams.Keys == f.streams.Keys
             && (forall k: u32 :: SameSender(f, e', k))
             && (forall k: u32 :: ReceiverFades(s.a, e', k))
    ensures Inv(s.(a := e'))
  {
    var f := FinishSending(s.a, sid);
    if s.a.streams[sid].finSent {
      SenderQuiet(s.a, e', s.ab, s.b);
    } else if s.a.queue.closed {
      SenderClosed(s.a, f, s.ab, s.b);
      SenderQuiet(f, e', s.ab, s.b);
    } else {
      PushKeeps(s.a, f, s.ab, s.b, Ctl(CMD_FIN, sid));
      SenderQuiet(f, e', s.ab, s.b);
    }
    ReceiverFadesKeeps(s.b, s.ba, s.a, e');
  }

  lemma FailKeeps(s: System)
    requires Inv(s)
    ensures Inv(s.(a := FailEnd(s.a)))
  {
    SenderClosed(s.a, FailEnd(s.a), s.ab, s.b);
    ReceiverFadesKeeps(s.b, s.ba, s.a, FailEnd(s.a));
  }

  /** Receiving only ever adds a stream the peer already has. */
  lemma ReceiveIds(e: End, peer: End, f: Frame)
    requires IdsInv(e, peer) && IdsInv(peer, e)
    requires f.cmd == CMD_SYN ==> f.sid in peer.streams
    ensures IdsInv(Receive(e, f), peer) && IdsInv(peer, Receive(e, f))
  {}

  /** As a sender, an end is changed by a received frame only by learning of a stream. */
  lemma ReceiveAsSender(e: End, w: Pipe, peer: End, f: Frame)
    requires DirInv(e, w, peer)
    requires f.cmd == CMD_SYN ==> f.sid !in e.streams && f.sid in peer.streams
    ensures DirInv(Receive(e, f), w, peer)
  {
    if f.cmd == CMD_SYN {
      SenderGains(e, w, peer, f.sid);
    } else {
      SenderQuiet(e, Receive(e, f), w, peer);
    }
  }

  lemma ProcessStepKeeps(s: System)
    requires Inv(s)
    ensures Inv(ProcessA(s))
  {
    FrontFrame(s.b, s.ba, s.a);
    var r := ReadOne(VERSION, s.a.acc);
    if r.Event? {
      ProcessKeeps(s.b, s.ba, s.a);
      var e := s.a.(acc := s.a.acc[r.consumed..]);
      SenderQuiet(s.a, e, s.ab, s.b);
      ReceiveAsSender(e, s.ab, s.b, r.frame);
      ReceiveIds(e, s.b, r.frame);
    }
  }

  /** Steps that only move bytes between this end's own buffers and its application. */
  lemma ReadPingKeeps(s: System, act: Action)
    requires Inv(s) && (act.Read? || act.Ping?)
    ensures Inv(StepA(s, act))
  {
    hide SidInv, GotInv, EncodeAll;
    var s' := StepA(s, act);
    if s' != s {
      SenderQuiet(s.a, s'.a, s.ab, s.b);
      ReceiverFadesKeeps(s.b, s.ba, s.a, s'.a);
    }
  }

  lemma TakeStepKeeps(s: System)
    requires Inv(s)
    ensures Inv(StepA(s, TakeFrames))
  {
    hide DirInv, IdsInv, EncodeAll, AllFit;
    var s' := StepA(s, TakeFrames);
    if s' != s {
      TakeKeeps(s.a, s.ab, s.b);
      ReceiverFadesKeeps(s.b, s.ba, s.a, s'.a);
      IdsSame(s.a, s'.a, s.b);
    }
  }

  lemma PutStepKeeps(s: System, n: nat)
    requires Inv(s)
    ensures Inv(StepA(s, Put(n)))
  {
    hide DirInv, IdsInv;
    var s' := StepA(s, Put(n));
    if s' != s {
      PutKeeps(s.a, s.ab, s.b, n);
      ReceiverFadesKeeps(s.b, s.ba, s.a, s'.a);
      IdsSame(s.a, s'.a, s.b);
    }
  }

  lemma GetStepKeeps(s: System, n: nat)
    requires Inv(s)
    ensures Inv(StepA(s, Get(n)))
  {
    hide SidInv, GotInv, IdsInv, EncodeAll, Wanted;
    var s' := StepA(s, Get(n));
    if s' != s {
      GetKeeps(s.b, s.ba, s.a, n);
      SenderQuiet(s.a, s'.a, s.ab, s.b);
      IdsSame(s.a, s'.a, s.b);
    }
  }

  lemma FinalStepKeeps(s: System, act: Action)
    requires Inv(s) && (act.Shutdown? || act.DropHandle?)
    ensures Inv(StepA(s, act))
  {
    hide SidInv, GotInv, EncodeAll, IdsInv;
    var s' := StepA(s, act);
    if s' != s { FinishKeeps(s, act.sid, s'.a); }
  }

  lemma StepAKeeps(s: System, act: Action)
    requires Inv(s)
    ensures Inv(StepA(s, act))
  {
    match act
    case OpenStream => OpenKeeps(s);
    case Write(sid, buf) => WriteKeeps(s, sid, buf);
    case Shutdown(_) => FinalStepKeeps(s, act);
    case DropHandle(_) => FinalStepKeeps(s, act);
    case Read(_, _) => ReadPingKeeps(s, act);
    case Ping => ReadPingKeeps(s, act);
    case TakeFrames => TakeStepKeeps(s);
    case Put(n) => PutStepKeeps(s, n);
    case Get(n) => GetStepKeeps(s, n);
    case Process => ProcessStepKeeps(s);
    case Fail => FailKeeps(s);
  }

  lemma {:induction false} RunKeeps(s: System, turns: seq<Turn>)
    requires Inv(s)
    ensures Inv(Run(s, turns))
    decreases |turns|
  {
    if turns != [] {
      if turns[0].isA { StepAKeeps(s, turns[0].act); } else { StepAKeeps(Swap(s), turns[0].act); }
      RunKeeps(Step(s, turns[0]), turns[1..]);
    }
  }

  lemma InitHolds(frameSizeA: nat, frameSizeB: nat)
    requires 1 <= frameSizeA <= MAX_FRAME_DATA && 1 <= frameSizeB <= MAX_FRAME_DATA
    ensures Inv(Init(frameSizeA, frameSizeB))
  {}

  // ------------------------------------------------------------------
  // What it means for the two applications
  // ------------------------------------------------------------------

  /** The two directions of a system. */
  function Sender(s: System, fromA: bool): End { if fromA then s.a else s.b }
  function Receiver(s: System, fromA: bool): End { if fromA then s.b else s.a }
  function Way(s: System, fromA: bool): Pipe { if fromA then s.ab else s.ba }

  function ReadResult(e: End, sid: u32, cap: nat): MuxSession.ReadOutcome
    requires sid in e.streams
  {
    var st := e.streams[sid];
    var k := Min(cap, |st.unread|);
    if cap == 0 || k > 0 then MuxSession.Delivered(st.unread[..k])
    else if st.fin then MuxSession.Eof
    else if st.life == Orphan || e.queue.closed then MuxSession.ReadFailed
    else MuxSession.ReadPending
  }

  /** In every reachable state and in both directions, while the receiver has not let go of a stream the bytes it
      has delivered, holds unread, and still has coming on the wire and in the queue are exactly the bytes the
      writer had accepted, in order. */
  lemma StreamBytesAreConserved(frameSizeA: nat, frameSizeB: nat, turns: seq<Turn>, fromA: bool, sid: u32)
    requires 1 <= frameSizeA <= MAX_FRAME_DATA && 1 <= frameSizeB <= MAX_FRAME_DATA
    ensures var s := Run(Init(frameSizeA, frameSizeB), turns);
            var tx, w, rx := Sender(s, fromA), Way(s, fromA), Receiver(s, fromA);
            && AllSendable(w.flight)
            && rx.acc + w.bytes + tx.out == EncodeAll(w.flight)
            && (sid in rx.streams && rx.streams[sid].life == Open ==>
                  rx.streams[sid].delivered + rx.streams[sid].unread
                  + PayloadFor(w.flight + tx.queue.data, sid) == Accepted(tx, sid))
            && (sid !in rx.streams ==> PayloadFor(w.flight + tx.queue.data, sid) == Accepted(tx, sid))
  {
    InitHolds(frameSizeA, frameSizeB);
    RunKeeps(Init(frameSizeA, frameSizeB), turns);
    var s := Run(Init(frameSizeA, frameSizeB), turns);
    var tx, w, rx := Sender(s, fromA), Way(s, fromA), Receiver(s, fromA);
    assert DirInv(tx, w, rx);
    assert SidInv(tx, w, rx, sid);
    var now, fs := RxOf(rx, sid), InFlight(tx, w);
    if sid in tx.streams {
      if now == Absent { AbsentNotGone(fs, sid); }
      if now.Live? { FeedGone(now, fs, sid); }
      if FeedAll(now, fs, sid).Live? { FeedPayload(now, fs, sid); }
    } else {
      SilentPayload(fs, sid);
    }
  }

  lemma {:induction false} SilentPayload(fs: seq<Frame>, sid: u32)
    requires Silent(fs, sid)
    ensures PayloadFor(fs, sid) == []
    decreases |fs|
  {
    if fs != [] { SilentPayload(fs[1..], sid); }
  }

  lemma {:induction false} AbsentNotGone(fs: seq<Frame>, sid: u32)
    ensures FeedAll(Absent, fs, sid) != Gone
    decreases |fs|
  {
    if fs != [] {
      var r := Feed(Absent, fs[0], sid);
      if r == Absent {
        AbsentNotGone(fs[1..], sid);
      } else if r == Broken {
        FeedBroken(fs[1..], sid);
      } else if FeedAll(r, fs[1..], sid) != Broken {
        FeedGone(r, fs[1..], sid);
      }
    }
  }

  /** Even across a session's death nothing is invented or reordered, and a read reports end of file only when the
      peer has finished and every byte it ever had accepted has been delivered. */
  lemma EofMeansComplete(frameSizeA: nat, frameSizeB: nat, turns: seq<Turn>, fromA: bool, sid: u32, cap: nat)
    requires 1 <= frameSizeA <= MAX_FRAME_DATA && 1 <= frameSizeB <= MAX_FRAME_DATA
    ensures var s := Run(Init(frameSizeA, frameSizeB), turns);
            var tx, rx := Sender(s, fromA), Receiver(s, fromA);
            sid in rx.streams ==>
              && rx.streams[sid].delivered <= Accepted(tx, sid)
              && (rx.streams[sid].life != Dropped && ReadResult(rx, sid, cap) == MuxSession.Eof ==>
                    && sid in tx.streams && tx.streams[sid].finSent
                    && rx.streams[sid].delivered == tx.streams[sid].accepted)
  {
    InitHolds(frameSizeA, frameSizeB);
    RunKeeps(Init(frameSizeA, frameSizeB), turns);
    var s := Run(Init(frameSizeA, frameSizeB), turns);
    var tx, rx := Sender(s, fromA), Receiver(s, fromA);
    assert DirInv(tx, Way(s, fromA), rx);
    assert GotInv(tx, rx, sid);
  }
}
