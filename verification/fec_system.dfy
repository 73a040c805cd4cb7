/** One encoder, one decoder and a network that loses, reorders and duplicates. */
module FecSystem {
  import opened Bytes
  import opened Modular
  import opened FecCodec
  import opened Fec
  import opened FecWindow
  import opened FecRecovery

  const IKCP_OVERHEAD: nat := 24

  // ------------------------------------------------------------------
  // The encoder sends what the window proofs expect
  // ------------------------------------------------------------------

  lemma {:induction false} MaxLenAppend(xs: seq<seq<byte>>, x: seq<byte>)
    ensures MaxLen(xs + [x]) == Max(MaxLen(xs), |x|)
  {
    if xs == [] {
      assert [x][1..] == [];
    } else {
      MaxLenAppend(xs[1..], x);
      assert (xs + [x])[1..] == xs[1..] + [x];
    }
  }

  lemma GroupDataExtends(sh: Shape, log: seq<Shard>, more: seq<Shard>, b: nat)
    requires b + sh.d <= |log|
    ensures GroupData(sh, log + more, b) == GroupData(sh, log, b)
  {}

  lemma SentExtends(sh: Shape, log: seq<Shard>, s: Shard)
    requires sh.Valid() && WellSent(sh, log) && SentOk(sh, log + [s], |log|)
    ensures WellSent(sh, log + [s])
  {
    forall a | 0 <= a < |log + [s]| ensures SentOk(sh, log + [s], a) {
      if a < |log| {
        assert SentOk(sh, log, a);
        BlockStart(sh.N(), a);
        if a % sh.N() >= sh.d { GroupDataExtends(sh, log, [s], GroupStart(sh, a)); }
      }
    }
  }

  /** Where the encoder stands: its counter, and the payloads of the unfinished group. */
  ghost predicate EncoderAt(sh: Shape, e: Encoder, log: seq<Shard>)
    requires sh.Valid()
  {
    && WellSent(sh, log)
    && e.next == |log| % sh.Paws()
    && |e.cache| == |log| % sh.N() < sh.d
    && |e.cache| <= |log|
    && (forall i :: 0 <= i < |e.cache| ==> e.cache[i] == log[|log| - |e.cache| + i].payload)
    && e.maxSize == MaxLen(e.cache)
  }

  lemma {:induction false} StampSends(sh: Shape, log: seq<Shard>, b: nat, i: nat)
    requires sh.Valid() && WellSent(sh, log) && b % sh.N() == 0 && i <= sh.p && |log| == b + sh.d + i
    requires |sh.codec.encode(PadAll(GroupData(sh, log, b), GroupLen(sh, log, b)))| == sh.p
    ensures var bodies := sh.codec.encode(PadAll(GroupData(sh, log, b), GroupLen(sh, log, b)));
            var (parity, last) := Stamp(sh, |log| % sh.Paws(), bodies[i..]);
            && |parity| == sh.p - i
            && WellSent(sh, log + parity)
            && last == (|log| + |parity|) % sh.Paws()
    decreases sh.p - i
  {
    var n, m := sh.N(), sh.Paws();
    var bodies := sh.codec.encode(PadAll(GroupData(sh, log, b), GroupLen(sh, log, b)));
    if i == sh.p {
      assert bodies[i..] == [] && log + [] == log;
    } else {
      var s := Shard(|log| % m, TYPE_PARITY, bodies[i]);
      var log' := log + [s];
      BlockOffset(n, b, |log|);
      GroupDataExtends(sh, log, [s], b);
      assert SentOk(sh, log', |log|);
      SentExtends(sh, log, s);
      AfterParityIs(sh, |log|);
      StampSends(sh, log', b, i + 1);
      assert bodies[i..][1..] == bodies[i + 1..];
      var rest := Stamp(sh, |log'| % m, bodies[i + 1..]).0;
      assert log + ([s] + rest) == log' + rest;
    }
  }

  lemma AfterParityIs(sh: Shape, a: nat)
    requires sh.Valid()
    ensures AfterParity(sh, a % sh.Paws()) == (a + 1) % sh.Paws()
  {
    var m := sh.Paws();
    ModShift(m, a, 1);
    if a % m + 1 < m {
      ModUnique(m, 0, a % m + 1);
    } else {
      ModUnique(m, 1, 0);
    }
  }

  lemma AfterDataIs(sh: Shape, a: nat)
    requires sh.Valid()
    ensures AfterData(sh, a % sh.Paws()) == (a + 1) % sh.Paws()
  {
    ModShift(sh.Paws(), a, 1);
  }

  /** The data shard of a write goes out in place |log|. */
  lemma DataSends(sh: Shape, e: Encoder, log: seq<Shard>, segments: seq<byte>)
    requires sh.Valid() && EncoderAt(sh, e, log)
    ensures WellSent(sh, log + [Shard(e.next, TYPE_DATA, Payload(segments))])
    ensures AfterData(sh, e.next) == (|log| + 1) % sh.Paws()
  {
    var s := Shard(e.next, TYPE_DATA, Payload(segments));
    AfterDataIs(sh, |log|);
    assert SentOk(sh, log + [s], |log|);
    SentExtends(sh, log, s);
  }

  /** The codec yields p parity shards for a full group. */
  lemma EncodeCount(sh: Shape, xs: seq<seq<byte>>)
    requires sh.Valid() && IsErasureCode(sh.codec, sh.d, sh.p) && |xs| == sh.d && |xs[sh.d - 1]| >= 2
    ensures |sh.codec.encode(PadAll(xs, MaxLen(xs)))| == sh.p
  {
    MaxLenIs(xs);
    assert |PadAll(xs, MaxLen(xs))[sh.d - 1]| >= 2;
  }

  /** What a write does to an encoder standing at the end of the log. */
  ghost predicate Sent(sh: Shape, e: Encoder, log: seq<Shard>, segments: seq<byte>, e': Encoder, out: seq<Shard>)
    requires sh.Valid()
  {
    && EncoderAt(sh, e', log + out)
    && |out| >= 1 && out[0] == Shard(e.next, TYPE_DATA, Payload(segments))
    && forall i :: 1 <= i < |out| ==> out[i].flag == TYPE_PARITY
  }

  lemma PartSends(sh: Shape, e: Encoder, log: seq<Shard>, segments: seq<byte>)
    requires sh.Valid() && EncoderAt(sh, e, log) && |e.cache| + 1 < sh.d
    ensures var (e', out) := EncodeStep(sh, e, segments); Sent(sh, e, log, segments, e', out)
  {
    hide WellSent, Payload, MaxLen;
    var r, pl := |e.cache|, Payload(segments);
    var log1 := log + [Shard(e.next, TYPE_DATA, pl)];
    DataSends(sh, e, log, segments);
    MaxLenAppend(e.cache, pl);
    ModShift(sh.N(), |log|, 1);
    assert forall i :: 0 <= i <= r ==> (e.cache + [pl])[i] == log1[|log1| - (r + 1) + i].payload;
  }

  lemma LastSends(sh: Shape, e: Encoder, log: seq<Shard>, segments: seq<byte>)
    requires sh.Valid() && IsErasureCode(sh.codec, sh.d, sh.p) && EncoderAt(sh, e, log) && |e.cache| + 1 == sh.d
    ensures var (e', out) := EncodeStep(sh, e, segments); Sent(sh, e, log, segments, e', out)
  {
    hide WellSent, MaxLen, IsErasureCode, Stamp;
    var n, m, r, pl := sh.N(), sh.Paws(), |e.cache|, Payload(segments);
    var s := Shard(e.next, TYPE_DATA, pl);
    var log1, xs, b := log + [s], e.cache + [pl], |log| - r;
    DataSends(sh, e, log, segments);
    MaxLenAppend(e.cache, pl);
    BlockStart(n, |log|);
    assert GroupData(sh, log1, b) == xs;
    EncodeCount(sh, xs);
    var bodies := sh.codec.encode(PadAll(xs, MaxLen(xs)));
    StampSends(sh, log1, b, 0);
    assert bodies[0..] == bodies;
    var (parity, last) := Stamp(sh, |log1| % m, bodies);
    StampFlags(sh, |log1| % m, bodies);
    assert log + ([s] + parity) == log1 + parity;
    BlockAfter(n, b);
    NoLength();
  }

  lemma NoLength()
    ensures MaxLen([]) == 0
  {}

  /** After every write the encoder again stands at the end of a well-formed log. */
  lemma EncoderSends(sh: Shape, e: Encoder, log: seq<Shard>, segments: seq<byte>)
    requires sh.Valid() && IsErasureCode(sh.codec, sh.d, sh.p) && EncoderAt(sh, e, log)
    ensures var (e', out) := EncodeStep(sh, e, segments); Sent(sh, e, log, segments, e', out)
  {
    hide IsErasureCode, EncodeStep, Sent;
    if |e.cache| + 1 < sh.d { PartSends(sh, e, log, segments); } else { LastSends(sh, e, log, segments); }
  }

  lemma BlockAfter(n: nat, b: nat)
    requires n > 0 && b % n == 0
    ensures (b + n) % n == 0
  {
    DivMod(b, n);
    assert b + n == n * (b / n + 1);
    ModUnique(n, b / n + 1, 0);
  }

  lemma {:induction false} StampFlags(sh: Shape, next: u32, bodies: seq<seq<byte>>)
    requires sh.Valid()
    ensures var out := Stamp(sh, next, bodies).0;
            |out| == |bodies| && forall i :: 0 <= i < |out| ==> out[i].flag == TYPE_PARITY
    decreases |bodies|
  {
    if bodies != [] { StampFlags(sh, AfterParity(sh, next), bodies[1..]); }
  }

  // ------------------------------------------------------------------
  // The receiving side of a datagram
  // ------------------------------------------------------------------

  /** The segment blocks among FEC payloads, where they are long enough to hold a KCP segment. */
  function Blocks(payloads: seq<seq<byte>>): seq<seq<byte>> {
    if payloads == [] then []
    else
      var b := PayloadSegments(payloads[0]);
      (if b.Some? && |b.value| >= IKCP_OVERHEAD then [b.value] else []) + Blocks(payloads[1..])
  }

  /** A shard's own segments come first, then whatever its arrival let the decoder rebuild. */
  function Receive(sh: Shape, rx: seq<Shard>, s: Shard, expired: nat): (seq<Shard>, seq<seq<byte>>)
    requires sh.Valid()
  {
    var (rx', recovered) := DecodeStep(sh, rx, s, expired);
    (rx', Blocks(if s.flag == TYPE_DATA then [s.payload] else []) + Blocks(recovered))
  }

  // ------------------------------------------------------------------
  // Runs
  // ------------------------------------------------------------------

  /** `log` is all that was ever sent, `writes` all that was ever passed to the framer, `blocks` all that was ever
      emitted; `win` names the shards the decoder holds. */
  datatype Net = Net(
    enc: Encoder, log: seq<Shard>, writes: seq<seq<byte>>,
    rx: seq<Shard>, win: seq<nat>, blocks: seq<seq<byte>>)

  const START := Net(FRESH, [], [], [], [], [])

  /** A write, or the arrival of shard number a, with so many of the oldest shards expired by then. */
  datatype Event = Send(segments: seq<byte>) | Deliver(a: nat, expired: nat)

  function WindowAfter(sh: Shape, s: Net, a: nat, expired: nat, rx': seq<Shard>, out: seq<seq<byte>>): seq<nat>
    requires sh.Valid()
  {
    var now, b := Arrived(s.win, a), GroupStart(sh, a);
    if a in s.win then s.win
    else if Finished(sh, s.log, now, b, expired, rx', out) then Trim(sh, GroupOut(sh, now, b), expired)
    else Trim(sh, now, expired)
  }

  function Step(sh: Shape, s: Net, ev: Event): Net
    requires sh.Valid()
  {
    match ev
    case Send(w) =>
      var (e, out) := EncodeStep(sh, s.enc, w);
      s.(enc := e, log := s.log + out, writes := s.writes + [w])
    case Deliver(a, expired) =>
      if a >= |s.log| then s
      else
        var (rx', blocks) := Receive(sh, s.rx, s.log[a], expired);
        s.(rx := rx', blocks := s.blocks + blocks,
           win := WindowAfter(sh, s, a, expired, rx', DecodeStep(sh, s.rx, s.log[a], expired).1))
  }

  function Run(sh: Shape, s: Net, evs: seq<Event>): Net
    requires sh.Valid()
    decreases |evs|
  {
    if evs == [] then s else Run(sh, Step(sh, s, evs[0]), evs[1..])
  }

  /** Writes fit their length field, and each arrival is less than 2^31 - 256 from everything in the window. */
  predicate Allowed(s: Net, ev: Event) {
    match ev
    case Send(w) => 2 + |w| < 0x1_0000
    case Deliver(a, _) => Near(s.win, a)
  }

  predicate AllowedRun(sh: Shape, s: Net, evs: seq<Event>)
    requires sh.Valid()
    decreases |evs|
  {
    evs == [] || (Allowed(s, evs[0]) && AllowedRun(sh, Step(sh, s, evs[0]), evs[1..]))
  }

  /** Every data shard carries a write. */
  ghost predicate CarriesWrites(log: seq<Shard>, writes: seq<seq<byte>>) {
    forall a :: 0 <= a < |log| && log[a].flag == TYPE_DATA ==> IsWrite(log[a].payload, writes)
  }

  ghost predicate IsWrite(payload: seq<byte>, writes: seq<seq<byte>>) {
    exists w :: w in writes && 2 + |w| < 0x1_0000 && payload == Payload(w)
  }

  ghost predicate Inv(sh: Shape, s: Net)
    requires sh.Valid()
  {
    && EncoderAt(sh, s.enc, s.log)
    && CarriesWrites(s.log, s.writes)
    && Refines(s.rx, s.win, s.log) && Sorted(s.win)
    && |s.rx| <= 3 * sh.N()
    && AllWrites(s.blocks, s.writes)
  }

  lemma SendKeeps(sh: Shape, s: Net, w: seq<byte>)
    requires sh.Valid() && IsErasureCode(sh.codec, sh.d, sh.p) && Inv(sh, s) && 2 + |w| < 0x1_0000
    ensures Inv(sh, Step(sh, s, Send(w)))
  {
    EncoderSends(sh, s.enc, s.log, w);
    var s' := Step(sh, s, Send(w));
    forall a | 0 <= a < |s'.log| && s'.log[a].flag == TYPE_DATA ensures IsWrite(s'.log[a].payload, s'.writes) {
      if a < |s.log| {
        assert IsWrite(s.log[a].payload, s.writes);
        var v :| v in s.writes && 2 + |v| < 0x1_0000 && s.log[a].payload == Payload(v);
        assert v in s'.writes;
      } else {
        assert a == |s.log| && w in s'.writes;
      }
    }
  }

  /** A write's payload, possibly padded. */
  ghost predicate PaddedWrite(x: seq<byte>, writes: seq<seq<byte>>) {
    exists p, len :: x == Pad(p, len) && IsWrite(p, writes)
  }

  ghost predicate AllPaddedWrites(xs: seq<seq<byte>>, writes: seq<seq<byte>>) {
    forall i :: 0 <= i < |xs| ==> PaddedWrite(xs[i], writes)
  }

  predicate AllWrites(blocks: seq<seq<byte>>, writes: seq<seq<byte>>) {
    forall i :: 0 <= i < |blocks| ==> blocks[i] in writes
  }

  lemma {:induction false} BlocksAreWrites(payloads: seq<seq<byte>>, writes: seq<seq<byte>>)
    requires AllPaddedWrites(payloads, writes)
    ensures AllWrites(Blocks(payloads), writes)
  {
    if payloads != [] {
      assert PaddedWrite(payloads[0], writes);
      var p, len :| payloads[0] == Pad(p, len) && IsWrite(p, writes);
      var w :| w in writes && 2 + |w| < 0x1_0000 && p == Payload(w);
      PaddedPayload(w, len);
      BlocksAreWrites(payloads[1..], writes);
    }
  }

  lemma DataShardIsWrite(sh: Shape, log: seq<Shard>, b: nat, i: nat, len: nat, writes: seq<seq<byte>>)
    requires sh.Valid() && WellSent(sh, log) && CarriesWrites(log, writes)
    requires b % sh.N() == 0 && i < sh.d && b + i < |log|
    ensures PaddedWrite(Pad(log[b + i].payload, len), writes)
  {
    BlockOffset(sh.N(), b, b + i);
    assert SentOk(sh, log, b + i);
    assert IsWrite(log[b + i].payload, writes);
  }

  lemma {:induction false} MissingAreWrites(sh: Shape, log: seq<Shard>, win: seq<nat>, b: nat, i: nat, writes: seq<seq<byte>>)
    requires sh.Valid() && WellSent(sh, log) && CarriesWrites(log, writes)
    requires b % sh.N() == 0 && b + sh.d <= |log|
    ensures AllPaddedWrites(Missing(sh, log, win, b, i), writes)
    decreases sh.d - i
  {
    if i < sh.d {
      MissingAreWrites(sh, log, win, b, i + 1, writes);
      DataShardIsWrite(sh, log, b, i, GroupLen(sh, log, b), writes);
    }
  }

  lemma OwnBlock(s: Shard, log: seq<Shard>, a: nat, writes: seq<seq<byte>>)
    requires CarriesWrites(log, writes) && a < |log| && s == log[a]
    ensures AllWrites(Blocks(if s.flag == TYPE_DATA then [s.payload] else []), writes)
  {
    if s.flag == TYPE_DATA {
      assert IsWrite(s.payload, writes) && s.payload == Pad(s.payload, 0);
      assert PaddedWrite(s.payload, writes);
      BlocksAreWrites([s.payload], writes);
    }
  }

  /** What the decoder hands back on an arrival is made of writes, and its window is the one named. */
  lemma ArrivalSound(sh: Shape, s: Net, a: nat, expired: nat)
    requires sh.Valid() && IsErasureCode(sh.codec, sh.d, sh.p) && Inv(sh, s) && a < |s.log| && Near(s.win, a)
    requires a !in s.win
    ensures var (rx', out) := DecodeStep(sh, s.rx, s.log[a], expired);
            var win' := WindowAfter(sh, s, a, expired, rx', out);
            AllWrites(Blocks(out), s.writes) && Refines(rx', win', s.log) && Sorted(win')
  {
    hide Inv, DecodeStep, Arrived, GroupStart, Trim, GroupOut, Below, Blocks, Missing, Near, IsErasureCode;
    hide WellSent, Refines, Sorted, CarriesWrites, AllWrites, AllPaddedWrites, Ready, AllData;
    InvParts(sh, s);
    var (rx', out) := DecodeStep(sh, s.rx, s.log[a], expired);
    var now, b := Arrived(s.win, a), GroupStart(sh, a);
    ArrivalOutcome(sh, s.log, s.rx, s.win, a, expired);
    ArrivedIs(s.log, s.rx, s.win, a);
    GroupOutIs(sh, now, b, a);
    TrimSorted(sh, now, expired);
    TrimSorted(sh, GroupOut(sh, now, b), expired);
    GroupStartIs(sh, a);
    if out == [] {
      NoBlocks(s.writes);
    } else {
      MissingAreWrites(sh, s.log, now, b, 0, s.writes);
      BlocksAreWrites(out, s.writes);
    }
  }

  lemma NoBlocks(writes: seq<seq<byte>>)
    ensures AllWrites(Blocks([]), writes)
  {}

  lemma InvParts(sh: Shape, s: Net)
    requires sh.Valid() && Inv(sh, s)
    ensures WellSent(sh, s.log) && CarriesWrites(s.log, s.writes)
    ensures Refines(s.rx, s.win, s.log) && Sorted(s.win) && |s.rx| <= 3 * sh.N() && AllWrites(s.blocks, s.writes)
  {}

  lemma DeliverKeeps(sh: Shape, s: Net, a: nat, expired: nat)
    requires sh.Valid() && IsErasureCode(sh.codec, sh.d, sh.p) && Inv(sh, s) && a < |s.log| && Near(s.win, a)
    ensures Inv(sh, Step(sh, s, Deliver(a, expired)))
  {
    WindowStaysBounded(sh, s.rx, s.log[a], expired);
    OwnBlock(s.log[a], s.log, a, s.writes);
    if a in s.win {
      DuplicateOutcome(sh, s.log, s.rx, s.win, a, expired);
    } else {
      ArrivalSound(sh, s, a, expired);
    }
  }

  /** A delivery emits what the receiving side hands back, and writes nothing. */
  lemma DeliverEmits(sh: Shape, s: Net, a: nat, expired: nat)
    requires sh.Valid() && a < |s.log|
    ensures var s' := Step(sh, s, Deliver(a, expired));
            var (rx', blocks) := Receive(sh, s.rx, s.log[a], expired);
            s'.rx == rx' && s'.blocks == s.blocks + blocks && s'.writes == s.writes
  {
    hide Receive, WindowAfter;
  }

  lemma InvBlocks(sh: Shape, s: Net)
    requires sh.Valid() && Inv(sh, s)
    ensures AllWrites(s.blocks, s.writes)
  {}

  lemma {:induction false} RunKeeps(sh: Shape, s: Net, evs: seq<Event>)
    requires sh.Valid() && IsErasureCode(sh.codec, sh.d, sh.p) && Inv(sh, s) && AllowedRun(sh, s, evs)
    ensures Inv(sh, Run(sh, s, evs))
    decreases |evs|
  {
    if evs != [] {
      match evs[0] {
        case Send(w) => SendKeeps(sh, s, w);
        case Deliver(a, expired) => if a < |s.log| { DeliverKeeps(sh, s, a, expired); }
      }
      RunKeeps(sh, Step(sh, s, evs[0]), evs[1..]);
    }
  }

  lemma StartHolds(sh: Shape)
    requires sh.Valid()
    ensures Inv(sh, START)
  {
    ModUnique(sh.Paws(), 0, 0);
    ModUnique(sh.N(), 0, 0);
  }

  /** Soundness over whole runs: through any loss, reordering and duplication every emitted block is byte for byte
      one that was written; the window stays strictly sorted, free of duplicates and within three groups. */
  lemma RecoveryIsSound(sh: Shape, evs: seq<Event>)
    requires sh.Valid() && IsErasureCode(sh.codec, sh.d, sh.p) && AllowedRun(sh, START, evs)
    ensures var s := Run(sh, START, evs);
            && (forall i :: 0 <= i < |s.blocks| ==> s.blocks[i] in s.writes)
            && Refines(s.rx, s.win, s.log) && Sorted(s.win) && |s.rx| <= 3 * sh.N()
  {
    StartHolds(sh);
    RunKeeps(sh, START, evs);
  }
}
