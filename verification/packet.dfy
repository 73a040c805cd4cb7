/** Datagrams: FEC header, checksum, nonce and cipher around each block of KCP segments, and the way back. */
module Packet {
  import opened Bytes
  import opened Crypt
  import Modular
  import Crc
  import opened FecCodec
  import opened Fec
  import opened FecWindow
  import FecRecovery
  import FecSystem

  const NONCE_SIZE: nat := 16
  const CRYPT_HEADER_SIZE: nat := 20
  const FEC_HEADER_SIZE: nat := 6
  const FEC_HEADER_SIZE_PLUS2: nat := 8
  const IKCP_OVERHEAD: nat := 24
  const MTU_LIMIT: nat := 1500

  // ------------------------------------------------------------------
  // Sealing
  // ------------------------------------------------------------------

  function Seal(c: Cipher, nonce: seq<byte>, body: seq<byte>): seq<byte> {
    c.Encrypt(nonce + Le32(Crc.Checksum(Crc.IEEE, body)) + body)
  }

  /** The body of a datagram that decrypts to a matching checksum. */
  function Unseal(c: Cipher, pkt: seq<byte>): Option<seq<byte>> {
    if |pkt| < CRYPT_HEADER_SIZE then None
    else
      var plain := c.Decrypt(pkt);
      if |plain| < CRYPT_HEADER_SIZE
         || FromLe32(plain[NONCE_SIZE..CRYPT_HEADER_SIZE]) != Crc.Checksum(Crc.IEEE, plain[CRYPT_HEADER_SIZE..])
      then None
      else Some(plain[CRYPT_HEADER_SIZE..])
  }

  lemma UnsealInverts(c: Cipher, nonce: seq<byte>, body: seq<byte>)
    requires c.Valid() && |nonce| == NONCE_SIZE
    ensures |Seal(c, nonce, body)| == CRYPT_HEADER_SIZE + |body|
    ensures Unseal(c, Seal(c, nonce, body)) == Some(body)
  {
    var sum := Crc.Checksum(Crc.IEEE, body);
    var plain := nonce + Le32(sum) + body;
    Le32RoundTrip(sum);
    assert plain[NONCE_SIZE..CRYPT_HEADER_SIZE] == Le32(sum);
    assert plain[CRYPT_HEADER_SIZE..] == body;
    c.Inverts(plain);
  }

  /** The packet decrypts to this nonce, the body's checksum and this body. */
  predicate IsSealed(c: Cipher, pkt: seq<byte>, nonce: seq<byte>, body: seq<byte>) {
    |nonce| == NONCE_SIZE && c.Decrypt(pkt) == nonce + Le32(Crc.Checksum(Crc.IEEE, body)) + body
  }

  lemma SealIsSealed(c: Cipher, nonce: seq<byte>, body: seq<byte>)
    requires c.Valid() && |nonce| == NONCE_SIZE
    ensures IsSealed(c, Seal(c, nonce, body), nonce, body)
  {
    c.Inverts(nonce + Le32(Crc.Checksum(Crc.IEEE, body)) + body);
  }

  /** For every packet: a body comes out if and only if the packet decrypts to some nonce, that body's checksum and that
      body. Anything else, a stray or corrupted datagram, yields nothing. */
  lemma UnsealIff(c: Cipher, pkt: seq<byte>, body: seq<byte>)
    requires c.Valid()
    ensures Unseal(c, pkt) == Some(body) <==> exists nonce :: IsSealed(c, pkt, nonce, body)
  {
    hide Crc.Checksum, Le32, FromLe32;
    c.DecryptLength(pkt);
    var plain := c.Decrypt(pkt);
    if Unseal(c, pkt) == Some(body) {
      var nonce, sum := plain[..NONCE_SIZE], plain[NONCE_SIZE..CRYPT_HEADER_SIZE];
      Le32Injective(sum);
      assert plain == nonce + sum + body;
      assert IsSealed(c, pkt, nonce, body);
    }
    if nonce :| IsSealed(c, pkt, nonce, body) {
      var sum := Crc.Checksum(Crc.IEEE, body);
      Le32RoundTrip(sum);
      assert plain[NONCE_SIZE..CRYPT_HEADER_SIZE] == Le32(sum) && plain[CRYPT_HEADER_SIZE..] == body;
    }
  }

  // ------------------------------------------------------------------
  // FEC framing of a body
  // ------------------------------------------------------------------

  function ShardBody(s: Shard): seq<byte> { Le32(s.seqid) + Le16(s.flag) + s.payload }

  function FecFlag(body: seq<byte>): Option<u16> {
    if |body| < FEC_HEADER_SIZE then None
    else
      var flag := FromLe16(body[4..6]);
      if flag == TYPE_DATA || flag == TYPE_PARITY then Some(flag) else None
  }

  function FecStrip(body: seq<byte>): Option<seq<byte>> {
    match FecFlag(body)
    case Some(flag) =>
      if flag == TYPE_DATA && |body| >= FEC_HEADER_SIZE_PLUS2 then Some(body[FEC_HEADER_SIZE_PLUS2..]) else None
    case None => Some(body)
  }

  function Unframe(c: Cipher, pkt: seq<byte>): Option<seq<byte>> {
    match Unseal(c, pkt)
    case None => None
    case Some(body) =>
      match FecStrip(body)
      case None => None
      case Some(segments) => if |segments| < IKCP_OVERHEAD then None else Some(segments)
  }

  /** Unframing with erasure recovery: the shard's own block first, then whatever it let the decoder rebuild. */
  function UnframeFec(sh: Shape, rx: seq<Shard>, c: Cipher, pkt: seq<byte>, expired: nat): (seq<Shard>, seq<seq<byte>>)
    requires sh.Valid()
  {
    match Unseal(c, pkt)
    case None => (rx, [])
    case Some(body) =>
      match FecFlag(body)
      case None => (rx, if |body| >= IKCP_OVERHEAD then [body] else [])
      case Some(flag) => FecSystem.Receive(sh, rx, Shard(FromLe32(body[..4]), flag, body[FEC_HEADER_SIZE..]), expired)
  }

  /** A bare segment block is taken for itself exactly when its bytes 4 and 5 do not spell a shard type; the KCP
      commands 81 to 84 never do. */
  lemma BareBlockPassesIff(body: seq<byte>)
    requires |body| >= IKCP_OVERHEAD
    ensures FecStrip(body) == Some(body) <==> !(body[5] == 0 && (body[4] == 0xf1 || body[4] == 0xf2))
    ensures 81 <= body[4] <= 84 ==> FecFlag(body) == None
  {
    assert FromLe16(body[4..6]) == (body[4] as int) + 256 * (body[5] as int);
  }

  /** Bytes 4 and 5 spell a shard type. */
  predicate ShardTyped(body: seq<byte>) {
    |body| >= FEC_HEADER_SIZE && body[5] == 0 && (body[4] == 0xf1 || body[4] == 0xf2)
  }

  /** The segments a body carries without recovery: its own bytes, or what a data shard has behind its header. */
  predicate CarriesSegments(body: seq<byte>, segments: seq<byte>) {
    if !ShardTyped(body) then segments == body
    else |body| >= FEC_HEADER_SIZE_PLUS2 && body[4] == 0xf1 && segments == body[FEC_HEADER_SIZE_PLUS2..]
  }

  lemma FecFlagIs(body: seq<byte>)
    ensures FecFlag(body) == if !ShardTyped(body) then None else Some(body[4])
  {
    if |body| >= FEC_HEADER_SIZE {
      assert FromLe16(body[4..6]) == (body[4] as int) + 256 * (body[5] as int);
    }
  }

  lemma StripIff(body: seq<byte>, segments: seq<byte>)
    ensures FecStrip(body) == Some(segments) <==> CarriesSegments(body, segments)
  {
    FecFlagIs(body);
    hide FecFlag;
  }

  /** For every packet: unframing yields segments if and only if the packet is the sealing of a body that carries them
      and they are long enough for a KCP header. */
  lemma UnframeIff(c: Cipher, pkt: seq<byte>, segments: seq<byte>)
    requires c.Valid()
    ensures Unframe(c, pkt) == Some(segments) <==>
            |segments| >= IKCP_OVERHEAD
            && exists nonce, body :: IsSealed(c, pkt, nonce, body) && CarriesSegments(body, segments)
  {
    hide Unseal, FecStrip, IsSealed, CarriesSegments;
    if Unframe(c, pkt) == Some(segments) {
      var body := Unseal(c, pkt).value;
      UnsealIff(c, pkt, body);
      StripIff(body, segments);
      var nonce :| IsSealed(c, pkt, nonce, body);
      assert IsSealed(c, pkt, nonce, body) && CarriesSegments(body, segments);
    }
    if nonce, body :| IsSealed(c, pkt, nonce, body) && CarriesSegments(body, segments) {
      UnsealIff(c, pkt, body);
      StripIff(body, segments);
    }
  }

  /** With recovery too, a packet that is the sealing of nothing yields nothing and leaves the window alone; a bare block
      is taken as it is; and a shard goes to the decoder with its own number, type and payload. */
  lemma UnframeFecIs(sh: Shape, rx: seq<Shard>, c: Cipher, pkt: seq<byte>, nonce: seq<byte>, body: seq<byte>, expired: nat)
    requires sh.Valid() && c.Valid()
    ensures (forall n, b :: !IsSealed(c, pkt, n, b)) ==> UnframeFec(sh, rx, c, pkt, expired) == (rx, [])
    ensures IsSealed(c, pkt, nonce, body) && !ShardTyped(body) ==>
              UnframeFec(sh, rx, c, pkt, expired) == (rx, if |body| >= IKCP_OVERHEAD then [body] else [])
    ensures IsSealed(c, pkt, nonce, body) && ShardTyped(body) ==>
              UnframeFec(sh, rx, c, pkt, expired)
              == FecSystem.Receive(sh, rx, Shard(FromLe32(body[..4]), body[4], body[FEC_HEADER_SIZE..]), expired)
  {
    hide Unseal, IsSealed, FecFlag, FecSystem.Receive, FromLe32;
    if Unseal(c, pkt).Some? { UnsealIff(c, pkt, Unseal(c, pkt).value); }
    UnsealIff(c, pkt, body);
    FecFlagIs(body);
  }

  lemma ShardBodyParses(s: Shard)
    requires s.flag == TYPE_DATA || s.flag == TYPE_PARITY
    ensures var body := ShardBody(s);
            && |body| == FEC_HEADER_SIZE + |s.payload|
            && FecFlag(body) == Some(s.flag)
            && Shard(FromLe32(body[..4]), s.flag, body[FEC_HEADER_SIZE..]) == s
  {
    var body := ShardBody(s);
    Le32RoundTrip(s.seqid);
    Le16RoundTrip(s.flag);
    assert body[..4] == Le32(s.seqid);
    assert body[4..6] == Le16(s.flag);
    assert body[FEC_HEADER_SIZE..] == s.payload;
  }

  /** Without FEC a datagram unframes to exactly the block that was written. */
  lemma UnframeInvertsBare(c: Cipher, nonce: seq<byte>, segments: seq<byte>)
    requires c.Valid() && |nonce| == NONCE_SIZE
    requires |segments| >= IKCP_OVERHEAD && 81 <= segments[4] <= 84
    ensures Unframe(c, Seal(c, nonce, segments)) == Some(segments)
  {
    UnsealInverts(c, nonce, segments);
    BareBlockPassesIff(segments);
  }

  /** With FEC a data shard's datagram unframes to its block, and a parity shard's to nothing. */
  lemma UnframeInvertsShard(c: Cipher, nonce: seq<byte>, seqid: u32, segments: seq<byte>, parity: seq<byte>)
    requires c.Valid() && |nonce| == NONCE_SIZE && |segments| >= IKCP_OVERHEAD
    ensures Unframe(c, Seal(c, nonce, ShardBody(Shard(seqid, TYPE_DATA, Payload(segments))))) == Some(segments)
    ensures Unframe(c, Seal(c, nonce, ShardBody(Shard(seqid, TYPE_PARITY, parity)))) == None
  {
    var s := Shard(seqid, TYPE_DATA, Payload(segments));
    UnsealInverts(c, nonce, ShardBody(s));
    ShardBodyParses(s);
    assert ShardBody(s)[FEC_HEADER_SIZE_PLUS2..] == segments by {
      assert ShardBody(s)[FEC_HEADER_SIZE..][2..] == segments;
    }
    UnsealInverts(c, nonce, ShardBody(Shard(seqid, TYPE_PARITY, parity)));
    ShardBodyParses(Shard(seqid, TYPE_PARITY, parity));
  }

  /** A shard sent through sealing, the wire and unframing reaches the decoder unchanged. */
  lemma UnframeFecReceives(sh: Shape, rx: seq<Shard>, c: Cipher, nonce: seq<byte>, s: Shard, expired: nat)
    requires sh.Valid() && c.Valid() && |nonce| == NONCE_SIZE
    requires s.flag == TYPE_DATA || s.flag == TYPE_PARITY
    ensures UnframeFec(sh, rx, c, Seal(c, nonce, ShardBody(s)), expired) == FecSystem.Receive(sh, rx, s, expired)
  {
    UnsealInverts(c, nonce, ShardBody(s));
    ShardBodyParses(s);
  }

  /** Soundness at the datagram: in every reachable state, whatever sent datagram arrives next, every block that
      unframing emits was written. */
  lemma UnframedBlocksWereWritten(sh: Shape, evs: seq<FecSystem.Event>, c: Cipher, nonce: seq<byte>, a: nat, expired: nat)
    requires sh.Valid() && IsErasureCode(sh.codec, sh.d, sh.p) && c.Valid() && |nonce| == NONCE_SIZE
    requires FecSystem.AllowedRun(sh, FecSystem.START, evs)
    requires var s := FecSystem.Run(sh, FecSystem.START, evs); a < |s.log| && Near(s.win, a)
    ensures var s := FecSystem.Run(sh, FecSystem.START, evs);
            var (rx', blocks) := UnframeFec(sh, s.rx, c, Seal(c, nonce, ShardBody(s.log[a])), expired);
            && (forall i :: 0 <= i < |blocks| ==> blocks[i] in s.writes)
            && rx' == FecSystem.Step(sh, s, FecSystem.Deliver(a, expired)).rx
  {
    hide UnframeFec, Seal, FecSystem.Inv, FecSystem.Step, FecSystem.Run, FecSystem.Receive;
    FecSystem.StartHolds(sh);
    FecSystem.RunKeeps(sh, FecSystem.START, evs);
    ArrivalBlocksWritten(sh, FecSystem.Run(sh, FecSystem.START, evs), c, nonce, a, expired);
  }

  lemma ArrivalBlocksWritten(sh: Shape, s: FecSystem.Net, c: Cipher, nonce: seq<byte>, a: nat, expired: nat)
    requires sh.Valid() && IsErasureCode(sh.codec, sh.d, sh.p) && c.Valid() && |nonce| == NONCE_SIZE
    requires FecSystem.Inv(sh, s) && a < |s.log| && Near(s.win, a)
    ensures var (rx', blocks) := UnframeFec(sh, s.rx, c, Seal(c, nonce, ShardBody(s.log[a])), expired);
            && (forall i :: 0 <= i < |blocks| ==> blocks[i] in s.writes)
            && rx' == FecSystem.Step(sh, s, FecSystem.Deliver(a, expired)).rx
  {
    hide UnframeFec, Seal, FecSystem.Inv, FecSystem.Step, FecSystem.Receive, Near;
    ShardFlag(sh, s, a);
    UnframeFecReceives(sh, s.rx, c, nonce, s.log[a], expired);
    FecSystem.DeliverKeeps(sh, s, a, expired);
    FecSystem.DeliverEmits(sh, s, a, expired);
    var s' := FecSystem.Step(sh, s, FecSystem.Deliver(a, expired));
    FecSystem.InvBlocks(sh, s');
    var out := FecSystem.Receive(sh, s.rx, s.log[a], expired).1;
    forall i | 0 <= i < |out| ensures out[i] in s.writes {
      assert s'.blocks[|s.blocks| + i] == out[i];
    }
  }

  lemma ShardFlag(sh: Shape, s: FecSystem.Net, a: nat)
    requires sh.Valid() && FecSystem.Inv(sh, s) && a < |s.log|
    ensures s.log[a].flag == TYPE_DATA || s.log[a].flag == TYPE_PARITY
  {
    assert SentOk(sh, s.log, a);
  }

  // ------------------------------------------------------------------
  // The framer
  // ------------------------------------------------------------------

  function SealAll(c: Cipher, nonces: seq<seq<byte>>, bodies: seq<seq<byte>>): seq<seq<byte>>
    requires |bodies| <= |nonces|
  {
    seq(|bodies|, i requires 0 <= i < |bodies| => Seal(c, nonces[i], bodies[i]))
  }

  function ShardBodies(shards: seq<Shard>): seq<seq<byte>> {
    seq(|shards|, i requires 0 <= i < |shards| => ShardBody(shards[i]))
  }

  class PacketFramer {
    const cipher: Cipher
    const fec: FecEncoder?
    var queue: seq<seq<byte>>

    constructor (cipher: Cipher, fec: FecEncoder?)
      ensures this.cipher == cipher && this.fec == fec && queue == []
    {
      this.cipher, this.fec, queue := cipher, fec, [];
    }

    /** One write queues the sealed block, as a data shard when FEC is on, followed by the parity it completes. */
    method Write(segments: seq<byte>, nonces: seq<seq<byte>>)
      requires fec != null ==> fec.Valid() && |EncodeStep(fec.sh, fec.View(), segments).1| <= |nonces|
      requires |nonces| > 0
      modifies this`queue, fec
      ensures fec == null ==> queue == old(queue) + [Seal(cipher, nonces[0], segments)]
      ensures fec != null ==>
                var (e, shards) := EncodeStep(fec.sh, old(fec.View()), segments);
                && fec.Valid() && fec.View() == e
                && queue == old(queue) + SealAll(cipher, nonces, ShardBodies(shards))
    {
      hide EncodeStep, Seal, SealAll, ShardBodies;
      if fec == null {
        queue := queue + [Seal(cipher, nonces[0], segments)];
      } else {
        var shards := fec.Write(segments);
        EnqueueAll(shards, nonces);
      }
    }

    /** Seals and queues the shards in order. */
    method EnqueueAll(shards: seq<Shard>, nonces: seq<seq<byte>>)
      requires |shards| <= |nonces|
      modifies this`queue
      ensures queue == old(queue) + SealAll(cipher, nonces, ShardBodies(shards))
    {
      hide Seal, ShardBody;
      for i := 0 to |shards|
        invariant queue == old(queue) + SealAll(cipher, nonces, ShardBodies(shards[..i]))
      {
        queue := queue + [Seal(cipher, nonces[i], ShardBody(shards[i]))];
        assert ShardBodies(shards[..i + 1]) == ShardBodies(shards[..i]) + [ShardBody(shards[i])];
      }
      assert shards[..|shards|] == shards;
    }
  }

  // ------------------------------------------------------------------
  // Sizes under a validated configuration
  // ------------------------------------------------------------------

  datatype Config = Config(mtu: nat, datashard: nat, parityshard: nat, tcp: bool, smuxver: nat)
  {
    function FecOverhead(): nat { if datashard > 0 && parityshard > 0 then FEC_HEADER_SIZE_PLUS2 else 0 }

    predicate Validates() {
      && !tcp && smuxver <= 1
      && mtu <= MTU_LIMIT
      && mtu > CRYPT_HEADER_SIZE + FecOverhead() + IKCP_OVERHEAD + 1
    }

    function ArqMtu(): int { mtu - CRYPT_HEADER_SIZE - FecOverhead() }
  }

  /** The ARQ's limit is exact: its largest block fills the MTU to the byte, with FEC and without; and a configuration
      passes exactly if it asks for nothing unsupported and leaves room for more than a header and a byte. */
  lemma ArqMtuIsExact(cfg: Config, c: Cipher, nonce: seq<byte>, seqid: u32, segments: seq<byte>)
    requires c.Valid() && |nonce| == NONCE_SIZE && |segments| == cfg.ArqMtu()
    ensures if cfg.datashard > 0 && cfg.parityshard > 0
            then |Seal(c, nonce, ShardBody(Shard(seqid, TYPE_DATA, Payload(segments))))| == cfg.mtu
            else |Seal(c, nonce, segments)| == cfg.mtu
    ensures cfg.Validates() <==> !cfg.tcp && cfg.smuxver <= 1 && cfg.mtu <= 1500 && |segments| > IKCP_OVERHEAD + 1
  {
    UnsealInverts(c, nonce, segments);
    UnsealInverts(c, nonce, ShardBody(Shard(seqid, TYPE_DATA, Payload(segments))));
    ShardBodyParses(Shard(seqid, TYPE_DATA, Payload(segments)));
  }

  /** A bare block within the ARQ's limit makes a datagram within the MTU. */
  lemma BareDatagramFits(cfg: Config, c: Cipher, nonce: seq<byte>, segments: seq<byte>)
    requires cfg.Validates() && c.Valid() && |nonce| == NONCE_SIZE && |segments| <= cfg.ArqMtu()
    ensures |Seal(c, nonce, segments)| <= cfg.mtu <= 1500
  {
    UnsealInverts(c, nonce, segments);
  }

  /** Under a validated configuration no length field wraps, and in every reachable state every data and parity
      datagram is within the MTU. */
  lemma ShardDatagramsFit(cfg: Config, sh: Shape, evs: seq<FecSystem.Event>, c: Cipher, nonce: seq<byte>, a: nat)
    requires cfg.Validates() && sh.Valid() && cfg.datashard == sh.d && cfg.parityshard == sh.p
    requires IsErasureCode(sh.codec, sh.d, sh.p) && c.Valid() && |nonce| == NONCE_SIZE
    requires FecSystem.AllowedRun(sh, FecSystem.START, evs)
    requires forall i :: 0 <= i < |evs| && evs[i].Send? ==> |evs[i].segments| <= cfg.ArqMtu()
    requires a < |FecSystem.Run(sh, FecSystem.START, evs).log|
    ensures var s := FecSystem.Run(sh, FecSystem.START, evs);
            && |Seal(c, nonce, ShardBody(s.log[a]))| <= cfg.mtu <= 1500
            && 2 + cfg.ArqMtu() < 0x1_0000
  {
    FecSystem.StartHolds(sh);
    FecSystem.RunKeeps(sh, FecSystem.START, evs);
    WritesWithin(sh, FecSystem.START, evs, cfg.ArqMtu());
    var s := FecSystem.Run(sh, FecSystem.START, evs);
    PayloadWithin(sh, s, a, cfg.ArqMtu());
    UnsealInverts(c, nonce, ShardBody(s.log[a]));
    Le32RoundTrip(s.log[a].seqid);
  }

  lemma {:induction false} WritesWithin(sh: Shape, s: FecSystem.Net, evs: seq<FecSystem.Event>, max: nat)
    requires sh.Valid() && forall i :: 0 <= i < |evs| && evs[i].Send? ==> |evs[i].segments| <= max
    requires forall w :: w in s.writes ==> |w| <= max
    ensures forall w :: w in FecSystem.Run(sh, s, evs).writes ==> |w| <= max
    decreases |evs|
  {
    if evs != [] {
      WritesAfter(sh, s, evs[0]);
      WritesWithin(sh, FecSystem.Step(sh, s, evs[0]), evs[1..], max);
    }
  }

  lemma WritesAfter(sh: Shape, s: FecSystem.Net, ev: FecSystem.Event)
    requires sh.Valid()
    ensures FecSystem.Step(sh, s, ev).writes == s.writes + if ev.Send? then [ev.segments] else []
  {}

  /** A data payload is a write with its length; a parity payload is as long as the longest in its group. */
  lemma PayloadWithin(sh: Shape, s: FecSystem.Net, a: nat, max: nat)
    requires sh.Valid() && IsErasureCode(sh.codec, sh.d, sh.p) && FecSystem.Inv(sh, s)
    requires a < |s.log| && forall w :: w in s.writes ==> |w| <= max
    ensures |s.log[a].payload| <= 2 + max
  {
    hide FecSystem.Inv, WellSent, FecSystem.CarriesWrites, IsErasureCode, GroupStart;
    FecSystem.InvParts(sh, s);
    var b := GroupStart(sh, a);
    FecWindow.GroupStartIs(sh, a);
    ShardKind(sh, s.log, b, a);
    if s.log[a].flag == TYPE_DATA { DataWithin(s, a, max); } else { ParityWithin(sh, s, b, a, max); }
  }

  /** A shard is data exactly in the first d places of its group, and parity only once they have all been sent. */
  lemma ShardKind(sh: Shape, log: seq<Shard>, b: nat, a: nat)
    requires sh.Valid() && WellSent(sh, log) && b % sh.N() == 0 && b <= a < b + sh.N() && a < |log|
    ensures log[a].flag == if a < b + sh.d then TYPE_DATA else TYPE_PARITY
    ensures a >= b + sh.d ==> b + sh.d <= |log|
  {
    Modular.BlockOffset(sh.N(), b, a);
    assert SentOk(sh, log, a);
  }

  lemma ParityWithin(sh: Shape, s: FecSystem.Net, b: nat, a: nat, max: nat)
    requires sh.Valid() && IsErasureCode(sh.codec, sh.d, sh.p) && WellSent(sh, s.log)
    requires FecSystem.CarriesWrites(s.log, s.writes) && forall w :: w in s.writes ==> |w| <= max
    requires b % sh.N() == 0 && b + sh.d <= a < b + sh.N() && a < |s.log|
    ensures |s.log[a].payload| <= 2 + max
  {
    hide WellSent, FecSystem.CarriesWrites, IsErasureCode, MaxLen;
    FecRecovery.ShardOfCodeword(sh, s.log, b, a);
    var xs := GroupData(sh, s.log, b);
    forall i | 0 <= i < |xs| ensures |xs[i]| <= 2 + max {
      ShardKind(sh, s.log, b, b + i);
      DataWithin(s, b + i, max);
    }
    MaxLenAtMost(xs, 2 + max);
  }

  lemma DataWithin(s: FecSystem.Net, a: nat, max: nat)
    requires FecSystem.CarriesWrites(s.log, s.writes) && a < |s.log| && s.log[a].flag == TYPE_DATA
    requires forall w :: w in s.writes ==> |w| <= max
    ensures |s.log[a].payload| <= 2 + max
  {
    assert FecSystem.IsWrite(s.log[a].payload, s.writes);
  }

  lemma {:induction false} MaxLenAtMost(xs: seq<seq<byte>>, max: nat)
    requires forall i :: 0 <= i < |xs| ==> |xs[i]| <= max
    ensures MaxLen(xs) <= max
  {
    if xs != [] { MaxLenAtMost(xs[1..], max); }
  }
}
