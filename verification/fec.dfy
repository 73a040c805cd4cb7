/** Forward error correction around the ARQ: the shard encoder and the windowed decoder. */
module Fec {
  import opened Bytes
  import opened Modular
  import opened FecCodec

  const TYPE_DATA: u16 := 0xf1
  const TYPE_PARITY: u16 := 0xf2

  /** A shard past its 6-byte header. A data shard's payload begins with its own 2-byte length. */
  datatype Shard = Shard(seqid: u32, flag: u16, payload: seq<byte>)

  datatype Shape = Shape(d: nat, p: nat, codec: Codec)
  {
    function N(): nat { d + p }

    /** What the constructors check; the library takes at most 256 shards. */
    predicate Valid() { d >= 1 && p >= 1 && d + p <= 256 }

    /** Sequence numbers wrap here, on a group boundary. */
    function Paws(): (m: nat)
      requires Valid()
      ensures m % N() == 0 && 0xffff_ff00 <= m <= 0xffff_ffff
    {
      LargestMultiple(N());
      0xffff_ffff / N() * N()
    }
  }

  // ------------------------------------------------------------------
  // Payloads
  // ------------------------------------------------------------------

  function Payload(segments: seq<byte>): seq<byte> { Le16((2 + |segments|) % 0x1_0000) + segments }

  function PayloadSegments(payload: seq<byte>): Option<seq<byte>> {
    if |payload| < 2 then None
    else
      var size := FromLe16(payload[..2]);
      if size < 2 || size > |payload| then None else Some(payload[2..size])
  }

  /** Which payloads yield segments: exactly those whose first two bytes count themselves and as many bytes as follow
      them at least; whatever lies behind is ignored. */
  lemma SegmentsIff(payload: seq<byte>, segments: seq<byte>)
    ensures PayloadSegments(payload) == Some(segments) <==>
            && 2 + |segments| <= |payload| && 2 + |segments| < 0x1_0000
            && payload[..2] == Le16(2 + |segments|) && payload[2..2 + |segments|] == segments
  {
    if |payload| >= 2 {
      Le16Injective(payload[..2]);
      hide Le16, FromLe16;
      if 2 + |segments| < 0x1_0000 { Le16RoundTrip(2 + |segments|); }
    }
  }

  function Pad(x: seq<byte>, len: nat): seq<byte> { if |x| >= len then x else x + Zeros(len - |x|) }

  /** A payload zero-padded to any length still yields exactly its segments, if its length field did not wrap. */
  lemma PaddedPayload(segments: seq<byte>, len: nat)
    requires 2 + |segments| < 0x1_0000
    ensures PayloadSegments(Pad(Payload(segments), len)) == Some(segments)
  {
    var q := Pad(Payload(segments), len);
    Le16RoundTrip(2 + |segments|);
    assert q[..2] == Le16(2 + |segments|);
    assert q[2..2 + |segments|] == segments;
  }

  // ------------------------------------------------------------------
  // Encoder
  // ------------------------------------------------------------------

  /** `cache` holds the payloads of the current group, `maxSize` the longest of them. */
  datatype Encoder = Encoder(next: u32, cache: seq<seq<byte>>, maxSize: nat)

  const FRESH := Encoder(0, [], 0)

  function PadAll(xs: seq<seq<byte>>, len: nat): seq<seq<byte>> {
    seq(|xs|, i requires 0 <= i < |xs| => Pad(xs[i], len))
  }

  function AfterData(sh: Shape, next: u32): u32
    requires sh.Valid()
  {
    var n := (next + 1) % 0x1_0000_0000;
    if n >= sh.Paws() then 0 else n
  }

  function AfterParity(sh: Shape, next: u32): u32
    requires sh.Valid()
  {
    (next + 1) % sh.Paws()
  }

  function Stamp(sh: Shape, next: u32, bodies: seq<seq<byte>>): (seq<Shard>, u32)
    requires sh.Valid()
    decreases |bodies|
  {
    if bodies == [] then ([], next)
    else
      var (rest, last) := Stamp(sh, AfterParity(sh, next), bodies[1..]);
      ([Shard(next, TYPE_PARITY, bodies[0])] + rest, last)
  }

  /** One write: its data shard, followed by the group's parity when it completes the group. */
  function EncodeStep(sh: Shape, e: Encoder, segments: seq<byte>): (Encoder, seq<Shard>)
    requires sh.Valid()
  {
    var pl := Payload(segments);
    var next, cache, max := AfterData(sh, e.next), e.cache + [pl], Max(e.maxSize, |pl|);
    if |cache| < sh.d then (Encoder(next, cache, max), [Shard(e.next, TYPE_DATA, pl)])
    else
      var (parity, last) := Stamp(sh, next, sh.codec.encode(PadAll(cache, max)));
      (Encoder(last, [], 0), [Shard(e.next, TYPE_DATA, pl)] + parity)
  }

  class FecEncoder {
    const sh: Shape
    const paws: nat
    var next: u32
    var cache: seq<seq<byte>>
    var maxSize: nat

    predicate Valid()
      reads this
    {
      sh.Valid() && paws == sh.Paws()
    }

    function View(): Encoder
      reads this
    {
      Encoder(next, cache, maxSize)
    }

    constructor (sh: Shape)
      requires sh.Valid()
      ensures Valid() && View() == FRESH && this.sh == sh
    {
      this.sh := sh;
      paws := sh.Paws();
      next, cache, maxSize := 0, [], 0;
    }

    /** Equal-sized shards over the protected region. */
    method PadGroup() returns (shards: seq<seq<byte>>)
      ensures shards == PadAll(cache, maxSize)
    {
      shards := [];
      for i := 0 to |cache|
        invariant shards == PadAll(cache[..i], maxSize)
      {
        shards := shards + [Pad(cache[i], maxSize)];
      }
      assert cache[..|cache|] == cache;
    }

    method StampParity(bodies: seq<seq<byte>>) returns (out: seq<Shard>)
      requires Valid()
      modifies this`next
      ensures (out, next) == Stamp(sh, old(next), bodies)
    {
      out := [];
      assert bodies[0..] == bodies;
      for i := 0 to |bodies|
        invariant out + Stamp(sh, next, bodies[i..]).0 == Stamp(sh, old(next), bodies).0
        invariant Stamp(sh, next, bodies[i..]).1 == Stamp(sh, old(next), bodies).1
      {
        assert bodies[i..][1..] == bodies[i + 1..];
        out := out + [Shard(next, TYPE_PARITY, bodies[i])];
        next := (next + 1) % paws;
      }
      assert bodies[|bodies|..] == [] && out + [] == out;
    }

    method Write(segments: seq<byte>) returns (out: seq<Shard>)
      requires Valid()
      modifies this
      ensures Valid()
      ensures (View(), out) == EncodeStep(sh, old(View()), segments)
    {
      var pl := Payload(segments);
      out := [Shard(next, TYPE_DATA, pl)];
      next := (next + 1) % 0x1_0000_0000;
      if next >= paws {
        next := 0;
      }
      maxSize := Max(maxSize, |pl|);
      cache := cache + [pl];
      if |cache| < sh.d {
        return;
      }
      var shards := PadGroup();
      var parity := StampParity(sh.codec.encode(shards));
      out := out + parity;
      cache, maxSize := [], 0;
    }
  }

  // ------------------------------------------------------------------
  // Decoder
  // ------------------------------------------------------------------

  /** Where a shard belongs in the window, scanning from the back; `None` if it is already there. */
  function Scan(rx: seq<Shard>, i: nat, seqid: u32): Option<nat>
    requires i <= |rx|
  {
    if i == 0 then Some(0)
    else if rx[i - 1].seqid == seqid then None
    else if SignedDiff(seqid, rx[i - 1].seqid) > 0 then Some(i)
    else Scan(rx, i - 1, seqid)
  }

  lemma {:induction false} ScanInRange(rx: seq<Shard>, i: nat, seqid: u32)
    requires i <= |rx|
    ensures Scan(rx, i, seqid).Some? ==> Scan(rx, i, seqid).value <= i
  {
    if i > 0 { ScanInRange(rx, i - 1, seqid); }
  }

  function InsertAt<T>(s: seq<T>, at: nat, x: T): seq<T>
    requires at <= |s|
  {
    s[..at] + [x] + s[at..]
  }

  /** The shards of one group, collected by index, with their counts. */
  datatype Group = Group(shards: seq<Option<seq<byte>>>, num: nat, data: nat, first: nat, maxLen: nat)

  function NoShards(n: nat): Group { Group(seq(n, _ => None), 0, 0, 0, 0) }

  function AddShard(g: Group, at: nat, s: Shard): Group
    requires |g.shards| > 0
  {
    Group(g.shards[s.seqid % |g.shards| := Some(s.payload)],
          g.num + 1,
          g.data + (if s.flag == TYPE_DATA then 1 else 0),
          if g.num == 0 then at else g.first,
          Max(g.maxLen, |s.payload|))
  }

  /** Collects rx[i..hi], skipping what precedes the group and stopping at the first shard beyond it. */
  function Gather(rx: seq<Shard>, i: nat, hi: nat, begin: u32, end: u32, g: Group): Group
    requires i <= hi <= |rx| && |g.shards| > 0
    decreases hi - i
  {
    if i == hi || SignedDiff(rx[i].seqid, end) > 0 then g
    else Gather(rx, i + 1, hi, begin, end, if SignedDiff(rx[i].seqid, begin) >= 0 then AddShard(g, i, rx[i]) else g)
  }

  function Free<T>(rx: seq<T>, first: nat, n: nat): seq<T> {
    var end := Min(first + n, |rx|);
    if first < end then rx[..first] + rx[end..] else rx
  }

  function PadShards(shards: seq<Option<seq<byte>>>, len: nat): seq<Option<seq<byte>>> {
    seq(|shards|, i requires 0 <= i < |shards| => if shards[i].Some? then Some(Pad(shards[i].value, len)) else None)
  }

  /** The rebuilt data shards that had not been received, in index order. */
  function MissingFrom(shards: seq<Option<seq<byte>>>, data: seq<seq<byte>>, i: nat): seq<seq<byte>>
    requires |data| <= |shards|
    decreases |data| - i
  {
    if i >= |data| then []
    else (if shards[i].None? then [data[i]] else []) + MissingFrom(shards, data, i + 1)
  }

  function Recovered(sh: Shape, g: Group): seq<seq<byte>>
    requires |g.shards| == sh.N()
  {
    var r := sh.codec.reconstruct(PadShards(g.shards, g.maxLen));
    if r.Some? && |r.value| == sh.d then MissingFrom(g.shards, r.value, 0) else []
  }

  /** Bound the window to three groups, then drop the `expired` oldest. */
  function Trim<T>(sh: Shape, rx: seq<T>, expired: nat): seq<T> {
    var bounded := if |rx| > 3 * sh.N() then Free(rx, 0, 1) else rx;
    Free(bounded, 0, expired)
  }

  function GroupBegin(n: nat, seqid: u32): u32
    requires n > 0
  {
    BlockStart(n, seqid);
    seqid - seqid % n
  }

  function GroupEnd(n: nat, seqid: u32): u32
    requires n > 0
  {
    (GroupBegin(n, seqid) + n - 1) % 0x1_0000_0000
  }

  /** The stretch of the window that can hold the group of the shard inserted at `at`. */
  function SearchBegin(at: nat, idx: nat): nat { if at < idx then 0 else at - idx }

  function SearchEnd(len: nat, n: nat, lo: nat): int { Min(lo + n - 1, len - 1) }

  lemma {:induction false} GatherLength(rx: seq<Shard>, i: nat, hi: nat, begin: u32, end: u32, g: Group)
    requires i <= hi <= |rx| && |g.shards| > 0
    ensures |Gather(rx, i, hi, begin, end, g).shards| == |g.shards|
    decreases hi - i
  {
    if i < hi && SignedDiff(rx[i].seqid, end) <= 0 {
      GatherLength(rx, i + 1, hi, begin, end, if SignedDiff(rx[i].seqid, begin) >= 0 then AddShard(g, i, rx[i]) else g);
    }
  }

  function GroupAround(sh: Shape, rx: seq<Shard>, at: nat, seqid: u32): (g: Group)
    requires sh.Valid() && at < |rx|
    ensures |g.shards| == sh.N()
  {
    var n := sh.N();
    var lo := SearchBegin(at, seqid % n);
    var hi := SearchEnd(|rx|, n, lo);
    if hi - lo + 1 >= sh.d then
      GatherLength(rx, lo, hi + 1, GroupBegin(n, seqid), GroupEnd(n, seqid), NoShards(n));
      Gather(rx, lo, hi + 1, GroupBegin(n, seqid), GroupEnd(n, seqid), NoShards(n))
    else NoShards(n)
  }

  /** A complete group is released, one with enough shards is rebuilt and released, any other waits. */
  function Conclude(sh: Shape, rx: seq<Shard>, g: Group, expired: nat): (seq<Shard>, seq<seq<byte>>)
    requires |g.shards| == sh.N()
  {
    if g.data == sh.d then (Trim(sh, Free(rx, g.first, g.num), expired), [])
    else if g.num >= sh.d then (Trim(sh, Free(rx, g.first, g.num), expired), Recovered(sh, g))
    else (Trim(sh, rx, expired), [])
  }

  function DecodeStep(sh: Shape, rx: seq<Shard>, s: Shard, expired: nat): (seq<Shard>, seq<seq<byte>>)
    requires sh.Valid()
  {
    ScanInRange(rx, |rx|, s.seqid);
    match Scan(rx, |rx|, s.seqid)
    case None => (rx, [])
    case Some(at) =>
      var rx1 := InsertAt(rx, at, s);
      Conclude(sh, rx1, GroupAround(sh, rx1, at, s.seqid), expired)
  }

  class FecDecoder {
    const sh: Shape
    var rx: seq<Shard>

    constructor (sh: Shape)
      requires sh.Valid()
      ensures this.sh == sh && rx == []
    {
      this.sh := sh;
      rx := [];
    }

    method FreeRange(first: nat, n: nat)
      modifies this`rx
      ensures rx == Free(old(rx), first, n)
    {
      var end := Min(first + n, |rx|);
      if first < end {
        rx := rx[..first] + rx[end..];
      }
    }

    /** The ordered insertion; `None` for a duplicate. */
    method InsertOrdered(s: Shard) returns (at: Option<nat>)
      modifies this`rx
      ensures at == Scan(old(rx), |old(rx)|, s.seqid)
      ensures at.Some? ==> at.value <= |old(rx)| && rx == InsertAt(old(rx), at.value, s)
      ensures at.None? ==> rx == old(rx)
    {
      var insertAt := 0;
      var i := |rx|;
      while i > 0
        invariant 0 <= i <= |rx| && insertAt == 0
        invariant Scan(rx, |rx|, s.seqid) == Scan(rx, i, s.seqid)
      {
        i := i - 1;
        if rx[i].seqid == s.seqid {
          return None;
        }
        if SignedDiff(s.seqid, rx[i].seqid) > 0 {
          insertAt := i + 1;
          break;
        }
      }
      assert Scan(rx, |rx|, s.seqid) == Some(insertAt) && insertAt <= |rx| by { ScanInRange(rx, |rx|, s.seqid); }
      rx := InsertAt(rx, insertAt, s);
      return Some(insertAt);
    }

    method Collect(lo: nat, hi: nat, begin: u32, end: u32) returns (g: Group)
      requires sh.Valid() && lo <= hi <= |rx|
      ensures g == Gather(rx, lo, hi, begin, end, NoShards(sh.N()))
    {
      g := NoShards(sh.N());
      var i := lo;
      while i < hi
        invariant lo <= i <= hi && |g.shards| == sh.N()
        invariant Gather(rx, lo, hi, begin, end, NoShards(sh.N())) == Gather(rx, i, hi, begin, end, g)
      {
        var s := rx[i];
        if SignedDiff(s.seqid, end) > 0 {
          break;
        }
        if SignedDiff(s.seqid, begin) >= 0 {
          g := AddShard(g, i, s);
        }
        i := i + 1;
      }
    }

    method Rebuild(g: Group) returns (recovered: seq<seq<byte>>)
      requires |g.shards| == sh.N()
      ensures recovered == Recovered(sh, g)
    {
      recovered := [];
      var r := sh.codec.reconstruct(PadShards(g.shards, g.maxLen));
      if r.Some? && |r.value| == sh.d {
        var i := 0;
        while i < sh.d
          invariant 0 <= i <= sh.d
          invariant recovered + MissingFrom(g.shards, r.value, i) == MissingFrom(g.shards, r.value, 0)
        {
          if g.shards[i].None? {
            recovered := recovered + [r.value[i]];
          }
          i := i + 1;
        }
      }
    }

    /** The group of the shard at place `at`, if its stretch of the window is long enough to matter. */
    method GroupNear(at: nat, seqid: u32) returns (g: Group)
      requires sh.Valid() && at < |rx|
      ensures g == GroupAround(sh, rx, at, seqid)
    {
      hide Gather;
      var n := sh.N();
      var lo := SearchBegin(at, seqid % n);
      var hi := SearchEnd(|rx|, n, lo);
      if hi - lo + 1 >= sh.d {
        g := Collect(lo, hi + 1, GroupBegin(n, seqid), GroupEnd(n, seqid));
      } else {
        g := NoShards(n);
      }
    }

    method Decode(s: Shard, expired: nat) returns (recovered: seq<seq<byte>>)
      requires sh.Valid()
      modifies this`rx
      ensures (rx, recovered) == DecodeStep(sh, old(rx), s, expired)
    {
      hide GroupAround, Scan, Recovered;
      var at := InsertOrdered(s);
      if at.None? {
        return [];
      }
      recovered := [];
      var g := GroupNear(at.value, s.seqid);
      if g.data == sh.d {
        FreeRange(g.first, g.num);
      } else if g.num >= sh.d {
        recovered := Rebuild(g);
        FreeRange(g.first, g.num);
      }
      if |rx| > 3 * sh.N() {
        FreeRange(0, 1);
      }
      FreeRange(0, expired);
    }
  }
}
