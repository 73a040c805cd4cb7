/** The snappy framing layer: buffered encoding on one side, incremental chunk decoding on the other. */
module Snappy {
  import opened Bytes
  import Crc

  const MAX_BLOCK: nat := 65536
  const MAX_CHUNK: nat := 65540
  const MAGIC_BODY: seq<byte> := [0x73, 0x4e, 0x61, 0x50, 0x70, 0x59]
  const MAGIC: seq<byte> := [0xff, 0x06, 0x00, 0x00] + MAGIC_BODY

  /** The block compressor, of which only this is taken: what it compressed it can decompress. */
  datatype Snap = Snap(compress: seq<byte> -> Option<seq<byte>>, decompress: seq<byte> -> Option<seq<byte>>)

  ghost predicate Lossless(z: Snap) {
    forall x :: z.compress(x).Some? ==> z.decompress(z.compress(x).value) == Some(x)
  }

  // ------------------------------------------------------------------
  // One chunk
  // ------------------------------------------------------------------

  /** Compressed only when that saves more than an eighth. */
  function Compressed(z: Snap, src: seq<byte>): Option<seq<byte>> {
    var c := z.compress(src);
    if c.Some? && |c.value| < |src| - |src| / 8 then c else None
  }

  function Le24(n: nat): seq<byte> { Le32(n)[..3] }

  function EncodeChunk(z: Snap, src: seq<byte>): seq<byte> {
    var c := Compressed(z, src);
    var body := if c.Some? then c.value else src;
    [if c.Some? then 0x00 else 0x01] + Le24(4 + |body|) + Le32(Crc.Masked(src)) + body
  }

  datatype Decoded = NeedMore | Bad | Chunk(plain: seq<byte>, saw: bool, consumed: nat)

  /** One turn of the decoding loop. */
  function DecodeOne(z: Snap, saw: bool, buf: seq<byte>): Decoded {
    if |buf| < 4 then NeedMore
    else
      var kind, len := buf[0], FromLe32(buf[1..4] + [0]);
      if kind <= 0x01 && len > MAX_CHUNK then Bad
      else if |buf| < 4 + len then NeedMore
      else DecodeBody(z, saw, kind, buf[4..4 + len])
  }

  function DecodeBody(z: Snap, saw: bool, kind: byte, body: seq<byte>): Decoded {
    var n := 4 + |body|;
    if kind == 0xff then
      if body != MAGIC_BODY then Bad else Chunk([], true, n)
    else if 0x02 <= kind <= 0x7f then Bad
    else if kind >= 0x80 then (if saw then Chunk([], saw, n) else Bad)
    else if |body| < 4 then Bad
    else
      var plain := if kind == 0x00 then z.decompress(body[4..]) else Some(body[4..]);
      if plain.None? || (kind == 0x00 && |plain.value| > MAX_BLOCK) then Bad
      else if Crc.Masked(plain.value) != FromLe32(body[..4]) then Bad
      else if !saw then Bad
      else Chunk(plain.value, saw, n)
  }

  lemma Le24RoundTrip(n: nat)
    requires n < 0x100_0000
    ensures |Le24(n)| == 3 && FromLe32(Le24(n) + [0]) == n
  {
    Le32RoundTrip(n);
    assert Le32(n)[3] == 0;
    assert Le24(n) + [0] == Le32(n);
  }

  lemma ChunkSlices(kind: seq<byte>, len: seq<byte>, sum: seq<byte>, body: seq<byte>, rest: seq<byte>)
    requires |kind| == 1 && |len| == 3 && |sum| == 4
    ensures var all := kind + len + sum + body + rest;
            && |all| >= 8 + |body| && all[0] == kind[0] && all[1..4] == len
            && all[4..4 + (4 + |body|)] == sum + body
            && (sum + body)[..4] == sum && (sum + body)[4..] == body
  {
    var front := kind + len;
    assert front[1..] == len && |front| == 4;
    assert kind + len + sum + body + rest == front + ((sum + body) + rest);
  }

  /** A chunk, whatever follows it, decodes to its source once the identifier has been seen. */
  lemma ChunkRoundTrip(z: Snap, src: seq<byte>, rest: seq<byte>)
    requires Lossless(z) && |src| <= MAX_BLOCK
    ensures 8 <= |EncodeChunk(z, src)| <= 8 + MAX_BLOCK
    ensures DecodeOne(z, true, EncodeChunk(z, src) + rest) == Chunk(src, true, |EncodeChunk(z, src)|)
  {
    hide Crc.Masked, Le24, Le32, FromLe32;
    var c := Compressed(z, src);
    var body := if c.Some? then c.value else src;
    var sum := Le32(Crc.Masked(src));
    var e := EncodeChunk(z, src);
    Le24RoundTrip(4 + |body|);
    Le32RoundTrip(Crc.Masked(src));
    ChunkSlices([if c.Some? then 0x00 else 0x01], Le24(4 + |body|), sum, body, rest);
  }

  /** Which byte of a chunk holds what, and when it is compressed: exactly when that saves more than an eighth. */
  lemma ChunkLayout(z: Snap, src: seq<byte>)
    requires |src| <= MAX_BLOCK
    ensures var e, c := EncodeChunk(z, src), z.compress(src);
            var small := c.Some? && |c.value| < |src| - |src| / 8;
            && |e| >= 8 && e[0] == (if small then 0x00 else 0x01)
            && e[1..4] == Le24(|e| - 4) && e[4..8] == Le32(Crc.Masked(src))
            && e[8..] == (if small then c.value else src)
  {
    hide Crc.Masked;
    var c := Compressed(z, src);
    var body := if c.Some? then c.value else src;
    var sum := Le32(Crc.Masked(src));
    Le24Length(4 + |body|);
    Le32Length(Crc.Masked(src));
    hide Le24, Le32;
    ChunkSlices([if c.Some? then 0x00 else 0x01], Le24(4 + |body|), sum, body, []);
    var e := EncodeChunk(z, src);
    assert e + [] == e;
    assert e[4..4 + (4 + |body|)] == sum + body;
    assert e[4..8] == (sum + body)[..4] && e[8..] == (sum + body)[4..];
  }

  lemma Le24Length(n: nat)
    ensures |Le24(n)| == 3
  {}

  lemma Le32Length(n: nat)
    ensures |Le32(n)| == 4
  {}

  /** Exactly which bodies are taken, kind by kind. A data chunk is taken if and only if the identifier has been seen and
      its first four bytes are the masked checksum of the block it holds, stored or compressed; anything else of kind 0
      to 0x7f is fatal, kinds from 0x80 are skipped once the identifier has been seen, and 0xff must be the identifier. */
  lemma BodyIsTakenIff(z: Snap, saw: bool, kind: byte, body: seq<byte>, plain: seq<byte>)
    ensures kind <= 1 ==>
              (DecodeBody(z, saw, kind, body) == Chunk(plain, saw, 4 + |body|) <==>
               && saw && |body| >= 4 && body[..4] == Le32(Crc.Masked(plain))
               && (if kind == 1 then body[4..] == plain
                   else z.decompress(body[4..]) == Some(plain) && |plain| <= MAX_BLOCK))
    ensures kind <= 1 && DecodeBody(z, saw, kind, body).Chunk? ==> DecodeBody(z, saw, kind, body).saw == saw
    ensures 2 <= kind <= 0x7f ==> DecodeBody(z, saw, kind, body) == Bad
    ensures 0x80 <= kind < 0xff ==> DecodeBody(z, saw, kind, body) == if saw then Chunk([], true, 4 + |body|) else Bad
    ensures kind == 0xff ==>
              DecodeBody(z, saw, kind, body) == if body == MAGIC_BODY then Chunk([], true, 4 + |body|) else Bad
  {
    hide Crc.Masked, Le32, FromLe32;
    Le32RoundTrip(Crc.Masked(plain));
    if |body| >= 4 { Le32Injective(body[..4]); }
  }

  /** When a buffer is waited on and when its front is refused for its length alone, before the rest has arrived. */
  lemma WaitsOrRefuses(z: Snap, saw: bool, buf: seq<byte>)
    requires |buf| >= 4
    ensures var len := (buf[1] as int) + 256 * (buf[2] as int) + 0x1_0000 * (buf[3] as int);
            && (buf[0] <= 1 && len > 65540 ==> DecodeOne(z, saw, buf) == Bad)
            && (!(buf[0] <= 1 && len > 65540) ==>
                  && (DecodeOne(z, saw, buf) == NeedMore <==> |buf| < 4 + len)
                  && (|buf| >= 4 + len ==> DecodeOne(z, saw, buf) == DecodeBody(z, saw, buf[0], buf[4..4 + len])))
  {
    var b := buf[1..4] + [0];
    assert b[..2] == [buf[1], buf[2]] && b[2..] == [buf[3], 0];
    assert FromLe32(b) == (buf[1] as int) + 256 * (buf[2] as int) + 0x1_0000 * (buf[3] as int);
    hide FromLe32, DecodeBody;
    if |buf| >= 4 + FromLe32(b) { BodyNeverWaits(z, saw, buf[0], buf[4..4 + FromLe32(b)]); }
  }

  lemma BodyNeverWaits(z: Snap, saw: bool, kind: byte, body: seq<byte>)
    ensures DecodeBody(z, saw, kind, body) != NeedMore
  {}

  lemma MagicBytes()
    ensures |MAGIC| == 10 && MAGIC[0] == 0xff && MAGIC[1] == 0x06 && MAGIC[2] == 0x00 && MAGIC[3] == 0x00
    ensures MAGIC[4..] == MAGIC_BODY
  {}

  lemma SixInLe32(b: seq<byte>)
    requires |b| == 4 && b[0] == 0x06 && b[1] == 0x00 && b[2] == 0x00 && b[3] == 0x00
    ensures FromLe32(b) == 6
  {}

  lemma MagicRoundTrip(z: Snap, saw: bool, rest: seq<byte>)
    ensures |MAGIC| == 10 && DecodeOne(z, saw, MAGIC + rest) == Chunk([], true, 10)
  {
    hide FromLe32;
    MagicBytes();
    var m := MAGIC;
    var buf := m + rest;
    SixInLe32(buf[1..4] + [0]);
    assert buf[4..10] == m[4..];
  }

  lemma DecodeIsIncremental(z: Snap, saw: bool, buf: seq<byte>, more: seq<byte>)
    requires DecodeOne(z, saw, buf) != NeedMore
    ensures DecodeOne(z, saw, buf + more) == DecodeOne(z, saw, buf)
    ensures DecodeOne(z, saw, buf).Chunk? ==> 4 <= DecodeOne(z, saw, buf).consumed <= |buf|
  {
    assert (buf + more)[1..4] == buf[1..4];
    var len: nat := FromLe32(buf[1..4] + [0]);
    if |buf| >= 4 + len { assert (buf + more)[4..4 + len] == buf[4..4 + len]; }
  }

  // ------------------------------------------------------------------
  // The decoding loop
  // ------------------------------------------------------------------

  /** Whole chunks are decoded off the front of `buf`; `ok` turns false at the first bad one. */
  datatype Loop = Loop(ok: bool, saw: bool, buf: seq<byte>, dec: seq<byte>)

  function DecodeAll(z: Snap, l: Loop): Loop
    decreases |l.buf|
  {
    match DecodeOne(z, l.saw, l.buf)
    case NeedMore => l
    case Bad => l.(ok := false)
    case Chunk(plain, saw, n) =>
      DecodeIsIncremental(z, l.saw, l.buf, []);
      DecodeAll(z, Loop(l.ok, saw, l.buf[n..], l.dec + plain))
  }

  // ------------------------------------------------------------------
  // The stream object
  // ------------------------------------------------------------------

  /** What a write appends to the encoded bytes. */
  function Appended(z: Snap, wroteMagic: bool, src: seq<byte>): seq<byte> {
    (if wroteMagic then [] else MAGIC) + EncodeChunk(z, src)
  }

  class SnappyStream {
    const z: Snap
    var out: seq<byte>
    var outPos: nat
    var inBuf: seq<byte>
    var dec: seq<byte>
    var decPos: nat
    var wroteMagic: bool
    var sawMagic: bool
    var readEof: bool
    var wire: seq<byte>        // every byte the transport has taken

    predicate Valid()
      reads this
    {
      outPos <= |out| && decPos <= |dec|
    }

    function Undrained(): seq<byte>
      requires Valid()
      reads this
    {
      out[outPos..]
    }

    constructor (z: Snap)
      ensures Valid() && this.z == z && Undrained() == [] && !wroteMagic && !sawMagic && wire == [] && inBuf == [] && dec == []
      ensures !readEof
    {
      this.z := z;
      out, outPos, inBuf, dec, decPos, wroteMagic, sawMagic, wire := [], 0, [], [], 0, false, false, [];
      readEof := false;
    }

    /** The transport takes up to `accept` bytes before it is full; how they are split does not matter. */
    method PollDrain(accept: nat) returns (ready: bool)
      requires Valid()
      modifies this`out, this`outPos, this`wire
      ensures Valid()
      ensures Moved(old(Undrained()), old(wire), Undrained(), wire, Min(accept, |old(Undrained())|))
      ensures ready <==> Undrained() == []
      ensures out == if ready then [] else old(out)
    {
      hide Moved;
      var left := accept;
      ghost var before, taken := Undrained(), wire;
      MovedNone(before, taken);
      while outPos < |out| && left > 0
        invariant Valid() && left >= 0
        invariant out == old(out) && old(outPos) <= outPos && left + (outPos - old(outPos)) == accept
        invariant Moved(before, taken, Undrained(), wire, outPos - old(outPos))
        decreases |out| - outPos
      {
        var n :| 1 <= n <= left && n <= |out| - outPos;
        MovedMore(before, taken, Undrained(), wire, outPos - old(outPos), n);
        assert out[outPos..][..n] == out[outPos..outPos + n] && out[outPos..][n..] == out[outPos + n..];
        wire := wire + out[outPos..outPos + n];
        outPos := outPos + n;
        left := left - n;
      }
      assert outPos - old(outPos) == Min(accept, |before|);
      if outPos < |out| {
        return false;
      }
      out, outPos := [], 0;
      return true;
    }

    /** Accepts at most one block, or nothing while too much is still undrained. */
    method PollWrite(buf: seq<byte>, accept: nat, acceptAfter: nat) returns (r: Option<nat>)
      requires Valid()
      modifies this`out, this`outPos, this`wire, this`wroteMagic
      ensures Valid()
      ensures buf == [] ==> r == Some(0) && wire == old(wire) && Undrained() == old(Undrained())
      ensures r == None <==> buf != [] && |old(Undrained())| - Min(accept, |old(Undrained())|) > 4 * MAX_BLOCK
      ensures r == None ==> wire + Undrained() == old(wire) + old(Undrained()) && wroteMagic == old(wroteMagic)
      ensures r.Some? && buf != [] ==>
                && r.value == Min(|buf|, MAX_BLOCK)
                && wire + Undrained() == old(wire) + old(Undrained()) + Appended(z, old(wroteMagic), buf[..r.value])
                && wroteMagic
                && |Undrained()| <= 4 * MAX_BLOCK + |Appended(z, old(wroteMagic), buf[..r.value])|
    {
      hide Appended, Moved;
      if buf == [] {
        return Some(0);
      }
      ghost var kept, taken := Undrained(), wire;
      var _ := PollDrain(accept);
      MovedTotal(kept, taken, Undrained(), wire, Min(accept, |kept|));
      if |out| - outPos > 4 * MAX_BLOCK {
        return None;
      }
      var n := Min(|buf|, MAX_BLOCK);
      ghost var more := Appended(z, wroteMagic, buf[..n]);
      ConcatAssoc(wire, Undrained(), more);
      AppendBlock(buf[..n]);
      ghost var kept', taken' := Undrained(), wire;
      var _ := PollDrain(acceptAfter);
      MovedTotal(kept', taken', Undrained(), wire, Min(acceptAfter, |kept'|));
      return Some(n);
    }

    /** The stream identifier if it is still owed, then one chunk. */
    method AppendBlock(src: seq<byte>)
      requires Valid()
      modifies this`out, this`wroteMagic
      ensures Valid() && wroteMagic && Undrained() == old(Undrained()) + Appended(z, old(wroteMagic), src)
    {
      hide EncodeChunk;
      ghost var rest := Undrained();
      if !wroteMagic {
        out := out + MAGIC;
        wroteMagic := true;
      }
      assert Undrained() == rest + (if old(wroteMagic) then [] else MAGIC);
      out := out + EncodeChunk(z, src);
    }

    /** The decoding loop, proved against its recursive form. */
    method DecodeChunks() returns (ok: bool)
      modifies this`inBuf, this`dec, this`sawMagic
      ensures Loop(ok, sawMagic, inBuf, dec) == DecodeAll(z, Loop(true, old(sawMagic), old(inBuf), old(dec)))
    {
      ghost var start := Loop(true, sawMagic, inBuf, dec);
      while true
        invariant DecodeAll(z, start) == DecodeAll(z, Loop(true, sawMagic, inBuf, dec))
        decreases |inBuf|
      {
        var d := DecodeOne(z, sawMagic, inBuf);
        if d == NeedMore {
          return true;
        }
        if d == Bad {
          return false;
        }
        DecodeIsIncremental(z, sawMagic, inBuf, []);
        sawMagic, inBuf, dec := d.saw, inBuf[d.consumed..], dec + d.plain;
      }
      ok := true;
    }

    /** The transport's answer to a read: no bytes end the stream for good, and cleanly whatever is buffered; others
        are decoded as far as they go. */
    method Absorb(chunk: seq<byte>) returns (ok: bool)
      requires !readEof
      modifies this`inBuf, this`dec, this`sawMagic, this`readEof
      ensures readEof <==> chunk == []
      ensures chunk == [] ==> ok && inBuf == old(inBuf) && dec == old(dec) && sawMagic == old(sawMagic)
      ensures chunk != [] ==>
                Loop(ok, sawMagic, inBuf, dec) == DecodeAll(z, Loop(true, old(sawMagic), old(inBuf) + chunk, old(dec)))
    {
      if chunk == [] {
        readEof := true;
        return true;
      }
      inBuf := inBuf + chunk;
      ok := DecodeChunks();
    }

    /** Hands over the longest prefix of the decoded bytes that fits. */
    method Deliver(cap: nat) returns (bytes: seq<byte>)
      requires Valid()
      modifies this`dec, this`decPos
      ensures Valid()
      ensures var left := old(dec[decPos..]);
              bytes == left[..Min(cap, |left|)] && dec[decPos..] == left[|bytes|..]
    {
      var n := Min(cap, |dec| - decPos);
      bytes := dec[decPos..decPos + n];
      decPos := decPos + n;
      if decPos == |dec| {
        dec, decPos := [], 0;
      }
    }
  }

  // ------------------------------------------------------------------
  // Whole runs of a writer and a reader
  // ------------------------------------------------------------------

  /** What the encoded bytes consist of. */
  datatype Item = Magic | Block(src: seq<byte>)

  function ItemBytes(z: Snap, it: Item): seq<byte> {
    match it
    case Magic => MAGIC
    case Block(src) => EncodeChunk(z, src)
  }

  function EncodeItems(z: Snap, items: seq<Item>): seq<byte> {
    if items == [] then [] else ItemBytes(z, items[0]) + EncodeItems(z, items[1..])
  }

  function OwnContent(it: Item): seq<byte> { if it.Block? then it.src else [] }

  function Content(items: seq<Item>): seq<byte> {
    if items == [] then [] else OwnContent(items[0]) + Content(items[1..])
  }

  lemma {:induction false} EncodeAppend(z: Snap, a: seq<Item>, b: seq<Item>)
    ensures EncodeItems(z, a + b) == EncodeItems(z, a) + EncodeItems(z, b)
  {
    hide ItemBytes;
    if a == [] {
      assert a + b == b;
    } else {
      EncodeAppend(z, a[1..], b);
      assert (a + b)[1..] == a[1..] + b;
      ConcatAssoc(ItemBytes(z, a[0]), EncodeItems(z, a[1..]), EncodeItems(z, b));
    }
  }

  lemma {:induction false} ContentAppend(a: seq<Item>, b: seq<Item>)
    ensures Content(a + b) == Content(a) + Content(b)
  {
    hide OwnContent;
    if a == [] {
      assert a + b == b;
    } else {
      ContentAppend(a[1..], b);
      assert (a + b)[1..] == a[1..] + b;
      ConcatAssoc(OwnContent(a[0]), Content(a[1..]), Content(b));
    }
  }

  /** The items a write adds stand for the bytes it appends. */
  function NewItems(wrote: bool, block: seq<byte>): seq<Item> {
    (if wrote then [] else [Magic]) + [Block(block)]
  }

  lemma NewItemsAre(z: Snap, wrote: bool, block: seq<byte>)
    ensures EncodeItems(z, NewItems(wrote, block)) == Appended(z, wrote, block)
    ensures Content(NewItems(wrote, block)) == block
  {
    hide EncodeChunk;
    var last := [Block(block)];
    assert last[1..] == [] && EncodeItems(z, last) == EncodeChunk(z, block) && Content(last) == block;
    if !wrote { assert NewItems(wrote, block)[1..] == last; }
  }

  /** `out` is undrained, `wire` in transit, `buf` and `dec` the reader's; `items` names what out, wire and buf hold.
      `magics` counts the stream identifiers ever written; `kept` counts the drained bytes still at the front of the
      buffer, which is only cleared once nothing is undrained. */
  datatype State = State(
    out: seq<byte>, wrote: bool, wire: seq<byte>,
    buf: seq<byte>, dec: seq<byte>, saw: bool, failed: bool, ended: bool,
    items: seq<Item>, magics: nat, accepted: seq<byte>, delivered: seq<byte>,
    kept: nat)

  const START := State([], false, [], [], [], false, false, false, [], 0, [], [], 0)

  datatype Action =
    | Drain(n: nat)              // any drain, by a write or a flush
    | Write(src: seq<byte>)
    | Arrive(n: nat)             // the reader reads from the transport and decodes
    | Read(cap: nat)
    | End                        // the reader finds the transport ended, and reports a clean end

  function Step(z: Snap, s: State, a: Action): State {
    match a
    case Drain(n) =>
      if n > |s.out| then s
      else s.(out := s.out[n..], wire := s.wire + s.out[..n], kept := if n == |s.out| then 0 else s.kept + n)
    case Write(src) =>
      if src == [] || |s.out| > 4 * MAX_BLOCK then s
      else
        var block := src[..Min(|src|, MAX_BLOCK)];
        s.(out := s.out + Appended(z, s.wrote, block), wrote := true,
           items := s.items + NewItems(s.wrote, block),
           magics := s.magics + (if s.wrote then 0 else 1),
           accepted := s.accepted + block)
    case Arrive(n) =>
      if n > |s.wire| || s.dec != [] || s.failed || s.ended then s
      else
        var l := DecodeAll(z, Loop(true, s.saw, s.buf + s.wire[..n], s.dec));
        s.(wire := s.wire[n..], buf := l.buf, dec := l.dec, saw := l.saw, failed := !l.ok,
           items := Leftover(z, s.saw, s.items, s.buf + s.wire[..n]))
    case Read(cap) =>
      var k := Min(cap, |s.dec|);
      s.(dec := s.dec[k..], delivered := s.delivered + s.dec[..k])
    case End => if s.wire != [] || s.dec != [] || s.failed then s else s.(ended := true)
  }

  /** The items that remain after the loop has decoded what it can of `buf`. */
  function Leftover(z: Snap, saw: bool, items: seq<Item>, buf: seq<byte>): seq<Item>
    decreases |buf|
  {
    match DecodeOne(z, saw, buf)
    case Chunk(_, saw', n) =>
      DecodeIsIncremental(z, saw, buf, []);
      if items == [] then [] else Leftover(z, saw', items[1..], buf[n..])
    case _ => items
  }

  function Run(z: Snap, s: State, acts: seq<Action>): State
    decreases |acts|
  {
    if acts == [] then s else Run(z, Step(z, s, acts[0]), acts[1..])
  }

  /** A well-formed rest of a stream: blocks only, after the identifier if it has not been seen. */
  predicate WellFormed(saw: bool, items: seq<Item>) {
    forall i :: 0 <= i < |items| ==>
      if i == 0 && !saw then items[i].Magic? else items[i].Block? && |items[i].src| <= MAX_BLOCK
  }

  ghost predicate Inv(z: Snap, s: State) {
    && !s.failed
    && s.buf + s.wire + s.out == EncodeItems(z, s.items)
    && s.delivered + s.dec + Content(s.items) == s.accepted
    && WellFormed(s.saw, s.items)
    && (s.wrote ==> s.saw || s.items != []) && (!s.wrote ==> !s.saw && s.items == [] && s.accepted == [])
    && s.magics == (if s.wrote then 1 else 0)
    && |s.out| <= 5 * MAX_BLOCK + 18
    && DecodeOne(z, s.saw, s.buf) == NeedMore
    && (s.ended ==> s.dec == [])
  }

  lemma ShortBufferWaits(z: Snap, saw: bool, buf: seq<byte>)
    requires |buf| < 4
    ensures DecodeOne(z, saw, buf) == NeedMore
  {}

  /** The first item decodes off any buffer that holds it whole, and is waited for by any that does not. */
  lemma FrontItem(z: Snap, saw: bool, items: seq<Item>, buf: seq<byte>, future: seq<byte>)
    requires Lossless(z) && WellFormed(saw, items) && buf + future == EncodeItems(z, items)
    ensures DecodeOne(z, saw, buf) != Bad
    ensures DecodeOne(z, saw, buf).Chunk? ==>
              && items != []
              && DecodeOne(z, saw, buf) == Chunk(if items[0].Block? then items[0].src else [], true,
                                                 |ItemBytes(z, items[0])|)
              && buf[DecodeOne(z, saw, buf).consumed..] + future == EncodeItems(z, items[1..])
              && DecodeOne(z, saw, buf).consumed <= |buf|
  {
    hide DecodeOne, EncodeChunk;
    if items == [] {
      assert |buf| == 0;
      ShortBufferWaits(z, saw, buf);
    } else if DecodeOne(z, saw, buf) != NeedMore {
      DecodeIsIncremental(z, saw, buf, future);
      var head, rest := ItemBytes(z, items[0]), EncodeItems(z, items[1..]);
      assert buf + future == head + rest;
      if items[0].Magic? { MagicRoundTrip(z, saw, rest); } else { ChunkRoundTrip(z, items[0].src, rest); }
      assert (head + rest)[|head|..] == rest;
      assert (buf + future)[|head|..] == buf[|head|..] + future;
    }
  }

  /** Decoding any front of a well-formed stream loses nothing and never fails. */
  lemma {:induction false} DecodeKeeps(z: Snap, l: Loop, items: seq<Item>, future: seq<byte>)
    requires Lossless(z) && WellFormed(l.saw, items) && l.buf + future == EncodeItems(z, items) && l.ok
    ensures var l', left := DecodeAll(z, l), Leftover(z, l.saw, items, l.buf);
            && l'.ok
            && l'.buf + future == EncodeItems(z, left)
            && l'.dec + Content(left) == l.dec + Content(items)
            && WellFormed(l'.saw, left)
            && DecodeOne(z, l'.saw, l'.buf) == NeedMore
            && (l'.saw || left == items) && (l.saw ==> l'.saw) && (items == [] ==> l'.saw == l.saw && left == [])
    decreases |l.buf|
  {
    hide DecodeOne, ItemBytes, Lossless, WellFormed, EncodeItems;
    FrontItem(z, l.saw, items, l.buf, future);
    match DecodeOne(z, l.saw, l.buf)
    case Chunk(plain, saw, n) =>
      DecodeIsIncremental(z, l.saw, l.buf, []);
      var next := Loop(l.ok, saw, l.buf[n..], l.dec + plain);
      WellFormedTail(l.saw, items);
      DecodeKeeps(z, next, items[1..], future);
      ConcatAssoc(l.dec, plain, Content(items[1..]));
    case _ =>
  }

  lemma WellFormedTail(saw: bool, items: seq<Item>)
    requires WellFormed(saw, items) && items != []
    ensures WellFormed(true, items[1..])
  {}

  lemma NewItemsFit(saw: bool, items: seq<Item>, wrote: bool, block: seq<byte>)
    requires WellFormed(saw, items) && |block| <= MAX_BLOCK
    requires if wrote then saw || items != [] else !saw && items == []
    ensures WellFormed(saw, items + NewItems(wrote, block))
  {}

  lemma AppendedBound(z: Snap, wrote: bool, block: seq<byte>)
    requires Lossless(z) && |block| <= MAX_BLOCK
    ensures |Appended(z, wrote, block)| <= MAX_BLOCK + 18
  {
    ChunkRoundTrip(z, block, []);
  }

  lemma WriteKeeps(z: Snap, s: State, src: seq<byte>)
    requires Lossless(z) && Inv(z, s)
    ensures Inv(z, Step(z, s, Write(src)))
  {
    hide EncodeItems, Content, Appended, NewItems, WellFormed, Lossless, DecodeOne;
    if src != [] && |s.out| <= 4 * MAX_BLOCK {
      var block := src[..Min(|src|, MAX_BLOCK)];
      var more := NewItems(s.wrote, block);
      var s' := Step(z, s, Write(src));
      AppendedBound(z, s.wrote, block);
      NewItemsFit(s.saw, s.items, s.wrote, block);
      NewItemsAre(z, s.wrote, block);
      EncodeAppend(z, s.items, more);
      ContentAppend(s.items, more);
      assert s'.buf + s'.wire + s'.out == EncodeItems(z, s.items) + EncodeItems(z, more);
      assert s'.delivered + s'.dec + Content(s'.items) == s.accepted + block;
      assert |more| > 0 by { NewItemsCount(s.wrote, block); }
    }
  }

  lemma NewItemsCount(wrote: bool, block: seq<byte>)
    ensures |NewItems(wrote, block)| > 0
  {}

  lemma ArriveKeeps(z: Snap, s: State, n: nat)
    requires Lossless(z) && Inv(z, s) && n <= |s.wire| && s.dec == [] && !s.ended
    ensures Inv(z, Step(z, s, Arrive(n)))
  {
    hide DecodeAll, Leftover, EncodeItems, Content, Lossless, DecodeOne;
    var l := Loop(true, s.saw, s.buf + s.wire[..n], s.dec);
    var future := s.wire[n..] + s.out;
    assert l.buf + future == s.buf + s.wire + s.out;
    DecodeKeeps(z, l, s.items, future);
    var s' := Step(z, s, Arrive(n));
    assert s'.buf + s'.wire + s'.out == s'.buf + future;
    assert s'.delivered + s'.dec + Content(s'.items) == s.delivered + (s.dec + Content(s.items));
  }

  lemma StepKeeps(z: Snap, s: State, a: Action)
    requires Lossless(z) && Inv(z, s)
    ensures Inv(z, Step(z, s, a))
  {
    hide DecodeAll, Leftover, EncodeItems, Content, Appended, Lossless, DecodeOne;
    match a
    case Drain(n) =>
      if n <= |s.out| { assert s.buf + (s.wire + s.out[..n]) + s.out[n..] == s.buf + s.wire + s.out; }
    case Write(src) => WriteKeeps(z, s, src);
    case End =>
    case Arrive(n) => if n <= |s.wire| && s.dec == [] && !s.ended { ArriveKeeps(z, s, n); }
    case Read(cap) =>
      var k := Min(cap, |s.dec|);
      assert (s.delivered + s.dec[..k]) + s.dec[k..] == s.delivered + s.dec;
  }

  lemma {:induction false} RunKeeps(z: Snap, s: State, acts: seq<Action>)
    requires Lossless(z) && Inv(z, s)
    ensures Inv(z, Run(z, s, acts))
    decreases |acts|
  {
    hide Step, Inv;
    if acts != [] {
      StepKeeps(z, s, acts[0]);
      RunKeeps(z, Step(z, s, acts[0]), acts[1..]);
    }
  }

  /** For any writes, partial drains and fragmentation: no error, nothing lost or reordered, everything delivered
      once the pipeline is empty, one stream identifier at most, and bounded buffering. */
  lemma StreamRoundTrip(z: Snap, acts: seq<Action>)
    requires Lossless(z)
    ensures var s := Run(z, START, acts);
            && !s.failed
            && s.delivered + s.dec <= s.accepted
            && (s.buf + s.wire + s.out == [] ==> s.delivered + s.dec == s.accepted)
            && s.magics <= 1 && (s.accepted != [] ==> s.magics == 1)
            && |s.out| <= 5 * 65536 + 18
  {
    hide Run, EncodeChunk, DecodeOne;
    StartHolds(z);
    RunKeeps(z, START, acts);
    var s := Run(z, START, acts);
    if s.buf + s.wire + s.out == [] && s.items != [] {
      if s.items[0].Magic? { MagicRoundTrip(z, s.saw, []); } else { ChunkRoundTrip(z, s.items[0].src, []); }
    }
  }

  lemma StartHolds(z: Snap)
    ensures Inv(z, START)
  {
    hide DecodeOne;
    ShortBufferWaits(z, false, []);
  }

  // ------------------------------------------------------------------
  // The end of the transport
  // ------------------------------------------------------------------

  /** What the reader holds undecoded is a whole number of chunks, and what never arrived begins with a new one. */
  ghost predicate OnBoundary(z: Snap, s: State) {
    exists k :: 0 <= k <= |s.items| && s.buf == EncodeItems(z, s.items[..k]) && s.wire + s.out == EncodeItems(z, s.items[k..])
  }

  /** A buffer that holds a whole chunk is not waiting for more. */
  lemma WholeChunkDecodes(z: Snap, saw: bool, items: seq<Item>, k: nat)
    requires Lossless(z) && WellFormed(saw, items) && 0 < k <= |items|
    ensures DecodeOne(z, saw, EncodeItems(z, items[..k])).Chunk?
  {
    hide DecodeOne, EncodeChunk, Lossless;
    var front := items[..k];
    assert front[0] == items[0];
    var rest := EncodeItems(z, front[1..]);
    if items[0].Magic? {
      MagicRoundTrip(z, saw, rest);
    } else {
      ChunkRoundTrip(z, items[0].src, rest);
    }
  }

  lemma BoundaryIsEmpty(z: Snap, s: State)
    requires Lossless(z) && Inv(z, s) && OnBoundary(z, s)
    ensures s.buf == []
  {
    hide DecodeOne, EncodeChunk, Lossless;
    var k :| 0 <= k <= |s.items| && s.buf == EncodeItems(z, s.items[..k]);
    assert s.items[..0] == [];
    if k > 0 { WholeChunkDecodes(z, s.saw, s.items, k); }
  }

  /** Short of a boundary the reader holds a proper front of the next chunk. */
  lemma CutChunk(z: Snap, saw: bool, items: seq<Item>, buf: seq<byte>, future: seq<byte>)
    requires Lossless(z) && WellFormed(saw, items) && buf + future == EncodeItems(z, items)
    requires DecodeOne(z, saw, buf) == NeedMore && buf != []
    ensures items != [] && |buf| < |ItemBytes(z, items[0])| && buf == ItemBytes(z, items[0])[..|buf|]
  {
    hide DecodeOne, EncodeChunk, Lossless;
    var head, rest := ItemBytes(z, items[0]), EncodeItems(z, items[1..]);
    assert buf + future == head + rest;
    if |buf| >= |head| {
      var more := buf[|head|..];
      assert buf == head + more by {
        assert head == (head + rest)[..|head|] == (buf + future)[..|head|] == buf[..|head|];
      }
      if items[0].Magic? { MagicRoundTrip(z, saw, more); } else { ChunkRoundTrip(z, items[0].src, more); }
    } else {
      assert buf == (buf + future)[..|buf|] == (head + rest)[..|buf|] == head[..|buf|];
    }
  }

  /** In every reachable state the reader never fails, so every end it reports is a clean one. That end falls on a
      chunk boundary if and only if nothing is left undecoded; otherwise it cuts the next chunk short, and all the
      caller has is what came before that chunk. */
  lemma EndOfStream(z: Snap, acts: seq<Action>)
    requires Lossless(z)
    ensures var s := Run(z, START, acts);
            && !s.failed
            && (OnBoundary(z, s) <==> s.buf == [])
            && (s.buf != [] ==> s.items != [] && |s.buf| < |ItemBytes(z, s.items[0])|
                                && s.buf == ItemBytes(z, s.items[0])[..|s.buf|])
            && (s.ended ==> s.dec == [] && s.delivered + Content(s.items) == s.accepted)
  {
    hide Run, DecodeOne, Lossless;
    StartHolds(z);
    RunKeeps(z, START, acts);
    var s := Run(z, START, acts);
    var future := s.wire + s.out;
    assert s.buf + s.wire + s.out == s.buf + future;
    if s.buf == [] {
      assert s.items[..0] == [] && s.items[0..] == s.items && [] + future == future;
    } else {
      CutChunk(z, s.saw, s.items, s.buf, future);
    }
    if OnBoundary(z, s) { BoundaryIsEmpty(z, s); }
    if s.ended { assert s.delivered + s.dec == s.delivered; }
  }

  /** A transport that ends after one byte of a write: the reader reports a clean end and has delivered nothing. */
  lemma TruncationEndsClean(z: Snap, src: seq<byte>)
    requires Lossless(z) && src != []
    ensures var s := Run(z, START, [Write(src), Drain(1), Arrive(1), End]);
            s.ended && !s.failed && s.delivered == [] && s.accepted != [] && !OnBoundary(z, s)
  {
    hide DecodeOne, EncodeChunk, Lossless, OnBoundary;
    var acts := [Write(src), Drain(1), Arrive(1), End];
    var s1 := Step(z, START, Write(src));
    var s2 := Step(z, s1, Drain(1));
    var s3 := Step(z, s2, Arrive(1));
    var s4 := Step(z, s3, End);
    assert |s1.out| >= 10 by { assert |MAGIC| == 10; }
    assert |s2.wire| == 1 && s2.buf + s2.wire[..1] == s2.wire;
    ShortBufferWaits(z, false, s2.wire);
    assert s3.buf == s2.wire && s3.wire == [] && s3.dec == [] && !s3.failed;
    FourSteps(z, START, acts[0], acts[1], acts[2], acts[3]);
    assert s4 == Run(z, START, acts);
    EndOfStream(z, acts);
  }

  lemma FourSteps(z: Snap, s: State, a: Action, b: Action, c: Action, d: Action)
    ensures Run(z, s, [a, b, c, d]) == Step(z, Step(z, Step(z, Step(z, s, a), b), c), d)
  {
    hide Step;
    var s1 := Step(z, s, a);
    var s2 := Step(z, s1, b);
    var s3 := Step(z, s2, c);
    assert [a, b, c, d] == [a] + [b, c, d] && [b, c, d] == [b] + [c, d] && [c, d] == [c] + [d];
    assert Run(z, s3, [d]) == Run(z, Step(z, s3, d), []);
    assert Run(z, s2, [c, d]) == Run(z, s3, [d]);
    assert Run(z, s1, [b, c, d]) == Run(z, s2, [c, d]);
  }

  // ------------------------------------------------------------------
  // The size of the encoding buffer
  // ------------------------------------------------------------------

  /** The whole buffer, drained front included. */
  function BufferSize(s: State): nat { s.kept + |s.out| }

  /** The bytes appended since nothing was last undrained, read off the writes of a run alone. */
  function Unemptied(z: Snap, s: State, acts: seq<Action>, n: nat): nat
    decreases |acts|
  {
    if acts == [] then n
    else
      var s' := Step(z, s, acts[0]);
      Unemptied(z, s', acts[1..], if s'.out == [] then 0 else if acts[0].Write? then n + |s'.out| - |s.out| else n)
  }

  lemma StepSize(z: Snap, s: State, a: Action)
    requires s.out == [] ==> s.kept == 0
    ensures var s' := Step(z, s, a);
            && (s'.out == [] ==> s'.kept == 0)
            && |s'.out| >= (if a.Write? then |s.out| else 0)
            && BufferSize(s') == if s'.out == [] then 0
                                 else if a.Write? then BufferSize(s) + |s'.out| - |s.out|
                                 else BufferSize(s)
  {
    hide Appended, DecodeAll, Leftover;
    if a.Write? { AppendedSome(z, s.wrote, a.src[..Min(|a.src|, MAX_BLOCK)]); }
  }

  lemma AppendedSome(z: Snap, wrote: bool, block: seq<byte>)
    ensures |Appended(z, wrote, block)| >= 4
  {
    var c := Compressed(z, block);
    var body := if c.Some? then c.value else block;
    Le32Length(4 + |body|);
    Le32Length(Crc.Masked(block));
  }

  /** The buffer holds exactly what was appended since it was last empty, so it stays within a bound exactly as long as
      no more than that is appended between two moments at which nothing is undrained. */
  lemma {:induction false} BufferIsUnemptied(z: Snap, s: State, acts: seq<Action>)
    requires s.out == [] ==> s.kept == 0
    ensures BufferSize(Run(z, s, acts)) == Unemptied(z, s, acts, BufferSize(s))
    decreases |acts|
  {
    hide Step, BufferSize;
    if acts != [] {
      StepSize(z, s, acts[0]);
      BufferIsUnemptied(z, Step(z, s, acts[0]), acts[1..]);
    }
  }

  /** One more byte written, and all but one byte drained. */
  lemma GrowOnce(z: Snap, s: State)
    requires |s.out| <= 1 && (s.out == [] ==> s.kept == 0)
    ensures var s1 := Step(z, s, Write([0]));
            |s1.out| >= 1 && var s2 := Step(z, s1, Drain(|s1.out| - 1));
            |s2.out| == 1 && BufferSize(s2) > BufferSize(s) && s2.accepted == s.accepted + [0]
  {
    hide Appended;
    AppendedSome(z, s.wrote, [0]);
    assert [0][..1] == [0];
  }

  lemma TwoThen(z: Snap, s: State, a: Action, b: Action, more: seq<Action>)
    ensures Run(z, s, [a, b] + more) == Run(z, Step(z, Step(z, s, a), b), more)
  {
    hide Step;
    assert ([a, b] + more)[1..] == [b] + more && ([b] + more)[1..] == more;
  }

  /** k one-byte writes, each followed by a drain. */
  predicate WritesAndDrains(acts: seq<Action>, k: nat) {
    if k == 0 then acts == []
    else |acts| >= 2 && acts[0] == Write([0]) && acts[1].Drain? && WritesAndDrains(acts[2..], k - 1)
  }

  /** The bound on the undrained bytes is no bound on the buffer: for every size there is a run of one-byte writes that
      are all accepted, each followed by a drain that leaves one byte, after which the buffer is larger. */
  lemma BufferGrows(z: Snap, s: State, size: nat) returns (acts: seq<Action>, k: nat)
    requires |s.out| <= 1 && (s.out == [] ==> s.kept == 0)
    ensures BufferSize(Run(z, s, acts)) > size && |Run(z, s, acts).out| <= 1
    ensures WritesAndDrains(acts, k) && |Run(z, s, acts).accepted| == |s.accepted| + k
    decreases size + 1 - BufferSize(s)
  {
    if BufferSize(s) > size {
      acts, k := [], 0;
    } else {
      hide Step, Run;
      GrowOnce(z, s);
      var s1 := Step(z, s, Write([0]));
      var a := Drain(|s1.out| - 1);
      var more;
      more, k := BufferGrows(z, Step(z, s1, a), size);
      acts, k := [Write([0]), a] + more, k + 1;
      TwoThen(z, s, Write([0]), a, more);
      assert acts[2..] == more;
    }
  }

  // ------------------------------------------------------------------
  // Nothing gets stuck
  // ------------------------------------------------------------------

  lemma ReadAll(z: Snap, s: State)
    requires Lossless(z) && Inv(z, s)
    ensures var t := Step(z, s, Read(|s.dec|));
            Inv(z, t) && t == s.(dec := [], delivered := s.delivered + s.dec)
  {
    hide Inv;
    StepKeeps(z, s, Read(|s.dec|));
    assert s.dec[|s.dec|..] == [] && s.dec[..|s.dec|] == s.dec;
  }

  lemma DrainAll(z: Snap, s: State)
    requires Lossless(z) && Inv(z, s)
    ensures var t := Step(z, s, Drain(|s.out|));
            Inv(z, t) && t == s.(out := [], wire := s.wire + s.out, kept := 0)
  {
    hide Inv;
    StepKeeps(z, s, Drain(|s.out|));
    assert s.out[|s.out|..] == [] && s.out[..|s.out|] == s.out;
  }

  /** Once all of it has arrived, nothing is left undecoded. */
  lemma ArriveAll(z: Snap, s: State)
    requires Lossless(z) && Inv(z, s) && s.out == [] && s.dec == [] && !s.ended
    ensures var t := Step(z, s, Arrive(|s.wire|));
            && Inv(z, t) && t.out == [] && t.wire == [] && t.accepted == s.accepted && t.delivered == s.delivered
            && t.items == [] && t.buf == []
  {
    hide DecodeOne, EncodeItems, Content, WellFormed, DecodeAll, Leftover, Lossless;
    StepKeeps(z, s, Arrive(|s.wire|));
    var t := Step(z, s, Arrive(|s.wire|));
    assert s.wire[|s.wire|..] == [];
    assert t.buf + t.wire + t.out == t.buf;
    assert t.items[..|t.items|] == t.items;
    if t.items != [] { WholeChunkDecodes(z, t.saw, t.items, |t.items|); }
    EncodeNothing(z);
  }

  lemma EncodeNothing(z: Snap)
    ensures EncodeItems(z, []) == []
  {}

  /** From every reachable state in which the end has not been reported: a full drain, one arrival of everything and reads
      deliver all that was written. */
  lemma StreamDrains(z: Snap, acts: seq<Action>)
    requires Lossless(z) && !Run(z, START, acts).ended
    ensures var s := Run(z, START, acts);
            var s1 := Step(z, Step(z, s, Drain(|s.out|)), Read(|s.dec|));
            var s2 := Step(z, s1, Arrive(|s1.wire|));
            var t := Step(z, s2, Read(|s2.dec|));
            t.delivered == t.accepted == s.accepted && t.buf + t.wire + t.out + t.dec == []
  {
    hide Run, Step, Lossless, Inv;
    StartHolds(z);
    RunKeeps(z, START, acts);
    var s := Run(z, START, acts);
    DrainAll(z, s);
    ReadAll(z, Step(z, s, Drain(|s.out|)));
    var s1 := Step(z, Step(z, s, Drain(|s.out|)), Read(|s.dec|));
    ArriveAll(z, s1);
    var s2 := Step(z, s1, Arrive(|s1.wire|));
    ReadAll(z, s2);
    AllDelivered(z, Step(z, s2, Read(|s2.dec|)));
  }

  lemma AllDelivered(z: Snap, s: State)
    requires Inv(z, s) && s.items == [] && s.dec == []
    ensures s.delivered == s.accepted
  {
    hide DecodeOne;
    assert s.delivered + [] + [] == s.delivered;
  }
}
