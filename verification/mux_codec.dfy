/** The smux v1 wire format: headers, whole frames, and the session reader's own inline parse. */
module MuxCodec {
  import opened Bytes

  const CMD_SYN: byte := 0
  const CMD_FIN: byte := 1
  const CMD_PSH: byte := 2
  const CMD_NOP: byte := 3
  const CMD_UPD: byte := 4
  const HEADER_SIZE: nat := 8
  const UPD_SIZE: nat := 8
  const MAX_FRAME_DATA: nat := 65535

  datatype Header = Header(version: byte, cmd: byte, length: u16, sid: u32)
  datatype Frame = Frame(version: byte, cmd: byte, sid: u32, data: seq<byte>)

  // ------------------------------------------------------------------
  // Headers
  // ------------------------------------------------------------------

  function EncodeHeader(h: Header): seq<byte> {
    [h.version, h.cmd] + Le16(h.length) + Le32(h.sid)
  }

  function DecodeHeader(b: seq<byte>): Header
    requires |b| == HEADER_SIZE
  {
    Header(b[0], b[1], FromLe16(b[2..4]), FromLe32(b[4..8]))
  }

  /** Encoding and decoding a header are inverse bijections on the eight-byte strings. */
  lemma HeaderRoundTrip(h: Header, b: seq<byte>)
    requires |b| == HEADER_SIZE
    ensures |EncodeHeader(h)| == HEADER_SIZE && DecodeHeader(EncodeHeader(h)) == h
    ensures EncodeHeader(DecodeHeader(b)) == b
  {
    Le16RoundTrip(h.length);
    Le32RoundTrip(h.sid);
    var e := EncodeHeader(h);
    var front := [h.version, h.cmd] + Le16(h.length);
    assert |front| == 4 && e == front + Le32(h.sid);
    assert e[2..4] == Le16(h.length);
    assert e[4..8] == Le32(h.sid);
    Le16Injective(b[2..4]);
    Le32Injective(b[4..8]);
    assert b == [b[0], b[1]] + b[2..4] + b[4..8];
  }

  /** Which byte holds which field, low bytes first. */
  lemma HeaderLayout(h: Header)
    ensures var e := EncodeHeader(h);
            && |e| == 8 && e[0] == h.version && e[1] == h.cmd
            && (e[2] as int) + 256 * (e[3] as int) == h.length
            && (e[4] as int) + 256 * (e[5] as int) + 0x1_0000 * (e[6] as int) + 0x100_0000 * (e[7] as int) == h.sid
  {
    HeaderRoundTrip(h, EncodeHeader(h));
    var e := EncodeHeader(h);
    assert e[4..8][..2] == [e[4], e[5]] && e[4..8][2..] == [e[6], e[7]];
    assert e[2..4] == [e[2], e[3]];
    hide EncodeHeader;
    assert FromLe16([e[2], e[3]]) == h.length;
    assert FromLe16([e[4], e[5]]) + 0x1_0000 * FromLe16([e[6], e[7]]) == h.sid;
  }

  // ------------------------------------------------------------------
  // Frames
  // ------------------------------------------------------------------

  /** The length field is a cast, so it wraps; `EncodeFrame` refuses what would wrap. */
  function HeaderOf(f: Frame): Header {
    Header(f.version, f.cmd, |f.data| % 0x1_0000, f.sid)
  }

  /** Header and payload. */
  function Encoded(f: Frame): seq<byte> { EncodeHeader(HeaderOf(f)) + f.data }

  predicate Fits(f: Frame) { |f.data| <= MAX_FRAME_DATA }

  function EncodeFrame(f: Frame): Option<seq<byte>> {
    if Fits(f) then Some(Encoded(f)) else None
  }

  datatype Decoded = NeedMore | BadCommand(cmd: byte) | Whole(frame: Frame, consumed: nat)

  predicate CarriesPayload(cmd: byte) { cmd == CMD_PSH || cmd == CMD_UPD }

  function DecodeFrame(buf: seq<byte>): Decoded {
    if |buf| < HEADER_SIZE then NeedMore
    else
      var h := DecodeHeader(buf[..HEADER_SIZE]);
      if h.cmd > CMD_UPD then BadCommand(h.cmd)
      else
        var want := if CarriesPayload(h.cmd) then h.length else 0;
        if |buf| < HEADER_SIZE + want then NeedMore
        else Whole(Frame(h.version, h.cmd, h.sid, buf[HEADER_SIZE..HEADER_SIZE + want]), HEADER_SIZE + want)
  }

  /** The frames the codec carries faithfully: a known command, with a payload only where the command has one. */
  predicate Faithful(f: Frame) {
    && f.cmd <= CMD_UPD
    && (CarriesPayload(f.cmd) || f.data == [])
  }

  /** Frames accepted by the encoder come back, whatever follows them, exactly when they are faithful. */
  lemma FrameRoundTrip(f: Frame, rest: seq<byte>)
    requires Fits(f)
    ensures var e := Encoded(f);
            EncodeFrame(f) == Some(e) && |e| == HEADER_SIZE + |f.data| && (DecodeFrame(e + rest) == Whole(f, |e|) <==> Faithful(f))
  {
    var e := Encoded(f);
    HeaderRoundTrip(HeaderOf(f), EncodeHeader(HeaderOf(f)));
    assert (e + rest)[..HEADER_SIZE] == EncodeHeader(HeaderOf(f));
    assert (e + rest)[HEADER_SIZE..HEADER_SIZE + |f.data|] == f.data;
  }

  /** A decoded frame depends only on the bytes it consumed, and no shorter input gives anything but "need more". */
  lemma DecodeIsIncremental(buf: seq<byte>, more: seq<byte>, k: nat)
    requires DecodeFrame(buf).Whole?
    ensures HEADER_SIZE <= DecodeFrame(buf).consumed <= |buf|
    ensures DecodeFrame(buf + more) == DecodeFrame(buf)
    ensures k < DecodeFrame(buf).consumed ==> DecodeFrame(buf[..k]) == NeedMore
  {
    assert (buf + more)[..HEADER_SIZE] == buf[..HEADER_SIZE];
    var n := DecodeFrame(buf).consumed;
    assert (buf + more)[HEADER_SIZE..n] == buf[HEADER_SIZE..n];
    if HEADER_SIZE <= k < n {
      assert buf[..k][..HEADER_SIZE] == buf[..HEADER_SIZE];
    }
  }

  // ------------------------------------------------------------------
  // Batches of frames
  // ------------------------------------------------------------------

  predicate AllFit(fs: seq<Frame>) { forall i :: 0 <= i < |fs| ==> Fits(fs[i]) }

  predicate Sendable(f: Frame) { Faithful(f) && Fits(f) }

  predicate AllSendable(fs: seq<Frame>) { forall i :: 0 <= i < |fs| ==> Sendable(fs[i]) }

  function EncodeAll(fs: seq<Frame>): seq<byte> {
    if fs == [] then [] else Encoded(fs[0]) + EncodeAll(fs[1..])
  }

  lemma {:induction false} EncodeAllAppend(a: seq<Frame>, b: seq<Frame>)
    ensures EncodeAll(a + b) == EncodeAll(a) + EncodeAll(b)
  {
    hide Encoded;
    if a == [] {
      assert a + b == b;
    } else {
      EncodeAllAppend(a[1..], b);
      assert (a + b)[1..] == a[1..] + b;
      ConcatAssoc(Encoded(a[0]), EncodeAll(a[1..]), EncodeAll(b));
    }
  }

  lemma EncodeOne(f: Frame)
    ensures EncodeAll([f]) == Encoded(f)
  {
    assert [f][1..] == [];
  }

  /** The writer's encoding loop: frames are appended to one buffer, and the first oversized one fails the batch. */
  method EncodeBatch(batch: seq<Frame>) returns (out: Option<seq<byte>>)
    ensures out == if AllFit(batch) then Some(EncodeAll(batch)) else None
  {
    hide Encoded, EncodeAll;
    var buf: seq<byte> := [];
    assert EncodeAll([]) == [] by { EncodeNone(); }
    for i := 0 to |batch|
      invariant AllFit(batch[..i])
      invariant buf == EncodeAll(batch[..i])
    {
      var e := EncodeFrame(batch[i]);
      if e.None? {
        return None;
      }
      assert batch[..i + 1] == batch[..i] + [batch[i]];
      EncodeAllAppend(batch[..i], [batch[i]]);
      EncodeOne(batch[i]);
      buf := buf + e.value;
    }
    assert batch[..|batch|] == batch;
    return Some(buf);
  }

  lemma EncodeNone()
    ensures EncodeAll([]) == []
  {}

  // ------------------------------------------------------------------
  // The reader's inline parse
  // ------------------------------------------------------------------

  datatype ReadResult =
    | Starved                                  // read_exact is still waiting for bytes
    | Fatal                                    // wrong version or unknown command: the session fails
    | Event(frame: Frame, consumed: nat)

  /** One turn of the reader loop over the bytes that will ever arrive from here on. */
  function ReadOne(version: byte, wire: seq<byte>): ReadResult {
    if |wire| < HEADER_SIZE then Starved
    else
      var h := DecodeHeader(wire[..HEADER_SIZE]);
      if h.version != version || h.cmd > CMD_UPD then Fatal
      else
        // A window update is always read as UPD_SIZE bytes, whatever its length field says.
        var want := if h.cmd == CMD_PSH then h.length else if h.cmd == CMD_UPD then UPD_SIZE else 0;
        if |wire| < HEADER_SIZE + want then Starved
        else Event(Frame(h.version, h.cmd, h.sid, wire[HEADER_SIZE..HEADER_SIZE + want]), HEADER_SIZE + want)
  }

  function ReadAll(version: byte, wire: seq<byte>): seq<Frame>
    decreases |wire|
  {
    match ReadOne(version, wire)
    case Event(f, n) => [f] + ReadAll(version, wire[n..])
    case _ => []
  }

  /** The frames of one version that the library decoder splits off the front of `wire`. */
  function DecodeAll(version: byte, wire: seq<byte>): seq<Frame>
    decreases |wire|
  {
    match DecodeFrame(wire)
    case Whole(f, n) => if f.version == version then [f] + DecodeAll(version, wire[n..]) else []
    case _ => []
  }

  /** Does this input start with a window update whose length field is not UPD_SIZE? */
  predicate OddUpdate(wire: seq<byte>) {
    && |wire| >= HEADER_SIZE
    && var h := DecodeHeader(wire[..HEADER_SIZE]);
    h.cmd == CMD_UPD && h.length != UPD_SIZE
  }

  function SameAs(version: byte, d: Decoded): ReadResult {
    match d
    case NeedMore => Starved
    case BadCommand(_) => Fatal
    case Whole(f, n) => if f.version == version then Event(f, n) else Fatal
  }

  /** An odd update of this version with enough bytes for the parser that wants fewer of them. */
  predicate Bites(version: byte, wire: seq<byte>) {
    && OddUpdate(wire)
    && var h := DecodeHeader(wire[..HEADER_SIZE]);
       h.version == version && |wire| >= HEADER_SIZE + Min(UPD_SIZE, h.length)
  }

  /** On one frame of the session's version the two parsers agree if and only if it is not such an update. */
  lemma ParsersAgreeOnceIff(version: byte, wire: seq<byte>)
    requires |wire| >= HEADER_SIZE ==> DecodeHeader(wire[..HEADER_SIZE]).version == version
    ensures ReadOne(version, wire) == SameAs(version, DecodeFrame(wire)) <==> !Bites(version, wire)
    ensures Bites(version, wire) ==>
              || ReadOne(version, wire) == Starved || DecodeFrame(wire) == NeedMore
              || |ReadOne(version, wire).frame.data| != |DecodeFrame(wire).frame.data|
  {}

  /** An odd update that bites is at the front at some point as the decoder walks the stream. */
  predicate Reaches(version: byte, wire: seq<byte>)
    decreases |wire|
  {
    || Bites(version, wire)
    || match DecodeFrame(wire)
       case Whole(f, n) => f.version == version && Reaches(version, wire[n..])
       case _ => false
  }

  /** On a wire stream the reader sees exactly the frames the codec decodes, if and only if the stream never reaches
      an odd update that bites. */
  lemma {:induction false} ParsersAgreeIff(version: byte, wire: seq<byte>)
    ensures ReadAll(version, wire) == DecodeAll(version, wire) <==> !Reaches(version, wire)
    decreases |wire|
  {
    hide Bites, DecodeHeader;
    if |wire| >= HEADER_SIZE && DecodeHeader(wire[..HEADER_SIZE]).version == version {
      ParsersAgreeOnceIff(version, wire);
      if Bites(version, wire) {
        if ReadOne(version, wire).Event? && DecodeFrame(wire).Whole? {
          assert ReadAll(version, wire)[0] != DecodeAll(version, wire)[0];
        }
        BitesOnOne(version, wire);
      } else if DecodeFrame(wire).Whole? {
        var f, n := DecodeFrame(wire).frame, DecodeFrame(wire).consumed;
        ParsersAgreeIff(version, wire[n..]);
        var x, y := ReadAll(version, wire[n..]), DecodeAll(version, wire[n..]);
        assert ([f] + x)[1..] == x && ([f] + y)[1..] == y;
      }
    } else {
      OtherVersion(version, wire);
    }
  }

  /** Where an update bites, at least one of the parsers completes it. */
  lemma BitesOnOne(version: byte, wire: seq<byte>)
    requires Bites(version, wire)
    ensures ReadOne(version, wire).Event? || (DecodeFrame(wire).Whole? && DecodeFrame(wire).frame.version == version)
  {}

  /** A frame of another version ends both parses and never bites. */
  lemma OtherVersion(version: byte, wire: seq<byte>)
    requires |wire| >= HEADER_SIZE ==> DecodeHeader(wire[..HEADER_SIZE]).version != version
    ensures !Bites(version, wire) && !ReadOne(version, wire).Event?
    ensures DecodeFrame(wire).Whole? ==> DecodeFrame(wire).frame.version != version
  {}

  /** An odd update desynchronises the parsers: the reader drops the stream that the codec still understands. */
  lemma OddUpdateDesynchronises()
    ensures var wire := [1, 4, 0, 0, 0, 0, 0, 0] + [1, 3, 0, 0, 0, 0, 0, 0];
            |DecodeAll(1, wire)| == 2 && |ReadAll(1, wire)| == 1
  {
    var wire: seq<byte> := [1, 4, 0, 0, 0, 0, 0, 0] + [1, 3, 0, 0, 0, 0, 0, 0];
    assert wire[..8] == [1, 4, 0, 0, 0, 0, 0, 0];
    assert DecodeHeader(wire[..8]) == Header(1, 4, 0, 0);
    assert DecodeFrame(wire).Whole? && DecodeFrame(wire).consumed == 8;
    var tail := wire[8..];
    assert tail[..8] == [1, 3, 0, 0, 0, 0, 0, 0];
    assert DecodeHeader(tail[..8]) == Header(1, 3, 0, 0);
    assert DecodeFrame(tail).Whole? && DecodeFrame(tail).consumed == 8;
    assert DecodeAll(1, tail[8..]) == [];
    assert DecodeAll(1, tail) == [DecodeFrame(tail).frame] + DecodeAll(1, tail[8..]);
    assert DecodeAll(1, wire) == [DecodeFrame(wire).frame] + DecodeAll(1, tail);
    assert ReadOne(1, wire).Event? && ReadOne(1, wire).consumed == 16;
    assert ReadAll(1, wire[16..]) == [];
  }

  /** What both ends send, both parsers return: a batch survives encoding and inline reading intact. */
  lemma {:induction false} BatchRoundTrip(version: byte, fs: seq<Frame>)
    requires AllSendable(fs)
    requires forall i :: 0 <= i < |fs| ==> fs[i].version == version && fs[i].cmd != CMD_UPD
    ensures ReadAll(version, EncodeAll(fs)) == fs
  {
    if fs != [] {
      var e, rest := Encoded(fs[0]), EncodeAll(fs[1..]);
      FrameRoundTrip(fs[0], rest);
      HeaderRoundTrip(HeaderOf(fs[0]), EncodeHeader(HeaderOf(fs[0])));
      assert (e + rest)[..HEADER_SIZE] == EncodeHeader(HeaderOf(fs[0]));
      ParsersAgreeOnceIff(version, e + rest);
      assert (e + rest)[|e|..] == rest;
      BatchRoundTrip(version, fs[1..]);
    }
  }
}
