/** The otls opening: the ClientHello a client builds and what the accepting side reads out of it. */
module ObfsHello {
  import opened Bytes
  import opened ObfsTls

  const EXT_SESSION_TICKET: u16 := 0x0023

  function Ext(kind: nat, data: seq<byte>): seq<byte> { Be16(kind) + Be16(|data| % 0x1_0000) + data }

  function SniBody(host: seq<byte>): seq<byte> {
    Be16((|host| + 3) % 0x1_0000) + [0x00] + Be16(|host| % 0x1_0000) + host
  }

  const SUITES: seq<byte> :=
    [0xc0, 0x2f, 0xc0, 0x30, 0xc0, 0x2b, 0xc0, 0x2c, 0xcc, 0xa8, 0xcc, 0xa9, 0x00, 0x9e, 0x00, 0x9f, 0x00, 0x2f, 0x00, 0x35]

  /** The extensions after the session ticket. */
  function OtherExts(host: seq<byte>): seq<byte> {
    Ext(0x0000, SniBody(host))
    + Ext(0x000b, [0x03, 0x01, 0x00, 0x02])
    + Ext(0x000a, [0x00, 0x08, 0x00, 0x1d, 0x00, 0x17, 0x00, 0x19, 0x00, 0x18])
    + Ext(0x000d, [0x00, 0x08, 0x04, 0x01, 0x04, 0x03, 0x05, 0x01, 0x08, 0x04])
    + Ext(0x0016, []) + Ext(0x0017, [])
  }

  function Exts(host: seq<byte>, ticket: seq<byte>): seq<byte> { Ext(EXT_SESSION_TICKET, ticket) + OtherExts(host) }

  function Be24(n: nat): seq<byte> { [n / 0x1_0000 % 256] + Be16(n % 0x1_0000) }

  /** Version, time and random bytes; session id; suites; compression; extensions. */
  function HelloBody(random: seq<byte>, sid: seq<byte>, exts: seq<byte>): seq<byte> {
    [0x03, 0x03] + random + [0x20] + sid + Be16(20) + SUITES + [0x01, 0x00] + Be16(|exts| % 0x1_0000) + exts
  }

  function Handshake(random: seq<byte>, sid: seq<byte>, host: seq<byte>, ticket: seq<byte>): seq<byte> {
    var body := HelloBody(random, sid, Exts(host, ticket));
    [0x01] + Be24(|body|) + body
  }

  /** `random` is the 4-byte clock and 28 random bytes, `sid` 32 random bytes. */
  function ClientHello(random: seq<byte>, sid: seq<byte>, host: seq<byte>, ticket: seq<byte>): seq<byte> {
    Record(HANDSHAKE, 0x01, Handshake(random, sid, host, ticket))
  }

  // ------------------------------------------------------------------
  // Reading it
  // ------------------------------------------------------------------

  function Be16At(h: seq<byte>, i: nat): Option<u16> {
    if i + 2 <= |h| then Some(FromBe16(h[i..i + 2])) else None
  }

  function SessionIdOf(h: seq<byte>): seq<byte> {
    if 38 < |h| && |h| >= 39 + h[38] as nat then h[39..39 + h[38] as nat] else []
  }

  /** Where the extensions start and end, if the fixed part parses. */
  function ExtsOf(h: seq<byte>): Option<(nat, nat)> {
    if |h| <= 38 then None
    else
      var i := 39 + h[38] as nat;
      var suites := Be16At(h, i);
      if suites.None? then None
      else
        var j := i + 2 + suites.value;
        if j >= |h| then None
        else
          var k := j + 1 + h[j] as nat;
          var exts := Be16At(h, k);
          if exts.None? then None else Some((k + 2, Min(k + 2 + exts.value, |h|)))
  }

  function FindTicket(h: seq<byte>, i: nat, end: nat): Option<seq<byte>>
    requires end <= |h|
    decreases end - i
  {
    if i + 4 > end then None
    else
      var kind, len := FromBe16(h[i..i + 2]), FromBe16(h[i + 2..i + 4]) as nat;
      if i + 4 + len > end then None
      else if kind == EXT_SESSION_TICKET then Some(h[i + 4..i + 4 + len])
      else FindTicket(h, i + 4 + len, end)
  }

  function SessionTicketOf(h: seq<byte>): Option<seq<byte>> {
    match ExtsOf(h)
    case None => None
    case Some((i, end)) => if i <= end then FindTicket(h, i, end) else None
  }

  /** The extension walk, one extension a turn. */
  method WalkExtensions(h: seq<byte>, start: nat, end: nat) returns (r: Option<seq<byte>>)
    requires start <= end <= |h|
    ensures r == FindTicket(h, start, end)
  {
    var i := start;
    while i + 4 <= end
      invariant FindTicket(h, start, end) == FindTicket(h, i, end)
      decreases end - i
    {
      var kind, len := FromBe16(h[i..i + 2]), FromBe16(h[i + 2..i + 4]) as nat;
      i := i + 4;
      if i + len > end {
        return None;
      }
      if kind == EXT_SESSION_TICKET {
        return Some(h[i..i + len]);
      }
      i := i + len;
    }
    return None;
  }

  datatype Accepted = Starved | Refused | Opened(sid: seq<byte>, ready: seq<byte>, consumed: nat)

  /** What the accepting side makes of the bytes that arrive. */
  function Accept(bytes: seq<byte>): Accepted {
    if |bytes| < 5 then Starved
    else if bytes[0] != HANDSHAKE then Refused
    else
      match TakeRecord(bytes)
      case NeedMore => Starved
      case Oversized => Refused
      case Rec(_, hello, n) =>
        var t := SessionTicketOf(hello);
        Opened(SessionIdOf(hello), if t.Some? then t.value else [], n)
  }

  // ------------------------------------------------------------------
  // Round trip
  // ------------------------------------------------------------------

  lemma OtherExtsLength(host: seq<byte>)
    ensures |OtherExts(host)| == |host| + 53
  {}

  lemma ExtsLength(host: seq<byte>, ticket: seq<byte>)
    ensures |Exts(host, ticket)| == |host| + |ticket| + 57
  {
    OtherExtsLength(host);
    hide OtherExts;
  }

  lemma HandshakeLength(random: seq<byte>, sid: seq<byte>, host: seq<byte>, ticket: seq<byte>)
    requires |random| == 32 && |sid| == 32
    ensures |Handshake(random, sid, host, ticket)| == |host| + |ticket| + 154
  {
    OtherExtsLength(host);
  }

  lemma BodyLayout(random: seq<byte>, sid: seq<byte>, exts: seq<byte>)
    requires |random| == 32 && |sid| == 32
    ensures var body := HelloBody(random, sid, exts);
            && |body| == 93 + |exts|
            && body[34] == 0x20 && body[35..67] == sid && body[67..69] == Be16(20)
            && body[89] == 0x01 && body[91..93] == Be16(|exts| % 0x1_0000) && body[93..] == exts
  {
    hide Be16;
    assert |Be16(20)| == 2 && |Be16(|exts| % 0x1_0000)| == 2 by { Be16Length(20); Be16Length(|exts| % 0x1_0000); }
  }

  lemma Be16Length(n: nat)
    ensures |Be16(n)| == 2
  {}

  lemma HandshakeLayout(random: seq<byte>, sid: seq<byte>, host: seq<byte>, ticket: seq<byte>)
    requires |random| == 32 && |sid| == 32 && |host| + |ticket| + 57 < 0x1_0000
    ensures var h, exts := Handshake(random, sid, host, ticket), Exts(host, ticket);
            && |h| == 97 + |exts| && |exts| == |host| + |ticket| + 57
            && h[38] == 32 && h[39..71] == sid
            && h[71..73] == Be16(20) && h[93] == 0x01 && h[95..97] == Be16(|exts|) && h[97..] == exts
  {
    hide HelloBody, Exts, Handshake, Be16;
    var exts := Exts(host, ticket);
    ExtsLength(host, ticket);
    BodyLayout(random, sid, exts);
    HandshakeHeader(random, sid, host, ticket);
    ShiftedSlices(Handshake(random, sid, host, ticket), HelloBody(random, sid, exts));
  }

  lemma HandshakeHeader(random: seq<byte>, sid: seq<byte>, host: seq<byte>, ticket: seq<byte>)
    ensures var h, body := Handshake(random, sid, host, ticket), HelloBody(random, sid, Exts(host, ticket));
            |h| == 4 + |body| && h[4..] == body
  {
    hide HelloBody, Exts;
    var body := HelloBody(random, sid, Exts(host, ticket));
    assert |[0x01] + Be24(|body|)| == 4;
  }

  /** Slices of a message behind a four-byte header. */
  lemma ShiftedSlices(h: seq<byte>, body: seq<byte>)
    requires |h| >= 97 && h[4..] == body
    ensures h[38] == body[34] && h[39..71] == body[35..67] && h[71..73] == body[67..69] && h[93] == body[89]
    ensures h[95..97] == body[91..93] && h[97..] == body[93..]
  {}

  /** The ticket a hello carries is the first payload, whatever host it names. */
  lemma TicketRoundTrip(random: seq<byte>, sid: seq<byte>, host: seq<byte>, ticket: seq<byte>)
    requires |random| == 32 && |sid| == 32 && |host| + |ticket| + 57 < 0x1_0000
    ensures var h := Handshake(random, sid, host, ticket);
            SessionIdOf(h) == sid && SessionTicketOf(h) == Some(ticket)
  {
    hide *;
    HandshakeLayout(random, sid, host, ticket);
    var h, exts := Handshake(random, sid, host, ticket), Exts(host, ticket);
    LayoutParses(h, sid, |exts|);
    FirstTicket(h, 97, host, ticket);
    TicketFrom(h, 97, |h|);
  }

  lemma LayoutParses(h: seq<byte>, sid: seq<byte>, len: nat)
    requires |h| == 97 + len && len < 0x1_0000 && |sid| == 32
    requires h[38] == 32 && h[39..71] == sid && h[71..73] == Be16(20) && h[93] == 0x01 && h[95..97] == Be16(len)
    ensures SessionIdOf(h) == sid && ExtsOf(h) == Some((97, |h|))
  {
    assert FromBe16(Be16(20)) == 20 && FromBe16(Be16(len)) == len;
    assert Be16At(h, 71) == Some(20) && Be16At(h, 95) == Some(len);
  }

  lemma TicketFrom(h: seq<byte>, i: nat, end: nat)
    requires ExtsOf(h) == Some((i, end)) && i <= end <= |h|
    ensures SessionTicketOf(h) == FindTicket(h, i, end)
  {}

  lemma FirstExt(host: seq<byte>, ticket: seq<byte>)
    requires |ticket| < 0x1_0000
    ensures var exts := Exts(host, ticket);
            |exts| >= 4 + |ticket|
            && exts[..2] == Be16(0x0023) && exts[2..4] == Be16(|ticket|) && exts[4..4 + |ticket|] == ticket
  {
    hide OtherExts, Be16;
    Be16RoundTrip(0x0023);
    Be16RoundTrip(|ticket|);
    FourParts(Be16(0x0023), Be16(|ticket|), ticket, OtherExts(host));
  }

  lemma FourParts(a: seq<byte>, b: seq<byte>, c: seq<byte>, d: seq<byte>)
    requires |a| == 2 && |b| == 2
    ensures var s := a + b + c + d;
            |s| >= 4 + |c| && s[..2] == a && s[2..4] == b && s[4..4 + |c|] == c
  {}

  /** The ticket is the first extension, so the walk stops at it. */
  lemma FirstTicket(h: seq<byte>, at: nat, host: seq<byte>, ticket: seq<byte>)
    requires at <= |h| && h[at..] == Exts(host, ticket) && |ticket| < 0x1_0000
    ensures FindTicket(h, at, |h|) == Some(ticket)
  {
    FirstExt(host, ticket);
    hide Exts, Be16;
    var exts := Exts(host, ticket);
    Be16RoundTrip(|ticket|);
    Be16RoundTrip(0x0023);
    assert h[at..at + 2] == exts[..2] && h[at + 2..at + 4] == exts[2..4];
    assert h[at + 4..at + 4 + |ticket|] == exts[4..4 + |ticket|];
  }

  /** A client's opening is accepted exactly when it fits the record limit, and then yields the session id and the
      ticket and leaves every later byte alone. */
  lemma OpeningRoundTrip(random: seq<byte>, sid: seq<byte>, host: seq<byte>, ticket: seq<byte>, rest: seq<byte>)
    requires |random| == 32 && |sid| == 32 && |host| + |ticket| + 154 < 0x1_0000
    ensures var hello := ClientHello(random, sid, host, ticket);
            Accept(hello + rest) ==
            if |host| + |ticket| + 154 <= MAX_RECORD then Opened(sid, ticket, |hello|) else Refused
  {
    HandshakeLength(random, sid, host, ticket);
    TicketRoundTrip(random, sid, host, ticket);
    hide Handshake, SessionTicketOf, SessionIdOf;
    RecordRoundTrip(HANDSHAKE, 0x01, Handshake(random, sid, host, ticket), rest);
  }

  // ------------------------------------------------------------------
  // The server's reply
  // ------------------------------------------------------------------

  function ServerHello(random: seq<byte>, sid: seq<byte>): seq<byte> {
    var exts := Ext(0xff01, [0x00]) + Ext(0x0017, []) + Ext(0x000b, [0x01, 0x00]);
    var body := [0x03, 0x03] + random + [|sid| % 256] + sid + Be16(0xcca8) + [0x00] + Be16(|exts|) + exts;
    [0x02] + Be24(|body|) + body
  }

  function ServerReply(random: seq<byte>, sid: seq<byte>): seq<byte> {
    Record(HANDSHAKE, 0x01, ServerHello(random, sid)) + Record(CHANGE_CIPHER_SPEC, 0x03, [0x01])
  }

  /** The deferred reply is the two records the client steps over, and the hello is within the record limit. */
  lemma ReplyIsTheOpening(random: seq<byte>, sid: seq<byte>)
    requires |random| == 32 && |sid| <= 255
    ensures |ServerHello(random, sid)| <= MAX_RECORD
    ensures ServerReply(random, sid) == ToClient(ServerHello(random, sid)).out
  {
    hide ServerHello;
    assert |ServerHello(random, sid)| <= MAX_RECORD by { ServerHelloLength(random, sid); }
    var items := [Hello(ServerHello(random, sid)), Ccs];
    assert items[1..] == [Ccs] && [Ccs][1..] == [];
    assert EncodeItems([Ccs]) == Record(CHANGE_CIPHER_SPEC, 0x03, [0x01]);
  }

  lemma ServerHelloLength(random: seq<byte>, sid: seq<byte>)
    ensures |ServerHello(random, sid)| == |random| + |sid| + 27
  {}

  /** The opening joined to the stream: whatever ticket a hello within the limit carries is what the server's stream
      starts with, and everything the client writes later is delivered after it. */
  lemma OpeningThenStream(random: seq<byte>, sid: seq<byte>, host: seq<byte>, ticket: seq<byte>, rest: seq<byte>,
                          acts: seq<Action>)
    requires |random| == 32 && |sid| == 32 && |host| + |ticket| + 154 <= MAX_RECORD
    ensures var hello := ClientHello(random, sid, host, ticket);
            var r := Accept(hello + rest);
            && r.Opened? && r.consumed == |hello| && (hello + rest)[r.consumed..] == rest
            && var s := Run(ToServer(r.ready), acts);
               && !s.failed && ticket <= s.accepted && s.delivered + s.ready <= s.accepted
               && (s.raw + s.wire + s.out == [] ==> s.delivered + s.ready == s.accepted)
  {
    hide ClientHello, Accept, Run;
    OpeningRoundTrip(random, sid, host, ticket, rest);
    StreamIsTransparent(true, ticket, [], acts);
  }

  // ------------------------------------------------------------------
  // The ticket behind other extensions
  // ------------------------------------------------------------------

  /** Well-formed extensions, none of them a ticket. */
  datatype Other = Other(kind: u16, data: seq<byte>)

  predicate NoTickets(es: seq<Other>) {
    forall i :: 0 <= i < |es| ==> es[i].kind != EXT_SESSION_TICKET && |es[i].data| < 0x1_0000
  }

  function Encode(es: seq<Other>): seq<byte> {
    if es == [] then [] else Ext(es[0].kind, es[0].data) + Encode(es[1..])
  }

  lemma ExtParts(kind: u16, data: seq<byte>, rest: seq<byte>)
    requires |data| < 0x1_0000
    ensures var s := Ext(kind, data) + rest;
            && |Ext(kind, data)| == 4 + |data| && |s| >= 4 + |data|
            && FromBe16(s[..2]) == kind && FromBe16(s[2..4]) == |data| && s[4..4 + |data|] == data
            && s[4 + |data|..] == rest
  {
    hide Be16, FromBe16;
    Be16RoundTrip(kind);
    Be16RoundTrip(|data|);
    FourParts(Be16(kind), Be16(|data|), data, rest);
  }

  /** The front of h from at on, as an extension. */
  lemma WalkOne(h: seq<byte>, at: nat, kind: u16, data: seq<byte>, rest: seq<byte>)
    requires at <= |h| && h[at..] == Ext(kind, data) + rest && |data| < 0x1_0000
    ensures at + 4 + |data| <= |h| && h[at + 4 + |data|..] == rest
    ensures FindTicket(h, at, |h|) == if kind == EXT_SESSION_TICKET then Some(data) else FindTicket(h, at + 4 + |data|, |h|)
  {
    hide Ext, FromBe16;
    ExtParts(kind, data, rest);
    var s := h[at..];
    assert h[at..at + 2] == s[..2] && h[at + 2..at + 4] == s[2..4];
    assert h[at + 4..at + 4 + |data|] == s[4..4 + |data|] && h[at + 4 + |data|..] == s[4 + |data|..];
  }

  /** The walk steps over any list of other extensions to the first ticket; without one it finds nothing, and an extension
      that overruns the end stops it. */
  lemma {:induction false} TicketBehindOthers(h: seq<byte>, at: nat, es: seq<Other>, ticket: Option<seq<byte>>, rest: seq<byte>)
    requires NoTickets(es) && at <= |h| && (ticket.Some? ==> |ticket.value| < 0x1_0000)
    requires h[at..] == Encode(es) + (if ticket.Some? then Ext(EXT_SESSION_TICKET, ticket.value) + rest else [])
    ensures FindTicket(h, at, |h|) == ticket
    decreases |es|
  {
    hide Ext;
    var tail := if ticket.Some? then Ext(EXT_SESSION_TICKET, ticket.value) + rest else [];
    if es == [] {
      assert [] + tail == tail;
      if ticket.Some? { WalkOne(h, at, EXT_SESSION_TICKET, ticket.value, rest); }
    } else {
      var e := es[0];
      ConcatAssoc(Ext(e.kind, e.data), Encode(es[1..]), tail);
      WalkOne(h, at, e.kind, e.data, Encode(es[1..]) + tail);
      TicketBehindOthers(h, at + 4 + |e.data|, es[1..], ticket, rest);
    }
  }

  lemma OverrunStops(h: seq<byte>, at: nat, end: nat)
    requires at + 4 <= end <= |h| && at + 4 + FromBe16(h[at + 2..at + 4]) > end
    ensures FindTicket(h, at, end) == None
  {}

  /** Exactly when an opening is refused, and when it is waited for. */
  lemma AcceptIff(bytes: seq<byte>)
    ensures Accept(bytes) == Refused <==> |bytes| >= 5 && (bytes[0] != 0x16 || 256 * (bytes[3] as int) + (bytes[4] as int) > MAX_RECORD)
    ensures Accept(bytes).Opened? <==>
            |bytes| >= 5 && bytes[0] == 0x16 && 256 * (bytes[3] as int) + (bytes[4] as int) <= MAX_RECORD
            && |bytes| >= 5 + 256 * (bytes[3] as int) + (bytes[4] as int)
  {
    hide SessionTicketOf, SessionIdOf;
    if |bytes| >= 5 { assert FromBe16(bytes[3..5]) == 256 * (bytes[3] as int) + (bytes[4] as int); }
  }

  // ------------------------------------------------------------------
  // What else the two hellos say
  // ------------------------------------------------------------------

  /** The extension behind the ticket names the host, as a host_name entry of a list of one. */
  lemma SniNamesHost(host: seq<byte>)
    requires |host| + 5 < 0x1_0000
    ensures var e := OtherExts(host);
            && |e| >= 9 + |host| && FromBe16(e[..2]) == 0x0000 && FromBe16(e[2..4]) == |host| + 5
            && FromBe16(e[4..6]) == |host| + 3 && e[6] == 0x00 && FromBe16(e[7..9]) == |host| && e[9..9 + |host|] == host
  {
    var sni := SniBody(host);
    var rest := Ext(0x000b, [0x03, 0x01, 0x00, 0x02])
      + Ext(0x000a, [0x00, 0x08, 0x00, 0x1d, 0x00, 0x17, 0x00, 0x19, 0x00, 0x18])
      + Ext(0x000d, [0x00, 0x08, 0x04, 0x01, 0x04, 0x03, 0x05, 0x01, 0x08, 0x04])
      + Ext(0x0016, []) + Ext(0x0017, []);
    assert OtherExts(host) == Ext(0x0000, sni) + rest;
    SniParts(host);
    hide Ext, SniBody, FromBe16, OtherExts;
    ExtParts(0x0000, sni, rest);
    var e := OtherExts(host);
    var body := e[4..4 + |sni|];
    assert e[4..6] == body[..2] && e[6] == body[2] && e[7..9] == body[3..5] && e[9..9 + |host|] == body[5..];
  }

  lemma SniParts(host: seq<byte>)
    requires |host| + 5 < 0x1_0000
    ensures var b := SniBody(host);
            && |b| == 5 + |host| && FromBe16(b[..2]) == |host| + 3 && b[2] == 0x00 && FromBe16(b[3..5]) == |host|
            && b[5..] == host
  {
    hide Be16, FromBe16;
    Be16RoundTrip(|host| + 3);
    Be16RoundTrip(|host|);
    var front := Be16(|host| + 3) + [0x00];
    assert |front| == 3 && SniBody(host) == front + (Be16(|host|) + host);
    assert SniBody(host)[..2] == Be16(|host| + 3);
    assert SniBody(host)[3..5] == Be16(|host|);
  }

  /** The server's hello carries the random bytes and echoes the client's session id, whatever its length. */
  lemma ReplyEchoes(random: seq<byte>, sid: seq<byte>)
    requires |random| == 32 && |sid| <= 255
    ensures var h := ServerHello(random, sid);
            && |h| == |sid| + 59 && h[0] == 0x02 && h[4..6] == [0x03, 0x03] && h[6..38] == random
            && SessionIdOf(h) == sid
  {
    ServerHelloLength(random, sid);
    var h := ServerHello(random, sid);
    var exts := Ext(0xff01, [0x00]) + Ext(0x0017, []) + Ext(0x000b, [0x01, 0x00]);
    var tail := Be16(0xcca8) + [0x00] + Be16(|exts|) + exts;
    var body := [0x03, 0x03] + random + [|sid| % 256] + sid + tail;
    var head := [0x02] + Be24(|body|);
    assert [0x03, 0x03] + random + [|sid| % 256] + sid + Be16(0xcca8) + [0x00] + Be16(|exts|) + exts == body;
    assert h == head + body && |head| == 4 && head[0] == 0x02;
    hide ServerHello, Be16, Ext;
    HelloParts(head, random, sid, tail);
  }

  lemma HelloParts(head: seq<byte>, random: seq<byte>, sid: seq<byte>, tail: seq<byte>)
    requires |head| == 4 && |random| == 32 && |sid| <= 255
    ensures var h := head + ([0x03, 0x03] + random + [|sid| % 256] + sid + tail);
            h[0] == head[0] && h[4..6] == [0x03, 0x03] && h[6..38] == random && h[38] == |sid| && h[39..39 + |sid|] == sid
  {
    var front := head + [0x03, 0x03] + random;
    assert |front| == 38 && front[4..6] == [0x03, 0x03] && front[6..] == random;
    var h := head + ([0x03, 0x03] + random + [|sid| % 256] + sid + tail);
    assert h == front + ([|sid| % 256] + (sid + tail));
  }
}
