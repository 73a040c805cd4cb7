/** The otls record stream: a fake TLS handshake, then payload in records told apart from it by position alone. */
module ObfsTls {
  import opened Bytes

  const MAX_DATA: nat := 16384
  const MAX_RECORD: nat := 16384 + 2048
  const CHANGE_CIPHER_SPEC: byte := 0x14
  const HANDSHAKE: byte := 0x16
  const APP_DATA: byte := 0x17

  // ------------------------------------------------------------------
  // Records (layout of section 6.2.1 of RFC 5246)
  // ------------------------------------------------------------------

  function Record(kind: byte, minor: byte, payload: seq<byte>): seq<byte> {
    [kind, 0x03, minor] + Be16(|payload| % 0x1_0000) + payload
  }

  datatype Taken = NeedMore | Oversized | Rec(kind: byte, payload: seq<byte>, consumed: nat)

  function TakeRecord(raw: seq<byte>): Taken {
    if |raw| < 5 then NeedMore
    else
      var len := FromBe16(raw[3..5]);
      if len > MAX_RECORD then Oversized
      else if |raw| < 5 + len then NeedMore
      else Rec(raw[0], raw[5..5 + len], 5 + len)
  }

  lemma RecordSlices(head: seq<byte>, len: seq<byte>, payload: seq<byte>, rest: seq<byte>)
    requires |head| == 3 && |len| == 2
    ensures var all := head + len + payload + rest;
            |all| >= 5 + |payload| && all[0] == head[0] && all[3..5] == len && all[5..5 + |payload|] == payload
  {
    var front := head + len;
    assert front[3..] == len && |front| == 5;
    assert head + len + payload + rest == front + (payload + rest);
  }

  /** A record comes off the front of whatever follows it exactly when it is within the reader's limit. */
  lemma RecordRoundTrip(kind: byte, minor: byte, payload: seq<byte>, rest: seq<byte>)
    requires |payload| < 0x1_0000
    ensures |Record(kind, minor, payload)| == 5 + |payload|
    ensures TakeRecord(Record(kind, minor, payload) + rest) ==
            if |payload| <= MAX_RECORD then Rec(kind, payload, 5 + |payload|) else Oversized
  {
    hide Be16, FromBe16;
    Be16RoundTrip(|payload|);
    RecordSlices([kind, 0x03, minor], Be16(|payload|), payload, rest);
  }

  lemma TakeIsIncremental(raw: seq<byte>, more: seq<byte>)
    requires TakeRecord(raw) != NeedMore
    ensures TakeRecord(raw + more) == TakeRecord(raw)
    ensures TakeRecord(raw).Rec? ==> 5 <= TakeRecord(raw).consumed <= |raw|
  {
    assert (raw + more)[3..5] == raw[3..5];
    var len: nat := FromBe16(raw[3..5]);
    if |raw| >= 5 + len { assert (raw + more)[5..5 + len] == raw[5..5 + len]; }
  }

  // ------------------------------------------------------------------
  // The reading loop between two socket reads
  // ------------------------------------------------------------------

  /** `ok` turns false on an oversized record. */
  datatype Reader = Reader(raw: seq<byte>, ready: seq<byte>, awaiting: bool, ok: bool)

  /** Records are taken until one of them is payload or the buffer runs dry. While the server's reply is expected,
      handshake records are stepped over and the change-cipher-spec ends the reply. */
  function Advance(r: Reader): Reader
    decreases |r.raw|
  {
    if r.ready != [] then r
    else
      match TakeRecord(r.raw)
      case NeedMore => r
      case Oversized => r.(ok := false)
      case Rec(kind, payload, n) =>
        TakeIsIncremental(r.raw, []);
        var rest := r.(raw := r.raw[n..]);
        if r.awaiting && kind == CHANGE_CIPHER_SPEC then Advance(rest.(awaiting := false))
        else if r.awaiting && kind == HANDSHAKE then Advance(rest)
        else Advance(rest.(awaiting := false, ready := payload))
  }

  /** What one whole record does, by its position and type: while the reply is expected a handshake record is stepped over
      and the change-cipher-spec ends the reply, any other record ends it and is payload; afterwards every record is
      payload whatever its type, and an empty one is passed over. */
  lemma RecordRule(r: Reader, kind: byte, minor: byte, payload: seq<byte>, rest: seq<byte>)
    requires r.ready == [] && |payload| <= MAX_RECORD && r.raw == Record(kind, minor, payload) + rest
    ensures Advance(r) ==
            if r.awaiting && kind == 0x14 then Advance(r.(raw := rest, awaiting := false))
            else if r.awaiting && kind == 0x16 then Advance(r.(raw := rest))
            else if payload == [] then Advance(r.(raw := rest, awaiting := false))
            else r.(raw := rest, awaiting := false, ready := payload)
  {
    RecordRoundTrip(kind, minor, payload, rest);
    hide TakeRecord, Record;
    assert r.raw[5 + |payload|..] == rest;
  }

  /** How a read ends once the socket has. */
  datatype Close = Clean | Truncated

  function CloseOf(raw: seq<byte>): Close { if raw == [] then Clean else Truncated }

  /** The stream object's two halves, each method proved against its step. */
  class ObfsTlsStream {
    var raw: seq<byte>
    var ready: seq<byte>
    var readyPos: nat
    var out: seq<byte>
    var outPos: nat
    var expectServerReply: bool
    var nextRecordType: byte
    var wire: seq<byte>        // every byte the socket has taken

    predicate Valid()
      reads this
    {
      readyPos <= |ready| && outPos <= |out|
    }

    function Undrained(): seq<byte>
      requires Valid()
      reads this
    {
      out[outPos..]
    }

    function Unread(): seq<byte>
      requires Valid()
      reads this
    {
      ready[readyPos..]
    }

    constructor (ready: seq<byte>, out: seq<byte>, expectServerReply: bool)
      ensures Valid() && Unread() == ready && Undrained() == out && this.expectServerReply == expectServerReply
      ensures nextRecordType == (if expectServerReply then APP_DATA else HANDSHAKE) && raw == [] && wire == []
    {
      this.ready, this.out, this.expectServerReply := ready, out, expectServerReply;
      raw, readyPos, outPos, wire := [], 0, 0, [];
      nextRecordType := if expectServerReply then APP_DATA else HANDSHAKE;
    }

    method FlushOut(accept: nat) returns (done: bool)
      requires Valid()
      modifies this`out, this`outPos, this`wire
      ensures Valid()
      ensures Moved(old(Undrained()), old(wire), Undrained(), wire, Min(accept, |old(Undrained())|))
      ensures done <==> Undrained() == []
    {
      hide Moved;
      var left := accept;
      ghost var before, taken := Undrained(), wire;
      MovedNone(before, taken);
      while outPos < |out| && left > 0
        invariant Valid() && left >= 0
        invariant out == old(out) && old(outPos) <= outPos && left + (outPos - old(outPos)) == accept
        invariant Moved(before, taken, Undrained(), wire, outPos - old(outPos))
        decreases |out| - outPos
      {
        var n :| 1 <= n <= left && n <= |out| - outPos;
        MovedMore(before, taken, Undrained(), wire, outPos - old(outPos), n);
        assert out[outPos..][..n] == out[outPos..outPos + n] && out[outPos..][n..] == out[outPos + n..];
        wire := wire + out[outPos..outPos + n];
        outPos := outPos + n;
        left := left - n;
      }
      assert outPos - old(outPos) == Min(accept, |before|);
      if outPos < |out| {
        return false;
      }
      out, outPos := [], 0;
      return true;
    }

    /** Whatever is already encoded goes first; then one record of at most MAX_DATA bytes is queued behind it. */
    method PollWrite(buf: seq<byte>, accept: nat, acceptAfter: nat) returns (r: Option<nat>)
      requires Valid()
      modifies this`out, this`outPos, this`wire, this`nextRecordType
      ensures Valid()
      ensures r.None? || buf == [] ==>
                wire + Undrained() == old(wire) + old(Undrained()) && nextRecordType == old(nextRecordType)
      ensures r.None? <==> accept < |old(Undrained())|
      ensures buf == [] && r.Some? ==> r.value == 0
      ensures r.Some? && buf != [] ==>
                && r.value == Min(|buf|, MAX_DATA)
                && nextRecordType == APP_DATA
                && wire + Undrained() == old(wire) + old(Undrained())
                                         + Record(old(nextRecordType), 0x03, buf[..r.value])
    {
      hide Record, Moved;
      ghost var kept, taken := Undrained(), wire;
      var done := FlushOut(accept);
      MovedTotal(kept, taken, Undrained(), wire, Min(accept, |kept|));
      if !done {
        return None;
      }
      if buf == [] {
        return Some(0);
      }
      var n := Min(|buf|, MAX_DATA);
      out, outPos := Record(nextRecordType, 0x03, buf[..n]), 0;
      nextRecordType := APP_DATA;
      ghost var rec, taken' := Undrained(), wire;
      var _ := FlushOut(acceptAfter);
      MovedTotal(rec, taken', Undrained(), wire, Min(acceptAfter, |rec|));
      return Some(n);
    }

    /** The record loop of a read, once nothing decoded is left. */
    method TakeRecords() returns (ok: bool)
      requires Valid() && Unread() == []
      modifies this`raw, this`ready, this`readyPos, this`expectServerReply
      ensures Valid()
      ensures Reader(raw, Unread(), expectServerReply, ok) ==
              Advance(Reader(old(raw), [], old(expectServerReply), true))
    {
      ghost var start := Reader(raw, [], expectServerReply, true);
      ready, readyPos := [], 0;
      while ready == []
        invariant Valid() && readyPos == 0
        invariant Advance(start) == Advance(Reader(raw, ready, expectServerReply, true))
        decreases |raw| + (if ready == [] then 1 else 0)
      {
        var t := TakeRecord(raw);
        if t == NeedMore {
          return true;
        }
        if t == Oversized {
          return false;
        }
        TakeIsIncremental(raw, []);
        raw := raw[t.consumed..];
        if expectServerReply {
          if t.kind == CHANGE_CIPHER_SPEC {
            expectServerReply := false;
            continue;
          }
          if t.kind == HANDSHAKE {
            continue;
          }
          expectServerReply := false;
        }
        ready := t.payload;
      }
      return true;
    }

    /** The socket's answer to a read: no bytes mean the end, which is clean exactly on a record boundary. */
    method Absorb(chunk: seq<byte>) returns (end: Option<Close>)
      modifies this`raw
      ensures raw == old(raw) + chunk
      ensures end == if chunk != [] then None else Some(CloseOf(raw))
    {
      if chunk == [] {
        assert raw + chunk == raw;
        return Some(if raw == [] then Clean else Truncated);
      }
      raw := raw + chunk;
      return None;
    }

    /** Hands over the longest prefix of the decoded payload that fits. */
    method Deliver(cap: nat) returns (bytes: seq<byte>)
      requires Valid()
      modifies this`ready, this`readyPos
      ensures Valid()
      ensures bytes == old(Unread())[..Min(cap, |old(Unread())|)] && Unread() == old(Unread())[|bytes|..]
    {
      var n := Min(cap, |ready| - readyPos);
      bytes := ready[readyPos..readyPos + n];
      readyPos := readyPos + n;
      if readyPos == |ready| {
        ready, readyPos := [], 0;
      }
    }
  }

  // ------------------------------------------------------------------
  // Whole runs of one direction
  // ------------------------------------------------------------------

  /** What the bytes between writer and reader consist of. */
  datatype Item = Hello(body: seq<byte>) | Ccs | Data(kind: byte, payload: seq<byte>)

  function ItemBytes(it: Item): seq<byte> {
    match it
    case Hello(body) => Record(HANDSHAKE, 0x01, body)
    case Ccs => Record(CHANGE_CIPHER_SPEC, 0x03, [0x01])
    case Data(kind, p) => Record(kind, 0x03, p)
  }

  function EncodeItems(items: seq<Item>): seq<byte> {
    if items == [] then [] else ItemBytes(items[0]) + EncodeItems(items[1..])
  }

  function OwnContent(it: Item): seq<byte> { if it.Data? then it.payload else [] }

  function Content(items: seq<Item>): seq<byte> {
    if items == [] then [] else OwnContent(items[0]) + Content(items[1..])
  }

  lemma {:induction false} EncodeAppend(a: seq<Item>, b: seq<Item>)
    ensures EncodeItems(a + b) == EncodeItems(a) + EncodeItems(b)
  {
    hide ItemBytes;
    if a == [] {
      assert a + b == b;
    } else {
      EncodeAppend(a[1..], b);
      assert (a + b)[1..] == a[1..] + b;
      ConcatAssoc(ItemBytes(a[0]), EncodeItems(a[1..]), EncodeItems(b));
    }
  }

  lemma {:induction false} ContentAppend(a: seq<Item>, b: seq<Item>)
    ensures Content(a + b) == Content(a) + Content(b)
  {
    hide OwnContent;
    if a == [] {
      assert a + b == b;
    } else {
      ContentAppend(a[1..], b);
      assert (a + b)[1..] == a[1..] + b;
      ConcatAssoc(OwnContent(a[0]), Content(a[1..]), Content(b));
    }
  }

  datatype State = State(
    out: seq<byte>, nextKind: byte, wire: seq<byte>,
    raw: seq<byte>, ready: seq<byte>, awaiting: bool, failed: bool, close: Option<Close>,
    items: seq<Item>, accepted: seq<byte>, delivered: seq<byte>)

  /** Client to server: the hello has been sent and consumed, its ticket is the first payload, nothing is expected. */
  function ToServer(ticket: seq<byte>): State {
    State([], APP_DATA, [], [], ticket, false, false, None, [], ticket, [])
  }

  /** Server to client: the reply is encoded but held back, and the client expects it. */
  function ToClient(serverHello: seq<byte>): State {
    State(EncodeItems([Hello(serverHello), Ccs]), HANDSHAKE, [], [], [], true, false, None,
          [Hello(serverHello), Ccs], [], [])
  }

  datatype Action = Flush(n: nat) | Write(buf: seq<byte>) | Arrive(n: nat) | Read(cap: nat) | End

  /** The items that remain once the reader has advanced over `raw`. */
  function Leftover(r: Reader, items: seq<Item>): seq<Item>
    decreases |r.raw|
  {
    if r.ready != [] then items
    else
      match TakeRecord(r.raw)
      case Rec(kind, payload, n) =>
        TakeIsIncremental(r.raw, []);
        var rest := r.(raw := r.raw[n..]);
        var left := if items == [] then [] else items[1..];
        if r.awaiting && kind == CHANGE_CIPHER_SPEC then Leftover(rest.(awaiting := false), left)
        else if r.awaiting && kind == HANDSHAKE then Leftover(rest, left)
        else Leftover(rest.(awaiting := false, ready := payload), left)
      case _ => items
  }

  /** The reader obtains n bytes and takes records up to the first payload. */
  function TakeIn(s: State, n: nat): State
    requires n <= |s.wire|
  {
    var r := Reader(s.raw + s.wire[..n], [], s.awaiting, true);
    var r' := Advance(r);
    s.(wire := s.wire[n..], raw := r'.raw, ready := r'.ready, awaiting := r'.awaiting, failed := !r'.ok,
       items := Leftover(r, s.items))
  }

  function Step(s: State, a: Action): State {
    match a
    case Flush(n) => if n > |s.out| then s else s.(out := s.out[n..], wire := s.wire + s.out[..n])
    case Write(buf) =>
      if s.out != [] || buf == [] then s       // the write is refused until the queue has drained
      else
        var p := buf[..Min(|buf|, MAX_DATA)];
        s.(out := Record(s.nextKind, 0x03, p), nextKind := APP_DATA,
           items := s.items + [Data(s.nextKind, p)], accepted := s.accepted + p)
    case Arrive(n) => if n > |s.wire| || s.ready != [] || s.failed || s.close.Some? then s else TakeIn(s, n)
    case Read(cap) =>
      var k := Min(cap, |s.ready|);
      s.(ready := s.ready[k..], delivered := s.delivered + s.ready[..k])
    case End =>
      // Whole records still buffered are taken first; only then does the end of the socket show.
      if s.wire != [] || s.ready != [] || s.failed || s.close.Some? then s
      else
        var t := TakeIn(s, 0);
        if t.ready != [] || t.failed then t else t.(close := Some(CloseOf(t.raw)))
  }

  function Run(s: State, acts: seq<Action>): State
    decreases |acts|
  {
    if acts == [] then s else Run(Step(s, acts[0]), acts[1..])
  }

  predicate AllData(items: seq<Item>) {
    forall i :: 0 <= i < |items| ==> items[i].Data? && 0 < |items[i].payload| <= MAX_DATA
  }

  /** The reply, as far as it has not been stepped over, and then payload records of any type. */
  predicate WellFormed(awaiting: bool, items: seq<Item>) {
    if !awaiting then AllData(items)
    else if |items| > 0 && items[0].Hello? then
      |items[0].body| <= MAX_RECORD && |items| > 1 && items[1].Ccs? && AllData(items[2..])
    else |items| > 0 && items[0].Ccs? && AllData(items[1..])
  }

  ghost predicate Inv(s: State) {
    && !s.failed
    && s.raw + s.wire + s.out == EncodeItems(s.items)
    && s.delivered + s.ready + Content(s.items) == s.accepted
    && WellFormed(s.awaiting, s.items)
    && (s.close.Some? ==> s.ready == [] && TakeRecord(s.raw) == NeedMore && s.close == Some(CloseOf(s.raw)))
  }

  /** The first record off any buffer that holds it whole is the first item. */
  lemma FrontItem(awaiting: bool, items: seq<Item>, raw: seq<byte>, future: seq<byte>)
    requires WellFormed(awaiting, items) && raw + future == EncodeItems(items)
    ensures TakeRecord(raw) != Oversized
    ensures TakeRecord(raw).Rec? ==>
              && items != []
              && TakeRecord(raw).consumed <= |raw|
              && raw[TakeRecord(raw).consumed..] + future == EncodeItems(items[1..])
              && match items[0]
                 case Hello(_) => TakeRecord(raw).kind == HANDSHAKE
                 case Ccs => TakeRecord(raw).kind == CHANGE_CIPHER_SPEC
                 case Data(kind, p) => TakeRecord(raw).kind == kind && TakeRecord(raw).payload == p
  {
    hide TakeRecord, Record;
    if items == [] {
      assert |raw| == 0;
      ShortWaits(raw);
    } else if TakeRecord(raw) != NeedMore {
      TakeIsIncremental(raw, future);
      var head, rest := ItemBytes(items[0]), EncodeItems(items[1..]);
      match items[0] {
        case Hello(body) => RecordRoundTrip(HANDSHAKE, 0x01, body, rest);
        case Ccs => RecordRoundTrip(CHANGE_CIPHER_SPEC, 0x03, [0x01], rest);
        case Data(kind, p) => RecordRoundTrip(kind, 0x03, p, rest);
      }
      assert (head + rest)[|head|..] == rest;
      assert (raw + future)[|head|..] == raw[|head|..] + future;
    }
  }

  lemma ShortWaits(raw: seq<byte>)
    requires |raw| < 5
    ensures TakeRecord(raw) == NeedMore
  {}

  /** Advancing over any front of the stream loses nothing, delivers nothing of the reply, and never fails. */
  lemma {:induction false} AdvanceKeeps(r: Reader, items: seq<Item>, future: seq<byte>)
    requires WellFormed(r.awaiting, items) && r.raw + future == EncodeItems(items) && r.ok
    ensures var r', left := Advance(r), Leftover(r, items);
            && r'.ok
            && r'.raw + future == EncodeItems(left)
            && r'.ready + Content(left) == r.ready + Content(items)
            && WellFormed(r'.awaiting, left)
            && (r'.ready == [] ==> TakeRecord(r'.raw) == NeedMore)
    decreases |r.raw|
  {
    hide TakeRecord, ItemBytes;
    if r.ready == [] {
      FrontItem(r.awaiting, items, r.raw, future);
      match TakeRecord(r.raw)
      case Rec(kind, payload, n) =>
        TakeIsIncremental(r.raw, []);
        var rest := r.(raw := r.raw[n..]);
        if items[0].Hello? { assert items[1..][1..] == items[2..]; }
        if r.awaiting && kind == CHANGE_CIPHER_SPEC {
          AdvanceKeeps(rest.(awaiting := false), items[1..], future);
        } else if r.awaiting && kind == HANDSHAKE {
          AdvanceKeeps(rest, items[1..], future);
        } else {
          AdvanceKeeps(rest.(awaiting := false, ready := payload), items[1..], future);
        }
      case _ =>
    }
  }

  lemma WriteKeeps(s: State, buf: seq<byte>)
    requires Inv(s)
    ensures Inv(Step(s, Write(buf)))
  {
    hide EncodeItems, Content, WellFormed, Record, TakeRecord;
    if s.out == [] && buf != [] {
      var p := buf[..Min(|buf|, MAX_DATA)];
      var more := [Data(s.nextKind, p)];
      var s' := Step(s, Write(buf));
      OneRecord(s.nextKind, p);
      EncodeAppend(s.items, more);
      ContentAppend(s.items, more);
      assert s'.raw + s'.wire + s'.out == (s.raw + s.wire + s.out) + EncodeItems(more);
      assert s'.delivered + s'.ready + Content(s'.items) == s.accepted + p;
      MoreData(s.awaiting, s.items, more[0]);
    }
  }

  lemma OneRecord(kind: byte, p: seq<byte>)
    ensures EncodeItems([Data(kind, p)]) == Record(kind, 0x03, p) && Content([Data(kind, p)]) == p
  {
    hide Record;
    assert [Data(kind, p)][1..] == [];
  }

  lemma MoreData(awaiting: bool, items: seq<Item>, it: Item)
    requires WellFormed(awaiting, items) && it.Data? && 0 < |it.payload| <= MAX_DATA
    ensures WellFormed(awaiting, items + [it])
  {
    if awaiting {
      assert (items + [it])[1..] == items[1..] + [it];
      if items[0].Hello? { assert (items + [it])[2..] == items[2..] + [it]; }
    }
  }

  lemma TakeInKeeps(s: State, n: nat)
    requires Inv(s) && n <= |s.wire| && s.ready == [] && s.close.None?
    ensures Inv(TakeIn(s, n)) && (TakeIn(s, n).ready == [] ==> TakeRecord(TakeIn(s, n).raw) == NeedMore)
  {
    hide Advance, Leftover, EncodeItems, Content, WellFormed, TakeRecord;
    var r := Reader(s.raw + s.wire[..n], [], s.awaiting, true);
    var future := s.wire[n..] + s.out;
    assert r.raw + future == s.raw + s.wire + s.out;
    AdvanceKeeps(r, s.items, future);
    var s' := TakeIn(s, n);
    assert s'.raw + s'.wire + s'.out == s'.raw + future;
    assert s'.delivered + s'.ready + Content(s'.items) == s.delivered + (s.ready + Content(s.items));
  }

  lemma StepKeeps(s: State, a: Action)
    requires Inv(s)
    ensures Inv(Step(s, a))
  {
    hide TakeIn, EncodeItems, Content, WellFormed, Record, TakeRecord;
    match a
    case Flush(n) =>
      if n <= |s.out| { assert s.raw + (s.wire + s.out[..n]) + s.out[n..] == s.raw + s.wire + s.out; }
    case Write(buf) => WriteKeeps(s, buf);
    case Arrive(n) => if n <= |s.wire| && s.ready == [] && s.close.None? { TakeInKeeps(s, n); }
    case End => if s.wire == [] && s.ready == [] && s.close.None? { TakeInKeeps(s, 0); }
    case Read(cap) =>
      var k := Min(cap, |s.ready|);
      assert (s.delivered + s.ready[..k]) + s.ready[k..] == s.delivered + s.ready;
  }

  lemma {:induction false} RunKeeps(s: State, acts: seq<Action>)
    requires Inv(s)
    ensures Inv(Run(s, acts))
    decreases |acts|
  {
    hide Step, Inv;
    if acts != [] {
      StepKeeps(s, acts[0]);
      RunKeeps(Step(s, acts[0]), acts[1..]);
    }
  }

  /** What the reader holds is a whole number of records, and what never arrived begins with a new one. */
  ghost predicate OnBoundary(s: State) {
    exists k :: 0 <= k <= |s.items| && s.raw == EncodeItems(s.items[..k]) && s.wire + s.out == EncodeItems(s.items[k..])
  }

  /** In both directions, under any fragmentation and any partial writes: what is delivered is a prefix of what was
      written, to the server the hello's ticket first, hence never a byte of the reply; once everything has arrived it is all of it; and when the transport
      ends, the end is reported clean if and only if it falls on a record boundary, with only whole records
      undelivered. */
  lemma StreamIsTransparent(toServer: bool, ticket: seq<byte>, serverHello: seq<byte>, acts: seq<Action>)
    requires |serverHello| <= MAX_RECORD
    ensures var s := Run(if toServer then ToServer(ticket) else ToClient(serverHello), acts);
            && !s.failed
            && (toServer ==> ticket <= s.accepted)
            && s.delivered + s.ready <= s.accepted
            && (s.raw + s.wire + s.out == [] ==> s.delivered + s.ready == s.accepted)
            && (s.close.Some? ==> (s.close == Some(Clean) <==> OnBoundary(s)))
            && (s.close == Some(Clean) ==>
                  s.wire + s.out == EncodeItems(s.items) && s.delivered + Content(s.items) == s.accepted)
  {
    hide Run, Inv, OnBoundary, EncodeItems, Content;
    var init := if toServer then ToServer(ticket) else ToClient(serverHello);
    InitHolds(toServer, ticket, serverHello);
    RunKeeps(init, acts);
    AcceptedGrows(init, acts);
    InvMeans(Run(init, acts));
    if Run(init, acts).close.Some? { CloseMeans(Run(init, acts)); }
  }

  /** What was accepted stays accepted. */
  lemma {:induction false} AcceptedGrows(s: State, acts: seq<Action>)
    ensures s.accepted <= Run(s, acts).accepted
    decreases |acts|
  {
    hide TakeRecord, Advance, Leftover;
    if acts != [] { AcceptedGrows(Step(s, acts[0]), acts[1..]); }
  }

  lemma InvMeans(s: State)
    requires Inv(s)
    ensures !s.failed && s.delivered + s.ready <= s.accepted
    ensures s.raw + s.wire + s.out == [] ==> s.delivered + s.ready == s.accepted
  {
    hide TakeRecord, EncodeItems, WellFormed;
    if s.raw + s.wire + s.out == [] { NoItems(s.items); }
  }

  lemma CloseMeans(s: State)
    requires Inv(s) && s.close.Some?
    ensures s.close == Some(Clean) <==> OnBoundary(s)
    ensures s.close == Some(Clean) ==>
              s.wire + s.out == EncodeItems(s.items) && s.delivered + Content(s.items) == s.accepted
  {
    hide TakeRecord, EncodeItems, Content, WellFormed;
    if s.raw == [] {
      assert s.raw + s.wire + s.out == s.wire + s.out && s.delivered + s.ready == s.delivered;
      assert s.items[..0] == [] && s.items[0..] == s.items;
      EncodeNone();
      assert OnBoundary(s);
    } else if OnBoundary(s) {
      BoundaryIsEmpty(s);
    }
  }

  lemma EncodeNone()
    ensures EncodeItems([]) == []
  {}

  lemma BoundaryIsEmpty(s: State)
    requires Inv(s) && s.close.Some? && OnBoundary(s)
    ensures s.raw == []
  {
    hide TakeRecord, Record;
    var k :| 0 <= k <= |s.items| && s.raw == EncodeItems(s.items[..k]);
    assert s.items[..0] == [];
    if k > 0 { WholeRecordIsTaken(s.awaiting, s.items, k); }
  }

  lemma WholeRecordIsTaken(awaiting: bool, items: seq<Item>, k: nat)
    requires WellFormed(awaiting, items) && 0 < k <= |items|
    ensures TakeRecord(EncodeItems(items[..k])).Rec?
  {
    hide TakeRecord, Record;
    var front := items[..k];
    assert front[0] == items[0];
    var rest := EncodeItems(front[1..]);
    match items[0]
    case Hello(body) => RecordRoundTrip(HANDSHAKE, 0x01, body, rest);
    case Ccs => RecordRoundTrip(CHANGE_CIPHER_SPEC, 0x03, [0x01], rest);
    case Data(kind, p) => RecordRoundTrip(kind, 0x03, p, rest);
  }

  lemma InitHolds(toServer: bool, ticket: seq<byte>, serverHello: seq<byte>)
    requires |serverHello| <= MAX_RECORD
    ensures Inv(if toServer then ToServer(ticket) else ToClient(serverHello))
  {
    var items := [Hello(serverHello), Ccs];
    assert items[1..] == [Ccs] && Content([Ccs]) == [] && Content(items) == [];
  }

  lemma NoItems(items: seq<Item>)
    ensures EncodeItems(items) == [] ==> items == []
  {
    assert items != [] ==> |ItemBytes(items[0])| >= 5;
  }

  // ------------------------------------------------------------------
  // Nothing gets stuck
  // ------------------------------------------------------------------

  lemma {:induction false} RunAppend(s: State, x: seq<Action>, y: seq<Action>)
    ensures Run(s, x + y) == Run(Run(s, x), y)
    decreases |x|
  {
    hide Step;
    if x == [] {
      assert x + y == y;
    } else {
      RunAppend(Step(s, x[0]), x[1..], y);
      assert (x + y)[1..] == x[1..] + y;
    }
  }

  lemma RunTwo(s: State, a: Action, b: Action)
    ensures Run(s, [a, b]) == Step(Step(s, a), b)
  {
    hide Step;
    assert [a, b] == [a] + [b];
    assert Run(Step(s, a), [b]) == Run(Step(Step(s, a), b), []);
  }

  /** With everything flushed and nothing ready, one more arrival makes payload ready or finds nothing left. */
  lemma ArrivalMakesReady(s: State)
    requires Inv(s) && s.out == [] && s.ready == [] && s.close.None?
    ensures var t := Step(s, Arrive(|s.wire|));
            && Inv(t) && t.out == [] && t.wire == [] && t.close.None? && t.accepted == s.accepted
            && t.delivered == s.delivered && (t.ready == [] ==> t.raw == [] && t.items == [])
  {
    hide TakeRecord, EncodeItems, Content, WellFormed, Advance, Leftover;
    TakeInKeeps(s, |s.wire|);
    var t := Step(s, Arrive(|s.wire|));
    assert s.wire[|s.wire|..] == [];
    assert t.raw + t.wire + t.out == t.raw;
    assert t.items[..|t.items|] == t.items;
    if t.ready == [] && t.items != [] { WholeRecordIsTaken(t.awaiting, t.items, |t.items|); }
    EncodeNone();
  }

  /** Reading what is ready. */
  lemma ReadReady(s: State)
    requires Inv(s)
    ensures var t := Step(s, Read(|s.ready|));
            Inv(t) && t == s.(ready := [], delivered := s.delivered + s.ready)
  {
    hide Inv;
    StepKeeps(s, Read(|s.ready|));
    assert s.ready[|s.ready|..] == [] && s.ready[..|s.ready|] == s.ready;
  }

  lemma {:induction false} ReadOn(s: State) returns (acts: seq<Action>)
    requires Inv(s) && s.out == [] && s.ready == [] && s.close.None?
    ensures var t := Run(s, acts);
            t.delivered == s.accepted == t.accepted && t.raw + t.wire + t.out + t.ready == []
    ensures forall i :: 0 <= i < |acts| ==> acts[i].Arrive? || acts[i].Read?
    decreases |s.accepted| - |s.delivered|
  {
    hide Step, Run, Inv;
    var a := Arrive(|s.wire|);
    var s1 := Step(s, a);
    ArrivalMakesReady(s);
    var b := Read(|s1.ready|);
    ReadReady(s1);
    var s2 := Step(s1, b);
    RunTwo(s, a, b);
    DeliveredWithin(s1);
    if s1.ready == [] {
      NothingLeft(s1);
      acts := [a, b];
    } else {
      var more := ReadOn(s2);
      RunAppend(s, [a, b], more);
      acts := [a, b] + more;
    }
  }

  lemma DeliveredWithin(s: State)
    requires Inv(s)
    ensures |s.delivered| + |s.ready| <= |s.accepted|
  {
    assert |s.delivered + s.ready + Content(s.items)| == |s.accepted|;
  }

  lemma NothingLeft(s: State)
    requires Inv(s) && s.items == [] && s.ready == []
    ensures s.delivered == s.accepted
  {
    assert s.delivered + [] + [] == s.delivered;
  }

  /** From every reachable state in which the end has not been reported, in both directions: flushing, arrivals and reads
      alone deliver everything that was written, the ticket included. */
  lemma StreamDrains(toServer: bool, ticket: seq<byte>, serverHello: seq<byte>, acts: seq<Action>) returns (more: seq<Action>)
    requires |serverHello| <= MAX_RECORD
    requires Run(if toServer then ToServer(ticket) else ToClient(serverHello), acts).close.None?
    ensures var s := Run(if toServer then ToServer(ticket) else ToClient(serverHello), acts);
            var t := Run(s, more);
            t.delivered == s.accepted == t.accepted
    ensures forall i :: 0 <= i < |more| ==> !more[i].Write? && !more[i].End?
  {
    hide Step, Run, Inv;
    var init := if toServer then ToServer(ticket) else ToClient(serverHello);
    var s := Run(init, acts);
    InitHolds(toServer, ticket, serverHello);
    RunKeeps(init, acts);
    var a, b := Flush(|s.out|), Read(|s.ready|);
    FlushAll(s);
    var s1 := Step(s, a);
    ReadReady(s1);
    RunTwo(s, a, b);
    var rest := ReadOn(Step(s1, b));
    RunAppend(s, [a, b], rest);
    more := [a, b] + rest;
  }

  /** Once everything encoded has gone out, a write takes up to a record's worth, typed as the next record is to be. */
  lemma WriteIsTaken(s: State, buf: seq<byte>)
    requires s.out == [] && buf != []
    ensures var n := Min(|buf|, 16384);
            var t := Step(s, Write(buf));
            && t.accepted == s.accepted + buf[..n] && t.nextKind == APP_DATA
            && t.out == Record(s.nextKind, 0x03, buf[..n])
  {}

  lemma FlushAll(s: State)
    requires Inv(s)
    ensures var t := Step(s, Flush(|s.out|));
            Inv(t) && t == s.(out := [], wire := s.wire + s.out)
  {
    hide Inv;
    StepKeeps(s, Flush(|s.out|));
    assert s.out[|s.out|..] == [] && s.out[..|s.out|] == s.out;
  }
}
