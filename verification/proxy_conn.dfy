/** A connection with read-ahead: peeking, pushing back, and reading exactly one response head. */
module ProxyConn {
  import opened Bytes

  /** The wrapped transport: the bytes still to come before its end, handed over in pieces of any size. */
  class Source {
    var rest: seq<byte>

    constructor (bytes: seq<byte>)
      ensures rest == bytes
    {
      rest := bytes;
    }

    method Read(cap: nat) returns (b: seq<byte>)
      modifies this
      ensures b + rest == old(rest) && |b| <= cap
      ensures b == [] <==> cap == 0 || old(rest) == []
    {
      if cap == 0 || rest == [] {
        return [];
      }
      var k :| 1 <= k <= cap && k <= |rest|;
      b := rest[..k];
      rest := rest[k..];
    }
  }

  class Conn {
    const inner: Source
    var prefix: seq<byte>
    var prefixPos: nat

    predicate Valid()
      reads this
    {
      prefixPos <= |prefix|
    }

    /** Everything a reader has yet to see: pushed-back bytes, then the transport's remainder. */
    function Pending(): seq<byte>
      requires Valid()
      reads this, inner
    {
      prefix[prefixPos..] + inner.rest
    }

    constructor (inner: Source)
      ensures Valid() && this.inner == inner && Pending() == inner.rest
    {
      this.inner, prefix, prefixPos := inner, [], 0;
    }

    /** Looks at up to n bytes; what is pending does not change. */
    method Peek(n: nat) returns (b: seq<byte>)
      requires Valid()
      modifies this`prefix, inner
      ensures Valid() && Pending() == old(Pending())
      ensures b == Pending()[..Min(n, |Pending()|)]
    {
      while |prefix| - prefixPos < n
        invariant Valid() && Pending() == old(Pending())
        decreases |inner.rest|
      {
        ghost var before := inner.rest;
        var chunk := inner.Read(n - (|prefix| - prefixPos));
        if chunk == [] {
          break;
        }
        assert prefix[prefixPos..] + before == (prefix + chunk)[prefixPos..] + inner.rest;
        prefix := prefix + chunk;
      }
      var available := prefix[prefixPos..];
      b := available[..Min(|available|, n)];
    }

    /** Puts bytes back in front of everything else. */
    method Unread(bytes: seq<byte>)
      requires Valid()
      modifies this`prefix, this`prefixPos
      ensures Valid() && Pending() == bytes + old(Pending())
    {
      if bytes == [] {
        return;
      }
      var merged := bytes + prefix[prefixPos..];
      prefix, prefixPos := merged, 0;
    }

    /** Delivers a non-empty prefix of what is pending, unless nothing is or nothing was asked for. */
    method Read(cap: nat) returns (b: seq<byte>)
      requires Valid()
      modifies this`prefix, this`prefixPos, inner
      ensures Valid() && b + Pending() == old(Pending()) && |b| <= cap
      ensures b == [] <==> cap == 0 || old(Pending()) == []
    {
      if prefixPos < |prefix| {
        var available := prefix[prefixPos..];
        var n := Min(cap, |available|);
        b := available[..n];
        assert available == b + prefix[prefixPos + n..];
        prefixPos := prefixPos + n;
        if prefixPos == |prefix| {
          prefix, prefixPos := [], 0;
        }
        return;
      }
      b := inner.Read(cap);
    }
  }

  // ------------------------------------------------------------------
  // Any sequence of calls
  // ------------------------------------------------------------------

  datatype Op = DoRead(cap: nat) | DoPeek(n: nat) | DoUnread(bytes: seq<byte>)

  /** From `before` to `after` by these calls: a read removes exactly what it delivered from the front, a peek shows
      the front and removes nothing, pushing back puts exactly those bytes in front. */
  predicate Replays(before: seq<byte>, ops: seq<Op>, outs: seq<seq<byte>>, after: seq<byte>)
    decreases |ops|
  {
    if ops == [] then outs == [] && after == before
    else
      && |outs| == |ops|
      && match ops[0]
         case DoRead(cap) =>
           && |outs[0]| <= cap && outs[0] <= before && (outs[0] == [] <==> cap == 0 || before == [])
           && Replays(before[|outs[0]|..], ops[1..], outs[1..], after)
         case DoPeek(n) => outs[0] == before[..Min(n, |before|)] && Replays(before, ops[1..], outs[1..], after)
         case DoUnread(b) => outs[0] == [] && Replays(b + before, ops[1..], outs[1..], after)
  }

  method RunCalls(c: Conn, ops: seq<Op>) returns (outs: seq<seq<byte>>)
    requires c.Valid()
    modifies c, c.inner
    ensures c.Valid() && Replays(old(c.Pending()), ops, outs, c.Pending())
    decreases |ops|
  {
    if ops == [] {
      return [];
    }
    ghost var before := c.Pending();
    var out: seq<byte> := [];
    match ops[0] {
      case DoRead(cap) => out := c.Read(cap);
      case DoPeek(n) => out := c.Peek(n);
      case DoUnread(b) => c.Unread(b);
    }
    ghost var mid := c.Pending();
    assert ops[0].DoRead? ==> mid == before[|out|..];
    var rest := RunCalls(c, ops[1..]);
    outs := [out] + rest;
    assert outs[1..] == rest;
  }

  /** The lengths balance over any sequence of calls. */
  function BytesRead(ops: seq<Op>, outs: seq<seq<byte>>): nat
    requires |ops| == |outs|
    decreases |ops|
  {
    if ops == [] then 0 else (if ops[0].DoRead? then |outs[0]| else 0) + BytesRead(ops[1..], outs[1..])
  }

  function BytesPushed(ops: seq<Op>): nat {
    if ops == [] then 0 else (if ops[0].DoUnread? then |ops[0].bytes| else 0) + BytesPushed(ops[1..])
  }

  lemma {:induction false} NothingLost(before: seq<byte>, ops: seq<Op>, outs: seq<seq<byte>>, after: seq<byte>)
    requires Replays(before, ops, outs, after)
    ensures |outs| == |ops| && BytesRead(ops, outs) + |after| == |before| + BytesPushed(ops)
    decreases |ops|
  {
    if ops != [] {
      match ops[0]
      case DoRead(_) => NothingLost(before[|outs[0]|..], ops[1..], outs[1..], after);
      case DoPeek(_) => NothingLost(before, ops[1..], outs[1..], after);
      case DoUnread(b) => NothingLost(b + before, ops[1..], outs[1..], after);
    }
  }

  // ------------------------------------------------------------------
  // Reading one response head
  // ------------------------------------------------------------------

  const CRLFCRLF: seq<byte> := [13, 10, 13, 10]
  const MAX_HEAD: nat := 8192

  /** The length of the shortest prefix that ends in a blank line, searching from i. */
  function HeadEnd(s: seq<byte>, i: nat): Option<nat>
    decreases |s| - i
  {
    if i + 4 > |s| then None
    else if s[i..i + 4] == CRLFCRLF then Some(i + 4)
    else HeadEnd(s, i + 1)
  }

  predicate EndsHead(s: seq<byte>, n: nat) { 4 <= n <= |s| && s[n - 4..n] == CRLFCRLF }

  lemma {:induction false} HeadEndIsShortest(s: seq<byte>, i: nat)
    ensures var r := HeadEnd(s, i);
            && (r.Some? ==> i + 4 <= r.value && EndsHead(s, r.value))
            && (forall n :: i + 4 <= n && EndsHead(s, n) ==> r.Some? && r.value <= n)
    decreases |s| - i
  {
    if i + 4 <= |s| && s[i..i + 4] != CRLFCRLF { HeadEndIsShortest(s, i + 1); }
  }

  /** Reading more can only reveal a head that was not yet complete. */
  lemma HeadEndExtends(a: seq<byte>, b: seq<byte>)
    ensures HeadEnd(a, 0).Some? ==> HeadEnd(a + b, 0) == HeadEnd(a, 0)
    ensures HeadEnd(a, 0).None? && HeadEnd(a + b, 0).Some? ==> HeadEnd(a + b, 0).value > |a|
  {
    HeadEndIsShortest(a, 0);
    HeadEndIsShortest(a + b, 0);
    forall n | 4 <= n <= |a| ensures EndsHead(a + b, n) <==> EndsHead(a, n) {
      assert (a + b)[n - 4..n] == a[n - 4..n];
    }
  }

  lemma HeadEndWithin(s: seq<byte>)
    ensures |s| < 4 ==> HeadEnd(s, 0).None?
    ensures HeadEnd(s, 0).Some? ==> HeadEnd(s, 0).value <= |s|
  {
    HeadEndIsShortest(s, 0);
  }

  datatype Head = Ok(head: seq<byte>) | Closed | TooLarge

  /** Under any fragmentation: success consumes exactly the shortest prefix that ends in a blank line and leaves every
      later byte readable; a head of at most 8192 bytes that arrives is always returned; nothing else succeeds. */
  method ReadResponseHead(c: Conn) returns (r: Head)
    requires c.Valid()
    modifies c, c.inner
    ensures c.Valid()
    ensures r.Ok? ==> HeadEnd(old(c.Pending()), 0) == Some(|r.head|)
    ensures r.Ok? ==> r.head + c.Pending() == old(c.Pending())
    ensures var e := HeadEnd(old(c.Pending()), 0); e.Some? && e.value <= MAX_HEAD ==> r.Ok?
    ensures r.Closed? ==> HeadEnd(old(c.Pending()), 0).None?
  {
    hide HeadEnd;
    ghost var all := c.Pending();
    var acc: seq<byte> := [];
    HeadEndWithin(acc);
    while true
      invariant c.Valid() && acc + c.Pending() == all
      invariant HeadEnd(acc, 0).None?
      decreases |c.Pending()|
    {
      ghost var before := c.Pending();
      var chunk := c.Read(512);
      if chunk == [] {
        assert acc == all by { assert acc + [] == acc; }
        return Closed;
      }
      assert (acc + chunk) + c.Pending() == acc + before;
      acc := acc + chunk;
      HeadEndExtends(acc, c.Pending());
      HeadEndWithin(acc);
      var e := HeadEnd(acc, 0);
      if e.Some? {
        var n := e.value;
        assert acc == acc[..n] + acc[n..];
        c.Unread(acc[n..]);
        return Ok(acc[..n]);
      }
      if |acc| > MAX_HEAD {
        return TooLarge;
      }
    }
    r := Closed;
  }
}
