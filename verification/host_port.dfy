/** Splitting and joining addresses: the permission checker's splitter, the chain's own, and the joiner. */
module HostPort {
  import opened Bytes
  import Glob

  // ------------------------------------------------------------------
  // Searching a string
  // ------------------------------------------------------------------

  function FindFirst(s: string, c: char): Option<nat> {
    if s == "" then None
    else if s[0] == c then Some(0)
    else match FindFirst(s[1..], c) case None => None case Some(i) => Some(i + 1)
  }

  function FindLast(s: string, c: char): Option<nat> {
    if s == "" then None
    else if s[|s| - 1] == c then Some(|s| - 1)
    else FindLast(s[..|s| - 1], c)
  }

  lemma {:induction false} FirstIs(s: string, c: char)
    ensures FindFirst(s, c).None? <==> c !in s
    ensures FindFirst(s, c).Some? ==>
              var i := FindFirst(s, c).value; i < |s| && s[i] == c && c !in s[..i]
  {
    if s != "" {
      assert s == [s[0]] + s[1..];
      FirstIs(s[1..], c);
      if s[0] != c && FindFirst(s[1..], c).Some? {
        var i := FindFirst(s[1..], c).value;
        assert s[..i + 1] == [s[0]] + s[1..][..i];
      }
    }
  }

  lemma {:induction false} LastIs(s: string, c: char)
    ensures FindLast(s, c).None? <==> c !in s
    ensures FindLast(s, c).Some? ==>
              var i := FindLast(s, c).value; i < |s| && s[i] == c && c !in s[i + 1..]
  {
    if s != "" {
      var front := s[..|s| - 1];
      assert s == front + [s[|s| - 1]];
      LastIs(front, c);
      if s[|s| - 1] != c && FindLast(front, c).Some? {
        var i := FindLast(front, c).value;
        assert s[i + 1..] == front[i + 1..] + [s[|s| - 1]];
      }
    }
  }

  lemma LastUnique(s: string, c: char, i: nat)
    requires i < |s| && s[i] == c && c !in s[i + 1..]
    ensures FindLast(s, c) == Some(i)
  {
    LastIs(s, c);
  }

  lemma FirstUnique(s: string, c: char, i: nat)
    requires i < |s| && s[i] == c && c !in s[..i]
    ensures FindFirst(s, c) == Some(i)
  {
    FirstIs(s, c);
  }

  // ------------------------------------------------------------------
  // The permission checker's splitter
  // ------------------------------------------------------------------

  datatype Split =
    | Ok(host: string, port: string)
    | MissingPort | TooManyColons | MissingRBracket | UnexpectedLBracket | UnexpectedRBracket

  /** The bracket checks that end the split; `j` and `k` are where they start looking. */
  function Finish(s: string, i: nat, host: string, j: nat, k: nat): Split
    requires i < |s| && j <= |s| && k <= |s|
  {
    if '[' in s[j..] then UnexpectedLBracket
    else if ']' in s[k..] then UnexpectedRBracket
    else Ok(host, s[i + 1..])
  }

  function SplitHostPort(s: string): Split {
    FirstIs(s, ']');
    LastIs(s, ':');
    match FindLast(s, ':')
    case None => MissingPort
    case Some(i) =>
      if s[0] == '[' then
        match FindFirst(s, ']')
        case None => MissingRBracket
        case Some(end) =>
          if end + 1 == |s| then MissingPort
          else if end + 1 == i then Finish(s, i, s[1..end], 1, end + 1)
          else if s[end + 1] == ':' then TooManyColons
          else MissingPort
      else if ':' in s[..i] then TooManyColons
      else Finish(s, i, s[..i], 0, 0)
  }

  predicate NoBrackets(s: string) { '[' !in s && ']' !in s }

  predicate Bare(s: string) { NoBrackets(s) && ':' !in s }

  /** The two shapes of address. */
  predicate IsAddress(s: string, h: string, p: string) {
    || (s == h + ":" + p && Bare(h) && Bare(p))
    || (s == "[" + h + "]:" + p && NoBrackets(h) && Bare(p))
  }

  lemma BareAddressSplits(h: string, p: string)
    requires Bare(h) && Bare(p)
    ensures SplitHostPort(h + ":" + p) == Ok(h, p)
  {
    hide FindFirst, FindLast;
    var s := h + ":" + p;
    assert s[|h|] == ':' && s[|h| + 1..] == p && s[..|h|] == h;
    LastUnique(s, ':', |h|);
    assert '[' !in s && ']' !in s && s[0..] == s;
    assert s[0] == if h == "" then ':' else h[0];
  }

  lemma BracketedAddressSplits(h: string, p: string)
    requires NoBrackets(h) && Bare(p)
    ensures SplitHostPort("[" + h + "]:" + p) == Ok(h, p)
  {
    hide FindFirst, FindLast;
    var s := "[" + h + "]:" + p;
    var end := |h| + 1;
    assert s[0] == '[' && s[end] == ']' && s[end + 1] == ':';
    assert s[end + 2..] == p && s[1..end] == h && s[..end] == "[" + h;
    LastUnique(s, ':', end + 1);
    FirstUnique(s, ']', end);
    assert s[1..] == h + "]:" + p;
    assert s[end + 1..] == ":" + p;
  }

  lemma BareParts(s: string, i: nat)
    requires i < |s| && s[i] == ':' && ':' !in s[i + 1..] && ':' !in s[..i] && NoBrackets(s)
    ensures s == s[..i] + ":" + s[i + 1..] && Bare(s[..i]) && Bare(s[i + 1..])
  {}

  lemma BracketedParts(s: string, end: nat)
    requires 0 < end && end + 1 < |s| && s[0] == '[' && s[end] == ']' && s[end + 1] == ':'
    requires ']' !in s[..end] && '[' !in s[1..] && ']' !in s[end + 1..] && ':' !in s[end + 2..]
    ensures s == "[" + s[1..end] + "]:" + s[end + 2..] && NoBrackets(s[1..end]) && Bare(s[end + 2..])
  {
    assert forall k :: 1 <= k < end ==> s[k] in s[..end] && s[k] in s[1..];
    assert forall k :: end + 2 <= k < |s| ==> s[k] in s[end + 1..] && s[k] in s[1..];
  }

  lemma SplitIsAddress(s: string)
    requires SplitHostPort(s).Ok?
    ensures IsAddress(s, SplitHostPort(s).host, SplitHostPort(s).port)
  {
    FirstIs(s, ']');
    LastIs(s, ':');
    hide FindFirst, FindLast, IsAddress;
    var i := FindLast(s, ':').value;
    var h, p := SplitHostPort(s).host, SplitHostPort(s).port;
    assert IsAddress(s, h, p) by {
      if s[0] == '[' {
        BracketedParts(s, FindFirst(s, ']').value);
        AddressShape(s, h, p);
      } else {
        assert s[0..] == s;
        BareParts(s, i);
        AddressShape(s, h, p);
      }
    }
  }

  lemma AddressShape(s: string, h: string, p: string)
    ensures s == h + ":" + p && Bare(h) && Bare(p) ==> IsAddress(s, h, p)
    ensures s == "[" + h + "]:" + p && NoBrackets(h) && Bare(p) ==> IsAddress(s, h, p)
  {}

  /** The splitter succeeds exactly on the two shapes, with exactly those parts. */
  lemma SplitsExactlyAddresses(s: string, h: string, p: string)
    ensures SplitHostPort(s) == Ok(h, p) <==> IsAddress(s, h, p)
  {
    if IsAddress(s, h, p) {
      if s == h + ":" + p && Bare(h) && Bare(p) { BareAddressSplits(h, p); } else { BracketedAddressSplits(h, p); }
    }
    if SplitHostPort(s) == Ok(h, p) { SplitIsAddress(s); }
  }

  /** How the refusals differ: no colon, two colons outside brackets, an opening bracket never closed. */
  lemma SplitErrors(s: string)
    ensures ':' !in s ==> SplitHostPort(s) == MissingPort
    ensures s != "" && s[0] != '[' && (exists i, j :: 0 <= i < j < |s| && s[i] == ':' && s[j] == ':') ==>
              SplitHostPort(s) == TooManyColons
    ensures s != "" && s[0] == '[' && ':' in s && ']' !in s ==> SplitHostPort(s) == MissingRBracket
    ensures s != "" && s[0] == '[' && ':' in s && s[|s| - 1] == ']' && ']' !in s[..|s| - 1] ==> SplitHostPort(s) == MissingPort
  {
    FirstIs(s, ']');
    LastIs(s, ':');
    hide FindFirst, FindLast;
    if s != "" && s[|s| - 1] == ']' && ']' !in s[..|s| - 1] { FirstUnique(s, ']', |s| - 1); }
    if i, j :| 0 <= i < j < |s| && s[i] == ':' && s[j] == ':' {
      var last := FindLast(s, ':').value;
      assert s[..last][i] == ':';
    }
  }

  // ------------------------------------------------------------------
  // Ports
  // ------------------------------------------------------------------

  predicate IsDigit(c: char) { '0' <= c <= '9' }

  function DigitOf(c: char): nat
    requires IsDigit(c)
  {
    c as int - '0' as int
  }

  function CharOf(d: nat): char
    requires d < 10
  {
    ('0' as int + d) as char
  }

  predicate AllDigits(s: string) { forall i :: 0 <= i < |s| ==> IsDigit(s[i]) }

  function Value(s: string): nat
    requires AllDigits(s)
  {
    if s == "" then 0 else 10 * Value(s[..|s| - 1]) + DigitOf(s[|s| - 1])
  }

  /** The standard library's parse: an optional plus sign, at least one digit, no overflow. */
  function ParseU16(s: string): Option<u16> {
    var d := if s != "" && s[0] == '+' then s[1..] else s;
    if d == "" || !AllDigits(d) || Value(d) > 65535 then None else Some(Value(d))
  }

  function Decimal(n: nat): (s: string)
    ensures |s| >= 1 && AllDigits(s)
  {
    if n < 10 then [CharOf(n)] else Decimal(n / 10) + [CharOf(n % 10)]
  }

  lemma {:induction false} DecimalValue(n: nat)
    ensures Value(Decimal(n)) == n
  {
    if n >= 10 {
      DecimalValue(n / 10);
      assert Decimal(n)[..|Decimal(n)| - 1] == Decimal(n / 10);
    } else {
      assert Decimal(n)[..0] == "";
    }
  }

  lemma ParseDecimal(n: u16)
    ensures ParseU16(Decimal(n)) == Some(n) && Bare(Decimal(n))
  {
    DecimalValue(n);
    assert IsDigit(Decimal(n)[0]);
  }

  function Noughts(k: nat): string { seq(k, _ => '0') }

  lemma OneDigit(c: char)
    requires IsDigit(c)
    ensures Decimal(DigitOf(c)) == [c]
  {}

  lemma MoreDigits(v: nat, c: char)
    requires v > 0 && IsDigit(c)
    ensures Decimal(10 * v + DigitOf(c)) == Decimal(v) + [c]
  {
    var n := 10 * v + DigitOf(c);
    assert n / 10 == v && n % 10 == DigitOf(c);
  }

  lemma ValueStep(d: string)
    requires d != "" && AllDigits(d)
    ensures var front := d[..|d| - 1];
            AllDigits(front) && IsDigit(d[|d| - 1]) && Value(d) == 10 * Value(front) + DigitOf(d[|d| - 1])
            && (front == "" ==> Value(front) == 0)
  {}

  /** A run of digits is its value's decimal form behind some noughts. */
  lemma {:induction false} DigitsAre(d: string) returns (k: nat)
    requires d != "" && AllDigits(d)
    ensures d == Noughts(k) + Decimal(Value(d))
  {
    hide Value, Decimal, DigitOf;
    var front, c := d[..|d| - 1], d[|d| - 1];
    assert d == front + [c];
    ValueStep(d);
    var v := Value(front);
    OneDigit(c);
    if front == "" {
      k := 0;
    } else {
      k := DigitsAre(front);
      if v == 0 {
        NoughtsEnd(k);
        k := k + 1;
      } else {
        MoreDigits(v, c);
        ConcatAssoc(Noughts(k), Decimal(v), [c]);
      }
    }
  }

  lemma NoughtsEnd(k: nat)
    ensures Noughts(k) + Decimal(0) == Noughts(k + 1)
  {
    assert Decimal(0) == "0";
  }

  lemma {:induction false} NoughtsAdd(k: nat, d: string)
    requires AllDigits(d)
    ensures AllDigits(Noughts(k) + d) && Value(Noughts(k) + d) == Value(d)
    decreases |d|
  {
    if d == "" {
      NoughtsAre(k);
      assert Noughts(k) + d == Noughts(k);
    } else {
      var s := Noughts(k) + d;
      NoughtsAdd(k, d[..|d| - 1]);
      assert s[..|s| - 1] == Noughts(k) + d[..|d| - 1];
    }
  }

  lemma {:induction false} NoughtsAre(k: nat)
    ensures AllDigits(Noughts(k)) && Value(Noughts(k)) == 0
  {
    if k > 0 {
      NoughtsAre(k - 1);
      assert Noughts(k)[..k - 1] == Noughts(k - 1);
    }
  }

  /** The port texts that parse: an optional plus sign, any number of noughts, and the port in decimal. */
  ghost predicate SpellsPort(s: string, n: u16) {
    exists k: nat :: s == Noughts(k) + Decimal(n) || s == "+" + (Noughts(k) + Decimal(n))
  }

  lemma ParseU16Iff(s: string, n: u16)
    ensures ParseU16(s) == Some(n) <==> SpellsPort(s, n)
  {
    if ParseU16(s) == Some(n) {
      var d := if s != "" && s[0] == '+' then s[1..] else s;
      var k := DigitsAre(d);
      if s != d { assert s == "+" + d; }
    }
    if SpellsPort(s, n) {
      var k: nat :| s == Noughts(k) + Decimal(n) || s == "+" + (Noughts(k) + Decimal(n));
      var d := Noughts(k) + Decimal(n);
      DecimalValue(n);
      NoughtsAdd(k, Decimal(n));
      assert IsDigit(d[0]) && ("+" + d)[1..] == d;
    }
  }

  // ------------------------------------------------------------------
  // The joiner and the chain's splitter
  // ------------------------------------------------------------------

  function JoinHostPort(host: string, port: u16): string {
    if ':' in host && host[0] != '[' then "[" + host + "]:" + Decimal(port) else host + ":" + Decimal(port)
  }

  /** Splitting undoes joining exactly for the bracket-free hosts. */
  lemma SplitUndoesJoinIff(host: string, port: u16)
    ensures SplitHostPort(JoinHostPort(host, port)) == Ok(host, Decimal(port)) <==> NoBrackets(host)
  {
    ParseDecimal(port);
    SplitsExactlyAddresses(JoinHostPort(host, port), host, Decimal(port));
  }

  function ChainSplit(addr: string): Option<(string, u16)> {
    FirstIs(addr, ']');
    LastIs(addr, ':');
    if addr != "" && addr[0] == '[' then
      match FindFirst(addr, ']')
      case None => None
      case Some(end) =>
        if end + 1 >= |addr| || addr[end + 1] != ':' then None
        else match ParseU16(addr[end + 2..]) case None => None case Some(n) => Some((addr[1..end], n))
    else
      match FindLast(addr, ':')
      case None => None
      case Some(i) => match ParseU16(addr[i + 1..]) case None => None case Some(n) => Some((addr[..i], n))
  }

  /** Whatever the checker splits with a valid port, the chain splits the same way. */
  lemma SplittersAgree(s: string)
    requires SplitHostPort(s).Ok? && ParseU16(SplitHostPort(s).port).Some?
    ensures ChainSplit(s) == Some((SplitHostPort(s).host, ParseU16(SplitHostPort(s).port).value))
  {
    hide FindFirst, FindLast, ParseU16;
    FirstIs(s, ']');
    LastIs(s, ':');
  }

  /** The chain is the more lenient of the two: it takes an unbracketed IPv6 address the checker refuses. */
  lemma ChainIsMoreLenient()
    ensures SplitHostPort("::1:80") == TooManyColons && ChainSplit("::1:80") == Some(("::1", 80))
  {
    var s := "::1:80";
    LastUnique(s, ':', 3);
    assert s[..3] == "::1" && s[4..] == "80" && ':' in s[..3];
    assert Value("80") == 80 by { assert "80"[..1] == "8" && "8"[..0] == ""; }
    assert ParseU16("80") == Some(80);
  }

  lemma PortIsBare(p: string)
    requires ParseU16(p).Some?
    ensures Bare(p)
  {}

  /** What the chain splits is one of two shapes, with the port text behind the last or the bracketed colon. */
  lemma ChainShape(s: string) returns (p: string)
    requires ChainSplit(s).Some?
    ensures s != "" && ParseU16(p) == Some(ChainSplit(s).value.1) && Bare(p)
    ensures s == if s[0] == '[' then "[" + ChainSplit(s).value.0 + "]:" + p else ChainSplit(s).value.0 + ":" + p
  {
    hide FindFirst, FindLast, ParseU16;
    FirstIs(s, ']');
    LastIs(s, ':');
    if s[0] == '[' {
      var end := FindFirst(s, ']').value;
      p := s[end + 2..];
      assert s == "[" + s[1..end] + "]:" + p;
    } else {
      var i := FindLast(s, ':').value;
      p := s[i + 1..];
      assert s == s[..i] + ":" + p;
    }
    PortIsBare(p);
  }

  /** Which of what the chain splits the checker splits the same way: exactly the bracket-free hosts that are either
      bracketed in the address or free of colons. */
  lemma CheckerAgreesIff(s: string)
    requires ChainSplit(s).Some?
    ensures var (h, n) := ChainSplit(s).value;
            (SplitHostPort(s).Ok? && SplitHostPort(s).host == h && ParseU16(SplitHostPort(s).port) == Some(n))
            <==> (NoBrackets(h) && (s[0] == '[' || ':' !in h))
  {
    var p := ChainShape(s);
    var (h, n) := ChainSplit(s).value;
    hide SplitHostPort, ChainSplit, ParseU16;
    if NoBrackets(h) && (s[0] == '[' || ':' !in h) { SplitsExactlyAddresses(s, h, p); }
    if SplitHostPort(s).Ok? && SplitHostPort(s).host == h { AddressHost(s, h, SplitHostPort(s).port); }
  }

  /** The host of an address the checker splits. */
  lemma AddressHost(s: string, h: string, p: string)
    requires SplitHostPort(s) == Ok(h, p)
    ensures s != "" && NoBrackets(h) && (s[0] == '[' || ':' !in h)
  {
    SplitIsAddress(s);
  }

  // ------------------------------------------------------------------
  // The permission check
  // ------------------------------------------------------------------

  datatype PortRange = PortRange(min: int, max: int)

  datatype Permission = Permission(actions: seq<string>, hosts: seq<string>, ports: seq<PortRange>)

  ghost predicate Lists(patterns: seq<string>, s: string) {
    exists i :: 0 <= i < |patterns| && Glob.Matches(patterns[i], s)
  }

  ghost predicate Permits(rules: seq<Permission>, action: string, host: string, port: u16) {
    exists i :: 0 <= i < |rules|
      && Lists(rules[i].actions, action)
      && Lists(rules[i].hosts, host)
      && exists j :: 0 <= j < |rules[i].ports| && rules[i].ports[j].min <= port <= rules[i].ports[j].max
  }

  ghost predicate Passes(whitelist: Option<seq<Permission>>, blacklist: Option<seq<Permission>>,
                         action: string, host: string, port: u16)
  {
    && (whitelist.Some? ==> Permits(whitelist.value, action, host, port))
    && (blacklist.Some? ==> !Permits(blacklist.value, action, host, port))
  }

  ghost predicate Can(action: string, addr: string, whitelist: Option<seq<Permission>>, blacklist: Option<seq<Permission>>) {
    var full := if ':' in addr then addr else addr + ":80";
    match SplitHostPort(full)
    case Ok(host, port) =>
      ParseU16(port).Some? && Passes(whitelist, blacklist, action, host, ParseU16(port).value)
    case _ => false
  }

  function Unbracketed(addr: string): string {
    if |addr| >= 2 && addr[0] == '[' then addr[1..|addr| - 1] else addr
  }

  /** Whenever the chain can split an address that is let through, the very host and port it will dial passed both
      lists. An address without a colon is checked with port 80 and never split by the chain. */
  lemma CheckedIsDialled(action: string, addr: string, whitelist: Option<seq<Permission>>, blacklist: Option<seq<Permission>>)
    requires Can(action, addr, whitelist, blacklist)
    ensures ChainSplit(addr).Some? <==> ':' in addr
    ensures ChainSplit(addr).Some? ==>
              Passes(whitelist, blacklist, action, ChainSplit(addr).value.0, ChainSplit(addr).value.1)
    ensures ':' !in addr ==> Passes(whitelist, blacklist, action, Unbracketed(addr), 80)
  {
    hide SplitHostPort, ChainSplit, ParseU16, Passes;
    if ':' in addr {
      SplittersAgree(addr);
    } else {
      NoColonNoChain(addr);
      DefaultPort(addr);
    }
  }

  lemma NoColonNoChain(addr: string)
    requires ':' !in addr
    ensures ChainSplit(addr).None?
  {
    FirstIs(addr, ']');
    LastIs(addr, ':');
  }

  lemma DefaultPort(addr: string)
    requires ':' !in addr
    ensures SplitHostPort(addr + ":80").Ok? ==>
              SplitHostPort(addr + ":80") == Ok(Unbracketed(addr), "80") && ParseU16("80") == Some(80)
  {
    assert Value("80") == 80 by { assert "80"[..1] == "8" && "8"[..0] == ""; }
    var full := addr + ":80";
    if SplitHostPort(full).Ok? {
      var h, p := SplitHostPort(full).host, SplitHostPort(full).port;
      SplitIsAddress(full);
      SamePlace(addr, "80", h, p, full);
    }
  }

  /** There is one colon in `a:b`, so the parts are determined by it. */
  lemma SamePlace(a: string, b: string, h: string, p: string, s: string)
    requires ':' !in a && Bare(b) && s == a + ":" + b && IsAddress(s, h, p)
    ensures h == Unbracketed(a) && p == b
  {
    if s == h + ":" + p && Bare(h) {
      assert s[|h|] == ':' && s[|a|] == ':';
      assert a == s[..|a|] == h;
    } else {
      var front := "[" + h + "]";
      assert s == front + ":" + p && s[|front|] == ':' && s[|a|] == ':';
      assert a == s[..|a|] == front;
      assert front[1..|front| - 1] == h;
    }
    assert s[|a| + 1..] == b;
  }

  function WithPort(addr: string): string { if ':' in addr then addr else addr + ":80" }

  lemma CanIs(action: string, addr: string, whitelist: Option<seq<Permission>>, blacklist: Option<seq<Permission>>)
    ensures Can(action, addr, whitelist, blacklist) <==>
            var r := SplitHostPort(WithPort(addr));
            r.Ok? && ParseU16(r.port).Some? && Passes(whitelist, blacklist, action, r.host, ParseU16(r.port).value)
  {
    hide SplitHostPort, ParseU16, Passes;
  }

  /** The address has this host and port text, which spells this port, and the pair passes both lists. */
  ghost predicate LetsThrough(action: string, full: string, whitelist: Option<seq<Permission>>, blacklist: Option<seq<Permission>>,
                              h: string, p: string, n: u16)
  {
    && IsAddress(full, h, p) && SpellsPort(p, n)
    && (whitelist.None? || Permits(whitelist.value, action, h, n))
    && (blacklist.None? || !Permits(blacklist.value, action, h, n))
  }

  lemma LetsThroughIs(action: string, full: string, whitelist: Option<seq<Permission>>, blacklist: Option<seq<Permission>>,
                      h: string, p: string, n: u16)
    ensures LetsThrough(action, full, whitelist, blacklist, h, p, n) <==>
            SplitHostPort(full) == Ok(h, p) && ParseU16(p) == Some(n) && Passes(whitelist, blacklist, action, h, n)
  {
    hide SplitHostPort, ParseU16, IsAddress, SpellsPort, Permits;
    SplitsExactlyAddresses(full, h, p);
    ParseU16Iff(p, n);
  }

  /** The check as a whole: an address is let through if and only if, with port 80 supplied where it has no colon, it has
      one of the two shapes, its port text spells a port, and that host and port pass both lists. */
  lemma CanIff(action: string, addr: string, whitelist: Option<seq<Permission>>, blacklist: Option<seq<Permission>>)
    ensures var full := if ':' in addr then addr else addr + ":80";
            Can(action, addr, whitelist, blacklist) <==>
            exists h, p, n: u16 :: LetsThrough(action, full, whitelist, blacklist, h, p, n)
  {
    hide SplitHostPort, ParseU16, LetsThrough, Passes, Can;
    CanIs(action, addr, whitelist, blacklist);
    var full := WithPort(addr);
    if Can(action, addr, whitelist, blacklist) {
      var h, p := SplitHostPort(full).host, SplitHostPort(full).port;
      LetsThroughIs(action, full, whitelist, blacklist, h, p, ParseU16(p).value);
    }
    if h, p, n: u16 :| LetsThrough(action, full, whitelist, blacklist, h, p, n) {
      LetsThroughIs(action, full, whitelist, blacklist, h, p, n);
    }
  }

  /** A list of rules permits what one of them does: the empty list nothing, a joined list what either part does, and one
      rule with one range exactly the ports from its first to its last, for the actions and hosts its globs match. */
  lemma PermitsLaws(x: seq<Permission>, y: seq<Permission>, rule: Permission, action: string, host: string, port: u16)
    ensures !Permits([], action, host, port)
    ensures Permits(x + y, action, host, port) <==> Permits(x, action, host, port) || Permits(y, action, host, port)
    ensures Permits([rule], action, host, port) <==>
            && (exists a :: a in rule.actions && Glob.Matches(a, action))
            && (exists h :: h in rule.hosts && Glob.Matches(h, host))
            && (exists r :: r in rule.ports && r.min <= port <= r.max)
  {
    hide Glob.Matches;
    JoinedRules(x, y, action, host, port);
    OneRule(rule, action, host, port);
  }

  lemma JoinedRules(x: seq<Permission>, y: seq<Permission>, action: string, host: string, port: u16)
    ensures Permits(x + y, action, host, port) <==> Permits(x, action, host, port) || Permits(y, action, host, port)
  {
    hide Lists;
    forall i | 0 <= i < |x + y| ensures (x + y)[i] == if i < |x| then x[i] else y[i - |x|] {}
    if Permits(x, action, host, port) {
      var i :| 0 <= i < |x| && Lists(x[i].actions, action) && Lists(x[i].hosts, host)
               && exists j :: 0 <= j < |x[i].ports| && x[i].ports[j].min <= port <= x[i].ports[j].max;
      assert (x + y)[i] == x[i];
    }
    if Permits(y, action, host, port) {
      var i :| 0 <= i < |y| && Lists(y[i].actions, action) && Lists(y[i].hosts, host)
               && exists j :: 0 <= j < |y[i].ports| && y[i].ports[j].min <= port <= y[i].ports[j].max;
      assert (x + y)[|x| + i] == y[i];
    }
  }

  lemma ListsIs(patterns: seq<string>, s: string)
    ensures Lists(patterns, s) <==> exists p :: p in patterns && Glob.Matches(p, s)
  {
    hide Glob.Matches;
    if p :| p in patterns && Glob.Matches(p, s) {
      var i :| 0 <= i < |patterns| && patterns[i] == p;
      assert Glob.Matches(patterns[i], s);
    }
  }

  lemma OneRule(rule: Permission, action: string, host: string, port: u16)
    ensures Permits([rule], action, host, port) <==>
            && (exists a :: a in rule.actions && Glob.Matches(a, action))
            && (exists h :: h in rule.hosts && Glob.Matches(h, host))
            && (exists r :: r in rule.ports && r.min <= port <= r.max)
  {
    hide Lists;
    ListsIs(rule.actions, action);
    ListsIs(rule.hosts, host);
    hide Glob.Matches;
    assert [rule][0] == rule;
    if r :| r in rule.ports && r.min <= port <= r.max {
      var j :| 0 <= j < |rule.ports| && rule.ports[j] == r;
    }
  }
}
