/** The decoder's window seen as the set of absolute shard numbers it holds, for one encoder feeding one decoder. */
module FecWindow {
  import opened Bytes
  import opened Modular
  import opened FecCodec
  import opened Fec

  // ------------------------------------------------------------------
  // What one encoder has sent: shard number a carries sequence number a mod paws
  // ------------------------------------------------------------------

  function MaxLen(xs: seq<seq<byte>>): nat {
    if xs == [] then 0 else Max(|xs[0]|, MaxLen(xs[1..]))
  }

  lemma {:induction false} MaxLenIs(xs: seq<seq<byte>>)
    ensures forall i :: 0 <= i < |xs| ==> |xs[i]| <= MaxLen(xs)
    ensures AllLength(PadAll(xs, MaxLen(xs)), MaxLen(xs))
  {
    if xs != [] {
      MaxLenIs(xs[1..]);
      assert forall i :: 0 < i < |xs| ==> xs[i] == xs[1..][i - 1];
    }
  }

  /** The data payloads of the group that starts at shard b. */
  function GroupData(sh: Shape, log: seq<Shard>, b: nat): seq<seq<byte>>
    requires b + sh.d <= |log|
  {
    seq(sh.d, i requires 0 <= i < sh.d => log[b + i].payload)
  }

  function GroupLen(sh: Shape, log: seq<Shard>, b: nat): nat
    requires b + sh.d <= |log|
  {
    MaxLen(GroupData(sh, log, b))
  }

  function GroupStart(sh: Shape, a: nat): nat
    requires sh.Valid()
  {
    BlockStart(sh.N(), a);
    a - a % sh.N()
  }

  lemma GroupStartIs(sh: Shape, a: nat)
    requires sh.Valid()
    ensures var b := GroupStart(sh, a); b % sh.N() == 0 && b <= a < b + sh.N()
  {
    BlockStart(sh.N(), a);
  }

  /** Data in the first d places of a group, parity of the padded data in the others. */
  predicate SentOk(sh: Shape, log: seq<Shard>, a: nat)
    requires sh.Valid() && a < |log|
  {
    var idx, b := a % sh.N(), GroupStart(sh, a);
    && log[a].seqid == a % sh.Paws()
    && if idx < sh.d then log[a].flag == TYPE_DATA && |log[a].payload| >= 2
       else
         && log[a].flag == TYPE_PARITY
         && var ps := sh.codec.encode(PadAll(GroupData(sh, log, b), GroupLen(sh, log, b)));
            |ps| == sh.p && log[a].payload == ps[idx - sh.d]
  }

  predicate WellSent(sh: Shape, log: seq<Shard>)
    requires sh.Valid()
  {
    forall a :: 0 <= a < |log| ==> SentOk(sh, log, a)
  }

  // ------------------------------------------------------------------
  // Windows of shard numbers
  // ------------------------------------------------------------------

  predicate Sorted(win: seq<nat>) { forall i, j :: 0 <= i < j < |win| ==> win[i] < win[j] }

  predicate Refines(rx: seq<Shard>, win: seq<nat>, log: seq<Shard>) {
    |rx| == |win| && forall i :: 0 <= i < |win| ==> win[i] < |log| && rx[i] == log[win[i]]
  }

  /** Every number in the window is less than 2^31 - 256 away from a. */
  predicate Near(win: seq<nat>, a: nat) { forall i :: 0 <= i < |win| ==> -SPAN < win[i] - a < SPAN }

  /** Measured to the end of the group that starts at b, the window reaches back less than 2^31 - 256. */
  predicate Clear(sh: Shape, win: seq<nat>, b: nat) {
    forall i :: 0 <= i < |win| ==> b + sh.N() - 1 - win[i] < SPAN
  }

  /** How many numbers of a sorted window are below x. */
  function Below(win: seq<nat>, x: nat): (k: nat)
    ensures k <= |win|
  {
    if win == [] || win[0] >= x then 0 else 1 + Below(win[1..], x)
  }

  lemma {:induction false} BelowIs(win: seq<nat>, x: nat)
    requires Sorted(win)
    ensures forall i :: 0 <= i < Below(win, x) ==> win[i] < x
    ensures forall i :: Below(win, x) <= i < |win| ==> win[i] >= x
  {
    if win != [] && win[0] < x {
      assert Sorted(win[1..]);
      BelowIs(win[1..], x);
      assert forall i :: 0 < i < |win| ==> win[i] == win[1..][i - 1];
    }
  }

  lemma {:induction false} BelowMonotone(win: seq<nat>, x: nat, y: nat)
    requires x <= y
    ensures Below(win, x) <= Below(win, y)
  {
    if win != [] && win[0] < x { BelowMonotone(win[1..], x, y); }
  }

  lemma BelowUnique(win: seq<nat>, x: nat, at: nat)
    requires Sorted(win) && at <= |win|
    requires forall i :: 0 <= i < at ==> win[i] < x
    requires forall i :: at <= i < |win| ==> win[i] >= x
    ensures Below(win, x) == at
  {
    BelowIs(win, x);
    var k := Below(win, x);
    assert k < |win| ==> win[k] >= x;
    assert at < |win| ==> win[at] >= x;
  }

  /** Distinct sorted numbers are at least as far apart as their places. */
  lemma {:induction false} Gaps(win: seq<nat>, i: nat, j: nat)
    requires Sorted(win) && i <= j < |win|
    ensures win[j] - win[i] >= j - i
    decreases j
  {
    if i < j { Gaps(win, i, j - 1); }
  }

  function Arrived(win: seq<nat>, a: nat): seq<nat> { InsertAt(win, Below(win, a), a) }

  // ------------------------------------------------------------------
  // Ordered insertion
  // ------------------------------------------------------------------

  lemma {:induction false} ScanRefines(sh: Shape, log: seq<Shard>, rx: seq<Shard>, win: seq<nat>, a: nat, i: nat)
    requires sh.Valid() && WellSent(sh, log) && a < |log|
    requires Refines(rx, win, log) && Sorted(win) && Near(win, a) && i <= |rx|
    requires forall j :: i <= j < |win| ==> win[j] > a
    ensures Scan(rx, i, log[a].seqid) == if a in win then None else Some(Below(win, a))
  {
    BelowIs(win, a);
    if i == 0 {
      BelowUnique(win, a, 0);
      assert a !in win;
    } else {
      var x := win[i - 1];
      assert SentOk(sh, log, x) && SentOk(sh, log, a);
      SignedDiffOrders(sh.Paws(), a, x);
      if x > a {
        ScanRefines(sh, log, rx, win, a, i - 1);
      } else if x < a {
        BelowUnique(win, a, i);
        assert a !in win;
      } else {
        assert a in win;
      }
    }
  }

  lemma InsertKeepsSorted(win: seq<nat>, at: nat, a: nat)
    requires Sorted(win) && at <= |win|
    requires forall i :: 0 <= i < at ==> win[i] < a
    requires forall i :: at <= i < |win| ==> win[i] > a
    ensures Sorted(InsertAt(win, at, a))
  {
    var w := InsertAt(win, at, a);
    assert forall i :: 0 <= i < |w| ==> w[i] == if i < at then win[i] else if i == at then a else win[i - 1];
  }

  lemma InsertMembers(win: seq<nat>, at: nat, a: nat, x: nat)
    requires at <= |win|
    ensures x in InsertAt(win, at, a) <==> x == a || x in win
  {
    assert win == win[..at] + win[at..];
  }

  lemma InsertRefines(rx: seq<Shard>, win: seq<nat>, log: seq<Shard>, at: nat, a: nat)
    requires Refines(rx, win, log) && at <= |win| && a < |log|
    ensures Refines(InsertAt(rx, at, log[a]), InsertAt(win, at, a), log)
  {}

  lemma ArrivedIs(log: seq<Shard>, rx: seq<Shard>, win: seq<nat>, a: nat)
    requires Refines(rx, win, log) && Sorted(win) && a < |log| && a !in win
    ensures Sorted(Arrived(win, a)) && Arrived(win, a)[Below(win, a)] == a
    ensures Refines(InsertAt(rx, Below(win, a), log[a]), Arrived(win, a), log)
    ensures forall x :: x in Arrived(win, a) <==> x == a || x in win
  {
    BelowIs(win, a);
    var at := Below(win, a);
    assert forall i :: 0 <= i < |win| ==> win[i] != a;
    InsertKeepsSorted(win, at, a);
    InsertRefines(rx, win, log, at, a);
    forall x ensures x in Arrived(win, a) <==> x == a || x in win { InsertMembers(win, at, a, x); }
  }

  // ------------------------------------------------------------------
  // The group in sequence-number space
  // ------------------------------------------------------------------

  lemma MultipleFits(n: nat, m: nat, x: nat)
    requires n > 0 && x < m && x % n == 0 && m % n == 0
    ensures x + n <= m
  {
    DivMod(x, n);
    DivMod(m, n);
    var i, j := x / n, m / n;
    if j <= i {
      MulMonotone(n, j, i);
    } else {
      MulDiff(n, j, i);
      MulAtLeast(n, j - i);
    }
  }

  /** The decoder's shard_begin and shard_end are the group's own ends, reduced. */
  lemma GroupEnds(sh: Shape, a: nat)
    requires sh.Valid()
    ensures var n, m, b := sh.N(), sh.Paws(), GroupStart(sh, a);
            && a % m % n == a % n
            && GroupBegin(n, a % m) == b % m
            && GroupEnd(n, a % m) == (b + n - 1) % m
  {
    var n, m, b := sh.N(), sh.Paws(), GroupStart(sh, a);
    ModOfMod(n, m, a);
    ModOfMod(n, m, b);
    BlockStart(n, a);
    MultipleFits(n, m, b % m);
    ModShift(m, b, a % n);
    ModShift(m, b, n - 1);
  }

  /** How a shard near a compares with the ends of a's group. */
  lemma CompareEnds(sh: Shape, a: nat, x: nat)
    requires sh.Valid() && -SPAN < x - a < SPAN
    ensures var n, m, b := sh.N(), sh.Paws(), GroupStart(sh, a);
            var begin, end := b % m, (b + n - 1) % m;
            && begin < 0x1_0000_0000 && end < 0x1_0000_0000 && x % m < 0x1_0000_0000
            && (x >= b + n ==> SignedDiff(x % m, end) > 0)
            && (b <= x < b + n ==> SignedDiff(x % m, end) <= 0 <= SignedDiff(x % m, begin))
            && (x < b ==> SignedDiff(x % m, begin) < 0)
            && (x < b && b + n - 1 - x < SPAN ==> SignedDiff(x % m, end) <= 0)
  {
    var n, m, b := sh.N(), sh.Paws(), GroupStart(sh, a);
    if x >= b + n {
      SignedDiffOrders(m, x, b + n - 1);
    } else if x >= b {
      SignedDiffOrders(m, x, b + n - 1);
      SignedDiffOrders(m, x, b);
    } else {
      SignedDiffOrders(m, x, b);
      if b + n - 1 - x < SPAN { SignedDiffOrders(m, x, b + n - 1); }
    }
  }

  // ------------------------------------------------------------------
  // Collecting the group
  // ------------------------------------------------------------------

  /** A group's slots hold exactly the payloads of its shards among the window places f..i. */
  ghost predicate Slots(sh: Shape, log: seq<Shard>, win: seq<nat>, b: nat, f: nat, i: nat, g: Group)
    requires f <= i <= |win|
  {
    && |g.shards| == sh.N()
    && forall idx :: 0 <= idx < sh.N() ==>
         g.shards[idx] == if b + idx in win[f..i] && b + idx < |log| then Some(log[b + idx].payload) else None
  }

  /** Its recorded length is that of the longest of them. */
  ghost predicate Longest(log: seq<Shard>, win: seq<nat>, f: nat, i: nat, g: Group)
    requires f <= i <= |win|
  {
    && (forall j :: f <= j < i ==> win[j] < |log| && |log[win[j]].payload| <= g.maxLen)
    && (g.maxLen == 0 || exists j :: f <= j < i && |log[win[j]].payload| == g.maxLen)
  }

  /** The state of collection after the window places f..i, all in the group that starts at b. */
  ghost predicate Collected(sh: Shape, log: seq<Shard>, win: seq<nat>, b: nat, f: nat, i: nat, g: Group)
    requires f <= i <= |win|
  {
    && Slots(sh, log, win, b, f, i, g)
    && Longest(log, win, f, i, g)
    && g.num == i - f == Present(g.shards)
    && (i > f ==> g.first == f)
    && g.data == Min(i, Max(f, Below(win, b + sh.d))) - f
  }

  /** A shard of the group goes to the slot of its offset, and is data exactly in the first d slots. */
  lemma SlotOf(sh: Shape, log: seq<Shard>, a: nat, x: nat)
    requires sh.Valid() && WellSent(sh, log) && x < |log|
    requires GroupStart(sh, a) <= x < GroupStart(sh, a) + sh.N()
    ensures log[x].seqid % sh.N() == x - GroupStart(sh, a)
    ensures log[x].flag == TYPE_DATA <==> x < GroupStart(sh, a) + sh.d
  {
    var n, b := sh.N(), GroupStart(sh, a);
    BlockStart(n, a);
    BlockOffset(n, b, x);
    assert SentOk(sh, log, x);
    ModOfMod(n, sh.Paws(), x);
  }

  lemma SlotsExtend(sh: Shape, log: seq<Shard>, win: seq<nat>, b: nat, f: nat, i: nat, g: Group, at: nat, s: Shard)
    requires sh.N() > 0 && Sorted(win) && f <= i < |win| && b <= win[i] < b + sh.N()
    requires win[i] < |log| && s == log[win[i]] && s.seqid % sh.N() == win[i] - b
    requires Slots(sh, log, win, b, f, i, g)
    ensures Slots(sh, log, win, b, f, i + 1, AddShard(g, at, s))
    ensures Present(AddShard(g, at, s).shards) == Present(g.shards) + 1
  {
    hide Present;
    var k := win[i] - b;
    assert win[i] !in win[f..i];
    assert g.shards[k] == None;
    PresentUpdate(g.shards, k, s.payload);
    assert win[f..i + 1] == win[f..i] + [win[i]];
  }

  lemma LongestExtends(log: seq<Shard>, win: seq<nat>, f: nat, i: nat, g: Group, at: nat, s: Shard)
    requires f <= i < |win| && win[i] < |log| && s == log[win[i]] && |g.shards| > 0
    requires Longest(log, win, f, i, g)
    ensures Longest(log, win, f, i + 1, AddShard(g, at, s))
  {
    assert |log[win[i]].payload| == |s.payload|;
    if |s.payload| < g.maxLen {
      var j :| f <= j < i && |log[win[j]].payload| == g.maxLen;
      assert f <= j < i + 1 && |log[win[j]].payload| == g.maxLen;
    }
  }

  lemma CollectOne(sh: Shape, log: seq<Shard>, rx: seq<Shard>, win: seq<nat>, a: nat, f: nat, i: nat, g: Group)
    requires sh.Valid() && WellSent(sh, log) && Refines(rx, win, log) && Sorted(win)
    requires f <= i < |win| && GroupStart(sh, a) <= win[i] < GroupStart(sh, a) + sh.N()
    requires Collected(sh, log, win, GroupStart(sh, a), f, i, g)
    ensures Collected(sh, log, win, GroupStart(sh, a), f, i + 1, AddShard(g, i, rx[i]))
  {
    hide Slots, Longest, WellSent, Refines, Sorted, GroupStart, Below, Present;
    var b := GroupStart(sh, a);
    RefinesAt(rx, win, log, i);
    SlotOf(sh, log, a, win[i]);
    SlotsCount(sh, log, win, b, f, i, g);
    SlotsExtend(sh, log, win, b, f, i, g, i, rx[i]);
    LongestExtends(log, win, f, i, g, i, rx[i]);
    BelowAt(win, b + sh.d, i);
  }

  lemma SlotsCount(sh: Shape, log: seq<Shard>, win: seq<nat>, b: nat, f: nat, i: nat, g: Group)
    requires f <= i <= |win| && Slots(sh, log, win, b, f, i, g)
    ensures |g.shards| == sh.N()
  {}

  lemma RefinesAt(rx: seq<Shard>, win: seq<nat>, log: seq<Shard>, i: nat)
    requires Refines(rx, win, log) && i < |win|
    ensures |rx| == |win| && win[i] < |log| && rx[i] == log[win[i]]
  {}

  lemma BelowAt(win: seq<nat>, x: nat, i: nat)
    requires Sorted(win) && i < |win|
    ensures win[i] < x <==> i < Below(win, x)
  {
    BelowIs(win, x);
  }

  /** Collection over places lo..hi between the ends of a's group. */
  function GatherGroup(sh: Shape, rx: seq<Shard>, a: nat, lo: nat, hi: nat): Group
    requires sh.Valid() && lo <= hi <= |rx|
  {
    var n, m, b := sh.N(), sh.Paws(), GroupStart(sh, a);
    Gather(rx, lo, hi, b % m, (b + n - 1) % m, NoShards(n))
  }

  /** At a place of the group collection takes the shard; beyond the group it stops. */
  lemma GatherStep(sh: Shape, log: seq<Shard>, rx: seq<Shard>, win: seq<nat>, a: nat, i: nat, hi: nat, g: Group)
    requires sh.Valid() && WellSent(sh, log) && Refines(rx, win, log) && Sorted(win) && Near(win, a)
    requires i < hi <= |win| && win[i] >= GroupStart(sh, a) && |g.shards| > 0
    ensures var n, m, b := sh.N(), sh.Paws(), GroupStart(sh, a);
            Gather(rx, i, hi, b % m, (b + n - 1) % m, g) ==
            if win[i] < b + n then Gather(rx, i + 1, hi, b % m, (b + n - 1) % m, AddShard(g, i, rx[i])) else g
  {
    CompareEnds(sh, a, win[i]);
    assert SentOk(sh, log, win[i]);
  }

  /** From place i on, the rest of the group is collected and then collection stops. */
  lemma {:induction false} CollectRest(sh: Shape, log: seq<Shard>, rx: seq<Shard>, win: seq<nat>, a: nat,
                                       f: nat, h: nat, i: nat, hi: nat, g: Group)
    requires sh.Valid() && WellSent(sh, log) && Refines(rx, win, log) && Sorted(win) && Near(win, a)
    requires f <= i <= h <= hi <= |win|
    requires forall j :: f <= j < h ==> GroupStart(sh, a) <= win[j] < GroupStart(sh, a) + sh.N()
    requires h < |win| ==> win[h] >= GroupStart(sh, a) + sh.N()
    requires Collected(sh, log, win, GroupStart(sh, a), f, i, g)
    ensures var n, m, b := sh.N(), sh.Paws(), GroupStart(sh, a);
            Collected(sh, log, win, b, f, h, Gather(rx, i, hi, b % m, (b + n - 1) % m, g))
    decreases hi - i
  {
    hide AddShard, SentOk, Longest, Below, GroupStart, Present, Near, WellSent;
    if i < hi {
      GatherStep(sh, log, rx, win, a, i, hi, g);
      if i < h {
        CollectOne(sh, log, rx, win, a, f, i, g);
        CollectRest(sh, log, rx, win, a, f, h, i + 1, hi, AddShard(g, i, rx[i]));
      }
    }
  }

  /** Places i..f before the group are skipped, unless the window reaches back so far that collection stops at once. */
  lemma {:induction false} SkipEarlier(sh: Shape, log: seq<Shard>, rx: seq<Shard>, win: seq<nat>, a: nat, i: nat, f: nat, hi: nat)
    requires sh.Valid() && WellSent(sh, log) && Refines(rx, win, log) && Near(win, a)
    requires i <= f <= hi <= |win| && forall j :: i <= j < f ==> win[j] < GroupStart(sh, a)
    ensures var g, none := GatherGroup(sh, rx, a, i, hi), NoShards(sh.N());
            && (g == none || g == GatherGroup(sh, rx, a, f, hi))
            && (Clear(sh, win, GroupStart(sh, a)) ==> g == GatherGroup(sh, rx, a, f, hi))
    decreases f - i
  {
    if i < f {
      SkipOne(sh, log, rx, win, a, i, hi);
      hide GatherGroup, GroupStart, WellSent, SentOk;
      SkipEarlier(sh, log, rx, win, a, i + 1, f, hi);
    }
  }

  lemma SkipOne(sh: Shape, log: seq<Shard>, rx: seq<Shard>, win: seq<nat>, a: nat, i: nat, hi: nat)
    requires sh.Valid() && WellSent(sh, log) && Refines(rx, win, log) && Near(win, a)
    requires i < hi <= |win| && win[i] < GroupStart(sh, a)
    ensures var g, none := GatherGroup(sh, rx, a, i, hi), NoShards(sh.N());
            && (g == none || g == GatherGroup(sh, rx, a, i + 1, hi))
            && (GroupStart(sh, a) + sh.N() - 1 - win[i] < SPAN ==> g == GatherGroup(sh, rx, a, i + 1, hi))
  {
    CompareEnds(sh, a, win[i]);
    assert SentOk(sh, log, win[i]);
  }

  /** The bounded search always covers every present shard of the arriving group. */
  lemma SearchCovers(sh: Shape, win: seq<nat>, a: nat, at: nat)
    requires sh.Valid() && Sorted(win) && at < |win| && win[at] == a
    ensures var n, b := sh.N(), GroupStart(sh, a);
            var f, h := Below(win, b), Below(win, b + n);
            var lo := SearchBegin(at, a % n);
            var hi := SearchEnd(|win|, n, lo);
            lo <= f <= at < h <= hi + 1 <= |win|
  {
    hide Below;
    var n, b := sh.N(), GroupStart(sh, a);
    BlockStart(n, a);
    BelowIs(win, b);
    BelowIs(win, b + n);
    Gaps(win, Below(win, b), at);
    Gaps(win, at, Below(win, b + n) - 1);
  }

  lemma NothingCollected(sh: Shape, log: seq<Shard>, win: seq<nat>, b: nat)
    requires Sorted(win)
    ensures Collected(sh, log, win, b, Below(win, b), Below(win, b), NoShards(sh.N()))
  {
    BelowIs(win, b);
    PresentNone(NoShards(sh.N()).shards);
  }

  lemma GroupAroundIs(sh: Shape, rx: seq<Shard>, at: nat, a: nat)
    requires sh.Valid() && at < |rx|
    ensures var lo := SearchBegin(at, a % sh.N());
            var hi := SearchEnd(|rx|, sh.N(), lo);
            GroupAround(sh, rx, at, a % sh.Paws()) ==
            if hi - lo + 1 >= sh.d then GatherGroup(sh, rx, a, lo, hi + 1) else NoShards(sh.N())
  {
    GroupEnds(sh, a);
  }

  /** Places f..h are those of the group. */
  predicate Spans(sh: Shape, win: seq<nat>, b: nat, f: nat, h: nat) {
    && f <= h <= |win|
    && (forall j :: 0 <= j < f ==> win[j] < b)
    && (forall j :: f <= j < h ==> b <= win[j] < b + sh.N())
    && (h < |win| ==> win[h] >= b + sh.N())
  }

  lemma GatherCollects(sh: Shape, log: seq<Shard>, rx: seq<Shard>, win: seq<nat>, a: nat, lo: nat, hi: nat, f: nat, h: nat)
    requires sh.Valid() && WellSent(sh, log) && Refines(rx, win, log) && Sorted(win) && Near(win, a)
    requires Spans(sh, win, GroupStart(sh, a), f, h) && f == Below(win, GroupStart(sh, a)) && lo <= f && h <= hi <= |win|
    ensures var b := GroupStart(sh, a);
            var g := GatherGroup(sh, rx, a, lo, hi);
            && (g == NoShards(sh.N()) || Collected(sh, log, win, b, f, h, g))
            && (Clear(sh, win, b) ==> Collected(sh, log, win, b, f, h, g))
  {
    hide GatherGroup, Collected, Below, GroupStart, WellSent, NoShards;
    CollectAll(sh, log, rx, win, a, f, h, hi);
    SkipEarlier(sh, log, rx, win, a, lo, f, hi);
  }

  lemma CollectAll(sh: Shape, log: seq<Shard>, rx: seq<Shard>, win: seq<nat>, a: nat, f: nat, h: nat, hi: nat)
    requires sh.Valid() && WellSent(sh, log) && Refines(rx, win, log) && Sorted(win) && Near(win, a)
    requires Spans(sh, win, GroupStart(sh, a), f, h) && f == Below(win, GroupStart(sh, a)) && h <= hi <= |win|
    ensures Collected(sh, log, win, GroupStart(sh, a), f, h, GatherGroup(sh, rx, a, f, hi))
  {
    hide Gather, Collected, Below, GroupStart, WellSent;
    NothingCollected(sh, log, win, GroupStart(sh, a));
    CollectRest(sh, log, rx, win, a, f, h, f, hi, NoShards(sh.N()));
  }

  /** Either nothing was collected, or the whole group as the window holds it; and the whole group whenever there are
      d shards of it and the window does not reach back too far. */
  ghost predicate WholeOrNothing(sh: Shape, log: seq<Shard>, win: seq<nat>, b: nat, g: Group) {
    var f, h := Below(win, b), Below(win, b + sh.N());
    && f <= h
    && (g == NoShards(sh.N()) || Collected(sh, log, win, b, f, h, g))
    && (Clear(sh, win, b) && h - f >= sh.d ==> Collected(sh, log, win, b, f, h, g))
  }

  /** What the decoder collects around an arrival: the whole group as the window holds it, or nothing; and the
      whole group whenever there are d shards of it and the window does not reach back too far. */
  lemma GroupCollected(sh: Shape, log: seq<Shard>, rx: seq<Shard>, win: seq<nat>, a: nat, at: nat)
    requires sh.Valid() && WellSent(sh, log) && Refines(rx, win, log) && Sorted(win) && Near(win, a)
    requires at < |win| && win[at] == a
    ensures WholeOrNothing(sh, log, win, GroupStart(sh, a), GroupAround(sh, rx, at, log[a].seqid))
  {
    hide WholeOrNothing, GroupAround, GatherGroup, Collected, SentOk, Below, WellSent, Near, Clear, GroupStart, NoShards;
    hide SearchBegin, SearchEnd, Sorted, Refines, Spans;
    RefinesLength(rx, win, log);
    SeqidOf(sh, log, a);
    SearchCovers(sh, win, a, at);
    GroupAroundIs(sh, rx, at, a);
    SpansOf(sh, win, GroupStart(sh, a));
    CollectedWithin(sh, log, rx, win, a, SearchBegin(at, a % sh.N()), SearchEnd(|win|, sh.N(), SearchBegin(at, a % sh.N())));
  }

  lemma SeqidOf(sh: Shape, log: seq<Shard>, a: nat)
    requires sh.Valid() && WellSent(sh, log) && a < |log|
    ensures log[a].seqid == a % sh.Paws()
  {
    assert SentOk(sh, log, a);
  }

  lemma RefinesLength(rx: seq<Shard>, win: seq<nat>, log: seq<Shard>)
    requires Refines(rx, win, log)
    ensures |rx| == |win| && forall i :: 0 <= i < |win| ==> win[i] < |log|
  {}

  lemma SpansOf(sh: Shape, win: seq<nat>, b: nat)
    requires Sorted(win)
    ensures Below(win, b) <= Below(win, b + sh.N())
    ensures Spans(sh, win, b, Below(win, b), Below(win, b + sh.N()))
  {
    BelowIs(win, b);
    BelowIs(win, b + sh.N());
    BelowMonotone(win, b, b + sh.N());
  }

  lemma CollectedWithin(sh: Shape, log: seq<Shard>, rx: seq<Shard>, win: seq<nat>, a: nat, lo: nat, hi: int)
    requires sh.Valid() && WellSent(sh, log) && Refines(rx, win, log) && Sorted(win) && Near(win, a)
    requires var b := GroupStart(sh, a);
             var f, h := Below(win, b), Below(win, b + sh.N());
             lo <= f <= h <= hi + 1 <= |win| && Spans(sh, win, b, f, h)
    ensures WholeOrNothing(sh, log, win, GroupStart(sh, a),
                           if hi - lo + 1 >= sh.d then GatherGroup(sh, rx, a, lo, hi + 1) else NoShards(sh.N()))
  {
    hide GatherGroup, Collected, SentOk, Below, WellSent, Near, Clear, GroupStart, NoShards;
    var b := GroupStart(sh, a);
    if hi - lo + 1 >= sh.d {
      GatherCollects(sh, log, rx, win, a, lo, hi + 1, Below(win, b), Below(win, b + sh.N()));
    }
  }
}
