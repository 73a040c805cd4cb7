/** How often one group can be rebuilt, and what a rebuilding hands over. */
module FecOnce {
  import opened Bytes
  import opened Modular
  import opened FecCodec
  import opened Fec
  import opened FecWindow
  import opened FecRecovery
  import opened FecSystem

  // ------------------------------------------------------------------
  // Completeness in every reachable state
  // ------------------------------------------------------------------

  /** The missing data payloads as they were sent, without padding. */
  function MissingAsSent(sh: Shape, log: seq<Shard>, win: seq<nat>, b: nat, i: nat): seq<seq<byte>>
    requires b + sh.d <= |log|
    decreases sh.d - i
  {
    if i >= sh.d then []
    else (if b + i in win then [] else [log[b + i].payload]) + MissingAsSent(sh, log, win, b, i + 1)
  }

  lemma BlocksCons(x: seq<byte>, rest: seq<seq<byte>>)
    ensures var own := PayloadSegments(x);
            Blocks([x] + rest) == (if own.Some? && |own.value| >= IKCP_OVERHEAD then [own.value] else []) + Blocks(rest)
  {
    assert ([x] + rest)[1..] == rest;
  }

  lemma SameSegments(sh: Shape, log: seq<Shard>, writes: seq<seq<byte>>, b: nat, i: nat, len: nat)
    requires sh.Valid() && WellSent(sh, log) && CarriesWrites(log, writes)
    requires b % sh.N() == 0 && i < sh.d && b + i < |log|
    ensures PayloadSegments(Pad(log[b + i].payload, len)) == PayloadSegments(log[b + i].payload)
  {
    BlockOffset(sh.N(), b, b + i);
    assert SentOk(sh, log, b + i);
    assert IsWrite(log[b + i].payload, writes);
    var w :| w in writes && 2 + |w| < 0x1_0000 && log[b + i].payload == Payload(w);
    PaddedPayload(w, len);
    PaddedPayload(w, 0);
  }

  lemma {:induction false} PaddingIsInvisible(sh: Shape, log: seq<Shard>, writes: seq<seq<byte>>, win: seq<nat>, b: nat, i: nat)
    requires sh.Valid() && WellSent(sh, log) && CarriesWrites(log, writes)
    requires b % sh.N() == 0 && b + sh.d <= |log|
    ensures Blocks(Missing(sh, log, win, b, i)) == Blocks(MissingAsSent(sh, log, win, b, i))
    decreases sh.d - i
  {
    hide Blocks, Pad, PayloadSegments, GroupLen;
    if i < sh.d {
      PaddingIsInvisible(sh, log, writes, win, b, i + 1);
      var rest, rest' := Missing(sh, log, win, b, i + 1), MissingAsSent(sh, log, win, b, i + 1);
      if b + i in win {
        assert [] + rest == rest && [] + rest' == rest';
      } else {
        SameSegments(sh, log, writes, b, i, GroupLen(sh, log, b));
        BlocksCons(Pad(log[b + i].payload, GroupLen(sh, log, b)), rest);
        BlocksCons(log[b + i].payload, rest');
      }
    }
  }

  function OwnBlocks(s: Shard): seq<seq<byte>> { Blocks(if s.flag == TYPE_DATA then [s.payload] else []) }

  /** What an arrival that is not in the window does to the state. */
  predicate Completes(sh: Shape, s: Net, s': Net, a: nat, expired: nat)
    requires sh.Valid() && a < |s.log|
  {
    var now, b := Arrived(s.win, a), GroupStart(sh, a);
    var own := OwnBlocks(s.log[a]);
    if !Ready(sh, now, b) then
      s'.blocks == s.blocks + own && s'.win == Trim(sh, now, expired)
    else
      && s'.win == Trim(sh, GroupOut(sh, now, b), expired)
      && if AllData(sh, now, b) then s'.blocks == s.blocks + own
         else b + sh.d <= |s.log| && s'.blocks == s.blocks + own + Blocks(MissingAsSent(sh, s.log, now, b, 0))
  }

  lemma CompletesFrom(sh: Shape, s: Net, a: nat, expired: nat)
    requires sh.Valid() && a < |s.log| && a !in s.win
    requires var (rx', out) := DecodeStep(sh, s.rx, s.log[a], expired);
             var now, b := Arrived(s.win, a), GroupStart(sh, a);
             && (Ready(sh, now, b) ==> Finished(sh, s.log, now, b, expired, rx', out))
             && (!Ready(sh, now, b) ==> Waited(sh, s.log, now, expired, rx', out))
             && (b + sh.d <= |s.log| ==>
                   Blocks(Missing(sh, s.log, now, b, 0)) == Blocks(MissingAsSent(sh, s.log, now, b, 0)))
    ensures Completes(sh, s, Step(sh, s, Deliver(a, expired)), a, expired)
    ensures FinishesNow(sh, s, Deliver(a, expired), GroupStart(sh, a)) <==> Ready(sh, Arrived(s.win, a), GroupStart(sh, a))
  {
    hide Ready, AllData, Arrived, GroupStart, DecodeStep, Trim, GroupOut, Refines, Missing, MissingAsSent;
    assert Blocks([]) == [];
  }

  lemma ArrivalCompletes(sh: Shape, s: Net, a: nat, expired: nat)
    requires sh.Valid() && IsErasureCode(sh.codec, sh.d, sh.p) && Inv(sh, s)
    requires a < |s.log| && a !in s.win && Near(s.win, a) && Clear(sh, Arrived(s.win, a), GroupStart(sh, a))
    ensures Completes(sh, s, Step(sh, s, Deliver(a, expired)), a, expired)
    ensures FinishesNow(sh, s, Deliver(a, expired), GroupStart(sh, a)) <==> Ready(sh, Arrived(s.win, a), GroupStart(sh, a))
  {
    hide DecodeStep, Step, Completes, FinishesNow, Arrived, Finished, Waited;
    var now, b := Arrived(s.win, a), GroupStart(sh, a);
    ArrivalOutcome(sh, s.log, s.rx, s.win, a, expired);
    BlockStart(sh.N(), a);
    if b + sh.d <= |s.log| { PaddingIsInvisible(sh, s.log, s.writes, now, b, 0); }
    CompletesFrom(sh, s, a, expired);
  }

  /** In every reachable state, as soon as d distinct shards of the arriving group are in the window, the blocks of
      exactly its missing data shards are emitted in index order (after the arrival's own), and exactly that group
      leaves the window; with fewer than d nothing is rebuilt and nothing but age and size removes a shard. */
  lemma RecoveryIsComplete(sh: Shape, evs: seq<Event>, a: nat, expired: nat)
    requires sh.Valid() && IsErasureCode(sh.codec, sh.d, sh.p) && AllowedRun(sh, START, evs)
    requires var s := Run(sh, START, evs);
             a < |s.log| && a !in s.win && Near(s.win, a) && Clear(sh, Arrived(s.win, a), GroupStart(sh, a))
    ensures var s := Run(sh, START, evs);
            Completes(sh, s, Step(sh, s, Deliver(a, expired)), a, expired)
  {
    StartHolds(sh);
    RunKeeps(sh, START, evs);
    ArrivalCompletes(sh, Run(sh, START, evs), a, expired);
  }

  // ------------------------------------------------------------------
  // At most once, when there is less parity than data and the network does not duplicate
  // ------------------------------------------------------------------

  ghost predicate FinishesNow(sh: Shape, s: Net, ev: Event, b: nat)
    requires sh.Valid()
  {
    && ev.Deliver? && ev.a < |s.log| && ev.a !in s.win && GroupStart(sh, ev.a) == b
    && var (rx', out) := DecodeStep(sh, s.rx, s.log[ev.a], ev.expired);
       Finished(sh, s.log, Arrived(s.win, ev.a), b, ev.expired, rx', out)
  }

  /** How often the group at b is finished during a run. */
  ghost function Finishes(sh: Shape, s: Net, evs: seq<Event>, b: nat): nat
    requires sh.Valid()
    decreases |evs|
  {
    if evs == [] then 0
    else (if FinishesNow(sh, s, evs[0], b) then 1 else 0) + Finishes(sh, Step(sh, s, evs[0]), evs[1..], b)
  }

  /** Every delivery is of a shard that has been sent and not yet delivered. */
  predicate NoRepeats(sh: Shape, s: Net, evs: seq<Event>, seen: set<nat>)
    requires sh.Valid()
    decreases |evs|
  {
    evs == [] ||
    (if evs[0].Deliver?
     then evs[0].a < |s.log| && evs[0].a !in seen && NoRepeats(sh, Step(sh, s, evs[0]), evs[1..], seen + {evs[0].a})
     else NoRepeats(sh, Step(sh, s, evs[0]), evs[1..], seen))
  }

  function Members(sh: Shape, win: seq<nat>, b: nat): set<nat> { set x | x in win && b <= x < b + sh.N() }

  function Delivered(sh: Shape, seen: set<nat>, b: nat): set<nat> { set x | x in seen && b <= x < b + sh.N() }

  lemma SmallerSet(a: set<nat>, b: set<nat>)
    requires a <= b
    ensures |a| <= |b|
  {
    assert b == a + (b - a);
  }

  lemma {:induction false} RangeCount(s: set<nat>, b: nat, n: nat)
    requires forall x :: x in s ==> b <= x < b + n
    ensures |s| <= n
    decreases n
  {
    if n == 0 {
      assert s == {};
    } else {
      RangeCount(s - {b + n - 1}, b, n - 1);
    }
  }

  /** Places f..h of a sorted window are h - f different members. */
  lemma {:induction false} PlacesAreMembers(win: seq<nat>, f: nat, h: nat, s: set<nat>)
    requires Sorted(win) && f <= h <= |win|
    requires forall i :: f <= i < h ==> win[i] in s
    ensures h - f <= |s|
    decreases h
  {
    if f < h {
      assert forall i :: f <= i < h - 1 ==> win[i] in s - {win[h - 1]};
      PlacesAreMembers(win, f, h - 1, s - {win[h - 1]});
    }
  }

  lemma ReadyNeedsMembers(sh: Shape, win: seq<nat>, b: nat)
    requires Sorted(win) && Ready(sh, win, b)
    ensures |Members(sh, win, b)| >= sh.d
  {
    BelowIs(win, b);
    BelowIs(win, b + sh.N());
    BelowMonotone(win, b, b + sh.N());
    PlacesAreMembers(win, Below(win, b), Below(win, b + sh.N()), Members(sh, win, b));
  }

  lemma TrimMembers(sh: Shape, win: seq<nat>, expired: nat, x: nat)
    requires x in Trim(sh, win, expired)
    ensures x in win
  {
    FreeMembers(win, 0, 1, x);
    FreeMembers(if |win| > 3 * sh.N() then Free(win, 0, 1) else win, 0, expired, x);
  }

  lemma FreeMembers(win: seq<nat>, first: nat, n: nat, x: nat)
    ensures x in Free(win, first, n) ==> x in win
  {
    FreeAt(win, first, n);
    hide Free;
  }

  /** A delivery leaves in the window only what was there and itself; a finish removes its group. */
  lemma DeliverLeaves(sh: Shape, s: Net, ev: Event, b: nat, x: nat)
    requires sh.Valid() && Sorted(s.win) && Refines(s.rx, s.win, s.log)
    requires ev.Deliver? && ev.a < |s.log| && b % sh.N() == 0 && x in Step(sh, s, ev).win
    ensures x == ev.a || x in s.win
    ensures FinishesNow(sh, s, ev, b) ==> !(b <= x < b + sh.N())
  {
    hide Step, FinishesNow, GroupStart, Arrived, Trim, GroupOut, Refines, Sorted;
    var a := ev.a;
    var now, g := Arrived(s.win, a), GroupStart(sh, a);
    WindowAfterDeliver(sh, s, ev);
    if FinishesNow(sh, s, ev, b) { FinishIsOwn(sh, s, ev, b); }
    if a !in s.win {
      ArrivedIs(s.log, s.rx, s.win, a);
      GroupOutIs(sh, now, g, x);
      if FinishesNow(sh, s, ev, g) {
        TrimMembers(sh, GroupOut(sh, now, g), ev.expired, x);
      } else {
        TrimMembers(sh, now, ev.expired, x);
      }
    }
  }

  lemma WindowAfterDeliver(sh: Shape, s: Net, ev: Event)
    requires sh.Valid() && ev.Deliver? && ev.a < |s.log|
    ensures var now, g := Arrived(s.win, ev.a), GroupStart(sh, ev.a);
            Step(sh, s, ev).win ==
            if ev.a in s.win then s.win
            else if FinishesNow(sh, s, ev, g) then Trim(sh, GroupOut(sh, now, g), ev.expired)
            else Trim(sh, now, ev.expired)
  {
    hide DecodeStep, Finished, GroupStart, Arrived, Trim, GroupOut, Blocks;
  }

  /** A delivery finishes only its own group, and only as a new arrival. */
  lemma FinishIsOwn(sh: Shape, s: Net, ev: Event, b: nat)
    requires sh.Valid() && FinishesNow(sh, s, ev, b)
    ensures ev.Deliver? && ev.a !in s.win && GroupStart(sh, ev.a) == b
  {
    hide DecodeStep, Finished, GroupStart, Arrived;
  }

  lemma FinishIsReady(sh: Shape, s: Net, ev: Event, b: nat)
    requires sh.Valid() && ev.Deliver? && FinishesNow(sh, s, ev, b)
    ensures Ready(sh, Arrived(s.win, ev.a), b) && b <= ev.a < b + sh.N() && ev.a < |s.log| && ev.a !in s.win
  {
    hide DecodeStep, Arrived, Ready, Refines, Trim, GroupOut, Missing, AllData;
    BlockStart(sh.N(), ev.a);
  }

  /** What a finish needs to have had in the window. */
  lemma FinishHad(sh: Shape, s: Net, ev: Event, b: nat)
    requires sh.Valid() && Sorted(s.win) && Refines(s.rx, s.win, s.log) && ev.Deliver? && FinishesNow(sh, s, ev, b)
    ensures |Members(sh, s.win, b) + {ev.a}| >= sh.d && b <= ev.a < b + sh.N()
  {
    hide FinishesNow, Arrived, Ready, Below, Sorted, Refines;
    FinishIsReady(sh, s, ev, b);
    ArrivedIs(s.log, s.rx, s.win, ev.a);
    ReadyNeedsMembers(sh, Arrived(s.win, ev.a), b);
    assert Members(sh, Arrived(s.win, ev.a), b) == Members(sh, s.win, b) + {ev.a};
  }

  /** What one delivery does to a group's members. */
  lemma DeliverMembers(sh: Shape, s: Net, ev: Event, b: nat)
    requires sh.Valid() && Inv(sh, s)
    requires ev.Deliver? && ev.a < |s.log| && b % sh.N() == 0
    ensures var m, m' := Members(sh, s.win, b), Members(sh, Step(sh, s, ev).win, b);
            && m' <= m + (if b <= ev.a < b + sh.N() then {ev.a} else {})
            && (FinishesNow(sh, s, ev, b) ==> m' == {} && |m + {ev.a}| >= sh.d && b <= ev.a < b + sh.N())
  {
    hide Step, FinishesNow, EncoderAt, CarriesWrites, Refines, Sorted;
    forall x | x in Step(sh, s, ev).win
      ensures x == ev.a || x in s.win
      ensures FinishesNow(sh, s, ev, b) ==> !(b <= x < b + sh.N())
    {
      DeliverLeaves(sh, s, ev, b, x);
    }
    if FinishesNow(sh, s, ev, b) { FinishHad(sh, s, ev, b); }
  }

  /** One delivery pays for its finish out of the group's budget. */
  lemma DeliverBudget(sh: Shape, s: Net, ev: Event, b: nat, seen: set<nat>)
    requires sh.Valid() && IsErasureCode(sh.codec, sh.d, sh.p) && Inv(sh, s)
    requires ev.Deliver? && ev.a < |s.log| && Near(s.win, ev.a) && b % sh.N() == 0 && ev.a !in seen
    ensures |Members(sh, Step(sh, s, ev).win, b)| - |Delivered(sh, seen + {ev.a}, b)|
            + (if FinishesNow(sh, s, ev, b) then sh.d else 0)
            <= |Members(sh, s.win, b)| - |Delivered(sh, seen, b)|
  {
    DeliverMembers(sh, s, ev, b);
    BudgetSets(sh, Members(sh, s.win, b), Members(sh, Step(sh, s, ev).win, b), ev.a, b, seen,
               FinishesNow(sh, s, ev, b));
  }

  lemma BudgetSets(sh: Shape, m: set<nat>, m': set<nat>, a: nat, b: nat, seen: set<nat>, finishes: bool)
    requires a !in seen
    requires m' <= m + (if b <= a < b + sh.N() then {a} else {})
    requires finishes ==> m' == {} && |m + {a}| >= sh.d && b <= a < b + sh.N()
    ensures |m'| - |Delivered(sh, seen + {a}, b)| + (if finishes then sh.d else 0) <= |m| - |Delivered(sh, seen, b)|
  {
    var extra: set<nat> := if b <= a < b + sh.N() then {a} else {};
    assert Delivered(sh, seen + {a}, b) == Delivered(sh, seen, b) + extra;
    SmallerSet(m', m + extra);
  }

  /** Each finish consumes d shards of the group, and only what is in the window or still to come can be consumed. */
  lemma {:induction false} FinishBudget(sh: Shape, s: Net, evs: seq<Event>, b: nat, seen: set<nat>)
    requires sh.Valid() && IsErasureCode(sh.codec, sh.d, sh.p) && Inv(sh, s) && b % sh.N() == 0
    requires AllowedRun(sh, s, evs) && NoRepeats(sh, s, evs, seen)
    ensures sh.d * Finishes(sh, s, evs, b) <= |Members(sh, s.win, b)| + sh.N() - |Delivered(sh, seen, b)|
    decreases |evs|
  {
    hide Step, Inv, Members, FinishesNow, Delivered, Near, IsErasureCode;
    if evs == [] {
      DeliveredCount(sh, seen, b);
    } else if evs[0].Send? {
      SendIsQuiet(sh, s, evs[0], b);
      SendKeeps(sh, s, evs[0].segments);
      FinishBudget(sh, Step(sh, s, evs[0]), evs[1..], b, seen);
    } else {
      var later := Finishes(sh, Step(sh, s, evs[0]), evs[1..], b);
      DeliverKeeps(sh, s, evs[0].a, evs[0].expired);
      FinishBudget(sh, Step(sh, s, evs[0]), evs[1..], b, seen + {evs[0].a});
      DeliverBudget(sh, s, evs[0], b, seen);
      MulDiff(sh.d, 1 + later, later);
    }
  }

  lemma DeliveredCount(sh: Shape, seen: set<nat>, b: nat)
    ensures |Delivered(sh, seen, b)| <= sh.N()
  {
    RangeCount(Delivered(sh, seen, b), b, sh.N());
  }

  lemma SendIsQuiet(sh: Shape, s: Net, ev: Event, b: nat)
    requires sh.Valid() && ev.Send?
    ensures !FinishesNow(sh, s, ev, b) && Step(sh, s, ev).win == s.win
  {}

  /** With less parity than data and no duplicated datagrams, no group is ever rebuilt or released twice. */
  lemma EachGroupFinishesOnce(sh: Shape, evs: seq<Event>, b: nat)
    requires sh.Valid() && IsErasureCode(sh.codec, sh.d, sh.p) && b % sh.N() == 0
    requires sh.p < sh.d
    requires AllowedRun(sh, START, evs) && NoRepeats(sh, START, evs, {})
    ensures Finishes(sh, START, evs, b) <= 1
  {
    StartHolds(sh);
    FinishBudget(sh, START, evs, b, {});
    assert Members(sh, START.win, b) == {} && Delivered(sh, {}, b) == {};
    var k := Finishes(sh, START, evs, b);
    if k >= 2 { MulMonotone(sh.d, 2, k); }
  }

  // ------------------------------------------------------------------
  // With as much parity as data a group can be finished twice
  // ------------------------------------------------------------------

  /** The shard numbers lo.. hi. */
  function Span(lo: nat, hi: nat): seq<nat>
    requires lo <= hi
  {
    seq(hi - lo, i => lo + i)
  }

  /** Deliver the shards lo.. hi in order. */
  function Deliveries(lo: nat, hi: nat): seq<Event>
    requires lo <= hi
    decreases hi - lo
  {
    if lo == hi then [] else [Deliver(lo, 0)] + Deliveries(lo + 1, hi)
  }

  lemma SpanBelow(lo: nat, hi: nat, x: nat)
    requires lo <= hi
    ensures Sorted(Span(lo, hi)) && Below(Span(lo, hi), x) == Max(0, Min(x, hi) - lo)
  {
    BelowUnique(Span(lo, hi), x, Max(0, Min(x, hi) - lo));
  }

  lemma DeliverSendsNothing(sh: Shape, s: Net, ev: Event)
    requires sh.Valid() && ev.Deliver?
    ensures Step(sh, s, ev).log == s.log
  {}

  /** What is rebuilt when the window holds d shards of the first group. */
  function Rebuilt(sh: Shape, log: seq<Shard>, now: seq<nat>): seq<seq<byte>>
    requires sh.d <= |log|
  {
    if AllData(sh, now, 0) then [] else Blocks(MissingAsSent(sh, log, now, 0, 0))
  }

  /** One more shard of a span within the first group: it finishes the group exactly if it is the d-th. */
  lemma DeliverNext(sh: Shape, s: Net, base: nat, i: nat)
    requires sh.Valid() && IsErasureCode(sh.codec, sh.d, sh.p) && Inv(sh, s)
    requires i < sh.d && base + sh.d <= sh.N() <= |s.log| && s.win == Span(base, base + i)
    ensures var ev := Deliver(base + i, 0);
            var s' := Step(sh, s, ev);
            && Near(s.win, base + i) && Inv(sh, s') && s'.log == s.log
            && (FinishesNow(sh, s, ev, 0) <==> i + 1 == sh.d)
            && s'.win == (if i + 1 == sh.d then [] else Span(base, base + (i + 1)))
            && s'.blocks == s.blocks + OwnBlocks(s.log[base + i])
                            + (if i + 1 == sh.d then Rebuilt(sh, s.log, Span(base, base + sh.d)) else [])
  {
    hide Inv, Step, FinishesNow, Ready, AllData, Arrived, GroupOut, GroupStart, Below, Blocks, MissingAsSent;
    var a, now := base + i, Span(base, base + i + 1);
    SpanArrives(sh, base, base + i);
    ArrivalCompletes(sh, s, a, 0);
    DeliverKeeps(sh, s, a, 0);
    DeliverSendsNothing(sh, s, Deliver(a, 0));
    assert Trim(sh, now, 0) == now && Trim<nat>(sh, [], 0) == [];
  }

  /** The window of a growing span within the first group. */
  lemma SpanArrives(sh: Shape, base: nat, a: nat)
    requires sh.Valid() && base <= a < sh.N()
    ensures var now := Span(base, a + 1);
            && GroupStart(sh, a) == 0 && Arrived(Span(base, a), a) == now
            && (Ready(sh, now, 0) <==> a + 1 - base >= sh.d)
            && GroupOut(sh, now, 0) == []
  {
    var now := Span(base, a + 1);
    ModUnique(sh.N(), 0, a);
    SpanBelow(base, a, a);
    assert Arrived(Span(base, a), a) == now;
    SpanBelow(base, a + 1, 0);
    SpanBelow(base, a + 1, sh.N());
  }

  /** The blocks that the shards lo.. hi carry themselves. */
  function OwnSpan(log: seq<Shard>, lo: nat, hi: nat): seq<seq<byte>>
    requires lo <= hi <= |log|
    decreases hi - lo
  {
    if lo == hi then [] else OwnBlocks(log[lo]) + OwnSpan(log, lo + 1, hi)
  }

  /** Delivering d shards of the first group, starting with none of it, finishes it exactly once. */
  lemma {:induction false} DeliverSpan(sh: Shape, s: Net, base: nat, i: nat, seen: set<nat>)
    requires sh.Valid() && IsErasureCode(sh.codec, sh.d, sh.p) && Inv(sh, s)
    requires i < sh.d && base + sh.d <= sh.N() <= |s.log| && s.win == Span(base, base + i)
    requires forall x :: x in seen ==> x < base + i
    ensures var evs := Deliveries(base + i, base + sh.d);
            && AllowedRun(sh, s, evs) && NoRepeats(sh, s, evs, seen) && Finishes(sh, s, evs, 0) == 1
            && var s' := Run(sh, s, evs);
               && Inv(sh, s') && s'.log == s.log && s'.win == []
               && s'.blocks == s.blocks + OwnSpan(s.log, base + i, base + sh.d)
                               + Rebuilt(sh, s.log, Span(base, base + sh.d))
    decreases sh.d - i
  {
    hide Inv, Step, FinishesNow, Span, Near, Rebuilt, OwnBlocks, IsErasureCode;
    var a, evs := base + i, Deliveries(base + i, base + sh.d);
    assert evs[0] == Deliver(a, 0) && evs[1..] == Deliveries(a + 1, base + sh.d);
    DeliverNext(sh, s, base, i);
    var s1, own := Step(sh, s, evs[0]), OwnBlocks(s.log[a]);
    if i + 1 < sh.d {
      DeliverSpan(sh, s1, base, i + 1, seen + {a});
      assert s1.blocks == s.blocks + own;
      ConcatAssoc(s.blocks, own, OwnSpan(s.log, a + 1, base + sh.d));
    } else {
      assert evs[1..] == [] && OwnSpan(s.log, a + 1, base + sh.d) == [];
      assert own + [] == own;
    }
  }

  function Sends(ws: seq<seq<byte>>): seq<Event> {
    if ws == [] then [] else [Send(ws[0])] + Sends(ws[1..])
  }

  /** The first k shards sent carry the first k writes. */
  predicate Carries(log: seq<Shard>, ws: seq<seq<byte>>, k: nat)
    requires k <= |ws|
  {
    k <= |log| && forall i :: 0 <= i < k ==> log[i].payload == Payload(ws[i])
  }

  /** Writes short enough for their length field. */
  predicate AllShort(ws: seq<seq<byte>>) { forall i :: 0 <= i < |ws| ==> 2 + |ws[i]| < 0x1_0000 }

  /** One write of the first group; the last one completes the group. */
  lemma SendNext(sh: Shape, s: Net, ws: seq<seq<byte>>, k: nat)
    requires sh.Valid() && IsErasureCode(sh.codec, sh.d, sh.p) && Inv(sh, s) && AllShort(ws)
    requires k < |ws| == sh.d && |s.log| == k && Carries(s.log, ws, k)
    ensures var s' := Step(sh, s, Send(ws[k]));
            && Inv(sh, s') && s'.win == s.win && s'.blocks == s.blocks && Carries(s'.log, ws, k + 1)
            && |s'.log| == if k + 1 == sh.d then sh.N() else k + 1
  {
    hide WellSent, IsErasureCode, Payload, Stamp, CarriesWrites;
    SendKeeps(sh, s, ws[k]);
    EncoderSends(sh, s.enc, s.log, ws[k]);
    ModUnique(sh.N(), 0, k);
    var (e, out) := EncodeStep(sh, s.enc, ws[k]);
    if k + 1 == sh.d { LastOutput(sh, s.enc, s.log, ws[k]); }
  }

  lemma LastOutput(sh: Shape, e: Encoder, log: seq<Shard>, w: seq<byte>)
    requires sh.Valid() && IsErasureCode(sh.codec, sh.d, sh.p) && EncoderAt(sh, e, log) && |e.cache| + 1 == sh.d
    ensures |EncodeStep(sh, e, w).1| == 1 + sh.p
  {
    hide WellSent, IsErasureCode, MaxLen, Stamp;
    var xs := e.cache + [Payload(w)];
    MaxLenAppend(e.cache, Payload(w));
    EncodeCount(sh, xs);
    StampFlags(sh, AfterData(sh, e.next), sh.codec.encode(PadAll(xs, MaxLen(xs))));
  }

  /** The last writes of the first group leave its d + p shards sent and nothing delivered. */
  lemma {:induction false} SendGroup(sh: Shape, s: Net, ws: seq<seq<byte>>, k: nat)
    requires sh.Valid() && IsErasureCode(sh.codec, sh.d, sh.p) && Inv(sh, s) && AllShort(ws)
    requires k < |ws| == sh.d && |s.log| == k && Carries(s.log, ws, k) && s.win == [] && s.blocks == []
    ensures var evs := Sends(ws[k..]);
            && AllowedRun(sh, s, evs) && NoRepeats(sh, s, evs, {}) && Finishes(sh, s, evs, 0) == 0
            && var s' := Run(sh, s, evs);
               Inv(sh, s') && |s'.log| == sh.N() && s'.win == [] && s'.blocks == [] && Carries(s'.log, ws, sh.d)
    decreases sh.d - k
  {
    hide Inv, Step, IsErasureCode, FinishesNow, Carries;
    var evs := Sends(ws[k..]);
    assert ws[k..][1..] == ws[k + 1..];
    assert evs[0] == Send(ws[k]) && evs[1..] == Sends(ws[k + 1..]);
    SendNext(sh, s, ws, k);
    SendIsQuiet(sh, s, evs[0], 0);
    if k + 1 < sh.d {
      SendGroup(sh, Step(sh, s, evs[0]), ws, k + 1);
    } else {
      assert ws[k + 1..] == [] && evs[1..] == [];
    }
  }

  lemma {:induction false} RunAppend(sh: Shape, s: Net, x: seq<Event>, y: seq<Event>, b: nat)
    requires sh.Valid()
    ensures Run(sh, s, x + y) == Run(sh, Run(sh, s, x), y)
    ensures Finishes(sh, s, x + y, b) == Finishes(sh, s, x, b) + Finishes(sh, Run(sh, s, x), y, b)
    ensures AllowedRun(sh, s, x + y) <==> AllowedRun(sh, s, x) && AllowedRun(sh, Run(sh, s, x), y)
    decreases |x|
  {
    hide Step, FinishesNow, Allowed;
    if x == [] {
      assert x + y == y;
    } else {
      RunAppend(sh, Step(sh, s, x[0]), x[1..], y, b);
      assert (x + y)[1..] == x[1..] + y;
    }
  }

  function Touched(evs: seq<Event>): set<nat> {
    if evs == [] then {} else (if evs[0].Deliver? then {evs[0].a} else {}) + Touched(evs[1..])
  }

  lemma {:induction false} RepeatsAppend(sh: Shape, s: Net, x: seq<Event>, y: seq<Event>, seen: set<nat>)
    requires sh.Valid() && NoRepeats(sh, s, x, seen) && NoRepeats(sh, Run(sh, s, x), y, seen + Touched(x))
    ensures NoRepeats(sh, s, x + y, seen)
    decreases |x|
  {
    hide Step;
    if x == [] {
      assert x + y == y && seen + Touched(x) == seen;
    } else {
      assert (x + y)[1..] == x[1..] + y;
      var seen' := seen + (if x[0].Deliver? then {x[0].a} else {});
      assert seen' + Touched(x[1..]) == seen + Touched(x);
      if x[0].Send? { assert seen' == seen; }
      RepeatsAppend(sh, Step(sh, s, x[0]), x[1..], y, seen');
    }
  }

  lemma {:induction false} SendsTouchNothing(ws: seq<seq<byte>>)
    ensures Touched(Sends(ws)) == {}
  {
    if ws != [] {
      SendsTouchNothing(ws[1..]);
      assert Sends(ws)[1..] == Sends(ws[1..]);
    }
  }

  lemma {:induction false} DeliveriesTouch(lo: nat, hi: nat)
    requires lo <= hi
    ensures forall x :: x in Touched(Deliveries(lo, hi)) ==> lo <= x < hi
    decreases hi - lo
  {
    if lo < hi {
      DeliveriesTouch(lo + 1, hi);
      assert Deliveries(lo, hi)[1..] == Deliveries(lo + 1, hi);
    }
  }

  /** Long enough to be handed on. */
  predicate AllLong(ws: seq<seq<byte>>) { forall i :: 0 <= i < |ws| ==> |ws[i]| >= IKCP_OVERHEAD }

  lemma BlocksOfOne(w: seq<byte>)
    requires 2 + |w| < 0x1_0000 && |w| >= IKCP_OVERHEAD
    ensures Blocks([Payload(w)]) == [w]
  {
    PaddedPayload(w, 0);
    assert Pad(Payload(w), 0) == Payload(w) && [Payload(w)][1..] == [];
  }

  lemma FirstGroupFlags(sh: Shape, log: seq<Shard>, i: nat)
    requires sh.Valid() && WellSent(sh, log) && i < sh.N() && i < |log|
    ensures log[i].flag == if i < sh.d then TYPE_DATA else TYPE_PARITY
  {
    ModUnique(sh.N(), 0, i);
    assert SentOk(sh, log, i);
  }

  lemma NoOwnBlocks(s: Shard)
    requires s.flag == TYPE_PARITY
    ensures OwnBlocks(s) == []
  {}

  /** The data shards of the first group carry its writes. */
  lemma {:induction false} DataBlocks(sh: Shape, log: seq<Shard>, ws: seq<seq<byte>>, i: nat)
    requires sh.Valid() && WellSent(sh, log) && |ws| == sh.d && Carries(log, ws, sh.d)
    requires AllShort(ws) && AllLong(ws) && i <= sh.d
    ensures OwnSpan(log, i, sh.d) == ws[i..]
    decreases sh.d - i
  {
    hide WellSent, Blocks, Payload;
    if i < sh.d {
      DataBlocks(sh, log, ws, i + 1);
      FirstGroupFlags(sh, log, i);
      BlocksOfOne(ws[i]);
      assert ws[i..] == [ws[i]] + ws[i + 1..];
    }
  }

  /** Its parity shards carry none. */
  lemma {:induction false} ParityBlocks(sh: Shape, log: seq<Shard>, i: nat)
    requires sh.Valid() && WellSent(sh, log) && sh.d <= i <= 2 * sh.d <= sh.N() <= |log|
    ensures OwnSpan(log, i, 2 * sh.d) == []
    decreases 2 * sh.d - i
  {
    hide WellSent, OwnBlocks;
    if i < 2 * sh.d {
      ParityBlocks(sh, log, i + 1);
      FirstGroupFlags(sh, log, i);
      NoOwnBlocks(log[i]);
    }
  }

  /** From parity alone every data shard is missing. */
  lemma {:induction false} AllMissing(sh: Shape, log: seq<Shard>, ws: seq<seq<byte>>, i: nat)
    requires |ws| == sh.d && Carries(log, ws, sh.d) && AllShort(ws) && AllLong(ws) && i <= sh.d
    ensures Blocks(MissingAsSent(sh, log, Span(sh.d, 2 * sh.d), 0, i)) == ws[i..]
    decreases sh.d - i
  {
    if i < sh.d {
      AllMissing(sh, log, ws, i + 1);
      var rest := MissingAsSent(sh, log, Span(sh.d, 2 * sh.d), 0, i + 1);
      assert 0 + i !in Span(sh.d, 2 * sh.d);
      BlocksCons(Payload(ws[i]), rest);
      BlocksCons(Payload(ws[i]), []);
      BlocksOfOne(ws[i]);
      assert [Payload(ws[i])] + [] == [Payload(ws[i])] && ws[i..] == [ws[i]] + ws[i + 1..];
    }
  }

  lemma RebuiltIs(sh: Shape, log: seq<Shard>, ws: seq<seq<byte>>)
    requires sh.Valid() && |ws| == sh.d && Carries(log, ws, sh.d) && AllShort(ws) && AllLong(ws)
    ensures Rebuilt(sh, log, Span(0, sh.d)) == []
    ensures Rebuilt(sh, log, Span(sh.d, 2 * sh.d)) == ws
  {
    hide MissingAsSent, Blocks, Below, Carries, Span;
    SpanBelow(0, sh.d, sh.d);
    SpanBelow(0, sh.d, 0);
    SpanBelow(sh.d, 2 * sh.d, sh.d);
    SpanBelow(sh.d, 2 * sh.d, 0);
    AllMissing(sh, log, ws, 0);
    assert ws[0..] == ws;
  }

  /** For every shape with at least as much parity as data and every group of writes: without any duplicate, the data
      shards of the group followed by as many parity shards finish it twice, and the second time hand over again
      every block that was already delivered. */
  lemma ParityFinishesAgain(sh: Shape, ws: seq<seq<byte>>)
    requires sh.Valid() && IsErasureCode(sh.codec, sh.d, sh.p) && |ws| == sh.d && AllShort(ws)
    requires sh.p >= sh.d
    ensures var evs := Sends(ws) + (Deliveries(0, sh.d) + Deliveries(sh.d, 2 * sh.d));
            && AllowedRun(sh, START, evs) && NoRepeats(sh, START, evs, {}) && Finishes(sh, START, evs, 0) == 2
            && (AllLong(ws) ==> Run(sh, START, evs).blocks == ws + ws)
  {
    hide Inv, Step, Run, AllowedRun, NoRepeats, Finishes, Sends, Deliveries, Carries, AllShort, AllLong, OwnSpan, Rebuilt;
    hide Span;
    var x, y, z := Sends(ws), Deliveries(0, sh.d), Deliveries(sh.d, 2 * sh.d);
    StartHolds(sh);
    StartCarries(ws);
    SendGroup(sh, START, ws, 0);
    assert ws[0..] == ws;
    SendsTouchNothing(ws);
    var s := Run(sh, START, x);
    EmptySpan(0);
    EmptySpan(sh.d);
    DeliverSpan(sh, s, 0, 0, {});
    DeliveriesTouch(0, sh.d);
    var s' := Run(sh, s, y);
    DeliverSpan(sh, s', sh.d, 0, {} + Touched(y));
    RunAppend(sh, s, y, z, 0);
    RepeatsAppend(sh, s, y, z, {});
    RunAppend(sh, START, x, y + z, 0);
    assert {} + Touched(x) == {};
    RepeatsAppend(sh, START, x, y + z, {});
    if AllLong(ws) {
      InvParts(sh, s);
      TwiceOver(sh, s.log, ws, s'.blocks, Run(sh, s', z).blocks);
    }
  }

  lemma TwiceOver(sh: Shape, log: seq<Shard>, ws: seq<seq<byte>>, once: seq<seq<byte>>, twice: seq<seq<byte>>)
    requires sh.Valid() && WellSent(sh, log) && sh.p >= sh.d && sh.N() <= |log|
    requires |ws| == sh.d && Carries(log, ws, sh.d) && AllShort(ws) && AllLong(ws)
    requires once == [] + OwnSpan(log, 0, sh.d) + Rebuilt(sh, log, Span(0, sh.d))
    requires twice == once + OwnSpan(log, sh.d, 2 * sh.d) + Rebuilt(sh, log, Span(sh.d, 2 * sh.d))
    ensures twice == ws + ws
  {
    hide WellSent, Carries, AllShort, AllLong, OwnSpan, Rebuilt, Span;
    DataBlocks(sh, log, ws, 0);
    ParityBlocks(sh, log, sh.d);
    RebuiltIs(sh, log, ws);
    assert ws[0..] == ws && once == ws;
  }

  lemma EmptySpan(lo: nat)
    ensures Span(lo, lo) == []
  {}

  lemma StartCarries(ws: seq<seq<byte>>)
    ensures Carries(START.log, ws, 0) && START.win == [] && START.blocks == [] && |START.log| == 0
  {}

  // ------------------------------------------------------------------
  // Which shard's block each emission is, and how often
  // ------------------------------------------------------------------

  /** The data shards of group b that the window lacks, by number. */
  function MissingTags(sh: Shape, win: seq<nat>, b: nat, i: nat): seq<nat>
    decreases sh.d - i
  {
    if i >= sh.d then [] else (if b + i in win then [] else [b + i]) + MissingTags(sh, win, b, i + 1)
  }

  /** Does this event rebuild the group at b? */
  ghost predicate RebuildsNow(sh: Shape, s: Net, ev: Event, b: nat)
    requires sh.Valid()
  {
    FinishesNow(sh, s, ev, b) && !AllData(sh, Arrived(s.win, ev.a), b)
  }

  /** The numbers of the shards whose payloads an event hands on: its own if it is data, then what is rebuilt. */
  ghost function EventTags(sh: Shape, s: Net, ev: Event): seq<nat>
    requires sh.Valid()
  {
    if ev.Send? || ev.a >= |s.log| then []
    else
      var b := GroupStart(sh, ev.a);
      (if s.log[ev.a].flag == TYPE_DATA then [ev.a] else [])
      + (if RebuildsNow(sh, s, ev, b) then MissingTags(sh, Arrived(s.win, ev.a), b, 0) else [])
  }

  ghost function RunTags(sh: Shape, s: Net, evs: seq<Event>): seq<nat>
    requires sh.Valid()
    decreases |evs|
  {
    if evs == [] then [] else EventTags(sh, s, evs[0]) + RunTags(sh, Step(sh, s, evs[0]), evs[1..])
  }

  predicate TagsWithin(tags: seq<nat>, n: nat) { forall i :: 0 <= i < |tags| ==> tags[i] < n }

  function PayloadsAt(log: seq<Shard>, tags: seq<nat>): seq<seq<byte>>
    requires TagsWithin(tags, |log|)
  {
    seq(|tags|, i requires 0 <= i < |tags| => log[tags[i]].payload)
  }

  lemma PayloadsAppend(log: seq<Shard>, x: seq<nat>, y: seq<nat>)
    requires TagsWithin(x, |log|) && TagsWithin(y, |log|)
    ensures TagsWithin(x + y, |log|) && PayloadsAt(log, x + y) == PayloadsAt(log, x) + PayloadsAt(log, y)
  {}

  lemma BlocksHead(x: seq<byte>, rest: seq<seq<byte>>)
    ensures Blocks([x] + rest) == Blocks([x]) + Blocks(rest) && Blocks([]) == []
  {
    hide PayloadSegments;
    BlocksCons(x, rest);
    BlocksCons(x, []);
    assert [x] + [] == [x];
  }

  lemma {:induction false} BlocksAppend(x: seq<seq<byte>>, y: seq<seq<byte>>)
    ensures Blocks(x + y) == Blocks(x) + Blocks(y)
  {
    hide Blocks;
    if x == [] {
      BlocksHead([], []);
      assert x + y == y;
    } else {
      BlocksAppend(x[1..], y);
      assert x == [x[0]] + x[1..] && x + y == [x[0]] + (x[1..] + y);
      BlocksHead(x[0], x[1..] + y);
      BlocksHead(x[0], x[1..]);
      ConcatAssoc(Blocks([x[0]]), Blocks(x[1..]), Blocks(y));
    }
  }

  lemma {:induction false} MissingTagsAre(sh: Shape, log: seq<Shard>, win: seq<nat>, b: nat, i: nat)
    requires b + sh.d <= |log|
    ensures TagsWithin(MissingTags(sh, win, b, i), |log|)
    ensures PayloadsAt(log, MissingTags(sh, win, b, i)) == MissingAsSent(sh, log, win, b, i)
    decreases sh.d - i
  {
    if i < sh.d {
      MissingTagsAre(sh, log, win, b, i + 1);
      var rest := MissingTags(sh, win, b, i + 1);
      if b + i in win {
        assert [] + rest == rest;
      } else {
        PayloadsAppend(log, [b + i], rest);
        assert PayloadsAt(log, [b + i]) == [log[b + i].payload];
      }
    }
  }

  /** What the decoder hands back on an arrival is what the event's rebuilt tags name. */
  lemma RebuiltTags(sh: Shape, s: Net, ev: Event)
    requires sh.Valid() && IsErasureCode(sh.codec, sh.d, sh.p) && Inv(sh, s)
    requires ev.Deliver? && ev.a < |s.log| && Near(s.win, ev.a) && ev.a !in s.win
    ensures var b, now := GroupStart(sh, ev.a), Arrived(s.win, ev.a);
            var out := DecodeStep(sh, s.rx, s.log[ev.a], ev.expired).1;
            var tags := if RebuildsNow(sh, s, ev, b) then MissingTags(sh, now, b, 0) else [];
            TagsWithin(tags, |s.log|) && Blocks(out) == Blocks(PayloadsAt(s.log, tags))
  {
    hide Inv, DecodeStep, Arrived, GroupStart, Trim, GroupOut, Blocks, Missing, MissingAsSent, MissingTags, Near;
    hide IsErasureCode, WellSent, Refines, Sorted, CarriesWrites, Ready, AllData;
    InvParts(sh, s);
    var b, now := GroupStart(sh, ev.a), Arrived(s.win, ev.a);
    ArrivalOutcome(sh, s.log, s.rx, s.win, ev.a, ev.expired);
    GroupStartIs(sh, ev.a);
    if RebuildsNow(sh, s, ev, b) {
      PaddingIsInvisible(sh, s.log, s.writes, now, b, 0);
      MissingTagsAre(sh, s.log, now, b, 0);
    } else {
      assert PayloadsAt(s.log, []) == [];
    }
  }

  lemma OwnTag(log: seq<Shard>, a: nat)
    requires a < |log|
    ensures var own := if log[a].flag == TYPE_DATA then [a] else [];
            TagsWithin(own, |log|) && Blocks(PayloadsAt(log, own)) == OwnBlocks(log[a])
  {
    hide Blocks;
    assert PayloadsAt(log, [a]) == [log[a].payload] && PayloadsAt(log, []) == [];
  }

  lemma DuplicateTags(sh: Shape, s: Net, ev: Event)
    requires sh.Valid() && Inv(sh, s) && ev.Deliver? && ev.a < |s.log| && Near(s.win, ev.a) && ev.a in s.win
    ensures DecodeStep(sh, s.rx, s.log[ev.a], ev.expired).1 == []
    ensures !RebuildsNow(sh, s, ev, GroupStart(sh, ev.a))
  {
    hide Inv, DecodeStep, WellSent, Refines, Sorted, CarriesWrites, Near, Finished;
    InvParts(sh, s);
    DuplicateOutcome(sh, s.log, s.rx, s.win, ev.a, ev.expired);
  }

  /** One event emits the blocks of its tags. */
  lemma EventBlocks(sh: Shape, s: Net, ev: Event)
    requires sh.Valid() && IsErasureCode(sh.codec, sh.d, sh.p) && Inv(sh, s) && Allowed(s, ev)
    ensures TagsWithin(EventTags(sh, s, ev), |s.log|)
    ensures Step(sh, s, ev).blocks == s.blocks + Blocks(PayloadsAt(s.log, EventTags(sh, s, ev)))
  {
    hide Inv, DecodeStep, GroupStart, Near, RebuildsNow, MissingTags, Blocks, IsErasureCode, WindowAfter;
    if ev.Deliver? && ev.a < |s.log| {
      var b, now := GroupStart(sh, ev.a), Arrived(s.win, ev.a);
      var own := if s.log[ev.a].flag == TYPE_DATA then [ev.a] else [];
      var tags := if RebuildsNow(sh, s, ev, b) then MissingTags(sh, now, b, 0) else [];
      OwnTag(s.log, ev.a);
      if ev.a in s.win { DuplicateTags(sh, s, ev); } else { RebuiltTags(sh, s, ev); }
      NoPayloads(s.log);
      PayloadsAppend(s.log, own, tags);
      BlocksAppend(PayloadsAt(s.log, own), PayloadsAt(s.log, tags));
      DeliverEmits(sh, s, ev.a, ev.expired);
    } else {
      NoPayloads(s.log);
      assert s.blocks + [] == s.blocks;
    }
  }

  lemma NoPayloads(log: seq<Shard>)
    ensures TagsWithin([], |log|) && PayloadsAt(log, []) == [] && Blocks([]) == []
  {}

  lemma StepLog(sh: Shape, s: Net, ev: Event)
    requires sh.Valid()
    ensures s.log <= Step(sh, s, ev).log
  {
    hide EncodeStep, DecodeStep, WindowAfter, Blocks;
  }

  lemma {:induction false} RunLog(sh: Shape, s: Net, evs: seq<Event>)
    requires sh.Valid()
    ensures s.log <= Run(sh, s, evs).log
    decreases |evs|
  {
    hide Step;
    if evs != [] {
      StepLog(sh, s, evs[0]);
      RunLog(sh, Step(sh, s, evs[0]), evs[1..]);
    }
  }

  lemma PayloadsExtend(log: seq<Shard>, log': seq<Shard>, tags: seq<nat>)
    requires log <= log' && TagsWithin(tags, |log|)
    ensures TagsWithin(tags, |log'|) && PayloadsAt(log', tags) == PayloadsAt(log, tags)
  {}

  lemma EventKeeps(sh: Shape, s: Net, ev: Event)
    requires sh.Valid() && IsErasureCode(sh.codec, sh.d, sh.p) && Inv(sh, s) && Allowed(s, ev)
    ensures Inv(sh, Step(sh, s, ev))
  {
    hide Inv, IsErasureCode;
    if ev.Send? { SendKeeps(sh, s, ev.segments); } else if ev.a < |s.log| { DeliverKeeps(sh, s, ev.a, ev.expired); }
  }

  /** The tags of a run name the emitted blocks one by one. */
  lemma {:induction false} TagsAreTheBlocks(sh: Shape, s: Net, evs: seq<Event>)
    requires sh.Valid() && IsErasureCode(sh.codec, sh.d, sh.p) && Inv(sh, s) && AllowedRun(sh, s, evs)
    ensures var s', tags := Run(sh, s, evs), RunTags(sh, s, evs);
            TagsWithin(tags, |s'.log|) && s'.blocks == s.blocks + Blocks(PayloadsAt(s'.log, tags))
    decreases |evs|
  {
    hide Inv, Step, EventTags, Blocks, IsErasureCode, Allowed, TagsWithin, PayloadsAt;
    if evs == [] {
      NoPayloads(s.log);
      assert s.blocks + [] == s.blocks;
    } else {
      var s1, s' := Step(sh, s, evs[0]), Run(sh, s, evs);
      var x, y := EventTags(sh, s, evs[0]), RunTags(sh, s1, evs[1..]);
      EventBlocks(sh, s, evs[0]);
      EventKeeps(sh, s, evs[0]);
      TagsAreTheBlocks(sh, s1, evs[1..]);
      RunLog(sh, s, evs);
      PayloadsExtend(s.log, s'.log, x);
      PayloadsAppend(s'.log, x, y);
      BlocksAppend(PayloadsAt(s'.log, x), PayloadsAt(s'.log, y));
      ConcatAssoc(s.blocks, Blocks(PayloadsAt(s'.log, x)), Blocks(PayloadsAt(s'.log, y)));
    }
  }

  function CountOf(tags: seq<nat>, a: nat): nat {
    if tags == [] then 0 else (if tags[0] == a then 1 else 0) + CountOf(tags[1..], a)
  }

  lemma {:induction false} CountAppend(x: seq<nat>, y: seq<nat>, a: nat)
    ensures CountOf(x + y, a) == CountOf(x, a) + CountOf(y, a)
  {
    if x == [] {
      assert x + y == y;
    } else {
      CountAppend(x[1..], y, a);
      assert (x + y)[1..] == x[1..] + y;
    }
  }

  lemma {:induction false} MissingCount(sh: Shape, win: seq<nat>, b: nat, i: nat, a: nat)
    ensures CountOf(MissingTags(sh, win, b, i), a) == if b + i <= a < b + sh.d && a !in win then 1 else 0
    decreases sh.d - i
  {
    if i < sh.d {
      MissingCount(sh, win, b, i + 1, a);
      var first := if b + i in win then [] else [b + i];
      CountAppend(first, MissingTags(sh, win, b, i + 1), a);
      assert CountOf(first, a) == if b + i == a && a !in win then 1 else 0 by { if b + i !in win { assert [b + i][1..] == []; } }
    }
  }

  /** Is data shard a rebuilt by this event, being absent from the window? */
  ghost predicate RebuiltNow(sh: Shape, s: Net, ev: Event, a: nat)
    requires sh.Valid()
  {
    ev.Deliver? && ev.a < |s.log| && RebuildsNow(sh, s, ev, GroupStart(sh, a)) && a !in Arrived(s.win, ev.a)
  }

  ghost function Rebuilds(sh: Shape, s: Net, evs: seq<Event>, a: nat): nat
    requires sh.Valid()
    decreases |evs|
  {
    if evs == [] then 0
    else (if RebuiltNow(sh, s, evs[0], a) then 1 else 0) + Rebuilds(sh, Step(sh, s, evs[0]), evs[1..], a)
  }

  /** How often shard a arrives during a run. */
  function Arrivals(sh: Shape, s: Net, evs: seq<Event>, a: nat): nat
    requires sh.Valid()
    decreases |evs|
  {
    if evs == [] then 0
    else (if evs[0].Deliver? && evs[0].a == a && a < |s.log| then 1 else 0) + Arrivals(sh, Step(sh, s, evs[0]), evs[1..], a)
  }

  /** A number in one of the first d places of its group. */
  predicate DataPlace(sh: Shape, a: nat)
    requires sh.Valid()
  {
    a < GroupStart(sh, a) + sh.d
  }

  lemma PlaceIsKind(sh: Shape, log: seq<Shard>, a: nat)
    requires sh.Valid() && WellSent(sh, log) && a < |log|
    ensures log[a].flag == TYPE_DATA <==> DataPlace(sh, a)
  {
    assert SentOk(sh, log, a);
  }

  lemma SameGroup(sh: Shape, a: nat, x: nat)
    requires sh.Valid() && GroupStart(sh, x) <= a < GroupStart(sh, x) + sh.N()
    ensures GroupStart(sh, a) == GroupStart(sh, x)
  {
    GroupStartIs(sh, x);
    BlockOffset(sh.N(), GroupStart(sh, x), a);
  }

  lemma EventCount(sh: Shape, s: Net, ev: Event, a: nat)
    requires sh.Valid() && Inv(sh, s) && DataPlace(sh, a)
    ensures CountOf(EventTags(sh, s, ev), a) ==
            (if ev.Deliver? && ev.a == a && a < |s.log| then 1 else 0) + (if RebuiltNow(sh, s, ev, a) then 1 else 0)
  {
    hide Inv, RebuildsNow, Arrived, MissingTags, GroupStart;
    InvParts(sh, s);
    hide WellSent, Refines, Sorted, CarriesWrites;
    if ev.Deliver? && ev.a < |s.log| {
      var b, now := GroupStart(sh, ev.a), Arrived(s.win, ev.a);
      var own := if s.log[ev.a].flag == TYPE_DATA then [ev.a] else [];
      var rest := if RebuildsNow(sh, s, ev, b) then MissingTags(sh, now, b, 0) else [];
      CountAppend(own, rest, a);
      MissingCount(sh, now, b, 0, a);
      PlaceIsKind(sh, s.log, ev.a);
      assert CountOf(own, a) == if ev.a == a then 1 else 0 by { if own != [] { assert own[1..] == []; } }
      RebuiltCount(sh, s, ev, a);
    }
  }

  /** Only its own group's rebuilding can rebuild a shard. */
  lemma RebuiltCount(sh: Shape, s: Net, ev: Event, a: nat)
    requires sh.Valid() && DataPlace(sh, a) && ev.Deliver? && ev.a < |s.log|
    ensures var b := GroupStart(sh, ev.a);
            RebuiltNow(sh, s, ev, a) <==> RebuildsNow(sh, s, ev, b) && b <= a < b + sh.d && a !in Arrived(s.win, ev.a)
  {
    var b, g := GroupStart(sh, ev.a), GroupStart(sh, a);
    GroupStartIs(sh, a);
    GroupStartIs(sh, ev.a);
    hide Arrived, AllData, GroupStart, Finished, DecodeStep;
    if RebuildsNow(sh, s, ev, g) { RebuildIsOwn(sh, s, ev, g); }
    if b <= a < b + sh.d { SameGroup(sh, a, ev.a); }
  }

  lemma RebuildIsOwn(sh: Shape, s: Net, ev: Event, b: nat)
    requires sh.Valid() && RebuildsNow(sh, s, ev, b)
    ensures FinishesNow(sh, s, ev, b) && ev.Deliver? && GroupStart(sh, ev.a) == b
  {
    hide Arrived, AllData, GroupStart, Finished, DecodeStep;
  }

  /** In any run, with duplicates or without: a data shard's block is emitted once for each arrival of the shard and once
      for each rebuilding of its group while the window lacks it. */
  lemma {:induction false} EmissionsAre(sh: Shape, s: Net, evs: seq<Event>, a: nat)
    requires sh.Valid() && IsErasureCode(sh.codec, sh.d, sh.p) && Inv(sh, s) && AllowedRun(sh, s, evs) && DataPlace(sh, a)
    ensures CountOf(RunTags(sh, s, evs), a) == Arrivals(sh, s, evs, a) + Rebuilds(sh, s, evs, a)
    decreases |evs|
  {
    hide Inv, Step, EventTags, IsErasureCode, Allowed, RebuiltNow, DataPlace;
    if evs != [] {
      EventKeeps(sh, s, evs[0]);
      EventCount(sh, s, evs[0], a);
      EmissionsAre(sh, Step(sh, s, evs[0]), evs[1..], a);
      CountAppend(EventTags(sh, s, evs[0]), RunTags(sh, Step(sh, s, evs[0]), evs[1..]), a);
    }
  }

  lemma {:induction false} ArrivesOnce(sh: Shape, s: Net, evs: seq<Event>, seen: set<nat>, a: nat)
    requires sh.Valid() && NoRepeats(sh, s, evs, seen)
    ensures Arrivals(sh, s, evs, a) <= if a in seen then 0 else 1
    ensures a !in seen ==> (Arrivals(sh, s, evs, a) == 1 <==> a in Touched(evs))
    decreases |evs|
  {
    hide Step;
    if evs != [] {
      var seen' := if evs[0].Deliver? then seen + {evs[0].a} else seen;
      ArrivesOnce(sh, Step(sh, s, evs[0]), evs[1..], seen', a);
    }
  }

  lemma {:induction false} RebuildsAreFinishes(sh: Shape, s: Net, evs: seq<Event>, a: nat)
    requires sh.Valid()
    ensures Rebuilds(sh, s, evs, a) <= Finishes(sh, s, evs, GroupStart(sh, a))
    decreases |evs|
  {
    hide Step, FinishesNow, Arrived, AllData, GroupStart;
    if evs != [] { RebuildsAreFinishes(sh, Step(sh, s, evs[0]), evs[1..], a); }
  }

  /** With less parity than data and no duplicated datagram a data shard's block is emitted at most twice, and twice
      exactly when the shard arrives and its group is rebuilt while the window lacks it: before it arrives, or after it
      has been trimmed away. */
  lemma EmittedTwiceIff(sh: Shape, evs: seq<Event>, a: nat)
    requires sh.Valid() && IsErasureCode(sh.codec, sh.d, sh.p) && sh.p < sh.d && DataPlace(sh, a)
    requires AllowedRun(sh, START, evs) && NoRepeats(sh, START, evs, {})
    ensures var tags := RunTags(sh, START, evs);
            && CountOf(tags, a) <= 2
            && (CountOf(tags, a) == 2 <==> a in Touched(evs) && Rebuilds(sh, START, evs, a) > 0)
            && (CountOf(tags, a) == 0 <==> a !in Touched(evs) && Rebuilds(sh, START, evs, a) == 0)
  {
    hide Inv, Step, IsErasureCode, AllowedRun, NoRepeats, Finishes, Rebuilds, Arrivals, RunTags;
    StartHolds(sh);
    EmissionsAre(sh, START, evs, a);
    ArrivesOnce(sh, START, evs, {}, a);
    RebuildsAreFinishes(sh, START, evs, a);
    GroupStartIs(sh, a);
    EachGroupFinishesOnce(sh, evs, GroupStart(sh, a));
  }

  // ------------------------------------------------------------------
  // Reordering alone makes a block appear twice
  // ------------------------------------------------------------------

  /** With the first shard missing and one parity shard in its place, exactly the first block is rebuilt. */
  lemma RebuiltFirst(sh: Shape, log: seq<Shard>, ws: seq<seq<byte>>)
    requires sh.Valid() && |ws| == sh.d && Carries(log, ws, sh.d) && AllShort(ws) && AllLong(ws)
    ensures Rebuilt(sh, log, Span(1, sh.d + 1)) == [ws[0]]
  {
    var now := Span(1, sh.d + 1);
    SpanBelow(1, sh.d + 1, sh.d);
    SpanBelow(1, sh.d + 1, 0);
    hide Below, Blocks, PayloadSegments, Payload;
    assert 0 !in now;
    OthersPresent(sh, log, 1);
    var rest := MissingAsSent(sh, log, now, 0, 1);
    BlocksOfOne(ws[0]);
    assert MissingAsSent(sh, log, now, 0, 0) == [log[0].payload] + rest;
    assert [Payload(ws[0])] + [] == [Payload(ws[0])];
  }

  lemma {:induction false} OthersPresent(sh: Shape, log: seq<Shard>, i: nat)
    requires sh.d <= |log| && 1 <= i
    ensures MissingAsSent(sh, log, Span(1, sh.d + 1), 0, i) == []
    decreases sh.d - i
  {
    if i < sh.d {
      OthersPresent(sh, log, i + 1);
      assert Span(1, sh.d + 1)[i - 1] == i;
    }
  }

  lemma {:induction false} OwnSpanSplit(log: seq<Shard>, lo: nat, mid: nat, hi: nat)
    requires lo <= mid <= hi <= |log|
    ensures OwnSpan(log, lo, hi) == OwnSpan(log, lo, mid) + OwnSpan(log, mid, hi)
    decreases mid - lo
  {
    if lo < mid {
      OwnSpanSplit(log, lo + 1, mid, hi);
      ConcatAssoc(OwnBlocks(log[lo]), OwnSpan(log, lo + 1, mid), OwnSpan(log, mid, hi));
    }
  }

  /** The blocks that the shards 1.. d + 1 carry themselves: all the writes but the first. */
  lemma LaterBlocks(sh: Shape, log: seq<Shard>, ws: seq<seq<byte>>)
    requires sh.Valid() && WellSent(sh, log) && |ws| == sh.d && Carries(log, ws, sh.d) && sh.N() <= |log|
    requires AllShort(ws) && AllLong(ws)
    ensures OwnSpan(log, 1, sh.d + 1) == ws[1..] && OwnBlocks(log[0]) == [ws[0]]
  {
    hide WellSent, OwnBlocks, Carries, AllShort, AllLong;
    OwnSpanSplit(log, 1, sh.d, sh.d + 1);
    DataBlocks(sh, log, ws, 1);
    DataBlocks(sh, log, ws, 0);
    assert OwnSpan(log, 0, sh.d) == OwnBlocks(log[0]) + OwnSpan(log, 1, sh.d);
    assert ws[0..] == [ws[0]] + ws[1..];
    FirstGroupFlags(sh, log, sh.d);
    NoOwnBlocks(log[sh.d]);
    assert OwnSpan(log, sh.d + 1, sh.d + 1) == [];
  }

  /** For every shape and every group of writes: when the first data shard arrives last, after the group has been rebuilt
      from the others and one parity shard, its block is emitted twice, although no datagram is duplicated and there
      may be less parity than data. */
  lemma LateShardRepeats(sh: Shape, ws: seq<seq<byte>>)
    requires sh.Valid() && IsErasureCode(sh.codec, sh.d, sh.p) && |ws| == sh.d && AllShort(ws) && AllLong(ws)
    ensures var evs := Sends(ws) + (Deliveries(1, sh.d + 1) + [Deliver(0, 0)]);
            && AllowedRun(sh, START, evs) && NoRepeats(sh, START, evs, {})
            && Run(sh, START, evs).blocks == ws[1..] + [ws[0]] + [ws[0]]
  {
    hide Inv, Step, Run, AllowedRun, NoRepeats, Finishes, Sends, Deliveries, Carries, AllShort, AllLong, OwnSpan, Rebuilt;
    hide Span, OwnBlocks;
    var x, y, z := Sends(ws), Deliveries(1, sh.d + 1), [Deliver(0, 0)];
    StartHolds(sh);
    StartCarries(ws);
    SendGroup(sh, START, ws, 0);
    assert ws[0..] == ws;
    SendsTouchNothing(ws);
    var s := Run(sh, START, x);
    EmptySpan(1);
    DeliverSpan(sh, s, 1, 0, {});
    DeliveriesTouch(1, sh.d + 1);
    var s' := Run(sh, s, y);
    InvParts(sh, s);
    LaterBlocks(sh, s.log, ws);
    RebuiltFirst(sh, s.log, ws);
    LastDelivery(sh, s', {} + Touched(y));
    RunAppend(sh, s, y, z, 0);
    RepeatsAppend(sh, s, y, z, {});
    RunAppend(sh, START, x, y + z, 0);
    assert {} + Touched(x) == {};
    RepeatsAppend(sh, START, x, y + z, {});
  }

  /** Shard 0 arriving at an empty window emits its own block and nothing else. */
  lemma LastDelivery(sh: Shape, s: Net, seen: set<nat>)
    requires sh.Valid() && IsErasureCode(sh.codec, sh.d, sh.p) && Inv(sh, s)
    requires sh.N() <= |s.log| && s.win == [] && 0 !in seen
    ensures var evs := [Deliver(0, 0)];
            && AllowedRun(sh, s, evs) && NoRepeats(sh, s, evs, seen)
            && Run(sh, s, evs).blocks == s.blocks + OwnBlocks(s.log[0])
  {
    hide Inv, OwnBlocks, Step, IsErasureCode;
    EmptySpan(0);
    DeliverNext(sh, s, 0, 0);
    OneRebuilt(sh, s.log);
    var s1 := Step(sh, s, Deliver(0, 0));
    assert Run(sh, s, [Deliver(0, 0)]) == Run(sh, s1, []) == s1;
    assert s.blocks + OwnBlocks(s.log[0]) + [] == s.blocks + OwnBlocks(s.log[0]);
  }

  lemma OneRebuilt(sh: Shape, log: seq<Shard>)
    requires sh.Valid() && sh.d <= |log|
    ensures Rebuilt(sh, log, Span(0, 0 + sh.d)) == []
  {
    hide Below;
    SpanBelow(0, sh.d, sh.d);
    SpanBelow(0, sh.d, 0);
  }
}
