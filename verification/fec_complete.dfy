/** What the decoder's window keeps over whole runs, and when it keeps enough of a group to complete it. */
module FecComplete {
  import opened Bytes
  import opened Modular
  import opened FecCodec
  import opened Fec
  import opened FecWindow
  import opened FecRecovery
  import opened FecSystem
  import opened FecOnce

  // ------------------------------------------------------------------
  // The window after an arrival, as a set
  // ------------------------------------------------------------------

  /** The numbers an arrival leaves for the window to hold: all it had and the new one, but not a finished group. */
  ghost function InPlay(sh: Shape, s: Net, ev: Event): set<nat>
    requires sh.Valid() && ev.Deliver?
  {
    set x | x in s.win + [ev.a] && !FinishesNow(sh, s, ev, GroupStart(sh, x))
  }

  function Smaller(xs: set<nat>, x: nat): set<nat> { set y | y in xs && y < x }

  function Larger(xs: set<nat>, x: nat): set<nat> { set y | y in xs && y > x }

  function SetOf(win: seq<nat>): set<nat> { set x | x in win }

  lemma {:induction false} SortedCount(win: seq<nat>, k: nat)
    requires Sorted(win) && k <= |win|
    ensures |SetOf(win[..k])| == k
    decreases k
  {
    hide Sorted;
    if k == 0 {
      assert SetOf(win[..0]) == {};
    } else {
      SortedCount(win, k - 1);
      LastIsNew(win, k - 1);
      assert win[..k] == win[..k - 1] + [win[k - 1]];
      assert SetOf(win[..k]) == SetOf(win[..k - 1]) + {win[k - 1]};
    }
  }

  lemma LastIsNew(win: seq<nat>, i: nat)
    requires Sorted(win) && i < |win|
    ensures win[i] !in win[..i]
  {}

  /** The place of a number in a sorted window is the count of the smaller ones. */
  lemma PlaceIsRank(win: seq<nat>, i: nat)
    requires Sorted(win) && i < |win|
    ensures |Smaller(SetOf(win), win[i])| == i && |SetOf(win)| == |win|
  {
    SortedCount(win, i);
    SortedCount(win, |win|);
    assert win[..|win|] == win;
    assert Smaller(SetOf(win), win[i]) == SetOf(win[..i]);
  }

  lemma TrimIs<T>(sh: Shape, win: seq<T>, expired: nat)
    ensures Trim(sh, win, expired) == win[Min(|win|, (if |win| > 3 * sh.N() then 1 else 0) + expired)..]
  {}

  /** What trimming keeps of a sorted window: everything but the least ones. */
  lemma TrimKeeps(sh: Shape, win: seq<nat>, expired: nat, x: nat)
    requires Sorted(win)
    ensures x in Trim(sh, win, expired) <==>
            x in win && |Smaller(SetOf(win), x)| >= (if |SetOf(win)| > 3 * sh.N() then 1 else 0) + expired
  {
    TrimIs(sh, win, expired);
    hide Trim, Smaller, Sorted;
    SortedCount(win, |win|);
    assert win[..|win|] == win;
    var drop := (if |win| > 3 * sh.N() then 1 else 0) + expired;
    var k := Min(|win|, drop);
    if x in win {
      var i :| 0 <= i < |win| && win[i] == x;
      PlaceIsRank(win, i);
      if i >= k { assert win[k..][i - k] == x; }
      if x in win[k..] {
        var j :| 0 <= j < |win[k..]| && win[k..][j] == x;
        SortedUnique(win, i, k + j);
      }
    }
  }

  lemma SortedUnique(win: seq<nat>, i: nat, j: nat)
    requires Sorted(win) && i < |win| && j < |win| && win[i] == win[j]
    ensures i == j
  {}

  lemma InPlayIs(sh: Shape, s: Net, ev: Event)
    requires sh.Valid() && Inv(sh, s) && ev.Deliver? && ev.a < |s.log| && ev.a !in s.win
    ensures var now, b := Arrived(s.win, ev.a), GroupStart(sh, ev.a);
            var left := if FinishesNow(sh, s, ev, b) then GroupOut(sh, now, b) else now;
            Sorted(left) && SetOf(left) == InPlay(sh, s, ev)
  {
    hide Inv, FinishesNow, Arrived, GroupOut, GroupStart, Refines, Sorted, WellSent, CarriesWrites;
    InvParts(sh, s);
    ArrivedIs(s.log, s.rx, s.win, ev.a);
    var now, b := Arrived(s.win, ev.a), GroupStart(sh, ev.a);
    GroupStartIs(sh, ev.a);
    GroupOutIs(sh, now, b, 0);
    forall x: nat
      ensures x in GroupOut(sh, now, b) <==> x in now && !(b <= x < b + sh.N())
      ensures FinishesNow(sh, s, ev, GroupStart(sh, x)) <==> FinishesNow(sh, s, ev, b) && b <= x < b + sh.N()
    {
      GroupOutIs(sh, now, b, x);
      GroupStartIs(sh, x);
      if FinishesNow(sh, s, ev, GroupStart(sh, x)) { FinishIsOwn(sh, s, ev, GroupStart(sh, x)); }
      if b <= x < b + sh.N() { SameGroup(sh, x, ev.a); }
    }
  }

  /** In every reachable state: after an arrival that was not in the window, the window holds exactly the numbers in
      play except the least ones, one of them if there are more than 3 (d + p) in play and the expired ones. */
  lemma WindowAfterArrival(sh: Shape, s: Net, ev: Event, x: nat)
    requires sh.Valid() && Inv(sh, s) && ev.Deliver? && ev.a < |s.log| && ev.a !in s.win
    ensures var xs := InPlay(sh, s, ev);
            x in Step(sh, s, ev).win <==>
            x in xs && |Smaller(xs, x)| >= (if |xs| > 3 * (sh.d + sh.p) then 1 else 0) + ev.expired
  {
    hide Inv, FinishesNow, Arrived, GroupOut, GroupStart, Step, Trim, InPlay, Smaller, Sorted;
    InPlayIs(sh, s, ev);
    WindowAfterDeliver(sh, s, ev);
    var now, b := Arrived(s.win, ev.a), GroupStart(sh, ev.a);
    var left := if FinishesNow(sh, s, ev, b) then GroupOut(sh, now, b) else now;
    TrimKeeps(sh, left, ev.expired, x);
  }

  lemma WindowKeepsTheNewest(sh: Shape, evs: seq<Event>, ev: Event, x: nat)
    requires sh.Valid() && IsErasureCode(sh.codec, sh.d, sh.p) && AllowedRun(sh, START, evs)
    requires var s := Run(sh, START, evs); ev.Deliver? && ev.a < |s.log| && ev.a !in s.win
    ensures var s := Run(sh, START, evs);
            var xs := InPlay(sh, s, ev);
            x in Step(sh, s, ev).win <==>
            x in xs && |Smaller(xs, x)| >= (if |xs| > 3 * (sh.d + sh.p) then 1 else 0) + ev.expired
  {
    hide Inv, Step, Run, InPlay, Smaller;
    StartHolds(sh);
    RunKeeps(sh, START, evs);
    WindowAfterArrival(sh, Run(sh, START, evs), ev, x);
  }

  // ------------------------------------------------------------------
  // A group that is not pushed out is completed
  // ------------------------------------------------------------------

  /** Nothing expires, the window does not reach back too far when a shard of the group at b arrives, and no arrival puts
      3 (d + p) larger numbers into the window than one it holds of that group. */
  ghost predicate GentleStep(sh: Shape, s: Net, ev: Event, b: nat) {
    ev.Deliver? ==>
      && ev.expired == 0
      && (b <= ev.a < b + sh.N() ==> Clear(sh, s.win, b))
      && forall x :: x in s.win + [ev.a] && b <= x < b + sh.N() ==>
           |Larger(SetOf(s.win + [ev.a]), x)| < 3 * (sh.d + sh.p)
  }

  ghost predicate Gentle(sh: Shape, s: Net, evs: seq<Event>, b: nat)
    requires sh.Valid()
    decreases |evs|
  {
    evs == [] || (GentleStep(sh, s, evs[0], b) && Gentle(sh, Step(sh, s, evs[0]), evs[1..], b))
  }

  /** The shards of the group at b that arrive during a run. */
  function Got(sh: Shape, s: Net, evs: seq<Event>, b: nat): set<nat>
    requires sh.Valid()
    decreases |evs|
  {
    if evs == [] then {}
    else (if evs[0].Deliver? && evs[0].a < |s.log| && b <= evs[0].a < b + sh.N() then {evs[0].a} else {})
         + Got(sh, Step(sh, s, evs[0]), evs[1..], b)
  }

  /** A gentle arrival that does not finish the group keeps all its shards. */
  lemma GroupIsKept(sh: Shape, s: Net, ev: Event, b: nat)
    requires sh.Valid() && Inv(sh, s) && b % sh.N() == 0 && GentleStep(sh, s, ev, b)
    requires ev.Deliver? && ev.a < |s.log| && ev.a !in s.win && !FinishesNow(sh, s, ev, b)
    ensures Members(sh, Step(sh, s, ev).win, b) ==
            Members(sh, s.win, b) + (if b <= ev.a < b + sh.N() then {ev.a} else {})
  {
    hide Inv, FinishesNow, Step, GroupStart;
    var xs := InPlay(sh, s, ev);
    forall x | b <= x < b + sh.N() ensures x in Step(sh, s, ev).win <==> x == ev.a || x in s.win {
      WindowAfterArrival(sh, s, ev, x);
      InGroup(sh, b, x);
      if x in s.win + [ev.a] {
        assert x in xs;
        LeastHasLarger(xs, SetOf(s.win + [ev.a]), x);
      }
    }
  }

  lemma InGroup(sh: Shape, b: nat, x: nat)
    requires sh.Valid() && b % sh.N() == 0 && b <= x < b + sh.N()
    ensures GroupStart(sh, x) == b
  {
    BlockOffset(sh.N(), b, x);
  }

  /** With nothing smaller in a set, all the others are larger. */
  lemma LeastHasLarger(xs: set<nat>, ys: set<nat>, x: nat)
    requires xs <= ys && x in xs
    ensures |Smaller(xs, x)| == 0 ==> |xs| <= 1 + |Larger(ys, x)|
  {
    if Smaller(xs, x) == {} {
      forall y | y in xs - {x} ensures y in Larger(ys, x) {
        assert y !in Smaller(xs, x);
      }
      SmallerSet(xs - {x}, Larger(ys, x));
    }
  }

  lemma {:induction false} SliceCount(win: seq<nat>, f: nat, h: nat)
    requires f <= h <= |win|
    ensures |SetOf(win[f..h])| <= h - f
    decreases h - f
  {
    if f == h {
      assert SetOf(win[f..h]) == {};
    } else {
      SliceCount(win, f, h - 1);
      assert win[f..h] == win[f..h - 1] + [win[h - 1]];
      assert SetOf(win[f..h]) == SetOf(win[f..h - 1]) + {win[h - 1]};
    }
  }

  /** d members of the group in a sorted window make it ready. */
  lemma MembersMakeReady(sh: Shape, win: seq<nat>, b: nat)
    requires Sorted(win) && |Members(sh, win, b)| >= sh.d
    ensures Ready(sh, win, b)
  {
    hide Sorted;
    var f, h := Below(win, b), Below(win, b + sh.N());
    BelowMonotone(win, b, b + sh.N());
    forall x | x in Members(sh, win, b) ensures x in SetOf(win[f..h]) { InRange(win, b, b + sh.N(), x); }
    SmallerSet(Members(sh, win, b), SetOf(win[f..h]));
    SliceCount(win, f, h);
  }

  lemma ClearArrived(sh: Shape, s: Net, a: nat, b: nat)
    requires sh.Valid() && Refines(s.rx, s.win, s.log) && Sorted(s.win) && a < |s.log| && a !in s.win
    requires Clear(sh, s.win, b) && b <= a < b + sh.N()
    ensures Clear(sh, Arrived(s.win, a), b)
  {
    ArrivedIs(s.log, s.rx, s.win, a);
    hide Arrived, Sorted, Refines;
    var now := Arrived(s.win, a);
    forall i | 0 <= i < |now| ensures b + sh.N() - 1 - now[i] < SPAN {
      assert now[i] in now;
      if now[i] != a {
        var j :| 0 <= j < |s.win| && s.win[j] == now[i];
      }
    }
  }

  /** An arrival of the group that does not finish it leaves fewer than d shards of it. */
  lemma NotYetReady(sh: Shape, s: Net, ev: Event, b: nat)
    requires sh.Valid() && IsErasureCode(sh.codec, sh.d, sh.p) && Inv(sh, s) && b % sh.N() == 0
    requires ev.Deliver? && ev.a < |s.log| && ev.a !in s.win && Near(s.win, ev.a) && b <= ev.a < b + sh.N()
    requires Clear(sh, s.win, b) && !FinishesNow(sh, s, ev, b)
    ensures |Members(sh, s.win, b) + {ev.a}| < sh.d
  {
    hide Inv, FinishesNow, GroupStart, Arrived, Ready, Near, Clear, Refines, Sorted, WellSent, CarriesWrites, Completes;
    InvParts(sh, s);
    InGroup(sh, b, ev.a);
    ClearArrived(sh, s, ev.a, b);
    ArrivalCompletes(sh, s, ev.a, ev.expired);
    assert ev == Deliver(ev.a, ev.expired);
    ArrivedIs(s.log, s.rx, s.win, ev.a);
    var now := Arrived(s.win, ev.a);
    assert Members(sh, now, b) == Members(sh, s.win, b) + {ev.a};
    if |Members(sh, now, b)| >= sh.d { MembersMakeReady(sh, now, b); }
  }

  /** One event of a gentle run: it finishes the group, or the group's shards in the window grow by what arrived. */
  lemma GentleKeeps(sh: Shape, s: Net, ev: Event, b: nat)
    requires sh.Valid() && IsErasureCode(sh.codec, sh.d, sh.p) && Inv(sh, s) && b % sh.N() == 0
    requires Allowed(s, ev) && GentleStep(sh, s, ev, b) && |Members(sh, s.win, b)| < sh.d
    ensures var got := if ev.Deliver? && ev.a < |s.log| && b <= ev.a < b + sh.N() then {ev.a} else {};
            var m' := Members(sh, Step(sh, s, ev).win, b);
            FinishesNow(sh, s, ev, b) || (m' == Members(sh, s.win, b) + got && |m'| < sh.d)
  {
    hide Inv, FinishesNow, Near, Step, Clear, Larger, SetOf, IsErasureCode;
    if ev.Send? {
      SendIsQuiet(sh, s, ev, b);
    } else if ev.a >= |s.log| {
      LateIsQuiet(sh, s, ev);
    } else if ev.a in s.win {
      WindowAfterDeliver(sh, s, ev);
      HeldMember(sh, s.win, b, ev.a);
    } else if !FinishesNow(sh, s, ev, b) {
      GroupIsKept(sh, s, ev, b);
      if b <= ev.a < b + sh.N() { NotYetReady(sh, s, ev, b); } else { assert Members(sh, s.win, b) + {} == Members(sh, s.win, b); }
    }
  }

  lemma LateIsQuiet(sh: Shape, s: Net, ev: Event)
    requires sh.Valid() && ev.Deliver? && ev.a >= |s.log|
    ensures Step(sh, s, ev) == s
  {}

  lemma HeldMember(sh: Shape, win: seq<nat>, b: nat, a: nat)
    requires a in win
    ensures Members(sh, win, b) == Members(sh, win, b) + (if b <= a < b + sh.N() then {a} else {})
  {}

  /** Completeness over runs: once d shards of a group are held or arrive in a gentle run, the group is finished. */
  lemma {:induction false} DShardsFinish(sh: Shape, s: Net, evs: seq<Event>, b: nat)
    requires sh.Valid() && IsErasureCode(sh.codec, sh.d, sh.p) && Inv(sh, s) && b % sh.N() == 0
    requires AllowedRun(sh, s, evs) && Gentle(sh, s, evs, b)
    requires |Members(sh, s.win, b)| < sh.d <= |Members(sh, s.win, b) + Got(sh, s, evs, b)|
    ensures Finishes(sh, s, evs, b) >= 1
    decreases |evs|
  {
    hide Inv, Step, FinishesNow, GentleStep, Allowed, Members, IsErasureCode;
    assert Members(sh, s.win, b) + {} == Members(sh, s.win, b);
    if evs != [] {
      GentleKeeps(sh, s, evs[0], b);
      if !FinishesNow(sh, s, evs[0], b) {
        var s1 := Step(sh, s, evs[0]);
        EventKeeps(sh, s, evs[0]);
        var got := if evs[0].Deliver? && evs[0].a < |s.log| && b <= evs[0].a < b + sh.N() then {evs[0].a} else {};
        assert Members(sh, s.win, b) + Got(sh, s, evs, b) == Members(sh, s1.win, b) + Got(sh, s1, evs[1..], b);
        DShardsFinish(sh, s1, evs[1..], b);
      }
    }
  }

  // ------------------------------------------------------------------
  // A finished group has handed over every one of its blocks
  // ------------------------------------------------------------------

  /** d shards in the d data places are all of them. */
  lemma AllDataIsAll(sh: Shape, win: seq<nat>, b: nat, x: nat)
    requires Sorted(win) && AllData(sh, win, b) && b <= x < b + sh.d
    ensures x in win
  {
    var f, h := Below(win, b), Below(win, b + sh.d);
    BelowIs(win, b);
    BelowIs(win, b + sh.d);
    hide Below, AllData;
    var i := x - b;
    Gaps(win, f, f + i);
    Gaps(win, f + i, h - 1);
    assert win[f + i] == x;
  }

  lemma FinishHandsOver(sh: Shape, s: Net, ev: Event, x: nat)
    requires sh.Valid() && Inv(sh, s) && DataPlace(sh, x) && FinishesNow(sh, s, ev, GroupStart(sh, x))
    ensures x in s.win || (ev.Deliver? && ev.a == x && x < |s.log|) || RebuiltNow(sh, s, ev, x)
  {
    var b := GroupStart(sh, x);
    GroupStartIs(sh, x);
    FinishHead(sh, s, ev, b);
    InvParts(sh, s);
    hide Inv, FinishesNow, Arrived, GroupStart, AllData, Refines, Sorted, WellSent, CarriesWrites;
    ArrivedIs(s.log, s.rx, s.win, ev.a);
    var now := Arrived(s.win, ev.a);
    if x !in now && AllData(sh, now, b) { AllDataIsAll(sh, now, b, x); }
  }

  lemma FinishHead(sh: Shape, s: Net, ev: Event, b: nat)
    requires sh.Valid() && FinishesNow(sh, s, ev, b)
    ensures ev.Deliver? && ev.a < |s.log| && ev.a !in s.win
  {
    hide DecodeStep, Finished, GroupStart, Arrived;
  }

  lemma WindowGrowsByArrival(sh: Shape, s: Net, ev: Event, x: nat)
    requires sh.Valid() && Inv(sh, s) && x in Step(sh, s, ev).win
    ensures x in s.win || (ev.Deliver? && ev.a == x && x < |s.log|)
  {
    if ev.Send? {
      SendIsQuiet(sh, s, ev, 0);
    } else if ev.a >= |s.log| {
      LateIsQuiet(sh, s, ev);
    } else {
      hide Inv, Step, Refines, Sorted, WellSent, CarriesWrites;
      InvParts(sh, s);
      BlockZero(sh);
      DeliverLeaves(sh, s, ev, 0, x);
    }
  }

  lemma BlockZero(sh: Shape)
    requires sh.Valid()
    ensures 0 % sh.N() == 0
  {
    ModUnique(sh.N(), 0, 0);
  }

  lemma {:induction false} FinishedIsHandedOver(sh: Shape, s: Net, evs: seq<Event>, x: nat)
    requires sh.Valid() && IsErasureCode(sh.codec, sh.d, sh.p) && Inv(sh, s) && AllowedRun(sh, s, evs)
    requires DataPlace(sh, x) && Finishes(sh, s, evs, GroupStart(sh, x)) >= 1
    ensures x in s.win || Arrivals(sh, s, evs, x) + Rebuilds(sh, s, evs, x) >= 1
    decreases |evs|
  {
    hide Inv, Step, FinishesNow, RebuiltNow, Allowed, IsErasureCode, DataPlace, GroupStart;
    if evs != [] {
      var b, s1 := GroupStart(sh, x), Step(sh, s, evs[0]);
      if FinishesNow(sh, s, evs[0], b) {
        FinishHandsOver(sh, s, evs[0], x);
      } else {
        EventKeeps(sh, s, evs[0]);
        FinishedIsHandedOver(sh, s1, evs[1..], x);
        if x in s1.win { WindowGrowsByArrival(sh, s, evs[0], x); }
      }
    }
  }

  /** From the start: whenever d shards of a group arrive in a run that is gentle with it, every data block of the group
      has been handed over, arrived or rebuilt. */
  lemma GroupIsRecovered(sh: Shape, evs: seq<Event>, x: nat)
    requires sh.Valid() && IsErasureCode(sh.codec, sh.d, sh.p) && AllowedRun(sh, START, evs) && DataPlace(sh, x)
    requires var b := GroupStart(sh, x); Gentle(sh, START, evs, b) && |Got(sh, START, evs, b)| >= sh.d
    ensures Finishes(sh, START, evs, GroupStart(sh, x)) >= 1
    ensures CountOf(RunTags(sh, START, evs), x) >= 1
  {
    hide Inv, Step, Finishes, RunTags, Arrivals, Rebuilds, Got, Gentle, AllowedRun, IsErasureCode, GroupStart, DataPlace;
    var b := GroupStart(sh, x);
    StartHolds(sh);
    GroupStartIs(sh, x);
    var got := Got(sh, START, evs, b);
    assert Members(sh, START.win, b) == {} && {} + got == got;
    ShapeHasData(sh);
    DShardsFinish(sh, START, evs, b);
    FinishedIsHandedOver(sh, START, evs, x);
    EmissionsAre(sh, START, evs, x);
  }

  lemma ShapeHasData(sh: Shape)
    requires sh.Valid()
    ensures sh.d >= 1
  {}
}
