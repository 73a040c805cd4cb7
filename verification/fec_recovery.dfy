/** One decoder step, restated on the window of shard numbers: what is rebuilt, what is removed, what stays. */
module FecRecovery {
  import opened Bytes
  import opened Modular
  import opened FecCodec
  import opened Fec
  import opened FecWindow

  /** The data shards of group b that the window lacks, padded to the group's length, in index order. */
  function Missing(sh: Shape, log: seq<Shard>, win: seq<nat>, b: nat, i: nat): seq<seq<byte>>
    requires b + sh.d <= |log|
    decreases sh.d - i
  {
    if i >= sh.d then []
    else (if b + i in win then [] else [Pad(log[b + i].payload, GroupLen(sh, log, b))])
         + Missing(sh, log, win, b, i + 1)
  }

  /** Is the group that starts at b done with: all its data present, or any d of its shards? */
  predicate Ready(sh: Shape, win: seq<nat>, b: nat) { Below(win, b + sh.N()) - Below(win, b) >= sh.d }

  predicate AllData(sh: Shape, win: seq<nat>, b: nat) { Below(win, b + sh.d) - Below(win, b) == sh.d }

  /** The window without the group that starts at b. */
  function GroupOut(sh: Shape, win: seq<nat>, b: nat): seq<nat> {
    BelowMonotone(win, b, b + sh.N());
    Free(win, Below(win, b), Below(win, b + sh.N()) - Below(win, b))
  }

  // ------------------------------------------------------------------
  // Counting within the group
  // ------------------------------------------------------------------

  /** There is room for at most y - x distinct numbers between x and y. */
  lemma BelowRoom(win: seq<nat>, x: nat, y: nat)
    requires Sorted(win) && x <= y
    ensures Below(win, y) - Below(win, x) <= y - x
  {
    BelowIs(win, x);
    BelowIs(win, y);
    var f, h := Below(win, x), Below(win, y);
    if f < h { Gaps(win, f, h - 1); }
  }

  lemma InRange(win: seq<nat>, x: nat, y: nat, v: nat)
    requires Sorted(win) && x <= v < y
    ensures Below(win, x) <= Below(win, y)
    ensures v in win <==> v in win[Below(win, x)..Below(win, y)]
  {
    BelowIs(win, x);
    BelowIs(win, y);
    BelowMonotone(win, x, y);
    if v in win {
      var i :| 0 <= i < |win| && win[i] == v;
      assert win[Below(win, x)..Below(win, y)][i - Below(win, x)] == v;
    }
  }

  // ------------------------------------------------------------------
  // Reconstruction
  // ------------------------------------------------------------------

  /** With d shards and not all the data, one shard is parity, so the group is complete on the sending side. */
  lemma ParityPresent(sh: Shape, log: seq<Shard>, win: seq<nat>, b: nat, g: Group)
    requires sh.Valid() && Sorted(win) && forall j :: 0 <= j < |win| ==> win[j] < |log|
    requires Below(win, b) <= Below(win, b + sh.N()) <= |win|
    requires Collected(sh, log, win, b, Below(win, b), Below(win, b + sh.N()), g)
    ensures g.data == Below(win, b + sh.d) - Below(win, b) <= sh.d
    ensures g.num >= sh.d && g.data != sh.d ==>
              var k := Below(win, b + sh.d);
              Below(win, b) <= k < Below(win, b + sh.N()) && b + sh.d <= win[k] < |log| && win[k] < b + sh.N()
  {
    BelowMonotone(win, b, b + sh.d);
    BelowMonotone(win, b + sh.d, b + sh.N());
    BelowRoom(win, b, b + sh.d);
    BelowIs(win, b + sh.d);
    BelowIs(win, b + sh.N());
  }

  /** Every shard the encoder sent for a group, padded to the group's length, is the codeword's shard. */
  lemma ShardOfCodeword(sh: Shape, log: seq<Shard>, b: nat, x: nat)
    requires sh.Valid() && IsErasureCode(sh.codec, sh.d, sh.p) && WellSent(sh, log)
    requires b % sh.N() == 0 && b + sh.d <= |log| && b <= x < b + sh.N() && x < |log|
    ensures var len := GroupLen(sh, log, b);
            var data := PadAll(GroupData(sh, log, b), len);
            var full := data + sh.codec.encode(data);
            && len > 0 && AllLength(data, len) && |full| == sh.N()
            && |log[x].payload| <= len && Pad(log[x].payload, len) == full[x - b]
            && (x >= b + sh.d ==> |log[x].payload| == len)
  {
    var xs, len := GroupData(sh, log, b), GroupLen(sh, log, b);
    var data := PadAll(xs, len);
    MaxLenIs(xs);
    BlockOffset(sh.N(), b, b);
    BlockOffset(sh.N(), b, x);
    assert SentOk(sh, log, b) && SentOk(sh, log, x);
    assert |xs[0]| >= 2;
    assert |sh.codec.encode(data)| == sh.p && AllLength(sh.codec.encode(data), len);
    if x < b + sh.d {
      assert xs[x - b] == log[x].payload && data[x - b] == Pad(log[x].payload, len);
    }
  }

  lemma {:induction false} MissingAgree(sh: Shape, log: seq<Shard>, win: seq<nat>, b: nat, shards: seq<Option<seq<byte>>>, i: nat)
    requires b + sh.d <= |log| && |shards| == sh.N()
    requires forall idx :: 0 <= idx < sh.d ==> (shards[idx].None? <==> b + idx !in win)
    ensures MissingFrom(shards, PadAll(GroupData(sh, log, b), GroupLen(sh, log, b)), i) == Missing(sh, log, win, b, i)
    decreases sh.d - i
  {
    if i < sh.d { MissingAgree(sh, log, win, b, shards, i + 1); }
  }

  /** Padding to the longest shard present is padding to the length the encoder used. */
  lemma PadLengthIsGroupLength(sh: Shape, log: seq<Shard>, win: seq<nat>, b: nat, g: Group)
    requires sh.Valid() && IsErasureCode(sh.codec, sh.d, sh.p) && WellSent(sh, log)
    requires Sorted(win) && b % sh.N() == 0 && b + sh.d <= |log|
    requires forall j :: 0 <= j < |win| ==> win[j] < |log|
    requires var f, h, k := Below(win, b), Below(win, b + sh.N()), Below(win, b + sh.d);
             f <= k < h <= |win| && b + sh.d <= win[k] && Longest(log, win, f, h, g)
    ensures g.maxLen == GroupLen(sh, log, b)
  {
    var f, h, k := Below(win, b), Below(win, b + sh.N()), Below(win, b + sh.d);
    BelowIs(win, b);
    BelowIs(win, b + sh.N());
    ShardOfCodeword(sh, log, b, win[k]);
    if g.maxLen > 0 {
      var j :| f <= j < h && |log[win[j]].payload| == g.maxLen;
      ShardOfCodeword(sh, log, b, win[j]);
    }
  }

  /** The collected slots, padded, agree with the codeword, and an empty data slot is a missing shard. */
  lemma SlotsAgree(sh: Shape, log: seq<Shard>, win: seq<nat>, b: nat, g: Group)
    requires sh.Valid() && IsErasureCode(sh.codec, sh.d, sh.p) && WellSent(sh, log)
    requires Sorted(win) && b % sh.N() == 0 && b + sh.d <= |log|
    requires Below(win, b) <= Below(win, b + sh.N())
    requires Slots(sh, log, win, b, Below(win, b), Below(win, b + sh.N()), g)
    ensures var data := PadAll(GroupData(sh, log, b), GroupLen(sh, log, b));
            Agrees(PadShards(g.shards, GroupLen(sh, log, b)), data + sh.codec.encode(data))
    ensures forall idx :: 0 <= idx < sh.d ==> (g.shards[idx].None? <==> b + idx !in win)
  {
    var len := GroupLen(sh, log, b);
    var data := PadAll(GroupData(sh, log, b), len);
    var full := data + sh.codec.encode(data);
    ShardOfCodeword(sh, log, b, b);
    forall idx | 0 <= idx < sh.N()
      ensures g.shards[idx].Some? ==> Pad(g.shards[idx].value, len) == full[idx]
      ensures idx < sh.d ==> (g.shards[idx].None? <==> b + idx !in win)
    {
      InRange(win, b, b + sh.N(), b + idx);
      if b + idx < |log| { ShardOfCodeword(sh, log, b, b + idx); }
    }
  }

  lemma Reconstructs(sh: Shape, log: seq<Shard>, win: seq<nat>, b: nat, g: Group)
    requires sh.Valid() && IsErasureCode(sh.codec, sh.d, sh.p) && WellSent(sh, log)
    requires Sorted(win) && b % sh.N() == 0 && forall j :: 0 <= j < |win| ==> win[j] < |log|
    requires Below(win, b) <= Below(win, b + sh.N()) <= |win|
    requires Collected(sh, log, win, b, Below(win, b), Below(win, b + sh.N()), g)
    requires g.num >= sh.d && g.data != sh.d
    ensures b + sh.d <= |log| && Recovered(sh, g) == Missing(sh, log, win, b, 0)
  {
    ParityPresent(sh, log, win, b, g);
    PadLengthIsGroupLength(sh, log, win, b, g);
    var len := GroupLen(sh, log, b);
    var data := PadAll(GroupData(sh, log, b), len);
    var padded := PadShards(g.shards, len);
    ShardOfCodeword(sh, log, b, b);
    SlotsAgree(sh, log, win, b, g);
    PresentSame(padded, g.shards);
    assert sh.codec.reconstruct(padded) == Some(data);
    MissingAgree(sh, log, win, b, g.shards, 0);
  }

  // ------------------------------------------------------------------
  // The whole step
  // ------------------------------------------------------------------

  lemma FreeSorted(win: seq<nat>, first: nat, n: nat)
    requires Sorted(win)
    ensures Sorted(Free(win, first, n))
  {
    FreeAt(win, first, n);
    hide Free;
  }

  lemma FreeRefines(rx: seq<Shard>, win: seq<nat>, log: seq<Shard>, first: nat, n: nat)
    requires Refines(rx, win, log) && Sorted(win)
    ensures Refines(Free(rx, first, n), Free(win, first, n), log) && Sorted(Free(win, first, n))
    ensures forall x :: x in Free(win, first, n) ==> x in win
  {
    FreeAt(rx, first, n);
    FreeAt(win, first, n);
    hide Free;
  }

  /** Where element i of what is left stood before. */
  function FreeIndex(len: nat, first: nat, n: nat, i: nat): nat {
    var end := Min(first + n, len);
    if first < end && i >= first then i + (end - first) else i
  }

  lemma FreeAt<T>(s: seq<T>, first: nat, n: nat)
    ensures |Free(s, first, n)| == |s| - Max(0, Min(first + n, |s|) - first)
    ensures forall i :: 0 <= i < |Free(s, first, n)| ==>
              FreeIndex(|s|, first, n, i) < |s| && Free(s, first, n)[i] == s[FreeIndex(|s|, first, n, i)]
  {}

  lemma TrimRefines(sh: Shape, rx: seq<Shard>, win: seq<nat>, log: seq<Shard>, expired: nat)
    requires Refines(rx, win, log) && Sorted(win)
    ensures Refines(Trim(sh, rx, expired), Trim(sh, win, expired), log) && Sorted(Trim(sh, win, expired))
    ensures forall x :: x in Trim(sh, win, expired) ==> x in win
  {
    hide Free, Sorted;
    FreeRefines(rx, win, log, 0, 1);
    var rx1 := if |rx| > 3 * sh.N() then Free(rx, 0, 1) else rx;
    var win1 := if |win| > 3 * sh.N() then Free(win, 0, 1) else win;
    FreeRefines(rx1, win1, log, 0, expired);
  }

  lemma TrimSorted(sh: Shape, win: seq<nat>, expired: nat)
    requires Sorted(win)
    ensures Sorted(Trim(sh, win, expired))
  {
    hide Free, Sorted;
    FreeSorted(win, 0, 1);
    FreeSorted(if |win| > 3 * sh.N() then Free(win, 0, 1) else win, 0, expired);
  }

  /** Nothing is emitted and no group leaves the window. */
  predicate Waited(sh: Shape, log: seq<Shard>, win: seq<nat>, expired: nat, rx': seq<Shard>, out: seq<seq<byte>>) {
    out == [] && Refines(rx', Trim(sh, win, expired), log)
  }

  /** The group at b leaves the window, and exactly its missing data shards are emitted in index order. */
  predicate Finished(sh: Shape, log: seq<Shard>, win: seq<nat>, b: nat, expired: nat, rx': seq<Shard>, out: seq<seq<byte>>) {
    && Ready(sh, win, b)
    && Refines(rx', Trim(sh, GroupOut(sh, win, b), expired), log)
    && if AllData(sh, win, b) then out == []
       else b + sh.d <= |log| && out == Missing(sh, log, win, b, 0)
  }

  /** After an arrival the decoder has either waited or finished the arrival's group. It finishes exactly when d
      shards of the group are in the window, provided the window does not reach back too far. */
  lemma ArrivalOutcome(sh: Shape, log: seq<Shard>, rx: seq<Shard>, win: seq<nat>, a: nat, expired: nat)
    requires sh.Valid() && IsErasureCode(sh.codec, sh.d, sh.p) && WellSent(sh, log)
    requires Refines(rx, win, log) && Sorted(win) && Near(win, a) && a < |log| && a !in win
    ensures var (rx', out) := DecodeStep(sh, rx, log[a], expired);
            var now, b := Arrived(win, a), GroupStart(sh, a);
            && (Waited(sh, log, now, expired, rx', out) || Finished(sh, log, now, b, expired, rx', out))
            && (Clear(sh, now, b) && Ready(sh, now, b) ==> Finished(sh, log, now, b, expired, rx', out))
            && (!Ready(sh, now, b) ==> Waited(sh, log, now, expired, rx', out))
  {
    ScanRefines(sh, log, rx, win, a, |rx|);
    ArrivedIs(log, rx, win, a);
    var at, now, b := Below(win, a), Arrived(win, a), GroupStart(sh, a);
    var rx1 := InsertAt(rx, at, log[a]);
    assert Near(now, a) by {
      forall i | 0 <= i < |now| ensures -SPAN < now[i] - a < SPAN { assert now[i] in now; }
    }
    ConcludeOutcome(sh, log, rx1, now, a, at, expired);
  }

  lemma ConcludeOutcome(sh: Shape, log: seq<Shard>, rx: seq<Shard>, now: seq<nat>, a: nat, at: nat, expired: nat)
    requires sh.Valid() && IsErasureCode(sh.codec, sh.d, sh.p) && WellSent(sh, log)
    requires Refines(rx, now, log) && Sorted(now) && Near(now, a)
    requires at < |now| && now[at] == a
    ensures var (rx', out) := Conclude(sh, rx, GroupAround(sh, rx, at, log[a].seqid), expired);
            var b := GroupStart(sh, a);
            && (Waited(sh, log, now, expired, rx', out) || Finished(sh, log, now, b, expired, rx', out))
            && (Clear(sh, now, b) && Ready(sh, now, b) ==> Finished(sh, log, now, b, expired, rx', out))
            && (!Ready(sh, now, b) ==> Waited(sh, log, now, expired, rx', out))
  {
    hide Finished, Trim, Free, Below, IsErasureCode, WellSent, Sorted, Near, Clear, GroupAround, Collected, Refines;
    RefinesLength(rx, now, log);
    var b := GroupStart(sh, a);
    GroupCollected(sh, log, rx, now, a, at);
    var g := GroupAround(sh, rx, at, log[a].seqid);
    TrimRefines(sh, rx, now, log, expired);
    BlockStart(sh.N(), a);
    if Collected(sh, log, now, b, Below(now, b), Below(now, b + sh.N()), g) {
      SearchCovers(sh, now, a, at);
      CountsAreTheWindow(sh, log, now, b, g);
      if g.num >= sh.d { FinishOutcome(sh, log, rx, now, b, g, expired); }
    }
  }

  /** The counts the decoder goes by are the window's own. */
  lemma CountsAreTheWindow(sh: Shape, log: seq<Shard>, win: seq<nat>, b: nat, g: Group)
    requires sh.Valid() && Sorted(win) && forall j :: 0 <= j < |win| ==> win[j] < |log|
    requires Below(win, b) < Below(win, b + sh.N()) <= |win|
    requires Collected(sh, log, win, b, Below(win, b), Below(win, b + sh.N()), g)
    ensures g.num >= sh.d <==> Ready(sh, win, b)
    ensures g.data == sh.d <==> AllData(sh, win, b)
    ensures g.data == sh.d ==> g.num >= sh.d
    ensures g.first == Below(win, b) && g.num == Below(win, b + sh.N()) - Below(win, b)
  {
    hide Slots, Longest, Below, Sorted;
    ParityPresent(sh, log, win, b, g);
    BelowMonotone(win, b + sh.d, b + sh.N());
  }

  lemma FinishOutcome(sh: Shape, log: seq<Shard>, rx: seq<Shard>, win: seq<nat>, b: nat, g: Group, expired: nat)
    requires sh.Valid() && IsErasureCode(sh.codec, sh.d, sh.p) && WellSent(sh, log)
    requires Refines(rx, win, log) && Sorted(win) && b % sh.N() == 0
    requires Below(win, b) < Below(win, b + sh.N()) <= |win|
    requires Collected(sh, log, win, b, Below(win, b), Below(win, b + sh.N()), g)
    requires g.num >= sh.d
    ensures Finished(sh, log, win, b, expired, Trim(sh, Free(rx, g.first, g.num), expired),
                     if g.data == sh.d then [] else Recovered(sh, g))
  {
    hide Collected, SentOk, WellSent, IsErasureCode, Below, Trim, Free, Refines, Sorted, Recovered, Missing;
    RefinesLength(rx, win, log);
    CountsAreTheWindow(sh, log, win, b, g);
    FreeRefines(rx, win, log, g.first, g.num);
    TrimRefines(sh, Free(rx, g.first, g.num), Free(win, g.first, g.num), log, expired);
    if g.data != sh.d { Reconstructs(sh, log, win, b, g); }
  }

  /** A shard already in the window changes nothing. */
  lemma DuplicateOutcome(sh: Shape, log: seq<Shard>, rx: seq<Shard>, win: seq<nat>, a: nat, expired: nat)
    requires sh.Valid() && WellSent(sh, log)
    requires Refines(rx, win, log) && Sorted(win) && Near(win, a) && a < |log| && a in win
    ensures DecodeStep(sh, rx, log[a], expired) == (rx, [])
  {
    ScanRefines(sh, log, rx, win, a, |rx|);
  }

  lemma GroupOutSlices(sh: Shape, win: seq<nat>, b: nat)
    ensures Below(win, b) <= Below(win, b + sh.N())
    ensures GroupOut(sh, win, b) == win[..Below(win, b)] + win[Below(win, b + sh.N())..]
  {
    BelowMonotone(win, b, b + sh.N());
    hide Below;
    assert win == win[..Below(win, b)] + win[Below(win, b)..];
  }

  lemma SlicesMembers(win: seq<nat>, f: nat, h: nat, x: nat)
    requires f <= h <= |win|
    ensures x in win <==> x in win[..f] + win[h..] || x in win[f..h]
  {
    assert win == win[..f] + win[f..h] + win[h..];
  }

  /** What leaves the window with a finished group is that group and nothing else. */
  lemma GroupOutIs(sh: Shape, win: seq<nat>, b: nat, x: nat)
    requires Sorted(win)
    ensures x in GroupOut(sh, win, b) <==> x in win && !(b <= x < b + sh.N())
    ensures Sorted(GroupOut(sh, win, b))
  {
    BelowIs(win, b);
    BelowIs(win, b + sh.N());
    GroupOutSlices(sh, win, b);
    hide Below, GroupOut;
    SlicesMembers(win, Below(win, b), Below(win, b + sh.N()), x);
  }

  lemma TrimBounds<T>(sh: Shape, rx: seq<T>, expired: nat)
    requires |rx| <= 3 * sh.N() + 1
    ensures |Trim(sh, rx, expired)| <= 3 * sh.N()
  {}

  /** The window never outgrows three groups, whatever arrives and wherever it came from. */
  lemma WindowStaysBounded(sh: Shape, rx: seq<Shard>, s: Shard, expired: nat)
    requires sh.Valid() && |rx| <= 3 * sh.N()
    ensures |DecodeStep(sh, rx, s, expired).0| <= 3 * sh.N()
  {
    ScanInRange(rx, |rx|, s.seqid);
    match Scan(rx, |rx|, s.seqid)
    case None =>
    case Some(at) =>
      var rx1 := InsertAt(rx, at, s);
      var g := GroupAround(sh, rx1, at, s.seqid);
      assert |Free(rx1, g.first, g.num)| <= |rx1|;
      TrimBounds(sh, rx1, expired);
      TrimBounds(sh, Free(rx1, g.first, g.num), expired);
  }
}
