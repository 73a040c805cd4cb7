/** What the Reed-Solomon library is taken to provide, and a code that provides it. */
module FecCodec {
  import opened Bytes

  /** `encode` yields the parity shards of the data shards; `reconstruct` the data shards from those present. */
  datatype Codec = Codec(
    encode: seq<seq<byte>> -> seq<seq<byte>>,
    reconstruct: seq<Option<seq<byte>>> -> Option<seq<seq<byte>>>)

  predicate AllLength(shards: seq<seq<byte>>, len: nat) {
    forall i :: 0 <= i < |shards| ==> |shards[i]| == len
  }

  function Present(shards: seq<Option<seq<byte>>>): nat {
    if shards == [] then 0 else (if shards[0].Some? then 1 else 0) + Present(shards[1..])
  }

  predicate Agrees(shards: seq<Option<seq<byte>>>, full: seq<seq<byte>>) {
    |shards| == |full| && forall i :: 0 <= i < |full| && shards[i].Some? ==> shards[i].value == full[i]
  }

  /** Parity is as long as the data, and any d of the d + p shards determine the data. */
  ghost predicate IsErasureCode(c: Codec, d: nat, p: nat) {
    && (forall data: seq<seq<byte>>, len: nat | |data| == d && len > 0 && AllLength(data, len) ::
          |c.encode(data)| == p && AllLength(c.encode(data), len))
    && (forall data: seq<seq<byte>>, len: nat, shards: seq<Option<seq<byte>>> |
          |data| == d && len > 0 && AllLength(data, len)
          && Agrees(shards, data + c.encode(data)) && Present(shards) >= d ::
          c.reconstruct(shards) == Some(data))
  }

  // ------------------------------------------------------------------
  // Counting present shards
  // ------------------------------------------------------------------

  lemma {:induction false} PresentUpdate(shards: seq<Option<seq<byte>>>, i: nat, v: seq<byte>)
    requires i < |shards| && shards[i].None?
    ensures Present(shards[i := Some(v)]) == Present(shards) + 1
  {
    if i == 0 {
      assert shards[i := Some(v)][1..] == shards[1..];
    } else {
      PresentUpdate(shards[1..], i - 1, v);
      assert shards[i := Some(v)][1..] == shards[1..][i - 1 := Some(v)];
    }
  }

  lemma {:induction false} PresentSame(a: seq<Option<seq<byte>>>, b: seq<Option<seq<byte>>>)
    requires |a| == |b| && forall i :: 0 <= i < |a| ==> a[i].Some? == b[i].Some?
    ensures Present(a) == Present(b)
  {
    if a != [] { PresentSame(a[1..], b[1..]); }
  }

  lemma {:induction false} PresentNone(shards: seq<Option<seq<byte>>>)
    requires forall i :: 0 <= i < |shards| ==> shards[i].None?
    ensures Present(shards) == 0
  {
    if shards != [] { PresentNone(shards[1..]); }
  }

  lemma {:induction false} PresentAtMost(shards: seq<Option<seq<byte>>>)
    ensures Present(shards) <= |shards|
    ensures forall i, j :: 0 <= i < j < |shards| && shards[i].None? && shards[j].None? ==> Present(shards) <= |shards| - 2
    ensures forall i :: 0 <= i < |shards| && shards[i].None? ==> Present(shards) <= |shards| - 1
  {
    if shards != [] {
      PresentAtMost(shards[1..]);
      assert forall i :: 0 < i < |shards| ==> shards[i] == shards[1..][i - 1];
    }
  }

  // ------------------------------------------------------------------
  // The hypothesis is satisfiable: one parity shard, the exclusive-or of the data
  // ------------------------------------------------------------------

  function FoldXor(xs: seq<byte>): byte {
    if xs == [] then 0 else XorByte(xs[0], FoldXor(xs[1..]))
  }

  function Without<T>(xs: seq<T>, i: nat): seq<T>
    requires i < |xs|
  {
    xs[..i] + xs[i + 1..]
  }

  lemma {:induction false} FoldPull(xs: seq<byte>, i: nat)
    requires i < |xs|
    ensures FoldXor(xs) == XorByte(xs[i], FoldXor(Without(xs, i)))
  {
    if i == 0 {
      assert Without(xs, 0) == xs[1..];
    } else {
      FoldPull(xs[1..], i - 1);
      var rest := FoldXor(Without(xs[1..], i - 1));
      assert Without(xs, i) == [xs[0]] + Without(xs[1..], i - 1);
      XorAssoc(xs[0], xs[i], rest);
      XorComm(xs[0], xs[i]);
      XorAssoc(xs[i], xs[0], rest);
    }
  }

  /** Replacing one element by the total recovers that element. */
  lemma FoldRecovers(xs: seq<byte>, i: nat)
    requires i < |xs|
    ensures FoldXor(xs[i := FoldXor(xs)]) == xs[i]
  {
    var total := FoldXor(xs);
    var ys := xs[i := total];
    FoldPull(xs, i);
    FoldPull(ys, i);
    assert Without(ys, i) == Without(xs, i);
    XorCancel(xs[i], FoldXor(Without(xs, i)));
  }

  function Column(shards: seq<seq<byte>>, k: nat): seq<byte> {
    seq(|shards|, i requires 0 <= i < |shards| => if k < |shards[i]| then shards[i][k] else 0)
  }

  function XorShards(shards: seq<seq<byte>>): seq<byte> {
    if shards == [] then [] else seq(|shards[0]|, k requires 0 <= k < |shards[0]| => FoldXor(Column(shards, k)))
  }

  /** The first missing data shard, or d. */
  function FirstMissing(shards: seq<Option<seq<byte>>>, d: nat, from: nat): nat
    requires from <= d <= |shards|
    decreases d - from
  {
    if from == d || shards[from].None? then from else FirstMissing(shards, d, from + 1)
  }

  lemma {:induction false} FirstMissingIs(shards: seq<Option<seq<byte>>>, d: nat, from: nat)
    requires from <= d <= |shards|
    ensures var m := FirstMissing(shards, d, from);
            from <= m <= d && (m < d ==> shards[m].None?) && forall i :: from <= i < m ==> shards[i].Some?
    decreases d - from
  {
    if from < d && shards[from].Some? { FirstMissingIs(shards, d, from + 1); }
  }

  function GetOr(o: Option<seq<byte>>, default: seq<byte>): seq<byte> { if o.Some? then o.value else default }

  /** Fill the missing shard's place with the parity shard and take the exclusive-or of them all. */
  function XorReconstruct(d: nat, shards: seq<Option<seq<byte>>>): Option<seq<seq<byte>>> {
    if |shards| != d + 1 then None
    else
      var known := seq(d, i requires 0 <= i < d => GetOr(shards[i], GetOr(shards[d], [])));
      var m := FirstMissing(shards, d, 0);
      FirstMissingIs(shards, d, 0);
      Some(if m == d then known else known[m := XorShards(known)])
  }

  function XorCodec(d: nat): Codec {
    Codec((data: seq<seq<byte>>) => [XorShards(data)], (shards: seq<Option<seq<byte>>>) => XorReconstruct(d, shards))
  }

  /** With the parity shard in place of data shard m, the exclusive-or of all is shard m. */
  lemma XorFills(data: seq<seq<byte>>, len: nat, m: nat)
    requires m < |data| && AllLength(data, len)
    ensures XorShards(data[m := XorShards(data)]) == data[m]
  {
    hide FoldXor;
    var known := data[m := XorShards(data)];
    forall k | 0 <= k < len ensures XorShards(known)[k] == data[m][k] {
      FoldRecovers(Column(data, k), m);
      assert Column(known, k) == Column(data, k)[m := XorShards(data)[k]];
    }
  }

  lemma XorReconstructs(d: nat, data: seq<seq<byte>>, len: nat, shards: seq<Option<seq<byte>>>)
    requires |data| == d > 0 && AllLength(data, len)
    requires Agrees(shards, data + [XorShards(data)]) && Present(shards) >= d
    ensures XorReconstruct(d, shards) == Some(data)
  {
    hide XorShards, FirstMissing, Present, AllLength;
    var known := seq(d, i requires 0 <= i < d => GetOr(shards[i], GetOr(shards[d], [])));
    var m := FirstMissing(shards, d, 0);
    FirstMissingIs(shards, d, 0);
    var full := data + [XorShards(data)];
    assert forall i :: 0 <= i < d ==> full[i] == data[i];
    if m == d {
      assert known == data;
    } else {
      PresentAtMost(shards);
      assert forall i :: 0 <= i <= d && i != m ==> shards[i].Some? && shards[i].value == full[i];
      assert full[d] == XorShards(data);
      assert known == data[m := XorShards(data)];
      XorFills(data, len, m);
      assert known[m := data[m]] == data;
    }
  }

  /** The erasure hypothesis is not vacuous: for every d the exclusive-or code with one parity shard meets it. */
  lemma XorIsErasureCode(d: nat)
    requires d > 0
    ensures IsErasureCode(XorCodec(d), d, 1)
  {
    forall data: seq<seq<byte>>, len: nat, shards: seq<Option<seq<byte>>> |
      |data| == d && len > 0 && AllLength(data, len)
      && Agrees(shards, data + XorCodec(d).encode(data)) && Present(shards) >= d
      ensures XorCodec(d).reconstruct(shards) == Some(data)
    {
      XorReconstructs(d, data, len, shards);
    }
  }

  // ------------------------------------------------------------------
  // And for any number of parity shards: one data shard, repeated
  // ------------------------------------------------------------------

  function FirstPresent(shards: seq<Option<seq<byte>>>): Option<seq<seq<byte>>> {
    if shards == [] then None else if shards[0].Some? then Some([shards[0].value]) else FirstPresent(shards[1..])
  }

  function RepeatCodec(p: nat): Codec {
    Codec((data: seq<seq<byte>>) => if data == [] then [] else seq(p, _ => data[0]),
          (shards: seq<Option<seq<byte>>>) => FirstPresent(shards))
  }

  lemma {:induction false} FirstPresentIs(shards: seq<Option<seq<byte>>>, x: seq<byte>)
    requires Present(shards) >= 1
    requires forall i :: 0 <= i < |shards| && shards[i].Some? ==> shards[i].value == x
    ensures FirstPresent(shards) == Some([x])
  {
    if shards[0].None? { FirstPresentIs(shards[1..], x); }
  }

  /** Repetition meets the hypothesis for one data shard and every number of parity shards, so it can be met with more
      parity than data. */
  lemma RepeatIsErasureCode(p: nat)
    ensures IsErasureCode(RepeatCodec(p), 1, p)
  {
    forall data: seq<seq<byte>>, len: nat, shards: seq<Option<seq<byte>>> |
      |data| == 1 && len > 0 && AllLength(data, len)
      && Agrees(shards, data + RepeatCodec(p).encode(data)) && Present(shards) >= 1
      ensures RepeatCodec(p).reconstruct(shards) == Some(data)
    {
      FirstPresentIs(shards, data[0]);
      assert [data[0]] == data;
    }
  }
}
