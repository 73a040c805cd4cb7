/** Bytes, fixed-width integer fields and bitwise exclusive-or, shared by every codec in the model. */
module Bytes {

  type byte = x: int | 0 <= x < 256
  type u16 = x: int | 0 <= x < 0x1_0000
  type u32 = x: int | 0 <= x < 0x1_0000_0000

  datatype Option<+T> = None | Some(value: T)

  function Min(a: int, b: int): int { if a <= b then a else b }
  function Max(a: int, b: int): int { if a >= b then a else b }

  // ------------------------------------------------------------------
  // Integer fields. A Rust `as u16` cast of a length is `n % 0x1_0000`.
  // ------------------------------------------------------------------

  function Le16(n: nat): seq<byte> { [n % 256, n / 256 % 256] }
  function FromLe16(b: seq<byte>): u16 requires |b| == 2 { (b[0] as int) + 256 * (b[1] as int) }

  function Le32(n: nat): seq<byte> { Le16(n % 0x1_0000) + Le16(n / 0x1_0000) }
  function FromLe32(b: seq<byte>): u32 requires |b| == 4 { FromLe16(b[..2]) + 0x1_0000 * FromLe16(b[2..]) }

  function Be16(n: nat): seq<byte> { [n / 256 % 256, n % 256] }
  function FromBe16(b: seq<byte>): u16 requires |b| == 2 { 256 * (b[0] as int) + (b[1] as int) }

  lemma Le16RoundTrip(n: u16)
    ensures |Le16(n)| == 2 && FromLe16(Le16(n)) == n
  {}

  lemma Le16Injective(b: seq<byte>)
    requires |b| == 2
    ensures Le16(FromLe16(b)) == b
  {}

  lemma Be16RoundTrip(n: u16)
    ensures |Be16(n)| == 2 && FromBe16(Be16(n)) == n
  {}

  lemma Le32RoundTrip(n: u32)
    ensures |Le32(n)| == 4 && FromLe32(Le32(n)) == n
  {
    var b := Le32(n);
    assert n % 0x1_0000 + 0x1_0000 * (n / 0x1_0000) == n;
    assert b[..2] == Le16(n % 0x1_0000) && b[2..] == Le16(n / 0x1_0000);
    Le16RoundTrip(n % 0x1_0000);
    Le16RoundTrip(n / 0x1_0000);
  }

  lemma Le32Injective(b: seq<byte>)
    requires |b| == 4
    ensures Le32(FromLe32(b)) == b
  {
    var lo, hi := FromLe16(b[..2]), FromLe16(b[2..]);
    assert FromLe32(b) % 0x1_0000 == lo && FromLe32(b) / 0x1_0000 == hi;
    Le16Injective(b[..2]);
    Le16Injective(b[2..]);
    assert b == b[..2] + b[2..];
  }

  // ------------------------------------------------------------------
  // Concatenation
  // ------------------------------------------------------------------

  lemma ConcatAssoc<T>(x: seq<T>, y: seq<T>, z: seq<T>)
    ensures (x + y) + z == x + (y + z)
  {}

  function Flatten<T>(ss: seq<seq<T>>): seq<T> {
    if ss == [] then [] else ss[0] + Flatten(ss[1..])
  }

  lemma {:induction false} FlattenAppend<T>(a: seq<seq<T>>, b: seq<seq<T>>)
    ensures Flatten(a + b) == Flatten(a) + Flatten(b)
  {
    if a == [] {
      assert a + b == b && Flatten(a) == [];
    } else {
      FlattenAppend(a[1..], b);
      assert (a + b)[1..] == a[1..] + b;
      ConcatAssoc(a[0], Flatten(a[1..]), Flatten(b));
    }
  }

  /** The first k elements have gone from the front of one sequence to the back of another. */
  predicate Moved<T(==)>(src: seq<T>, dst: seq<T>, src': seq<T>, dst': seq<T>, k: int) {
    0 <= k <= |src| && src' == src[k..] && dst' == dst + src[..k]
  }

  lemma MovedTotal<T>(src: seq<T>, dst: seq<T>, src': seq<T>, dst': seq<T>, k: int)
    requires Moved(src, dst, src', dst', k)
    ensures dst' + src' == dst + src && |src'| == |src| - k
  {}

  lemma MovedMore<T>(src: seq<T>, dst: seq<T>, src': seq<T>, dst': seq<T>, k: int, n: nat)
    requires Moved(src, dst, src', dst', k) && n <= |src'|
    ensures Moved(src, dst, src'[n..], dst' + src'[..n], k + n)
  {
    assert src'[..n] == src[k..k + n] && src'[n..] == src[k + n..];
    assert src[..k + n] == src[..k] + src[k..k + n];
    ConcatAssoc(dst, src[..k], src[k..k + n]);
  }

  lemma MovedNone<T>(src: seq<T>, dst: seq<T>)
    ensures Moved(src, dst, src, dst, 0)
  {}

  function Zeros(n: nat): seq<byte> { seq(n, _ => 0) }

  // ------------------------------------------------------------------
  // Exclusive-or, bit by bit from the low end
  // ------------------------------------------------------------------

  function Xor(a: nat, b: nat): nat
    decreases a + b
  {
    if a == 0 && b == 0 then 0 else (a + b) % 2 + 2 * Xor(a / 2, b / 2)
  }

  lemma {:induction false} XorZero(a: nat)
    ensures Xor(a, 0) == a && Xor(0, a) == a
  {
    if a != 0 { XorZero(a / 2); }
  }

  lemma {:induction false} XorComm(a: nat, b: nat)
    ensures Xor(a, b) == Xor(b, a)
    decreases a + b
  {
    if a != 0 || b != 0 { XorComm(a / 2, b / 2); }
  }

  lemma {:induction false} XorSelf(a: nat)
    ensures Xor(a, a) == 0
  {
    if a != 0 { XorSelf(a / 2); }
  }

  /** One bit of an exclusive-or, and the rest of it. */
  lemma {:induction false} XorHalf(a: nat, b: nat)
    ensures Xor(a, b) % 2 == (a + b) % 2 && Xor(a, b) / 2 == Xor(a / 2, b / 2)
  {
    if a != 0 || b != 0 {
      var bit, rest := (a + b) % 2, Xor(a / 2, b / 2);
      assert Xor(a, b) == bit + 2 * rest;
      BitAndRest(bit, rest);
    }
  }

  lemma BitAndRest(bit: nat, rest: nat)
    requires bit < 2
    ensures (bit + 2 * rest) % 2 == bit && (bit + 2 * rest) / 2 == rest
  {}

  /** Two numbers with the same low bit and the same other bits are equal. */
  lemma SameBits(x: nat, y: nat)
    requires x % 2 == y % 2 && x / 2 == y / 2
    ensures x == y
  {}

  /** The low bit of an exclusive-or is set where the low bits differ. */
  lemma XorLowBit(a: nat, b: nat)
    ensures Xor(a, b) % 2 == if a % 2 == b % 2 then 0 else 1
  {
    hide Xor;
    XorHalf(a, b);
  }

  lemma {:induction false} XorHalves(a: nat, b: nat, c: nat)
    ensures Xor(Xor(a, b), c) / 2 == Xor(Xor(a / 2, b / 2), c / 2)
    ensures Xor(a, Xor(b, c)) / 2 == Xor(a / 2, Xor(b / 2, c / 2))
  {
    hide Xor;
    XorHalf(a, b);
    XorHalf(b, c);
    XorHalf(Xor(a, b), c);
    XorHalf(a, Xor(b, c));
  }

  lemma XorParities(a: nat, b: nat, c: nat)
    ensures Xor(Xor(a, b), c) % 2 == Xor(a, Xor(b, c)) % 2
  {
    hide Xor;
    XorLowBit(a, b);
    XorLowBit(b, c);
    XorLowBit(Xor(a, b), c);
    XorLowBit(a, Xor(b, c));
  }

  lemma {:induction false} XorAssoc(a: nat, b: nat, c: nat)
    ensures Xor(Xor(a, b), c) == Xor(a, Xor(b, c))
    decreases a + b + c
  {
    if a != 0 || b != 0 || c != 0 {
      XorAssoc(a / 2, b / 2, c / 2);
      XorHalves(a, b, c);
      XorParities(a, b, c);
      SameBits(Xor(Xor(a, b), c), Xor(a, Xor(b, c)));
    }
  }

  lemma XorCancel(a: nat, k: nat)
    ensures Xor(Xor(a, k), k) == a
  {
    XorAssoc(a, k, k);
    XorSelf(k);
    XorZero(a);
  }

  function Pow2(k: nat): nat { if k == 0 then 1 else 2 * Pow2(k - 1) }

  lemma {:induction false} XorBelow(a: nat, b: nat, k: nat)
    requires a < Pow2(k) && b < Pow2(k)
    ensures Xor(a, b) < Pow2(k)
    decreases k
  {
    if k != 0 && (a != 0 || b != 0) { XorBelow(a / 2, b / 2, k - 1); }
  }

  /** Exclusive-or of two bytes is a byte. */
  function XorByte(a: byte, b: byte): byte {
    XorBelow(a, b, 8);
    assert Pow2(8) == 256;
    Xor(a, b)
  }

  /** Pointwise exclusive-or with the front of a keystream. */
  function XorSeq(s: seq<byte>, k: seq<byte>): seq<byte>
    requires |s| <= |k|
  {
    seq(|s|, i requires 0 <= i < |s| => XorByte(s[i], k[i]))
  }

  lemma XorSeqCancel(s: seq<byte>, k: seq<byte>)
    requires |s| <= |k|
    ensures |XorSeq(s, k)| == |s| && XorSeq(XorSeq(s, k), k) == s
  {
    forall i | 0 <= i < |s| ensures XorSeq(XorSeq(s, k), k)[i] == s[i] {
      XorCancel(s[i], k[i]);
    }
  }
}
