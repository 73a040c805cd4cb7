/** Division and remainder by a variable divisor, and ordering of wrapping 32-bit sequence numbers. */
module Modular {

  lemma MulAtLeast(n: nat, k: nat)
    requires k >= 1
    ensures n * k >= n
  {}

  lemma MulMonotone(n: nat, a: int, b: int)
    requires a <= b
    ensures n * a <= n * b
  {}

  lemma MulDiff(n: int, a: int, b: int)
    ensures n * a - n * b == n * (a - b)
  {}

  lemma MulAssoc(n: int, k: int, q: int)
    ensures (n * k) * q == n * (k * q)
  {}

  lemma DivMod(a: nat, n: nat)
    requires n > 0
    ensures a == n * (a / n) + a % n && a / n >= 0
  {}

  lemma Unique(n: nat, q1: int, r1: nat, q2: int, r2: nat)
    requires r1 < n && r2 < n && n * q1 + r1 == n * q2 + r2
    ensures q1 == q2 && r1 == r2
  {
    MulDiff(n, q1, q2);
    MulDiff(n, q2, q1);
    if q1 > q2 {
      MulAtLeast(n, q1 - q2);
    } else if q2 > q1 {
      MulAtLeast(n, q2 - q1);
    }
  }

  lemma ModUnique(n: nat, q: nat, r: nat)
    requires r < n
    ensures (n * q + r) % n == r && (n * q + r) / n == q
  {
    var a := n * q + r;
    DivMod(a, n);
    Unique(n, q, r, a / n, a % n);
  }

  /** Within a block that starts at a multiple of n, the remainder is the offset. */
  lemma BlockOffset(n: nat, b: nat, x: nat)
    requires n > 0 && b % n == 0 && b <= x < b + n
    ensures x % n == x - b
  {
    DivMod(b, n);
    ModUnique(n, b / n, x - b);
  }

  lemma BlockStart(n: nat, x: nat)
    requires n > 0
    ensures 0 <= x - x % n && (x - x % n) % n == 0
  {
    DivMod(x, n);
    ModUnique(n, x / n, 0);
  }

  /** A position in the block after, and its block. */
  lemma SubBlock(n: nat, i: nat)
    requires n > 0 && i >= n
    ensures (i - n) % n == i % n && i - i % n >= n
  {
    DivMod(i, n);
    var q, r := i / n, i % n;
    if q < 1 { MulMonotone(n, q, 0); }
    MulDiff(n, q, 1);
    ModUnique(n, q - 1, r);
    MulAtLeast(n, q);
  }

  lemma ModShift(m: nat, v: nat, k: nat)
    requires k < m
    ensures (v + k) % m == if v % m + k < m then v % m + k else v % m + k - m
  {
    DivMod(v, m);
    var q, r := v / m, v % m;
    if r + k < m {
      ModUnique(m, q, r + k);
    } else {
      MulDiff(m, q + 1, q);
      ModUnique(m, q + 1, r + k - m);
    }
  }

  /** Reducing modulo a multiple of n first does not change the remainder by n. */
  lemma ModOfMod(n: nat, m: nat, a: nat)
    requires n > 0 && m > 0 && m % n == 0
    ensures a % m % n == a % n
  {
    DivMod(m, n);
    DivMod(a, m);
    var q, s, k := a / m, a % m, m / n;
    DivMod(s, n);
    var j, r := s / n, s % n;
    MulAssoc(n, k, q);
    MulDiff(n, k * q + j, k * q);
    ModUnique(n, k * q + j, r);
  }

  /** The largest multiple of n below 2^32. */
  lemma LargestMultiple(n: nat)
    requires 1 <= n <= 256
    ensures var m := 0xffff_ffff / n * n;
            m % n == 0 && 0xffff_ff00 <= m <= 0xffff_ffff
  {
    DivMod(0xffff_ffff, n);
    var q := 0xffff_ffff / n;
    assert q * n == n * q;
    ModUnique(n, q, 0);
  }

  // ------------------------------------------------------------------
  // Serial-number order
  // ------------------------------------------------------------------

  /** `x.wrapping_sub(y) as i32` for 32-bit x and y. */
  function SignedDiff(x: int, y: int): int
    requires 0 <= x < 0x1_0000_0000 && 0 <= y < 0x1_0000_0000
  {
    var d := (x - y) % 0x1_0000_0000;
    if d < 0x8000_0000 then d else d - 0x1_0000_0000
  }

  lemma SignedDiffIs(x: int, y: int)
    requires 0 <= x < 0x1_0000_0000 && 0 <= y < 0x1_0000_0000
    ensures SignedDiff(x, y) == if x - y >= 0x8000_0000 then x - y - 0x1_0000_0000
                                else if x - y < -0x8000_0000 then x - y + 0x1_0000_0000
                                else x - y
  {}

  const SPAN: int := 0x8000_0000 - 256

  /** Numbers that wrap at a multiple m just below 2^32 keep their order under the signed difference, as long as
      they are less than 2^31 - 256 apart. */
  lemma SignedDiffOrders(m: nat, u: nat, v: nat)
    requires 0xffff_ff00 <= m <= 0xffff_ffff
    requires -SPAN < u - v < SPAN
    ensures u > v <==> SignedDiff(u % m, v % m) > 0
    ensures u < v <==> SignedDiff(u % m, v % m) < 0
    ensures u == v <==> u % m == v % m
  {
    hide SignedDiff;
    SignedDiffIs(u % m, v % m);
    if u >= v { ModShift(m, v, u - v); } else { ModShift(m, u, v - u); }
  }
}
