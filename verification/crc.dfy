/** The table-driven CRC-32 against the bit-serial shift register it stands for (CRC-32 as in section 8 of RFC 1952). */
module Crc {
  import opened Bytes

  const IEEE: u32 := 0xEDB8_8320
  const CASTAGNOLI: u32 := 0x82F6_3B78
  const ONES: u32 := 0xffff_ffff

  lemma WordSize()
    ensures Pow2(32) == 0x1_0000_0000
  {
    assert Pow2(8) == 0x100;
    assert Pow2(16) == 0x1_0000;
    assert Pow2(24) == 0x100_0000;
  }

  function XorWord(a: u32, b: u32): u32 {
    WordSize();
    XorBelow(a, b, 32);
    Xor(a, b)
  }

  // ------------------------------------------------------------------
  // The reference: one message bit at a time, low bit of each byte first
  // ------------------------------------------------------------------

  /** One clock of the register: shift, and subtract the polynomial when the outgoing bit differs from the input. */
  function Clock(poly: u32, reg: u32, bit: nat): u32 {
    if (reg + bit) % 2 == 1 then XorWord(reg / 2, poly) else reg / 2
  }

  function ClockBits(poly: u32, reg: u32, b: nat, k: nat): u32
    decreases k
  {
    if k == 0 then reg else ClockBits(poly, Clock(poly, reg, b % 2), b / 2, k - 1)
  }

  function Register(poly: u32, reg: u32, data: seq<byte>): u32
    decreases |data|
  {
    if data == [] then reg else Register(poly, ClockBits(poly, reg, data[0], 8), data[1..])
  }

  /** The checksum: register preset to ones, result complemented. */
  function Checksum(poly: u32, data: seq<byte>): u32 { ONES - Register(poly, ONES, data) }

  // ------------------------------------------------------------------
  // The shift step and its linearity
  // ------------------------------------------------------------------

  function Shift(poly: u32, c: u32): u32 {
    if c % 2 == 1 then XorWord(c / 2, poly) else c / 2
  }

  function ShiftN(poly: u32, c: u32, n: nat): u32
    decreases n
  {
    if n == 0 then c else ShiftN(poly, Shift(poly, c), n - 1)
  }

  /** The polynomial if the number is odd: what a shift subtracts. */
  function Tap(poly: u32, c: nat): u32 { if c % 2 == 1 then poly else 0 }

  lemma ShiftIs(poly: u32, c: u32)
    ensures Shift(poly, c) == Xor(c / 2, Tap(poly, c))
  {
    XorZero(c / 2);
  }

  lemma Interchange(a: nat, b: nat, c: nat, d: nat)
    ensures Xor(Xor(a, b), Xor(c, d)) == Xor(Xor(a, c), Xor(b, d))
  {
    hide Xor;
    XorAssoc(a, b, Xor(c, d));
    XorAssoc(b, c, d);
    XorComm(b, c);
    XorAssoc(c, b, d);
    XorAssoc(a, c, Xor(b, d));
  }

  lemma TapXor(poly: u32, a: u32, b: u32)
    ensures Tap(poly, XorWord(a, b)) == Xor(Tap(poly, a), Tap(poly, b))
  {
    hide Xor;
    XorHalf(a, b);
    XorZero(poly);
    XorSelf(poly);
    XorZero(0);
  }

  lemma ShiftLinear(poly: u32, a: u32, b: u32)
    ensures Shift(poly, XorWord(a, b)) == XorWord(Shift(poly, a), Shift(poly, b))
  {
    ShiftIs(poly, a);
    ShiftIs(poly, b);
    ShiftIs(poly, XorWord(a, b));
    XorHalf(a, b);
    TapXor(poly, a, b);
    Interchange(a / 2, b / 2, Tap(poly, a), Tap(poly, b));
  }

  lemma {:induction false} ShiftNLinear(poly: u32, a: u32, b: u32, n: nat)
    ensures ShiftN(poly, XorWord(a, b), n) == XorWord(ShiftN(poly, a, n), ShiftN(poly, b, n))
    decreases n
  {
    hide Xor, XorWord, Shift;
    if n > 0 {
      ShiftLinear(poly, a, b);
      ShiftNLinear(poly, Shift(poly, a), Shift(poly, b), n - 1);
    }
  }

  // ------------------------------------------------------------------
  // Low and high bits
  // ------------------------------------------------------------------

  function Low(x: nat, k: nat): nat
    decreases k
  {
    if k == 0 then 0 else x % 2 + 2 * Low(x / 2, k - 1)
  }

  function High(x: nat, k: nat): nat
    decreases k
  {
    if k == 0 then x else High(x / 2, k - 1)
  }

  lemma DoubleSplit(x: nat, p: nat, h: nat, l: nat)
    requires x / 2 == p * h + l
    ensures x == 2 * p * h + (x % 2 + 2 * l)
  {
    assert 2 * (p * h) == 2 * p * h;
  }

  lemma {:induction false} LowHighSplit(x: nat, k: nat)
    ensures x == Pow2(k) * High(x, k) + Low(x, k) && Low(x, k) < Pow2(k) && Low(x, k) <= x && High(x, k) <= x
    decreases k
  {
    if k > 0 {
      LowHighSplit(x / 2, k - 1);
      DoubleSplit(x, Pow2(k - 1), High(x / 2, k - 1), Low(x / 2, k - 1));
    }
  }

  lemma LowHighByte(x: nat)
    ensures Low(x, 8) == x % 256 && High(x, 8) == x / 256
  {
    hide Low, High, Pow2;
    LowHighSplit(x, 8);
    Pow2OfEight();
  }

  lemma Pow2OfEight()
    ensures Pow2(8) == 256
  {}

  lemma {:induction false} HighXor(a: nat, b: nat, k: nat)
    ensures High(Xor(a, b), k) == Xor(High(a, k), High(b, k))
    decreases k
  {
    hide Xor;
    if k > 0 {
      XorHalf(a, b);
      HighXor(a / 2, b / 2, k - 1);
    }
  }

  /** k shifts act on the low k bits; the high bits just move down. */
  lemma {:induction false} ShiftSplits(poly: u32, x: u32, k: nat)
    ensures Low(x, k) <= x && High(x, k) <= x
    ensures ShiftN(poly, x, k) == XorWord(ShiftN(poly, Low(x, k), k), High(x, k))
    decreases k
  {
    hide Xor;
    LowHighSplit(x, k);
    if k == 0 {
      XorZero(x);
    } else {
      var low: u32, high: u32 := Low(x / 2, k - 1), High(x / 2, k - 1);
      LowHighSplit(x / 2, k - 1);
      var tap := Tap(poly, x);
      var tail := ShiftN(poly, tap, k - 1);
      ShiftIs(poly, x);
      ShiftNLinear(poly, x / 2, tap, k - 1);
      ShiftSplits(poly, x / 2, k - 1);
      var l: u32 := Low(x, k);
      BitAndRest(x % 2, low);
      assert l % 2 == x % 2 && l / 2 == low;
      ShiftIs(poly, l);
      ShiftNLinear(poly, low, tap, k - 1);
      SwapLast(ShiftN(poly, low, k - 1), high, tail);
    }
  }

  lemma SwapLast(a: nat, b: nat, c: nat)
    ensures Xor(Xor(a, b), c) == Xor(Xor(a, c), b)
  {
    hide Xor;
    XorAssoc(a, b, c);
    XorComm(b, c);
    XorAssoc(a, c, b);
  }

  // ------------------------------------------------------------------
  // One byte
  // ------------------------------------------------------------------

  /** Clocking k bits in is shifting the register that already has them added. */
  lemma {:induction false} ClockIsShift(poly: u32, reg: u32, b: u32, k: nat)
    requires b < Pow2(k)
    ensures ClockBits(poly, reg, b, k) == ShiftN(poly, XorWord(reg, b), k)
    decreases k
  {
    if k == 0 {
      XorZero(reg);
    } else {
      var reg' := Clock(poly, reg, b % 2);
      ClockStep(poly, reg, b);
      ClockIsShift(poly, reg', b / 2, k - 1);
    }
  }

  lemma ClockStep(poly: u32, reg: u32, b: u32)
    ensures Shift(poly, XorWord(reg, b)) == XorWord(Clock(poly, reg, b % 2), b / 2)
  {
    var tap := Tap(poly, reg + b % 2);
    assert Clock(poly, reg, b % 2) == Xor(reg / 2, tap) by { XorZero(reg / 2); }
    XorHalf(reg, b);
    ShiftIs(poly, XorWord(reg, b));
    assert (reg + b) % 2 == (reg + b % 2) % 2;
    SwapLast(reg / 2, b / 2, tap);
  }

  function TableEntry(poly: u32, i: nat): u32
    requires i < 256
  {
    ShiftN(poly, i, 8)
  }

  /** One turn of the checksum loop does what eight clocks do. */
  lemma TableStep(poly: u32, reg: u32, b: byte)
    ensures ClockBits(poly, reg, b, 8) == XorWord(TableEntry(poly, XorWord(reg, b) % 256), reg / 256)
  {
    hide Xor, ShiftN, ClockBits, Low, High;
    var x := XorWord(reg, b);
    assert Pow2(8) == 256;
    ClockIsShift(poly, reg, b, 8);
    ShiftSplits(poly, x, 8);
    LowHighByte(x);
    HighXor(reg, b, 8);
    LowHighByte(reg);
    LowHighByte(b);
    XorZero(reg / 256);
  }

  // ------------------------------------------------------------------
  // The loops
  // ------------------------------------------------------------------

  method BuildTable(poly: u32) returns (table: seq<u32>)
    ensures |table| == 256 && forall i :: 0 <= i < 256 ==> table[i] == TableEntry(poly, i)
  {
    hide XorWord;
    table := [];
    for i := 0 to 256
      invariant |table| == i && forall j :: 0 <= j < i ==> table[j] == TableEntry(poly, j)
    {
      var crc: u32 := i;
      for bit := 0 to 8
        invariant ShiftN(poly, crc, 8 - bit) == TableEntry(poly, i)
      {
        crc := if crc % 2 != 0 then XorWord(crc / 2, poly) else crc / 2;
      }
      table := table + [crc];
    }
  }

  /** For every polynomial and every input the table-driven loop computes the bit-serial checksum. */
  method Crc32(ghost poly: u32, table: seq<u32>, data: seq<byte>) returns (r: u32)
    requires |table| == 256 && forall i :: 0 <= i < 256 ==> table[i] == TableEntry(poly, i)
    ensures r == Checksum(poly, data)
  {
    var crc: u32 := ONES;
    assert data[0..] == data;
    for i := 0 to |data|
      invariant Register(poly, crc, data[i..]) == Register(poly, ONES, data)
    {
      TableStep(poly, crc, data[i]);
      assert data[i..][1..] == data[i + 1..];
      crc := XorWord(table[XorWord(crc, data[i]) % 256], crc / 256);
    }
    return ONES - crc;
  }

  /** Snappy's form of the checksum: rotated right by 15 and offset. */
  function Masked(data: seq<byte>): u32 {
    var c := Checksum(CASTAGNOLI, data);
    (c / 0x8000 + c % 0x8000 * 0x2_0000 + 0xa282_ead8) % 0x1_0000_0000
  }

  // ------------------------------------------------------------------
  // Laws of the checksum
  // ------------------------------------------------------------------

  lemma {:induction false} RegisterAppend(poly: u32, reg: u32, x: seq<byte>, y: seq<byte>)
    ensures Register(poly, reg, x + y) == Register(poly, Register(poly, reg, x), y)
    decreases |x|
  {
    hide ClockBits;
    if x == [] {
      assert x + y == y;
    } else {
      RegisterAppend(poly, ClockBits(poly, reg, x[0], 8), x[1..], y);
      assert (x + y)[1..] == x[1..] + y;
    }
  }

  /** Clocking j + k bits is clocking the low j and then the others. */
  lemma {:induction false} ClockConcat(poly: u32, reg: u32, x: nat, j: nat, k: nat)
    ensures ClockBits(poly, reg, x, j + k) == ClockBits(poly, ClockBits(poly, reg, Low(x, j), j), High(x, j), k)
    decreases j
  {
    hide Clock;
    if j > 0 {
      var low := Low(x / 2, j - 1);
      BitAndRest(x % 2, low);
      ClockConcat(poly, Clock(poly, reg, x % 2), x / 2, j - 1, k);
    }
  }

  lemma ClockByte(poly: u32, reg: u32, x: nat, k: nat)
    ensures ClockBits(poly, reg, x, 8 + k) == ClockBits(poly, ClockBits(poly, reg, x % 256, 8), x / 256, k)
  {
    hide ClockBits, Low, High;
    ClockConcat(poly, reg, x, 8, k);
    LowHighByte(x);
  }

  lemma RegisterFour(poly: u32, reg: u32, a: byte, b: byte, c: byte, d: byte)
    ensures Register(poly, reg, [a, b, c, d]) ==
            ClockBits(poly, ClockBits(poly, ClockBits(poly, ClockBits(poly, reg, a, 8), b, 8), c, 8), d, 8)
  {
    hide ClockBits;
    assert [a, b, c, d] == [a] + [b, c, d] && [b, c, d] == [b] + [c, d] && [c, d] == [c] + [d];
    var r1 := ClockBits(poly, reg, a, 8);
    var r2 := ClockBits(poly, r1, b, 8);
    var r3 := ClockBits(poly, r2, c, 8);
    assert Register(poly, r3, [d]) == Register(poly, ClockBits(poly, r3, d, 8), []);
    assert Register(poly, r2, [c, d]) == Register(poly, r3, [d]);
    assert Register(poly, r1, [b, c, d]) == Register(poly, r2, [c, d]);
  }

  lemma LowHalf(x: nat, a: byte, b: byte, z: nat)
    requires x == (a + 256 * b) + 0x1_0000 * z
    ensures x % 0x1_0000 == a + 256 * b && x / 0x1_0000 == z
  {}

  lemma TwoBytes(a: byte, b: byte)
    ensures Le16(a + 256 * b) == [a, b]
  {}

  lemma Le32Bytes(x: u32)
    ensures Le32(x) == [x % 256, x / 256 % 256, x / 256 / 256 % 256, x / 256 / 256 / 256] && x / 256 / 256 / 256 < 256
  {
    hide Le16;
    var y := x / 256;
    var z := y / 256;
    var a, b, c, d := x % 256, y % 256, z % 256, z / 256;
    LowHalf(x, a, b, z);
    TwoBytes(a, b);
    TwoBytes(c, d);
  }

  /** Feeding a word is adding it to the register and shifting it all out. */
  lemma WordIn(poly: u32, reg: u32, x: u32)
    ensures Register(poly, reg, Le32(x)) == ShiftN(poly, XorWord(reg, x), 32)
  {
    hide Register, ClockBits, Le32, ShiftN, XorWord, Pow2;
    Le32Bytes(x);
    var a, b, c, d := x % 256, x / 256 % 256, x / 256 / 256 % 256, x / 256 / 256 / 256;
    RegisterFour(poly, reg, a, b, c, d);
    var r1 := ClockBits(poly, reg, a, 8);
    var r2 := ClockBits(poly, r1, b, 8);
    var r3 := ClockBits(poly, r2, c, 8);
    ClockByte(poly, reg, x, 24);
    ClockByte(poly, r1, x / 256, 16);
    ClockByte(poly, r2, x / 256 / 256, 8);
    WordSize();
    ClockIsShift(poly, reg, x, 32);
  }

  lemma OnesHalf(p: nat, a: nat)
    requires a < 2 * p
    ensures (2 * p - 1 - a) / 2 == p - 1 - a / 2 && (a + (2 * p - 1 - a)) % 2 == 1
  {}

  lemma OddIs(x: nat, p: nat)
    requires x % 2 == 1 && x / 2 == p - 1
    ensures x == 2 * p - 1
  {}

  lemma {:induction false} Complement(a: nat, k: nat)
    requires a < Pow2(k)
    ensures Xor(a, Pow2(k) - 1 - a) == Pow2(k) - 1
    decreases k
  {
    hide Xor;
    if k == 0 {
      XorZero(0);
    } else {
      var p := Pow2(k - 1);
      var b := 2 * p - 1 - a;
      OnesHalf(p, a);
      Complement(a / 2, k - 1);
      XorHalf(a, b);
      OddIs(Xor(a, b), p);
    }
  }

  /** A message followed by its own checksum always leaves the same residue, whatever the message. */
  lemma CheckedResidue(poly: u32, data: seq<byte>)
    ensures Register(poly, ONES, data + Le32(Checksum(poly, data))) == ShiftN(poly, ONES, 32)
  {
    hide Register, ShiftN, Le32, Pow2;
    var reg := Register(poly, ONES, data);
    RegisterAppend(poly, ONES, data, Le32(ONES - reg));
    WordIn(poly, reg, ONES - reg);
    WordSize();
    Complement(reg, 32);
  }

  lemma {:induction false} ClockOnes(poly: u32, n: nat, k: nat)
    requires k <= n <= 32
    ensures 1 <= Pow2(k) && 1 <= Pow2(n) <= 0x1_0000_0000
    ensures ClockBits(poly, Pow2(n) - 1, Pow2(k) - 1, k) == Pow2(n - k) - 1
    decreases k
  {
    hide Clock;
    WordFits(n);
    WordFits(k);
    if k > 0 {
      var p, q := Pow2(n - 1), Pow2(k - 1);
      WordFits(n - 1);
      WordFits(k - 1);
      OddOnes(p);
      OddOnes(q);
      ClockBoth(poly, 2 * p - 1);
      ClockOnes(poly, n - 1, k - 1);
    }
  }

  lemma OddOnes(p: nat)
    requires p > 0
    ensures (2 * p - 1) % 2 == 1 && (2 * p - 1) / 2 == p - 1
  {}

  /** An input bit that equals the outgoing one only shifts. */
  lemma ClockBoth(poly: u32, reg: u32)
    requires reg % 2 == 1
    ensures Clock(poly, reg, 1) == reg / 2
  {}

  lemma {:induction false} WordFits(n: nat)
    requires n <= 32
    ensures 1 <= Pow2(n) <= 0x1_0000_0000
    decreases 32 - n
  {
    if n == 32 { WordSize(); } else { WordFits(n + 1); }
  }

  /** The register is preset to ones and complemented at the end, for every polynomial: nothing sums to nothing, and
      four bytes of ones, which cancel the preset bit for bit, sum to ones. */
  lemma PresetAndComplement(poly: u32)
    ensures Checksum(poly, []) == 0
    ensures Checksum(poly, [255, 255, 255, 255]) == ONES
  {
    hide ClockBits, Pow2;
    RegisterFour(poly, ONES, 255, 255, 255, 255);
    Pow2OfEight();
    WordSize();
    ClockOnes(poly, 32, 8);
    ClockOnes(poly, 24, 8);
    ClockOnes(poly, 16, 8);
    ClockOnes(poly, 8, 8);
    PowZero();
  }

  lemma PowZero()
    ensures Pow2(0) == 1
  {}

  /** Undoing snappy's masking: take the offset off again and rotate left by 15. */
  function Unmasked(m: u32): u32 {
    var r := (m + 0x1_0000_0000 - 0xa282_ead8) % 0x1_0000_0000;
    r % 0x2_0000 * 0x8000 + r / 0x2_0000
  }

  lemma MaskIsInvertible(data: seq<byte>)
    ensures Unmasked(Masked(data)) == Checksum(CASTAGNOLI, data)
    ensures Masked([]) == 0xa282_ead8 && Masked([255, 255, 255, 255]) == 0xa282_ead7
  {
    PresetAndComplement(CASTAGNOLI);
    hide Checksum;
    MaskArithmetic(Checksum(CASTAGNOLI, data));
  }

  lemma MaskArithmetic(c: u32)
    ensures Unmasked((c / 0x8000 + c % 0x8000 * 0x2_0000 + 0xa282_ead8) % 0x1_0000_0000) == c
  {
    var hi, lo := c / 0x8000, c % 0x8000;
    var r := hi + lo * 0x2_0000;
    assert 0 <= hi < 0x2_0000 && 0 <= r < 0x1_0000_0000;
    assert r % 0x2_0000 == hi && r / 0x2_0000 == lo;
    RoundTripOffset(r);
  }

  lemma RoundTripOffset(r: u32)
    ensures ((r + 0xa282_ead8) % 0x1_0000_0000 + 0x1_0000_0000 - 0xa282_ead8) % 0x1_0000_0000 == r
  {}
}
