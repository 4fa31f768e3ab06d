/** Bitwise operators on natural numbers, and the arithmetic they amount to.

    The engine packs several fields into one machine word with masks and shifts.
    Words are modelled as naturals below a power of two; `And` and `Or` are the
    bitwise operators, defined bit by bit, and the lemmas say which arithmetic
    each use of them performs. */
module Bits {

  type U24 = x: nat | x < 0x100_0000
  type U32 = x: nat | x < 0x1_0000_0000
  type U64 = x: nat | x < 0x1_0000_0000_0000_0000

  const TWO24: nat := 0x100_0000
  const TWO32: nat := 0x1_0000_0000
  const TWO64: nat := 0x1_0000_0000_0000_0000

  function Pow2(k: nat): (p: nat)
    ensures p >= 1
  {
    if k == 0 then 1 else 2 * Pow2(k - 1)
  }

  function And(x: nat, y: nat): nat {
    if x == 0 || y == 0 then 0
    else 2 * And(x / 2, y / 2) + (if x % 2 == 1 && y % 2 == 1 then 1 else 0)
  }

  function Or(x: nat, y: nat): nat {
    if x == 0 then y
    else if y == 0 then x
    else 2 * Or(x / 2, y / 2) + (if x % 2 == 1 || y % 2 == 1 then 1 else 0)
  }

  predicate IsPowerOfTwo(n: nat) {
    n == 1 || (n >= 2 && n % 2 == 0 && IsPowerOfTwo(n / 2))
  }

  lemma {:induction false} PowerDivides(n: nat, k: nat) returns (q: nat)
    requires IsPowerOfTwo(n) && n <= Pow2(k)
    ensures Pow2(k) == q * n
    decreases k
  {
    if n == 1 {
      q := Pow2(k);
    } else {
      q := PowerDivides(n / 2, k - 1);
    }
  }

  /** The quotient and remainder of a number written as a * c + b. */
  lemma Quotient(a: nat, c: nat, b: nat)
    requires b < c
    ensures (a * c + b) / c == a && (a * c + b) % c == b
  {
    var x := a * c + b;
    var q, r := x / c, x % c;
    assert x == c * q + r;
    if q > a {
      MulStep(c, q, a);
    } else if q < a {
      MulStep(c, a, q);
    }
  }

  /** A multiple of n does not count modulo n. */
  lemma LowRemainder(a: nat, m: nat, q: nat, n: nat, b: nat)
    requires n > 0 && m == q * n
    ensures (a * m + b) % n == b % n
  {
    var k, r := b / n, b % n;
    assert a * m + b == (a * q + k) * n + r by {
      Regroup(a, q, n, k);
    }
    Quotient(a * q + k, n, r);
  }

  lemma Regroup(a: nat, q: nat, n: nat, k: nat)
    ensures (a * q + k) * n == a * (q * n) + n * k
  {
  }

  lemma MulStep(d: nat, a: nat, b: nat)
    requires a > b
    ensures d * a >= d * b + d
  {
    assert d * a == d * b + d * (a - b);
    assert d * (a - b) == d + d * (a - b - 1);
  }

  /** A mask whose low bit is set keeps the low bit of the word. */
  lemma AndOddMask(x: nat, m: nat)
    ensures And(x, 2 * m + 1) == 2 * And(x / 2, m) + x % 2
  {
    var y := 2 * m + 1;
    assert y / 2 == m && y % 2 == 1;
  }

  /** A mask whose low byte is full keeps the low byte of the word. */
  lemma AndByteMask(x: nat, m: nat)
    ensures And(x, 256 * m + 255) == 256 * And(x / 256, m) + x % 256
  {
    AndNibbleMask(x, 16 * m + 15);
    AndNibbleMask(x / 16, m);
    assert x / 16 / 16 == x / 256;
  }

  lemma AndNibbleMask(x: nat, m: nat)
    ensures And(x, 16 * m + 15) == 16 * And(x / 16, m) + x % 16
  {
    AndPairMask(x, 4 * m + 3);
    AndPairMask(x / 4, m);
    assert x / 4 / 4 == x / 16;
  }

  lemma AndPairMask(x: nat, m: nat)
    ensures And(x, 4 * m + 3) == 4 * And(x / 4, m) + x % 4
  {
    AndOddMask(x, 2 * m + 1);
    AndOddMask(x / 2, m);
    assert x / 2 / 2 == x / 4;
  }

  /** Masking with 24 ones is the remainder modulo 2^24. */
  lemma AndLow24(x: nat)
    ensures And(x, 0xFF_FFFF) == x % TWO24
  {
    AndByteMask(x, 0xFFFF);
    AndByteMask(x / 256, 0xFF);
    AndByteMask(x / 256 / 256, 0);
    var (a, b, c) := (x % 256, x / 256 % 256, x / 256 / 256 % 256);
    assert And(x, 0xFF_FFFF) == 65536 * c + 256 * b + a;
    assert x / 256 / 256 / 256 == x / TWO24;
  }

  /** A mask whose low bit is clear ignores the low bit of the word. */
  lemma AndDouble(x: nat, m: nat)
    ensures And(x, 2 * m) == 2 * And(x / 2, m)
  {
    var y := 2 * m;
    assert y / 2 == m && y % 2 == 0;
  }

  /** Masking with a single one of the three low bits tests that bit. */
  lemma AndBit(x: nat)
    ensures And(x, 1) == x % 2
    ensures And(x, 2) == 2 * ((x / 2) % 2)
    ensures And(x, 4) == 4 * ((x / 4) % 2)
  {
    AndOne(x);
    AndOne(x / 2);
    AndOne(x / 2 / 2);
    AndDouble(x, 1);
    AndDouble(x, 2);
    AndDouble(x / 2, 1);
    assert x / 2 / 2 == x / 4;
  }

  lemma AndOne(x: nat)
    ensures And(x, 1) == x % 2
  {
    AndOddMask(x, 0);
    assert And(x / 2, 0) == 0;
  }

  /** Or of two words that share no bit is their sum. */
  lemma {:induction false} OrDisjoint(a: nat, k: nat, b: nat)
    requires b < Pow2(k)
    ensures Or(a * Pow2(k), b) == a * Pow2(k) + b
  {
    if k > 0 {
      var p := Pow2(k - 1);
      var y := a * Pow2(k);
      assert y == 2 * (a * p);
      assert y / 2 == a * p && y % 2 == 0;
      OrDisjoint(a, k - 1, b / 2);
    } else {
      assert b == 0;
    }
  }

  /** Or with a value below 2^32 (2^8, 2^2), when the low 32 (8, 2) bits are clear. */
  lemma OrLow32(y: nat, a: nat, b: U32)
    requires y == a * TWO32
    ensures Or(y, b) == y + b
  {
    Powers();
    OrDisjoint(a, 32, b);
  }

  lemma OrLow8(y: nat, a: nat, b: nat)
    requires y == a * 0x100 && b < 0x100
    ensures Or(y, b) == y + b
  {
    Powers();
    OrDisjoint(a, 8, b);
  }

  lemma OrLow2(y: nat, a: nat, b: nat)
    requires y == a * 4 && b < 4
    ensures Or(y, b) == y + b
  {
    Powers();
    OrDisjoint(a, 2, b);
  }

  lemma OrOne(x: nat)
    ensures Or(x, 1) == if x % 2 == 0 then x + 1 else x
  {
    if x > 0 {
      assert Or(x / 2, 0) == x / 2;
    }
  }

  /** The powers of two that the layouts use. */
  lemma Powers()
    ensures Pow2(0) == 1 && Pow2(1) == 2 && Pow2(2) == 4 && Pow2(3) == 8 && Pow2(8) == 0x100
    ensures Pow2(24) == TWO24 && Pow2(32) == TWO32 && Pow2(61) == 0x2000_0000_0000_0000
  {
    assert Pow2(4) == 16;
    assert Pow2(8) == 256;
    assert Pow2(12) == 0x1000;
    assert Pow2(16) == 0x1_0000;
    assert Pow2(20) == 0x10_0000;
    assert Pow2(24) == 0x100_0000;
    assert Pow2(28) == 0x1000_0000;
    assert Pow2(32) == 0x1_0000_0000;
    assert Pow2(36) == 0x10_0000_0000;
    assert Pow2(40) == 0x100_0000_0000;
    assert Pow2(44) == 0x1000_0000_0000;
    assert Pow2(48) == 0x1_0000_0000_0000;
    assert Pow2(52) == 0x10_0000_0000_0000;
    assert Pow2(56) == 0x100_0000_0000_0000;
    assert Pow2(60) == 0x1000_0000_0000_0000;
  }
}
