/** Byte strings: little-endian numbers and overwriting a stretch of a buffer. */
module Bytes {
  import opened Bits

  type Byte = x: nat | x < 0x100

  function Pow256(k: nat): (p: nat)
    ensures p >= 1
  {
    if k == 0 then 1 else 0x100 * Pow256(k - 1)
  }

  /** The k low bytes of x, least significant first. */
  function Le(x: nat, k: nat): (s: seq<Byte>)
    ensures |s| == k
  {
    if k == 0 then [] else [x % 0x100] + Le(x / 0x100, k - 1)
  }

  function FromLe(s: seq<Byte>): nat {
    if s == [] then 0 else s[0] + 0x100 * FromLe(s[1..])
  }

  function Zeros(k: nat): (s: seq<Byte>)
    ensures |s| == k && forall i :: 0 <= i < k ==> s[i] == 0
  {
    seq(k, i => 0)
  }

  lemma {:induction false} LeZero(k: nat)
    ensures Le(0, k) == Zeros(k)
  {
    if k == 0 {
    } else {
      LeZero(k - 1);
      assert Zeros(k) == [0] + Zeros(k - 1);
    }
  }

  /** What is left of x above its k low bytes. */
  function High(x: nat, k: nat): nat {
    if k == 0 then x else High(x / 0x100, k - 1)
  }

  /** A number is its k low bytes plus the rest, shifted up. */
  lemma {:induction false} LowAndHigh(x: nat, k: nat)
    ensures FromLe(Le(x, k)) + Pow256(k) * High(x, k) == x
  {
    if k == 0 {
    } else {
      LowAndHigh(x / 0x100, k - 1);
      assert Le(x, k)[1..] == Le(x / 0x100, k - 1);
      ShiftByte(Pow256(k - 1), High(x / 0x100, k - 1));
    }
  }

  /** Reading four bytes back gives the number modulo 2^32. */
  lemma FromLeLe4(x: nat)
    ensures FromLe(Le(x, 4)) == x % TWO32
  {
    LowAndHigh(x, 4);
    FromLeBound(Le(x, 4));
    Powers256();
    Quotient(High(x, 4), TWO32, FromLe(Le(x, 4)));
  }

  lemma FromLe8(x: U64)
    ensures FromLe(Le(x, 8)) == x
  {
    LowAndHigh(x, 8);
    FromLeBound(Le(x, 8));
    Powers256();
  }

  lemma Powers256()
    ensures Pow256(4) == TWO32 && Pow256(8) == TWO64
  {
    assert Pow256(2) == 0x1_0000;
    assert Pow256(6) == 0x1_0000_0000_0000;
  }

  lemma {:induction false} LePrefix(x: nat, k: nat, j: nat)
    requires j <= k
    ensures Le(x, k)[..j] == Le(x, j)
  {
    if j == 0 {
    } else {
      LePrefix(x / 0x100, k - 1, j - 1);
      assert Le(x, k)[..j] == [x % 0x100] + Le(x / 0x100, k - 1)[..j - 1];
    }
  }

  /** The low half of an eight-byte number. */
  lemma FromLeLowHalf(x: nat)
    ensures FromLe(Le(x, 8)[..4]) == x % TWO32
  {
    LePrefix(x, 8, 4);
    FromLeLe4(x);
  }

  /** A number is below 256^k if it has k bytes. */
  lemma {:induction false} FromLeBound(s: seq<Byte>)
    ensures FromLe(s) < Pow256(|s|)
  {
    if s == [] {
    } else {
      FromLeBound(s[1..]);
    }
  }

  lemma {:induction false} FromLeAppend(s: seq<Byte>, t: seq<Byte>)
    ensures FromLe(s + t) == FromLe(s) + Pow256(|s|) * FromLe(t)
  {
    if s == [] {
      assert s + t == t;
    } else {
      assert (s + t)[1..] == s[1..] + t;
      FromLeAppend(s[1..], t);
      AppendStep(s[0], FromLe(s[1..]), Pow256(|s| - 1), FromLe(t));
    }
  }

  lemma AppendStep(a: nat, f: nat, p: nat, v: nat)
    ensures a + 0x100 * (f + p * v) == (a + 0x100 * f) + (0x100 * p) * v
  {
    ShiftByte(p, v);
  }

  lemma ShiftByte(p: nat, v: nat)
    ensures (0x100 * p) * v == 0x100 * (p * v)
  {
  }

  /** Equal numbers of equal width are equal byte strings. */
  lemma {:induction false} FromLeInjective(s: seq<Byte>, t: seq<Byte>)
    requires |s| == |t| && FromLe(s) == FromLe(t)
    ensures s == t
  {
    if s == [] {
    } else {
      assert s[0] == FromLe(s) % 0x100 && t[0] == FromLe(t) % 0x100;
      FromLeInjective(s[1..], t[1..]);
      assert s == [s[0]] + s[1..] && t == [t[0]] + t[1..];
    }
  }

  // -- Buffers -------------------------------------------------------------------

  function Splice(b: seq<Byte>, off: nat, d: seq<Byte>): (r: seq<Byte>)
    requires off + |d| <= |b|
    ensures |r| == |b|
    ensures r[off..off + |d|] == d
    ensures forall i :: 0 <= i < |b| && !(off <= i < off + |d|) ==> r[i] == b[i]
  {
    b[..off] + d + b[off + |d|..]
  }

  /** A stretch that does not meet the overwritten one keeps its bytes. */
  lemma SpliceElsewhere(b: seq<Byte>, off: nat, d: seq<Byte>, lo: nat, hi: nat)
    requires off + |d| <= |b| && lo <= hi <= |b|
    requires hi <= off || off + |d| <= lo
    ensures Splice(b, off, d)[lo..hi] == b[lo..hi]
  {
  }
}
