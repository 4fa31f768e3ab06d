/** The 64-bit lock word of a bucket (src/engine/layout.rs, src/engine/concurrency.rs).

      [63..32] version   [31..8] lease stamp   [7..3] reserved
      [2] mode           [1] tombstone         [0] locked

    `Word` is the word as the protocol sees it.  `Pack` and `Unpack` relate it to
    the machine word, and every masked-and-shifted expression that the engine
    stores is shown to be the packed form of an operation on `Word`. */
module LockWord {
  import opened Bits

  datatype Mode = Inline | Extent

  datatype Word = Word(version: U32, stamp: U24, mode: Mode, tombstone: bool, locked: bool)

  function Bit(b: bool): nat { if b then 1 else 0 }

  function ModeBit(m: Mode): nat { Bit(m == Extent) }

  /** The word of a freshly written, unlocked bucket. */
  function Fresh(m: Mode): Word { Word(0, 0, m, false, false) }

  // -- Operations on words ----------------------------------------------------

  function Lock(w: Word, now: U32, m: Mode): Word {
    Word(w.version, now % TWO24, m, false, true)
  }

  function Release(version: U32, m: Mode): Word {
    Word((version + 1) % TWO32, 0, m, false, false)
  }

  function Bury(w: Word): Word {
    Word(w.version, 0, w.mode, true, false)
  }

  // -- The machine word ---------------------------------------------------------

  function Pack(w: Word): U64 {
    w.version * TWO32 + w.stamp * 0x100 + ModeBit(w.mode) * 4 + Bit(w.tombstone) * 2 + Bit(w.locked)
  }

  function Unpack(x: U64): Word {
    Word(x / TWO32, x / 0x100 % TWO24, if x / 4 % 2 == 1 then Extent else Inline, x / 2 % 2 == 1, x % 2 == 1)
  }

  /** The accessors of `HashBucket`: version, lease_ts, is_extent, is_tombstone, is_locked. */
  function UnpackBits(x: U64): Word {
    Word(x / TWO32, And(x / 0x100, 0xFF_FFFF) % TWO24,
         if And(x, 4) != 0 then Extent else Inline, And(x, 2) != 0, And(x, 1) != 0)
  }

  function Shl(x: nat, k: nat): U64 { x * Pow2(k) % TWO64 }

  /** `try_acquire_lock` and `set_locked`. */
  function LockBits(x: U64, now: U32, m: Mode): nat {
    Or(Or(Or(Shl(x / TWO32, 32), Shl(And(now, 0xFF_FFFF), 8)), Shl(ModeBit(m), 2)), 1)
  }

  /** `release_lock`. */
  function ReleaseBits(version: U32, m: Mode): nat {
    Or(Shl((version + 1) % TWO32, 32), Shl(ModeBit(m), 2))
  }

  /** `force_takeover`. */
  function TakeoverBits(x: U64): nat {
    Or(Shl((x / TWO32 + 1) % TWO32, 32), And(x, 4))
  }

  /** `mark_tombstone`: the version is kept in place by a mask of the high half. */
  function BuryBits(x: U64): nat {
    Or(Or(x / TWO32 * TWO32, And(x, 4)), 2)
  }

  /** The machine word x has these fields, and its reserved bits are clear. */
  predicate Shows(x: nat, version: nat, stamp: nat, extent: bool, tombstone: bool, locked: bool) {
    && x / TWO32 == version && x / 0x100 % TWO24 == stamp && x / 8 % 32 == 0
    && (x / 4 % 2 == 1 <==> extent) && (x / 2 % 2 == 1 <==> tombstone) && (x % 2 == 1 <==> locked)
  }

  // -- Lemmas ---------------------------------------------------------------------

  lemma UnpackBitsIsUnpack(x: U64)
    ensures UnpackBits(x) == Unpack(x)
  {
    StampMask(x / 0x100);
    FlagMasks(x);
  }

  lemma StampMask(y: nat)
    ensures And(y, 0xFF_FFFF) % TWO24 == y % TWO24
  {
    AndLow24(y);
  }

  lemma FlagMasks(x: nat)
    ensures (And(x, 4) != 0 <==> x / 4 % 2 == 1) && (And(x, 2) != 0 <==> x / 2 % 2 == 1)
    ensures And(x, 1) != 0 <==> x % 2 == 1
  {
    AndBit(x);
  }

  /** Unpacking undoes packing, for every version, stamp, mode and flag. */
  lemma UnpackPack(w: Word)
    ensures Unpack(Pack(w)) == w
  {
    var mode, tomb, locked := ModeBit(w.mode), Bit(w.tombstone), Bit(w.locked);
    HighFields(w.version, w.stamp, mode * 4 + tomb * 2 + locked);
    FlagFields(w.version * TWO24 + w.stamp, mode, tomb, locked);
  }

  lemma HighFields(version: nat, stamp: U24, low: nat)
    requires low < 0x100
    ensures var x := version * TWO32 + stamp * 0x100 + low; x / TWO32 == version && x / 0x100 % TWO24 == stamp
  {
    Quotient(version, TWO32, stamp * 0x100 + low);
    Quotient(version * TWO24 + stamp, 0x100, low);
    Quotient(version, TWO24, stamp);
  }

  lemma FlagFields(high: nat, mode: nat, tomb: nat, locked: nat)
    requires mode <= 1 && tomb <= 1 && locked <= 1
    ensures var x := high * 0x100 + mode * 4 + tomb * 2 + locked;
            x / 4 % 2 == mode && x / 2 % 2 == tomb && x % 2 == locked
  {
    Quotient(high * 0x40 + mode, 4, tomb * 2 + locked);
    Quotient(high * 0x20, 2, mode);
    Quotient(high * 0x80 + mode * 2 + tomb, 2, locked);
    Quotient(high * 0x40 + mode, 2, tomb);
  }

  /** Packing undoes unpacking exactly on the words whose reserved bits are clear. */
  lemma PackUnpack(x: U64)
    ensures Pack(Unpack(x)) == x <==> x / 8 % 32 == 0
  {
    var b := x / 0x100;
    assert b == b / TWO24 * TWO24 + b % TWO24;
    assert b / TWO24 == x / TWO32;
    Halves(x);
    var flags := x / 4 % 2 * 4 + x / 2 % 2 * 2 + x % 2;
    assert x == b * 0x100 + x / 8 % 32 * 8 + flags;
  }

  /** The flags, the reserved bits and the rest of the word. */
  lemma Halves(x: nat)
    ensures x == x / 0x100 * 0x100 + x / 8 % 32 * 8 + x / 4 % 2 * 4 + x / 2 % 2 * 2 + x % 2
  {
    var x1, x2, x3 := x / 2, x / 4, x / 8;
    assert x1 / 2 == x2 && x2 / 2 == x3 && x3 / 32 == x / 0x100;
    assert x3 == x3 / 32 * 32 + x3 % 32;
  }

  /** Comparing machine words, as the CAS does, is comparing abstract words. */
  lemma PackInjective(v: Word, w: Word)
    ensures Pack(v) == Pack(w) <==> v == w
  {
    UnpackPack(v);
    UnpackPack(w);
  }

  lemma Shifts(version: U32, stamp: U24, m: Mode)
    ensures Shl(version, 32) == version * TWO32 && Shl(stamp, 8) == stamp * 0x100 && Shl(ModeBit(m), 2) == ModeBit(m) * 4
  {
    Powers();
    ShlFits(version, 32, TWO32);
    ShlFits(stamp, 8, 0x100);
    ShlFits(ModeBit(m), 2, 4);
  }

  lemma ShlFits(x: nat, k: nat, p: nat)
    requires Pow2(k) == p && x * p < TWO64
    ensures Shl(x, k) == x * p
  {
  }

  /** A packed word shows its fields. */
  lemma PackShows(w: Word)
    ensures Shows(Pack(w), w.version, w.stamp, w.mode == Extent, w.tombstone, w.locked)
  {
    UnpackPack(w);
    PackUnpack(Pack(w));
  }

  /** What a bucket is given when it is written: the mode bit and nothing else. */
  lemma FreshShows(m: Mode)
    ensures Pack(Fresh(m)) == if m == Extent then 4 else 0
    ensures Shows(Pack(Fresh(m)), 0, 0, m == Extent, false, false)
  {
    PackShows(Fresh(m));
  }

  /** Taking the lock: the version stays, the stamp is the low 24 bits of the clock, the mode is the
      one asked for, the lock bit is set and no other. */
  lemma LockBitsShow(x: U64, now: U32, m: Mode)
    ensures Shows(LockBits(x, now, m), x / TWO32, now % TWO24, m == Extent, false, true)
  {
    LockBitsPack(x, now, m);
    PackShows(Lock(Unpack(x), now, m));
  }

  /** Releasing it: the next version and the given mode. */
  lemma ReleaseBitsShow(version: U32, m: Mode)
    ensures Shows(ReleaseBits(version, m), (version + 1) % TWO32, 0, m == Extent, false, false)
  {
    ReleaseBitsPack(version, m);
    PackShows(Release(version, m));
  }

  /** Taking it over: the next version and the mode that was there. */
  lemma TakeoverBitsShow(x: U64)
    ensures Shows(TakeoverBits(x), (x / TWO32 + 1) % TWO32, 0, x / 4 % 2 == 1, false, false)
  {
    TakeoverBitsPack(x);
    PackShows(Release(Unpack(x).version, Unpack(x).mode));
  }

  /** Burying: version and mode that were there, and the tombstone. */
  lemma BuryBitsShow(x: U64)
    ensures Shows(BuryBits(x), x / TWO32, 0, x / 4 % 2 == 1, true, false)
  {
    BuryBitsPack(x);
    PackShows(Bury(Unpack(x)));
  }

  lemma LockBitsPack(x: U64, now: U32, m: Mode)
    ensures LockBits(x, now, m) == Pack(Lock(Unpack(x), now, m))
  {
    var version, stamp, mode := x / TWO32, now % TWO24, ModeBit(m);
    assert And(now, 0xFF_FFFF) == stamp by { AndLow24(now); }
    Shifts(version, stamp, m);
    OrFields(version, stamp, mode);
  }

  lemma OrFields(version: nat, stamp: U24, mode: nat)
    requires mode <= 1
    ensures Or(Or(Or(version * TWO32, stamp * 0x100), mode * 4), 1)
         == version * TWO32 + stamp * 0x100 + mode * 4 + 1
  {
    OrStamp(version, stamp);
    OrMode(version * TWO24 + stamp, mode);
    OrLock(version * TWO24 + stamp, mode);
  }

  lemma OrStamp(version: nat, stamp: U24)
    ensures Or(version * TWO32, stamp * 0x100) == (version * TWO24 + stamp) * 0x100
  {
    OrLow32(version * TWO32, version, stamp * 0x100);
  }

  lemma OrMode(high: nat, mode: nat)
    requires mode <= 1
    ensures Or(high * 0x100, mode * 4) == high * 0x100 + mode * 4
  {
    OrLow8(high * 0x100, high, mode * 4);
  }

  lemma OrLock(high: nat, mode: nat)
    ensures Or(high * 0x100 + mode * 4, 1) == high * 0x100 + mode * 4 + 1
  {
    OrLow2(high * 0x100 + mode * 4, high * 0x40 + mode, 1);
  }

  lemma ReleaseBitsPack(version: U32, m: Mode)
    ensures ReleaseBits(version, m) == Pack(Release(version, m))
  {
    var next, mode := (version + 1) % TWO32, ModeBit(m);
    Shifts(next, 0, m);
    OrLow32(next * TWO32, next, mode * 4);
  }

  lemma TakeoverBitsPack(x: U64)
    ensures TakeoverBits(x) == Pack(Release(Unpack(x).version, Unpack(x).mode))
  {
    var next, mode := (x / TWO32 + 1) % TWO32, x / 4 % 2;
    assert And(x, 4) == mode * 4 by { AndBit(x); }
    Shifts(next, 0, Inline);
    OrLow32(next * TWO32, next, mode * 4);
  }

  lemma BuryBitsPack(x: U64)
    ensures BuryBits(x) == Pack(Bury(Unpack(x)))
  {
    var version, mode := x / TWO32, x / 4 % 2;
    assert And(x, 4) == mode * 4 by { AndBit(x); }
    OrLow32(version * TWO32, version, mode * 4);
    OrLow2(version * TWO32 + mode * 4, version * 0x4000_0000 + mode, 2);
  }
}
