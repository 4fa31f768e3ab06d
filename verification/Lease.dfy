/** Lease expiry and the lock operations on one bucket (src/engine/concurrency.rs). */
module Lease {
  import opened Wrappers
  import opened Bits
  import opened LockWord

  const LEASE_TIMEOUT_MS: U32 := 100

  function WrappingSub(a: U32, b: U32): U32 { if a >= b then a - b else a + TWO32 - b }

  /** Both times are masked to 24 bits, then subtracted in 32 bits. */
  predicate IsLeaseExpired(oldTs: U32, now: U32, timeout: U32) {
    WrappingSub(And(now, 0xFF_FFFF) % TWO32, And(oldTs, 0xFF_FFFF) % TWO32) > timeout
  }

  /** The same test with the 32-bit wrap-around resolved. */
  predicate MaskedExpired(stamp: U24, now: U24, timeout: nat) {
    now < stamp || now - stamp > timeout
  }

  lemma ExpiredMeaning(oldTs: U32, now: U32, timeout: U32)
    requires timeout <= TWO32 - TWO24
    ensures IsLeaseExpired(oldTs, now, timeout) <==> MaskedExpired(oldTs % TWO24, now % TWO24, timeout)
  {
    MaskIsRemainder(oldTs);
    MaskIsRemainder(now);
    MaskedDifference(oldTs % TWO24, now % TWO24, timeout);
  }

  lemma MaskIsRemainder(x: nat)
    ensures And(x, 0xFF_FFFF) % TWO32 == x % TWO24
  {
    AndLow24(x);
  }

  lemma MaskedDifference(stamp: U24, now: U24, timeout: U32)
    requires timeout <= TWO32 - TWO24
    ensures WrappingSub(now, stamp) > timeout <==> MaskedExpired(stamp, now, timeout)
  {
  }

  /** The test as the engine uses it: a stamp taken at one time, a 32-bit clock now. */
  lemma ExpiredOfTimes(taken: nat, now: nat, timeout: U32)
    requires timeout <= TWO32 - TWO24
    ensures IsLeaseExpired(taken % TWO24, now % TWO32, timeout)
       <==> MaskedExpired(taken % TWO24, now % TWO24, timeout)
  {
    ModMod(taken, now);
    ExpiredMeaning(taken % TWO24, now % TWO32, timeout);
  }

  lemma ModMod(taken: nat, now: nat)
    ensures taken % TWO24 % TWO24 == taken % TWO24 && now % TWO32 % TWO24 == now % TWO24
  {
    var q := now / TWO32;
    assert now == q * TWO32 + now % TWO32;
    var r := now % TWO32;
    assert now == (q * 256 + r / TWO24) * TWO24 + r % TWO24;
    Quotient(q * 256 + r / TWO24, TWO24, r % TWO24);
  }

  /** Two times, in milliseconds, between two roll-overs of the 24-bit stamp. */
  predicate SameEra(a: nat, b: nat) { a / TWO24 == b / TWO24 }

  /** Inside one era the test measures the true age of the lease. */
  lemma ExpiredInEra(taken: nat, now: nat, timeout: U32)
    requires taken <= now && SameEra(taken, now) && timeout <= TWO32 - TWO24
    ensures IsLeaseExpired(taken % TWO24, now % TWO32, timeout) <==> now - taken > timeout
  {
    ExpiredOfTimes(taken, now, timeout);
    EraArithmetic(taken, now, timeout);
  }

  /** Exactly when the test is right about a lease taken at `taken`: always inside
      one era; across a roll-over, only if the lease really is too old and the
      masked times do not happen to lie within one timeout of each other. */
  lemma ExpiredCorrectIff(taken: nat, now: nat, timeout: U32)
    requires taken <= now && timeout < TWO24
    ensures (IsLeaseExpired(taken % TWO24, now % TWO32, timeout) <==> now - taken > timeout)
       <==> (|| SameEra(taken, now)
             || (now - taken > timeout && !(0 <= now % TWO24 - taken % TWO24 <= timeout)))
  {
    ExpiredOfTimes(taken, now, timeout);
    EraArithmetic(taken, now, timeout);
  }

  lemma EraArithmetic(taken: nat, now: nat, timeout: nat)
    requires taken <= now
    ensures SameEra(taken, now) ==> (MaskedExpired(taken % TWO24, now % TWO24, timeout) <==> now - taken > timeout)
    ensures !SameEra(taken, now) && timeout < TWO24 ==>
              ((MaskedExpired(taken % TWO24, now % TWO24, timeout) <==> now - taken > timeout)
          <==> (now - taken > timeout && !(0 <= now % TWO24 - taken % TWO24 <= timeout)))
  {
    var (k, a) := (taken / TWO24, taken % TWO24);
    var (n, b) := (now / TWO24, now % TWO24);
    assert taken == k * TWO24 + a && now == n * TWO24 + b;
  }

  /** The comments promise that roll-over is handled.  It is not: a lease one
      millisecond old is reported as expired when the stamp rolls over. */
  lemma RollOverExpiresYoungLease()
    ensures IsLeaseExpired((TWO24 - 1) % TWO24, TWO24 % TWO32, LEASE_TIMEOUT_MS)
  {
    ExpiredMeaning(TWO24 - 1, TWO24, LEASE_TIMEOUT_MS);
  }

  /** The decision of `try_acquire_lock` on a loaded word: free, or past its lease. */
  predicate MayTake(x: U64, now: U32) {
    And(x, 1) == 0 || IsLeaseExpired(And(x / 0x100, 0xFF_FFFF) % TWO32, now, LEASE_TIMEOUT_MS)
  }

  lemma MayTakeMeaning(x: U64, now: U32)
    ensures MayTake(x, now)
       <==> (!Unpack(x).locked || IsLeaseExpired(Unpack(x).stamp, now, LEASE_TIMEOUT_MS))
  {
    AndOne(x);
    MaskIsRemainder(x / 0x100);
  }

  /** A lease lasts 100 milliseconds: whoever finds the word of a lock taken earlier in the same era
      may take it exactly if more time has passed. */
  lemma LeaseLasts(x: U64, taken: nat, m: Mode, now: nat)
    requires taken <= now && SameEra(taken, now)
    ensures Shows(Pack(Lock(Unpack(x), taken % TWO32, m)), x / TWO32, taken % TWO24, m == Extent, false, true)
    ensures MayTake(Pack(Lock(Unpack(x), taken % TWO32, m)), now % TWO32) <==> now - taken > 100
  {
    var w := Lock(Unpack(x), taken % TWO32, m);
    ModMod(taken, taken);
    PackShows(w);
    UnpackPack(w);
    MayTakeMeaning(Pack(w), now % TWO32);
    ExpiredInEra(taken, now, LEASE_TIMEOUT_MS);
  }

  datatype Acquire = Acquired(prev: U64) | Refused

  datatype Takeover = Success(newVersion: U64) | NotExpired | NotLocked

  /** The interference at moment i; there is none after the end of the list. */
  function At(stores: seq<Option<U64>>, i: nat): Option<U64> { if i < |stores| then stores[i] else None }

  function Stored(x: U64, store: Option<U64>): U64 { if store.Some? then store.value else x }

  /** The word after the first n moments of interference. */
  function Overwritten(x: U64, stores: seq<Option<U64>>, n: nat): U64 {
    if n == 0 then x else Stored(Overwritten(x, stores, n - 1), At(stores, n - 1))
  }

  /** How often other clients changed the word, in the first n moments and in all. */
  function ChangesUpTo(stores: seq<Option<U64>>, n: nat): nat {
    if n == 0 then 0 else ChangesUpTo(stores, n - 1) + (if At(stores, n - 1).Some? then 1 else 0)
  }

  function Changes(stores: seq<Option<U64>>): nat { ChangesUpTo(stores, |stores|) }

  lemma {:induction false} ChangesBound(stores: seq<Option<U64>>, n: nat)
    ensures ChangesUpTo(stores, n) <= Changes(stores)
    ensures n >= |stores| ==> ChangesUpTo(stores, n) == Changes(stores)
    decreases if n <= |stores| then |stores| - n else n
  {
    if n < |stores| {
      ChangesBound(stores, n + 1);
    } else if n > |stores| {
      ChangesBound(stores, n - 1);
    }
  }

  /** The shared lock word of one bucket. */
  class AtomicBucket {
    var lockVersion: U64

    constructor (x: U64)
      ensures lockVersion == x
    {
      lockVersion := x;
    }

    method CasLock(expected: U64, next: U64) returns (ok: bool)
      modifies this
      ensures ok <==> old(lockVersion) == expected
      ensures lockVersion == if ok then next else old(lockVersion)
    {
      ok := lockVersion == expected;
      if ok {
        lockVersion := next;
      }
    }

    /** The check on a loaded word: an unexpired lease of somebody else refuses. */
    static method Available(oldLv: U64, now: U32) returns (free: bool)
      ensures free <==> MayTake(oldLv, now)
    {
      free := true;
      if And(oldLv, 1) != 0 {
        var lease := And(oldLv / 0x100, 0xFF_FFFF) % TWO32;
        if !IsLeaseExpired(lease, now, LEASE_TIMEOUT_MS) {
          free := false;
        }
      }
    }

    /** The word to be stored: version kept, lease stamped, mode and lock bit set. */
    static method BuildLocked(oldLv: U64, now: U32, mode: Mode) returns (newLv: U64)
      ensures newLv == Pack(Lock(Unpack(oldLv), now, mode))
      ensures Shows(newLv, oldLv / TWO32, now % TWO24, mode == Extent, false, true)
    {
      LockBitsShow(oldLv, now, mode);
      LockBitsPack(oldLv, now, mode);
      newLv := LockBits(oldLv, now, mode);
    }

    /** What another client may do at this moment. */
    method Interfere(store: Option<U64>)
      modifies this
      ensures lockVersion == Stored(old(lockVersion), store)
    {
      if store.Some? {
        lockVersion := store.value;
      }
    }

    /** One round of the loop: load, check, CAS.  Others may store before the load and between the
        load and the CAS. */
    method TryOnce(mode: Mode, first: U32, second: U32, before: Option<U64>, between: Option<U64>)
      returns (r: Option<Acquire>)
      modifies this
      ensures var seen := Stored(old(lockVersion), before);
              match r
              case Some(Acquired(prev)) =>
                && prev == seen == Stored(seen, between) && MayTake(prev, first)
                && lockVersion == Pack(Lock(Unpack(prev), second, mode))
                && Shows(lockVersion, prev / TWO32, second % TWO24, mode == Extent, false, true)
              case Some(Refused) => lockVersion == seen && !MayTake(seen, first)
              case None => between.Some? && lockVersion == between.value
    {
      Interfere(before);
      var oldLv := lockVersion;
      var free := Available(oldLv, first);
      if !free {
        return Some(Refused);
      }
      var newLv := BuildLocked(oldLv, second, mode);
      Interfere(between);
      var ok := CasLock(oldLv, newLv);
      return if ok then Some(Acquired(oldLv)) else None;
    }

    /** The retry loop.  `stores` is the interference of other clients: entry 2r is what they leave
        in the word before the load of round r, entry 2r + 1 between that load and the CAS;
        `clock` gives the successive clock readings.  Every failed CAS is paid for by a change
        made by somebody else. */
    method TryAcquireLock(mode: Mode, clock: nat -> U32, stores: seq<Option<U64>>)
      returns (r: Acquire, rounds: nat)
      modifies this
      ensures 1 <= rounds <= Changes(stores) + 1
      ensures var seen := Overwritten(old(lockVersion), stores, 2 * rounds - 1);
              match r
              case Acquired(prev) =>
                && prev == seen == Overwritten(old(lockVersion), stores, 2 * rounds)
                && MayTake(prev, clock(2 * rounds - 2))
                && lockVersion == Pack(Lock(Unpack(prev), clock(2 * rounds - 1), mode))
                && Shows(lockVersion, prev / TWO32, clock(2 * rounds - 1) % TWO24, mode == Extent, false, true)
              case Refused =>
                && lockVersion == seen
                && !MayTake(seen, clock(2 * rounds - 2))
      ensures stores == [] ==> (r.Acquired? <==> MayTake(old(lockVersion), clock(0)))
    {
      rounds := 0;
      var outcome := None;
      while outcome == None
        invariant outcome == None ==> rounds <= ChangesUpTo(stores, 2 * rounds)
        invariant outcome == None ==> lockVersion == Overwritten(old(lockVersion), stores, 2 * rounds)
        invariant outcome.Some? ==> 1 <= rounds <= ChangesUpTo(stores, 2 * rounds - 2) + 1
        invariant outcome == Some(Refused) ==>
                    && lockVersion == Overwritten(old(lockVersion), stores, 2 * rounds - 1)
                    && !MayTake(lockVersion, clock(2 * rounds - 2))
        invariant outcome.Some? && outcome.value.Acquired? ==>
                    && outcome.value.prev == Overwritten(old(lockVersion), stores, 2 * rounds - 1)
                    && outcome.value.prev == Overwritten(old(lockVersion), stores, 2 * rounds)
                    && MayTake(outcome.value.prev, clock(2 * rounds - 2))
                    && lockVersion == Pack(Lock(Unpack(outcome.value.prev), clock(2 * rounds - 1), mode))
                    && Shows(lockVersion, outcome.value.prev / TWO32, clock(2 * rounds - 1) % TWO24, mode == Extent,
                             false, true)
        decreases outcome == None, |stores| + 1 - 2 * rounds
      {
        var i := 2 * rounds;
        outcome := TryOnce(mode, clock(i), clock(i + 1), At(stores, i), At(stores, i + 1));
        rounds := rounds + 1;
      }
      ChangesBound(stores, 2 * rounds - 2);
      r := outcome.value;
    }

    /** An unconditional store: version plus one, stamp and lock bit cleared. */
    method ReleaseLock(mode: Mode, version: U32)
      modifies this
      ensures lockVersion == Pack(Release(version, mode))
      ensures Shows(lockVersion, (version + 1) % TWO32, 0, mode == Extent, false, false)
    {
      ReleaseBitsShow(version, mode);
      ReleaseBitsPack(version, mode);
      lockVersion := ReleaseBits(version, mode);
    }

    /** Runs under an exclusive borrow of the bucket, so it is one atomic step. */
    method ForceTakeover(timeout: U32, now: U32) returns (r: Takeover)
      modifies this
      ensures var w := Unpack(old(lockVersion));
              var expired := IsLeaseExpired(w.stamp, now, timeout);
              && (r == NotLocked <==> !w.locked)
              && (r == NotExpired <==> w.locked && !expired)
              && (r.Success? <==> w.locked && expired)
              && lockVersion == (if r.Success? then Pack(Release(w.version, w.mode)) else old(lockVersion))
              && (r.Success? ==> r.newVersion == lockVersion)
              && (r.Success? ==> Shows(lockVersion, (w.version + 1) % TWO32, 0, w.mode == Extent, false, false))
    {
      UnpackBitsIsUnpack(lockVersion);
      var w := UnpackBits(lockVersion);
      if !w.locked {
        return NotLocked;
      }
      if !IsLeaseExpired(w.stamp, now, timeout) {
        return NotExpired;
      }
      TakeoverBitsPack(lockVersion);
      TakeoverBitsShow(lockVersion);
      lockVersion := TakeoverBits(lockVersion);
      r := Success(lockVersion);
    }
  }
}
