/** What the lease protocol cannot do without (src/engine/concurrency.rs).

    The guards of `LeaseProtocol.Enabled` are not checked by the engine: `release_lock` stores
    without looking, writers do not watch their lease, `force_takeover` takes any timeout, and
    the clock is the system clock.  For each guard there is the exact condition under which the
    unguarded step keeps the invariant, and a reachable run in which it does not. */
module LeaseLimits {
  import opened Bits
  import opened LockWord
  import opened Lease
  import opened LeaseProtocol

  // -- Release -----------------------------------------------------------------------------------

  /** `release_lock` by client c, whatever has become of its lease. */
  function Released(s: State, c: nat, mode: Mode): State
    requires c in s.clients && s.clients[c].Holding?
  {
    s.Unlock(s.clients[c].mine.version, mode).With(c, Idle)
  }

  /** An unguarded release keeps the protocol invariant exactly if the version is still the one the
      caller locked and nobody else holds an unexpired lease. */
  lemma BlindReleaseSafeIff(s: State, c: nat, mode: Mode)
    requires Inv(s) && c in s.clients && s.clients[c].Holding?
    ensures Inv(Released(s, c, mode)) <==> s.clients[c].mine.version == s.word.version && NoneBut(s, c)
  {
    var t := Released(s, c, mode);
    if s.clients[c].mine.version == s.word.version && NoneBut(s, c) {
      UnlockKeepsInv(s, Unlocking(c, mode));
    } else if Inv(t) {
      StepBack(s.clients[c].mine.version, s.count);
      forall d | d in s.clients && d != c ensures !HoldsLease(s, d) {
        assert ClientInv(t, t.clients[d]);
      }
    }
  }

  lemma StepBack(v: U32, k: nat)
    requires (v + 1) % TWO32 == (k + 1) % TWO32
    ensures v == k % TWO32
  {
  }

  // -- Field writes ------------------------------------------------------------------------------

  function Scribbled(s: State, i: nat, v: int): State
    requires i < |s.body|
  {
    s.(body := s.body[i := v])
  }

  /** A field write by a client whose lease may be over keeps the invariant exactly if somebody has
      the word locked or the field does not change. */
  lemma StrayWriteSafeIff(s: State, i: nat, v: int)
    requires Inv(s) && i < |s.body|
    ensures Inv(Scribbled(s, i, v)) <==> s.word.locked || v == s.body[i]
  {
    var t := Scribbled(s, i, v);
    if s.word.locked || v == s.body[i] {
      assert !s.word.locked ==> t == s;
      assert Global(t);
      forall d | d in t.clients ensures ClientInv(t, t.clients[d]) {
        ClientFrame(s, t, s.clients[d]);
      }
      assert forall d :: HoldsLease(t, d) ==> HoldsLease(s, d);
    } else {
      assert t.body[i] != s.body[i];
    }
  }

  // -- Forced takeover ---------------------------------------------------------------------------

  /** `force_takeover` once its test has passed. */
  function TakenOver(s: State): State { s.Unlock(s.word.version, s.word.mode) }

  /** A takeover keeps the invariant exactly if nobody holds an unexpired lease. */
  lemma TakeoverSafeIff(s: State)
    requires Inv(s)
    ensures Inv(TakenOver(s)) <==> Nobody(s)
  {
    var t := TakenOver(s);
    if Nobody(s) {
      UnlockedInv(s, s.word.mode, t);
    } else {
      var d :| d in s.clients && HoldsLease(s, d);
      assert Inv(t) ==> ClientInv(t, t.clients[d]);
    }
  }

  ghost predicate TakeoverHarmless(s: State, timeout: U32) {
    Inv(s) && s.word.locked && Expired(s, s.word.stamp, timeout) ==> Inv(TakenOver(s))
  }

  /** The timeouts that are safe in every state are exactly those not shorter than the lease. */
  lemma SafeTimeoutsIff(timeout: U32)
    ensures (forall s :: TakeoverHarmless(s, timeout)) <==> timeout >= LEASE_TIMEOUT_MS
  {
    if timeout >= LEASE_TIMEOUT_MS {
      forall s ensures TakeoverHarmless(s, timeout) {
        if Inv(s) && s.word.locked && Expired(s, s.word.stamp, timeout) {
          UnlockKeepsInv(s, Takeover(timeout));
        }
      }
    } else {
      var s := LiveHolder(timeout);
      TakeoverSafeIff(s);
      assert !TakeoverHarmless(s, timeout);
    }
  }

  /** A state in which a lease lasts although a shorter timeout has passed. */
  lemma LiveHolder(timeout: U32) returns (s: State)
    requires timeout < LEASE_TIMEOUT_MS
    ensures Inv(s) && s.word.locked && Expired(s, s.word.stamp, timeout) && !Nobody(s)
  {
    var mine := Word(0, 0, Inline, false, true);
    s := State(0, 0, timeout + 1, mine, [], 0, 0, map[], map[0 := Holding(mine, 0)]);
    assert HoldsLease(s, 0);
  }

  // -- Runs --------------------------------------------------------------------------------------

  /** One client holds the lock and nobody else does anything for d milliseconds. */
  lemma TakeAndWait(s: State, c: nat, d: nat) returns (t: State)
    requires Inv(s) && !s.word.locked && c in s.clients && s.clients[c].Idle?
    requires s.clock + d < s.Base() + TWO24
    ensures Reachable(s, t) && Inv(t) && t.clock == s.clock + d && t.era == s.era && t.width == s.width
    ensures t.count == s.count && t.body == s.body && t.commits == s.commits
    ensures t.word == Lock(s.word, s.clock % TWO32, Inline)
    ensures t.clients == s.clients[c := Holding(t.word, s.clock)]
  {
    var u := Take(s, c, Inline);
    assert Reachable(s, u);
    t := Do(u, Tick(d));
    ReachableStep(u, Tick(d));
    ReachableTrans(s, u, t);
    ReachableInv(s, t);
  }

  /** A client takes a word that is free or past its lease, and releases it at once. */
  lemma TakeAndRelease(s: State, c: nat) returns (t: State)
    requires Inv(s) && c in s.clients && s.clients[c].Idle?
    requires !s.word.locked || Expired(s, s.word.stamp, LEASE_TIMEOUT_MS)
    ensures Reachable(s, t) && Inv(t) && t.clock == s.clock && t.era == s.era && t.width == s.width
    ensures t.word == Release(s.word.version, Inline) && t.count == s.count + 1 && t.body == s.body
    ensures t.clients == s.clients && t.commits == s.commits[s.count + 1 := s.body]
  {
    var u := Take(s, c, Inline);
    assert Reachable(s, u);
    ReachableInv(s, u);
    t := ReleaseHeld(u, c);
    ReachableTrans(s, u, t);
    assert t.clients == s.clients;
  }

  lemma ReleaseHeld(s: State, c: nat) returns (t: State)
    requires Inv(s) && HoldsLease(s, c)
    ensures Reachable(s, t) && Inv(t) && t == s.Unlock(s.word.version, Inline).With(c, Idle)
  {
    assert ClientInv(s, s.clients[c]);
    assert NoneBut(s, c);
    t := Do(s, Unlocking(c, Inline));
    ReachableStep(s, Unlocking(c, Inline));
    StepKeepsInv(s, Unlocking(c, Inline));
  }

  lemma LapsedLooksExpired(s: State, c: nat, since: nat)
    requires Inv(s) && c in s.clients && s.clients[c] == Holding(s.word, since)
    requires s.Base() <= since < s.clock - LEASE_TIMEOUT_MS
    ensures s.word.locked && Expired(s, s.word.stamp, LEASE_TIMEOUT_MS)
  {
    assert ClientInv(s, s.clients[c]);
    ExpiredAge(s, s.word.stamp, LEASE_TIMEOUT_MS);
  }

  /** One client lets its lease run out while it still believes to hold the lock. */
  lemma Lapse(s: State) returns (t: State)
    requires Init(s) && !s.word.locked && 0 in s.clients && s.clock + 101 < s.Base() + TWO24
    ensures Reachable(s, t) && Inv(t) && t.word.locked && Expired(t, t.word.stamp, LEASE_TIMEOUT_MS)
    ensures t.clients == s.clients[0 := Holding(t.word, s.clock)] && t.clock == s.clock + 101 && t.era == s.era
    ensures t.word.version == s.word.version && t.count == s.count && t.body == s.body && t.width == s.width
  {
    InitInv(s);
    t := TakeAndWait(s, 0, 101);
    LapsedLooksExpired(t, 0, s.clock);
  }

  /** A stale and a fresh holder at the same time. */
  lemma StaleHolderReachable(s: State) returns (t: State)
    requires Init(s) && !s.word.locked && 0 in s.clients && 1 in s.clients && s.clock + 101 < s.Base() + TWO24
    ensures Reachable(s, t) && 0 in t.clients && t.clients[0].Holding? && HoldsLease(t, 1)
    ensures !Inv(Released(t, 0, Inline))
  {
    var u := Lapse(s);
    t := Take(u, 1, Inline);
    assert Reachable(u, t);
    ReachableTrans(s, u, t);
    ReachableInv(u, t);
    BlindReleaseSafeIff(t, 0, Inline);
  }

  /** The word is free again, and the first client still believes to hold it: any field it changes
      now belongs to no version. */
  lemma StrayWriteReachable(s: State, i: nat, v: int) returns (t: State)
    requires Init(s) && !s.word.locked && 0 in s.clients && 1 in s.clients && s.clock + 101 < s.Base() + TWO24
    requires i < |s.body| && v != s.body[i]
    ensures Reachable(s, t) && 0 in t.clients && t.clients[0].Holding? && i < |t.body|
    ensures !Inv(Scribbled(t, i, v))
  {
    var u := Lapse(s);
    t := TakeAndRelease(u, 1);
    ReachableTrans(s, u, t);
    StrayWriteSafeIff(t, i, v);
  }

  /** With no other holder in sight, a late release takes the version back: two others have
      released since, and the stored version is the one before. */
  lemma VersionRollback(s: State) returns (t: State)
    requires Init(s) && !s.word.locked && 0 in s.clients && 1 in s.clients && s.clock + 101 < s.Base() + TWO24
    ensures Reachable(s, t) && 0 in t.clients && t.clients[0].Holding? && Nobody(t)
    ensures t.word.version == (s.word.version + 2) % TWO32
    ensures Released(t, 0, Inline).word.version == (s.word.version + 1) % TWO32
    ensures !Inv(Released(t, 0, Inline))
  {
    t := TwoReleasesLater(s);
    NoLiveHolder(t);
    BlindReleaseSafeIff(t, 0, Inline);
    TwoFurther(s.word.version);
  }

  lemma TwoReleasesLater(s: State) returns (t: State)
    requires Init(s) && !s.word.locked && 0 in s.clients && 1 in s.clients && s.clock + 101 < s.Base() + TWO24
    ensures Reachable(s, t) && Inv(t) && !t.word.locked
    ensures t.word.version == ((s.word.version + 1) % TWO32 + 1) % TWO32
    ensures 0 in t.clients && t.clients[0].Holding? && t.clients[0].mine.version == s.word.version
  {
    var u := Lapse(s);
    var v := TakeAndRelease(u, 1);
    t := TakeAndRelease(v, 1);
    ReachableTrans(u, v, t);
    ReachableTrans(s, u, t);
  }

  lemma TwoFurther(v: U32)
    ensures ((v + 1) % TWO32 + 1) % TWO32 == (v + 2) % TWO32 != v
  {
  }

  /** A takeover with a timeout shorter than the lease passes its test while the lease lasts, and
      the next client becomes a second holder. */
  lemma ShortTakeoverTwoHolders(s: State, timeout: U32) returns (t: State, u: State)
    requires Init(s) && !s.word.locked && 0 in s.clients && 1 in s.clients
    requires timeout < LEASE_TIMEOUT_MS && s.clock + timeout + 1 < s.Base() + TWO24
    ensures Reachable(s, t) && t.word.locked && Expired(t, t.word.stamp, timeout)
    ensures Reachable(TakenOver(t), u) && HoldsLease(u, 0) && HoldsLease(u, 1)
  {
    InitInv(s);
    t := TakeAndWait(s, 0, timeout + 1);
    assert ClientInv(t, t.clients[0]);
    ExpiredAge(t, t.word.stamp, timeout);
    u := Take(TakenOver(t), 1, Inline);
    assert Reachable(TakenOver(t), u);
  }

  // -- The clock ---------------------------------------------------------------------------------

  /** A clock reading near the start of a lease misjudges it exactly if the clock went back or
      rolled over. */
  lemma MisjudgedIff(since: nat, x: nat)
    requires since <= x + LEASE_TIMEOUT_MS && x <= since + LEASE_TIMEOUT_MS
    ensures MaskedExpired(since % TWO24, x % TWO24, LEASE_TIMEOUT_MS) <==> x < since || !SameEra(since, x)
  {
    var (k, a) := (since / TWO24, since % TWO24);
    var (n, b) := (x / TWO24, x % TWO24);
    assert since == k * TWO24 + a && x == n * TWO24 + b;
  }

  /** While a lease lasts, let the clock jump to x.  The next client to try becomes a second holder
      exactly if the jump went back or over the end of the era; otherwise it is refused. */
  lemma ClockJumpTwoHoldersIff(s: State, c: nat, d: nat, x: nat)
    requires Inv(s) && HoldsLease(s, c) && d in s.clients && s.clients[d].Idle?
    requires s.clients[c].since <= x + LEASE_TIMEOUT_MS && x <= s.clients[c].since + LEASE_TIMEOUT_MS
    ensures if x < s.clients[c].since || !SameEra(s.clients[c].since, x)
            then exists t :: Reachable(s.At(x), t) && HoldsLease(t, c) && HoldsLease(t, d)
            else Reaches(s.At(x), [Begin(d, Inline), Load(d), Check(d)], s.At(x))
  {
    assert ClientInv(s, s.clients[c]);
    var since := s.clients[c].since;
    MisjudgedIff(since, x);
    StampOfSince(s, since);
    if x < since || !SameEra(since, x) {
      var t := Take(s.At(x), d, Inline);
      assert Reachable(s.At(x), t) && HoldsLease(t, c) && HoldsLease(t, d);
    } else {
      GivesUp(s.At(x), d, Inline);
    }
  }

  lemma StampOfSince(s: State, since: nat)
    requires s.Base() <= since < s.Base() + TWO24
    ensures since % TWO24 == since - s.Base()
  {
    Quotient(s.era, TWO24, since - s.Base());
  }

  /** Such a roll-over comes along: one millisecond before the end of an era a client takes the
      lock, two milliseconds later there are two holders. */
  lemma RollOverTwoHolders(s: State) returns (t: State, u: State)
    requires Init(s) && !s.word.locked && 0 in s.clients && 1 in s.clients
    requires s.clock == s.Base() + TWO24 - 1
    ensures Reachable(s, t) && Reachable(t.At(t.clock + 1), u) && HoldsLease(u, 0) && HoldsLease(u, 1)
  {
    InitInv(s);
    t := TakeAndWait(s, 0, 0);
    NextEra(s.era);
    ClockJumpTwoHoldersIff(t, 0, 1, t.clock + 1);
    u :| Reachable(t.At(t.clock + 1), u) && HoldsLease(u, 0) && HoldsLease(u, 1);
  }

  lemma NextEra(e: nat)
    ensures !SameEra(e * TWO24 + TWO24 - 1, e * TWO24 + TWO24)
  {
    Quotient(e, TWO24, TWO24 - 1);
    Quotient(e + 1, TWO24, 0);
  }

  /** The attempt up to the check, on a word that looks expired. */
  lemma CheckPasses(s: State, c: nat) returns (t: State)
    requires c in s.clients && s.clients[c].Idle? && s.word.locked && Expired(s, s.word.stamp, LEASE_TIMEOUT_MS)
    ensures Reachable(s, t) && t == s.With(c, Ready(Attempt(Inline, s.changes, 0), s.word, s.changes))
  {
    var s1 := Do(s, Begin(c, Inline));
    var s2 := Do(s1, Load(c));
    t := Do(s2, Check(c));
    ReachableStep(s, Begin(c, Inline));
    ReachableStep(s1, Load(c));
    ReachableTrans(s, s1, s2);
    ReachableStep(s2, Check(c));
    ReachableTrans(s, s2, t);
    assert t.clients == s.clients[c := Ready(Attempt(Inline, s.changes, 0), s.word, s.changes)];
  }

  /** Why a roll-over must not find an abandoned lock.  Let a client have crashed with the lock, and
      the clock roll over before anybody looks.  The stamp left over from the last era lies
      ahead of the clock and looks expired.  When the clock comes to it, a takeover stores the very
      word that was there before; a second client that had checked that word cannot see the
      difference, its CAS succeeds as well, and both hold the lock. */
  lemma AbandonedLockTwoHolders(s: State) returns (x: nat, t: State)
    requires Init(s) && 0 in s.clients && 1 in s.clients
    requires s.word.locked && s.word.mode == Inline && !s.word.tombstone && 0 < s.word.stamp
    ensures s.clock < x < s.clock + TWO24
    ensures Reachable(s.At(x), t) && HoldsLease(t, 0) && HoldsLease(t, 1)
  {
    x := (s.era + 1) * TWO24 + s.word.stamp - 1;
    Quotient(s.era + 1, TWO24, s.word.stamp - 1);
    t := StampAheadTwoHolders(s.At(x));
  }

  lemma StampAheadTwoHolders(s: State) returns (t: State)
    requires 0 in s.clients && 1 in s.clients && s.clients[0].Idle? && s.clients[1].Idle?
    requires s.word.locked && s.word.mode == Inline && !s.word.tombstone
    requires s.clock % TWO24 + 1 == s.word.stamp && s.clock + 1 < s.Base() + TWO24
    ensures Reachable(s, t) && HoldsLease(t, 0) && HoldsLease(t, 1)
  {
    var a := CheckPasses(s, 0);
    var b := CheckPasses(a, 1);
    ReachableTrans(s, a, b);
    var u := Do(b, Tick(1));
    ReachableStep(b, Tick(1));
    ReachableTrans(s, b, u);
    SameWord(s);
    var v := Finish(u, 1);
    assert v.word == s.word && Reachable(u, v);
    ReachableTrans(s, u, v);
    t := Finish(v, 0);
    assert Reachable(v, t);
    ReachableTrans(s, v, t);
  }

  lemma SameWord(s: State)
    requires s.word.locked && s.word.mode == Inline && !s.word.tombstone && s.clock % TWO24 + 1 == s.word.stamp
    ensures Lock(s.word, (s.clock + 1) % TWO32, Inline) == s.word
  {
    ModMod(0, s.clock + 1);
    Quotient(s.clock / TWO24, TWO24, s.word.stamp);
    assert s.clock + 1 == s.clock / TWO24 * TWO24 + s.word.stamp;
  }

  // -- 2^32 releases -----------------------------------------------------------------------------

  /** Any number of empty critical sections. */
  lemma {:induction false} ManyReleases(s: State, c: nat, n: nat) returns (t: State)
    requires Inv(s) && !s.word.locked && c in s.clients && s.clients[c].Idle?
    ensures Reachable(s, t) && Inv(t) && !t.word.locked && t.count == s.count + n && t.body == s.body
    ensures t.clients == s.clients && t.width == s.width
    ensures forall k :: k in s.commits ==> k in t.commits && t.commits[k] == s.commits[k]
    decreases n
  {
    if n == 0 {
      t := s;
      ReachesOne(s, s);
    } else {
      var u := TakeAndRelease(s, c);
      assert s.count + 1 !in s.commits;
      t := ManyReleases(u, c, n - 1);
      ReachableTrans(s, u, t);
    }
  }

  /** A reader has copied the first field; a writer replaces both fields. */
  lemma HalfCopied(s: State, v: int, w: int) returns (t: State)
    requires Init(s) && !s.word.locked && 0 in s.clients && 1 in s.clients && s.width == 2
    ensures Reachable(s, t) && Inv(t) && !t.word.locked && t.count == s.count + 1 && t.body == [v, w] && t.width == 2
    ensures t.clients == s.clients[0 := Copying(s.word.version, s.count, map[0 := s.body[0]])]
    ensures s.count in t.commits && t.commits[s.count] == s.body
  {
    InitInv(s);
    var u := StartRead(s, 0);
    t := Rewrite(u, 1, v, w);
    ReachableTrans(s, u, t);
  }

  lemma StartRead(s: State, c: nat) returns (t: State)
    requires Inv(s) && !s.word.locked && c in s.clients && s.clients[c].Idle? && s.body != []
    ensures Reachable(s, t) && Inv(t)
    ensures t == s.With(c, Copying(s.word.version, s.count, map[0 := s.body[0]]))
  {
    var s1 := Do(s, LookFree(c));
    var s2 := Do(s1, ReadVersion(c));
    t := Do(s2, CopyField(c, 0));
    ReachableStep(s, LookFree(c));
    ReachableStep(s1, ReadVersion(c));
    ReachableTrans(s, s1, s2);
    ReachableStep(s2, CopyField(c, 0));
    ReachableTrans(s, s2, t);
    ReachableInv(s, t);
    assert t.clients == s.clients[c := Copying(s.word.version, s.count, map[0 := s.body[0]])];
  }

  lemma Rewrite(s: State, c: nat, v: int, w: int) returns (t: State)
    requires Inv(s) && !s.word.locked && s.width == 2 && c in s.clients && s.clients[c].Idle?
    ensures Reachable(s, t) && Inv(t) && !t.word.locked && t.count == s.count + 1 && t.body == [v, w] && t.width == 2
    ensures t.clients == s.clients && t.commits == s.commits[s.count + 1 := [v, w]]
  {
    var u := TakeAndWait(s, c, 0);
    var u2 := WriteBoth(u, c, v, w);
    ReachableTrans(s, u, u2);
    t := ReleaseHeld(u2, c);
    ReachableTrans(s, u2, t);
    assert t.clients == s.clients;
  }

  lemma WriteBoth(s: State, c: nat, v: int, w: int) returns (t: State)
    requires Inv(s) && s.width == 2 && s.word.locked && c in s.clients && s.clients[c].Holding?
    ensures Reachable(s, t) && Inv(t) && t == s.(body := [v, w])
  {
    var u := Do(s, WriteField(c, 0, v));
    t := Do(u, WriteField(c, 1, w));
    ReachableStep(s, WriteField(c, 0, v));
    ReachableStep(u, WriteField(c, 1, w));
    ReachableTrans(s, u, t);
    ReachableInv(s, t);
    assert t.body == [v, w];
  }

  /** The bound of 2^32 releases in `SnapshotRead` is sharp: after exactly that many the version is
      back, and a read that began before and ended after them is accepted with one old field and
      one new - a body that was never committed with that version. */
  lemma WrappedVersionTearsRead(s: State, v: int, w: int) returns (t: State)
    requires Init(s) && !s.word.locked && 0 in s.clients && 1 in s.clients && s.width == 2
    requires v != s.body[0] && w != s.body[1]
    ensures Reachable(s, t) && 0 in t.clients && t.clients[0].Accepted?
    ensures var Accepted(version, copied, at, until) := t.clients[0];
            && until - at == TWO32 && copied == map[0 := s.body[0], 1 := w]
            && at in t.commits && !IsCopy(copied, t.commits[at])
  {
    var u := HalfCopied(s, v, w);
    var u1 := ManyReleases(u, 1, TWO32 - 1);
    ReachableTrans(s, u, u1);
    SameVersion(s.count);
    t := FinishRead(u1, 0, s.word.version, s.count, s.body[0]);
    ReachableTrans(s, u1, t);
    assert t.commits[s.count] == s.body && t.clients[0].copied[1] != s.body[1];
  }

  lemma FinishRead(s: State, c: nat, version: U32, at: nat, first: int) returns (t: State)
    requires Inv(s) && !s.word.locked && s.word.version == version && s.width == 2
    requires c in s.clients && s.clients[c] == Copying(version, at, map[0 := first])
    ensures Reachable(s, t) && t == s.With(c, Accepted(version, map[0 := first, 1 := s.body[1]], at, s.count))
  {
    var u := Do(s, CopyField(c, 1));
    t := Do(u, Verify(c));
    ReachableStep(s, CopyField(c, 1));
    ReachableStep(u, Verify(c));
    ReachableTrans(s, u, t);
    assert t.clients == s.clients[c := Accepted(version, map[0 := first, 1 := s.body[1]], at, s.count)];
  }

  lemma SameVersion(k: nat)
    ensures (k + TWO32) % TWO32 == k % TWO32
  {
  }
}
