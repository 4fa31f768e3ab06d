/** The lease lock and the optimistic read as a protocol of many clients
    (src/engine/concurrency.rs).

    Loads, clock readings, compare-and-swaps, single-field writes, releases, forced
    takeovers, and the steps of a reader interleave arbitrarily; a client may stop
    for good after any step.  What is assumed of the environment is written in
    `Enabled`: the clock never runs backwards and rolls over to a new era of the 24-bit
    stamp only while nothing depends on it (`Quiet`), and a release, a field write or a
    forced takeover happens only where it does no harm (`MayRelease`, `MayWrite`,
    `MayTakeOver`) - as it always does while the caller's own lease lasts, or with a
    timeout not shorter than the lease.  `LeaseLimits` shows that these guards cannot be
    relaxed and what goes wrong without them. */
module LeaseProtocol {
  import opened Bits
  import opened LockWord
  import opened Lease

  /** One call of `try_acquire_lock`: `start` is the number of changes the word had
      seen when the call began, `fails` the number of failed CAS rounds so far. */
  datatype Attempt = Attempt(mode: Mode, start: nat, fails: nat)

  datatype Client =
    | Idle
    | Top(a: Attempt)                                       // head of the retry loop
    | Loaded(a: Attempt, expected: Word, seen: nat)         // word loaded, not yet examined
    | Ready(a: Attempt, expected: Word, seen: nat)          // word free or lease expired
    | Stamped(a: Attempt, expected: Word, seen: nat, now: nat) // clock read, new word built
    | Holding(mine: Word, since: nat)
    | SawFree                                               // reader: lock bit was clear
    | Copying(version: U32, at: nat, copied: map<nat, int>) // reader: version read, copying fields
    | Accepted(version: U32, copied: map<nat, int>, at: nat, until: nat) // reader: `verify_read` said true

  /** `count` counts releases and forced takeovers, `changes` all stores to the word;
      `commits` remembers the body at each release. */
  datatype State = State(
    era: nat, width: nat,
    clock: nat, word: Word, body: seq<int>,
    count: nat, changes: nat, commits: map<nat, seq<int>>,
    clients: map<nat, Client>)
  {
    function Base(): nat { era * TWO24 }
    predicate LeaseLasts(since: nat) { clock - since <= LEASE_TIMEOUT_MS }
    function At(now: nat): State { this.(clock := now, era := now / TWO24) }
    function With(c: nat, cl: Client): State { this.(clients := clients[c := cl]) }
    function Store(w: Word): State { this.(word := w, changes := changes + 1) }
    function Unlock(version: U32, m: Mode): State {
      Store(Release(version, m)).(count := count + 1, commits := commits[count + 1 := body])
    }
  }

  datatype Step =
    | Tick(d: nat)
    | RollOver(d: nat)
    | Begin(c: nat, mode: Mode)
    | Load(c: nat)
    | Check(c: nat)
    | ReadClock(c: nat)
    | Cas(c: nat)
    | WriteField(c: nat, i: nat, v: int)
    | Unlocking(c: nat, mode: Mode)
    | Takeover(timeout: U32)
    | Crash(c: nat)
    | LookFree(c: nat)
    | ReadVersion(c: nat)
    | CopyField(c: nat, i: nat)
    | Verify(c: nat)

  /** The engine's expiry test on a stamp (`Lease.ExpiredOfTimes` ties it to the masks). */
  predicate Expired(s: State, stamp: U24, timeout: nat) {
    MaskedExpired(stamp, s.clock % TWO24, timeout)
  }

  /** The client holds the lock and its lease has not run out. */
  predicate HoldsLease(s: State, c: nat) {
    c in s.clients && s.clients[c].Holding? && s.LeaseLasts(s.clients[c].since)
  }

  /** Nobody, except perhaps c, holds an unexpired lease. */
  predicate NoneBut(s: State, c: nat) {
    forall d :: d in s.clients && d != c ==> !HoldsLease(s, d)
  }

  predicate Nobody(s: State) {
    forall d :: d in s.clients ==> !HoldsLease(s, d)
  }

  /** A client that took the lock, its lease over or not, may still release it. */
  predicate MayRelease(s: State, c: nat) {
    && c in s.clients && s.clients[c].Holding?
    && s.clients[c].mine.version == s.word.version && NoneBut(s, c)
  }

  predicate MayWrite(s: State, c: nat, i: nat, v: int) {
    && c in s.clients && s.clients[c].Holding?
    && i < |s.body| && (s.word.locked || v == s.body[i])
  }

  predicate MayTakeOver(s: State, timeout: nat) {
    && s.word.locked && Expired(s, s.word.stamp, timeout)
    && (timeout >= LEASE_TIMEOUT_MS || Nobody(s))
  }

  /** The word is free and nobody is between loading it and the CAS. */
  predicate Quiet(s: State) {
    && !s.word.locked
    && forall c :: c in s.clients ==> !s.clients[c].Loaded? && !s.clients[c].Ready? && !s.clients[c].Stamped?
  }

  predicate Enabled(s: State, st: Step) {
    match st
    case Tick(d) => s.clock + d < s.Base() + TWO24
    case RollOver(d) => s.clock + d >= s.Base() + TWO24 && Quiet(s)
    case Begin(c, _) => c in s.clients && s.clients[c].Idle?
    case Load(c) => c in s.clients && s.clients[c].Top?
    case Check(c) => c in s.clients && s.clients[c].Loaded?
    case ReadClock(c) => c in s.clients && s.clients[c].Ready?
    case Cas(c) => c in s.clients && s.clients[c].Stamped?
    case WriteField(c, i, v) => MayWrite(s, c, i, v)
    case Unlocking(c, _) => MayRelease(s, c)
    case Takeover(timeout) => MayTakeOver(s, timeout)
    case Crash(c) => c in s.clients
    case LookFree(c) => c in s.clients && s.clients[c].Idle? && !s.word.locked
    case ReadVersion(c) => c in s.clients && s.clients[c].SawFree?
    case CopyField(c, i) => c in s.clients && s.clients[c].Copying? && i < |s.body|
    case Verify(c) =>
      c in s.clients && s.clients[c].Copying? && (forall i :: 0 <= i < |s.body| ==> i in s.clients[c].copied)
  }

  function Do(s: State, st: Step): State
    requires Enabled(s, st)
  {
    match st
    case Tick(d) => s.(clock := s.clock + d)
    case RollOver(d) => s.At(s.clock + d)
    case Begin(c, mode) => s.With(c, Top(Attempt(mode, s.changes, 0)))
    case Load(c) => s.With(c, Loaded(s.clients[c].a, s.word, s.changes))
    case Check(c) =>
      var Loaded(a, expected, seen) := s.clients[c];
      if expected.locked && !Expired(s, expected.stamp, LEASE_TIMEOUT_MS) then s.With(c, Idle)
      else s.With(c, Ready(a, expected, seen))
    case ReadClock(c) =>
      var Ready(a, expected, seen) := s.clients[c];
      s.With(c, Stamped(a, expected, seen, s.clock))
    case Cas(c) =>
      var Stamped(a, expected, seen, now) := s.clients[c];
      if s.word == expected then
        var mine := Lock(expected, now % TWO32, a.mode);
        s.Store(mine).With(c, Holding(mine, now))
      else s.With(c, Top(a.(fails := a.fails + 1)))
    case WriteField(c, i, v) => s.(body := s.body[i := v])
    case Unlocking(c, mode) => s.Unlock(s.clients[c].mine.version, mode).With(c, Idle)
    case Takeover(_) => s.Unlock(s.word.version, s.word.mode)
    case Crash(c) => s.With(c, Idle)
    case LookFree(c) => s.With(c, SawFree)
    case ReadVersion(c) => s.With(c, Copying(s.word.version, s.count, map[]))
    case CopyField(c, i) =>
      var Copying(version, at, copied) := s.clients[c];
      s.With(c, Copying(version, at, copied[i := s.body[i]]))
    case Verify(c) =>
      var Copying(version, at, copied) := s.clients[c];
      if !s.word.locked && s.word.version == version then s.With(c, Accepted(version, copied, at, s.count))
      else s.With(c, Idle)
  }

  /** Every client idle; the word may still carry the lock of a client that crashed
      earlier in this era. */
  ghost predicate Init(s: State) {
    && s.Base() <= s.clock < s.Base() + TWO24
    && |s.body| == s.width
    && s.word.version == s.count % TWO32
    && (s.word.locked ==> s.word.stamp <= s.clock - s.Base())
    && s.commits == map[s.count := s.body]
    && forall c :: c in s.clients ==> s.clients[c].Idle?
  }

  ghost predicate Reaches(s: State, steps: seq<Step>, t: State)
    decreases |steps|
  {
    if steps == [] then s == t
    else Enabled(s, steps[0]) && Reaches(Do(s, steps[0]), steps[1..], t)
  }

  // -- The invariant ----------------------------------------------------------------

  ghost predicate Global(s: State) {
    && s.Base() <= s.clock < s.Base() + TWO24
    && |s.body| == s.width
    && s.word.version == s.count % TWO32
    && (s.word.locked ==> s.word.stamp <= s.clock - s.Base())
    && (!s.word.locked ==> s.count in s.commits && s.commits[s.count] == s.body)
    && (forall k :: k in s.commits ==> k <= s.count && |s.commits[k]| == s.width)
  }

  ghost predicate IsCopy(copied: map<nat, int>, body: seq<int>) {
    forall i :: 0 <= i < |body| ==> i in copied && copied[i] == body[i]
  }

  ghost predicate Pending(s: State, a: Attempt, expected: Word, seen: nat) {
    && a.start + a.fails <= seen <= s.changes
    && (seen == s.changes ==> s.word == expected)
    && (expected.locked ==> expected.stamp <= s.clock - s.Base())
  }

  ghost predicate ClientInv(s: State, cl: Client)
    requires Global(s)
  {
    match cl
    case Idle => true
    case Top(a) => a.start + a.fails <= s.changes
    case Loaded(a, expected, seen) => Pending(s, a, expected, seen)
    case Ready(a, expected, seen) =>
      && Pending(s, a, expected, seen)
      && (expected.locked ==> s.clock - s.Base() - expected.stamp > LEASE_TIMEOUT_MS)
    case Stamped(a, expected, seen, now) =>
      && Pending(s, a, expected, seen)
      && s.Base() <= now <= s.clock
      && (expected.locked ==> now - s.Base() - expected.stamp > LEASE_TIMEOUT_MS)
    case Holding(mine, since) =>
      && since <= s.clock && mine.locked
      && (since >= s.Base() ==> mine.stamp == since - s.Base())
      && (s.LeaseLasts(since) ==> since >= s.Base() && s.word == mine)
    case SawFree => true
    case Copying(version, at, copied) =>
      && at <= s.count && version == at % TWO32
      && (at == s.count && !s.word.locked ==>
            forall i :: i in copied && i < s.width ==> copied[i] == s.body[i])
    case Accepted(version, copied, at, until) =>
      at <= until && version == at % TWO32 && (until - at < TWO32 ==> at in s.commits && IsCopy(copied, s.commits[at]))
  }

  ghost predicate Exclusive(s: State) {
    forall c, d :: HoldsLease(s, c) && HoldsLease(s, d) ==> c == d
  }

  ghost predicate Inv(s: State) {
    && Global(s)
    && (forall c :: c in s.clients ==> ClientInv(s, s.clients[c]))
    && Exclusive(s)
  }

  // -- Preservation -------------------------------------------------------------------

  /** What every step keeps, seen from a client that does not take part in it. */
  ghost predicate Evolves(s: State, t: State) {
    && t.era == s.era && t.width == s.width
    && s.clock <= t.clock && s.count <= t.count && s.changes <= t.changes
    && (t.changes == s.changes ==> t.word == s.word)
    && (forall k :: k in s.commits ==> k in t.commits && t.commits[k] == s.commits[k])
    && (t.count == s.count && !t.word.locked ==> !s.word.locked && t.body == s.body)
  }

  lemma ClientFrame(s: State, t: State, cl: Client)
    requires Global(s) && Global(t) && Evolves(s, t) && ClientInv(s, cl)
    requires cl.Holding? && t.LeaseLasts(cl.since) ==> t.word == s.word
    ensures ClientInv(t, cl)
  {
  }

  lemma ExpiredAge(s: State, stamp: U24, timeout: nat)
    requires s.Base() <= s.clock < s.Base() + TWO24 && stamp <= s.clock - s.Base()
    ensures Expired(s, stamp, timeout) <==> s.clock - s.Base() - stamp > timeout
  {
    Quotient(s.era, TWO24, s.clock - s.Base());
  }

  lemma LockStamp(s: State, now: nat, w: Word, m: Mode)
    requires s.Base() <= now < s.Base() + TWO24
    ensures Lock(w, now % TWO32, m).stamp == now - s.Base()
  {
    ModMod(0, now);
    Quotient(s.era, TWO24, now - s.Base());
  }

  /** A word that may be taken belongs to no holder whose lease lasts. */
  lemma NoLiveHolder(s: State)
    requires Inv(s)
    requires s.word.locked ==> s.clock - s.Base() - s.word.stamp > LEASE_TIMEOUT_MS
    ensures forall c :: !HoldsLease(s, c)
  {
    forall c ensures !HoldsLease(s, c) {
      if c in s.clients {
        assert ClientInv(s, s.clients[c]);
      }
    }
  }

  /** Steps that leave the shared memory alone and move one client. */
  lemma LocalStep(s: State, t: State, c: nat, cl: Client)
    requires Inv(s) && c in s.clients && t == s.With(c, cl)
    requires !cl.Holding? && ClientInv(s, cl)
    ensures Inv(t)
  {
    assert Global(t);
    assert forall d :: HoldsLease(t, d) ==> HoldsLease(s, d);
    forall d | d in t.clients ensures ClientInv(t, t.clients[d]) {
      ClientFrame(s, t, if d == c then cl else s.clients[d]);
    }
  }

  lemma CheckKeepsInv(s: State, c: nat)
    requires Inv(s) && Enabled(s, Check(c))
    ensures Inv(Do(s, Check(c)))
  {
    var t := Do(s, Check(c));
    assert ClientInv(s, s.clients[c]);
    var expected := s.clients[c].expected;
    if expected.locked {
      ExpiredAge(s, expected.stamp, LEASE_TIMEOUT_MS);
    }
    LocalStep(s, t, c, t.clients[c]);
  }

  lemma StepKeepsInv(s: State, st: Step)
    requires Inv(s) && Enabled(s, st)
    ensures Inv(Do(s, st))
  {
    var t := Do(s, st);
    match st {
      case Tick(_) => TickKeepsInv(s, st);
      case RollOver(d) => RollOverKeepsInv(s, d);
      case Cas(c) => CasKeepsInv(s, st);
      case WriteField(c, _, _) => WriteKeepsInv(s, st);
      case Unlocking(c, _) => UnlockKeepsInv(s, st);
      case Takeover(_) => UnlockKeepsInv(s, st);
      case Check(c) => CheckKeepsInv(s, c);
      case Verify(c) =>
        VerifiedCopy(s, c);
        LocalStep(s, t, c, t.clients[c]);
      case _ => LocalKeepsInv(s, st);
    }
  }

  lemma LocalKeepsInv(s: State, st: Step)
    requires Inv(s) && Enabled(s, st)
    requires st.Begin? || st.Load? || st.ReadClock? || st.Crash? || st.LookFree? || st.ReadVersion? || st.CopyField?
    ensures Inv(Do(s, st))
  {
    var t := Do(s, st);
    assert ClientInv(s, s.clients[st.c]);
    LocalStep(s, t, st.c, t.clients[st.c]);
  }

  lemma VerifiedCopy(s: State, c: nat)
    requires Inv(s) && Enabled(s, Verify(c))
    ensures ClientInv(s, Do(s, Verify(c)).clients[c])
  {
    var Copying(version, at, copied) := s.clients[c];
    assert ClientInv(s, s.clients[c]);
    if !s.word.locked && s.word.version == version && s.count - at < TWO32 {
      SameResidue(at, s.count);
    }
  }

  lemma SameResidue(a: nat, b: nat)
    requires a <= b && b - a < TWO32 && a % TWO32 == b % TWO32
    ensures a == b
  {
  }

  lemma TickKeepsInv(s: State, st: Step)
    requires Inv(s) && st.Tick? && Enabled(s, st)
    ensures Inv(Do(s, st))
  {
    var t := Do(s, st);
    assert Global(t);
    assert forall d :: HoldsLease(t, d) ==> HoldsLease(s, d);
    forall d | d in t.clients ensures ClientInv(t, t.clients[d]) {
      ClientFrame(s, t, s.clients[d]);
    }
  }

  /** When nothing depends on the era, a new one begins like the first. */
  lemma RollOverKeepsInv(s: State, d: nat)
    requires Inv(s) && Enabled(s, RollOver(d))
    ensures Inv(Do(s, RollOver(d)))
  {
    var t := Do(s, RollOver(d));
    assert Global(t);
    NoLiveHolder(s);
    assert forall e :: HoldsLease(t, e) ==> HoldsLease(s, e);
    forall e | e in t.clients ensures ClientInv(t, t.clients[e]) {
      assert ClientInv(s, s.clients[e]) && !HoldsLease(s, e);
    }
  }

  lemma WriteKeepsInv(s: State, st: Step)
    requires Inv(s) && st.WriteField? && Enabled(s, st)
    ensures Inv(Do(s, st))
  {
    var t := Do(s, st);
    assert !s.word.locked ==> t == s;
    assert Global(t);
    assert forall d :: HoldsLease(t, d) ==> HoldsLease(s, d);
    forall d | d in t.clients ensures ClientInv(t, t.clients[d]) {
      ClientFrame(s, t, s.clients[d]);
    }
  }

  /** The next version is stored, and afterwards nobody believes to hold the lock. */
  lemma UnlockedInv(s: State, mode: Mode, t: State)
    requires Inv(s) && t == s.Unlock(s.word.version, mode).(clients := t.clients)
    requires t.clients.Keys == s.clients.Keys
    requires forall d :: d in t.clients ==> t.clients[d] == Idle || (t.clients[d] == s.clients[d] && !HoldsLease(s, d))
    ensures Inv(t)
  {
    NextResidue(s.count);
    assert Global(t);
    assert forall d :: HoldsLease(t, d) ==> HoldsLease(s, d);
    forall d | d in t.clients ensures ClientInv(t, t.clients[d]) {
      ClientFrame(s, t, t.clients[d]);
    }
  }

  lemma UnlockKeepsInv(s: State, st: Step)
    requires Inv(s) && (st.Unlocking? || st.Takeover?) && Enabled(s, st)
    ensures Inv(Do(s, st))
  {
    if st.Takeover? {
      if st.timeout >= LEASE_TIMEOUT_MS {
        ExpiredAge(s, s.word.stamp, st.timeout);
        NoLiveHolder(s);
      }
      UnlockedInv(s, s.word.mode, Do(s, st));
    } else {
      UnlockedInv(s, st.mode, Do(s, st));
    }
  }

  lemma NextResidue(k: nat)
    ensures (k % TWO32 + 1) % TWO32 == (k + 1) % TWO32
  {
  }

  lemma CasKeepsInv(s: State, st: Step)
    requires Inv(s) && st.Cas? && Enabled(s, st)
    ensures Inv(Do(s, st))
  {
    var t := Do(s, st);
    var c := st.c;
    var Stamped(a, expected, seen, now) := s.clients[c];
    assert ClientInv(s, s.clients[c]);
    if s.word != expected {
      LocalStep(s, t, c, t.clients[c]);
    } else {
      NoLiveHolder(s);
      LockStamp(s, now, expected, a.mode);
      assert Global(t);
      forall d | d in t.clients ensures ClientInv(t, t.clients[d]) {
        if d != c {
          ClientFrame(s, t, s.clients[d]);
        }
      }
    }
  }

  // -- Theorems over whole runs ---------------------------------------------------------

  lemma {:induction false} RunKeepsInv(s: State, steps: seq<Step>, t: State)
    requires Inv(s) && Reaches(s, steps, t)
    ensures Inv(t)
    decreases |steps|
  {
    if steps == [] {
    } else {
      StepKeepsInv(s, steps[0]);
      RunKeepsInv(Do(s, steps[0]), steps[1..], t);
    }
  }

  lemma InitInv(s: State)
    requires Init(s)
    ensures Inv(s)
  {
  }

  /** In every reachable state at most one client holds an unexpired lease, and the
      shared word is then exactly that client's lock word. */
  lemma MutualExclusion(s: State, steps: seq<Step>, t: State, c: nat, d: nat)
    requires Init(s) && Reaches(s, steps, t)
    requires HoldsLease(t, c)
    ensures t.word == t.clients[c].mine && t.word.locked
    ensures HoldsLease(t, d) ==> c == d
  {
    InitInv(s);
    RunKeepsInv(s, steps, t);
    assert ClientInv(t, t.clients[c]);
  }

  /** The version is the number of releases modulo 2^32: a release or a forced takeover
      adds exactly one and records the body of that moment, no other step moves it. */
  lemma VersionCountsReleases(s: State, st: Step)
    requires Inv(s) && Enabled(s, st)
    ensures var t := Do(s, st);
            var releasing := st.Unlocking? || st.Takeover?;
            && t.count == s.count + (if releasing then 1 else 0)
            && t.word.version == t.count % TWO32
            && (releasing ==> t.commits == s.commits[t.count := s.body] && t.body == s.body && s.count + 1 !in s.commits)
            && (!releasing ==> t.commits == s.commits)
            && (s.word.locked && !t.word.locked ==> releasing)
  {
    StepKeepsInv(s, st);
  }

  /** Nothing recorded is taken back. */
  ghost predicate Extends(s: State, t: State) {
    && s.count <= t.count && s.changes <= t.changes && s.clock <= t.clock
    && forall k :: k in s.commits ==> k in t.commits && t.commits[k] == s.commits[k]
  }

  lemma StepExtends(s: State, st: Step)
    requires Inv(s) && Enabled(s, st)
    ensures Extends(s, Do(s, st))
  {
  }

  /** Over a run the release counter never falls and no recorded body is ever replaced. */
  lemma {:induction false} RunExtends(s: State, steps: seq<Step>, t: State)
    requires Inv(s) && Reaches(s, steps, t)
    ensures Extends(s, t)
    decreases |steps|
  {
    if steps == [] {
    } else {
      var u := Do(s, steps[0]);
      StepKeepsInv(s, steps[0]);
      StepExtends(s, steps[0]);
      RunExtends(u, steps[1..], t);
      ExtendsTransitive(s, u, t);
    }
  }

  lemma ExtendsTransitive(s: State, t: State, u: State)
    requires Extends(s, t) && Extends(t, u)
    ensures Extends(s, u)
  {
  }

  /** A read that `verify_read` accepts is a snapshot: if fewer than 2^32 releases fell
      between reading the version and verifying it, then every copied field is the field
      of the one body that was committed with that version. */
  lemma SnapshotRead(s: State, steps: seq<Step>, t: State, c: nat)
    requires Init(s) && Reaches(s, steps, t)
    requires c in t.clients && t.clients[c].Accepted?
    requires t.clients[c].until - t.clients[c].at < TWO32
    ensures var Accepted(version, copied, at, until) := t.clients[c];
            && version == at % TWO32
            && at in t.commits && |t.commits[at]| == t.width && IsCopy(copied, t.commits[at])
  {
    InitInv(s);
    RunKeepsInv(s, steps, t);
    assert ClientInv(t, t.clients[c]);
  }

  /** A call that is back at the head of its loop has failed at most as often as the word
      was changed since the call began, so k changes allow at most k + 1 rounds. */
  lemma RetryBound(s: State, steps: seq<Step>, t: State, c: nat)
    requires Init(s) && Reaches(s, steps, t)
    requires c in t.clients && t.clients[c].Top?
    ensures t.clients[c].a.fails <= t.changes - t.clients[c].a.start
  {
    InitInv(s);
    RunKeepsInv(s, steps, t);
    assert ClientInv(t, t.clients[c]);
  }

  /** What each step does to the word: a CAS that finds the word it expects takes the lock in the mode
      asked for and keeps the version; a release stores the version after the one locked, in the given
      mode; a takeover the version after the one found, in the mode found; nothing else changes it. */
  lemma WordSteps(s: State, st: Step)
    requires Enabled(s, st)
    ensures var t := Do(s, st);
            match st
            case Cas(c) =>
              var Stamped(a, expected, _, now) := s.clients[c];
              if s.word == expected then
                && t.word == Word(s.word.version, now % TWO24, a.mode, false, true)
                && t.clients[c] == Holding(t.word, now)
              else t.word == s.word && t.clients[c] == Top(a.(fails := a.fails + 1))
            case Unlocking(c, mode) => t.word == Word((s.clients[c].mine.version + 1) % TWO32, 0, mode, false, false)
            case Takeover(_) => t.word == Word((s.word.version + 1) % TWO32, 0, s.word.mode, false, false)
            case _ => t.word == s.word
  {
    if st.Cas? {
      ModMod(0, s.clients[st.c].now);
    }
  }

  /** Each counted change is a real one: the stored word differs from the one before. */
  lemma ChangesAreChanges(s: State, st: Step)
    requires Inv(s) && Enabled(s, st)
    ensures var t := Do(s, st);
            t.changes == s.changes + (if t.word != s.word then 1 else 0)
  {
    match st {
      case Cas(c) =>
        var Stamped(a, expected, seen, now) := s.clients[c];
        assert ClientInv(s, s.clients[c]);
        LockStamp(s, now, expected, a.mode);
      case Unlocking(c, _) =>
        assert ClientInv(s, s.clients[c]);
      case _ =>
    }
  }

  /** An undisturbed attempt succeeds if the word is free, or if its lease is over - for
      instance because the holder crashed.  Otherwise it is refused. */
  lemma SoloAttempt(s: State, c: nat, mode: Mode)
    requires Inv(s) && c in s.clients && s.clients[c].Idle?
    ensures var free := !s.word.locked || s.clock - s.Base() - s.word.stamp > LEASE_TIMEOUT_MS;
            && (free ==> exists t :: Reaches(s, [Begin(c, mode), Load(c), Check(c), ReadClock(c), Cas(c)], t)
                                  && Took(s, c, mode, t))
            && (!free ==> Reaches(s, [Begin(c, mode), Load(c), Check(c)], s))
  {
    if s.word.locked {
      ExpiredAge(s, s.word.stamp, LEASE_TIMEOUT_MS);
    }
    if !s.word.locked || s.clock - s.Base() - s.word.stamp > LEASE_TIMEOUT_MS {
      var t := TakeAlone(s, c, mode);
    } else {
      GivesUp(s, c, mode);
    }
  }

  /** The client holds the lock, in the mode it asked for. */
  ghost predicate Took(s: State, c: nat, mode: Mode, t: State) {
    HoldsLease(t, c) && t.word == Word(s.word.version, s.clock % TWO24, mode, false, true)
  }

  lemma TakeAlone(s: State, c: nat, mode: Mode) returns (t: State)
    requires c in s.clients && s.clients[c].Idle?
    requires !s.word.locked || Expired(s, s.word.stamp, LEASE_TIMEOUT_MS)
    ensures Reaches(s, [Begin(c, mode), Load(c), Check(c), ReadClock(c), Cas(c)], t) && Took(s, c, mode, t)
  {
    t := Take(s, c, mode);
    ModMod(s.clock, s.clock);
  }

  /** The steps of a reader that copies the fields from i on. */
  function CopySteps(c: nat, i: nat, n: nat): seq<Step>
    requires i <= n
    decreases n - i
  {
    if i == n then [] else [CopyField(c, i)] + CopySteps(c, i + 1, n)
  }

  lemma {:induction false} CopiesAll(s: State, c: nat, version: U32, at: nat, copied: map<nat, int>, i: nat)
    returns (t: State)
    requires c in s.clients && s.clients[c] == Copying(version, at, copied) && i <= |s.body|
    requires forall j :: 0 <= j < i ==> j in copied && copied[j] == s.body[j]
    ensures Reaches(s, CopySteps(c, i, |s.body|), t)
    ensures c in t.clients && t.clients[c].Copying? && IsCopy(t.clients[c].copied, s.body)
    ensures t == s.With(c, t.clients[c]) && t.clients[c].version == version && t.clients[c].at == at
    decreases |s.body| - i
  {
    if i == |s.body| {
      t := s;
      assert s.With(c, s.clients[c]) == s;
    } else {
      var s1 := Do(s, CopyField(c, i));
      t := CopiesAll(s1, c, version, at, copied[i := s.body[i]], i + 1);
      ReachesCons(s, CopyField(c, i), CopySteps(c, i + 1, |s.body|), t);
    }
  }

  /** A reader that is not disturbed is accepted, with the body as it is. */
  lemma SoloRead(s: State, c: nat) returns (t: State)
    requires Inv(s) && c in s.clients && s.clients[c].Idle? && !s.word.locked
    ensures Reaches(s, [LookFree(c), ReadVersion(c)] + (CopySteps(c, 0, |s.body|) + [Verify(c)]), t)
    ensures c in t.clients && t.clients[c].Accepted? && t == s.With(c, t.clients[c])
    ensures t.clients[c].version == s.word.version && IsCopy(t.clients[c].copied, s.body)
  {
    var s1 := Do(s, LookFree(c));
    var s2 := Do(s1, ReadVersion(c));
    t := CopyAndVerify(s2, c);
    var rest := CopySteps(c, 0, |s.body|) + [Verify(c)];
    ReachesCons(s1, ReadVersion(c), rest, t);
    ReachesCons(s, LookFree(c), [ReadVersion(c)] + rest, t);
    assert [LookFree(c)] + ([ReadVersion(c)] + rest) == [LookFree(c), ReadVersion(c)] + rest;
  }

  lemma CopyAndVerify(s: State, c: nat) returns (t: State)
    requires c in s.clients && !s.word.locked && s.clients[c] == Copying(s.word.version, s.count, map[])
    ensures Reaches(s, CopySteps(c, 0, |s.body|) + [Verify(c)], t)
    ensures c in t.clients && t.clients[c].Accepted? && t == s.With(c, t.clients[c])
    ensures t.clients[c].version == s.word.version && IsCopy(t.clients[c].copied, s.body)
  {
    var u := CopiesAll(s, c, s.word.version, s.count, map[], 0);
    t := Do(u, Verify(c));
    ReachesOne(t, t);
    ReachesCons(u, Verify(c), [], t);
    assert [Verify(c)] + [] == [Verify(c)];
    ReachesAppend(s, CopySteps(c, 0, |s.body|), u, [Verify(c)], t);
  }

  lemma ReachesOne(s: State, t: State)
    requires s == t
    ensures Reaches(s, [], t)
  {
  }

  lemma ReachesCons(s: State, st: Step, rest: seq<Step>, t: State)
    requires Enabled(s, st) && Reaches(Do(s, st), rest, t)
    ensures Reaches(s, [st] + rest, t)
  {
    assert ([st] + rest)[1..] == rest;
  }

  /** Some run leads from s to t. */
  ghost predicate Reachable(s: State, t: State) {
    exists steps :: Reaches(s, steps, t)
  }

  lemma {:induction false} ReachesAppend(s: State, a: seq<Step>, t: State, b: seq<Step>, u: State)
    requires Reaches(s, a, t) && Reaches(t, b, u)
    ensures Reaches(s, a + b, u)
    decreases |a|
  {
    if a == [] {
      assert a + b == b;
    } else {
      assert (a + b)[0] == a[0] && (a + b)[1..] == a[1..] + b;
      ReachesAppend(Do(s, a[0]), a[1..], t, b, u);
    }
  }

  lemma ReachableTrans(s: State, t: State, u: State)
    requires Reachable(s, t) && Reachable(t, u)
    ensures Reachable(s, u)
  {
    var a :| Reaches(s, a, t);
    var b :| Reaches(t, b, u);
    ReachesAppend(s, a, t, b, u);
  }

  lemma ReachableStep(s: State, st: Step)
    requires Enabled(s, st)
    ensures Reachable(s, Do(s, st))
  {
    ReachesOne(Do(s, st), Do(s, st));
    ReachesCons(s, st, [], Do(s, st));
  }

  lemma ReachableInv(s: State, t: State)
    requires Inv(s) && Reachable(s, t)
    ensures Inv(t)
  {
    var a :| Reaches(s, a, t);
    RunKeepsInv(s, a, t);
  }

  /** An attempt with nobody else in between.  Nothing is assumed of the state but that the
      word is free or looks expired. */
  lemma Take(s: State, c: nat, mode: Mode) returns (t: State)
    requires c in s.clients && s.clients[c].Idle?
    requires !s.word.locked || Expired(s, s.word.stamp, LEASE_TIMEOUT_MS)
    ensures Reaches(s, [Begin(c, mode), Load(c), Check(c), ReadClock(c), Cas(c)], t)
    ensures t == s.Store(Lock(s.word, s.clock % TWO32, mode)).With(c, Holding(t.word, s.clock))
  {
    var a := Attempt(mode, s.changes, 0);
    var s1 := s.With(c, Top(a));
    var s2 := s1.With(c, Loaded(a, s.word, s.changes));
    var s3 := s2.With(c, Ready(a, s.word, s.changes));
    t := Finish(s3, c);
    ReachesCons(s2, Check(c), [ReadClock(c), Cas(c)], t);
    ReachesCons(s1, Load(c), [Check(c), ReadClock(c), Cas(c)], t);
    ReachesCons(s, Begin(c, mode), [Load(c), Check(c), ReadClock(c), Cas(c)], t);
    assert t.clients == s.clients[c := Holding(t.word, s.clock)];
  }

  lemma Finish(s: State, c: nat) returns (t: State)
    requires c in s.clients && s.clients[c].Ready? && s.clients[c].expected == s.word
    ensures Reaches(s, [ReadClock(c), Cas(c)], t)
    ensures t == s.Store(Lock(s.word, s.clock % TWO32, s.clients[c].a.mode)).With(c, Holding(t.word, s.clock))
  {
    var u := Do(s, ReadClock(c));
    t := Do(u, Cas(c));
    ReachesOne(t, t);
    ReachesCons(u, Cas(c), [], t);
    ReachesCons(s, ReadClock(c), [Cas(c)], t);
    assert t.clients == s.clients[c := Holding(t.word, s.clock)];
  }

  /** An attempt that finds an unexpired lease gives up and leaves no trace. */
  lemma GivesUp(s: State, c: nat, mode: Mode)
    requires c in s.clients && s.clients[c].Idle?
    requires s.word.locked && !Expired(s, s.word.stamp, LEASE_TIMEOUT_MS)
    ensures Reaches(s, [Begin(c, mode), Load(c), Check(c)], s)
  {
    var s1 := Do(s, Begin(c, mode));
    var s2 := Do(s1, Load(c));
    var s3 := Do(s2, Check(c));
    assert s3.clients == s.clients;
    ReachesOne(s3, s);
    ReachesCons(s2, Check(c), [], s);
    ReachesCons(s1, Load(c), [Check(c)], s);
    ReachesCons(s, Begin(c, mode), [Load(c), Check(c)], s);
  }
}
