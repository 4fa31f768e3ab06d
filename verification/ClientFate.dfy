/** What the client's insertion will come to (src/client/write.rs), foreseen from the table before
    it.  Its displacement chain is the engine's, except that it stops for good in front of a
    bucket that is locked or holds an extent. */
module ClientFate {
  import opened Wrappers
  import opened Bits
  import opened Bytes
  import opened LockWord
  import opened Layout
  import opened Cuckoo
  import opened Trails
  import opened CuckooFate
  import opened ClientWriter

  // -- The chain ---------------------------------------------------------------------------------------

  /** The bucket bars the client's chain. */
  predicate Bars(b: Bucket) { b.word.locked || b.word.mode == Extent }

  predicate Blocked(c: Chain) { c.On? && c.slot < |c.table| && Bars(c.table[c.slot]) }

  function ClientOnce(other: Homes, c: Chain): Chain { if Blocked(c) then c else KickOnce(other, c) }

  function ClientKicks(other: Homes, c: Chain, n: nat): Chain {
    Iterate(x => ClientOnce(other, x), c, n)
  }

  lemma NextClientKick(other: Homes, c: Chain, n: nat, d: Chain)
    requires ClientKicks(other, c, n) == d
    ensures ClientKicks(other, c, n + 1) == ClientOnce(other, d)
  {
  }

  lemma LaterClient(other: Homes, c: Chain, n: nat, kicks: nat)
    requires n <= kicks
    ensures ClientKicks(other, c, kicks) == ClientKicks(other, ClientKicks(other, c, n), kicks - n)
  {
    IterateAdd(x => ClientOnce(other, x), c, n, kicks - n);
  }

  lemma ClientRests(other: Homes, c: Chain, n: nat)
    requires Blocked(c) || c.Done?
    ensures ClientKicks(other, c, n) == c
  {
    IterateFixed(x => ClientOnce(other, x), c, n);
  }

  /** No such bucket is met in the first n displacements. */
  ghost predicate ClearFor(other: Homes, c: Chain, n: nat) {
    forall k {:trigger Kicks(other, c, k)} :: 0 <= k < n ==> !Blocked(Kicks(other, c, k))
  }

  /** As long as it meets none, the client follows the engine. */
  lemma {:induction false} ClientFollows(other: Homes, c: Chain, n: nat)
    requires ClearFor(other, c, n)
    ensures ClientKicks(other, c, n) == Kicks(other, c, n)
  {
    if n == 0 {
    } else {
      ClientFollows(other, c, n - 1);
      var d := Kicks(other, c, n - 1);
      assert !Blocked(d);
      NextClientKick(other, c, n - 1, d);
      NextKick(other, c, n - 1, d, KickOnce(other, d));
    }
  }

  /** In front of one it stops. */
  lemma ClientStops(other: Homes, c: Chain, x: nat, n: nat)
    requires x <= n && ClearFor(other, c, x) && Blocked(Kicks(other, c, x))
    ensures ClientKicks(other, c, n) == Kicks(other, c, x)
  {
    ClientFollows(other, c, x);
    LaterClient(other, c, x, n);
    ClientRests(other, Kicks(other, c, x), n - x);
  }

  /** So wherever the client stops, the engine comes by. */
  lemma {:induction false} EngineComesBy(other: Homes, c: Chain, n: nat) returns (x: nat)
    ensures x <= n && ClientKicks(other, c, n) == Kicks(other, c, x) && ClearFor(other, c, x)
    ensures x < n ==> Blocked(Kicks(other, c, x))
  {
    x := 0;
    while x < n && !Blocked(Kicks(other, c, x))
      invariant x <= n && ClearFor(other, c, x)
    {
      x := x + 1;
    }
    if x < n {
      ClientStops(other, c, x, n);
    } else {
      ClientFollows(other, c, n);
    }
  }

  lemma {:induction false} ClientKickIsKicks(t: Table, i: nat, key: Key, value: seq<Byte>, kicks: nat)
    requires SizeOk(|t|) && i < |t|
    ensures var c := ClientKicks(Other(|t|), On(t, i, InlineItem(key, value)), kicks);
            ClientKick(t, i, key, value, kicks) == (c.table, if c.Done? then InsertedAt(c.at) else Full)
    decreases kicks
  {
    var c := On(t, i, InlineItem(key, value));
    if kicks == 0 {
    } else if Bars(t[i]) {
      ClientRests(Other(|t|), c, kicks);
    } else {
      var d := KickOnce(Other(|t|), c);
      ClientStep(t, i, key, value, kicks, d);
      NextClientKick(Other(|t|), c, 0, c);
      LaterClient(Other(|t|), c, 1, kicks);
      if d.On? {
        ClientKickIsKicks(d.table, d.slot, d.hand.key, d.hand.entry.body, kicks - 1);
      } else {
        ClientRests(Other(|t|), d, kicks - 1);
      }
    }
  }

  lemma ClientStep(t: Table, i: nat, key: Key, value: seq<Byte>, kicks: nat, d: Chain)
    requires SizeOk(|t|) && i < |t| && kicks > 0 && !Bars(t[i])
    requires d == KickOnce(Other(|t|), On(t, i, InlineItem(key, value)))
    ensures |d.table| == |t| && (d.On? ==> d.slot < |t|)
    ensures d.hand == InlineItem(d.hand.key, d.hand.entry.body)
    ensures var (t', r) := ClientKick(t, i, key, value, kicks);
            if d.Done? then t' == d.table && r == InsertedAt(d.at)
            else (t', r) == ClientKick(d.table, d.slot, d.hand.key, d.hand.entry.body, kicks - 1)
  {
    HomesOk(t);
    RepackBody(t[i].body);
  }

  // -- The fate ----------------------------------------------------------------------------------------

  /** The first bucket on the trail from position k on that bars the client, or the length of the trail. */
  ghost function FirstBar(t: Table, p: seq<nat>, k: nat): (x: nat)
    requires Slots(t, p) && k <= |p|
    ensures k <= x <= |p| && (x < |p| ==> Bars(t[p[x]]))
    ensures forall l :: k <= l < x ==> !Bars(t[p[l]])
    decreases |p| - k
  {
    if k == |p| || Bars(t[p[k]]) then k else FirstBar(t, p, k + 1)
  }

  /** There is such a bucket on the trail of slot i. */
  ghost predicate BarAhead(t: Table, i: nat)
    requires SizeOk(|t|) && Live(t, i)
  {
    FirstBar(t, TrailOf(t, i), 0) < |TrailOf(t, i)|
  }

  /** What the client's chain will come to: the trail as far as the first bucket on it that bars
      it; if there is none, the lap, and after it the next trail. */
  ghost function ClientForesee(t: Table, i: nat, item: Item, kicks: nat): Fate
    requires SizeOk(|t|) && Live(t, i)
    decreases kicks
  {
    if BarAhead(t, i) then Foresee(t, i, item, Min(kicks, FirstBar(t, TrailOf(t, i), 0)))
    else if !Closed(t, i) || kicks < LapLength(t, i) then Foresee(t, i, item, kicks)
    else if LapEndsVacant(t, i, item) then Succeeds(Alternate(|t|, item.key.hash, i))
    else ClientForesee(LapTable(t, i, item), Alternate(|t|, item.key.hash, i), item, kicks - LapLength(t, i))
  }

  ghost predicate ClientForeseen(t: Table, i: nat, item: Item, kicks: nat) {
    && SizeOk(|t|) && Live(t, i)
    && ClientForesee(t, i, item, kicks) == FateOf(ClientKicks(Other(|t|), On(t, i, item), kicks))
  }

  /** On the way out the chain comes to the buckets of the trail as they were. */
  lemma OutBlocked(t: Table, i: nat, item: Item, k: nat)
    requires SizeOk(|t|) && Live(t, i) && k < |TrailOf(t, i)|
    ensures Blocked(Kicks(Other(|t|), On(t, i, item), k)) <==> Bars(t[TrailOf(t, i)[k]])
  {
    var p := TrailOf(t, i);
    Forward(Other(|t|), t, p, item, k);
    ShiftedElsewhere(t, p, item, k, p[k]);
  }

  /** On the way back it comes to entries that it has moved itself. */
  lemma BackBlocked(t: Table, i: nat, item: Item, r: nat)
    requires SizeOk(|t|) && Placed(t) && Live(t, i) && Closed(t, i) && item.key.hash != 0 && r <= Knot(t, i)
    requires !BarAhead(t, i) && item.entry.mode == Inline
    ensures !Blocked(Kicks(Other(|t|), On(t, i, item), |TrailOf(t, i)| + r))
  {
    var p, j := TrailOf(t, i), Knot(t, i);
    BucketBack(t, i, item, r);
    assert j - r > 0 ==> !Bars(t[p[j - r - 1]]);
  }

  lemma BucketBack(t: Table, i: nat, item: Item, r: nat)
    requires SizeOk(|t|) && Placed(t) && Live(t, i) && Closed(t, i) && item.key.hash != 0 && r <= Knot(t, i)
    ensures var p, j := TrailOf(t, i), Knot(t, i);
            var c := Kicks(Other(|t|), On(t, i, item), |p| + r);
            c.On? && c.slot < |c.table| && c.table[c.slot] == Filled(if j == r then item else t[p[j - r - 1]].Stored())
  {
    HomesOk(t);
    BackwardSlot(Other(|t|), t, TrailOf(t, i), item, Knot(t, i), r);
  }

  lemma ClearToBar(t: Table, i: nat, item: Item, n: nat)
    requires SizeOk(|t|) && Live(t, i) && n <= FirstBar(t, TrailOf(t, i), 0)
    ensures ClearFor(Other(|t|), On(t, i, item), n)
  {
    var p := TrailOf(t, i);
    forall k | 0 <= k < n ensures !Blocked(Kicks(Other(|t|), On(t, i, item), k)) {
      OutBlocked(t, i, item, k);
    }
  }

  lemma ClearLap(t: Table, i: nat, item: Item, n: nat)
    requires SizeOk(|t|) && Placed(t) && Live(t, i) && item.key.hash != 0 && item.entry.mode == Inline
    requires !BarAhead(t, i) && (Closed(t, i) ==> n <= LapLength(t, i))
    ensures ClearFor(Other(|t|), On(t, i, item), n)
  {
    var m := |TrailOf(t, i)|;
    forall k | 0 <= k < n ensures !Blocked(Kicks(Other(|t|), On(t, i, item), k)) {
      if k < m {
        OutBlocked(t, i, item, k);
      } else if Closed(t, i) {
        BackBlocked(t, i, item, k - m);
      } else {
        OpenFate(t, i, item, k);
      }
    }
  }

  lemma FateAtBar(t: Table, i: nat, item: Item, kicks: nat)
    requires Good(t) && InHand(t, i, item) && Live(t, i) && BarAhead(t, i)
    ensures ClientForeseen(t, i, item, kicks)
  {
    var x := FirstBar(t, TrailOf(t, i), 0);
    ClearToBar(t, i, item, Min(kicks, x));
    ChainForeseen(t, i, item, Min(kicks, x));
    if kicks <= x {
      ClientFollows(Other(|t|), On(t, i, item), kicks);
    } else {
      OutBlocked(t, i, item, x);
      ClientStops(Other(|t|), On(t, i, item), x, kicks);
    }
  }

  lemma FateOnFirstLap(t: Table, i: nat, item: Item, kicks: nat)
    requires Good(t) && InHand(t, i, item) && Live(t, i) && !BarAhead(t, i) && item.entry.mode == Inline
    requires !Closed(t, i) || kicks < LapLength(t, i)
    ensures ClientForeseen(t, i, item, kicks)
  {
    ClearLap(t, i, item, kicks);
    ClientFollows(Other(|t|), On(t, i, item), kicks);
    ChainForeseen(t, i, item, kicks);
  }

  /** What follows a lap on which nothing bars the client. */
  lemma ClientLap(t: Table, i: nat, item: Item, kicks: nat)
    requires SizeOk(|t|) && Placed(t) && Live(t, i) && Closed(t, i) && LapLength(t, i) <= kicks
    requires !BarAhead(t, i) && item.entry.mode == Inline && item.key.hash != 0
    ensures var s, alt := LapTable(t, i, item), Alternate(|t|, item.key.hash, i);
            var c := ClientKicks(Other(|t|), On(t, i, item), kicks);
            if LapEndsVacant(t, i, item) then c.Done? && c.at == alt
            else c == ClientKicks(Other(|t|), On(s, alt, item), kicks - LapLength(t, i))
  {
    var n := LapLength(t, i);
    var c := On(t, i, item);
    ClearLap(t, i, item, n);
    ClientFollows(Other(|t|), c, n);
    LapFate(t, i, item, n);
    LaterClient(Other(|t|), c, n, kicks);
    if LapEndsVacant(t, i, item) {
      ClientRests(Other(|t|), Kicks(Other(|t|), c, n), kicks - n);
    }
  }

  lemma ClientNextLap(t: Table, i: nat, item: Item, kicks: nat, s: Table, alt: nat)
    requires SizeOk(|t|) && Placed(t) && Live(t, i) && Closed(t, i) && LapLength(t, i) <= kicks
    requires !BarAhead(t, i) && item.entry.mode == Inline && item.key.hash != 0 && !LapEndsVacant(t, i, item)
    requires s == LapTable(t, i, item) && alt == Alternate(|t|, item.key.hash, i)
    requires ClientForeseen(s, alt, item, kicks - LapLength(t, i))
    ensures ClientForeseen(t, i, item, kicks)
  {
    ClientLap(t, i, item, kicks);
  }

  lemma ClientLastLap(t: Table, i: nat, item: Item, kicks: nat)
    requires SizeOk(|t|) && Placed(t) && Live(t, i) && Closed(t, i) && LapLength(t, i) <= kicks
    requires !BarAhead(t, i) && item.entry.mode == Inline && item.key.hash != 0 && LapEndsVacant(t, i, item)
    ensures ClientForeseen(t, i, item, kicks)
  {
    ClientLap(t, i, item, kicks);
  }

  /** The client's chain comes to what was foreseen. */
  lemma {:induction false} ClientChainForeseen(t: Table, i: nat, item: Item, kicks: nat)
    requires Good(t) && InHand(t, i, item) && Live(t, i) && item.entry.mode == Inline
    ensures ClientForeseen(t, i, item, kicks)
    decreases kicks, 1
  {
    if BarAhead(t, i) {
      FateAtBar(t, i, item, kicks);
    } else if !Closed(t, i) || kicks < LapLength(t, i) {
      FateOnFirstLap(t, i, item, kicks);
    } else if LapEndsVacant(t, i, item) {
      ClientLastLap(t, i, item, kicks);
    } else {
      ClientLaterLaps(t, i, item, kicks);
    }
  }

  lemma {:induction false} ClientLaterLaps(t: Table, i: nat, item: Item, kicks: nat)
    requires Good(t) && InHand(t, i, item) && Live(t, i) && item.entry.mode == Inline && !BarAhead(t, i)
    requires Closed(t, i) && LapLength(t, i) <= kicks && !LapEndsVacant(t, i, item)
    ensures ClientForeseen(t, i, item, kicks)
    decreases kicks, 0
  {
    var s, alt := OneLap(t, i, item);
    ClientChainForeseen(s, alt, item, kicks - LapLength(t, i));
    ClientNextLap(t, i, item, kicks, s, alt);
  }

  // -- The insertion -----------------------------------------------------------------------------------

  /** An unlocked vacant bucket takes a new entry directly. */
  predicate Open(b: Bucket) { b.Vacant() && !b.word.locked }

  /** What the client's insertion of a new key will come to. */
  ghost function ClientFateOf(t: Table, item: Item): Fate
    requires SizeOk(|t|)
  {
    var h1, h2 := H1(|t|, item.key.hash), H2(|t|, item.key.hash);
    if Open(t[h1]) then Succeeds(h1)
    else if Open(t[h2]) then Succeeds(h2)
    else if t[h1].Vacant() then Loses(item)
    else ClientForesee(t, h1, item, 16)
  }

  /** The insertion leaves a key behind its own tombstone: the first home is a locked tombstone of the
      key, and the second takes it. */
  predicate LeavesGhost(t: Table, k: Key)
    requires SizeOk(|t|)
  {
    var h1, h2 := H1(|t|, k.hash), H2(|t|, k.hash);
    t[h1].word.locked && BuriedAt(t, h1, k) && Open(t[h2])
  }

  /** The client's insertion of a new key comes to what was foreseen, with whatever buckets locked or
      holding extents: the entry is in the map and the slot reported is the one foreseen, or exactly
      the entry foreseen is missing. */
  lemma ClientInsertForeseen(t: Table, key: Key, value: seq<Byte>)
    requires Good(t) && key.hash != 0 && key !in Contents(t)
    ensures var (t', r) := ClientInsert(t, key, value);
            var item := InlineItem(key, value);
            && Tidy(t') && (Good(t') <==> !LeavesGhost(t, key))
            && match ClientFateOf(t, item)
               case Succeeds(at) => r == InsertedAt(at) && Contents(t') == Contents(t)[key := item.entry]
               case Loses(v) => r == Full && Contents(t') == Contents(t)[key := item.entry] - {v.key}
  {
    var h1, h2 := H1(|t|, key.hash), H2(|t|, key.hash);
    NewHand(t, key);
    if Open(t[h1]) {
      PlaceDirectly(t, key, value, h1);
    } else if Open(t[h2]) {
      PlaceDirectly(t, key, value, h2);
    } else if t[h1].Vacant() {
      assert Contents(t)[key := InlineItem(key, value).entry] - {key} == Contents(t);
    } else {
      ClientChainEffect(t, key, value);
    }
  }

  lemma NewHand(t: Table, key: Key)
    requires Tidy(t) && key.hash != 0 && key !in Contents(t)
    ensures forall j :: !Holds(t, j, key)
  {
    InContents(t, key);
  }

  lemma PlaceDirectly(t: Table, key: Key, value: seq<Byte>, i: nat)
    requires Good(t) && key.hash != 0 && i < |t| && AtHome(|t|, key.hash, i) && Open(t[i])
    requires forall j :: !Holds(t, j, key)
    ensures var item := InlineItem(key, value);
            var t' := t[i := Filled(item)];
            && Tidy(t') && Contents(t') == Contents(t)[key := item.entry]
            && (Good(t') <==> (i != H1(|t|, key.hash) ==> !BuriedAt(t, H1(|t|, key.hash), key)))
  {
    PutSlot(t, i, InlineItem(key, value));
    PutSlotGood(t, i, InlineItem(key, value));
    assert Contents(t) - Occupant(t, i) == Contents(t);
  }

  lemma ClientChainEffect(t: Table, key: Key, value: seq<Byte>)
    requires Good(t) && key.hash != 0 && key !in Contents(t) && Live(t, H1(|t|, key.hash))
    ensures var h1, item := H1(|t|, key.hash), InlineItem(key, value);
            var (t', r) := ClientKick(t, h1, key, value, 16);
            && Good(t')
            && match ClientForesee(t, h1, item, 16)
               case Succeeds(at) => r == InsertedAt(at) && Contents(t') == Contents(t)[key := item.entry]
               case Loses(v) => r == Full && Contents(t') == Contents(t)[key := item.entry] - {v.key}
  {
    var h1, item := H1(|t|, key.hash), InlineItem(key, value);
    NewHand(t, key);
    ClientChainForeseen(t, h1, item, 16);
    ClientKickIsKicks(t, h1, key, value, 16);
    var x := EngineComesBy(Other(|t|), On(t, h1, item), 16);
    KickChainIsKicks(t, h1, item, x);
    KickChainConserves(t, h1, item, x);
    ChainOut(Contents(t), item, KickChain(t, h1, item, x));
  }

  lemma ChainOut(m: map<Key, Entry>, item: Item, r: Kicked)
    requires Conserves(m, item, r) && item.key !in m
    ensures Contents(r.table) == if r.ok then m[item.key := item.entry] else m[item.key := item.entry] - {r.hand.key}
  {
    if !r.ok {
      OneOut(m, item, Contents(r.table), r.hand);
    }
  }

  /** So on every good table, locks and extents included, the client's insertion of a new key updates
      the map, or leaves the map its size and drops exactly one of the old entries and the new one. */
  lemma ClientInsertEffect(t: Table, key: Key, value: seq<Byte>)
    requires Good(t) && key.hash != 0 && key !in Contents(t)
    ensures var (t', r) := ClientInsert(t, key, value);
            && Tidy(t')
            && Effect(Contents(t), Insert(key, value, Inline), if r == Full then TableFull else Inserted, Contents(t'))
  {
    ClientInsertForeseen(t, key, value);
    var item := InlineItem(key, value);
    var (t', r) := ClientInsert(t, key, value);
    if r == Full {
      LostInMap(t, item);
      assert Contents(t').Keys == Contents(t)[key := item.entry].Keys - {ClientFateOf(t, item).victim.key};
    }
  }

  /** Who is foreseen to be lost is the new item or an entry of the table. */
  lemma LostInMap(t: Table, item: Item)
    requires Good(t) && item.key.hash != 0 && item.key !in Contents(t) && ClientFateOf(t, item).Loses?
    requires item.entry.mode == Inline
    ensures ClientFateOf(t, item).victim.key in Contents(t)[item.key := item.entry]
  {
    var h1 := H1(|t|, item.key.hash);
    NewHand(t, item.key);
    if !t[h1].Vacant() {
      ClientChainForeseen(t, h1, item, 16);
      var x := EngineComesBy(Other(|t|), On(t, h1, item), 16);
      KickChainIsKicks(t, h1, item, x);
      KickChainConserves(t, h1, item, x);
      OneOut(Contents(t), item, Contents(KickChain(t, h1, item, x).table), KickChain(t, h1, item, x).hand);
    }
  }

  /** Without locks the client's insertion of a new key is the engine's with fewer displacements
      allowed. */
  lemma ClientIsEngine(t: Table, key: Key, value: seq<Byte>) returns (x: nat)
    requires Good(t) && Unlocked(t) && key.hash != 0 && key !in Contents(t)
    ensures x <= 16
    ensures var (t', r) := ClientInsert(t, key, value);
            Apply(t, x, Insert(key, value, Inline)) == (t', if r == Full then TableFull else Inserted)
  {
    x := 16;
    var h1, item := H1(|t|, key.hash), InlineItem(key, value);
    LookupIsMapLookup(t, key);
    if Crowded(t, key) {
      CrowdedHand(t, item);
      x := EngineComesBy(Other(|t|), On(t, h1, item), 16);
      ClientKickIsKicks(t, h1, key, value, 16);
      KickChainIsKicks(t, h1, item, x);
    }
  }

  // -- The two writers ---------------------------------------------------------------------------------

  /** What the engine's insertion of a new key will come to, but for the slot. */
  ghost predicate EngineSucceeds(t: Table, item: Item)
    requires Good(t)
  {
    !Crowded(t, item.key) || Foresee(t, H1(|t|, item.key.hash), item, 16).Succeeds?
  }

  /** For a new key on any good table, client and engine end differently exactly if the engine is
      foreseen to succeed and the client to be barred. */
  lemma WritersAgreeIff(t: Table, key: Key, value: seq<Byte>)
    requires Good(t) && key.hash != 0 && key !in Contents(t)
    ensures var agree := ClientInsert(t, key, value).1.InsertedAt?
                    <==> Apply(t, 16, Insert(key, value, Inline)).1 == Inserted;
            var item := InlineItem(key, value);
            (agree <==> !(EngineSucceeds(t, item) && ClientFateOf(t, item).Loses?))
  {
    var item := InlineItem(key, value);
    ClientInsertForeseen(t, key, value);
    InsertSucceedsIff(t, item, 16);
    if Crowded(t, key) && ClientInsert(t, key, value).1.InsertedAt? {
      ClientNotBetter(t, key, value);
    }
  }

  /** Where the client succeeds, so does the engine. */
  lemma ClientNotBetter(t: Table, key: Key, value: seq<Byte>)
    requires Good(t) && key.hash != 0 && Crowded(t, key) && ClientInsert(t, key, value).1.InsertedAt?
    ensures InsertRaw(t, InlineItem(key, value), 16).ok
  {
    var h1, item := H1(|t|, key.hash), InlineItem(key, value);
    CrowdedHand(t, item);
    ClientKickIsKicks(t, h1, key, value, 16);
    var x := EngineComesBy(Other(|t|), On(t, h1, item), 16);
    Later(Other(|t|), On(t, h1, item), x, 16);
    KickChainIsKicks(t, h1, item, 16);
  }

  /** On an open trail: the engine succeeds if the trail is short enough, the client if moreover no
      bucket on it is locked or holds an extent. */
  lemma OpenTrailWriters(t: Table, key: Key, value: seq<Byte>)
    requires Good(t) && key.hash != 0 && Crowded(t, key)
    ensures var h1 := H1(|t|, key.hash);
            && Live(t, h1)
            && (!Closed(t, h1) ==>
                 && (Apply(t, 16, Insert(key, value, Inline)).1 == Inserted <==> |TrailOf(t, h1)| <= 16)
                 && (ClientInsert(t, key, value).1.InsertedAt? <==> |TrailOf(t, h1)| <= 16 && !BarAhead(t, h1)))
  {
    ClientInsertForeseen(t, key, value);
    TrailDecides(t, InlineItem(key, value), 16);
  }

  // -- Locked buckets ----------------------------------------------------------------------------------

  /** A locked bucket is overwritten by the client exactly if the chain is foreseen to end there. */
  lemma LockedOverwrittenIff(t: Table, key: Key, value: seq<Byte>, i: nat)
    requires Good(t) && key.hash != 0 && key !in Contents(t) && i < |t| && t[i].word.locked
    ensures ClientInsert(t, key, value).0[i] != t[i] <==> ClientFateOf(t, InlineItem(key, value)) == Succeeds(i)
  {
    ClientInsertForeseen(t, key, value);
    InsertMeetsLock(t, key, value, i);
  }

  /** A table in which the client loses an inline entry because it meets an extent: the entry has been
      displaced when its other home turns out to hold the extent. */
  lemma ClientLosesInline(a: Item, b: Item, key: Key, value: seq<Byte>)
    requires a.key.hash != 0 && b.key.hash != 0 && key.hash != 0
    requires a.key.hash % 2 == 0 && b.key.hash % 2 == 0 && key.hash % 2 == 0
    requires a.key != b.key && a.key != key && b.key != key
    requires a.entry.mode == Inline && b.entry.mode == Extent
    ensures SizeOk(2)
    ensures var t := InsertRaw(InsertRaw(NewTable(2), a, 1).table, b, 1).table;
            var (t', r) := ClientInsert(t, key, value);
            && Good(t) && a.key in Contents(t) && r == Full
            && Good(t') && a.key !in Contents(t') && key in Contents(t')
  {
    TwoSlots(a.key.hash);
    TwoSlots(b.key.hash);
    TwoSlots(key.hash);
    var item := InlineItem(key, value);
    OldEntryLost(a, b, item);
    var t := InsertRaw(InsertRaw(NewTable(2), a, 1).table, b, 1).table;
    TwoEntries(a, b);
    assert ClientKick(t[0 := Filled(item)], 1, a.key, a.entry.body, MAX_KICK - 1) == (t[0 := Filled(item)], Full);
    assert ClientInsert(t, key, value) == (t[0 := Filled(item)], Full);
    assert InsertRaw(t, item, 1).table == t[0 := Filled(item)];
  }
}
