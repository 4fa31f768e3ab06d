/** The cuckoo table (src/engine/cuckoo.rs): two candidate slots per key and a chain of
    displacements.

    The functions say what the operations do to the bucket array; `Contents` is the finite
    map that the array stands for, and the lemmas show that the operations act on that
    map as lookup, update and removal. */
module Cuckoo {
  import opened Wrappers
  import opened Bits
  import opened Bytes
  import opened LockWord
  import opened Layout

  type Table = seq<Bucket>

  /** With a single bucket the second hash would be out of range. */
  predicate SizeOk(n: nat) { n >= 2 && IsPowerOfTwo(n) }

  function H1(n: nat, hash: U64): (i: nat)
    requires SizeOk(n)
    ensures i < n
  {
    hash % n
  }

  function H2(n: nat, hash: U64): (i: nat)
    requires SizeOk(n)
    ensures i < n && i % 2 == 1
  {
    var r := hash / TWO32 % n;
    OddBelow(r, n);
    Or(r, 1)
  }

  lemma OddBelow(r: nat, n: nat)
    requires r < n && n % 2 == 0
    ensures Or(r, 1) < n && Or(r, 1) % 2 == 1
  {
    OrOne(r);
  }

  /** The first home is read off the low half of the hash, the second off the high half. */
  lemma HomesFromHalves(n: nat, high: U32, low: U32)
    requires SizeOk(n) && n <= TWO32
    ensures H1(n, high * TWO32 + low) == low % n
    ensures H2(n, high * TWO32 + low) == high % n / 2 * 2 + 1
  {
    assert H1(n, high * TWO32 + low) == low % n by { LowHalf(n, high, low); }
    assert H2(n, high * TWO32 + low) == high % n / 2 * 2 + 1 by { HighHalf(n, high, low); }
  }

  lemma LowHalf(n: nat, high: U32, low: U32)
    requires IsPowerOfTwo(n) && n <= TWO32
    ensures (high * TWO32 + low) % n == low % n
  {
    Powers();
    var q := PowerDivides(n, 32);
    LowRemainder(high, TWO32, q, n, low);
  }

  lemma HighHalf(n: nat, high: U32, low: U32)
    requires n > 0
    ensures Or((high * TWO32 + low) / TWO32 % n, 1) == high % n / 2 * 2 + 1
  {
    Quotient(high, TWO32, low);
    OrOne(high % n);
  }

  predicate AtHome(n: nat, hash: U64, i: nat)
    requires SizeOk(n)
  {
    i == H1(n, hash) || i == H2(n, hash)
  }

  function NewTable(n: nat): Table { seq(n, i => EMPTY_BUCKET) }

  // -- Operations ---------------------------------------------------------------------

  /** The slot that `lookup`, `delete` and `insert` find for a key. */
  function FindKey(t: Table, k: Key): (r: Option<nat>)
    requires SizeOk(|t|)
    ensures r.Some? ==> r.value < |t|
  {
    var h1, h2 := H1(|t|, k.hash), H2(|t|, k.hash);
    if t[h1].Matches(k) && !t[h1].word.tombstone then Some(h1)
    else if t[h2].Matches(k) && !t[h2].word.tombstone then Some(h2)
    else None
  }

  function Lookup(t: Table, k: Key): Option<Entry>
    requires SizeOk(|t|)
  {
    match FindKey(t, k)
    case Some(i) => Some(t[i].Stored().entry)
    case None => None
  }

  function Delete(t: Table, k: Key): (Table, bool)
    requires SizeOk(|t|)
  {
    match FindKey(t, k)
    case Some(i) => (t[i := t[i].MarkTombstone()], true)
    case None => (t, false)
  }

  /** The bucket array after a chain of displacements.  `hand` is the item that has no
      place when the chain gives up. */
  datatype Kicked = Kicked(table: Table, ok: bool, hand: Item)

  function Alternate(n: nat, hash: U64, i: nat): nat
    requires SizeOk(n)
  {
    if i == H1(n, hash) then H2(n, hash) else H1(n, hash)
  }

  function KickChain(t: Table, i: nat, cur: Item, kicks: nat): (r: Kicked)
    requires SizeOk(|t|) && i < |t|
    ensures |r.table| == |t|
    decreases kicks
  {
    if kicks == 0 then Kicked(t, false, cur)
    else
      var occupant := t[i].Stored();
      var t' := t[i := Filled(cur)];
      var alt := Alternate(|t|, occupant.key.hash, i);
      if t'[alt].Vacant() then Kicked(t'[alt := Filled(occupant)], true, occupant)
      else KickChain(t', alt, occupant, kicks - 1)
  }

  function InsertRaw(t: Table, item: Item, maxKick: nat): (r: Kicked)
    requires SizeOk(|t|)
    ensures |r.table| == |t|
  {
    var h1, h2 := H1(|t|, item.key.hash), H2(|t|, item.key.hash);
    match FindKey(t, item.key)
    case Some(i) => Kicked(t[i := Filled(item)], true, item)
    case None =>
      if t[h1].Vacant() then Kicked(t[h1 := Filled(item)], true, item)
      else if t[h2].Vacant() then Kicked(t[h2 := Filled(item)], true, item)
      else KickChain(t, h1, item, maxKick)
  }

  // -- The abstraction ----------------------------------------------------------------

  /** The slot holds a live entry. */
  predicate Live(t: Table, i: int) { 0 <= i < |t| && !t[i].Vacant() }

  predicate Holds(t: Table, i: int, k: Key) { Live(t, i) && t[i].Matches(k) }

  predicate BuriedAt(t: Table, i: int, k: Key) { 0 <= i < |t| && t[i].word.tombstone && t[i].Matches(k) }

  ghost predicate Placed(t: Table)
    requires SizeOk(|t|)
  {
    forall i :: Live(t, i) ==> AtHome(|t|, t[i].hash, i)
  }

  ghost predicate Unique(t: Table) {
    forall i, j :: Live(t, i) && Live(t, j) && t[i].Stored().key == t[j].Stored().key ==> i == j
  }

  /** A key that lives in its second slot has no tombstone of its own in the first. */
  ghost predicate NoGhosts(t: Table)
    requires SizeOk(|t|)
  {
    forall i :: Live(t, i) && i != H1(|t|, t[i].hash) ==> !BuriedAt(t, H1(|t|, t[i].hash), t[i].Stored().key)
  }

  /** Enough for the array to stand for a map.  The lock bits do not matter. */
  ghost predicate Tidy(t: Table) { SizeOk(|t|) && Placed(t) && Unique(t) }

  ghost predicate Good(t: Table) { Tidy(t) && NoGhosts(t) }

  ghost predicate Unlocked(t: Table) {
    forall i :: 0 <= i < |t| ==> !t[i].word.locked
  }

  ghost function LiveKeys(t: Table): set<Key> {
    set i | 0 <= i < |t| && Live(t, i) :: t[i].Stored().key
  }

  /** The finite map that a bucket array stands for. */
  ghost function Contents(t: Table): map<Key, Entry>
    requires SizeOk(|t|)
  {
    map k | k in LiveKeys(t) :: var h1 := H1(|t|, k.hash);
      if Holds(t, h1, k) then t[h1].Stored().entry else t[H2(|t|, k.hash)].Stored().entry
  }

  /** A map is the contents of a table if every live slot is in it and nothing else is. */
  ghost predicate Describes(m: map<Key, Entry>, t: Table) {
    && (forall i :: Live(t, i) ==> t[i].Stored().key in m && m[t[i].Stored().key] == t[i].Stored().entry)
    && (forall k :: k in m ==> exists i :: Holds(t, i, k))
  }

  lemma ContentsDescribes(t: Table)
    requires Tidy(t)
    ensures Describes(Contents(t), t)
  {
    forall i | Live(t, i)
      ensures var it := t[i].Stored(); it.key in Contents(t) && Contents(t)[it.key] == it.entry
    {
      var it := t[i].Stored();
      assert it.key in LiveKeys(t);
      var h1 := H1(|t|, it.key.hash);
      if Holds(t, h1, it.key) {
        assert t[h1].Stored().key == it.key;
      }
    }
    forall k | k in Contents(t) ensures exists i :: Holds(t, i, k) {
      var i :| 0 <= i < |t| && Live(t, i) && t[i].Stored().key == k;
      assert Holds(t, i, k);
    }
  }

  lemma DescribedContents(m: map<Key, Entry>, t: Table)
    requires Tidy(t) && Describes(m, t)
    ensures m == Contents(t)
  {
    ContentsDescribes(t);
    forall k | k in m ensures k in Contents(t) && Contents(t)[k] == m[k] {
      var i :| Holds(t, i, k);
      assert t[i].Stored().key == k;
    }
    forall k | k in Contents(t) ensures k in m {
      var i :| Holds(t, i, k);
      assert t[i].Stored().key == k;
    }
  }

  /** What the slot i takes out of the map when it is overwritten. */
  ghost function Occupant(t: Table, i: nat): set<Key>
    requires i < |t|
  {
    if Live(t, i) then {t[i].Stored().key} else {}
  }

  /** Writing an item into one of its two slots: the occupant goes, the item comes. */
  lemma PutSlot(t: Table, i: nat, item: Item)
    requires Tidy(t) && i < |t| && AtHome(|t|, item.key.hash, i) && item.key.hash != 0
    requires forall j :: Holds(t, j, item.key) ==> j == i
    ensures var t' := t[i := Filled(item)];
            Tidy(t') && Contents(t') == (Contents(t) - Occupant(t, i))[item.key := item.entry]
  {
    PutSlotTidy(t, i, item);
    PutSlotDescribes(t, i, item);
    DescribedContents((Contents(t) - Occupant(t, i))[item.key := item.entry], t[i := Filled(item)]);
  }

  lemma PutSlotDescribes(t: Table, i: nat, item: Item)
    requires Tidy(t) && i < |t| && item.key.hash != 0
    requires forall j :: Holds(t, j, item.key) ==> j == i
    ensures Describes((Contents(t) - Occupant(t, i))[item.key := item.entry], t[i := Filled(item)])
  {
    var t' := t[i := Filled(item)];
    ContentsDescribes(t);
    var m := (Contents(t) - Occupant(t, i))[item.key := item.entry];
    forall j | Live(t', j)
      ensures t'[j].Stored().key in m && m[t'[j].Stored().key] == t'[j].Stored().entry
    {
      if j != i {
        assert Live(t, j) && !Holds(t, j, item.key);
      }
    }
    forall k | k in m ensures exists j :: Holds(t', j, k) {
      if k == item.key {
        assert Holds(t', i, k);
      } else {
        var j :| Holds(t, j, k);
        assert Holds(t', j, k);
      }
    }
  }

  /** No ghost comes about exactly if the item is not put behind its own tombstone. */
  lemma PutSlotGood(t: Table, i: nat, item: Item)
    requires Good(t) && i < |t| && item.key.hash != 0
    ensures NoGhosts(t[i := Filled(item)])
       <==> (i != H1(|t|, item.key.hash) ==> !BuriedAt(t, H1(|t|, item.key.hash), item.key))
  {
    var t', h1 := t[i := Filled(item)], H1(|t|, item.key.hash);
    assert Live(t', i) && t'[i].Stored().key == item.key;
    forall j | Live(t', j) && j != i && j != H1(|t|, t'[j].hash)
      ensures !BuriedAt(t', H1(|t|, t'[j].hash), t'[j].Stored().key)
    {
      assert Live(t, j) && t'[j] == t[j];
    }
    if NoGhosts(t') && i != h1 {
      assert !BuriedAt(t', h1, item.key);
    }
  }

  lemma PutSlotTidy(t: Table, i: nat, item: Item)
    requires Tidy(t) && i < |t| && AtHome(|t|, item.key.hash, i) && item.key.hash != 0
    requires forall j :: Holds(t, j, item.key) ==> j == i
    ensures Tidy(t[i := Filled(item)])
  {
    var t' := t[i := Filled(item)];
    forall j | Live(t', j)
      ensures AtHome(|t'|, t'[j].hash, j)
      ensures j != i ==> Live(t, j) && t'[j] == t[j]
    {
    }
    forall a, b | Live(t', a) && Live(t', b) && t'[a].Stored().key == t'[b].Stored().key ensures a == b {
      if a != i && b == i {
        assert Holds(t, a, item.key);
      } else if a == i && b != i {
        assert Holds(t, b, item.key);
      }
    }
  }

  // -- Lookup and removal -------------------------------------------------------------------

  lemma FindKeyHolds(t: Table, k: Key)
    requires Tidy(t) && k.hash != 0
    ensures match FindKey(t, k)
            case Some(i) => Holds(t, i, k) && forall j :: Holds(t, j, k) ==> j == i
            case None => forall j :: !Holds(t, j, k)
  {
    forall j | Holds(t, j, k)
      ensures FindKey(t, k) == Some(j)
    {
      assert AtHome(|t|, k.hash, j);
      var h1 := H1(|t|, k.hash);
      if Holds(t, h1, k) {
        assert t[h1].Stored().key == t[j].Stored().key;
      }
    }
  }

  lemma InContents(t: Table, k: Key)
    requires Tidy(t)
    ensures k in Contents(t) <==> exists i :: Holds(t, i, k)
    ensures k in Contents(t) ==> k.hash != 0
    ensures forall i :: Holds(t, i, k) ==> k in Contents(t) && Contents(t)[k] == t[i].Stored().entry
  {
    ContentsDescribes(t);
    forall i | Holds(t, i, k) ensures k in Contents(t) && Contents(t)[k] == t[i].Stored().entry {
      assert Live(t, i) && t[i].Stored().key == k;
    }
  }

  function MapGet(m: map<Key, Entry>, k: Key): Option<Entry> {
    if k in m then Some(m[k]) else None
  }

  /** `lookup` is map lookup. */
  lemma LookupIsMapLookup(t: Table, k: Key)
    requires Tidy(t) && k.hash != 0
    ensures Lookup(t, k) == MapGet(Contents(t), k)
  {
    FindKeyHolds(t, k);
    InContents(t, k);
  }

  /** The key has the hash 0, which marks empty buckets, and one of its slots is empty and carries
      its digest. */
  predicate ShowsZeroKey(t: Table, k: Key)
    requires SizeOk(|t|)
  {
    && k.hash == 0
    && (|| (t[H1(|t|, 0)].IsEmpty() && t[H1(|t|, 0)].digest == k.digest)
        || (t[H2(|t|, 0)].IsEmpty() && t[H2(|t|, 0)].digest == k.digest))
  }

  /** `lookup` does not reject the hash 0: such a key is reported as present exactly if one of its
      slots is empty and carries its digest. */
  lemma LookupZeroHashIff(t: Table, digest: Digest)
    requires Good(t)
    ensures var k := Key(0, digest);
            (Lookup(t, k) == MapGet(Contents(t), k) <==> !ShowsZeroKey(t, k))
  {
    InContents(t, Key(0, digest));
  }

  lemma ZeroHashFoundInNewTable(n: nat)
    requires SizeOk(n)
    ensures Lookup(NewTable(n), Key(0, Zeros(16))) == Some(Entry(Zeros(32), Inline))
  {
  }

  /** `delete` removes the key from the map and says whether it was there; a key with hash 0 it also
      reports as deleted if an empty slot carries its digest, which it then buries. */
  lemma DeleteIsRemoval(t: Table, k: Key)
    requires Good(t)
    ensures var (t', found) := Delete(t, k);
            && |t'| == |t| && Good(t') && Contents(t') == Contents(t) - {k}
            && (found <==> k in Contents(t) || ShowsZeroKey(t, k))
  {
    InContents(t, k);
    if k.hash != 0 {
      FindKeyHolds(t, k);
    }
    match FindKey(t, k) {
      case None =>
        assert Contents(t) - {k} == Contents(t);
      case Some(i) =>
        BuryGood(t, i, k);
        BuryDescribes(t, i, k);
        DescribedContents(Contents(t) - {k}, Delete(t, k).0);
    }
  }

  lemma BuryGood(t: Table, i: nat, k: Key)
    requires Good(t) && i < |t| && t[i].Matches(k)
    requires k.hash != 0 ==> Holds(t, i, k) && forall j :: Holds(t, j, k) ==> j == i
    ensures Good(t[i := t[i].MarkTombstone()])
  {
    var t' := t[i := t[i].MarkTombstone()];
    forall j | Live(t', j) ensures Live(t, j) && t'[j] == t[j] && t'[j].Stored().key != k {
      assert !Holds(t, j, k) || j == i;
    }
  }

  lemma BuryDescribes(t: Table, i: nat, k: Key)
    requires Good(t) && i < |t| && t[i].Matches(k)
    requires k.hash != 0 ==> Holds(t, i, k) && forall j :: Holds(t, j, k) ==> j == i
    ensures Describes(Contents(t) - {k}, t[i := t[i].MarkTombstone()])
  {
    var t' := t[i := t[i].MarkTombstone()];
    ContentsDescribes(t);
    forall j | Live(t', j)
      ensures t'[j].Stored().key in Contents(t) - {k} && Contents(t)[t'[j].Stored().key] == t'[j].Stored().entry
    {
      assert Live(t, j) && (Holds(t, j, k) ==> j == i);
    }
    forall k' | k' in Contents(t) && k' != k ensures exists j :: Holds(t', j, k') {
      var j :| Holds(t, j, k');
      assert Holds(t', j, k');
    }
  }

  // -- Insertion -----------------------------------------------------------------------------

  /** An item in hand that is about to displace the occupant of slot i. */
  ghost predicate InHand(t: Table, i: nat, cur: Item)
    requires SizeOk(|t|)
  {
    && cur.key.hash != 0
    && AtHome(|t|, cur.key.hash, i)
    && (forall j :: !Holds(t, j, cur.key))
    && (i != H1(|t|, cur.key.hash) ==> !BuriedAt(t, H1(|t|, cur.key.hash), cur.key))
  }

  /** One displacement: the map and the item in hand together stay the same. */
  lemma KickStep(t: Table, i: nat, cur: Item)
    requires Good(t) && InHand(t, i, cur) && Live(t, i)
    ensures var t', occ := t[i := Filled(cur)], t[i].Stored();
            && Good(t') && InHand(t', Alternate(|t|, occ.key.hash, i), occ) && occ.key !in Contents(t')
            && Contents(t')[occ.key := occ.entry] == Contents(t)[cur.key := cur.entry]
  {
    var occ := t[i].Stored();
    PutSlot(t, i, cur);
    PutSlotGood(t, i, cur);
    KickHand(t, i, cur);
    assert Holds(t, i, occ.key) && !Holds(t, i, cur.key);
    InContents(t, occ.key);
    Exchange(Contents(t), occ, cur);
  }

  lemma KickHand(t: Table, i: nat, cur: Item)
    requires Good(t) && InHand(t, i, cur) && Live(t, i)
    ensures InHand(t[i := Filled(cur)], Alternate(|t|, t[i].hash, i), t[i].Stored())
  {
    var t', occ := t[i := Filled(cur)], t[i].Stored();
    assert AtHome(|t|, occ.key.hash, i);
    assert !Holds(t, i, cur.key);
    forall j | Holds(t', j, occ.key) ensures false {
      assert j != i && Live(t, j);
    }
  }

  lemma Exchange(m: map<Key, Entry>, occ: Item, cur: Item)
    requires occ.key in m && m[occ.key] == occ.entry && cur.key != occ.key
    ensures (m - {occ.key})[cur.key := cur.entry][occ.key := occ.entry] == m[cur.key := cur.entry]
  {
  }

  /** The outcome of an insertion of `cur` into a table with contents m: the new item is in
      the map and nothing is lost, or exactly the item left in hand is missing. */
  ghost predicate Conserves(m: map<Key, Entry>, cur: Item, r: Kicked) {
    && Good(r.table)
    && (r.ok ==> Contents(r.table) == m[cur.key := cur.entry])
    && (!r.ok ==> && r.hand.key !in Contents(r.table)
                  && Contents(r.table)[r.hand.key := r.hand.entry] == m[cur.key := cur.entry])
  }

  lemma PutVacant(t: Table, i: nat, item: Item)
    requires Good(t) && InHand(t, i, item) && t[i].Vacant()
    ensures Good(t[i := Filled(item)])
    ensures Contents(t[i := Filled(item)]) == Contents(t)[item.key := item.entry]
  {
    PutSlot(t, i, item);
    PutSlotGood(t, i, item);
    assert Contents(t) - Occupant(t, i) == Contents(t);
  }

  /** A displacement chain, however long and whatever cycles it runs through, places the new
      item and loses nothing; if it gives up, exactly the item in hand is missing. */
  lemma {:induction false} KickChainConserves(t: Table, i: nat, cur: Item, kicks: nat)
    requires Good(t) && InHand(t, i, cur) && Live(t, i)
    ensures Conserves(Contents(t), cur, KickChain(t, i, cur, kicks))
    decreases kicks
  {
    if kicks == 0 {
      InContents(t, cur.key);
    } else {
      var t', occ := t[i := Filled(cur)], t[i].Stored();
      var alt := Alternate(|t|, occ.key.hash, i);
      KickStep(t, i, cur);
      if t'[alt].Vacant() {
        PutVacant(t', alt, occ);
      } else {
        KickChainConserves(t', alt, occ, kicks - 1);
      }
    }
  }

  /** `insert` is map update; if the table is full, it is map update less one entry. */
  lemma InsertConserves(t: Table, item: Item, maxKick: nat)
    requires Good(t) && item.key.hash != 0
    ensures Conserves(Contents(t), item, InsertRaw(t, item, maxKick))
    ensures !InsertRaw(t, item, maxKick).ok ==> item.key !in Contents(t)
  {
    FindKeyHolds(t, item.key);
    InContents(t, item.key);
    var h1, h2 := H1(|t|, item.key.hash), H2(|t|, item.key.hash);
    match FindKey(t, item.key) {
      case Some(i) =>
        Overwrite(t, i, item);
      case None =>
        if t[h1].Vacant() {
          PutVacant(t, h1, item);
        } else if t[h2].Vacant() {
          PutVacant(t, h2, item);
        } else {
          KickChainConserves(t, h1, item, maxKick);
        }
    }
  }

  /** An insertion locks nothing: a slot that it changes is unlocked afterwards. */
  lemma {:induction false} KickChainUnlocks(t: Table, i: nat, cur: Item, kicks: nat)
    requires SizeOk(|t|) && i < |t|
    ensures Unlocks(t, KickChain(t, i, cur, kicks).table)
    decreases kicks
  {
    if kicks == 0 {
    } else {
      var t', occ := t[i := Filled(cur)], t[i].Stored();
      var alt := Alternate(|t|, occ.key.hash, i);
      if !t'[alt].Vacant() {
        KickChainUnlocks(t', alt, occ, kicks - 1);
      }
    }
  }

  ghost predicate Unlocks(t: Table, t': Table) {
    |t'| == |t| && forall i :: 0 <= i < |t| ==> t'[i] == t[i] || !t'[i].word.locked
  }

  lemma InsertUnlocks(t: Table, item: Item, maxKick: nat)
    requires SizeOk(|t|)
    ensures Unlocks(t, InsertRaw(t, item, maxKick).table)
  {
    KickChainUnlocks(t, H1(|t|, item.key.hash), item, maxKick);
  }

  lemma Overwrite(t: Table, i: nat, item: Item)
    requires Good(t) && Holds(t, i, item.key) && item.key.hash != 0
    ensures Good(t[i := Filled(item)])
    ensures Contents(t[i := Filled(item)]) == Contents(t)[item.key := item.entry]
  {
    assert AtHome(|t|, t[i].hash, i);
    forall j | Holds(t, j, item.key) ensures j == i {
      assert t[j].Stored().key == t[i].Stored().key;
    }
    PutSlot(t, i, item);
    PutSlotGood(t, i, item);
    assert Occupant(t, i) == {item.key};
  }

  /** Failure conservation: the map keeps its size and loses exactly one of the old entries
      and the new one; every survivor keeps its body and mode. */
  lemma TableFullLosesOne(t: Table, item: Item, maxKick: nat)
    requires Good(t) && item.key.hash != 0 && !InsertRaw(t, item, maxKick).ok
    ensures var r := InsertRaw(t, item, maxKick);
            var all := Contents(t)[item.key := item.entry];
            && r.hand.key in all && all[r.hand.key] == r.hand.entry
            && Contents(r.table) == all - {r.hand.key}
            && |Contents(r.table)| == |Contents(t)|
  {
    InsertConserves(t, item, maxKick);
    var r := InsertRaw(t, item, maxKick);
    OneOut(Contents(t), item, Contents(r.table), r.hand);
  }

  /** If one item more makes the same map of both, they differ by the exchange of the two. */
  lemma OneOut(m: map<Key, Entry>, item: Item, m': map<Key, Entry>, hand: Item)
    requires item.key !in m && hand.key !in m'
    requires m'[hand.key := hand.entry] == m[item.key := item.entry]
    ensures var all := m[item.key := item.entry];
            && hand.key in all && all[hand.key] == hand.entry && m' == all - {hand.key} && |m'| == |m|
            && (m' == m <==> hand.key == item.key)
  {
    var all := m[item.key := item.entry];
    assert hand.key in m'[hand.key := hand.entry];
    assert m' == all - {hand.key} && m == all - {item.key};
    assert m'.Keys == all.Keys - {hand.key} && m.Keys == all.Keys - {item.key};
  }

  lemma TwoSlots(hash: U64)
    requires hash % 2 == 0
    ensures SizeOk(2) && H1(2, hash) == 0 && H2(2, hash) == 1
  {
    assert IsPowerOfTwo(1);
  }

  /** Two keys with even hashes fill a table of two buckets. */
  lemma TwoEntries(a: Item, b: Item)
    requires a.key.hash != 0 && b.key.hash != 0 && a.key.hash % 2 == 0 && b.key.hash % 2 == 0 && a.key != b.key
    ensures SizeOk(2)
    ensures var t := InsertRaw(InsertRaw(NewTable(2), a, 1).table, b, 1).table;
            && t == [Filled(a), Filled(b)] && Good(t)
            && Contents(t) == map[a.key := a.entry, b.key := b.entry]
  {
    TwoSlots(a.key.hash);
    TwoSlots(b.key.hash);
    var t0 := NewTable(2);
    var t1 := InsertRaw(t0, a, 1).table;
    var t := InsertRaw(t1, b, 1).table;
    assert t1 == [Filled(a), EMPTY_BUCKET];
    assert t == [Filled(a), Filled(b)];
    NewTableGood(2);
    InsertConserves(t0, a, 1);
    InsertConserves(t1, b, 1);
  }

  /** The lost entry need not be the new one: in a table of two buckets with one displacement allowed, a third key with an
      even hash is refused and yet has taken the place of the first. */
  lemma OldEntryLost(a: Item, b: Item, c: Item)
    requires a.key.hash != 0 && b.key.hash != 0 && c.key.hash != 0
    requires a.key.hash % 2 == 0 && b.key.hash % 2 == 0 && c.key.hash % 2 == 0
    requires a.key != b.key && a.key != c.key && b.key != c.key
    ensures SizeOk(2)
    ensures var t := InsertRaw(InsertRaw(NewTable(2), a, 1).table, b, 1).table;
            var r := InsertRaw(t, c, 1);
            && Good(t) && !r.ok && r.hand == a
            && a.key in Contents(t) && c.key !in Contents(t)
            && a.key !in Contents(r.table) && c.key in Contents(r.table)
  {
    TwoSlots(a.key.hash);
    TwoSlots(b.key.hash);
    TwoSlots(c.key.hash);
    var t := InsertRaw(InsertRaw(NewTable(2), a, 1).table, b, 1).table;
    TwoEntries(a, b);
    assert KickChain(t[0 := Filled(c)], 1, a, 0) == Kicked(t[0 := Filled(c)], false, a);
    assert InsertRaw(t, c, 1) == Kicked(t[0 := Filled(c)], false, a);
    TableFullLosesOne(t, c, 1);
  }

  // -- Fast reads ------------------------------------------------------------------------------

  /** `lookup_lock_free`: looks at the lock bit but not at the tombstone bit.  (Its further
      reduction of the indices modulo the table length does nothing.) */
  function LookupLockFree(t: Table, k: Key): Option<Entry>
    requires SizeOk(|t|)
  {
    var b1, b2 := t[H1(|t|, k.hash)], t[H2(|t|, k.hash)];
    if !b1.word.locked && b1.Matches(k) then Some(b1.Stored().entry)
    else if !b2.word.locked && b2.Matches(k) then Some(b2.Stored().entry)
    else None
  }

  /** `get_fast`: like `lookup_lock_free`, but yields no bytes for an extent. */
  function GetFast(t: Table, k: Key): Option<(seq<Byte>, Mode)>
    requires SizeOk(|t|)
  {
    var r1 := TryReadFast(t, k, H1(|t|, k.hash));
    if r1.Some? then r1 else TryReadFast(t, k, H2(|t|, k.hash))
  }

  function TryReadFast(t: Table, k: Key, i: nat): Option<(seq<Byte>, Mode)>
    requires i < |t|
  {
    var b := t[i];
    if b.word.locked || !b.Matches(k) then None
    else if b.word.mode == Inline then Some((b.body, Inline))
    else Some(([], Extent))
  }

  /** Which of its slots carry a key: for a key in the map, the first slot that matches is the
      live one; for any other key, only tombstones match. */
  lemma Matching(t: Table, k: Key)
    requires Good(t) && k.hash != 0
    ensures var h1, h2 := H1(|t|, k.hash), H2(|t|, k.hash);
            if k in Contents(t) then
              if t[h1].Matches(k) then Contents(t)[k] == t[h1].Stored().entry
              else t[h2].Matches(k) && Contents(t)[k] == t[h2].Stored().entry
            else
              && (t[h1].Matches(k) <==> BuriedAt(t, h1, k))
              && (t[h2].Matches(k) <==> BuriedAt(t, h2, k))
  {
    var h1, h2 := H1(|t|, k.hash), H2(|t|, k.hash);
    InContents(t, k);
    if k in Contents(t) {
      var i :| Holds(t, i, k);
      assert AtHome(|t|, t[i].hash, i);
      assert i != h1 ==> !BuriedAt(t, h1, t[i].Stored().key);
    } else {
      assert !Holds(t, h1, k) && !Holds(t, h2, k);
    }
  }

  /** The reads that skip the tombstone test agree with `lookup` on a key exactly if the key is
      in the map, or none of its slots still carries its tombstone. */
  lemma FastReadsAgreeIff(t: Table, k: Key)
    requires Good(t) && Unlocked(t) && k.hash != 0
    ensures LookupLockFree(t, k) == Lookup(t, k)
       <==> (|| k in Contents(t)
             || (!BuriedAt(t, H1(|t|, k.hash), k) && !BuriedAt(t, H2(|t|, k.hash), k)))
  {
    LookupIsMapLookup(t, k);
    Matching(t, k);
  }

  /** It can fail: a key that was inserted and deleted again is still returned. */
  lemma DeletedKeyStillRead(n: nat, item: Item, maxKick: nat)
    requires SizeOk(n) && item.key.hash != 0
    ensures var t := Delete(InsertRaw(NewTable(n), item, maxKick).table, item.key).0;
            && Good(t) && item.key !in Contents(t)
            && Lookup(t, item.key) == None && LookupLockFree(t, item.key) == Some(item.entry)
  {
    var h1, t0 := H1(n, item.key.hash), NewTable(n);
    var t1 := InsertRaw(t0, item, maxKick).table;
    NewTableGood(n);
    InsertConserves(t0, item, maxKick);
    assert t1 == t0[h1 := Filled(item)];
    DeleteIsRemoval(t1, item.key);
    var t := Delete(t1, item.key).0;
    assert t[h1] == Filled(item).MarkTombstone();
    LookupIsMapLookup(t, item.key);
  }

  /** The tombstone of a key in an unlocked slot. */
  predicate OpenGrave(t: Table, i: int, k: Key) { BuriedAt(t, i, k) && !t[i].word.locked }

  /** The key lives in an unlocked slot. */
  ghost predicate Readable(t: Table, k: Key) { exists i :: Holds(t, i, k) && !t[i].word.locked }

  /** What the reads that skip the tombstone test should find while some buckets are locked: the entry
      of the map if its bucket is not locked; otherwise an old entry of the key if an unlocked tombstone
      of it is left, the first slot first; and nothing if there is neither. */
  ghost function Visible(t: Table, k: Key): Option<Entry>
    requires SizeOk(|t|)
  {
    var h1, h2 := H1(|t|, k.hash), H2(|t|, k.hash);
    if Readable(t, k) then MapGet(Contents(t), k)
    else if OpenGrave(t, h1, k) then Some(t[h1].Stored().entry)
    else if OpenGrave(t, h2, k) then Some(t[h2].Stored().entry)
    else None
  }

  lemma LockFreeReads(t: Table, k: Key)
    requires Good(t) && k.hash != 0
    ensures Readable(t, k) ==> k in Contents(t)
    ensures LookupLockFree(t, k) == Visible(t, k)
  {
    var h1, h2 := H1(|t|, k.hash), H2(|t|, k.hash);
    InContents(t, k);
    if Readable(t, k) {
      var i :| Holds(t, i, k) && !t[i].word.locked;
      assert AtHome(|t|, t[i].hash, i);
      assert i != h1 ==> !BuriedAt(t, h1, t[i].Stored().key);
      assert Holds(t, h1, k) ==> t[h1].Stored().key == t[i].Stored().key;
    } else {
      assert t[h1].Matches(k) && !t[h1].word.locked ==> !Holds(t, h1, k);
      assert t[h2].Matches(k) && !t[h2].word.locked ==> !Holds(t, h2, k);
    }
  }

  /** `get_fast` finds a key exactly if it lives in an unlocked slot or has left a tombstone in one, and
      then returns the inline bytes stored there, or reports an extent. */
  lemma GetFastReads(t: Table, k: Key)
    requires Good(t) && k.hash != 0
    ensures GetFast(t, k) == None
       <==> !Readable(t, k) && !OpenGrave(t, H1(|t|, k.hash), k) && !OpenGrave(t, H2(|t|, k.hash), k)
    ensures match Visible(t, k)
            case None => GetFast(t, k) == None
            case Some(e) => GetFast(t, k) == Some(if e.mode == Inline then (e.body, Inline) else ([], Extent))
  {
    LockFreeReads(t, k);
  }

  /** For a key in the map, `get_fast` returns its inline bytes, or reports an extent; for another key
      it finds nothing exactly if no tombstone of it is left. */
  lemma GetFastOnLiveKey(t: Table, k: Key)
    requires Good(t) && Unlocked(t) && k.hash != 0
    ensures if k in Contents(t) then
              var e := Contents(t)[k];
              GetFast(t, k) == Some(if e.mode == Inline then (e.body, Inline) else ([], Extent))
            else
              GetFast(t, k) == None <==> !BuriedAt(t, H1(|t|, k.hash), k) && !BuriedAt(t, H2(|t|, k.hash), k)
  {
    InContents(t, k);
    GetFastReads(t, k);
  }

  /** A read that meets a lock can bring back a deleted value: k is deleted from its second slot, is put
      again and this time into its first, and while that slot is locked the read finds the tombstone. */
  lemma LockedKeyReadsDeleted(a: Item, k: Key, first: Entry, second: Entry, maxKick: nat)
    requires a.key.hash != 0 && k.hash != 0 && a.key.hash % 2 == 0 && k.hash % 2 == 0 && a.key != k
    ensures SizeOk(2)
    ensures var t0 := InsertRaw(InsertRaw(NewTable(2), a, 1).table, Item(k, first), 1).table;
            var t1 := InsertRaw(Delete(Delete(t0, k).0, a.key).0, Item(k, second), maxKick).table;
            var t := t1[0 := t1[0].(word := t1[0].word.(locked := true))];
            && Good(t1) && Contents(t1) == map[k := second] && LookupLockFree(t1, k) == Some(second)
            && Good(t) && Contents(t) == map[k := second] && LookupLockFree(t, k) == Some(first)
  {
    TwoSlots(a.key.hash);
    TwoSlots(k.hash);
    TwoEntries(a, Item(k, first));
    var t0 := [Filled(a), Filled(Item(k, first))];
    var d1 := Delete(t0, k).0;
    assert d1 == [Filled(a), Filled(Item(k, first)).MarkTombstone()];
    var d2 := Delete(d1, a.key).0;
    assert d2 == [Filled(a).MarkTombstone(), Filled(Item(k, first)).MarkTombstone()];
    var t1 := InsertRaw(d2, Item(k, second), maxKick).table;
    assert t1 == [Filled(Item(k, second)), Filled(Item(k, first)).MarkTombstone()];
    OneLive(t1, k, second);
    var t := t1[0 := t1[0].(word := t1[0].word.(locked := true))];
    OneLive(t, k, second);
  }

  /** A table of two buckets whose only live entry is in the first home. */
  lemma OneLive(t: Table, k: Key, e: Entry)
    requires |t| == 2 && SizeOk(2) && k.hash != 0 && k.hash % 2 == 0
    requires Holds(t, 0, k) && t[0].Stored().entry == e && t[1].word.tombstone
    ensures Good(t) && Contents(t) == map[k := e]
  {
    TwoSlots(k.hash);
    assert Holds(t, 0, k) && !Live(t, 1);
    DescribedContents(map[k := e], t);
  }

  // -- Runs ----------------------------------------------------------------------------------

  datatype Op =
    | Insert(key: Key, value: seq<Byte>, mode: Mode)
    | InsertExtent(key: Key, offset: U64, length: U64)
    | Remove(key: Key)

  datatype Reply = Inserted | TableFull | InvalidKey | Removed(found: bool)

  function ItemOf(op: Op): Item
    requires !op.Remove?
  {
    match op
    case Insert(k, value, mode) => Item(k, Entry(PackBody(value, mode), mode))
    case InsertExtent(k, offset, length) => Item(k, Entry(ExtentBody(offset, length), Extent))
  }

  function Apply(t: Table, maxKick: nat, op: Op): (r: (Table, Reply))
    requires SizeOk(|t|)
    ensures |r.0| == |t|
  {
    if op.Remove? then
      var (t', found) := Delete(t, op.key);
      (t', Removed(found))
    else if op.key.hash == 0 then (t, InvalidKey)
    else
      var r := InsertRaw(t, ItemOf(op), maxKick);
      (r.table, if r.ok then Inserted else TableFull)
  }

  /** What an operation with this reply does to the map. */
  ghost predicate Effect(m: map<Key, Entry>, op: Op, reply: Reply, m': map<Key, Entry>) {
    match reply
    case InvalidKey => !op.Remove? && op.key.hash == 0 && m' == m
    case Inserted => !op.Remove? && m' == m[op.key := ItemOf(op).entry]
    case TableFull =>
      && !op.Remove? && op.key !in m && |m'| == |m|
      && exists victim :: victim in m[op.key := ItemOf(op).entry]
                       && m' == m[op.key := ItemOf(op).entry] - {victim}
    case Removed(found) =>
      && op.Remove? && m' == m - {op.key}
      && (op.key.hash != 0 ==> (found <==> op.key in m))
  }

  lemma ApplyEffect(t: Table, maxKick: nat, op: Op)
    requires Good(t)
    ensures var (t', reply) := Apply(t, maxKick, op);
            && Good(t') && Effect(Contents(t), op, reply, Contents(t'))
            && Unlocks(t, t')
  {
    if op.Remove? {
      DeleteIsRemoval(t, op.key);
    } else if op.key.hash != 0 {
      var item := ItemOf(op);
      InsertUnlocks(t, item, maxKick);
      InsertConserves(t, item, maxKick);
      if !InsertRaw(t, item, maxKick).ok {
        TableFullLosesOne(t, item, maxKick);
      }
    }
  }

  /** An extent reference that was inserted is looked up again, offset first and length after it. */
  lemma InsertExtentRoundTrip(t: Table, maxKick: nat, k: Key, offset: U64, length: U64)
    requires Good(t) && Apply(t, maxKick, InsertExtent(k, offset, length)).1 == Inserted
    ensures var r := Lookup(Apply(t, maxKick, InsertExtent(k, offset, length)).0, k);
            && r.Some? && r.value.mode == Extent
            && FromLe(r.value.body[0..8]) == offset && FromLe(r.value.body[8..16]) == length
            && r.value.body[16..] == Zeros(16)
  {
    ApplyEffect(t, maxKick, InsertExtent(k, offset, length));
    var t' := Apply(t, maxKick, InsertExtent(k, offset, length)).0;
    LookupIsMapLookup(t', k);
    var e := Lookup(t', k).value;
    ExtentRefRoundTrip(Bucket(Fresh(Extent), k.hash, k.digest, e.body), offset, length);
  }

  /** A value that was inserted is looked up again in its mode, byte by byte as far as the mode stores
      it, with zeros after it. */
  lemma InsertRoundTrip(t: Table, maxKick: nat, k: Key, value: seq<Byte>, mode: Mode)
    requires Good(t) && Apply(t, maxKick, Insert(k, value, mode)).1 == Inserted
    ensures var r := Lookup(Apply(t, maxKick, Insert(k, value, mode)).0, k);
            && r.Some? && r.value.mode == mode
            && forall i :: 0 <= i < 32 ==>
                 r.value.body[i] == if i < |value| && (mode == Inline || i < 16) then value[i] else 0
  {
    ApplyEffect(t, maxKick, Insert(k, value, mode));
    LookupIsMapLookup(Apply(t, maxKick, Insert(k, value, mode)).0, k);
    forall i | 0 <= i < 32
      ensures PackBody(value, mode)[i] == if i < |value| && (mode == Inline || i < 16) then value[i] else 0
    {
      PackBodyBytes(value, mode, i);
    }
  }

  /** The bucket array after a history of operations on a new table. */
  function After(n: nat, maxKick: nat, ops: seq<Op>): (t: Table)
    requires SizeOk(n)
    ensures |t| == n
  {
    if ops == [] then NewTable(n)
    else Apply(After(n, maxKick, ops[..|ops| - 1]), maxKick, ops[|ops| - 1]).0
  }

  lemma NewTableGood(n: nat)
    requires SizeOk(n)
    ensures Good(NewTable(n)) && Unlocked(NewTable(n)) && Contents(NewTable(n)) == map[]
  {
  }

  lemma {:induction false} RunGood(n: nat, maxKick: nat, ops: seq<Op>)
    requires SizeOk(n)
    ensures Good(After(n, maxKick, ops)) && Unlocked(After(n, maxKick, ops))
    decreases |ops|
  {
    if ops == [] {
      NewTableGood(n);
    } else {
      var before := ops[..|ops| - 1];
      RunGood(n, maxKick, before);
      ApplyEffect(After(n, maxKick, before), maxKick, ops[|ops| - 1]);
    }
  }

  /** The table refines the map over every history: from the empty map, each operation changes
      the map as its reply says, and lookups in between read the map. */
  lemma RunRefinesMap(n: nat, maxKick: nat, ops: seq<Op>, j: nat, k: Key)
    requires SizeOk(n) && j < |ops|
    ensures Contents(After(n, maxKick, [])) == map[]
    ensures var t, t' := After(n, maxKick, ops[..j]), After(n, maxKick, ops[..j + 1]);
            && Good(t) && Good(t')
            && Effect(Contents(t), ops[j], Apply(t, maxKick, ops[j]).1, Contents(t'))
            && (k.hash != 0 ==> Lookup(t', k) == MapGet(Contents(t'), k))
            && (k in Contents(t') ==> LookupLockFree(t', k) == Lookup(t', k))
  {
    NewTableGood(n);
    RunGood(n, maxKick, ops[..j]);
    RunGood(n, maxKick, ops[..j + 1]);
    ApplyEffect(After(n, maxKick, ops[..j]), maxKick, ops[j]);
    assert ops[..j + 1][..j] == ops[..j];
    var t' := After(n, maxKick, ops[..j + 1]);
    InContents(t', k);
    if k.hash != 0 {
      LookupIsMapLookup(t', k);
      FastReadsAgreeIff(t', k);
    }
  }
}
