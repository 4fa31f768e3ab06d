/** The client's own writer (src/client/write.rs), in Inline mode: a second implementation of
    the insertion, over a bucket slice that it overwrites itself. */
module ClientWriter {
  import opened Wrappers
  import opened Bytes
  import opened LockWord
  import opened Layout
  import opened Cuckoo

  const MAX_KICK: nat := 16

  datatype WriteResult = InsertedAt(bucketIdx: nat) | Full

  function InlineItem(key: Key, value: seq<Byte>): Item {
    Item(key, Entry(PackBody(value, Inline), Inline))
  }

  /** Direct placement: refused by a locked or occupied bucket. */
  function TryInsertAt(t: Table, key: Key, value: seq<Byte>, i: nat): (r: Option<Table>)
    requires i < |t|
    ensures r.Some? ==> |r.value| == |t|
  {
    if t[i].word.locked then None
    else if t[i].Vacant() then Some(t[i := Filled(InlineItem(key, value))])
    else None
  }

  /** The chain gives up on a locked bucket and on an occupant stored as an extent. */
  function ClientKick(t: Table, i: nat, key: Key, value: seq<Byte>, kicks: nat): (r: (Table, WriteResult))
    requires SizeOk(|t|) && i < |t|
    ensures |r.0| == |t|
    decreases kicks
  {
    if kicks == 0 || t[i].word.locked || t[i].word.mode == Extent then (t, Full)
    else
      var occ := t[i];
      var t' := t[i := Filled(InlineItem(key, value))];
      var alt := Alternate(|t|, occ.hash, i);
      var occKey := Key(occ.hash, occ.digest);
      if t'[alt].Vacant() then (t'[alt := Filled(InlineItem(occKey, occ.body))], InsertedAt(alt))
      else ClientKick(t', alt, occKey, occ.body, kicks - 1)
  }

  function ClientInsert(t: Table, key: Key, value: seq<Byte>): (r: (Table, WriteResult))
    requires SizeOk(|t|)
    ensures |r.0| == |t|
  {
    var h1, h2 := H1(|t|, key.hash), H2(|t|, key.hash);
    match TryInsertAt(t, key, value, h1)
    case Some(t') => (t', InsertedAt(h1))
    case None =>
      match TryInsertAt(t, key, value, h2)
      case Some(t') => (t', InsertedAt(h2))
      case None => ClientKick(t, h1, key, value, MAX_KICK)
  }

  // -- Locked buckets -------------------------------------------------------------------------

  /** On any table: a locked bucket changes only if the chain ends there, and then it was vacant. */
  lemma {:induction false} KickMeetsLock(t: Table, i: nat, key: Key, value: seq<Byte>, kicks: nat, l: nat)
    requires SizeOk(|t|) && i < |t| && l < |t| && t[l].word.locked
    ensures var (t', r) := ClientKick(t, i, key, value, kicks);
            if r == InsertedAt(l) then t[l].Vacant() && !t'[l].word.locked else t'[l] == t[l]
    decreases kicks
  {
    if kicks == 0 || t[i].word.locked || t[i].word.mode == Extent {
    } else {
      var occ, t' := t[i], t[i := Filled(InlineItem(key, value))];
      var alt := Alternate(|t|, occ.hash, i);
      if !t'[alt].Vacant() {
        KickMeetsLock(t', alt, Key(occ.hash, occ.digest), occ.body, kicks - 1, l);
      }
    }
  }

  /** A direct placement never touches a locked bucket, and a displacement chain never an occupied one;
      but the chain does not look at the lock of the vacant bucket at its end. */
  lemma InsertMeetsLock(t: Table, key: Key, value: seq<Byte>, l: nat)
    requires SizeOk(|t|) && l < |t| && t[l].word.locked
    ensures var (t', r) := ClientInsert(t, key, value);
            && (t'[l] != t[l] <==> r == InsertedAt(l))
            && (t'[l] != t[l] ==> && t[l].Vacant() && l != H1(|t|, key.hash)
                                  && !t[H1(|t|, key.hash)].word.locked && !t[H1(|t|, key.hash)].Vacant())
  {
    KickMeetsLock(t, H1(|t|, key.hash), key, value, MAX_KICK, l);
  }

  /** It does happen: in a table of two buckets, the first taken and the second empty but locked, a key
      with an even hash moves the occupant of the first into the locked one. */
  lemma LockedVacantOverwritten(a: Item, key: Key, value: seq<Byte>)
    requires a.key.hash != 0 && a.key.hash % 2 == 0 && key.hash % 2 == 0 && a.entry.mode == Inline
    ensures SizeOk(2)
    ensures var t := [Filled(a), EMPTY_BUCKET.(word := Fresh(Inline).(locked := true))];
            ClientInsert(t, key, value) == ([Filled(InlineItem(key, value)), Filled(a)], InsertedAt(1))
  {
    TwoSlots(a.key.hash);
    TwoSlots(key.hash);
    var t := [Filled(a), EMPTY_BUCKET.(word := Fresh(Inline).(locked := true))];
    RepackBody(a.entry.body);
    var t' := t[0 := Filled(InlineItem(key, value))];
    assert t'[1].Vacant() && t'[1 := Filled(a)] == [Filled(InlineItem(key, value)), Filled(a)];
  }

  // -- The two writers agree ------------------------------------------------------------------

  predicate PlainInline(t: Table) {
    forall i :: 0 <= i < |t| ==> !t[i].word.locked && (Live(t, i) ==> t[i].word.mode == Inline)
  }

  /** A body is already 32 bytes long. */
  lemma RepackBody(b: Body)
    ensures PackBody(b, Inline) == b
  {
    assert b[..32] == b && |Zeros(0)| == 0;
  }

  /** The chain comes to a slot whose occupant is stored as an extent. */
  predicate MeetsExtent(t: Table, i: nat, cur: Item, kicks: nat)
    requires SizeOk(|t|) && i < |t|
    decreases kicks
  {
    kicks > 0 &&
    (|| t[i].word.mode == Extent
     || var t', occ := t[i := Filled(cur)], t[i].Stored();
        var alt := Alternate(|t|, occ.key.hash, i);
        !t'[alt].Vacant() && MeetsExtent(t', alt, occ, kicks - 1))
  }

  /** On an unlocked table the client's chain and the engine's leave the same buckets and end alike,
      unless an extent is met: then the client gives up. */
  lemma {:induction false} KicksAgree(t: Table, i: nat, key: Key, value: seq<Byte>, kicks: nat)
    requires SizeOk(|t|) && Unlocked(t) && i < |t|
    ensures var c, e := ClientKick(t, i, key, value, kicks), KickChain(t, i, InlineItem(key, value), kicks);
            if MeetsExtent(t, i, InlineItem(key, value), kicks) then c.1 == Full
            else c.0 == e.table && (c.1.InsertedAt? <==> e.ok)
    decreases kicks
  {
    if kicks == 0 {
    } else {
      var occ := t[i];
      var t' := t[i := Filled(InlineItem(key, value))];
      var alt := Alternate(|t|, occ.hash, i);
      if occ.word.mode == Inline {
        RepackBody(occ.body);
        if !t'[alt].Vacant() {
          KicksAgree(t', alt, Key(occ.hash, occ.digest), occ.body, kicks - 1);
        }
      }
    }
  }

  lemma {:induction false} NoExtentMet(t: Table, i: nat, cur: Item, kicks: nat)
    requires SizeOk(|t|) && PlainInline(t) && Live(t, i) && cur.entry.mode == Inline
    ensures !MeetsExtent(t, i, cur, kicks)
    decreases kicks
  {
    if kicks == 0 {
    } else {
      var t', occ := t[i := Filled(cur)], t[i].Stored();
      var alt := Alternate(|t|, occ.key.hash, i);
      if !t'[alt].Vacant() {
        NoExtentMet(t', alt, occ, kicks - 1);
      }
    }
  }

  /** On an unlocked table of Inline entries, for a key that is not in it, the client's writer
      and the engine's `insert` with 16 kicks leave the same buckets and succeed or fail
      together. */
  lemma WritersAgree(t: Table, key: Key, value: seq<Byte>)
    requires SizeOk(|t|) && PlainInline(t) && key.hash != 0 && FindKey(t, key) == None
    ensures var c, (e, reply) := ClientInsert(t, key, value), Apply(t, MAX_KICK, Insert(key, value, Inline));
            c.0 == e && (c.1.InsertedAt? <==> reply == Inserted) && (c.1 == Full <==> reply == TableFull)
  {
    var h1, h2 := H1(|t|, key.hash), H2(|t|, key.hash);
    if !t[h1].Vacant() && !t[h2].Vacant() {
      NoExtentMet(t, h1, InlineItem(key, value), MAX_KICK);
      KicksAgree(t, h1, key, value, MAX_KICK);
    }
  }

  /** The premises are needed: with an extent in the first slot whose other slot is free, one
      displacement is enough for the engine while the client gives up and changes nothing. */
  lemma WritersPartOnExtents(t: Table, key: Key, value: seq<Byte>)
    requires SizeOk(|t|) && key.hash != 0 && FindKey(t, key) == None
    requires !t[H1(|t|, key.hash)].Vacant() && !t[H2(|t|, key.hash)].Vacant()
    requires t[H1(|t|, key.hash)].word.mode == Extent
    requires t[Alternate(|t|, t[H1(|t|, key.hash)].hash, H1(|t|, key.hash))].Vacant()
    ensures ClientInsert(t, key, value) == (t, Full)
    ensures Apply(t, MAX_KICK, Insert(key, value, Inline)).1 == Inserted
  {
    var h1 := H1(|t|, key.hash);
    var alt := Alternate(|t|, t[h1].hash, h1);
    assert alt != h1;
    assert t[h1 := Filled(InlineItem(key, value))][alt] == t[alt];
  }

  // -- The methods ----------------------------------------------------------------------------

  method WriteToBucket(buckets: array<Bucket>, key: Key, value: seq<Byte>, i: nat)
    requires i < buckets.Length
    modifies buckets
    ensures buckets[..] == old(buckets[..])[i := Filled(InlineItem(key, value))]
  {
    buckets[i] := Filled(InlineItem(key, value));
  }

  method InsertAt(buckets: array<Bucket>, key: Key, value: seq<Byte>, i: nat) returns (ok: bool)
    requires i < buckets.Length
    modifies buckets
    ensures var r := TryInsertAt(old(buckets[..]), key, value, i);
            ok == r.Some? && buckets[..] == (if r.Some? then r.value else old(buckets[..]))
  {
    var b := buckets[i];
    if b.word.locked {
      return false;
    }
    if b.Vacant() {
      WriteToBucket(buckets, key, value, i);
      return true;
    }
    return false;
  }

  method RunKicks(buckets: array<Bucket>, startKey: Key, startValue: seq<Byte>, start: nat) returns (r: WriteResult)
    requires SizeOk(buckets.Length) && start < buckets.Length
    modifies buckets
    ensures (buckets[..], r) == ClientKick(old(buckets[..]), start, startKey, startValue, MAX_KICK)
  {
    var key, value, idx: nat, kick := startKey, startValue, start, 0;
    while kick < MAX_KICK
      invariant kick <= MAX_KICK && idx < buckets.Length
      invariant ClientKick(buckets[..], idx, key, value, MAX_KICK - kick)
             == ClientKick(old(buckets[..]), start, startKey, startValue, MAX_KICK)
    {
      var occ := buckets[idx];
      if occ.word.locked {
        return Full;
      }
      if occ.word.mode == Extent {
        return Full;
      }
      WriteToBucket(buckets, key, value, idx);
      var alt := Alternate(buckets.Length, occ.hash, idx);
      if buckets[alt].Vacant() {
        WriteToBucket(buckets, Key(occ.hash, occ.digest), occ.body, alt);
        return InsertedAt(alt);
      }
      key, value, idx, kick := Key(occ.hash, occ.digest), occ.body, alt, kick + 1;
    }
    return Full;
  }

  method InsertKey(buckets: array<Bucket>, key: Key, value: seq<Byte>) returns (r: WriteResult)
    requires SizeOk(buckets.Length)
    modifies buckets
    ensures (buckets[..], r) == ClientInsert(old(buckets[..]), key, value)
  {
    var h1, h2 := H1(buckets.Length, key.hash), H2(buckets.Length, key.hash);
    var ok := InsertAt(buckets, key, value, h1);
    if ok {
      return InsertedAt(h1);
    }
    ok := InsertAt(buckets, key, value, h2);
    if ok {
      return InsertedAt(h2);
    }
    r := RunKicks(buckets, key, value, h1);
  }
}
