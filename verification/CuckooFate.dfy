/** What an insertion into the cuckoo table will come to (src/engine/cuckoo.rs), foreseen from the
    table before it: whether it succeeds, and which entry is lost if it does not. */
module CuckooFate {
  import opened Wrappers
  import opened Bits
  import opened Bytes
  import opened LockWord
  import opened Layout
  import opened Cuckoo
  import opened Trails

  /** The other home of a key in a table of n buckets. */
  function Other(n: nat): Homes {
    (hash, i) => if SizeOk(n) then Alternate(n, hash, i) else i
  }

  lemma HomesOk(t: Table)
    requires SizeOk(|t|)
    ensures InTable(Other(|t|), |t|)
    ensures Placed(t) ==> Returns(Other(|t|), t)
  {
    if Placed(t) {
      forall i | Live(t, i) ensures Other(|t|)(t[i].hash, Other(|t|)(t[i].hash, i)) == i {
        assert AtHome(|t|, t[i].hash, i);
      }
    }
  }

  /** The chain of the engine is that many displacements. */
  lemma {:induction false} KickChainIsKicks(t: Table, i: nat, cur: Item, kicks: nat)
    requires SizeOk(|t|) && i < |t|
    ensures KickChain(t, i, cur, kicks) == Kicks(Other(|t|), On(t, i, cur), kicks).Result()
    decreases kicks
  {
    var c := On(t, i, cur);
    if kicks == 0 {
    } else {
      var d := KickOnce(Other(|t|), c);
      ChainStep(t, i, cur, kicks, d);
      NextKick(Other(|t|), c, 0, c, d);
      Later(Other(|t|), c, 1, kicks);
      if d.On? {
        KickChainIsKicks(d.table, d.slot, d.hand, kicks - 1);
      }
    }
  }

  lemma ChainStep(t: Table, i: nat, cur: Item, kicks: nat, d: Chain)
    requires SizeOk(|t|) && i < |t| && kicks > 0 && d == KickOnce(Other(|t|), On(t, i, cur))
    ensures |d.table| == |t| && (d.On? ==> d.slot < |t|)
    ensures KickChain(t, i, cur, kicks)
         == if d.Done? then d.Result() else KickChain(d.table, d.slot, d.hand, kicks - 1)
  {
    HomesOk(t);
  }

  // -- Fates -------------------------------------------------------------------------------------------

  /** Success, with the slot that is filled last, or the loss of an entry. */
  datatype Fate = Succeeds(at: nat) | Loses(victim: Item)

  /** What the chain has come to. */
  function FateOf(c: Chain): Fate { if c.Done? then Succeeds(c.at) else Loses(c.hand) }

  /** The trail of slot i. */
  ghost function TrailOf(t: Table, i: nat): (p: seq<nat>)
    requires SizeOk(|t|) && Live(t, i)
    ensures IsTrail(Other(|t|), t, p) && Slots(t, p) && p[0] == i
    ensures End(Other(|t|), t, p) in p || t[End(Other(|t|), t, p)].Vacant()
  {
    HomesOk(t);
    var p := Trail(Other(|t|), t, [i]);
    TrailSlots(Other(|t|), t, p);
    p
  }

  /** The trail runs into itself. */
  ghost predicate Closed(t: Table, i: nat)
    requires SizeOk(|t|) && Live(t, i)
  {
    End(Other(|t|), t, TrailOf(t, i)) in TrailOf(t, i)
  }

  /** Where it does. */
  ghost function Knot(t: Table, i: nat): (j: nat)
    requires SizeOk(|t|) && Live(t, i) && Closed(t, i)
    ensures j < |TrailOf(t, i)| && TrailOf(t, i)[j] == End(Other(|t|), t, TrailOf(t, i))
  {
    ClosesAt(Other(|t|), t, TrailOf(t, i))
  }

  /** The number of displacements in a lap: along the trail, and back from the knot to the start. */
  ghost function LapLength(t: Table, i: nat): nat
    requires SizeOk(|t|) && Live(t, i) && Closed(t, i)
  {
    |TrailOf(t, i)| + Knot(t, i) + 1
  }

  /** The table after a lap: the entries of the loop have moved on by one slot. */
  ghost function LapTable(t: Table, i: nat, item: Item): (s: Table)
    requires SizeOk(|t|) && Live(t, i) && Closed(t, i)
    ensures |s| == |t|
  {
    Back(t, TrailOf(t, i), item, Knot(t, i), Knot(t, i) + 1)
  }

  /** The lap ends at a vacant slot: the other home of the new item. */
  ghost predicate LapEndsVacant(t: Table, i: nat, item: Item)
    requires SizeOk(|t|) && Live(t, i) && Closed(t, i)
  {
    LapTable(t, i, item)[Alternate(|t|, item.key.hash, i)].Vacant()
  }

  /** Who is lost on the first lap, after at least one displacement: on the way out the entry of the
      slot last left, on the way back that of the slot to which the way leads. */
  ghost function Victim(t: Table, i: nat, kicks: nat): Item
    requires SizeOk(|t|) && Live(t, i) && 0 < kicks
    requires kicks <= |TrailOf(t, i)| || (Closed(t, i) && kicks < LapLength(t, i))
  {
    var p := TrailOf(t, i);
    if kicks <= |p| then t[p[kicks - 1]].Stored() else t[p[|p| + Knot(t, i) - kicks]].Stored()
  }

  /** What a chain that starts at slot i will come to.  Nothing is displaced to find out. */
  ghost function Foresee(t: Table, i: nat, item: Item, kicks: nat): Fate
    requires SizeOk(|t|) && Live(t, i)
    decreases kicks
  {
    if kicks == 0 then Loses(item)
    else if kicks < |TrailOf(t, i)| then Loses(Victim(t, i, kicks))
    else if !Closed(t, i) then Succeeds(End(Other(|t|), t, TrailOf(t, i)))
    else if kicks < LapLength(t, i) then Loses(Victim(t, i, kicks))
    else
      if LapEndsVacant(t, i, item) then Succeeds(Alternate(|t|, item.key.hash, i))
      else Foresee(LapTable(t, i, item), Alternate(|t|, item.key.hash, i), item, kicks - LapLength(t, i))
  }

  lemma OutFate(t: Table, i: nat, item: Item, kicks: nat)
    requires SizeOk(|t|) && Live(t, i) && 0 < kicks < |TrailOf(t, i)|
    ensures FateOf(Kicks(Other(|t|), On(t, i, item), kicks)) == Loses(Victim(t, i, kicks))
  {
    Forward(Other(|t|), t, TrailOf(t, i), item, kicks);
  }

  lemma OpenFate(t: Table, i: nat, item: Item, kicks: nat)
    requires SizeOk(|t|) && Live(t, i) && |TrailOf(t, i)| <= kicks && !Closed(t, i)
    ensures FateOf(Kicks(Other(|t|), On(t, i, item), kicks)) == Succeeds(End(Other(|t|), t, TrailOf(t, i)))
  {
    var p := TrailOf(t, i);
    IntoVacant(Other(|t|), t, p, item);
    Later(Other(|t|), On(t, i, item), |p|, kicks);
  }

  lemma BackFate(t: Table, i: nat, item: Item, kicks: nat)
    requires SizeOk(|t|) && Placed(t) && Live(t, i) && Closed(t, i) && item.key.hash != 0
    requires |TrailOf(t, i)| <= kicks < LapLength(t, i)
    ensures FateOf(Kicks(Other(|t|), On(t, i, item), kicks)) == Loses(Victim(t, i, kicks))
  {
    HandBack(t, i, item, kicks - |TrailOf(t, i)|);
  }

  lemma HandBack(t: Table, i: nat, item: Item, r: nat)
    requires SizeOk(|t|) && Placed(t) && Live(t, i) && Closed(t, i) && item.key.hash != 0 && r <= Knot(t, i)
    ensures var p, j := TrailOf(t, i), Knot(t, i);
            FateOf(Kicks(Other(|t|), On(t, i, item), |p| + r)) == Loses(t[p[if r == 0 then |p| - 1 else j - r]].Stored())
  {
    HomesOk(t);
    BackwardHand(Other(|t|), t, TrailOf(t, i), item, Knot(t, i), r);
  }

  lemma LapFate(t: Table, i: nat, item: Item, kicks: nat)
    requires SizeOk(|t|) && Placed(t) && Live(t, i) && Closed(t, i) && item.key.hash != 0
    requires LapLength(t, i) <= kicks
    ensures var s, alt := LapTable(t, i, item), Alternate(|t|, item.key.hash, i);
            if LapEndsVacant(t, i, item) then FateOf(Kicks(Other(|t|), On(t, i, item), kicks)) == Succeeds(alt)
            else Kicks(Other(|t|), On(t, i, item), kicks) == Kicks(Other(|t|), On(s, alt, item), kicks - LapLength(t, i))
  {
    HomesOk(t);
    LapChain(t, i, item);
    AfterLap(Other(|t|), t, TrailOf(t, i), item, Knot(t, i), kicks);
  }

  /** The chain at the end of a lap. */
  lemma LapChain(t: Table, i: nat, item: Item)
    requires SizeOk(|t|) && Placed(t) && Live(t, i) && Closed(t, i) && item.key.hash != 0
    requires InTable(Other(|t|), |t|) && Returns(Other(|t|), t)
    ensures Behind(Other(|t|), t, TrailOf(t, i), item, Knot(t, i), Knot(t, i) + 1)
         == On(LapTable(t, i, item), Alternate(|t|, item.key.hash, i), item)
  {
    Lap(Other(|t|), t, TrailOf(t, i), item, Knot(t, i));
  }

  /** After a lap that ends at an occupied slot, the table is good, has the same contents, and the item
      is in hand again. */
  lemma LapKeeps(t: Table, i: nat, item: Item)
    requires Good(t) && InHand(t, i, item) && Live(t, i) && Closed(t, i)
    requires !LapEndsVacant(t, i, item)
    ensures var s, alt := LapTable(t, i, item), Alternate(|t|, item.key.hash, i);
            Good(s) && InHand(s, alt, item) && Live(s, alt) && Contents(s) == Contents(t)
  {
    var s, n := LapTable(t, i, item), LapLength(t, i);
    LapFate(t, i, item, n);
    KickChainIsKicks(t, i, item, n);
    assert KickChain(t, i, item, n) == Kicked(s, false, item);
    KickChainConserves(t, i, item, n);
    InContents(t, item.key);
    InContents(s, item.key);
    OneOut(Contents(t), item, Contents(s), item);
    StartFilled(t, i, item);
  }

  lemma OneLap(t: Table, i: nat, item: Item) returns (s: Table, alt: nat)
    requires Good(t) && InHand(t, i, item) && Live(t, i) && Closed(t, i) && !LapEndsVacant(t, i, item)
    ensures s == LapTable(t, i, item) && alt == Alternate(|t|, item.key.hash, i)
    ensures Good(s) && InHand(s, alt, item) && Live(s, alt)
  {
    s, alt := LapTable(t, i, item), Alternate(|t|, item.key.hash, i);
    LapKeeps(t, i, item);
  }

  lemma StartFilled(t: Table, i: nat, item: Item)
    requires SizeOk(|t|) && Live(t, i) && Closed(t, i)
    ensures !LapTable(t, i, item)[i].word.tombstone
  {
    var p, j := TrailOf(t, i), Knot(t, i);
    assert LapTable(t, i, item)[p[0]] == Filled(Returned(t, p, item, j, j));
  }

  /** The chain comes to what was foreseen. */
  ghost predicate Foreseen(t: Table, i: nat, item: Item, kicks: nat) {
    && SizeOk(|t|) && Live(t, i)
    && Foresee(t, i, item, kicks) == FateOf(Kicks(Other(|t|), On(t, i, item), kicks))
  }

  lemma FirstLap(t: Table, i: nat, item: Item, kicks: nat)
    requires Good(t) && InHand(t, i, item) && Live(t, i)
    requires Closed(t, i) ==> kicks < LapLength(t, i)
    ensures Foreseen(t, i, item, kicks)
  {
    if kicks == 0 {
    } else if kicks < |TrailOf(t, i)| {
      OutFate(t, i, item, kicks);
    } else if !Closed(t, i) {
      OpenFate(t, i, item, kicks);
    } else {
      BackFate(t, i, item, kicks);
    }
  }

  lemma LastLap(t: Table, i: nat, item: Item, kicks: nat)
    requires SizeOk(|t|) && Placed(t) && Live(t, i) && Closed(t, i) && item.key.hash != 0
    requires LapLength(t, i) <= kicks && LapEndsVacant(t, i, item)
    ensures Foreseen(t, i, item, kicks)
  {
    LapFate(t, i, item, kicks);
  }

  lemma NextLap(t: Table, i: nat, item: Item, kicks: nat, s: Table, alt: nat)
    requires SizeOk(|t|) && Placed(t) && Live(t, i) && Closed(t, i) && item.key.hash != 0
    requires LapLength(t, i) <= kicks && !LapEndsVacant(t, i, item)
    requires s == LapTable(t, i, item) && alt == Alternate(|t|, item.key.hash, i)
    requires Foreseen(s, alt, item, kicks - LapLength(t, i))
    ensures Foreseen(t, i, item, kicks)
  {
    LapFate(t, i, item, kicks);
  }

  /** The chain comes to what was foreseen, whatever the number of displacements allowed. */
  lemma {:induction false} ChainForeseen(t: Table, i: nat, item: Item, kicks: nat)
    requires Good(t) && InHand(t, i, item) && Live(t, i)
    ensures Foreseen(t, i, item, kicks)
    decreases kicks, 1
  {
    if !Closed(t, i) || kicks < LapLength(t, i) {
      FirstLap(t, i, item, kicks);
    } else if LapEndsVacant(t, i, item) {
      LastLap(t, i, item, kicks);
    } else {
      LaterLaps(t, i, item, kicks);
    }
  }

  lemma {:induction false} LaterLaps(t: Table, i: nat, item: Item, kicks: nat)
    requires Good(t) && InHand(t, i, item) && Live(t, i)
    requires Closed(t, i) && LapLength(t, i) <= kicks && !LapEndsVacant(t, i, item)
    ensures Foreseen(t, i, item, kicks)
    decreases kicks, 0
  {
    var s, alt := OneLap(t, i, item);
    ChainForeseen(s, alt, item, kicks - LapLength(t, i));
    NextLap(t, i, item, kicks, s, alt);
  }

  // -- Insertions --------------------------------------------------------------------------------------

  /** Both homes of a new key are taken. */
  ghost predicate Crowded(t: Table, k: Key)
    requires SizeOk(|t|)
  {
    k !in Contents(t) && !t[H1(|t|, k.hash)].Vacant() && !t[H2(|t|, k.hash)].Vacant()
  }

  lemma CrowdedHand(t: Table, item: Item)
    requires Good(t) && item.key.hash != 0 && Crowded(t, item.key)
    ensures var h1 := H1(|t|, item.key.hash);
            && Live(t, h1) && InHand(t, h1, item)
            && forall maxKick :: InsertRaw(t, item, maxKick) == KickChain(t, h1, item, maxKick)
  {
    FindKeyHolds(t, item.key);
    InContents(t, item.key);
  }

  /** Exactly when an insertion succeeds: the key is there already, one of its homes is vacant, or the
      trail of the first leads to a vacant slot within the displacements allowed. */
  lemma InsertSucceedsIff(t: Table, item: Item, maxKick: nat)
    requires Good(t) && item.key.hash != 0
    ensures InsertRaw(t, item, maxKick).ok
       <==> !Crowded(t, item.key) || (Live(t, H1(|t|, item.key.hash))
                                      && Foresee(t, H1(|t|, item.key.hash), item, maxKick).Succeeds?)
  {
    if Crowded(t, item.key) {
      InsertForeseen(t, item, maxKick);
    } else {
      FindKeyHolds(t, item.key);
      InContents(t, item.key);
    }
  }

  /** A failed insertion loses the entry that was foreseen, and no other. */
  lemma InsertForeseen(t: Table, item: Item, maxKick: nat)
    requires Good(t) && item.key.hash != 0 && Crowded(t, item.key)
    ensures var h1 := H1(|t|, item.key.hash);
            var r := InsertRaw(t, item, maxKick);
            && Live(t, h1)
            && match Foresee(t, h1, item, maxKick)
               case Succeeds(_) => r.ok && Contents(r.table) == Contents(t)[item.key := item.entry]
               case Loses(v) => !r.ok && Contents(r.table) == Contents(t)[item.key := item.entry] - {v.key}
  {
    var h1 := H1(|t|, item.key.hash);
    CrowdedHand(t, item);
    ChainForeseen(t, h1, item, maxKick);
    KickChainIsKicks(t, h1, item, maxKick);
    InsertConserves(t, item, maxKick);
    if !InsertRaw(t, item, maxKick).ok {
      TableFullLosesOne(t, item, maxKick);
    }
  }

  /** The displacements allowed run out at the end of a lap, when the new item is in hand. */
  ghost predicate EvenLaps(t: Table, i: nat, item: Item, kicks: nat)
    requires SizeOk(|t|) && Live(t, i)
    decreases kicks
  {
    || kicks == 0
    || (&& Closed(t, i) && LapLength(t, i) <= kicks && !LapEndsVacant(t, i, item)
        && EvenLaps(LapTable(t, i, item), Alternate(|t|, item.key.hash, i), item, kicks - LapLength(t, i)))
  }

  /** If the chain fails, the victim is the new item exactly at the end of a lap. */
  ghost predicate OldUnlessEven(t: Table, i: nat, item: Item, kicks: nat) {
    && SizeOk(|t|) && Live(t, i)
    && (Foresee(t, i, item, kicks).Loses? ==>
          (Foresee(t, i, item, kicks).victim.key == item.key <==> EvenLaps(t, i, item, kicks)))
  }

  lemma {:induction false} VictimIsOld(t: Table, i: nat, item: Item, kicks: nat)
    requires Good(t) && InHand(t, i, item) && Live(t, i)
    ensures OldUnlessEven(t, i, item, kicks)
    decreases kicks, 1
  {
    if !Closed(t, i) || kicks < LapLength(t, i) {
      FirstVictimIsOld(t, i, item, kicks);
    } else if LapEndsVacant(t, i, item) {
      LastVictim(t, i, item, kicks);
    } else {
      LaterVictim(t, i, item, kicks);
    }
  }

  lemma {:induction false} LaterVictim(t: Table, i: nat, item: Item, kicks: nat)
    requires Good(t) && InHand(t, i, item) && Live(t, i)
    requires Closed(t, i) && LapLength(t, i) <= kicks && !LapEndsVacant(t, i, item)
    ensures OldUnlessEven(t, i, item, kicks)
    decreases kicks, 0
  {
    var s, alt := OneLap(t, i, item);
    VictimIsOld(s, alt, item, kicks - LapLength(t, i));
    NextVictim(t, i, item, kicks, s, alt);
  }

  lemma LastVictim(t: Table, i: nat, item: Item, kicks: nat)
    requires SizeOk(|t|) && Live(t, i) && Closed(t, i) && LapLength(t, i) <= kicks && LapEndsVacant(t, i, item)
    ensures OldUnlessEven(t, i, item, kicks)
  {
  }

  lemma NextVictim(t: Table, i: nat, item: Item, kicks: nat, s: Table, alt: nat)
    requires SizeOk(|t|) && Live(t, i) && Closed(t, i) && LapLength(t, i) <= kicks && !LapEndsVacant(t, i, item)
    requires s == LapTable(t, i, item) && alt == Alternate(|t|, item.key.hash, i)
    requires OldUnlessEven(s, alt, item, kicks - LapLength(t, i))
    ensures OldUnlessEven(t, i, item, kicks)
  {
  }

  lemma FirstVictimIsOld(t: Table, i: nat, item: Item, kicks: nat)
    requires SizeOk(|t|) && InHand(t, i, item) && Live(t, i)
    requires !Closed(t, i) || kicks < LapLength(t, i)
    ensures OldUnlessEven(t, i, item, kicks)
  {
    if kicks == 0 {
    } else if kicks < |TrailOf(t, i)| || Closed(t, i) {
      VictimHeld(t, i, kicks);
    }
  }

  /** The victim of the first lap is an entry of the table. */
  lemma VictimHeld(t: Table, i: nat, kicks: nat)
    requires SizeOk(|t|) && Live(t, i) && 0 < kicks
    requires kicks <= |TrailOf(t, i)| || (Closed(t, i) && kicks < LapLength(t, i))
    ensures exists k :: Holds(t, k, Victim(t, i, kicks).key)
  {
    var p := TrailOf(t, i);
    var k := if kicks <= |p| then p[kicks - 1] else p[|p| + Knot(t, i) - kicks];
    assert Live(t, k);
    assert Holds(t, k, Victim(t, i, kicks).key);
  }

  /** A failed insertion leaves the map as it was exactly if it stops at the end of a lap: before the
      first displacement, or when the chain has gone around and come back with the new item. */
  lemma FailureKeepsMapIff(t: Table, item: Item, maxKick: nat)
    requires Good(t) && item.key.hash != 0 && !InsertRaw(t, item, maxKick).ok
    ensures var h1 := H1(|t|, item.key.hash);
            && Live(t, h1)
            && (Contents(InsertRaw(t, item, maxKick).table) == Contents(t) <==> EvenLaps(t, h1, item, maxKick))
  {
    InsertSucceedsIff(t, item, maxKick);
    InsertForeseen(t, item, maxKick);
    CrowdedHand(t, item);
    var h1 := H1(|t|, item.key.hash);
    VictimIsOld(t, h1, item, maxKick);
    InsertConserves(t, item, maxKick);
    var r := InsertRaw(t, item, maxKick);
    OneOut(Contents(t), item, Contents(r.table), r.hand);
    var v := Foresee(t, h1, item, maxKick).victim;
    assert v.key == item.key ==> Contents(r.table) == Contents(t);
  }

  /** On the first lap: on an open trail every displacement loses an old entry; on a closed one every
      number of displacements but a full lap. */
  lemma FirstLapKeepsMapIff(t: Table, item: Item, maxKick: nat)
    requires Good(t) && item.key.hash != 0 && !InsertRaw(t, item, maxKick).ok
    ensures var h1 := H1(|t|, item.key.hash);
            && Live(t, h1)
            && (!Closed(t, h1) || maxKick <= LapLength(t, h1) ==>
                 (Contents(InsertRaw(t, item, maxKick).table) == Contents(t)
                  <==> maxKick == 0 || (Closed(t, h1) && maxKick == LapLength(t, h1))))
  {
    FailureKeepsMapIff(t, item, maxKick);
    InsertSucceedsIff(t, item, maxKick);
  }

  /** On an open trail an insertion succeeds exactly if the trail is not longer than the displacements
      allowed; on a closed one it cannot succeed within the first lap. */
  lemma TrailDecides(t: Table, item: Item, maxKick: nat)
    requires Good(t) && item.key.hash != 0 && Crowded(t, item.key)
    ensures var h1 := H1(|t|, item.key.hash);
            && Live(t, h1)
            && (!Closed(t, h1) ==> (InsertRaw(t, item, maxKick).ok <==> |TrailOf(t, h1)| <= maxKick))
            && (Closed(t, h1) && maxKick < LapLength(t, h1) ==> !InsertRaw(t, item, maxKick).ok)
  {
    InsertForeseen(t, item, maxKick);
  }
}
