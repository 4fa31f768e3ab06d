/** Where a displacement chain goes (src/engine/cuckoo.rs, `kick_chain`), read off the table before
    the first displacement.

    The trail of a slot is the walk from the slot to the other home of its occupant, from there
    to the other home of that occupant, and so on, over the unchanged table.  It ends at a vacant
    slot, or it runs into itself.  In the first case the chain moves every entry of the trail one
    slot on.  In the second it moves the entries of the loop one slot on, walks back the way it
    came, putting the entries before the loop back into their places, and is left with the new
    item in hand; it then starts a second lap from the other home of the item.

    How the homes are computed does not matter here: `other(hash, i)` is the other home of a key
    that sits in slot i. */
module Trails {
  import opened Wrappers
  import opened Bits
  import opened Layout
  import opened Cuckoo

  type Homes = (U64, nat) -> nat

  ghost predicate InTable(other: Homes, n: nat) {
    forall hash: U64, i: nat :: i < n ==> other(hash, i) < n
  }

  /** From its other home, every entry would come back. */
  ghost predicate Returns(other: Homes, t: Table) {
    forall i :: Live(t, i) ==> other(t[i].hash, other(t[i].hash, i)) == i
  }

  // -- The chain, one displacement at a time -----------------------------------------------------------

  /** A chain under way, or one that has found a vacant slot. */
  datatype Chain = On(table: Table, slot: nat, hand: Item) | Done(table: Table, at: nat, hand: Item) {
    function Result(): Kicked { Kicked(table, Done?, hand) }
  }

  /** A chain that is nowhere does not move. */
  function KickOnce(other: Homes, c: Chain): Chain {
    match c
    case Done(_, _, _) => c
    case On(t, i, cur) =>
      if i >= |t| || other(t[i].hash, i) >= |t| then c
      else
        var occ, t' := t[i].Stored(), t[i := Filled(cur)];
        Arrive(t', other(t[i].hash, i), occ)
  }

  /** The chain goes on to a slot, or ends there if it is vacant. */
  function Arrive(t: Table, i: nat, hand: Item): Chain
    requires i < |t|
  {
    if t[i].Vacant() then Done(t[i := Filled(hand)], i, hand) else On(t, i, hand)
  }

  function Kicks(other: Homes, c: Chain, n: nat): Chain {
    Iterate(x => KickOnce(other, x), c, n)
  }

  lemma NextKick(other: Homes, c: Chain, n: nat, d: Chain, e: Chain)
    requires Kicks(other, c, n) == d && KickOnce(other, d) == e
    ensures Kicks(other, c, n + 1) == e
  {
  }

  lemma KicksAdd(other: Homes, c: Chain, m: nat, n: nat)
    ensures Kicks(other, c, m + n) == Kicks(other, Kicks(other, c, m), n)
  {
    IterateAdd(x => KickOnce(other, x), c, m, n);
  }

  lemma DoneStays(other: Homes, c: Chain, n: nat)
    requires c.Done?
    ensures Kicks(other, c, n) == c
  {
    IterateFixed(x => KickOnce(other, x), c, n);
  }

  // -- Trails ------------------------------------------------------------------------------------------

  ghost predicate IsTrail(other: Homes, t: Table, p: seq<nat>) {
    && InTable(other, |t|) && p != [] && Distinct(p)
    && (forall k :: 0 <= k < |p| ==> Live(t, p[k]))
    && (forall k, l :: 0 <= k < l < |p| && l == k + 1 ==> p[l] == other(t[p[k]].hash, p[k]))
  }

  /** Where the walk goes from the last slot. */
  ghost function End(other: Homes, t: Table, p: seq<nat>): (k: nat)
    requires IsTrail(other, t, p)
    ensures k < |t|
  {
    assert Live(t, p[|p| - 1]);
    other(t[p[|p| - 1]].hash, p[|p| - 1])
  }

  lemma {:induction false} DistinctBound(p: seq<nat>, n: nat)
    requires Distinct(p) && forall k :: 0 <= k < |p| ==> p[k] < n
    ensures |p| <= n
    decreases n
  {
    if p == [] {
    } else {
      assert p[0] < n;
      if n - 1 in p {
        var i :| 0 <= i < |p| && p[i] == n - 1;
        DistinctBound(p[..i] + p[i + 1..], n - 1);
      } else {
        DistinctBound(p, n - 1);
      }
    }
  }

  lemma TrailFits(other: Homes, t: Table, p: seq<nat>)
    requires IsTrail(other, t, p)
    ensures |p| <= |t|
  {
    assert forall k :: 0 <= k < |p| ==> Live(t, p[k]);
    DistinctBound(p, |t|);
  }

  lemma TrailOn(other: Homes, t: Table, p: seq<nat>)
    requires IsTrail(other, t, p) && End(other, t, p) !in p && !t[End(other, t, p)].Vacant()
    ensures IsTrail(other, t, p + [End(other, t, p)])
  {
  }

  /** The trail that begins with p, up to the slot where it ends. */
  ghost function Trail(other: Homes, t: Table, p: seq<nat>): (q: seq<nat>)
    requires IsTrail(other, t, p)
    ensures IsTrail(other, t, q) && q[0] == p[0]
    ensures End(other, t, q) in q || t[End(other, t, q)].Vacant()
    decreases |t| - |p|
  {
    var e := End(other, t, p);
    if e in p || t[e].Vacant() then p
    else
      TrailOn(other, t, p);
      TrailFits(other, t, p + [e]);
      Trail(other, t, p + [e])
  }

  /** Where a trail that ends in itself closes. */
  ghost function ClosesAt(other: Homes, t: Table, p: seq<nat>): (j: nat)
    requires IsTrail(other, t, p) && End(other, t, p) in p
    ensures j < |p| && p[j] == End(other, t, p)
  {
    var j :| 0 <= j < |p| && p[j] == End(other, t, p);
    j
  }

  // -- Forwards ----------------------------------------------------------------------------------------

  ghost predicate Slots(t: Table, p: seq<nat>) {
    p != [] && Distinct(p) && forall l :: 0 <= l < |p| ==> p[l] < |t|
  }

  /** The item in hand when the chain comes to slot k of the trail. */
  ghost function Carried(t: Table, p: seq<nat>, item: Item, k: nat): Item
    requires Slots(t, p) && k <= |p|
  {
    if k == 0 then item else t[p[k - 1]].Stored()
  }

  /** The table after n displacements along the trail. */
  ghost function Shifted(t: Table, p: seq<nat>, item: Item, n: nat): (s: Table)
    requires Slots(t, p) && n <= |p|
    ensures |s| == |t|
  {
    if n == 0 then t else Shifted(t, p, item, n - 1)[p[n - 1] := Filled(Carried(t, p, item, n - 1))]
  }

  /** A slot of the trail holds what was carried to it. */
  lemma {:induction false} ShiftedAt(t: Table, p: seq<nat>, item: Item, n: nat, k: nat)
    requires Slots(t, p) && k < n <= |p|
    ensures Shifted(t, p, item, n)[p[k]] == Filled(Carried(t, p, item, k))
    decreases n
  {
    if k == n - 1 {
    } else {
      ShiftedAt(t, p, item, n - 1, k);
      assert p[k] != p[n - 1];
    }
  }

  /** Any other slot holds what it held. */
  lemma {:induction false} ShiftedElsewhere(t: Table, p: seq<nat>, item: Item, n: nat, i: nat)
    requires Slots(t, p) && n <= |p| && i < |t| && forall l :: 0 <= l < n ==> p[l] != i
    ensures Shifted(t, p, item, n)[i] == t[i]
    decreases n
  {
    if n == 0 {
    } else {
      ShiftedElsewhere(t, p, item, n - 1, i);
    }
  }

  lemma TrailSlots(other: Homes, t: Table, p: seq<nat>)
    requires IsTrail(other, t, p)
    ensures Slots(t, p)
  {
    assert forall l :: 0 <= l < |p| ==> Live(t, p[l]);
  }

  lemma CarriedLive(other: Homes, t: Table, p: seq<nat>, item: Item, k: nat)
    requires IsTrail(other, t, p) && Slots(t, p) && k <= |p| && item.key.hash != 0
    ensures !Filled(Carried(t, p, item, k)).Vacant()
  {
    if k > 0 {
      assert Live(t, p[k - 1]);
    }
  }

  /** The chain at slot n of the trail, or where the trail ends. */
  ghost function Ahead(other: Homes, t: Table, p: seq<nat>, item: Item, n: nat): (c: Chain)
    requires IsTrail(other, t, p) && Slots(t, p) && n <= |p|
    ensures c.On? && c.slot < |c.table| == |t|
  {
    On(Shifted(t, p, item, n), if n < |p| then p[n] else End(other, t, p), Carried(t, p, item, n))
  }

  ghost function Reach(d: Chain): Chain
    requires d.On? && d.slot < |d.table|
  {
    Arrive(d.table, d.slot, d.hand)
  }

  /** One displacement at slot n of the trail. */
  lemma ForwardStep(other: Homes, t: Table, p: seq<nat>, item: Item, n: nat)
    requires IsTrail(other, t, p) && Slots(t, p) && n < |p|
    ensures KickOnce(other, Ahead(other, t, p, item, n)) == Reach(Ahead(other, t, p, item, n + 1))
  {
    ShiftedElsewhere(t, p, item, n, p[n]);
    assert n + 1 < |p| ==> p[n + 1] == other(t[p[n]].hash, p[n]);
  }

  /** As long as the trail leads on, the chain follows it. */
  lemma {:induction false} Forward(other: Homes, t: Table, p: seq<nat>, item: Item, n: nat)
    requires IsTrail(other, t, p) && Slots(t, p) && n < |p|
    ensures Kicks(other, On(t, p[0], item), n) == Ahead(other, t, p, item, n)
  {
    if n == 0 {
    } else {
      Forward(other, t, p, item, n - 1);
      ForwardOn(other, t, p, item, n);
      NextKick(other, On(t, p[0], item), n - 1, Ahead(other, t, p, item, n - 1), Ahead(other, t, p, item, n));
    }
  }

  lemma ForwardOn(other: Homes, t: Table, p: seq<nat>, item: Item, n: nat)
    requires IsTrail(other, t, p) && Slots(t, p) && 0 < n < |p|
    ensures KickOnce(other, Ahead(other, t, p, item, n - 1)) == Ahead(other, t, p, item, n)
  {
    ForwardStep(other, t, p, item, n - 1);
    ShiftedElsewhere(t, p, item, n, p[n]);
    assert Live(t, p[n]);
  }

  lemma ToTheEnd(other: Homes, t: Table, p: seq<nat>, item: Item)
    requires IsTrail(other, t, p) && Slots(t, p)
    ensures Kicks(other, On(t, p[0], item), |p|) == Reach(Ahead(other, t, p, item, |p|))
  {
    var n := |p| - 1;
    Forward(other, t, p, item, n);
    ForwardStep(other, t, p, item, n);
    NextKick(other, On(t, p[0], item), n, Ahead(other, t, p, item, n), Reach(Ahead(other, t, p, item, |p|)));
  }

  /** At a vacant end the chain succeeds. */
  lemma IntoVacant(other: Homes, t: Table, p: seq<nat>, item: Item)
    requires IsTrail(other, t, p) && Slots(t, p) && End(other, t, p) !in p && t[End(other, t, p)].Vacant()
    ensures var c := Kicks(other, On(t, p[0], item), |p|); c.Done? && c.at == End(other, t, p)
  {
    ToTheEnd(other, t, p, item);
    ShiftedElsewhere(t, p, item, |p|, End(other, t, p));
  }

  // -- Around the loop and back ------------------------------------------------------------------------

  /** The item in hand after the loop and r more displacements on the way back. */
  ghost function Returned(t: Table, p: seq<nat>, item: Item, j: nat, r: nat): Item
    requires Slots(t, p) && j < |p| && r <= j + 1
  {
    if r == 0 then Carried(t, p, item, |p|) else Carried(t, p, item, j - r + 1)
  }

  ghost function Back(t: Table, p: seq<nat>, item: Item, j: nat, r: nat): (s: Table)
    requires Slots(t, p) && j < |p| && r <= j + 1
    ensures |s| == |t|
  {
    if r == 0 then Shifted(t, p, item, |p|)
    else Back(t, p, item, j, r - 1)[p[j - r + 1] := Filled(Returned(t, p, item, j, r - 1))]
  }

  /** Slots that the way back has not reached hold what was carried to them on the way out. */
  lemma {:induction false} BackAt(t: Table, p: seq<nat>, item: Item, j: nat, r: nat, k: nat)
    requires Slots(t, p) && j < |p| && k + r <= j
    ensures Back(t, p, item, j, r)[p[k]] == Filled(Carried(t, p, item, k))
    decreases r
  {
    if r == 0 {
      ShiftedAt(t, p, item, |p|, k);
    } else {
      BackAt(t, p, item, j, r - 1, k);
      assert p[k] != p[j - r + 1];
    }
  }

  /** The chain on its way back: at slot j - r, and at last at the other home of the new item. */
  ghost function Behind(other: Homes, t: Table, p: seq<nat>, item: Item, j: nat, r: nat): (c: Chain)
    requires Slots(t, p) && InTable(other, |t|) && j < |p| && r <= j + 1
    ensures c.On? && c.slot < |c.table| == |t|
  {
    On(Back(t, p, item, j, r), if r <= j then p[j - r] else other(item.key.hash, p[0]), Returned(t, p, item, j, r))
  }

  /** One displacement on the way back. */
  lemma BackwardStep(other: Homes, t: Table, p: seq<nat>, item: Item, j: nat, r: nat)
    requires IsTrail(other, t, p) && Slots(t, p) && Returns(other, t) && r <= j < |p|
    ensures KickOnce(other, Behind(other, t, p, item, j, r)) == Reach(Behind(other, t, p, item, j, r + 1))
  {
    BackAt(t, p, item, j, r, j - r);
    if r < j {
      var k := j - r - 1;
      assert p[k + 1] == other(t[p[k]].hash, p[k]) && Live(t, p[k]);
    }
  }

  lemma BackwardOn(other: Homes, t: Table, p: seq<nat>, item: Item, j: nat, r: nat)
    requires IsTrail(other, t, p) && Slots(t, p) && Returns(other, t) && 0 < r <= j < |p| && item.key.hash != 0
    ensures KickOnce(other, Behind(other, t, p, item, j, r - 1)) == Behind(other, t, p, item, j, r)
  {
    BackwardStep(other, t, p, item, j, r - 1);
    BackAt(t, p, item, j, r, j - r);
    CarriedLive(other, t, p, item, j - r);
  }

  /** The chain closes the loop. */
  lemma IntoLoop(other: Homes, t: Table, p: seq<nat>, item: Item, j: nat)
    requires IsTrail(other, t, p) && Slots(t, p) && j < |p| && End(other, t, p) == p[j] && item.key.hash != 0
    ensures Kicks(other, On(t, p[0], item), |p|) == Behind(other, t, p, item, j, 0)
  {
    ToTheEnd(other, t, p, item);
    ShiftedAt(t, p, item, |p|, j);
    CarriedLive(other, t, p, item, j);
  }

  /** A chain on a trail that closes follows the loop and comes back. */
  lemma {:induction false} Backward(other: Homes, t: Table, p: seq<nat>, item: Item, j: nat, r: nat)
    requires IsTrail(other, t, p) && Slots(t, p) && Returns(other, t)
    requires r <= j < |p| && End(other, t, p) == p[j] && item.key.hash != 0
    ensures Kicks(other, On(t, p[0], item), |p| + r) == Behind(other, t, p, item, j, r)
    decreases r
  {
    if r == 0 {
      IntoLoop(other, t, p, item, j);
    } else {
      Backward(other, t, p, item, j, r - 1);
      BackwardNext(other, t, p, item, j, r);
    }
  }

  lemma BackwardNext(other: Homes, t: Table, p: seq<nat>, item: Item, j: nat, r: nat)
    requires IsTrail(other, t, p) && Slots(t, p) && Returns(other, t) && 0 < r <= j < |p| && item.key.hash != 0
    requires Kicks(other, On(t, p[0], item), |p| + r - 1) == Behind(other, t, p, item, j, r - 1)
    ensures Kicks(other, On(t, p[0], item), |p| + r) == Behind(other, t, p, item, j, r)
  {
    BackwardOn(other, t, p, item, j, r);
    NextKick(other, On(t, p[0], item), |p| + r - 1, Behind(other, t, p, item, j, r - 1), Behind(other, t, p, item, j, r));
  }

  /** The way back leads over entries that the chain has moved. */
  lemma BackwardSlot(other: Homes, t: Table, p: seq<nat>, item: Item, j: nat, r: nat)
    requires IsTrail(other, t, p) && Slots(t, p) && Returns(other, t)
    requires r <= j < |p| && End(other, t, p) == p[j] && item.key.hash != 0
    ensures var c := Kicks(other, On(t, p[0], item), |p| + r);
            && c.On? && c.slot == p[j - r] && |c.table| == |t|
            && c.table[c.slot] == Filled(if j == r then item else t[p[j - r - 1]].Stored())
  {
    Backward(other, t, p, item, j, r);
    BackAt(t, p, item, j, r, j - r);
  }

  lemma BackwardHand(other: Homes, t: Table, p: seq<nat>, item: Item, j: nat, r: nat)
    requires IsTrail(other, t, p) && Slots(t, p) && Returns(other, t)
    requires r <= j < |p| && End(other, t, p) == p[j] && item.key.hash != 0
    ensures var c := Kicks(other, On(t, p[0], item), |p| + r);
            c.On? && c.hand == t[p[if r == 0 then |p| - 1 else j - r]].Stored()
  {
    Backward(other, t, p, item, j, r);
  }

  /** A whole lap leaves the new item in hand. */
  lemma Lap(other: Homes, t: Table, p: seq<nat>, item: Item, j: nat)
    requires IsTrail(other, t, p) && Slots(t, p) && Returns(other, t)
    requires j < |p| && End(other, t, p) == p[j] && item.key.hash != 0
    ensures Behind(other, t, p, item, j, j + 1).hand == item
    ensures Kicks(other, On(t, p[0], item), |p| + j + 1) == Reach(Behind(other, t, p, item, j, j + 1))
  {
    Backward(other, t, p, item, j, j);
    BackwardStep(other, t, p, item, j, j);
    var d := Reach(Behind(other, t, p, item, j, j + 1));
    NextKick(other, On(t, p[0], item), |p| + j, Behind(other, t, p, item, j, j), d);
  }

  /** What follows a lap: success, or a new chain from the other home. */
  lemma AfterLap(other: Homes, t: Table, p: seq<nat>, item: Item, j: nat, kicks: nat)
    requires IsTrail(other, t, p) && Slots(t, p) && Returns(other, t)
    requires j < |p| && End(other, t, p) == p[j] && item.key.hash != 0 && kicks > |p| + j
    ensures var d := Behind(other, t, p, item, j, j + 1);
            if d.table[d.slot].Vacant() then
              Kicks(other, On(t, p[0], item), kicks).Done? && Kicks(other, On(t, p[0], item), kicks).at == d.slot
            else Kicks(other, On(t, p[0], item), kicks) == Kicks(other, d, kicks - |p| - j - 1)
  {
    Lap(other, t, p, item, j);
    Later(other, On(t, p[0], item), |p| + j + 1, kicks);
  }

  lemma Later(other: Homes, c: Chain, n: nat, kicks: nat)
    requires n <= kicks
    ensures Kicks(other, c, kicks) == Kicks(other, Kicks(other, c, n), kicks - n)
    ensures Kicks(other, c, n).Done? ==> Kicks(other, c, kicks) == Kicks(other, c, n)
  {
    KicksAdd(other, c, n, kicks - n);
    if Kicks(other, c, n).Done? {
      DoneStays(other, Kicks(other, c, n), kicks - n);
    }
  }
}
