/** The store together with its collector (src/engine/gc.rs): an extent is scheduled for deletion when
    its key is deleted, and nothing else is.  That the collector spares what a bucket refers to is
    no assumption here but follows. */
module StoreGc {
  import opened Wrappers
  import opened Bits
  import opened Bytes
  import opened LockWord
  import opened Layout
  import opened Cuckoo
  import opened ClientReader
  import E = Extent
  import R = Region
  import Runs = RegionRuns
  import opened Gc
  import opened Store

  datatype Joined = Joined(w: World, pending: seq<Pending>)

  datatype JointOp =
    | Put(key: Key, data: seq<Byte>, mode: Mode)
    | Drop(key: Key, now: U32)
    | Collect(ts: seq<U32>, order: seq<nat>)

  ghost predicate Permitted(g: Joined, op: JointOp) {
    match op
    case Put(_, data, mode) => mode == Extent ==> |data| < TWO32
    case Drop(_, now) => now != E.EXTENT_MAGIC
    case Collect(_, order) => R.Enumerates(order, g.w.region.used)
  }

  /** The pending list after key k is deleted: an extent that it referred to is scheduled. */
  ghost function Scheduled(c: map<Key, Entry>, k: Key, now: U32, pending: seq<Pending>): seq<Pending> {
    if k in c && c[k].mode == Extent then pending + [Pending(RefOf(c[k]), now)] else pending
  }

  ghost function Collection(w: World, pending: seq<Pending>, ts: seq<U32>, order: seq<nat>): World {
    if ts == [] then w
    else w.(region := Cycle(w.region, pending, ts, order).0,
            sh := R.Drop(MarkShadow(w.sh, pending), Collected(w.sh, pending, ts)))
  }

  ghost function Act(g: Joined, maxKick: nat, op: JointOp): Joined
    requires Ready(g.w)
  {
    match op
    case Put(k, data, mode) =>
      g.(w := Store.Do(g.w, maxKick, if mode == Inline then PutInline(k, data) else PutExtent(k, data)))
    case Drop(k, now) =>
      Joined(Store.Do(g.w, maxKick, Store.Op.Delete(k)), Scheduled(Contents(g.w.table), k, now, g.pending))
    case Collect(ts, order) => Joined(Collection(g.w, g.pending, ts, order), if ts == [] then g.pending else [])
  }

  // -- The invariant -----------------------------------------------------------------------------------

  /** No two keys refer to the same extent. */
  ghost predicate OneOwner(c: map<Key, Entry>) {
    forall k, l :: k in c && l in c && c[k].mode == Extent && c[l].mode == Extent && RefOf(c[k]) == RefOf(c[l]) ==> k == l
  }

  ghost predicate Pends(live: map<nat, R.Object>, pending: seq<Pending>) {
    forall p :: p in pending ==> p.off in live && p.epoch % TWO32 != E.EXTENT_MAGIC
  }

  /** Nothing stands against an extent that a bucket refers to. */
  ghost predicate Spared(c: map<Key, Entry>, live: map<nat, R.Object>, pending: seq<Pending>) {
    forall o :: Refers(c, o) ==> o in live && Effective(pending, o, live[o].mark) == 0
  }

  ghost predicate Sound(c: map<Key, Entry>, live: map<nat, R.Object>, pending: seq<Pending>) {
    OneOwner(c) && Pends(live, pending) && Spared(c, live, pending)
  }

  ghost predicate JointInv(g: Joined) {
    Store.Inv(g.w) && Sound(Contents(g.w.table), g.w.sh.live, g.pending)
  }

  /** The entries of one map are entries of the other. */
  ghost predicate Part(c: map<Key, Entry>, d: map<Key, Entry>) {
    forall k :: k in c ==> k in d && c[k] == d[k]
  }

  lemma PartSound(c: map<Key, Entry>, d: map<Key, Entry>, live: map<nat, R.Object>, pending: seq<Pending>)
    requires Part(c, d) && Sound(d, live, pending)
    ensures Sound(c, live, pending)
  {
    forall o | Refers(c, o) ensures o in live && Effective(pending, o, live[o].mark) == 0 {
      var k :| k in c && c[k].mode == Extent && RefOf(c[k]) == o;
      assert Refers(d, o);
    }
  }

  lemma PutSound(c: map<Key, Entry>, live: map<nat, R.Object>, pending: seq<Pending>, k: Key, e: Entry)
    requires Sound(c, live, pending)
    requires e.mode == Extent ==>
               !Refers(c, RefOf(e)) && RefOf(e) in live && Effective(pending, RefOf(e), live[RefOf(e)].mark) == 0
    ensures Sound(c[k := e], live, pending)
  {
    var d := c[k := e];
    forall o | Refers(d, o) ensures o in live && Effective(pending, o, live[o].mark) == 0 {
      var l :| l in d && d[l].mode == Extent && RefOf(d[l]) == o;
      assert l != k ==> Refers(c, o);
    }
    forall a, b | a in d && b in d && d[a].mode == Extent && d[b].mode == Extent && RefOf(d[a]) == RefOf(d[b])
      ensures a == b
    {
      assert a != k ==> Refers(c, RefOf(d[a]));
      assert b != k ==> Refers(c, RefOf(d[b]));
    }
  }

  /** The contents after an insertion are part of the contents with the new entry. */
  lemma InsertedPart(t: Table, item: Item, maxKick: nat)
    requires Good(t) && item.key.hash != 0
    ensures Good(InsertRaw(t, item, maxKick).table)
    ensures Part(Contents(InsertRaw(t, item, maxKick).table), Contents(t)[item.key := item.entry])
  {
    InsertConserves(t, item, maxKick);
    if !InsertRaw(t, item, maxKick).ok {
      TableFullLosesOne(t, item, maxKick);
    }
  }

  lemma PutEntrySound(w: World, pending: seq<Pending>, maxKick: nat, op: Cuckoo.Op, v: Value)
    requires Store.Inv(w) && !op.Remove? && Backed(ItemOf(op).entry, v, w.sh.live)
    requires Sound(Contents(w.table), w.sh.live, pending)
    requires var e := ItemOf(op).entry;
             e.mode == Extent ==>
               !Refers(Contents(w.table), RefOf(e)) && Effective(pending, RefOf(e), w.sh.live[RefOf(e)].mark) == 0
    ensures JointInv(Joined(PutEntry(w, maxKick, op, v), pending))
  {
    PutEntryInv(w, maxKick, op, v);
    if op.key.hash != 0 {
      InsertedSound(w.table, w.sh.live, pending, maxKick, ItemOf(op));
    }
  }

  lemma InsertedSound(t: Table, live: map<nat, R.Object>, pending: seq<Pending>, maxKick: nat, item: Item)
    requires Good(t) && item.key.hash != 0 && Sound(Contents(t), live, pending)
    requires var e := item.entry;
             e.mode == Extent ==>
               && !Refers(Contents(t), RefOf(e)) && RefOf(e) in live
               && Effective(pending, RefOf(e), live[RefOf(e)].mark) == 0
    ensures Good(InsertRaw(t, item, maxKick).table)
    ensures Sound(Contents(InsertRaw(t, item, maxKick).table), live, pending)
  {
    InsertedPart(t, item, maxKick);
    PutSound(Contents(t), live, pending, item.key, item.entry);
    PartSound(Contents(InsertRaw(t, item, maxKick).table), Contents(t)[item.key := item.entry], live, pending);
  }

  lemma AllocSound(c: map<Key, Entry>, live: map<nat, R.Object>, pending: seq<Pending>, off: nat, data: seq<Byte>)
    requires Sound(c, live, pending) && off !in live
    ensures Sound(c, live[off := R.Object(data, 0)], pending)
    ensures !Refers(c, off) && Effective(pending, off, 0) == 0
  {
    EffectiveAbsent(pending, off, 0);
  }

  lemma PutLargeSound(g: Joined, maxKick: nat, k: Key, data: seq<Byte>)
    requires JointInv(g) && |data| < TWO32
    ensures Ready(g.w) && JointInv(Joined(PutLarge(g.w, maxKick, k, data), g.pending))
  {
    AllocatedInv(g.w, data);
    AllocateEffect(g.w.region, g.w.sh, data);
    var off := R.Allocate(g.w.region, data).1;
    if off.Some? {
      AllocSound(Contents(g.w.table), g.w.sh.live, g.pending, off.value, data);
      PutRefSound(Allocated(g.w, data), g.pending, maxKick, k, data, off.value);
    }
  }

  lemma PutRefSound(w: World, pending: seq<Pending>, maxKick: nat, k: Key, data: seq<Byte>, off: nat)
    requires Store.Inv(w) && |data| < TWO32 && off in w.sh.live && w.sh.live[off] == R.Object(data, 0)
    requires Sound(Contents(w.table), w.sh.live, pending)
    requires !Refers(Contents(w.table), off) && Effective(pending, off, 0) == 0
    ensures JointInv(Joined(PutEntry(w, maxKick, PutRef(k, off, |data|), Value(data, Extent)), pending))
  {
    OffsetFits(w.region, w.sh, off);
    PutRefEntry(k, off, |data|);
    PutEntrySound(w, pending, maxKick, PutRef(k, off, |data|), Value(data, Extent));
  }

  /** Deleting the one key that refers to an extent frees the extent for the collector. */
  lemma DropSound(c: map<Key, Entry>, live: map<nat, R.Object>, pending: seq<Pending>, k: Key, now: U32)
    requires Sound(c, live, pending) && now != E.EXTENT_MAGIC
    ensures Sound(c - {k}, live, Scheduled(c, k, now, pending))
  {
    PartSound(c - {k}, c, live, pending);
    if k in c && c[k].mode == Extent {
      var off := RefOf(c[k]);
      var pending' := pending + [Pending(off, now)];
      assert pending'[..|pending'| - 1] == pending;
      assert Refers(c, off) && now % TWO32 == now;
      forall o | Refers(c - {k}, o) ensures o in live && Effective(pending', o, live[o].mark) == 0 {
        var l :| l in c - {k} && (c - {k})[l].mode == Extent && RefOf((c - {k})[l]) == o;
        assert c[l] == (c - {k})[l];
      }
    }
  }

  lemma DropInv(g: Joined, maxKick: nat, k: Key, now: U32)
    requires JointInv(g) && now != E.EXTENT_MAGIC && Ready(g.w)
    ensures JointInv(Act(g, maxKick, JointOp.Drop(k, now)))
  {
    Store.StepInv(g.w, maxKick, Store.Op.Delete(k));
    DeleteIsRemoval(g.w.table, k);
    DropSound(Contents(g.w.table), g.w.sh.live, g.pending, k, now);
  }

  // -- Collections -------------------------------------------------------------------------------------

  lemma {:induction false} MarkAllLength(r: R.Region, pending: seq<Pending>)
    ensures |MarkAll(r, pending).buffer| == |r.buffer|
    decreases |pending|
  {
    if pending == [] {
    } else {
      MarkAllLength(r, pending[..|pending| - 1]);
    }
  }

  lemma PendsMarkable(sh: R.Shadow, pending: seq<Pending>)
    requires Pends(sh.live, pending)
    ensures forall p :: p in pending ==> Markable(sh, p)
  {
  }

  /** A cycle collects no extent that a bucket refers to. */
  lemma CycleSpares(c: map<Key, Entry>, sh: R.Shadow, pending: seq<Pending>, ts: seq<U32>, o: nat)
    requires Spared(c, sh.live, pending) && Refers(c, o)
    ensures o in sh.live && o !in Collected(sh, pending, ts)
  {
  }

  lemma CollectSound(c: map<Key, Entry>, sh: R.Shadow, pending: seq<Pending>, ts: seq<U32>)
    requires Sound(c, sh.live, pending)
    ensures Sound(c, R.Drop(MarkShadow(sh, pending), Collected(sh, pending, ts)).live, [])
  {
    var live := R.Drop(MarkShadow(sh, pending), Collected(sh, pending, ts)).live;
    forall o | Refers(c, o) ensures o in live && Effective([], o, live[o].mark) == 0 {
      CycleSpares(c, sh, pending, ts, o);
    }
  }

  lemma CollectAgrees(c: map<Key, Entry>, m: map<Key, Value>, sh: R.Shadow, pending: seq<Pending>, ts: seq<U32>)
    requires Agrees(c, m, sh.live) && Spared(c, sh.live, pending)
    ensures Agrees(c, m, R.Drop(MarkShadow(sh, pending), Collected(sh, pending, ts)).live)
  {
    var live := R.Drop(MarkShadow(sh, pending), Collected(sh, pending, ts)).live;
    forall o | o in sh.live && Refers(c, o) ensures o in live && live[o].data == sh.live[o].data {
      CycleSpares(c, sh, pending, ts, o);
    }
    AgreesKeep(c, m, sh.live, live);
  }

  lemma CollectInv(g: Joined, maxKick: nat, ts: seq<U32>, order: seq<nat>)
    requires JointInv(g) && R.Enumerates(order, g.w.region.used) && Ready(g.w)
    ensures JointInv(Act(g, maxKick, Collect(ts, order)))
  {
    if ts != [] {
      PendsMarkable(g.w.sh, g.pending);
      CycleExact(g.w.region, g.w.sh, g.pending, ts, order);
      CollectSound(Contents(g.w.table), g.w.sh, g.pending, ts);
      CollectAgrees(Contents(g.w.table), g.w.spec, g.w.sh, g.pending, ts);
      CycleLength(g.w.region, g.pending, ts, order);
      RegionInv(g.w, Cycle(g.w.region, g.pending, ts, order).0,
                R.Drop(MarkShadow(g.w.sh, g.pending), Collected(g.w.sh, g.pending, ts)));
    }
  }

  lemma CycleLength(r: R.Region, pending: seq<Pending>, ts: seq<U32>, order: seq<nat>)
    ensures |Cycle(r, pending, ts, order).0.buffer| == |r.buffer|
  {
    if ts != [] {
      MarkAllLength(r, pending);
      SweepLength(MarkAll(r, pending), order, MinTs(ts));
    }
  }

  // -- Histories ---------------------------------------------------------------------------------------

  lemma ActInv(g: Joined, maxKick: nat, op: JointOp)
    requires JointInv(g) && Permitted(g, op)
    ensures Ready(g.w) && JointInv(Act(g, maxKick, op))
  {
    R.InvInBounds(g.w.region, g.w.sh);
    match op
    case Put(k, data, mode) =>
      if mode == Inline {
        PutEntrySound(g.w, g.pending, maxKick, Insert(k, data, Inline), Value(data, Inline));
      } else {
        PutLargeSound(g, maxKick, k, data);
      }
    case Drop(k, now) => DropInv(g, maxKick, k, now);
    case Collect(ts, order) => CollectInv(g, maxKick, ts, order);
  }

  ghost predicate ActsTo(g: Joined, maxKick: nat, ops: seq<JointOp>, g': Joined)
    decreases |ops|
  {
    if ops == [] then g == g'
    else Ready(g.w) && Permitted(g, ops[0]) && ActsTo(Act(g, maxKick, ops[0]), maxKick, ops[1..], g')
  }

  lemma {:induction false} ActsInv(g: Joined, maxKick: nat, ops: seq<JointOp>, g': Joined)
    requires JointInv(g) && ActsTo(g, maxKick, ops, g')
    ensures JointInv(g')
    decreases |ops|
  {
    if ops == [] {
    } else {
      ActInv(g, maxKick, ops[0]);
      ActsInv(Act(g, maxKick, ops[0]), maxKick, ops[1..], g');
    }
  }

  lemma NewJointInv(n: nat, size: nat)
    requires SizeOk(n) && size < TWO64
    ensures JointInv(Joined(NewWorld(n, size), []))
  {
    NewWorldInv(n, size);
    NewTableGood(n);
  }

  /** The store with its collector, end to end: after every history of puts, deletions and collections
      a get returns what the map of puts holds, and nothing for any other key. */
  lemma EndToEndGc(n: nat, size: nat, maxKick: nat, ops: seq<JointOp>, g: Joined, k: Key)
    requires SizeOk(n) && size < TWO64 && k.hash != 0
    requires ActsTo(Joined(NewWorld(n, size), []), maxKick, ops, g)
    ensures GetFrom(g.w, k) == Ok(if k in g.w.spec then Some(Shown(g.w.spec[k])) else None)
  {
    NewJointInv(n, size);
    ActsInv(Joined(NewWorld(n, size), []), maxKick, ops, g);
    GetShows(g.w, k);
  }

  /** After every history no cycle reclaims an extent that a live bucket refers to. */
  lemma ReferredSurvives(n: nat, size: nat, maxKick: nat, ops: seq<JointOp>, g: Joined,
                         ts: seq<U32>, order: seq<nat>, o: nat)
    requires SizeOk(n) && size < TWO64
    requires ActsTo(Joined(NewWorld(n, size), []), maxKick, ops, g) && R.Enumerates(order, g.w.region.used)
    ensures SizeOk(|g.w.table|)
    ensures Refers(Contents(g.w.table), o) ==> o in g.w.region.used && o in Cycle(g.w.region, g.pending, ts, order).0.used
  {
    NewJointInv(n, size);
    ActsInv(Joined(NewWorld(n, size), []), maxKick, ops, g);
    if Refers(Contents(g.w.table), o) {
      PendsMarkable(g.w.sh, g.pending);
      PendingDecides(g.w.region, g.w.sh, g.pending, ts, order, o);
    }
  }

  /** And the extent of a deleted key is reclaimed by the next cycle exactly if the time of the deletion
      is set and lies below every timestamp. */
  lemma DroppedReclaimedIff(g: Joined, maxKick: nat, k: Key, now: U32, ts: seq<U32>, order: seq<nat>)
    requires JointInv(g) && now != E.EXTENT_MAGIC && k in Contents(g.w.table) && Contents(g.w.table)[k].mode == Extent
    requires R.Enumerates(order, g.w.region.used)
    ensures Ready(g.w)
    ensures var o, g' := RefOf(Contents(g.w.table)[k]), Act(g, maxKick, JointOp.Drop(k, now));
            && o in g'.w.region.used
            && (o !in Cycle(g'.w.region, g'.pending, ts, order).0.used <==> Stale(now, ts))
  {
    DropSchedules(g, maxKick, k, now);
    CycleDecides(Act(g, maxKick, JointOp.Drop(k, now)), ts, order, RefOf(Contents(g.w.table)[k]));
  }

  lemma DropSchedules(g: Joined, maxKick: nat, k: Key, now: U32)
    requires JointInv(g) && now != E.EXTENT_MAGIC && k in Contents(g.w.table) && Contents(g.w.table)[k].mode == Extent
    ensures Ready(g.w)
    ensures var o, g' := RefOf(Contents(g.w.table)[k]), Act(g, maxKick, JointOp.Drop(k, now));
            && JointInv(g') && g'.w.region == g.w.region && o in g'.w.sh.live
            && Effective(g'.pending, o, g'.w.sh.live[o].mark) == now
  {
    R.InvInBounds(g.w.region, g.w.sh);
    DropInv(g, maxKick, k, now);
    DropOnlySchedules(g, maxKick, k, now);
    ScheduledLast(Contents(g.w.table), g.w.sh.live, k, now, g.pending);
  }

  lemma DropOnlySchedules(g: Joined, maxKick: nat, k: Key, now: U32)
    requires Ready(g.w)
    ensures var g' := Act(g, maxKick, JointOp.Drop(k, now));
            && g'.w.region == g.w.region && g'.w.sh == g.w.sh
            && g'.pending == Scheduled(Contents(g.w.table), k, now, g.pending)
  {
  }

  lemma ScheduledLast(c: map<Key, Entry>, live: map<nat, R.Object>, k: Key, now: U32, pending: seq<Pending>)
    requires Spared(c, live, pending) && k in c && c[k].mode == Extent
    ensures var o := RefOf(c[k]); o in live && Effective(Scheduled(c, k, now, pending), o, live[o].mark) == now
  {
    assert Refers(c, RefOf(c[k]));
  }

  lemma CycleDecides(g: Joined, ts: seq<U32>, order: seq<nat>, o: nat)
    requires JointInv(g) && R.Enumerates(order, g.w.region.used) && o in g.w.sh.live
    ensures o in g.w.region.used
    ensures o !in Cycle(g.w.region, g.pending, ts, order).0.used
       <==> Stale(Effective(g.pending, o, g.w.sh.live[o].mark), ts)
  {
    PendsMarkable(g.w.sh, g.pending);
    PendingDecides(g.w.region, g.w.sh, g.pending, ts, order, o);
  }
}
