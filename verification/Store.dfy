/** The store end to end: puts, deletes, frees, marks and sweeps through the cuckoo table
    (src/engine/cuckoo.rs) and the large object region (src/engine/extent.rs), and reads through
    the client (src/client/read.rs). */
module Store {
  import opened Wrappers
  import opened Bits
  import opened Bytes
  import opened LockWord
  import opened Layout
  import opened Cuckoo
  import opened ClientReader
  import R = Region
  import Runs = RegionRuns

  /** What a caller put. */
  datatype Value = Value(data: seq<Byte>, mode: Mode)

  /** The engine's state, and beside it the meaning of the region and the map of what was put. */
  datatype World = World(table: Table, region: R.Region, sh: R.Shadow, spec: map<Key, Value>)

  datatype Op =
    | PutInline(key: Key, data: seq<Byte>)
    | PutExtent(key: Key, data: seq<Byte>)
    | Delete(key: Key)
    | Reclaim(op: Runs.Op)

  /** What a get should return for a value. */
  function Shown(v: Value): ReadResult {
    ReadResult(if v.mode == Inline then PackBody(v.data, Inline) else v.data, v.mode)
  }

  function RefOf(e: Entry): nat { FromLe(e.body[0..8]) }

  function LengthOf(e: Entry): nat { FromLe(e.body[8..16]) }

  /** Some live bucket refers to the extent at o. */
  ghost predicate Refers(c: map<Key, Entry>, o: nat) {
    exists k :: k in c && c[k].mode == Extent && RefOf(c[k]) == o
  }

  /** Extents are freed or swept only if no live bucket refers to them. */
  ghost predicate Allowed(w: World, op: Op) {
    match op
    case PutInline(_, _) => true
    case PutExtent(_, data) => |data| < TWO32
    case Delete(_) => true
    case Reclaim(rop) =>
      !rop.Alloc? && Runs.Allowed(w.region, rop) && SizeOk(|w.table|) &&
      match rop
      case FreeAt(off) => !Refers(Contents(w.table), off)
      case SweepBelow(m, _) => forall o :: o in R.AllDue(w.sh, m) ==> !Refers(Contents(w.table), o)
      case _ => true
  }

  /** The map after a put: the new value is in, unless the table was full; then the item left in
      hand at the end of the displacement chain is out. */
  ghost function PutSpec(m: map<Key, Value>, k: Key, v: Value, r: Kicked): map<Key, Value> {
    if r.ok then m[k := v] else m[k := v] - {r.hand.key}
  }

  /** `insert` or `insert_extent`. */
  ghost function PutEntry(w: World, maxKick: nat, op: Cuckoo.Op, v: Value): World
    requires SizeOk(|w.table|) && !op.Remove?
  {
    var (t, reply) := Apply(w.table, maxKick, op);
    if reply == Reply.InvalidKey then w.(table := t)
    else w.(table := t, spec := PutSpec(w.spec, op.key, v, InsertRaw(w.table, ItemOf(op), maxKick)))
  }

  ghost predicate Ready(w: World) { SizeOk(|w.table|) && R.InBounds(w.region) && |w.region.buffer| < TWO64 }

  ghost function Allocated(w: World, data: seq<Byte>): World
    requires Ready(w)
  {
    w.(region := R.Allocate(w.region, data).0, sh := R.AllocShadow(w.region, w.sh, data))
  }

  function PutRef(k: Key, off: nat, len: nat): Cuckoo.Op { InsertExtent(k, off % TWO64, len % TWO64) }

  /** `allocate` and then `insert_extent`. */
  ghost function PutLarge(w: World, maxKick: nat, k: Key, data: seq<Byte>): World
    requires Ready(w)
  {
    match R.Allocate(w.region, data).1
    case None => Allocated(w, data)
    case Some(o) => PutEntry(Allocated(w, data), maxKick, PutRef(k, o, |data|), Value(data, Extent))
  }

  ghost function Do(w: World, maxKick: nat, op: Op): World
    requires Ready(w)
  {
    match op
    case PutInline(k, data) => PutEntry(w, maxKick, Insert(k, data, Inline), Value(data, Inline))
    case PutExtent(k, data) => PutLarge(w, maxKick, k, data)
    case Delete(k) => w.(table := Cuckoo.Delete(w.table, k).0, spec := w.spec - {k})
    case Reclaim(rop) => w.(region := Runs.Step(w.region, rop), sh := Runs.ShadowStep(w.region, w.sh, rop))
  }

  // -- The invariant -----------------------------------------------------------------------------

  /** An entry stands for a value. */
  ghost predicate Backed(e: Entry, v: Value, live: map<nat, R.Object>) {
    && e.mode == v.mode
    && (e.mode == Inline ==> e.body == PackBody(v.data, Inline))
    && (e.mode == Extent ==> RefOf(e) in live && live[RefOf(e)].data == v.data && LengthOf(e) == |v.data|)
  }

  ghost predicate Agrees(c: map<Key, Entry>, m: map<Key, Value>, live: map<nat, R.Object>) {
    c.Keys == m.Keys && forall k :: k in c ==> Backed(c[k], m[k], live)
  }

  ghost predicate Inv(w: World) {
    && Good(w.table) && Unlocked(w.table) && R.Inv(w.region, w.sh) && |w.region.buffer| < TWO64
    && Agrees(Contents(w.table), w.spec, w.sh.live)
  }

  /** Objects that are referred to keep their data. */
  lemma AgreesKeep(c: map<Key, Entry>, m: map<Key, Value>, live: map<nat, R.Object>, live': map<nat, R.Object>)
    requires Agrees(c, m, live)
    requires forall o :: o in live && Refers(c, o) ==> o in live' && live'[o].data == live[o].data
    ensures Agrees(c, m, live')
  {
    forall k | k in c ensures Backed(c[k], m[k], live') {
      assert Backed(c[k], m[k], live);
      if c[k].mode == Extent {
        assert Refers(c, RefOf(c[k]));
      }
    }
  }

  lemma AgreesPut(c: map<Key, Entry>, m: map<Key, Value>, live: map<nat, R.Object>, k: Key, e: Entry, v: Value)
    requires Agrees(c, m, live) && Backed(e, v, live)
    ensures Agrees(c[k := e], m[k := v], live)
  {
  }

  lemma AgreesDrop(c: map<Key, Entry>, m: map<Key, Value>, live: map<nat, R.Object>, k: Key)
    requires Agrees(c, m, live)
    ensures Agrees(c - {k}, m - {k}, live)
  {
  }

  lemma PutEntryInv(w: World, maxKick: nat, op: Cuckoo.Op, v: Value)
    requires Inv(w) && !op.Remove? && Backed(ItemOf(op).entry, v, w.sh.live)
    ensures Inv(PutEntry(w, maxKick, op, v))
  {
    PutEntryIs(w, maxKick, op, v);
    if op.key.hash != 0 {
      InsertUnlocks(w.table, ItemOf(op), maxKick);
      PutAgrees(Contents(w.table), w.spec, w.sh.live, ItemOf(op), v, w.table, maxKick);
    }
  }

  lemma PutEntryIs(w: World, maxKick: nat, op: Cuckoo.Op, v: Value)
    requires SizeOk(|w.table|) && !op.Remove?
    ensures PutEntry(w, maxKick, op, v)
         == if op.key.hash == 0 then w
            else
              var r := InsertRaw(w.table, ItemOf(op), maxKick);
              w.(table := r.table, spec := PutSpec(w.spec, op.key, v, r))
  {
  }

  lemma PutAgrees(c: map<Key, Entry>, m: map<Key, Value>, live: map<nat, R.Object>, item: Item, v: Value,
                  t: Table, maxKick: nat)
    requires Good(t) && c == Contents(t) && Agrees(c, m, live) && Backed(item.entry, v, live) && item.key.hash != 0
    ensures Good(InsertRaw(t, item, maxKick).table)
    ensures var r := InsertRaw(t, item, maxKick); Agrees(Contents(r.table), PutSpec(m, item.key, v, r), live)
  {
    var r := InsertRaw(t, item, maxKick);
    InsertConserves(t, item, maxKick);
    AgreesPut(c, m, live, item.key, item.entry, v);
    if !r.ok {
      TableFullLosesOne(t, item, maxKick);
      AgreesDrop(c[item.key := item.entry], m[item.key := v], live, r.hand.key);
    }
  }

  /** A change of the region that keeps the data of the extents referred to. */
  lemma RegionInv(w: World, region: R.Region, sh: R.Shadow)
    requires Inv(w) && R.Inv(region, sh) && |region.buffer| == |w.region.buffer|
    requires Agrees(Contents(w.table), w.spec, sh.live)
    ensures Inv(w.(region := region, sh := sh))
  {
  }

  lemma AllocateKeeps(r: R.Region, sh: R.Shadow, data: seq<Byte>)
    requires R.Inv(r, sh)
    ensures R.InBounds(r) && |R.Allocate(r, data).0.buffer| == |r.buffer|
    ensures forall o :: o in sh.live ==>
              o in R.AllocShadow(r, sh, data).live && R.AllocShadow(r, sh, data).live[o] == sh.live[o]
  {
    Runs.AllocateOutcome(r, sh, data);
  }

  /** A stored reference leads back to its offset and length. */
  lemma PutRefEntry(k: Key, off: U64, len: U64)
    ensures var e := ItemOf(PutRef(k, off, len)).entry; e.mode == Extent && RefOf(e) == off && LengthOf(e) == len
  {
    assert PutRef(k, off, len) == InsertExtent(k, off, len);
    ExtentRefRoundTrip(Bucket(Fresh(Extent), 0, Zeros(16), ExtentBody(off, len)), off, len);
  }

  lemma OffsetFits(r: R.Region, sh: R.Shadow, off: nat)
    requires R.Inv(r, sh) && |r.buffer| < TWO64 && off in sh.live
    ensures off < TWO64
  {
    Runs.UsedBelowNext(r, sh);
  }

  lemma AllocatedInv(w: World, data: seq<Byte>)
    requires Inv(w) && |data| < TWO32
    ensures Ready(w) && Inv(Allocated(w, data))
  {
    AllocateKeeps(w.region, w.sh, data);
    R.AllocateInv(w.region, w.sh, data);
    var sh := R.AllocShadow(w.region, w.sh, data);
    AgreesKeep(Contents(w.table), w.spec, w.sh.live, sh.live);
    RegionInv(w, R.Allocate(w.region, data).0, sh);
  }

  lemma AllocatedObject(r: R.Region, sh: R.Shadow, data: seq<Byte>)
    requires R.Inv(r, sh) && R.InBounds(r) && R.Allocate(r, data).1.Some?
    ensures var off, live := R.Allocate(r, data).1.value, R.AllocShadow(r, sh, data).live;
            off in live && live[off].data == data
  {
    Runs.AllocateOutcome(r, sh, data);
  }

  lemma PutRefInv(w: World, maxKick: nat, k: Key, data: seq<Byte>, off: nat)
    requires Inv(w) && |data| < TWO32 && off in w.sh.live && w.sh.live[off].data == data
    ensures Inv(PutEntry(w, maxKick, PutRef(k, off, |data|), Value(data, Extent)))
  {
    OffsetFits(w.region, w.sh, off);
    PutRefEntry(k, off, |data|);
    PutEntryInv(w, maxKick, PutRef(k, off, |data|), Value(data, Extent));
  }

  lemma PutLargeInv(w: World, maxKick: nat, k: Key, data: seq<Byte>)
    requires Inv(w) && |data| < TWO32
    ensures Ready(w) && Inv(PutLarge(w, maxKick, k, data))
  {
    AllocatedInv(w, data);
    var off := R.Allocate(w.region, data).1;
    if off.Some? {
      AllocatedObject(w.region, w.sh, data);
      PutRefInv(Allocated(w, data), maxKick, k, data, off.value);
    }
  }

  lemma {:induction false} SweepLength(r: R.Region, order: seq<nat>, m: nat)
    ensures |R.Sweep(r, order, m).0.buffer| == |r.buffer|
    decreases |order|
  {
    if order == [] {
    } else {
      SweepLength(r, order[..|order| - 1], m);
    }
  }

  lemma StepLength(r: R.Region, rop: Runs.Op)
    requires R.InBounds(r)
    ensures |Runs.Step(r, rop).buffer| == |r.buffer|
  {
    if rop.SweepBelow? {
      SweepLength(r, rop.order, rop.minActive);
    }
  }

  lemma ReclaimKeeps(c: map<Key, Entry>, r: R.Region, sh: R.Shadow, rop: Runs.Op, o: nat)
    requires R.InBounds(r) && !rop.Alloc? && o in sh.live && Refers(c, o)
    requires rop.FreeAt? ==> !Refers(c, rop.off)
    requires rop.SweepBelow? ==> forall p :: p in R.AllDue(sh, rop.minActive) ==> !Refers(c, p)
    ensures var live := Runs.ShadowStep(r, sh, rop).live;
            o in live && live[o].data == sh.live[o].data
  {
  }

  lemma ReclaimInv(w: World, maxKick: nat, rop: Runs.Op)
    requires Inv(w) && Allowed(w, Reclaim(rop))
    ensures Ready(w) && Inv(Do(w, maxKick, Reclaim(rop)))
  {
    Runs.StepInv(w.region, w.sh, rop);
    StepLength(w.region, rop);
    var c, sh := Contents(w.table), Runs.ShadowStep(w.region, w.sh, rop);
    forall o | o in w.sh.live && Refers(c, o) ensures o in sh.live && sh.live[o].data == w.sh.live[o].data {
      ReclaimKeeps(c, w.region, w.sh, rop, o);
    }
    AgreesKeep(c, w.spec, w.sh.live, sh.live);
    RegionInv(w, Runs.Step(w.region, rop), sh);
  }

  lemma StepInv(w: World, maxKick: nat, op: Op)
    requires Inv(w) && Allowed(w, op)
    ensures Ready(w) && Inv(Do(w, maxKick, op))
  {
    R.InvInBounds(w.region, w.sh);
    match op
    case PutInline(k, data) =>
      PutEntryInv(w, maxKick, Insert(k, data, Inline), Value(data, Inline));
    case PutExtent(k, data) => PutLargeInv(w, maxKick, k, data);
    case Delete(k) =>
      DeleteIsRemoval(w.table, k);
      AgreesDrop(Contents(w.table), w.spec, w.sh.live, k);
    case Reclaim(rop) => ReclaimInv(w, maxKick, rop);
  }

  // -- Histories -----------------------------------------------------------------------------------

  ghost predicate Leads(w: World, maxKick: nat, ops: seq<Op>, w': World)
    decreases |ops|
  {
    if ops == [] then w == w'
    else Ready(w) && Allowed(w, ops[0]) && Leads(Do(w, maxKick, ops[0]), maxKick, ops[1..], w')
  }

  lemma {:induction false} RunInv(w: World, maxKick: nat, ops: seq<Op>, w': World)
    requires Inv(w) && Leads(w, maxKick, ops, w')
    ensures Inv(w')
    decreases |ops|
  {
    if ops == [] {
    } else {
      StepInv(w, maxKick, ops[0]);
      RunInv(Do(w, maxKick, ops[0]), maxKick, ops[1..], w');
    }
  }

  ghost function NewWorld(n: nat, size: nat): World {
    World(NewTable(n), R.NewRegion(size), Runs.NOTHING, map[])
  }

  lemma NewWorldInv(n: nat, size: nat)
    requires SizeOk(n) && size < TWO64
    ensures Inv(NewWorld(n, size))
  {
    NewTableGood(n);
    R.NewRegionInv(size);
  }

  /** An entry that stands for a value resolves to it. */
  lemma ResolveBacked(e: Entry, v: Value, r: R.Region, sh: R.Shadow)
    requires R.Inv(r, sh) && Backed(e, v, sh.live)
    ensures Resolve(e, Some(r.buffer)) == Some(Shown(v))
  {
    if e.mode == Extent {
      R.LiveReads(r, sh, RefOf(e));
    }
  }

  function GetFrom(w: World, k: Key): Result {
    Get(k, w.table, Some(w.region.buffer), |w.table|)
  }

  lemma GetShows(w: World, k: Key)
    requires Inv(w) && k.hash != 0
    ensures GetFrom(w, k) == Ok(if k in w.spec then Some(Shown(w.spec[k])) else None)
  {
    GetReadsMap(k, w.table, Some(w.region.buffer));
    if k in w.spec {
      ResolveBacked(Contents(w.table)[k], w.spec[k], w.region, w.sh);
    }
  }

  /** Why frees must spare referenced extents: after a free, a key still reads as its value
      exactly if its bucket does not refer to the freed extent. */
  lemma FreeKeepsGetIff(w: World, k: Key, off: nat)
    requires Inv(w) && k in w.spec && off in w.sh.live
    ensures var w' := w.(region := R.Free(w.region, off).0);
            var e := Contents(w.table)[k];
            (GetFrom(w', k) == Ok(Some(Shown(w.spec[k]))) <==> !(e.mode == Extent && RefOf(e) == off))
  {
    InContents(w.table, k);
    GetReadsMap(k, w.table, Some(R.Free(w.region, off).0.buffer));
    FreeKeepsBackedIff(Contents(w.table)[k], w.spec[k], w.region, w.sh, off);
  }

  lemma FreeKeepsBackedIff(e: Entry, v: Value, r: R.Region, sh: R.Shadow, off: nat)
    requires R.Inv(r, sh) && Backed(e, v, sh.live) && off in sh.live
    ensures Resolve(e, Some(R.Free(r, off).0.buffer)) == Some(Shown(v))
       <==> !(e.mode == Extent && RefOf(e) == off)
  {
    R.FreeInv(r, sh, off);
    if !(e.mode == Extent && RefOf(e) == off) {
      ResolveBacked(e, v, R.Free(r, off).0, R.Drop(sh, {off}));
    }
  }

  /** A put that succeeds is the update of one key; a put into a full table leaves the map its
      size and drops exactly one of the old keys and the new one. */
  lemma PutEffect(w: World, maxKick: nat, op: Cuckoo.Op, v: Value)
    requires Inv(w) && !op.Remove? && op.key.hash != 0
    ensures var k, spec := op.key, PutEntry(w, maxKick, op, v).spec;
            if Apply(w.table, maxKick, op).1 == Inserted then spec == w.spec[k := v]
            else k !in w.spec && exists lost :: lost in w.spec[k := v] && spec == w.spec[k := v] - {lost}
  {
    var item := ItemOf(op);
    InsertConserves(w.table, item, maxKick);
    HandIsLost(Contents(w.table), w.spec, w.sh.live, op.key, item.entry, v, InsertRaw(w.table, item, maxKick));
  }

  lemma HandIsLost(c: map<Key, Entry>, m: map<Key, Value>, live: map<nat, R.Object>, k: Key, e: Entry, v: Value,
                   r: Kicked)
    requires Agrees(c, m, live) && Conserves(c, Item(k, e), r) && (!r.ok ==> k !in c)
    ensures if r.ok then PutSpec(m, k, v, r) == m[k := v]
            else k !in m && r.hand.key in m[k := v] && PutSpec(m, k, v, r) == m[k := v] - {r.hand.key}
  {
    if !r.ok {
      assert r.hand.key in Contents(r.table)[r.hand.key := r.hand.entry];
    }
  }

  /** The map gained the value, or the table was full and one key of the outcome is missing. */
  ghost predicate Updated(m: map<Key, Value>, k: Key, v: Value, m': map<Key, Value>) {
    || m' == m[k := v]
    || (k !in m && exists lost :: lost in m[k := v] && m' == m[k := v] - {lost})
  }

  lemma PutUpdates(w: World, maxKick: nat, op: Cuckoo.Op, v: Value)
    requires Inv(w) && !op.Remove? && op.key.hash != 0
    ensures Updated(w.spec, op.key, v, PutEntry(w, maxKick, op, v).spec)
  {
    PutEffect(w, maxKick, op, v);
  }

  /** What each operation does to the map of puts: nothing but a put adds or changes a value, and
      nothing but a delete or a put into a full table removes one. */
  lemma StepEffect(w: World, maxKick: nat, op: Op)
    requires Inv(w) && Allowed(w, op)
    ensures Ready(w)
    ensures var m, m' := w.spec, Do(w, maxKick, op).spec;
            match op
            case PutInline(k, data) => if k.hash == 0 then m' == m else Updated(m, k, Value(data, Inline), m')
            case PutExtent(k, data) =>
              if k.hash == 0 || R.Allocate(w.region, data).1 == None then m' == m
              else Updated(m, k, Value(data, Extent), m')
            case Delete(k) => m' == m - {k}
            case Reclaim(_) => m' == m
  {
    R.InvInBounds(w.region, w.sh);
    match op
    case PutInline(k, data) =>
      if k.hash != 0 {
        PutUpdates(w, maxKick, Insert(k, data, Inline), Value(data, Inline));
      }
    case PutExtent(k, data) => PutLargeEffect(w, maxKick, k, data);
    case _ =>
  }

  lemma PutLargeEffect(w: World, maxKick: nat, k: Key, data: seq<Byte>)
    requires Inv(w) && |data| < TWO32 && Ready(w)
    ensures var m' := PutLarge(w, maxKick, k, data).spec;
            if k.hash == 0 || R.Allocate(w.region, data).1 == None then m' == w.spec
            else Updated(w.spec, k, Value(data, Extent), m')
  {
    PutLargeSpec(w, maxKick, k, data);
    var off := R.Allocate(w.region, data).1;
    if k.hash != 0 && off.Some? {
      PutAllocatedEffect(w, maxKick, k, data, off.value);
    }
  }

  lemma PutLargeSpec(w: World, maxKick: nat, k: Key, data: seq<Byte>)
    requires Ready(w)
    ensures PutLarge(w, maxKick, k, data).spec
         == match R.Allocate(w.region, data).1
            case None => w.spec
            case Some(o) => PutEntry(Allocated(w, data), maxKick, PutRef(k, o, |data|), Value(data, Extent)).spec
    ensures k.hash == 0 ==> PutLarge(w, maxKick, k, data).spec == w.spec
  {
  }

  lemma PutAllocatedEffect(w: World, maxKick: nat, k: Key, data: seq<Byte>, off: nat)
    requires Inv(w) && |data| < TWO32 && Ready(w) && k.hash != 0
    ensures Updated(w.spec, k, Value(data, Extent),
                    PutEntry(Allocated(w, data), maxKick, PutRef(k, off, |data|), Value(data, Extent)).spec)
  {
    AllocatedInv(w, data);
    PutUpdates(Allocated(w, data), maxKick, PutRef(k, off, |data|), Value(data, Extent));
  }

  /** The store end to end: after every history that frees and sweeps only extents no live bucket
      refers to, a get returns what the map of puts holds - an extent's bytes exactly, inline
      bytes cut or padded to 32 - and nothing for any other key. */
  lemma EndToEnd(n: nat, size: nat, maxKick: nat, ops: seq<Op>, w: World, k: Key)
    requires SizeOk(n) && size < TWO64 && k.hash != 0
    requires Leads(NewWorld(n, size), maxKick, ops, w)
    ensures Good(w.table)
    ensures GetFrom(w, k) == Ok(if k in w.spec then Some(Shown(w.spec[k])) else None)
  {
    NewWorldInv(n, size);
    RunInv(NewWorld(n, size), maxKick, ops, w);
    GetShows(w, k);
  }
}
