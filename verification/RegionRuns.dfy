/** Histories of the large object region (src/engine/extent.rs). */
module RegionRuns {
  import opened Wrappers
  import opened Bits
  import opened Bytes
  import opened Extent
  import opened Region
  import opened Space

  datatype Op =
    | Alloc(data: seq<Byte>)
    | FreeAt(off: nat)
    | Mark(off: nat, epoch: U64)
    | SweepBelow(minActive: nat, order: seq<nat>)

  /** Data that fits the length field; marks only on allocated extents and never one that looks
      like a V1 magic; any order of iteration. */
  ghost predicate Allowed(r: Region, op: Op) {
    match op
    case Alloc(data) => |data| < TWO32
    case FreeAt(_) => true
    case Mark(off, epoch) => off in r.used && epoch % TWO32 != EXTENT_MAGIC
    case SweepBelow(_, order) => Enumerates(order, r.used)
  }

  function Step(r: Region, op: Op): Region
    requires InBounds(r)
  {
    match op
    case Alloc(data) => Allocate(r, data).0
    case FreeAt(off) => Free(r, off).0
    case Mark(off, epoch) => MarkForGc(r, off, epoch).0
    case SweepBelow(minActive, order) => Sweep(r, order, minActive).0
  }

  ghost function ShadowStep(r: Region, sh: Shadow, op: Op): Shadow
    requires InBounds(r)
  {
    match op
    case Alloc(data) => AllocShadow(r, sh, data)
    case FreeAt(off) => if off in sh.live then Drop(sh, {off}) else sh
    case Mark(off, epoch) => if off in sh.live then Remark(sh, off, epoch) else sh
    case SweepBelow(minActive, _) => Drop(sh, AllDue(sh, minActive))
  }

  lemma StepInv(r: Region, sh: Shadow, op: Op)
    requires Inv(r, sh) && Allowed(r, op)
    ensures InBounds(r) && Inv(Step(r, op), ShadowStep(r, sh, op))
  {
    InvInBounds(r, sh);
    match op {
      case Alloc(data) => AllocateInv(r, sh, data);
      case FreeAt(off) => FreeInv(r, sh, off);
      case Mark(off, epoch) => MarkInv(r, sh, off, epoch);
      case SweepBelow(minActive, order) => SweepExact(r, sh, order, minActive);
    }
  }

  const NOTHING: Shadow := Shadow(map[], map[], {})

  ghost predicate Runs(r: Region, sh: Shadow, ops: seq<Op>, r': Region, sh': Shadow)
    decreases |ops|
  {
    if ops == [] then r == r' && sh == sh'
    else InBounds(r) && Allowed(r, ops[0]) && Runs(Step(r, ops[0]), ShadowStep(r, sh, ops[0]), ops[1..], r', sh')
  }

  lemma {:induction false} RunInv(r: Region, sh: Shadow, ops: seq<Op>, r': Region, sh': Shadow)
    requires Inv(r, sh) && Runs(r, sh, ops, r', sh')
    ensures Inv(r', sh')
    decreases |ops|
  {
    if ops == [] {
    } else {
      StepInv(r, sh, ops[0]);
      RunInv(Step(r, ops[0]), ShadowStep(r, sh, ops[0]), ops[1..], r', sh');
    }
  }

  /** Region integrity: through every history, allocated footprints and free blocks are aligned,
      disjoint and tile the bytes below the bump pointer exactly; every allocated offset reads
      back its own data; every freed offset reads as nothing; no byte is lost. */
  lemma RegionIntegrity(size: nat, ops: seq<Op>, r: Region, sh: Shadow, o: nat, x: nat, order: seq<nat>)
    requires Runs(NewRegion(size), NOTHING, ops, r, sh)
    ensures Tiles(sh.blocks, r.next) && r.next <= |r.buffer|
    ensures x < r.next ==> exists p :: p in sh.blocks && p <= x < p + sh.blocks[p]
    ensures r.used == sh.live.Keys && FreeListed(r.free, sh.blocks, r.used)
    ensures o in r.used ==> o in sh.blocks && sh.blocks[o] == ExtentTotal(|sh.live[o].data|)
    ensures o in r.used ==> Read(r.buffer, o) == Some(sh.live[o].data)
    ensures o in sh.freed ==> o !in r.used && Read(r.buffer, o) == None
    ensures Enumerates(order, r.used) ==> UsedBytes(r.buffer, order) + FreeBytes(r.free) == r.next
  {
    NewRegionInv(size);
    RunInv(NewRegion(size), NOTHING, ops, r, sh);
    if x < r.next {
      EveryByteInOneBlock(sh.blocks, r.next, x);
    }
    if o in r.used {
      LiveReads(r, sh, o);
      assert StoredAt(r.buffer, sh.blocks, o, sh.live[o]);
    }
    if o in sh.freed {
      FreedReadsNone(r, sh, o);
    }
    if Enumerates(order, r.used) {
      SpaceConserved(r, sh, order);
    }
  }

  /** An allocation hands out an offset that nobody holds and stores the data there unmarked;
      it fails only if neither the free list nor the tail has room, and then changes nothing. */
  lemma AllocateOutcome(r: Region, sh: Shadow, data: seq<Byte>)
    requires Inv(r, sh)
    ensures InBounds(r)
    ensures var (r', off) := Allocate(r, data);
            match off
            case None =>
              && r' == r && r.next + ExtentTotal(|data|) > |r.buffer|
              && forall i :: 0 <= i < |r.free| ==> r.free[i].len < ExtentTotal(|data|)
            case Some(o) => o !in sh.live && AllocShadow(r, sh, data).live == sh.live[o := Object(data, 0)]
  {
    InvInBounds(r, sh);
    UsedBelowNext(r, sh);
  }

  lemma UsedBelowNext(r: Region, sh: Shadow)
    requires Inv(r, sh)
    ensures forall o :: o in sh.live ==> o < r.next
  {
    forall o | o in sh.live ensures o < r.next {
      assert StoredAt(r.buffer, sh.blocks, o, sh.live[o]);
    }
  }

  /** The new object reads back, and every object that was there before still does. */
  lemma AllocateKeepsReads(r: Region, sh: Shadow, data: seq<Byte>, p: nat)
    requires Inv(r, sh) && |data| < TWO32 && InBounds(r) && Allocate(r, data).1.Some?
    ensures var (r', off) := Allocate(r, data);
            && Read(r'.buffer, off.value) == Some(data)
            && (p in sh.live ==> p != off.value && Read(r'.buffer, p) == Read(r.buffer, p))
  {
    AllocateInv(r, sh, data);
    AllocateOutcome(r, sh, data);
    ReadsAfter(r, sh, Allocate(r, data).0, AllocShadow(r, sh, data), Allocate(r, data).1.value, Object(data, 0), p);
  }

  lemma ReadsAfter(r: Region, sh: Shadow, r': Region, sh': Shadow, off: nat, x: Object, p: nat)
    requires Inv(r, sh) && Inv(r', sh') && off !in sh.live && sh'.live == sh.live[off := x]
    ensures Read(r'.buffer, off) == Some(x.data)
    ensures p in sh.live ==> p != off && Read(r'.buffer, p) == Read(r.buffer, p)
  {
    LiveReads(r', sh', off);
    if p in sh.live {
      LiveReads(r, sh, p);
      LiveReads(r', sh', p);
    }
  }

  /** Some allocation of the run returns the offset. */
  ghost predicate HandsOut(r: Region, ops: seq<Op>, o: nat)
    decreases |ops|
  {
    ops != [] && InBounds(r) &&
    (|| (ops[0].Alloc? && Allocate(r, ops[0].data).1 == Some(o))
     || HandsOut(Step(r, ops[0]), ops[1..], o))
  }

  lemma FreedStays(r: Region, sh: Shadow, op: Op, o: nat)
    requires Inv(r, sh) && Allowed(r, op) && InBounds(r) && o in sh.freed
    requires op.Alloc? ==> Allocate(r, op.data).1 != Some(o)
    ensures o in ShadowStep(r, sh, op).freed
  {
  }

  /** A freed offset reads as nothing until an allocation returns that same offset. */
  lemma {:induction false} FreedUntilHandedOut(r: Region, sh: Shadow, ops: seq<Op>, r': Region, sh': Shadow, o: nat)
    requires Inv(r, sh) && Runs(r, sh, ops, r', sh') && o in sh.freed && !HandsOut(r, ops, o)
    ensures o in sh'.freed && o !in r'.used && Read(r'.buffer, o) == None
    decreases |ops|
  {
    if ops == [] {
      FreedReadsNone(r, sh, o);
    } else {
      StepInv(r, sh, ops[0]);
      FreedStays(r, sh, ops[0], o);
      FreedUntilHandedOut(Step(r, ops[0]), ShadowStep(r, sh, ops[0]), ops[1..], r', sh', o);
    }
  }

  /** And an offset that a free or a sweep takes from the allocated ones is freed in this sense. */
  lemma ReleasedIsFreed(r: Region, sh: Shadow, op: Op, o: nat)
    requires Inv(r, sh) && Allowed(r, op) && o in r.used
    ensures InBounds(r) && (o !in Step(r, op).used ==> o in ShadowStep(r, sh, op).freed)
  {
    StepInv(r, sh, op);
    var sh' := ShadowStep(r, sh, op);
    assert Step(r, op).used == sh'.live.Keys;
  }
}
