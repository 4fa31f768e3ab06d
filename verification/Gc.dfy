/** Epoch-based reclamation (src/engine/gc.rs): deletions are scheduled with the current time,
    turned into marks at the next cycle, and collected by the first cycle in which every client
    has moved past the mark. */
module Gc {
  import opened Wrappers
  import opened Bits
  import opened Bytes
  import opened Extent
  import opened Region
  import RegionRuns
  import LargeObjects

  datatype Pending = Pending(off: nat, epoch: U64)

  /** The marks of all pending deletions, in the order of scheduling. */
  function MarkAll(r: Region, pending: seq<Pending>): Region
    decreases |pending|
  {
    if pending == [] then r
    else
      var last := pending[|pending| - 1];
      MarkForGc(MarkAll(r, pending[..|pending| - 1]), last.off, last.epoch).0
  }

  /** The smallest client timestamp. */
  function MinTs(ts: seq<U32>): (m: U32)
    requires ts != []
    ensures m in ts && forall t :: t in ts ==> m <= t
  {
    if |ts| == 1 then ts[0]
    else
      var m := MinTs(ts[1..]);
      assert forall t :: t in ts ==> t == ts[0] || t in ts[1..];
      if ts[0] <= m then ts[0] else m
  }

  /** `run_gc_cycle`: nothing without clients; else mark, sweep below the minimum, forget. */
  function Cycle(r: Region, pending: seq<Pending>, ts: seq<U32>, order: seq<nat>): (Region, seq<Pending>, nat) {
    if ts == [] then (r, pending, 0)
    else
      var (r', n) := Sweep(MarkAll(r, pending), order, MinTs(ts));
      (r', [], n)
  }

  // -- Marks ---------------------------------------------------------------------------------------

  /** The mark that an object will carry once the pending deletions are marked: the epoch of
      its latest scheduling, or the mark it has. */
  function Effective(pending: seq<Pending>, o: nat, mark: U64): U64 {
    if pending == [] then mark
    else
      var last := pending[|pending| - 1];
      if last.off == o then last.epoch else Effective(pending[..|pending| - 1], o, mark)
  }

  lemma {:induction false} EffectiveAbsent(pending: seq<Pending>, o: nat, mark: U64)
    requires forall p :: p in pending ==> p.off != o
    ensures Effective(pending, o, mark) == mark
    decreases |pending|
  {
    if pending == [] {
    } else {
      EffectiveAbsent(pending[..|pending| - 1], o, mark);
    }
  }

  ghost function MarkShadow(sh: Shadow, pending: seq<Pending>): Shadow {
    sh.(live := map o | o in sh.live :: sh.live[o].(mark := Effective(pending, o, sh.live[o].mark)))
  }

  ghost predicate Markable(sh: Shadow, p: Pending) {
    || (p.off in sh.live && p.epoch % TWO32 != EXTENT_MAGIC)
    || p.off in sh.freed
  }

  lemma {:induction false} MarkAllInv(r: Region, sh: Shadow, pending: seq<Pending>)
    requires Inv(r, sh) && forall p :: p in pending ==> Markable(sh, p)
    ensures Inv(MarkAll(r, pending), MarkShadow(sh, pending))
    decreases |pending|
  {
    if pending == [] {
      ShadowNone(sh);
    } else {
      var before, last := pending[..|pending| - 1], pending[|pending| - 1];
      assert pending == before + [last];
      assert Markable(sh, last);
      MarkAllInv(r, sh, before);
      MarkLast(MarkAll(r, before), sh, before, last);
    }
  }

  lemma MarkLast(r: Region, sh: Shadow, before: seq<Pending>, last: Pending)
    requires Inv(r, MarkShadow(sh, before)) && Markable(sh, last)
    ensures Inv(MarkForGc(r, last.off, last.epoch).0, MarkShadow(sh, before + [last]))
  {
    var sh1 := MarkShadow(sh, before);
    ShadowSnoc(sh, before, last);
    if last.off in sh.live && last.epoch % TWO32 != EXTENT_MAGIC {
      MarkInv(r, sh1, last.off, last.epoch);
    } else {
      assert last.off !in sh1.live;
      MarkFreed(r, sh1, last.off, last.epoch);
    }
  }

  lemma ShadowNone(sh: Shadow)
    ensures MarkShadow(sh, []) == sh
  {
    assert MarkShadow(sh, []).live == sh.live;
  }

  lemma ShadowSnoc(sh: Shadow, before: seq<Pending>, last: Pending)
    ensures var sh1 := MarkShadow(sh, before);
            MarkShadow(sh, before + [last]) == (if last.off in sh1.live then Remark(sh1, last.off, last.epoch) else sh1)
  {
    var pending := before + [last];
    assert pending[..|pending| - 1] == before;
    var sh1 := MarkShadow(sh, before);
    var goal := if last.off in sh1.live then Remark(sh1, last.off, last.epoch) else sh1;
    assert MarkShadow(sh, pending).live == goal.live;
  }

  // -- One cycle -----------------------------------------------------------------------------------

  /** The objects that a cycle with these timestamps collects. */
  ghost function Collected(sh: Shadow, pending: seq<Pending>, ts: seq<U32>): set<nat> {
    set o | o in sh.live && Stale(Effective(pending, o, sh.live[o].mark), ts)
  }

  /** An epoch that was set and lies strictly below every client timestamp. */
  predicate Stale(epoch: U64, ts: seq<U32>) {
    epoch > 0 && ts != [] && forall i :: 0 <= i < |ts| ==> epoch < ts[i]
  }

  lemma StaleIsBelowMin(epoch: U64, ts: seq<U32>)
    requires ts != []
    ensures Stale(epoch, ts) <==> 0 < epoch < MinTs(ts)
  {
    var i :| 0 <= i < |ts| && ts[i] == MinTs(ts);
  }

  /** A cycle frees exactly the objects whose latest epoch lies below every client timestamp,
      returns their number, and leaves every other object with its data and that epoch. */
  lemma CycleExact(r: Region, sh: Shadow, pending: seq<Pending>, ts: seq<U32>, order: seq<nat>)
    requires Inv(r, sh) && Enumerates(order, r.used) && forall p :: p in pending ==> Markable(sh, p)
    ensures var (r', pending', n) := Cycle(r, pending, ts, order);
            var gone := Collected(sh, pending, ts);
            if ts == [] then r' == r && pending' == pending && n == 0 && gone == {}
            else Inv(r', Drop(MarkShadow(sh, pending), gone)) && pending' == [] && n == |gone|
  {
    if ts != [] {
      var sh1 := MarkShadow(sh, pending);
      MarkAllInv(r, sh, pending);
      MarkAllKeepsUsed(r, pending);
      SweepExact(MarkAll(r, pending), sh1, order, MinTs(ts));
      CollectedIsDue(sh, pending, ts);
    }
  }

  lemma {:induction false} MarkAllKeepsUsed(r: Region, pending: seq<Pending>)
    ensures MarkAll(r, pending).used == r.used
    decreases |pending|
  {
    if pending == [] {
    } else {
      MarkAllKeepsUsed(r, pending[..|pending| - 1]);
    }
  }

  lemma CollectedIsDue(sh: Shadow, pending: seq<Pending>, ts: seq<U32>)
    requires ts != []
    ensures AllDue(MarkShadow(sh, pending), MinTs(ts)) == Collected(sh, pending, ts)
  {
    forall o | o in sh.live
      ensures o in AllDue(MarkShadow(sh, pending), MinTs(ts)) <==> o in Collected(sh, pending, ts)
    {
      StaleIsBelowMin(Effective(pending, o, sh.live[o].mark), ts);
    }
  }

  /** The pending list decides about whatever object is at an offset when the cycle runs: the latest
      epoch booked for the offset counts, or else the mark in the header. */
  lemma PendingDecides(r: Region, sh: Shadow, pending: seq<Pending>, ts: seq<U32>, order: seq<nat>, o: nat)
    requires Inv(r, sh) && Enumerates(order, r.used) && (forall p :: p in pending ==> Markable(sh, p))
    requires o in sh.live
    ensures o !in Cycle(r, pending, ts, order).0.used <==> Stale(Effective(pending, o, sh.live[o].mark), ts)
  {
    CycleExact(r, sh, pending, ts, order);
  }

  /** An object put at an offset whose deletion is still pending is reclaimed exactly if the epoch
      that was booked for its predecessor is stale. */
  lemma ReusedOffsetReclaimedIff(r: Region, sh: Shadow, data: seq<Byte>, pending: seq<Pending>, off: nat,
                                 ts: seq<U32>, order: seq<nat>)
    requires Inv(r, sh) && InBounds(r) && |data| < TWO32 && Allocate(r, data).1 == Some(off)
    requires Enumerates(order, Allocate(r, data).0.used)
    requires Bookings(sh, pending)
    ensures off !in Cycle(Allocate(r, data).0, pending, ts, order).0.used <==> Stale(Effective(pending, off, 0), ts)
  {
    var sh' := AllocShadow(r, sh, data);
    AllocateInv(r, sh, data);
    AllocateEffect(r, sh, data);
    BookingsKeep(sh, sh', pending);
    BookingsMarkable(sh', pending);
    PendingDecides(Allocate(r, data).0, sh', pending, ts, order, off);
  }

  /** What an allocation does to the objects and the freed offsets. */
  lemma AllocateEffect(r: Region, sh: Shadow, data: seq<Byte>)
    requires Inv(r, sh) && InBounds(r)
    ensures var off, sh' := Allocate(r, data).1, AllocShadow(r, sh, data);
            match off
            case None => sh' == sh
            case Some(o) => o !in sh.live && sh'.live == sh.live[o := Object(data, 0)] && sh'.freed >= sh.freed - {o}
  {
    RegionRuns.AllocateOutcome(r, sh, data);
  }

  // -- Runs ----------------------------------------------------------------------------------------

  datatype GcState = GcState(region: Region, pending: seq<Pending>)

  /** `due` records the latest epoch that stands against each offset; `own` the latest epoch for
      which the object now at the offset was itself scheduled. */
  datatype GcShadow = GcShadow(sh: Shadow, due: map<nat, U64>, own: map<nat, U64>)

  datatype Op =
    | Alloc(data: seq<Byte>)
    | Schedule(off: nat, now: U32)
    | FreeAt(off: nat)
    | RunCycle(ts: seq<U32>, order: seq<nat>)

  /** Only allocated offsets are scheduled.  Frees are not restricted. */
  ghost predicate Allowed(g: GcState, op: Op) {
    match op
    case Alloc(data) => |data| < TWO32
    case Schedule(off, now) => off in g.region.used && now != EXTENT_MAGIC
    case FreeAt(_) => true
    case RunCycle(_, order) => Enumerates(order, g.region.used)
  }

  function Step(g: GcState, op: Op): GcState
    requires InBounds(g.region)
  {
    match op
    case Alloc(data) => g.(region := Allocate(g.region, data).0)
    case Schedule(off, now) => g.(pending := g.pending + [Pending(off, now)])
    case FreeAt(off) => g.(region := Free(g.region, off).0)
    case RunCycle(ts, order) => var (r, p, _) := Cycle(g.region, g.pending, ts, order); GcState(r, p)
  }

  predicate IsPending(pending: seq<Pending>, off: nat) {
    exists i :: 0 <= i < |pending| && pending[i].off == off
  }

  /** What stands against an offset is struck off when the object is freed, unless the deletion is
      still pending; a cycle strikes off everything but the objects that stay. */
  ghost function ShadowStep(g: GcState, s: GcShadow, op: Op): GcShadow
    requires InBounds(g.region)
  {
    match op
    case Alloc(data) =>
      var off := Allocate(g.region, data).1;
      GcShadow(AllocShadow(g.region, s.sh, data), s.due, if off.Some? then s.own - {off.value} else s.own)
    case Schedule(off, now) => GcShadow(s.sh, s.due[off := now], s.own[off := now])
    case FreeAt(off) =>
      if off in s.sh.live then
        GcShadow(Drop(s.sh, {off}), if IsPending(g.pending, off) then s.due else s.due - {off}, s.own - {off})
      else s
    case RunCycle(ts, _) =>
      if ts == [] then s
      else
        var gone := Collected(s.sh, g.pending, ts);
        GcShadow(Drop(MarkShadow(s.sh, g.pending), gone), Among(s.due, s.sh.live.Keys - gone), s.own - gone)
  }

  ghost function Among(m: map<nat, U64>, keys: set<nat>): map<nat, U64> {
    map o | o in m && o in keys :: m[o]
  }

  function Latest(due: map<nat, U64>, o: nat): U64 { if o in due then due[o] else 0 }

  function MarkAt(live: map<nat, Object>, o: nat): U64 { if o in live then live[o].mark else 0 }

  /** A pending deletion is that of an object that is allocated, or was and has been freed. */
  ghost predicate Booking(sh: Shadow, p: Pending) {
    p.epoch % TWO32 != EXTENT_MAGIC && (p.off in sh.live || p.off in sh.freed)
  }

  ghost predicate Bookings(sh: Shadow, pending: seq<Pending>) {
    forall p :: p in pending ==> Booking(sh, p)
  }

  /** An offset that was allocated or freed stays so. */
  lemma BookingsKeep(sh: Shadow, sh': Shadow, pending: seq<Pending>)
    requires Bookings(sh, pending)
    requires forall o :: o in sh.live || o in sh.freed ==> o in sh'.live || o in sh'.freed
    ensures Bookings(sh', pending)
  {
    forall p | p in pending ensures Booking(sh', p) {
      assert Booking(sh, p);
    }
  }

  lemma BookingsMarkable(sh: Shadow, pending: seq<Pending>)
    requires Bookings(sh, pending)
    ensures forall p :: p in pending ==> Markable(sh, p)
  {
    forall p | p in pending ensures Markable(sh, p) {
      assert Booking(sh, p);
    }
  }

  lemma BookingsSnoc(sh: Shadow, pending: seq<Pending>, off: nat, now: U32)
    requires Bookings(sh, pending) && off in sh.live && now != EXTENT_MAGIC
    ensures Bookings(sh, pending + [Pending(off, now)])
  {
    assert now % TWO32 == now;
  }

  /** Pending list and header marks together say what stands against each offset. */
  ghost predicate Booked(live: map<nat, Object>, pending: seq<Pending>, due: map<nat, U64>) {
    forall o :: Effective(pending, o, MarkAt(live, o)) == Latest(due, o)
  }

  ghost predicate GcInv(g: GcState, s: GcShadow) {
    Inv(g.region, s.sh) && Booked(s.sh.live, g.pending, s.due) && Bookings(s.sh, g.pending)
  }

  lemma StepInv(g: GcState, s: GcShadow, op: Op)
    requires GcInv(g, s) && Allowed(g, op)
    ensures InBounds(g.region) && GcInv(Step(g, op), ShadowStep(g, s, op))
  {
    InvInBounds(g.region, s.sh);
    match op {
      case Alloc(data) => AllocStep(g, s, data);
      case Schedule(off, now) => ScheduleStep(g, s, off, now);
      case FreeAt(off) => FreeStep(g, s, off);
      case RunCycle(ts, order) => CycleStep(g, s, ts, order);
    }
  }

  lemma AllocStep(g: GcState, s: GcShadow, data: seq<Byte>)
    requires GcInv(g, s) && |data| < TWO32 && InBounds(g.region)
    ensures GcInv(Step(g, Alloc(data)), ShadowStep(g, s, Alloc(data)))
  {
    AllocateInv(g.region, s.sh, data);
    AllocateEffect(g.region, s.sh, data);
    BookingsKeep(s.sh, AllocShadow(g.region, s.sh, data), g.pending);
    var off := Allocate(g.region, data).1;
    if off.Some? {
      AllocBooked(s.sh.live, g.pending, s.due, off.value, data);
    }
  }

  lemma AllocBooked(live: map<nat, Object>, pending: seq<Pending>, due: map<nat, U64>, off: nat, data: seq<Byte>)
    requires Booked(live, pending, due) && off !in live
    ensures Booked(live[off := Object(data, 0)], pending, due)
  {
    forall o ensures Effective(pending, o, MarkAt(live[off := Object(data, 0)], o)) == Latest(due, o) {
      assert MarkAt(live[off := Object(data, 0)], o) == MarkAt(live, o);
    }
  }

  lemma ScheduleStep(g: GcState, s: GcShadow, off: nat, now: U32)
    requires GcInv(g, s) && InBounds(g.region) && off in g.region.used && now != EXTENT_MAGIC
    ensures GcInv(Step(g, Schedule(off, now)), ShadowStep(g, s, Schedule(off, now)))
  {
    ScheduleBooked(s.sh.live, g.pending, s.due, off, now);
    BookingsSnoc(s.sh, g.pending, off, now);
  }

  lemma ScheduleBooked(live: map<nat, Object>, pending: seq<Pending>, due: map<nat, U64>, off: nat, now: U32)
    requires Booked(live, pending, due)
    ensures Booked(live, pending + [Pending(off, now)], due[off := now])
  {
    var pending' := pending + [Pending(off, now)];
    assert pending'[..|pending'| - 1] == pending;
    forall o ensures Effective(pending', o, MarkAt(live, o)) == Latest(due[off := now], o) {
      assert Effective(pending, o, MarkAt(live, o)) == Latest(due, o);
    }
  }

  lemma FreeStep(g: GcState, s: GcShadow, off: nat)
    requires GcInv(g, s) && InBounds(g.region)
    ensures GcInv(Step(g, FreeAt(off)), ShadowStep(g, s, FreeAt(off)))
  {
    if off in s.sh.live {
      FreeLiveStep(g, s, off);
    } else {
      FreeInv(g.region, s.sh, off);
      assert Step(g, FreeAt(off)) == g && ShadowStep(g, s, FreeAt(off)) == s;
    }
  }

  lemma FreeLiveStep(g: GcState, s: GcShadow, off: nat)
    requires GcInv(g, s) && InBounds(g.region) && off in s.sh.live
    ensures GcInv(Step(g, FreeAt(off)), ShadowStep(g, s, FreeAt(off)))
  {
    FreedRegion(g.region, s.sh, off);
    FreedBookings(g, s, off, Free(g.region, off).0);
    StepOfFree(g, s, off);
  }

  lemma StepOfFree(g: GcState, s: GcShadow, off: nat)
    requires InBounds(g.region) && off in s.sh.live
    ensures Step(g, FreeAt(off)) == GcState(Free(g.region, off).0, g.pending)
    ensures var due := if IsPending(g.pending, off) then s.due else s.due - {off};
            ShadowStep(g, s, FreeAt(off)) == GcShadow(Drop(s.sh, {off}), due, s.own - {off})
  {
  }

  lemma FreedBookings(g: GcState, s: GcShadow, off: nat, r: Region)
    requires GcInv(g, s) && Inv(r, Drop(s.sh, {off}))
    ensures var due := if IsPending(g.pending, off) then s.due else s.due - {off};
            GcInv(GcState(r, g.pending), GcShadow(Drop(s.sh, {off}), due, s.own - {off}))
  {
    FreeBooked(s.sh.live, g.pending, s.due, off);
    BookingsKeep(s.sh, Drop(s.sh, {off}), g.pending);
  }

  lemma FreedRegion(r: Region, sh: Shadow, off: nat)
    requires Inv(r, sh) && off in sh.live
    ensures Inv(Free(r, off).0, Drop(sh, {off}))
  {
    FreeInv(r, sh, off);
  }

  lemma FreeBooked(live: map<nat, Object>, pending: seq<Pending>, due: map<nat, U64>, off: nat)
    requires Booked(live, pending, due)
    ensures Booked(live - {off}, pending, if IsPending(pending, off) then due else due - {off})
  {
    var due' := if IsPending(pending, off) then due else due - {off};
    forall o ensures Effective(pending, o, MarkAt(live - {off}, o)) == Latest(due', o) {
      assert Effective(pending, o, MarkAt(live, o)) == Latest(due, o);
      if o == off {
        if IsPending(pending, off) {
          EffectivePending(pending, off, MarkAt(live, off), 0);
        } else {
          EffectiveAbsent(pending, off, 0);
        }
      }
    }
  }

  /** What is pending counts, whatever the header says. */
  lemma {:induction false} EffectivePending(pending: seq<Pending>, o: nat, mark: U64, mark': U64)
    requires IsPending(pending, o)
    ensures Effective(pending, o, mark) == Effective(pending, o, mark')
    decreases |pending|
  {
    var before, last := pending[..|pending| - 1], pending[|pending| - 1];
    if last.off != o {
      var i :| 0 <= i < |pending| && pending[i].off == o;
      assert before[i].off == o;
      EffectivePending(before, o, mark, mark');
    }
  }

  lemma CycleStep(g: GcState, s: GcShadow, ts: seq<U32>, order: seq<nat>)
    requires GcInv(g, s) && InBounds(g.region) && Enumerates(order, g.region.used)
    ensures GcInv(Step(g, RunCycle(ts, order)), ShadowStep(g, s, RunCycle(ts, order)))
  {
    if ts == [] {
      IdleCycle(g, s, order);
    } else {
      var gone := Collected(s.sh, g.pending, ts);
      CycledRegion(g.region, s.sh, g.pending, ts, order);
      CycleBooked(s.sh, g.pending, s.due, gone);
      CycledState(g, s, ts, order, gone);
    }
  }

  lemma IdleCycle(g: GcState, s: GcShadow, order: seq<nat>)
    requires InBounds(g.region)
    ensures Step(g, RunCycle([], order)) == g && ShadowStep(g, s, RunCycle([], order)) == s
  {
  }

  lemma CycledRegion(r: Region, sh: Shadow, pending: seq<Pending>, ts: seq<U32>, order: seq<nat>)
    requires Inv(r, sh) && Bookings(sh, pending) && Enumerates(order, r.used) && ts != []
    ensures Inv(Cycle(r, pending, ts, order).0, Drop(MarkShadow(sh, pending), Collected(sh, pending, ts)))
  {
    BookingsMarkable(sh, pending);
    CycleExact(r, sh, pending, ts, order);
  }

  lemma CycledState(g: GcState, s: GcShadow, ts: seq<U32>, order: seq<nat>, gone: set<nat>)
    requires InBounds(g.region) && ts != [] && gone == Collected(s.sh, g.pending, ts)
    ensures Step(g, RunCycle(ts, order)) == GcState(Cycle(g.region, g.pending, ts, order).0, [])
    ensures ShadowStep(g, s, RunCycle(ts, order))
         == GcShadow(Drop(MarkShadow(s.sh, g.pending), gone), Among(s.due, s.sh.live.Keys - gone), s.own - gone)
  {
  }

  lemma CycleBooked(sh: Shadow, pending: seq<Pending>, due: map<nat, U64>, gone: set<nat>)
    requires Booked(sh.live, pending, due)
    ensures Booked(Drop(MarkShadow(sh, pending), gone).live, [], Among(due, sh.live.Keys - gone))
  {
    var live := Drop(MarkShadow(sh, pending), gone).live;
    forall o ensures Effective([], o, MarkAt(live, o)) == Latest(Among(due, sh.live.Keys - gone), o) {
      assert Effective(pending, o, MarkAt(sh.live, o)) == Latest(due, o);
    }
  }

  ghost predicate Runs(g: GcState, s: GcShadow, ops: seq<Op>, g': GcState, s': GcShadow)
    decreases |ops|
  {
    if ops == [] then g == g' && s == s'
    else InBounds(g.region) && Allowed(g, ops[0]) && Runs(Step(g, ops[0]), ShadowStep(g, s, ops[0]), ops[1..], g', s')
  }

  lemma {:induction false} RunInv(g: GcState, s: GcShadow, ops: seq<Op>, g': GcState, s': GcShadow)
    requires GcInv(g, s) && Runs(g, s, ops, g', s')
    ensures GcInv(g', s')
    decreases |ops|
  {
    if ops == [] {
    } else {
      StepInv(g, s, ops[0]);
      RunInv(Step(g, ops[0]), ShadowStep(g, s, ops[0]), ops[1..], g', s');
    }
  }

  function NewGc(size: nat): GcState { GcState(NewRegion(size), []) }

  const NO_BOOKINGS: GcShadow := GcShadow(RegionRuns.NOTHING, map[], map[])

  lemma NewGcInv(size: nat)
    ensures GcInv(NewGc(size), NO_BOOKINGS)
  {
    NewRegionInv(size);
  }

  /** Safety and progress over every history: a cycle reclaims an object if and only if the latest
      epoch that stands against its offset is set and below every timestamp of that cycle - no
      matter how many cycles have cleared the pending list in between, and no matter whether
      extents were freed while their deletion was pending.  All others keep their data. */
  lemma CycleReclaimsIff(size: nat, ops: seq<Op>, g: GcState, s: GcShadow, ts: seq<U32>, order: seq<nat>, o: nat)
    requires Runs(NewGc(size), NO_BOOKINGS, ops, g, s)
    requires Enumerates(order, g.region.used) && o in g.region.used
    ensures var r' := Cycle(g.region, g.pending, ts, order).0;
            && (o !in r'.used <==> Stale(Latest(s.due, o), ts))
            && (o !in r'.used ==> Read(r'.buffer, o) == None)
            && (o in r'.used ==> Read(r'.buffer, o) == Read(g.region.buffer, o))
  {
    NewGcInv(size);
    RunInv(NewGc(size), NO_BOOKINGS, ops, g, s);
    assert Effective(g.pending, o, MarkAt(s.sh.live, o)) == Latest(s.due, o);
    CycleReads(g, s, ts, order, o);
  }

  lemma CycleReads(g: GcState, s: GcShadow, ts: seq<U32>, order: seq<nat>, o: nat)
    requires GcInv(g, s) && Enumerates(order, g.region.used) && o in g.region.used
    ensures var r' := Cycle(g.region, g.pending, ts, order).0;
            && (o !in r'.used <==> Stale(Effective(g.pending, o, MarkAt(s.sh.live, o)), ts))
            && (o !in r'.used ==> Read(r'.buffer, o) == None)
            && (o in r'.used ==> Read(r'.buffer, o) == Read(g.region.buffer, o))
  {
    BookingsMarkable(s.sh, g.pending);
    CycleExact(g.region, s.sh, g.pending, ts, order);
    var r' := Cycle(g.region, g.pending, ts, order).0;
    LiveReads(g.region, s.sh, o);
    if ts != [] {
      var sh' := Drop(MarkShadow(s.sh, g.pending), Collected(s.sh, g.pending, ts));
      if o in sh'.live {
        LiveReads(r', sh', o);
      } else {
        FreedReadsNone(r', sh', o);
      }
    }
  }

  // -- Histories that do not free what is pending --------------------------------------------------

  /** No offset is freed by hand while its deletion is pending. */
  ghost predicate Disciplined(g: GcState, ops: seq<Op>)
    decreases |ops|
  {
    if ops == [] then true
    else
      && (ops[0].FreeAt? ==> !IsPending(g.pending, ops[0].off))
      && (InBounds(g.region) ==> Disciplined(Step(g, ops[0]), ops[1..]))
  }

  /** What stands against an offset was booked for the object that is there. */
  ghost predicate Honest(g: GcState, s: GcShadow) {
    s.due == s.own && s.due.Keys <= s.sh.live.Keys && forall p :: p in g.pending ==> p.off in s.sh.live
  }

  lemma HonestStep(g: GcState, s: GcShadow, op: Op)
    requires GcInv(g, s) && Honest(g, s) && Allowed(g, op) && InBounds(g.region)
    requires op.FreeAt? ==> !IsPending(g.pending, op.off)
    ensures Honest(Step(g, op), ShadowStep(g, s, op))
  {
    match op {
      case Alloc(data) => HonestAlloc(g, s, data);
      case Schedule(off, now) => HonestSchedule(g, s, off, now);
      case FreeAt(off) => HonestFree(g, s, off);
      case RunCycle(ts, order) =>
        if ts != [] {
          HonestCycle(s, Collected(s.sh, g.pending, ts), g.pending);
        }
    }
  }

  lemma HonestAlloc(g: GcState, s: GcShadow, data: seq<Byte>)
    requires Inv(g.region, s.sh) && Honest(g, s) && InBounds(g.region)
    ensures Honest(Step(g, Alloc(data)), ShadowStep(g, s, Alloc(data)))
  {
    AllocateEffect(g.region, s.sh, data);
    var off := Allocate(g.region, data).1;
    assert off.Some? ==> s.own - {off.value} == s.own;
  }

  lemma HonestSchedule(g: GcState, s: GcShadow, off: nat, now: U32)
    requires Honest(g, s) && InBounds(g.region) && off in s.sh.live
    ensures Honest(Step(g, Schedule(off, now)), ShadowStep(g, s, Schedule(off, now)))
  {
  }

  lemma HonestFree(g: GcState, s: GcShadow, off: nat)
    requires Honest(g, s) && InBounds(g.region) && !IsPending(g.pending, off)
    ensures Honest(Step(g, FreeAt(off)), ShadowStep(g, s, FreeAt(off)))
  {
    assert (s.due - {off}).Keys == s.due.Keys - {off};
    assert Drop(s.sh, {off}).live.Keys == s.sh.live.Keys - {off};
  }

  lemma HonestCycle(s: GcShadow, gone: set<nat>, pending: seq<Pending>)
    requires s.due == s.own && s.due.Keys <= s.sh.live.Keys
    ensures Among(s.due, s.sh.live.Keys - gone) == s.own - gone
    ensures (s.own - gone).Keys <= Drop(MarkShadow(s.sh, pending), gone).live.Keys
  {
    assert (s.own - gone).Keys == s.own.Keys - gone;
    assert Drop(MarkShadow(s.sh, pending), gone).live.Keys == s.sh.live.Keys - gone;
  }

  lemma {:induction false} HonestRun(g: GcState, s: GcShadow, ops: seq<Op>, g': GcState, s': GcShadow)
    requires GcInv(g, s) && Honest(g, s) && Runs(g, s, ops, g', s') && Disciplined(g, ops)
    ensures Honest(g', s')
    decreases |ops|
  {
    if ops == [] {
    } else {
      StepInv(g, s, ops[0]);
      HonestStep(g, s, ops[0]);
      HonestRun(Step(g, ops[0]), ShadowStep(g, s, ops[0]), ops[1..], g', s');
    }
  }

  /** In such a history an object is reclaimed if and only if it was itself scheduled, and its latest
      epoch is set and below every timestamp; what was never scheduled survives every cycle. */
  lemma OwnEpochDecides(size: nat, ops: seq<Op>, g: GcState, s: GcShadow, ts: seq<U32>, order: seq<nat>, o: nat)
    requires Runs(NewGc(size), NO_BOOKINGS, ops, g, s) && Disciplined(NewGc(size), ops)
    requires Enumerates(order, g.region.used) && o in g.region.used
    ensures o !in Cycle(g.region, g.pending, ts, order).0.used <==> o in s.own && Stale(s.own[o], ts)
  {
    NewGcInv(size);
    HonestRun(NewGc(size), NO_BOOKINGS, ops, g, s);
    CycleReclaimsIff(size, ops, g, s, ts, order, o);
  }

  /** Without the discipline a never-scheduled object can be lost: its offset was scheduled for its
      predecessor, which was then freed by hand. */
  lemma FreedWhilePendingLosesObject(size: nat, now: U32, ts: U32) returns (ops: seq<Op>, g: GcState, s: GcShadow)
    requires size >= 32 && 0 < now < ts && now != EXTENT_MAGIC
    ensures Runs(NewGc(size), NO_BOOKINGS, ops, g, s)
    ensures g.region.used == {0} && s.own == map[]
    ensures 0 !in Cycle(g.region, g.pending, [ts], [0]).0.used
  {
    var g1, s1 := FirstExtent(size);
    g, s := ScheduleAndRecycle(g1, s1, now);
    ops := [Alloc([])] + [Schedule(0, now), FreeAt(0), Alloc([])];
    RunsCons(NewGc(size), NO_BOOKINGS, Alloc([]), [Schedule(0, now), FreeAt(0), Alloc([])], g, s);
    CycleReclaimsIff(size, ops, g, s, [ts], [0], 0);
  }

  lemma RunsCons(g: GcState, s: GcShadow, op: Op, rest: seq<Op>, g': GcState, s': GcShadow)
    requires InBounds(g.region) && Allowed(g, op) && Runs(Step(g, op), ShadowStep(g, s, op), rest, g', s')
    ensures Runs(g, s, [op] + rest, g', s')
  {
    assert ([op] + rest)[1..] == rest;
  }

  lemma ScheduleAndRecycle(g: GcState, s: GcShadow, now: U32) returns (g': GcState, s': GcShadow)
    requires GcInv(g, s) && g.region.used == {0} && g.region.free == [] && g.pending == [] && now != EXTENT_MAGIC
    requires s.sh.blocks == map[0 := 32] && s.due == map[] && s.own == map[]
    ensures Runs(g, s, [Schedule(0, now), FreeAt(0), Alloc([])], g', s')
    ensures g'.region.used == {0} && s'.own == map[] && s'.due == map[0 := now]
  {
    var u, v := ScheduleFirst(g, s, now);
    g', s' := Recycle(u, v);
    RunsCons(g, s, Schedule(0, now), [FreeAt(0), Alloc([])], g', s');
    assert [Schedule(0, now)] + [FreeAt(0), Alloc([])] == [Schedule(0, now), FreeAt(0), Alloc([])];
  }

  lemma ScheduleFirst(g: GcState, s: GcShadow, now: U32) returns (u: GcState, v: GcShadow)
    requires GcInv(g, s) && g.region.used == {0} && g.pending == [] && now != EXTENT_MAGIC
    requires s.due == map[] && s.own == map[]
    ensures InBounds(g.region) && u == Step(g, Schedule(0, now)) && v == ShadowStep(g, s, Schedule(0, now))
    ensures GcInv(u, v) && u.region == g.region && v.sh == s.sh && IsPending(u.pending, 0)
    ensures v.due == map[0 := now] && v.own == map[0 := now]
  {
    StepInv(g, s, Schedule(0, now));
    u, v := Step(g, Schedule(0, now)), ShadowStep(g, s, Schedule(0, now));
    assert u.pending[0].off == 0;
  }

  lemma FirstExtent(size: nat) returns (g: GcState, s: GcShadow)
    requires size >= 32
    ensures InBounds(NewGc(size).region) && GcInv(g, s)
    ensures g == Step(NewGc(size), Alloc([])) && s == ShadowStep(NewGc(size), NO_BOOKINGS, Alloc([]))
    ensures g.region.used == {0} && g.region.free == [] && g.pending == []
    ensures s.sh.blocks == map[0 := 32] && s.due == map[] && s.own == map[]
  {
    NewGcInv(size);
    StepInv(NewGc(size), NO_BOOKINGS, Alloc([]));
    g, s := Step(NewGc(size), Alloc([])), ShadowStep(NewGc(size), NO_BOOKINGS, Alloc([]));
  }

  /** The only extent is freed and its space is handed out again. */
  lemma Recycle(g: GcState, s: GcShadow) returns (g': GcState, s': GcShadow)
    requires GcInv(g, s) && g.region.used == {0} && g.region.free == [] && s.sh.blocks == map[0 := 32]
    requires IsPending(g.pending, 0) && s.own.Keys <= {0}
    ensures Runs(g, s, [FreeAt(0), Alloc([])], g', s')
    ensures g'.region.used == {0} && s'.own == map[] && s'.due == s.due && g'.pending == g.pending
  {
    var u, v := RecycleFree(g, s);
    g', s' := RecycleAlloc(u, v);
    RunsTwo(g, s, FreeAt(0), u, v, Alloc([]), g', s');
  }

  lemma RunsTwo(g: GcState, s: GcShadow, a: Op, u: GcState, v: GcShadow, b: Op, g': GcState, s': GcShadow)
    requires InBounds(g.region) && Allowed(g, a) && u == Step(g, a) && v == ShadowStep(g, s, a)
    requires InBounds(u.region) && Allowed(u, b) && g' == Step(u, b) && s' == ShadowStep(u, v, b)
    ensures Runs(g, s, [a, b], g', s')
  {
    RunsCons(u, v, b, [], g', s');
    RunsCons(g, s, a, [b], g', s');
    assert [b] + [] == [b] && [a] + [b] == [a, b];
  }

  lemma RecycleFree(g: GcState, s: GcShadow) returns (u: GcState, v: GcShadow)
    requires GcInv(g, s) && g.region.used == {0} && g.region.free == [] && s.sh.blocks == map[0 := 32]
    requires IsPending(g.pending, 0) && s.own.Keys <= {0}
    ensures InBounds(g.region) && u == Step(g, FreeAt(0)) && v == ShadowStep(g, s, FreeAt(0)) && GcInv(u, v)
    ensures u.region.free == [Block(0, 32)] && u.region.used == {} && u.pending == g.pending
    ensures v.due == s.due && v.own == map[]
  {
    StepInv(g, s, FreeAt(0));
    FreeInv(g.region, s.sh, 0);
    u, v := Step(g, FreeAt(0)), ShadowStep(g, s, FreeAt(0));
    assert v.sh.live == map[];
  }

  lemma RecycleAlloc(g: GcState, s: GcShadow) returns (u: GcState, v: GcShadow)
    requires GcInv(g, s) && g.region.free == [Block(0, 32)] && g.region.used == {} && s.own == map[]
    ensures InBounds(g.region) && u == Step(g, Alloc([])) && v == ShadowStep(g, s, Alloc([])) && GcInv(u, v)
    ensures u.region.used == {0} && u.pending == g.pending && v.due == s.due && v.own == map[]
  {
    StepInv(g, s, Alloc([]));
    u, v := Step(g, Alloc([])), ShadowStep(g, s, Alloc([]));
  }

  // -- The collector as an object --------------------------------------------------------------------

  class EpochGc {
    var pending: seq<Pending>

    constructor ()
      ensures pending == []
    {
      pending := [];
    }

    method ScheduleDeletion(off: nat, now: U32)
      modifies this
      ensures pending == old(pending) + [Pending(off, now)]
    {
      pending := pending + [Pending(off, now)];
    }

    method MarkPending(region: LargeObjects.LargeObjectRegion)
      modifies region.buffer
      ensures region.State() == MarkAll(old(region.State()), pending)
    {
      for i := 0 to |pending|
        invariant region.State() == MarkAll(old(region.State()), pending[..i])
      {
        assert pending[..i + 1][..i] == pending[..i];
        var _ := region.MarkForGc(pending[i].off, pending[i].epoch);
      }
      assert pending[..|pending|] == pending;
    }

    method SweepRegion(region: LargeObjects.LargeObjectRegion, minActive: U32) returns (freed: nat, ghost order: seq<nat>)
      modifies this, region, region.buffer
      ensures Enumerates(order, old(region.used))
      ensures (region.State(), freed) == Sweep(MarkAll(old(region.State()), old(pending)), order, minActive)
      ensures pending == []
    {
      MarkAllKeepsUsed(region.State(), pending);
      MarkPending(region);
      freed, order := region.Sweep(minActive);
      pending := [];
    }

    method RunGcCycle(region: LargeObjects.LargeObjectRegion, ts: seq<U32>) returns (freed: nat, ghost order: seq<nat>)
      modifies this, region, region.buffer
      ensures Enumerates(order, old(region.used))
      ensures (region.State(), pending, freed) == Cycle(old(region.State()), old(pending), ts, order)
    {
      if ts == [] {
        order := region.CollectOffsets();
        return 0, order;
      }
      var m := ts[0];
      for i := 1 to |ts|
        invariant m in ts && forall j :: 0 <= j < i ==> m <= ts[j]
      {
        if ts[i] < m {
          m := ts[i];
        }
      }
      assert m == MinTs(ts);
      freed, order := SweepRegion(region, m);
    }
  }
}
