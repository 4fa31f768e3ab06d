/** Asynchronous replication (src/control/replication.rs): the primary writes its own bytes and
    queues each write; a flush replays the queue on the backup. */
module Replication {
  import opened Wrappers
  import opened Bytes

  datatype Write = Write(off: nat, data: seq<Byte>)

  /** The part of a write that does not fit is cut off; a write that starts beyond the end covers
      nothing.  (The engine cannot carry such a write out: it panics, see `Fits`.) */
  function Put(store: seq<Byte>, w: Write): (r: seq<Byte>)
    ensures |r| == |store|
    ensures forall i :: 0 <= i < |store| ==>
              r[i] == if w.off <= i < w.off + |w.data| then w.data[i - w.off] else store[i]
  {
    if w.off > |store| then store
    else
      var end := if w.off + |w.data| < |store| then w.off + |w.data| else |store|;
      Splice(store, w.off, w.data[..end - w.off])
  }

  /** The write starts inside the store or at its end; any other makes the engine panic. */
  predicate Fits(w: Write, n: nat) { w.off <= n }

  predicate InRange(ws: seq<Write>, n: nat) {
    forall i :: 0 <= i < |ws| ==> Fits(ws[i], n)
  }

  function Replay(store: seq<Byte>, ws: seq<Write>): (r: seq<Byte>)
    ensures |r| == |store|
    decreases |ws|
  {
    if ws == [] then store else Put(Replay(store, ws[..|ws| - 1]), ws[|ws| - 1])
  }

  /** The byte that the latest write covering position i left there. */
  function Latest(ws: seq<Write>, i: nat, initial: Byte): Byte
    decreases |ws|
  {
    if ws == [] then initial
    else
      var w := ws[|ws| - 1];
      if w.off <= i < w.off + |w.data| then w.data[i - w.off] else Latest(ws[..|ws| - 1], i, initial)
  }

  /** Replaying leaves every byte as the latest write that covers it. */
  lemma {:induction false} ReplayIsLatest(store: seq<Byte>, ws: seq<Write>, i: nat)
    requires i < |store|
    ensures Replay(store, ws)[i] == Latest(ws, i, store[i])
    decreases |ws|
  {
    if ws == [] {
    } else {
      ReplayIsLatest(store, ws[..|ws| - 1], i);
    }
  }

  lemma {:induction false} ReplayConcat(store: seq<Byte>, a: seq<Write>, b: seq<Write>)
    ensures Replay(store, a + b) == Replay(Replay(store, a), b)
    decreases |b|
  {
    if b == [] {
      assert a + b == a;
    } else {
      var n := |b| - 1;
      assert (a + b)[..|a| + n] == a + b[..n] && (a + b)[|a| + n] == b[n];
      ReplayConcat(store, a, b[..n]);
    }
  }

  // -- Flushing --------------------------------------------------------------------------------------

  /** The first write that does not fit, or the length of the queue. */
  function FirstBad(ws: seq<Write>, n: nat): (b: nat)
    ensures b <= |ws| && InRange(ws[..b], n) && (b < |ws| ==> !Fits(ws[b], n))
    ensures b == |ws| <==> InRange(ws, n)
    decreases |ws|
  {
    if ws == [] then 0
    else if !Fits(ws[0], n) then 0
    else
      assert ws == [ws[0]] + ws[1..];
      1 + FirstBad(ws[1..], n)
  }

  /** The first bad write is where all before it fit. */
  lemma FirstBadIs(ws: seq<Write>, n: nat, b: nat)
    requires b < |ws| && InRange(ws[..b], n) && !Fits(ws[b], n)
    ensures FirstBad(ws, n) == b
  {
    var c := FirstBad(ws, n);
    assert forall i :: 0 <= i < b ==> ws[..b][i] == ws[i];
    assert forall i :: 0 <= i < c ==> ws[..c][i] == ws[i];
  }

  /** The primary, the backup with its queue, and whether a panic has poisoned the backup's locks. */
  datatype State = State(primary: seq<Byte>, backup: seq<Byte>, pending: seq<Write>, poisoned: bool)

  /** A flush takes writes off the queue and applies them.  At a write that does not fit it panics:
      the earlier ones are applied, the bad one is off the queue, and the locks are poisoned. */
  function FlushTry(s: State): State {
    var b := FirstBad(s.pending, |s.backup|);
    if b == |s.pending| then s.(backup := Replay(s.backup, s.pending), pending := [])
    else s.(backup := Replay(s.backup, s.pending[..b]), pending := s.pending[b + 1..], poisoned := true)
  }

  // -- Runs ------------------------------------------------------------------------------------------

  datatype Op = WriteOp(w: Write) | FlushOp

  /** A write that does not fit the primary panics without effect; with poisoned locks a write still
      changes the primary before it panics, and a flush changes nothing. */
  function Do(s: State, op: Op): State {
    match op
    case WriteOp(w) =>
      if !Fits(w, |s.primary|) then s
      else if s.poisoned then s.(primary := Put(s.primary, w))
      else s.(primary := Put(s.primary, w), pending := s.pending + [w])
    case FlushOp => if s.poisoned then s else FlushTry(s)
  }

  function Run(s: State, ops: seq<Op>): State
    decreases |ops|
  {
    if ops == [] then s else Run(Do(s, ops[0]), ops[1..])
  }

  /** The two stores hold the same bytes on their common range. */
  predicate Agree(a: seq<Byte>, b: seq<Byte>) {
    forall i :: 0 <= i < |a| && i < |b| ==> a[i] == b[i]
  }

  /** Unless a flush has panicked, replaying the queue over the backup yields the primary on their
      common range. */
  ghost predicate Inv(s: State) { !s.poisoned ==> Agree(Replay(s.backup, s.pending), s.primary) }

  lemma StepInv(s: State, op: Op)
    requires Inv(s)
    ensures Inv(Do(s, op))
  {
    if op.WriteOp? {
      var q := s.pending + [op.w];
      assert q[..|q| - 1] == s.pending;
    }
  }

  lemma {:induction false} RunInv(s: State, ops: seq<Op>)
    requires Inv(s)
    ensures Inv(Run(s, ops))
    decreases |ops|
  {
    if ops == [] {
    } else {
      StepInv(s, ops[0]);
      RunInv(Do(s, ops[0]), ops[1..]);
    }
  }

  /** From stores that agree, with nothing queued, every interleaving of writes and flushes keeps
      the invariant, and a flush that does not panic makes the stores agree.  If the primary is not
      longer than the backup, no flush panics. */
  lemma FlushAgrees(s: State, ops: seq<Op>)
    requires s.pending == [] && !s.poisoned && Agree(s.backup, s.primary)
    ensures var u := Do(Run(s, ops), FlushOp);
            && Inv(Run(s, ops))
            && (!u.poisoned ==> Agree(u.backup, u.primary) && u.pending == [])
            && (|s.primary| <= |s.backup| ==> !u.poisoned)
  {
    RunInv(s, ops);
    StepInv(Run(s, ops), FlushOp);
    if |s.primary| <= |s.backup| {
      QueueFits(s, ops);
    }
  }

  lemma {:induction false} QueueFits(s: State, ops: seq<Op>)
    requires !s.poisoned && InRange(s.pending, |s.primary|) && |s.primary| <= |s.backup|
    ensures var t := Run(s, ops);
            !t.poisoned && InRange(t.pending, |t.primary|) && |t.primary| <= |t.backup|
    decreases |ops|
  {
    if ops == [] {
    } else {
      QueueFits(Do(s, ops[0]), ops[1..]);
    }
  }

  /** A flush that panics leaves the backup with the writes before the bad one, for good. */
  lemma {:induction false} FailedFlush(s: State, ops: seq<Op>)
    requires !s.poisoned && !InRange(s.pending, |s.backup|)
    ensures var b := FirstBad(s.pending, |s.backup|);
            var u := Do(s, FlushOp);
            && b < |s.pending| && u.poisoned && u.backup == Replay(s.backup, s.pending[..b])
            && u.pending == s.pending[b + 1..]
            && Run(u, ops).poisoned && Run(u, ops).backup == u.backup && Run(u, ops).pending == u.pending
  {
    Frozen(Do(s, FlushOp), ops);
  }

  lemma {:induction false} Frozen(s: State, ops: seq<Op>)
    requires s.poisoned
    ensures Run(s, ops).poisoned && Run(s, ops).backup == s.backup && Run(s, ops).pending == s.pending
    decreases |ops|
  {
    if ops == [] {
    } else {
      Frozen(Do(s, ops[0]), ops[1..]);
    }
  }

  ghost predicate FlushesAfter(s: State, ops: seq<Op>) { !Do(Run(s, ops), FlushOp).poisoned }

  /** No flush panics, in any run, exactly if the primary is not longer than the backup. */
  lemma NoFlushPanicsIff(s: State)
    requires s.pending == [] && !s.poisoned
    ensures (forall ops :: FlushesAfter(s, ops)) <==> |s.primary| <= |s.backup|
  {
    if |s.primary| <= |s.backup| {
      forall ops ensures FlushesAfter(s, ops) {
        QueueFits(s, ops);
      }
    } else {
      var w := Write(|s.primary|, []);
      var ops := [WriteOp(w)];
      assert ops[1..] == [];
      assert Run(s, ops) == Do(s, WriteOp(w));
      assert !Fits(Do(s, WriteOp(w)).pending[0], |s.backup|);
      assert !FlushesAfter(s, ops);
    }
  }

  /** The writes of a run that the primary accepts, in order. */
  function WritesOf(n: nat, ops: seq<Op>): seq<Write>
    decreases |ops|
  {
    if ops == [] then []
    else (if ops[0].WriteOp? && Fits(ops[0].w, n) then [ops[0].w] else []) + WritesOf(n, ops[1..])
  }

  /** The primary, for its part, is always what the accepted writes make of it, before a panic and
      after one. */
  lemma {:induction false} PrimaryIsHistory(s: State, ops: seq<Op>)
    ensures Run(s, ops).primary == Replay(s.primary, WritesOf(|s.primary|, ops))
    decreases |ops|
  {
    if ops == [] {
    } else {
      var rest := WritesOf(|s.primary|, ops[1..]);
      PrimaryIsHistory(Do(s, ops[0]), ops[1..]);
      if ops[0].WriteOp? && Fits(ops[0].w, |s.primary|) {
        ReplayConcat(s.primary, [ops[0].w], rest);
        assert [ops[0].w][..0] == [];
      } else {
        assert [] + rest == rest;
      }
    }
  }

  /** A write at the very end is accepted, queued, and flushed without effect; one byte further it
      panics. */
  lemma WriteAtTheEnd(s: State, data: seq<Byte>)
    requires !s.poisoned && s.pending == [] && |s.primary| == |s.backup|
    ensures var w := Write(|s.primary|, data);
            && Do(s, WriteOp(w)) == s.(pending := [w]) && Do(s.(pending := [w]), FlushOp) == s
            && Do(s, WriteOp(w.(off := w.off + 1))) == s
            && Do(s.(pending := [w.(off := w.off + 1)]), FlushOp) == s.(poisoned := true)
  {
    var w := Write(|s.primary|, data);
    FlushOne(s.(pending := [w]), w);
    FlushOne(s.(pending := [w.(off := w.off + 1)]), w.(off := w.off + 1));
    assert Put(s.primary, w) == s.primary && Put(s.backup, w) == s.backup;
  }

  lemma FlushOne(s: State, w: Write)
    requires s.pending == [w]
    ensures FlushTry(s) == if Fits(w, |s.backup|) then s.(backup := Put(s.backup, w), pending := [])
                           else s.(pending := [], poisoned := true)
  {
    assert [w][..0] == [] && [w][1..] == [];
    assert Replay(s.backup, [w]) == Put(s.backup, w);
  }

  /** What a backup amounts to after writes `all`: all of them, or, if a flush has panicked, those before
      the first that does not fit. */
  ghost predicate Holds(start: seq<Byte>, all: seq<Write>, t: State) {
    if !t.poisoned then Replay(t.backup, t.pending) == Replay(start, all)
    else
      var b := FirstBad(all, |start|);
      b < |all| && t.backup == Replay(start, all[..b])
  }

  /** Whenever the flushes happened and whether they succeeded, the backup is what the writes of the
      run in their order make of it. */
  lemma {:induction false} BackupIsHistory(s: State, ops: seq<Op>)
    requires !s.poisoned
    ensures Holds(s.backup, s.pending + WritesOf(|s.primary|, ops), Run(s, ops))
    decreases |ops|, 0
  {
    if ops == [] {
      assert s.pending + [] == s.pending;
    } else if ops[0].WriteOp? {
      BackupIsHistory(Do(s, ops[0]), ops[1..]);
      OneWrite(s, ops);
    } else {
      FlushHistory(s, ops[1..], WritesOf(|s.primary|, ops[1..]));
      assert WritesOf(|s.primary|, ops) == WritesOf(|s.primary|, ops[1..]);
    }
  }

  lemma OneWrite(s: State, ops: seq<Op>)
    requires !s.poisoned && ops != [] && ops[0].WriteOp?
    ensures var s1 := Do(s, ops[0]);
            && s1.backup == s.backup
            && s1.pending + WritesOf(|s1.primary|, ops[1..]) == s.pending + WritesOf(|s.primary|, ops)
  {
    var w, rest := ops[0].w, WritesOf(|s.primary|, ops[1..]);
    if Fits(w, |s.primary|) {
      Regroup(s.pending, w, rest);
    } else {
      assert WritesOf(|s.primary|, ops) == [] + rest == rest;
    }
  }

  lemma Regroup(a: seq<Write>, w: Write, b: seq<Write>)
    ensures (a + [w]) + b == a + ([w] + b)
  {
  }

  lemma FlushHistory(s: State, ops: seq<Op>, rest: seq<Write>)
    requires !s.poisoned && rest == WritesOf(|s.primary|, ops)
    ensures Holds(s.backup, s.pending + rest, Run(FlushTry(s), ops))
    decreases |ops|, 1
  {
    var n, u := |s.backup|, FlushTry(s);
    if u.poisoned {
      var b := FirstBad(s.pending, n);
      Frozen(u, ops);
      assert (s.pending + rest)[..b] == s.pending[..b];
      FirstBadIs(s.pending + rest, n, b);
    } else {
      BackupIsHistory(u, ops);
      assert [] + rest == rest;
      AfterGoodFlush(s.backup, s.pending, rest, Run(u, ops));
    }
  }

  lemma AfterGoodFlush(start: seq<Byte>, pending: seq<Write>, rest: seq<Write>, t: State)
    requires InRange(pending, |start|) && Holds(Replay(start, pending), rest, t)
    ensures Holds(start, pending + rest, t)
  {
    if t.poisoned {
      var b := FirstBad(rest, |start|);
      BadLater(pending, rest, |start|, b);
      BadAt(start, pending, rest[..b], pending + rest, t, |pending| + b);
    } else {
      ReplayConcat(start, pending, rest);
    }
  }

  lemma BadAt(start: seq<Byte>, pending: seq<Write>, good: seq<Write>, all: seq<Write>, t: State, b: nat)
    requires t.poisoned && b < |all| && FirstBad(all, |start|) == b && all[..b] == pending + good
    requires t.backup == Replay(Replay(start, pending), good)
    ensures Holds(start, all, t)
  {
    ReplayConcat(start, pending, good);
  }

  lemma BadLater(pending: seq<Write>, rest: seq<Write>, n: nat, b: nat)
    requires InRange(pending, n) && b < |rest| && FirstBad(rest, n) == b
    ensures FirstBad(pending + rest, n) == |pending| + b
    ensures (pending + rest)[..|pending| + b] == pending + rest[..b]
  {
    assert (pending + rest)[..|pending| + b] == pending + rest[..b];
    FirstBadIs(pending + rest, n, |pending| + b);
  }

  /** Byte by byte: unless a flush has panicked, a final one leaves each byte of the backup as the
      latest write of the whole run that covers it. */
  lemma FlushedByte(s: State, ops: seq<Op>, i: nat)
    requires s.pending == [] && !s.poisoned && !Run(s, ops).poisoned && i < |s.backup|
    ensures var t := Run(s, ops);
            && |t.backup| == |s.backup|
            && Replay(t.backup, t.pending)[i] == Latest(WritesOf(|s.primary|, ops), i, s.backup[i])
  {
    var ws := WritesOf(|s.primary|, ops);
    BackupIsHistory(s, ops);
    assert s.pending + ws == ws;
    ReplayIsLatest(s.backup, ws, i);
  }

  // -- The objects -----------------------------------------------------------------------------------

  /** `copy_from_slice` of the part that fits; a panic if nothing can. */
  method CopyClipped(a: array<Byte>, w: Write) returns (ok: bool)
    modifies a
    ensures ok == Fits(w, a.Length)
    ensures a[..] == Put(old(a[..]), w)
  {
    if w.off > a.Length {
      return false;
    }
    var end := if w.off + |w.data| < a.Length then w.off + |w.data| else a.Length;
    forall i | w.off <= i < end {
      a[i] := w.data[i - w.off];
    }
    return true;
  }

  /** One more write of the queue is applied. */
  lemma ReplayNext(store: seq<Byte>, queue: seq<Write>, done: nat)
    requires done < |queue|
    ensures Replay(store, queue[..done + 1]) == Put(Replay(store, queue[..done]), queue[done])
  {
    var ws := queue[..done + 1];
    assert ws[..|ws| - 1] == queue[..done] && ws[|ws| - 1] == queue[done];
    ReplayLast(store, ws);
  }

  lemma ReplayLast(store: seq<Byte>, ws: seq<Write>)
    requires ws != []
    ensures Replay(store, ws) == Put(Replay(store, ws[..|ws| - 1]), ws[|ws| - 1])
  {
  }

  lemma InRangeNext(queue: seq<Write>, done: nat, n: nat)
    requires done < |queue| && InRange(queue[..done], n) && Fits(queue[done], n)
    ensures InRange(queue[..done + 1], n)
  {
    assert queue[..done + 1] == queue[..done] + [queue[done]];
  }

  class BackupStore {
    const objects: array<Byte>
    var pending: seq<Write>
    var poisoned: bool

    ghost function At(primary: seq<Byte>): State
      reads this, objects
    {
      State(primary, objects[..], pending, poisoned)
    }

    constructor (capacity: nat)
      ensures fresh(objects) && objects[..] == Zeros(capacity) && pending == [] && !poisoned
    {
      objects := new Byte[capacity](i => 0);
      pending := [];
      poisoned := false;
    }

    /** Panics without effect if the locks are poisoned. */
    method EnqueueWrite(off: nat, data: seq<Byte>) returns (ok: bool)
      modifies this
      ensures ok == !old(poisoned) && poisoned == old(poisoned)
      ensures pending == if ok then old(pending) + [Write(off, data)] else old(pending)
    {
      ok := !poisoned;
      if ok {
        pending := pending + [Write(off, data)];
      }
    }

    /** The number of writes replicated, or nothing if the flush panics. */
    method Flush() returns (count: Option<nat>)
      modifies this, objects
      ensures At([]) == Do(old(At([])), FlushOp)
      ensures count == if poisoned then None else Some(|old(pending)|)
    {
      if poisoned {
        return None;
      }
      count := Some(|pending|);
      ghost var queue, done := pending, 0;
      while pending != []
        invariant 0 <= done <= |queue| && pending == queue[done..] && !poisoned
        invariant InRange(queue[..done], objects.Length)
        invariant objects[..] == Replay(old(objects[..]), queue[..done])
        decreases |pending|
      {
        var w := pending[0];
        pending := pending[1..];
        ReplayNext(old(objects[..]), queue, done);
        var ok := CopyClipped(objects, w);
        if !ok {
          FirstBadIs(queue, objects.Length, done);
          poisoned := true;
          return None;
        }
        InRangeNext(queue, done, objects.Length);
        done := done + 1;
      }
      assert queue[..done] == queue;
    }
  }

  class ReplicationManager {
    const backup: BackupStore

    constructor (capacity: nat)
      ensures fresh(backup) && fresh(backup.objects)
      ensures backup.objects[..] == Zeros(capacity) && backup.pending == [] && !backup.poisoned
    {
      backup := new BackupStore(capacity);
    }

    /** Answers whether it went through without a panic. */
    method WriteWithReplication(off: nat, data: seq<Byte>, local: array<Byte>) returns (ok: bool)
      requires local != backup.objects
      modifies local, backup
      ensures backup.At(local[..]) == Do(old(backup.At(local[..])), WriteOp(Write(off, data)))
      ensures ok == (Fits(Write(off, data), local.Length) && !backup.poisoned)
    {
      ok := CopyClipped(local, Write(off, data));
      if ok {
        ok := backup.EnqueueWrite(off, data);
      }
    }
  }
}
