/** Runs of the distributed allocator (src/engine/extent.rs): an undisturbed writer finishes, and
    what a reader can be told if the checksum is not read first or the space was not zeroed. */
module RemoteLimits {
  import opened Bits
  import opened Bytes
  import opened Extent
  import opened RemoteAllocator

  ghost predicate Reachable(s: State, t: State) {
    exists steps :: Reaches(s, steps, t)
  }

  lemma ReachableRefl(s: State)
    ensures Reachable(s, s)
  {
    assert Reaches(s, [], s);
  }

  lemma {:induction false} ReachesAppend(s: State, a: seq<Step>, t: State, b: seq<Step>, u: State)
    requires Reaches(s, a, t) && Reaches(t, b, u)
    ensures Reaches(s, a + b, u)
    decreases |a|
  {
    if a == [] {
      assert a + b == b;
    } else {
      assert (a + b)[0] == a[0] && (a + b)[1..] == a[1..] + b;
      ReachesAppend(Do(s, a[0]), a[1..], t, b, u);
    }
  }

  lemma ReachableTrans(s: State, t: State, u: State)
    requires Reachable(s, t) && Reachable(t, u)
    ensures Reachable(s, u)
  {
    var a :| Reaches(s, a, t);
    var b :| Reaches(t, b, u);
    ReachesAppend(s, a, t, b, u);
  }

  lemma ReachableStep(s: State, st: Step)
    requires Enabled(s, st)
    ensures Reachable(s, Do(s, st))
  {
    assert [st][1..] == [];
    assert Reaches(Do(s, st), [], Do(s, st));
    assert Reaches(s, [st], Do(s, st));
  }

  lemma ReachableInv(s: State, t: State)
    requires Inv(s) && Reachable(s, t)
    ensures Inv(t) && Extends(s, t)
  {
    var a :| Reaches(s, a, t);
    RunInv(s, a, t);
    RunExtends(s, a, t);
  }

  // -- A writer finishes ---------------------------------------------------------------------------

  /** The client's reservation lies inside the memory. */
  ghost predicate Room(s: State, c: nat) {
    s.Owns(c) && s.log[s.clients[c].k].End() <= |s.mem|
  }

  lemma AddressInside(s: State, c: nat, i: nat)
    requires Inv(s) && Room(s, c) && i < |s.log[s.clients[c].k].Outgoing()|
    ensures Enabled(s, Place(c, i))
  {
    assert Progress(s.mem, s.log[s.clients[c].k]);
  }

  lemma PlaceOne(s0: State, s: State, c: nat, i: nat) returns (t: State)
    requires Inv(s0) && Reachable(s0, s) && Room(s, c) && i < |s.log[s.clients[c].k].Outgoing()|
    ensures Reachable(s0, t) && Room(t, c) && t.clients == s.clients
    ensures var e, f := s.log[s.clients[c].k], t.log[t.clients[c].k];
            f == e.(placed := e.placed + {i})
  {
    ReachableInv(s0, s);
    AddressInside(s, c, i);
    t := Do(s, Place(c, i));
    ReachableStep(s, Place(c, i));
    ReachableTrans(s0, s, t);
  }

  /** The bytes from i on are placed one after the other. */
  lemma {:induction false} PlaceRest(s0: State, s: State, c: nat, i: nat) returns (t: State)
    requires Inv(s0) && Reachable(s0, s) && Room(s, c) && i <= |s.log[s.clients[c].k].Outgoing()|
    requires forall j :: 0 <= j < i ==> j in s.log[s.clients[c].k].placed
    ensures Reachable(s0, t) && Room(t, c) && t.clients == s.clients && t.log[t.clients[c].k].Complete()
    ensures t.log[t.clients[c].k].phase == s.log[s.clients[c].k].phase
    decreases |s.log[s.clients[c].k].Outgoing()| - i
  {
    if i == |s.log[s.clients[c].k].Outgoing()| {
      t := s;
    } else {
      var u := PlaceOne(s0, s, c, i);
      t := PlaceRest(s0, u, c, i + 1);
    }
  }

  /** One remote write is carried out and the next begins. */
  lemma FinishPhase(s0: State, s: State, c: nat) returns (t: State)
    requires Inv(s0) && Reachable(s0, s) && Room(s, c)
    ensures Reachable(s0, t) && Room(t, c) && t.clients == s.clients
    ensures t.log[t.clients[c].k].phase == s.log[s.clients[c].k].Next().phase
  {
    var u := PlaceRest(s0, s, c, 0);
    ReachableInv(s0, u);
    t := Do(u, Proceed(c));
    ReachableStep(u, Proceed(c));
    ReachableTrans(s0, u, t);
  }

  /** A writer whom nobody disturbs, at whatever point of its writes, can finish. */
  lemma WriterFinishes(s: State, c: nat) returns (t: State)
    requires Inv(s) && Room(s, c)
    ensures Reachable(s, t) && Inv(t) && Extends(s, t) && t.clients == s.clients
    ensures t.log[s.clients[c].k].phase == Published
  {
    ReachableRefl(s);
    var a := FinishPhase(s, s, c);
    var b := FinishPhase(s, a, c);
    t := FinishPhase(s, b, c);
    ReachableInv(s, t);
  }

  /** A client that is left alone reserves the space at the bump word. */
  lemma ReserveAlone(s: State, c: nat, data: seq<Byte>) returns (t: State)
    requires Inv(s) && c in s.clients && s.clients[c].Idle? && |data| < TWO32
    requires s.Bump() + ExtentTotal(|data|) < TWO64
    ensures Reachable(s, t) && t.clients == s.clients[c := Writing(|s.log|)] && |t.mem| == |s.mem|
    ensures t.log == s.log + [Prepare(s.hash, s.Bump(), data)]
    ensures t.Bump() == s.Bump() + ExtentTotal(|data|)
  {
    var u := Do(s, Begin(c, data));
    ReachableStep(s, Begin(c, data));
    t := Do(u, Cas(c));
    ReachableStep(u, Cas(c));
    ReachableTrans(s, u, t);
    assert u.clients[c] == HasRead(data, s.Bump());
    FromLe8(s.Bump() + ExtentTotal(|data|));
  }

  /** And it can finish: the data are stored there and published. */
  lemma ClientStores(s: State, c: nat, data: seq<Byte>) returns (t: State)
    requires Inv(s) && c in s.clients && s.clients[c].Idle? && |data| < TWO32
    requires s.Bump() + ExtentTotal(|data|) <= |s.mem| < TWO64
    ensures Reachable(s, t) && Inv(t) && |s.log| < |t.log|
    ensures var e := t.log[|s.log|]; e.off == s.Bump() && e.data == data && e.phase == Published
  {
    var u := ReserveAlone(s, c, data);
    ReachableInv(s, u);
    t := WriterFinishes(u, c);
    ReachableTrans(s, u, t);
    assert SameExtent(t.log[|s.log|], u.log[|s.log|]);
  }

  // -- Readers that can be misled --------------------------------------------------------------------

  /** The first reservation in a fresh region, nothing of it written yet. */
  lemma FirstReservation(s: State, c: nat, data: seq<Byte>) returns (t: State)
    requires |s.mem| >= 8 && s.Bump() == s.start && s.log == [] && c in s.clients && s.clients[c].Idle?
    requires |data| < TWO32 && s.start + ExtentTotal(|data|) < TWO64
    ensures Reachable(s, t) && t.clients == s.clients[c := Writing(0)]
    ensures t.log == [Prepare(s.hash, s.start, data)] && t.hash == s.hash && |t.mem| == |s.mem|
    ensures forall a :: 8 <= a < |s.mem| ==> t.mem[a] == s.mem[a]
  {
    var u := Do(s, Begin(c, data));
    t := Do(u, Cas(c));
    ReachableStep(s, Begin(c, data));
    ReachableStep(u, Cas(c));
    ReachableTrans(s, u, t);
  }

  /** If the length is fetched before the checksum, a reader can accept something that was never
      written: here the empty payload, whenever its hash is that of the data. */
  lemma EarlyLengthMisleads(s: State, c: nat, data: seq<Byte>) returns (u: State, t: State)
    requires Init(s) && c in s.clients && data != [] && |data| < TWO32
    requires s.start + ExtentTotal(|data|) < TWO64 && s.start + ExtentTotal(|data|) <= |s.mem|
    requires s.hash([]) == s.hash(data) != 0
    ensures Reachable(s, u) && Reachable(u, t) && t.log != [] && t.log[0].off == s.start && t.log[0].data == data
    ensures s.start + 32 <= |u.mem| == |t.mem|
    ensures var len, checksum := LengthField(u.mem, s.start), ChecksumField(t.mem, s.start);
            && len == 0
            && VerifyExtentChecksum(s.hash, checksum, t.mem[s.start + 32..s.start + 32 + len])
            && t.mem[s.start + 32..s.start + 32 + len] != data
  {
    u := LengthFetched(s, c, data);
    t := ChecksumFetched(u, c, s.start, data);
    assert t.mem[s.start + 32..s.start + 32] == [];
  }

  lemma LengthFetched(s: State, c: nat, data: seq<Byte>) returns (u: State)
    requires Init(s) && c in s.clients && |data| < TWO32
    requires s.start + ExtentTotal(|data|) < TWO64 && s.start + ExtentTotal(|data|) <= |s.mem|
    ensures Reachable(s, u) && Inv(u) && Room(u, c) && u.clients[c].k == 0 && u.hash == s.hash && |u.mem| == |s.mem|
    ensures u.log[0].off == s.start && u.log[0].data == data
    ensures LengthField(u.mem, s.start) == 0
  {
    InitInv(s);
    u := FirstReservation(s, c, data);
    ReachableInv(s, u);
    BlankLength(u.mem, s.start);
  }

  lemma ChecksumFetched(u: State, c: nat, off: nat, data: seq<Byte>) returns (t: State)
    requires Inv(u) && Room(u, c) && u.clients[c].k == 0 && u.log[0].off == off && u.log[0].data == data
    ensures Reachable(u, t) && t.log != [] && t.log[0].off == off && t.log[0].data == data && |t.mem| == |u.mem|
    ensures off + 32 <= |t.mem| && ChecksumField(t.mem, off) == u.hash(data)
  {
    t := WriterFinishes(u, c);
    assert SameExtent(t.log[0], u.log[0]);
    FinishedFields(t.mem, t.hash, t.log, 0);
  }

  lemma BlankLength(mem: seq<Byte>, off: nat)
    requires off + 32 <= |mem| && forall a :: off <= a < |mem| ==> mem[a] == 0
    ensures LengthField(mem, off) == 0
  {
    assert mem[off + 8..off + 12] == Zeros(4);
    LeZero(4);
    FromLeLe4(0);
  }

  /** A reservation that would end beyond 2^64 moves the bump word back, onto space that is taken. */
  lemma OverflowMovesBumpBack(seen: U64, len: nat)
    requires ExtentTotal(len) < TWO64 <= seen + ExtentTotal(len)
    ensures FromLe(Le(seen + ExtentTotal(len), 8)) < seen
  {
    var x := seen + ExtentTotal(len);
    LowAndHigh(x, 8);
    FromLeBound(Le(x, 8));
    Powers256();
    Quotient(High(x, 8), TWO64, FromLe(Le(x, 8)));
    Quotient(1, TWO64, x - TWO64);
  }

  /** If the space was not zeroed, what is left in it can look like a checksum although nothing of
      the extent has been written. */
  lemma DirtySpaceLooksPublished(s: State, c: nat, data: seq<Byte>) returns (t: State)
    requires |s.mem| >= 8 && 8 <= s.start && s.start + 32 <= |s.mem| && ChecksumField(s.mem, s.start) != 0
    requires s.Bump() == s.start && s.log == [] && c in s.clients && s.clients[c].Idle?
    requires |data| < TWO32 && s.start + ExtentTotal(|data|) < TWO64
    ensures Reachable(s, t) && t.log == [Prepare(s.hash, s.start, data)] && |t.mem| == |s.mem|
    ensures t.log[0].phase == Header && t.log[0].placed == {} && ChecksumField(t.mem, s.start) != 0
  {
    t := FirstReservation(s, c, data);
    assert t.mem[s.start + 24..s.start + 32] == s.mem[s.start + 24..s.start + 32];
  }
}
