/** The distributed extent allocator (src/engine/extent.rs, `allocate_remote`): clients reserve
    space by compare-and-swap on a shared bump word and fill their extents with one-sided
    writes - header with checksum zero, payload, and last the checksum.

    The shared memory is a byte string whose first eight bytes are the bump word.  Each remote
    write places its bytes one at a time and in any order; the next write starts when the
    previous one is complete.  A client may stop for good after any step.  `hash` stands for
    XXH64 and is not interpreted. */
module RemoteAllocator {
  import opened Bits
  import opened Bytes
  import opened Extent

  datatype Phase = Header | Payload | Checksum | Published

  /** A reservation, listed in the order of the successful CAS: where it is, what its writer
      sends, the write in progress, and the positions of that write that have been placed. */
  datatype Reservation = Reservation(
    off: nat, total: nat, header: seq<Byte>, data: seq<Byte>, sum: seq<Byte>,
    phase: Phase, placed: set<nat>)
  {
    function End(): nat { off + total }

    /** The bytes of the current write. */
    function Outgoing(): seq<Byte> {
      match phase
      case Header => header
      case Payload => data
      case Checksum => sum
      case Published => []
    }

    /** Where byte i of the current write goes. */
    function Address(i: nat): nat {
      off + i + (match phase case Header => 0 case Payload => 32 case _ => 24)
    }

    predicate Complete() { forall i :: 0 <= i < |Outgoing()| ==> i in placed }

    function Next(): Reservation {
      this.(phase := match phase case Header => Payload case Payload => Checksum case _ => Published, placed := {})
    }

    /** Header and payload are done; the checksum may be under way. */
    predicate Sealed() { phase.Checksum? || phase.Published? }
  }

  /** What `allocate_remote` prepares for the data. */
  function Prepare(hash: seq<Byte> -> U64, off: nat, data: seq<Byte>): Reservation {
    Reservation(off, ExtentTotal(|data|), HeaderBytes(|data|, 0, 0), data, Le(hash(data), 8), Header, {})
  }

  datatype Client =
    | Idle
    | HasRead(data: seq<Byte>, seen: U64)   // the bump word was read
    | Writing(k: nat)                       // owns reservation k

  datatype State = State(
    hash: seq<Byte> -> U64, start: nat,
    mem: seq<Byte>, log: seq<Reservation>, clients: map<nat, Client>)
  {
    function Bump(): nat
      requires |mem| >= 8
    {
      FromLe(mem[0..8])
    }

    /** Where the last reservation ends. */
    function End(): nat { if log == [] then start else log[|log| - 1].End() }

    predicate Owns(c: nat) { c in clients && clients[c].Writing? && clients[c].k < |log| }
  }

  datatype Step =
    | Begin(c: nat, data: seq<Byte>)
    | Cas(c: nat)
    | Place(c: nat, i: nat)
    | Proceed(c: nat)
    | Crash(c: nat)

  /** A store past the end of the memory fails and is not a step; neither is a reservation whose
      end does not fit 64 bits. */
  predicate Enabled(s: State, st: Step) {
    |s.mem| >= 8 &&
    match st
    case Begin(c, data) => c in s.clients && s.clients[c].Idle? && |data| < TWO32
    case Cas(c) =>
      c in s.clients && s.clients[c].HasRead? && s.clients[c].seen + ExtentTotal(|s.clients[c].data|) < TWO64
    case Place(c, i) =>
      s.Owns(c) && i < |s.log[s.clients[c].k].Outgoing()| && s.log[s.clients[c].k].Address(i) < |s.mem|
    case Proceed(c) => s.Owns(c) && s.log[s.clients[c].k].Complete()
    case Crash(c) => c in s.clients
  }

  /** The bump word moves to the end of the new reservation. */
  function Reserve(s: State, c: nat, e: Reservation): State
    requires |s.mem| >= 8
  {
    s.(mem := Splice(s.mem, 0, Le(e.End(), 8)), log := s.log + [e], clients := s.clients[c := Writing(|s.log|)])
  }

  function Do(s: State, st: Step): State
    requires Enabled(s, st)
  {
    match st
    case Begin(c, data) =>
      FromLeBound(s.mem[0..8]);
      Powers256();
      s.(clients := s.clients[c := HasRead(data, s.Bump())])
    case Cas(c) =>
      var HasRead(data, seen) := s.clients[c];
      if s.Bump() == seen then Reserve(s, c, Prepare(s.hash, seen, data))
      else s.(clients := s.clients[c := Idle])
    case Place(c, i) =>
      var k := s.clients[c].k;
      var e := s.log[k];
      s.(mem := s.mem[e.Address(i) := e.Outgoing()[i]], log := s.log[k := e.(placed := e.placed + {i})])
    case Proceed(c) =>
      var k := s.clients[c].k;
      s.(log := s.log[k := s.log[k].Next()])
    case Crash(c) => s.(clients := s.clients[c := Idle])
  }

  ghost predicate Reaches(s: State, steps: seq<Step>, t: State)
    decreases |steps|
  {
    if steps == [] then s == t
    else Enabled(s, steps[0]) && Reaches(Do(s, steps[0]), steps[1..], t)
  }

  /** A freshly set up region: the bump word holds the aligned start, no reservation was made,
      and the space from the start on is zero apart from the bump word itself. */
  ghost predicate Boot(s: State) {
    && s.start % 8 == 0 && s.start < TWO64
    && |s.mem| >= 8 && s.Bump() == s.start
    && (forall a :: s.start <= a < |s.mem| && 8 <= a ==> s.mem[a] == 0)
    && s.log == []
    && (forall c :: c in s.clients ==> s.clients[c].Idle?)
  }

  /** A set-up whose first extent keeps clear of the bump word. */
  ghost predicate Init(s: State) { Boot(s) && s.start >= 8 }

  // -- The invariant ---------------------------------------------------------------------------------

  /** Reservations follow each other without gap, aligned, from the start. */
  ghost predicate Chain(start: nat, log: seq<Reservation>) {
    && start >= 8 && start % 8 == 0
    && (log != [] ==> log[0].off == start)
    && (forall k :: 0 <= k < |log| ==> log[k].off % 8 == 0 && log[k].End() % 8 == 0 && start <= log[k].off)
    && (forall j, k :: 0 <= j < k < |log| ==> log[j].End() <= log[k].off)
    && (forall j, k :: 0 <= j < k < |log| && k == j + 1 ==> log[j].End() == log[k].off)
  }

  ghost predicate Written(mem: seq<Byte>, at: nat, d: seq<Byte>, placed: set<nat>) {
    forall i :: 0 <= i < |d| && i in placed ==> at + i < |mem| && mem[at + i] == d[i]
  }

  ghost predicate Full(mem: seq<Byte>, at: nat, d: seq<Byte>) {
    at + |d| <= |mem| && mem[at..at + |d|] == d
  }

  ghost predicate Blank(mem: seq<Byte>, at: nat, n: nat) {
    forall a :: at <= a < at + n && a < |mem| ==> mem[a] == 0
  }

  ghost predicate BlankExcept(mem: seq<Byte>, at: nat, n: nat, placed: set<nat>) {
    forall i :: 0 <= i < n && i !in placed && at + i < |mem| ==> mem[at + i] == 0
  }

  /** Header up to the checksum, and payload. */
  ghost predicate Whole(mem: seq<Byte>, e: Reservation)
    requires |e.header| == 32
  {
    Full(mem, e.off, e.header[..24]) && Full(mem, e.off + 32, e.data)
  }

  ghost predicate Shape(e: Reservation) {
    && |e.header| == 32 && |e.sum| == 8 && (forall i :: 24 <= i < 32 ==> e.header[i] == 0)
    && 32 + |e.data| <= e.total && e.total % 8 == 0
  }

  /** How far an extent has been written. */
  ghost predicate Progress(mem: seq<Byte>, e: Reservation) {
    Shape(e) &&
    match e.phase
    case Header => Written(mem, e.off, e.header, e.placed) && Blank(mem, e.off + 24, 8)
    case Payload =>
      && Full(mem, e.off, e.header) && Blank(mem, e.off + 24, 8)
      && Written(mem, e.off + 32, e.data, e.placed)
    case Checksum =>
      && Whole(mem, e) && BlankExcept(mem, e.off + 24, 8, e.placed)
      && Written(mem, e.off + 24, e.sum, e.placed)
    case Published => Whole(mem, e) && Full(mem, e.off + 24, e.sum)
  }

  ghost predicate Entries(mem: seq<Byte>, log: seq<Reservation>) {
    forall k {:trigger Progress(mem, log[k])} :: 0 <= k < |log| ==> Progress(mem, log[k])
  }

  /** What is sent belongs to the data. */
  ghost predicate Prepared(hash: seq<Byte> -> U64, log: seq<Reservation>) {
    forall k {:trigger IsPrepared(hash, log[k])} :: 0 <= k < |log| ==> IsPrepared(hash, log[k])
  }

  predicate IsPrepared(hash: seq<Byte> -> U64, e: Reservation) {
    |e.data| < TWO32 && SameExtent(e, Prepare(hash, e.off, e.data))
  }

  predicate SameExtent(e: Reservation, f: Reservation) {
    e.off == f.off && e.total == f.total && e.header == f.header && e.data == f.data && e.sum == f.sum
  }

  /** Writers own different reservations. */
  ghost predicate ClientsOk(clients: map<nat, Client>, n: nat) {
    && (forall c :: c in clients && clients[c].HasRead? ==> |clients[c].data| < TWO32)
    && (forall c :: c in clients && clients[c].Writing? ==> clients[c].k < n)
    && (forall c, d :: c in clients && d in clients && c != d && clients[c].Writing? && clients[d].Writing?
          ==> clients[c].k != clients[d].k)
  }

  ghost predicate Inv(s: State) {
    && |s.mem| >= 8 && Chain(s.start, s.log)
    && s.Bump() == s.End() && s.End() < TWO64
    && Blank(s.mem, s.End(), |s.mem|)
    && Entries(s.mem, s.log) && Prepared(s.hash, s.log)
    && ClientsOk(s.clients, |s.log|)
  }

  // -- One reservation -------------------------------------------------------------------------------

  lemma FullFrame(mem: seq<Byte>, mem': seq<Byte>, at: nat, d: seq<Byte>)
    requires Full(mem, at, d) && |mem'| == |mem|
    requires forall a :: at <= a < at + |d| ==> mem'[a] == mem[a]
    ensures Full(mem', at, d)
  {
    assert mem'[at..at + |d|] == mem[at..at + |d|];
  }

  /** A change of memory outside an extent leaves its progress alone. */
  lemma ProgressFrame(mem: seq<Byte>, mem': seq<Byte>, e: Reservation)
    requires Progress(mem, e) && |mem'| == |mem|
    requires forall a :: e.off <= a < e.End() && a < |mem| ==> mem'[a] == mem[a]
    ensures Progress(mem', e)
  {
    if e.Sealed() {
      FullFrame(mem, mem', e.off, e.header[..24]);
      FullFrame(mem, mem', e.off + 32, e.data);
    }
    if e.phase == Published {
      FullFrame(mem, mem', e.off + 24, e.sum);
    } else if e.phase == Payload {
      FullFrame(mem, mem', e.off, e.header);
    }
  }

  lemma WrittenFull(mem: seq<Byte>, at: nat, d: seq<Byte>, placed: set<nat>)
    requires Written(mem, at, d, placed) && (d == [] ==> at <= |mem|)
    requires forall i :: 0 <= i < |d| ==> i in placed
    ensures Full(mem, at, d)
  {
    assert d != [] ==> |d| - 1 in placed;
  }

  lemma WrittenPlace(mem: seq<Byte>, at: nat, d: seq<Byte>, placed: set<nat>, i: nat)
    requires Written(mem, at, d, placed) && i < |d| && at + i < |mem|
    ensures Written(mem[at + i := d[i]], at, d, placed + {i})
  {
  }

  lemma PlaceHeader(mem: seq<Byte>, e: Reservation, i: nat)
    requires Progress(mem, e) && e.phase == Header && i < 32 && e.off + i < |mem|
    ensures Progress(mem[e.off + i := e.header[i]], e.(placed := e.placed + {i}))
  {
    WrittenPlace(mem, e.off, e.header, e.placed, i);
  }

  lemma PlacePayload(mem: seq<Byte>, e: Reservation, i: nat)
    requires Progress(mem, e) && e.phase == Payload && i < |e.data| && e.off + 32 + i < |mem|
    ensures Progress(mem[e.off + 32 + i := e.data[i]], e.(placed := e.placed + {i}))
  {
    WrittenPlace(mem, e.off + 32, e.data, e.placed, i);
    FullFrame(mem, mem[e.off + 32 + i := e.data[i]], e.off, e.header);
  }

  lemma PlaceChecksum(mem: seq<Byte>, e: Reservation, i: nat)
    requires Progress(mem, e) && e.phase == Checksum && i < 8 && e.off + 24 + i < |mem|
    ensures Progress(mem[e.off + 24 + i := e.sum[i]], e.(placed := e.placed + {i}))
  {
    var mem' := mem[e.off + 24 + i := e.sum[i]];
    WrittenPlace(mem, e.off + 24, e.sum, e.placed, i);
    FullFrame(mem, mem', e.off, e.header[..24]);
    FullFrame(mem, mem', e.off + 32, e.data);
  }

  lemma PlaceProgress(mem: seq<Byte>, e: Reservation, i: nat)
    requires Progress(mem, e) && i < |e.Outgoing()| && e.Address(i) < |mem|
    ensures Progress(mem[e.Address(i) := e.Outgoing()[i]], e.(placed := e.placed + {i}))
  {
    match e.phase
    case Header => PlaceHeader(mem, e, i);
    case Payload => PlacePayload(mem, e, i);
    case Checksum => PlaceChecksum(mem, e, i);
  }

  lemma ProceedProgress(mem: seq<Byte>, e: Reservation)
    requires Progress(mem, e) && e.Complete()
    ensures Progress(mem, e.Next())
  {
    match e.phase
    case Header => WrittenFull(mem, e.off, e.header, e.placed);
    case Payload =>
      WrittenFull(mem, e.off + 32, e.data, e.placed);
      assert mem[e.off..e.off + 24] == mem[e.off..e.off + 32][..24];
    case Checksum => WrittenFull(mem, e.off + 24, e.sum, e.placed);
    case Published =>
  }

  lemma PrepareShape(hash: seq<Byte> -> U64, off: nat, data: seq<Byte>)
    ensures Shape(Prepare(hash, off, data))
  {
    var h := HeaderBytes(|data|, 0, 0);
    HeaderFields(|data|, 0, 0);
    LeZero(8);
    forall i | 24 <= i < 32 ensures h[i] == 0 {
      assert h[i] == h[24..32][i - 24];
    }
  }

  // -- Every step keeps the invariant ----------------------------------------------------------------

  lemma ReservedSpace(start: nat, log: seq<Reservation>, k: nat)
    requires Chain(start, log) && k < |log|
    ensures 8 <= log[k].off && log[k].End() <= log[|log| - 1].End()
  {
    var n := |log| - 1;
    assert k < n ==> log[k].End() <= log[n].off;
  }

  lemma ChainUpdate(start: nat, log: seq<Reservation>, k: nat, e: Reservation)
    requires Chain(start, log) && k < |log| && SameExtent(e, log[k])
    ensures Chain(start, log[k := e])
  {
    var log' := log[k := e];
    assert forall j :: 0 <= j < |log| ==> log'[j].off == log[j].off && log'[j].End() == log[j].End();
  }

  lemma ChainSnoc(start: nat, log: seq<Reservation>, e: Reservation)
    requires Chain(start, log) && e.off == (if log == [] then start else log[|log| - 1].End())
    requires e.total % 8 == 0
    ensures Chain(start, log + [e])
  {
    var log' := log + [e];
    forall j | 0 <= j < |log| ensures log[j].End() <= e.off && start <= e.off {
      ReservedSpace(start, log, j);
    }
    AlignedSum(e.off, e.total);
    assert forall j :: 0 <= j < |log| ==> log'[j] == log[j];
    assert log'[|log|] == e;
  }

  lemma EntriesUpdate(mem: seq<Byte>, mem': seq<Byte>, start: nat, log: seq<Reservation>, k: nat, e: Reservation)
    requires Chain(start, log) && Entries(mem, log) && k < |log|
    requires SameExtent(e, log[k]) && Progress(mem', e)
    requires |mem'| == |mem|
    requires forall a :: 0 <= a < |mem| && !(e.off <= a < e.End()) ==> mem'[a] == mem[a]
    ensures Entries(mem', log[k := e])
  {
    forall j | 0 <= j < |log| && j != k ensures Progress(mem', log[j]) {
      assert j < k ==> log[j].End() <= log[k].off;
      assert k < j ==> log[k].End() <= log[j].off;
      ProgressFrame(mem, mem', log[j]);
    }
  }

  lemma PreparedUpdate(hash: seq<Byte> -> U64, log: seq<Reservation>, k: nat, e: Reservation)
    requires Prepared(hash, log) && k < |log| && SameExtent(e, log[k])
    ensures Prepared(hash, log[k := e])
  {
    assert IsPrepared(hash, log[k]);
    var log' := log[k := e];
    forall j | 0 <= j < |log'| ensures IsPrepared(hash, log'[j]) {
      if j != k {
        assert log'[j] == log[j];
      }
    }
  }

  lemma OutsideFrame(mem: seq<Byte>, mem': seq<Byte>, lo: nat, hi: nat, end: nat)
    requires |mem'| == |mem| && 8 <= lo && 8 <= |mem| && hi <= end && Blank(mem, end, |mem|)
    requires forall a :: 0 <= a < |mem| && !(lo <= a < hi) ==> mem'[a] == mem[a]
    ensures mem'[0..8] == mem[0..8] && Blank(mem', end, |mem|)
  {
  }

  /** A store inside reservation k, or none at all, together with that reservation's own update. */
  lemma WriterInv(s: State, t: State, k: nat, e: Reservation)
    requires Inv(s) && k < |s.log| && t == s.(mem := t.mem, log := s.log[k := e])
    requires SameExtent(e, s.log[k]) && Progress(t.mem, e)
    requires |t.mem| == |s.mem|
    requires forall a :: 0 <= a < |s.mem| && !(e.off <= a < e.End()) ==> t.mem[a] == s.mem[a]
    ensures Inv(t)
  {
    ReservedSpace(s.start, s.log, k);
    ChainUpdate(s.start, s.log, k, e);
    EntriesUpdate(s.mem, t.mem, s.start, s.log, k, e);
    PreparedUpdate(s.hash, s.log, k, e);
    OutsideFrame(s.mem, t.mem, e.off, e.End(), s.End());
    assert t.End() == s.End();
  }

  lemma PlaceInv(s: State, c: nat, i: nat)
    requires Inv(s) && Enabled(s, Place(c, i))
    ensures Inv(Do(s, Place(c, i)))
  {
    var k := s.clients[c].k;
    var e := s.log[k];
    PlaceProgress(s.mem, e, i);
    WriterInv(s, Do(s, Place(c, i)), k, e.(placed := e.placed + {i}));
  }

  lemma ProceedInv(s: State, c: nat)
    requires Inv(s) && Enabled(s, Proceed(c))
    ensures Inv(Do(s, Proceed(c)))
  {
    var k := s.clients[c].k;
    ProceedProgress(s.mem, s.log[k]);
    WriterInv(s, Do(s, Proceed(c)), k, s.log[k].Next());
  }

  lemma EntriesSnoc(mem: seq<Byte>, mem': seq<Byte>, start: nat, log: seq<Reservation>, e: Reservation)
    requires Chain(start, log) && Entries(mem, log) && |mem'| == |mem|
    requires forall a :: 8 <= a < |mem| ==> mem'[a] == mem[a]
    requires Shape(e) && e.phase == Header && e.placed == {} && Blank(mem', e.off + 24, 8)
    ensures Entries(mem', log + [e])
  {
    forall j | 0 <= j < |log| ensures Progress(mem', log[j]) {
      ReservedSpace(start, log, j);
      ProgressFrame(mem, mem', log[j]);
    }
  }

  /** A successful CAS: the new reservation starts where the last one ended. */
  lemma PreparedSnoc(hash: seq<Byte> -> U64, log: seq<Reservation>, e: Reservation)
    requires Prepared(hash, log) && IsPrepared(hash, e)
    ensures Prepared(hash, log + [e])
  {
    var log' := log + [e];
    forall k | 0 <= k < |log'| ensures IsPrepared(hash, log'[k]) {
      if k < |log| {
        assert log'[k] == log[k];
      }
    }
  }

  lemma ReserveInv(s: State, c: nat, e: Reservation)
    requires Inv(s) && e.off == s.End() && c in s.clients && s.clients[c].HasRead?
    requires IsPrepared(s.hash, e) && Shape(e) && e.phase == Header && e.placed == {} && e.End() < TWO64
    ensures Inv(Reserve(s, c, e))
  {
    var t := Reserve(s, c, e);
    ChainSnoc(s.start, s.log, e);
    EntriesSnoc(s.mem, t.mem, s.start, s.log, e);
    PreparedSnoc(s.hash, s.log, e);
    FromLe8(e.End());
    assert t.mem[0..8] == Le(e.End(), 8);
  }

  /** A step that only moves a client on. */
  lemma ClientInv(s: State, c: nat, x: Client)
    requires Inv(s) && c in s.clients && !x.Writing? && (x.HasRead? ==> |x.data| < TWO32)
    ensures Inv(s.(clients := s.clients[c := x]))
  {
  }

  lemma CasInv(s: State, c: nat)
    requires Inv(s) && Enabled(s, Cas(c))
    ensures Inv(Do(s, Cas(c)))
  {
    if s.Bump() == s.clients[c].seen {
      PrepareShape(s.hash, s.End(), s.clients[c].data);
      ReserveInv(s, c, Prepare(s.hash, s.End(), s.clients[c].data));
    } else {
      ClientInv(s, c, Idle);
    }
  }

  lemma StepInv(s: State, st: Step)
    requires Inv(s) && Enabled(s, st)
    ensures Inv(Do(s, st))
  {
    match st
    case Begin(c, data) => ClientInv(s, c, Do(s, st).clients[c]);
    case Cas(c) => CasInv(s, c);
    case Place(c, i) => PlaceInv(s, c, i);
    case Proceed(c) => ProceedInv(s, c);
    case Crash(c) => ClientInv(s, c, Idle);
  }

  lemma {:induction false} RunInv(s: State, steps: seq<Step>, t: State)
    requires Inv(s) && Reaches(s, steps, t)
    ensures Inv(t)
    decreases |steps|
  {
    if steps == [] {
    } else {
      StepInv(s, steps[0]);
      RunInv(Do(s, steps[0]), steps[1..], t);
    }
  }

  lemma InitInv(s: State)
    requires Init(s)
    ensures Inv(s)
  {
  }

  // -- Reservations over whole runs ------------------------------------------------------------------

  ghost predicate Reserved(log: seq<Reservation>, a: int) {
    exists k :: 0 <= k < |log| && log[k].off <= a < log[k].End()
  }

  /** Every byte between the start and the bump word lies in a reservation. */
  lemma {:induction false} ByteReserved(start: nat, log: seq<Reservation>, a: nat) returns (k: nat)
    requires Chain(start, log) && log != [] && start <= a < log[|log| - 1].End()
    ensures k < |log| && log[k].off <= a < log[k].End()
    decreases |log|
  {
    k := |log| - 1;
    if a < log[k].off {
      var rest := log[..k];
      assert k > 0 && rest[k - 1].End() == log[k].off;
      k := ByteReserved(start, rest, a);
    }
  }

  /** In every reachable state the reservations, in the order of their CAS, are aligned, have the
      size of their extent, follow each other, stay clear of the bump word and together are all
      the space from the start to the bump word's value. */
  lemma BumpReservations(s0: State, steps: seq<Step>, s: State)
    requires Init(s0) && Reaches(s0, steps, s)
    ensures Inv(s)
    ensures forall k :: 0 <= k < |s.log| ==>
              s.log[k].off >= 8 && s.log[k].off % 8 == 0 && s.log[k].total == ExtentTotal(|s.log[k].data|)
    ensures forall j, k :: 0 <= j < k < |s.log| ==> s.log[j].End() <= s.log[k].off
    ensures forall a :: Reserved(s.log, a) <==> s.start <= a < s.Bump()
  {
    InitInv(s0);
    RunInv(s0, steps, s);
    forall k | 0 <= k < |s.log|
      ensures s.log[k].off >= 8 && s.log[k].total == ExtentTotal(|s.log[k].data|) && s.log[k].End() <= s.Bump()
    {
      ReservedSpace(s.start, s.log, k);
      assert IsPrepared(s.hash, s.log[k]);
    }
    forall a ensures Reserved(s.log, a) <==> s.start <= a < s.Bump() {
      if s.start <= a < s.Bump() {
        var k := ByteReserved(s.start, s.log, a);
      }
    }
  }

  /** A later state: the same reservations, further along, and possibly more of them. */
  ghost predicate Extends(s: State, t: State) {
    && |s.log| <= |t.log| && t.hash == s.hash && t.start == s.start && |t.mem| == |s.mem|
    && forall k {:trigger t.log[k]} {:trigger s.log[k]} :: 0 <= k < |s.log| ==>
         SameExtent(t.log[k], s.log[k]) && (s.log[k].Sealed() ==> t.log[k].Sealed())
  }

  lemma StepExtends(s: State, st: Step)
    requires Enabled(s, st)
    ensures Extends(s, Do(s, st))
  {
  }

  lemma {:induction false} RunExtends(s: State, steps: seq<Step>, t: State)
    requires Reaches(s, steps, t)
    ensures Extends(s, t)
    decreases |steps|
  {
    if steps == [] {
    } else {
      StepExtends(s, steps[0]);
      RunExtends(Do(s, steps[0]), steps[1..], t);
    }
  }

  /** The bump word never moves back. */
  lemma BumpMonotone(s: State, steps: seq<Step>, t: State)
    requires Inv(s) && Reaches(s, steps, t)
    ensures Inv(t) && s.Bump() <= t.Bump()
  {
    RunInv(s, steps, t);
    RunExtends(s, steps, t);
    if s.log != [] {
      var n := |s.log| - 1;
      assert t.log[n].End() == s.log[n].End();
      ReservedSpace(t.start, t.log, n);
    } else if t.log != [] {
      ReservedSpace(t.start, t.log, 0);
    }
  }

  /** Only a CAS changes the bump word; every other store goes to the storing client's own
      reservation, which no other client owns. */
  lemma StoresApart(s: State, st: Step, a: nat)
    requires Inv(s) && Enabled(s, st) && a < |s.mem| && Do(s, st).mem[a] != s.mem[a]
    ensures st.Cas? || st.Place?
    ensures st.Cas? ==> a < 8
    ensures st.Place? ==>
              var k := s.clients[st.c].k;
              && 8 <= s.log[k].off <= a < s.log[k].End()
              && (forall j :: 0 <= j < |s.log| && j != k ==> !(s.log[j].off <= a < s.log[j].End()))
              && (forall d :: d in s.clients && d != st.c ==> s.clients[d] != Writing(k))
  {
    if st.Place? {
      var k := s.clients[st.c].k;
      ReservedSpace(s.start, s.log, k);
      assert Progress(s.mem, s.log[k]);
      forall j | 0 <= j < |s.log| && j != k ensures !(s.log[j].off <= a < s.log[j].End()) {
        assert j < k ==> s.log[j].End() <= s.log[k].off;
        assert k < j ==> s.log[k].End() <= s.log[j].off;
      }
    }
  }

  // -- Publication -----------------------------------------------------------------------------------

  /** The fields of a header as a reader finds them. */
  function LengthField(mem: seq<Byte>, off: nat): nat
    requires off + 32 <= |mem|
  {
    FromLe(mem[off + 8..off + 12])
  }

  function ChecksumField(mem: seq<Byte>, off: nat): nat
    requires off + 32 <= |mem|
  {
    FromLe(mem[off + 24..off + 32])
  }

  predicate VerifyExtentChecksum(hash: seq<Byte> -> U64, checksum: nat, payload: seq<Byte>) {
    checksum != 0 && hash(payload) == checksum
  }

  lemma BlankChecksum(mem: seq<Byte>, off: nat)
    requires off + 32 <= |mem| && Blank(mem, off + 24, 8)
    ensures ChecksumField(mem, off) == 0
  {
    LeZero(8);
    FromLe8(0);
    assert mem[off + 24..off + 32] == Zeros(8);
  }

  lemma WholeLength(mem: seq<Byte>, hash: seq<Byte> -> U64, log: seq<Reservation>, k: nat)
    requires Prepared(hash, log) && k < |log| && |log[k].header| == 32 && Whole(mem, log[k])
    ensures log[k].off + 32 <= |mem| && LengthField(mem, log[k].off) == |log[k].data|
  {
    var e := log[k];
    PreparedLength(hash, log, k);
    FromLeLe4(|e.data|);
    SliceOfFull(mem, e.off, e.header[..24], 8, 12);
  }

  lemma PreparedLength(hash: seq<Byte> -> U64, log: seq<Reservation>, k: nat)
    requires Prepared(hash, log) && k < |log|
    ensures var e := log[k];
            |e.header| == 32 && |e.data| < TWO32 && e.header[..24][8..12] == Le(|e.data|, 4)
  {
    var e := log[k];
    assert IsPrepared(hash, e);
    HeaderFields(|e.data|, 0, 0);
    assert e.header[..24][8..12] == e.header[8..12];
  }

  lemma SliceOfFull(mem: seq<Byte>, at: nat, d: seq<Byte>, lo: nat, hi: nat)
    requires Full(mem, at, d) && lo <= hi <= |d|
    ensures mem[at + lo..at + hi] == d[lo..hi]
  {
    forall i | lo <= i < hi ensures mem[at + i] == d[i] {
      assert mem[at..at + |d|][i] == d[i];
    }
    assert mem[at + lo..at + hi] == d[lo..hi];
  }

  /** What a reader finds in a finished extent. */
  lemma FinishedFields(mem: seq<Byte>, hash: seq<Byte> -> U64, log: seq<Reservation>, k: nat)
    requires Entries(mem, log) && Prepared(hash, log) && k < |log| && log[k].phase == Published
    ensures var e := log[k];
            && e.off + 32 + |e.data| <= |mem| && mem[e.off + 32..e.off + 32 + |e.data|] == e.data
            && LengthField(mem, e.off) == |e.data| && ChecksumField(mem, e.off) == hash(e.data)
  {
    SealedWhole(mem, log, k);
    WholeLength(mem, hash, log, k);
    FromLe8(hash(log[k].data));
    assert IsPrepared(hash, log[k]) && Progress(mem, log[k]);
  }

  lemma SealedStays(s: State, k: nat, steps: seq<Step>, t: State)
    requires Inv(s) && k < |s.log| && s.log[k].Sealed() && Reaches(s, steps, t)
    ensures |s.log[k].header| == 32 && Whole(s.mem, s.log[k]) && Whole(t.mem, s.log[k])
  {
    RunInv(s, steps, t);
    RunExtends(s, steps, t);
    SealedWhole(s.mem, s.log, k);
    SealedWhole(t.mem, t.log, k);
    assert SameExtent(t.log[k], s.log[k]);
  }

  lemma SealedWhole(mem: seq<Byte>, log: seq<Reservation>, k: nat)
    requires Entries(mem, log) && k < |log| && log[k].Sealed()
    ensures |log[k].header| == 32 && Whole(mem, log[k])
  {
    assert Progress(mem, log[k]);
  }

  /** Publication safety.  A reader who finds a checksum byte that is not zero finds from then on -
      in every later state, so also when header and payload are fetched piece by piece - the
      complete header, the right length and exactly the writer's bytes. */
  lemma PublicationSafety(s: State, k: nat, steps: seq<Step>, t: State)
    requires Inv(s) && k < |s.log| && s.log[k].off + 32 <= |s.mem|
    requires ChecksumField(s.mem, s.log[k].off) != 0 && Reaches(s, steps, t)
    ensures var e := s.log[k];
            && e.off + 32 + |e.data| <= |t.mem|
            && t.mem[e.off..e.off + 24] == HeaderBytes(|e.data|, 0, 0)[..24]
            && LengthField(t.mem, e.off) == |e.data|
            && t.mem[e.off + 32..e.off + 32 + |e.data|] == e.data
  {
    NonzeroSealed(s.mem, s.log, k);
    SealedStays(s, k, steps, t);
    WholeLength(t.mem, s.hash, s.log, k);
    PreparedHeader(s.hash, s.log, k);
  }

  lemma PreparedHeader(hash: seq<Byte> -> U64, log: seq<Reservation>, k: nat)
    requires Prepared(hash, log) && k < |log|
    ensures log[k].header == HeaderBytes(|log[k].data|, 0, 0)
  {
    assert IsPrepared(hash, log[k]);
  }

  lemma NonzeroSealed(mem: seq<Byte>, log: seq<Reservation>, k: nat)
    requires Entries(mem, log) && k < |log| && log[k].off + 32 <= |mem| && ChecksumField(mem, log[k].off) != 0
    ensures log[k].Sealed()
  {
    assert Progress(mem, log[k]);
    if !log[k].Sealed() {
      BlankChecksum(mem, log[k].off);
    }
  }

  /** A reader who first fetches a checksum, then the length, then the payload, each in a state of
      its own, and finds the checksum right has the writer's data.  The checksum may be torn: all
      that counts is that it is not zero only if the reader saw a byte of it that was not. */
  lemma AcceptedIsWritten(s0: State, before: seq<Step>, s: State, k: nat, checksum: nat,
                          steps: seq<Step>, u: State, more: seq<Step>, t: State)
    requires Init(s0) && Reaches(s0, before, s) && k < |s.log| && s.log[k].off + 32 <= |s.mem|
    requires checksum != 0 ==> ChecksumField(s.mem, s.log[k].off) != 0
    requires Reaches(s, steps, u) && Reaches(s, more, t)
    ensures |u.mem| == |t.mem| == |s.mem|
    ensures var off := s.log[k].off;
            var len := LengthField(u.mem, off);
            off + 32 + len <= |t.mem| && VerifyExtentChecksum(s.hash, checksum, t.mem[off + 32..off + 32 + len])
            ==> t.mem[off + 32..off + 32 + len] == s.log[k].data
  {
    BumpReservations(s0, before, s);
    RunExtends(s, steps, u);
    RunExtends(s, more, t);
    if checksum != 0 {
      PublicationSafety(s, k, steps, u);
      PublicationSafety(s, k, more, t);
    }
  }

  /** A finished extent is accepted exactly if its hash is not zero: zero doubles as the mark of
      an unfinished write. */
  lemma FinishedAcceptedIff(s0: State, steps: seq<Step>, s: State, k: nat)
    requires Init(s0) && Reaches(s0, steps, s) && k < |s.log| && s.log[k].phase == Published
    ensures var e := s.log[k];
            && e.off + 32 + |e.data| <= |s.mem| && LengthField(s.mem, e.off) == |e.data|
            && (VerifyExtentChecksum(s.hash, ChecksumField(s.mem, e.off), s.mem[e.off + 32..e.off + 32 + |e.data|])
                <==> s.hash(e.data) != 0)
  {
    BumpReservations(s0, steps, s);
    FinishedFields(s.mem, s.hash, s.log, k);
  }

  /** Of all payloads, a published checksum accepts exactly those with the hash of the writer's data,
      and none at all if that hash is zero. */
  lemma PayloadAcceptedIff(s0: State, steps: seq<Step>, s: State, k: nat, payload: seq<Byte>)
    requires Init(s0) && Reaches(s0, steps, s) && k < |s.log| && s.log[k].phase == Published
    ensures s.log[k].off + 32 <= |s.mem|
    ensures VerifyExtentChecksum(s.hash, ChecksumField(s.mem, s.log[k].off), payload)
       <==> s.hash(payload) == s.hash(s.log[k].data) && s.hash(payload) != 0
  {
    BumpReservations(s0, steps, s);
    FinishedFields(s.mem, s.hash, s.log, k);
  }

  // -- Where the bump word must start ----------------------------------------------------------------

  /** At the end of the run, if it is one, the bump word holds the end of the last reservation. */
  ghost predicate EndsRight(s: State, steps: seq<Step>)
    decreases |steps|
  {
    if steps == [] then |s.mem| >= 8 && s.Bump() == s.End()
    else Enabled(s, steps[0]) ==> EndsRight(Do(s, steps[0]), steps[1..])
  }

  lemma FirstHeaderByte()
    ensures HeaderBytes(0, 0, 0)[0] == 0x41
  {
    assert Le(EXTENT_MAGIC, 4)[0] == EXTENT_MAGIC % 0x100;
  }

  lemma LowByte(b: seq<Byte>)
    requires b != []
    ensures FromLe(b) % 8 == b[0] % 8
  {
    Quotient(32 * FromLe(b[1..]), 8, b[0] % 8);
  }

  /** Started at zero, the first header lands on the bump word. */
  lemma ZeroStartLosesBump(s: State, c: nat)
    requires Boot(s) && s.start == 0 && c in s.clients
    ensures !EndsRight(s, [Begin(c, []), Cas(c), Place(c, 0)])
  {
    var s1 := Do(s, Begin(c, []));
    var s2 := Do(s1, Cas(c));
    var t := Do(s2, Place(c, 0));
    var steps := [Begin(c, []), Cas(c), Place(c, 0)];
    assert steps[1..] == [Cas(c), Place(c, 0)] && steps[1..][1..] == [Place(c, 0)];
    FirstHeaderByte();
    LowByte(t.mem[0..8]);
    assert !EndsRight(s2, [Place(c, 0)]);
    assert !EndsRight(s1, [Cas(c), Place(c, 0)]);
  }

  lemma {:induction false} InvEndsRight(s: State, steps: seq<Step>)
    requires Inv(s)
    ensures EndsRight(s, steps)
    decreases |steps|
  {
    if steps != [] && Enabled(s, steps[0]) {
      StepInv(s, steps[0]);
      InvEndsRight(Do(s, steps[0]), steps[1..]);
    }
  }

  /** The bump word keeps its meaning over all runs exactly if it starts past itself. */
  lemma BumpSafeIff(s: State, c: nat)
    requires Boot(s) && c in s.clients
    ensures (forall steps :: EndsRight(s, steps)) <==> s.start >= 8
  {
    if s.start >= 8 {
      InitInv(s);
      forall steps ensures EndsRight(s, steps) {
        InvEndsRight(s, steps);
      }
    } else {
      ZeroStartLosesBump(s, c);
    }
  }
}
