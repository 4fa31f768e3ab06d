/** The large object region (src/engine/extent.rs): a byte buffer carved into extents by first
    fit over a free list, with splitting, and a bump pointer at the tail.

    `Region` is the engine's state and the functions are its operations on it.  `Shadow` is
    what that state means: the blocks that tile the used part of the buffer, the objects
    stored in them, and the offsets that were freed and not handed out again. */
module Region {
  import opened Wrappers
  import opened Bits
  import opened Bytes
  import opened Extent

  datatype Block = Block(off: nat, len: nat)

  datatype Region = Region(buffer: seq<Byte>, free: seq<Block>, used: set<nat>, next: nat)

  datatype FreeResult = Freed | NotAllocated | InvalidOffset | InvalidMagic

  datatype MarkResult = Marked | BadOffset | BadMagic

  // -- Operations ----------------------------------------------------------------------------

  function NewRegion(size: nat): Region { Region(Zeros(size), [], {}, 0) }

  /** The first block that is long enough, or the length of the list. */
  function FirstFit(free: seq<Block>, need: nat): (i: nat)
    ensures i <= |free| && (i < |free| ==> free[i].len >= need)
    ensures forall j :: 0 <= j < i ==> free[j].len < need
  {
    if free == [] then 0
    else if free[0].len >= need then 0
    else
      var i := FirstFit(free[1..], need);
      assert forall j :: 1 <= j < i + 1 ==> free[j] == free[1..][j - 1];
      i + 1
  }

  predicate InBounds(r: Region) {
    && r.next <= |r.buffer|
    && forall i :: 0 <= i < |r.free| ==> r.free[i].off + r.free[i].len <= |r.buffer|
  }

  /** A fresh V2 header with mark and checksum zero, then the data. */
  function WriteExtent(b: seq<Byte>, off: nat, data: seq<Byte>): (b': seq<Byte>)
    requires off + HEADER_SIZE + |data| <= |b|
    ensures |b'| == |b|
  {
    Splice(Splice(b, off, HeaderBytes(|data|, 0, 0)), off + HEADER_SIZE, data)
  }

  /** The free list after the block at i is taken out and its tail is put back. */
  function TakeBlock(free: seq<Block>, i: nat, need: nat): seq<Block>
    requires i < |free| && need <= free[i].len
  {
    var Block(off, len) := free[i];
    var rest := free[..i] + free[i + 1..];
    if len > need then rest + [Block(off + need, len - need)] else rest
  }

  function Allocate(r: Region, data: seq<Byte>): (Region, Option<nat>)
    requires InBounds(r)
  {
    var need := ExtentTotal(|data|);
    var i := FirstFit(r.free, need);
    if i < |r.free| then
      var off := r.free[i].off;
      (Region(WriteExtent(r.buffer, off, data), TakeBlock(r.free, i, need), r.used + {off}, r.next), Some(off))
    else if r.next + need > |r.buffer| then (r, None)
    else (Region(WriteExtent(r.buffer, r.next, data), r.free, r.used + {r.next}, r.next + need), Some(r.next))
  }

  function ZeroMagic(b: seq<Byte>, off: nat): (b': seq<Byte>)
    ensures |b'| == |b|
  {
    if off + 4 <= |b| then Splice(b, off, Zeros(4)) else b
  }

  /** The footprint that freeing gives back. */
  function Footprint(d: Decoded): nat {
    if d.isV2 then ExtentTotal(d.dataLen) else 24 + d.dataLen
  }

  function Release(r: Region, off: nat, d: Decoded): Region {
    Region(ZeroMagic(r.buffer, off), r.free + [Block(off, Footprint(d))], r.used - {off}, r.next)
  }

  function Free(r: Region, off: nat): (Region, FreeResult) {
    if off !in r.used then (r, NotAllocated)
    else
      match Decode(r.buffer, off)
      case None => (r, InvalidOffset)
      case Some(d) => if d.magic != EXTENT_MAGIC then (r, InvalidMagic) else (Release(r, off, d), Freed)
  }

  function MarkForGc(r: Region, off: nat, epoch: U64): (Region, MarkResult) {
    match Decode(r.buffer, off)
    case None => (r, BadOffset)
    case Some(d) =>
      if d.magic != EXTENT_MAGIC then (r, BadMagic)
      else if off + 24 <= |r.buffer| then (r.(buffer := Splice(r.buffer, off + 16, Le(epoch, 8))), Marked)
      else (r, Marked)
  }

  /** The sweep of one offset. */
  function SweepOne(r: Region, off: nat, minActive: nat): (Region, nat) {
    match Decode(r.buffer, off)
    case None => (r, 0)
    case Some(d) => if 0 < d.epochMark < minActive then (Release(r, off, d), 1) else (r, 0)
  }

  /** The sweep, visiting the allocated offsets in the given order. */
  function Sweep(r: Region, order: seq<nat>, minActive: nat): (Region, nat)
    decreases |order|
  {
    if order == [] then (r, 0)
    else
      var (r1, n1) := Sweep(r, order[..|order| - 1], minActive);
      var (r2, n2) := SweepOne(r1, order[|order| - 1], minActive);
      (r2, n1 + n2)
  }

  ghost predicate Enumerates(order: seq<nat>, s: set<nat>) {
    (forall o :: o in order <==> o in s) && Distinct(order)
  }

  // -- Meaning ---------------------------------------------------------------------------------

  datatype Object = Object(data: seq<Byte>, mark: U64)

  datatype Shadow = Shadow(blocks: map<nat, nat>, live: map<nat, Object>, freed: set<nat>)

  /** The blocks are aligned, disjoint and follow each other from 0 to `next`. */
  ghost predicate Tiles(blocks: map<nat, nat>, next: nat) {
    Within(blocks, next) && Apart(blocks) && Chained(blocks, next) && Aligned(blocks)
  }

  ghost predicate Within(blocks: map<nat, nat>, next: nat) {
    forall o :: o in blocks ==> blocks[o] > 0 && o + blocks[o] <= next
  }

  ghost predicate Apart(blocks: map<nat, nat>) {
    forall o, p :: o in blocks && p in blocks && o < p ==> o + blocks[o] <= p
  }

  ghost predicate Chained(blocks: map<nat, nat>, next: nat) {
    && (next > 0 ==> 0 in blocks)
    && (forall o {:trigger Followed(blocks, next, o)} :: o in blocks ==> Followed(blocks, next, o))
  }

  ghost predicate Aligned(blocks: map<nat, nat>) {
    forall o :: o in blocks ==> o % 8 == 0 && blocks[o] % 8 == 0
  }

  /** Where a block ends, another begins, unless the end is reached. */
  ghost predicate Followed(blocks: map<nat, nat>, next: nat, o: nat)
    requires o in blocks
  {
    o + blocks[o] == next || o + blocks[o] in blocks
  }

  /** The free list holds every block that is not in use, once. */
  ghost predicate FreeListed(free: seq<Block>, blocks: map<nat, nat>, used: set<nat>) {
    && (forall i :: 0 <= i < |free| ==>
          free[i].off in blocks && free[i].off !in used && blocks[free[i].off] == free[i].len)
    && (forall i, j :: 0 <= i < j < |free| ==> free[i].off != free[j].off)
    && (forall o :: o in blocks && o !in used ==> exists i :: 0 <= i < |free| && free[i].off == o)
  }

  /** A live block holds exactly its object, and is exactly as long as that takes. */
  ghost predicate StoredAt(b: seq<Byte>, blocks: map<nat, nat>, o: nat, x: Object) {
    && o in blocks && blocks[o] == ExtentTotal(|x.data|)
    && |x.data| < TWO32 && x.mark % TWO32 != EXTENT_MAGIC
    && IsExtent(b, o, x.data, x.mark)
  }

  /** A freed block shows no magic, neither at the V2 nor at the V1 place. */
  ghost predicate ClearedAt(b: seq<Byte>, blocks: map<nat, nat>, o: nat) {
    && o in blocks && blocks[o] >= HEADER_SIZE && o + blocks[o] <= |b|
    && b[o..o + 4] == Zeros(4)
    && FromLe(b[o + 16..o + 20]) != EXTENT_MAGIC
  }

  /** The blocks tile the used part, and the free list and the allocated set divide them. */
  ghost predicate Divided(r: Region, sh: Shadow) {
    && r.next <= |r.buffer| && r.next % 8 == 0
    && Tiles(sh.blocks, r.next)
    && r.used == sh.live.Keys
    && FreeListed(r.free, sh.blocks, r.used)
  }

  /** The bytes of the blocks are what they should be. */
  ghost predicate Faithful(b: seq<Byte>, sh: Shadow) {
    && (forall o :: o in sh.live ==> StoredAt(b, sh.blocks, o, sh.live[o]))
    && (forall o :: o in sh.freed ==> o !in sh.live && ClearedAt(b, sh.blocks, o))
  }

  ghost predicate Inv(r: Region, sh: Shadow) {
    Divided(r, sh) && Faithful(r.buffer, sh)
  }

  lemma InvInBounds(r: Region, sh: Shadow)
    requires Inv(r, sh)
    ensures InBounds(r)
  {
  }

  lemma NewRegionInv(size: nat)
    ensures Inv(NewRegion(size), Shadow(map[], map[], {}))
  {
  }

  // -- What the invariant gives ---------------------------------------------------------------

  /** Every allocated offset reads back its own data. */
  lemma LiveReads(r: Region, sh: Shadow, o: nat)
    requires Inv(r, sh) && o in sh.live
    ensures Read(r.buffer, o) == Some(sh.live[o].data)
    ensures Decode(r.buffer, o) == Some(Decoded(EXTENT_MAGIC, |sh.live[o].data|, sh.live[o].mark, true))
  {
    var x := sh.live[o];
    assert StoredAt(r.buffer, sh.blocks, o, x);
    ReadExtentIff(r.buffer, o, x.data, x.mark);
    DecodeHeader(r.buffer, o, |x.data|, x.mark, 0);
  }

  /** A freed offset reads as nothing. */
  lemma FreedReadsNone(r: Region, sh: Shadow, o: nat)
    requires Inv(r, sh) && o in sh.freed
    ensures Read(r.buffer, o) == None
    ensures Decode(r.buffer, o) == Some(Decoded(0, 0, 0, false))
  {
    assert ClearedAt(r.buffer, sh.blocks, o);
    assert FromLe(Zeros(4)) == 0 by {
      assert Zeros(4)[1..][1..][1..][1..] == [];
    }
  }

  /** Every byte below the bump pointer lies in exactly one block. */
  lemma EveryByteInOneBlock(blocks: map<nat, nat>, next: nat, x: nat)
    requires Tiles(blocks, next) && x < next
    ensures exists o :: o in blocks && o <= x < o + blocks[o]
    ensures forall o, p :: o in blocks && p in blocks && o <= x < o + blocks[o] && p <= x < p + blocks[p] ==> o == p
  {
    var o := Walk(blocks, next, x, 0);
  }

  lemma {:induction false} Walk(blocks: map<nat, nat>, next: nat, x: nat, from: nat) returns (o: nat)
    requires Tiles(blocks, next) && x < next && from in blocks && from <= x
    ensures o in blocks && o <= x < o + blocks[o]
    decreases next - from
  {
    if x < from + blocks[from] {
      o := from;
    } else {
      assert Followed(blocks, next, from);
      o := Walk(blocks, next, x, from + blocks[from]);
    }
  }

  // -- Frames ----------------------------------------------------------------------------------

  ghost predicate SameOutside(b: seq<Byte>, b': seq<Byte>, lo: nat, hi: nat) {
    |b'| == |b| && forall i :: 0 <= i < |b| && !(lo <= i < hi) ==> b'[i] == b[i]
  }

  lemma SliceSame(b: seq<Byte>, b': seq<Byte>, lo: nat, hi: nat, x: nat, y: nat)
    requires SameOutside(b, b', lo, hi) && x <= y <= |b| && (y <= lo || hi <= x)
    ensures b'[x..y] == b[x..y]
  {
  }

  lemma StoredFrame(b: seq<Byte>, b': seq<Byte>, blocks: map<nat, nat>, o: nat, x: Object, lo: nat, hi: nat)
    requires StoredAt(b, blocks, o, x) && SameOutside(b, b', lo, hi)
    requires o + blocks[o] <= lo || hi <= o
    ensures IsExtent(b', o, x.data, x.mark)
  {
    SliceSame(b, b', lo, hi, o, o + 32);
    SliceSame(b, b', lo, hi, o + 32, o + 32 + |x.data|);
  }

  lemma ClearedFrame(b: seq<Byte>, b': seq<Byte>, blocks: map<nat, nat>, o: nat, lo: nat, hi: nat)
    requires ClearedAt(b, blocks, o) && SameOutside(b, b', lo, hi)
    requires o + blocks[o] <= lo || hi <= o
    ensures ClearedAt(b', blocks, o)
  {
    SliceSame(b, b', lo, hi, o, o + 4);
    SliceSame(b, b', lo, hi, o + 16, o + 20);
  }

  lemma WriteExtentMakesExtent(b: seq<Byte>, off: nat, data: seq<Byte>)
    requires off + HEADER_SIZE + |data| <= |b|
    ensures var b' := WriteExtent(b, off, data);
            IsExtent(b', off, data, 0) && SameOutside(b, b', off, off + HEADER_SIZE + |data|)
  {
    var h := HeaderBytes(|data|, 0, 0);
    var b1 := Splice(b, off, h);
    SpliceElsewhere(b1, off + 32, data, off, off + 32);
  }

  // -- Allocation ------------------------------------------------------------------------------

  /** First fit: if block i of the free list is long enough and no earlier one is, its front is handed
      out and its tail, if there is one, goes to the end of the list; the bump pointer moves only if no
      block is long enough. */
  lemma AllocateFirstFit(r: Region, data: seq<Byte>, i: nat)
    requires InBounds(r) && i <= |r.free|
    requires var need := (39 + |data|) / 8 * 8;
             (i < |r.free| ==> r.free[i].len >= need) && forall j :: 0 <= j < i ==> r.free[j].len < need
    ensures var need := (39 + |data|) / 8 * 8;
            var (r', off) := Allocate(r, data);
            if i < |r.free| then
              var Block(at, len) := r.free[i];
              && off == Some(at) && r'.next == r.next && r'.used == r.used + {at}
              && r'.free == r.free[..i] + r.free[i + 1..] + (if len == need then [] else [Block(at + need, len - need)])
            else if r.next + need <= |r.buffer| then
              && off == Some(r.next) && r'.next == r.next + need && r'.used == r.used + {r.next}
              && r'.free == r.free
            else off == None && r' == r
  {
    assert FirstFit(r.free, ExtentTotal(|data|)) == i;
  }

  /** The meaning after an allocation: first fit with splitting, or the bump. */
  ghost function AllocShadow(r: Region, sh: Shadow, data: seq<Byte>): Shadow
    requires InBounds(r)
  {
    var need := ExtentTotal(|data|);
    var i := FirstFit(r.free, need);
    if i < |r.free| then
      var Block(off, len) := r.free[i];
      Shadow(SplitBlocks(sh.blocks, off, need, len), sh.live[off := Object(data, 0)], sh.freed - {off})
    else if r.next + need > |r.buffer| then sh
    else Shadow(sh.blocks[r.next := need], sh.live[r.next := Object(data, 0)], sh.freed)
  }

  ghost function SplitBlocks(blocks: map<nat, nat>, off: nat, need: nat, len: nat): map<nat, nat> {
    if len > need then blocks[off := need][off + need := len - need] else blocks
  }

  lemma SplitTiles(blocks: map<nat, nat>, next: nat, off: nat, need: nat, len: nat)
    requires Tiles(blocks, next) && off in blocks && blocks[off] == len && 0 < need <= len && need % 8 == 0
    ensures Tiles(SplitBlocks(blocks, off, need, len), next)
    ensures len > need ==> off + need !in blocks
  {
    if len > need {
      SplitApart(blocks, off, need, len);
      SplitChained(blocks, next, off, need, len);
      SplitAligned(blocks, off, need, len);
    }
  }

  lemma SplitApart(blocks: map<nat, nat>, off: nat, need: nat, len: nat)
    requires Apart(blocks) && off in blocks && blocks[off] == len && 0 < need < len
    ensures Apart(SplitBlocks(blocks, off, need, len)) && off + need !in blocks
  {
    var blocks' := SplitBlocks(blocks, off, need, len);
    forall o, p | o in blocks' && p in blocks' && o < p ensures o + blocks'[o] <= p {
      var o' := if o == off + need then off else o;
      var p' := if p == off + need then off else p;
      assert o' in blocks && p' in blocks;
    }
  }

  lemma SplitChained(blocks: map<nat, nat>, next: nat, off: nat, need: nat, len: nat)
    requires Chained(blocks, next) && off in blocks && blocks[off] == len && 0 < need < len && off + need !in blocks
    ensures Chained(SplitBlocks(blocks, off, need, len), next)
  {
    var blocks' := SplitBlocks(blocks, off, need, len);
    forall o | o in blocks' ensures Followed(blocks', next, o) {
      if o == off + need {
        assert Followed(blocks, next, off);
      } else if o != off {
        assert Followed(blocks, next, o);
      }
    }
  }

  lemma SplitAligned(blocks: map<nat, nat>, off: nat, need: nat, len: nat)
    requires Aligned(blocks) && off in blocks && blocks[off] == len && 0 < need < len && need % 8 == 0
    ensures Aligned(SplitBlocks(blocks, off, need, len))
  {
  }

  lemma BumpTiles(blocks: map<nat, nat>, next: nat, need: nat)
    requires Tiles(blocks, next) && need > 0 && need % 8 == 0 && next % 8 == 0
    ensures Tiles(blocks[next := need], next + need) && next !in blocks && (next + need) % 8 == 0
  {
    AlignedSum(next, need);
    var blocks' := blocks[next := need];
    forall o | o in blocks' ensures Followed(blocks', next + need, o) {
      if o != next {
        assert Followed(blocks, next, o);
      }
    }
  }

  lemma TakenBlocks(free: seq<Block>, i: nat, need: nat)
    requires i < |free| && need <= free[i].len
    ensures var f := TakeBlock(free, i, need);
            && (forall j :: 0 <= j < |free| - 1 ==> f[j] == free[if j < i then j else j + 1])
            && (free[i].len > need ==> |f| == |free| && f[|free| - 1] == Block(free[i].off + need, free[i].len - need))
            && (free[i].len == need ==> |f| == |free| - 1)
  {
  }

  lemma SplitFreeListed(free: seq<Block>, blocks: map<nat, nat>, used: set<nat>, i: nat, need: nat)
    requires FreeListed(free, blocks, used) && i < |free| && used <= blocks.Keys
    requires 0 < need <= free[i].len && (free[i].len > need ==> free[i].off + need !in blocks)
    ensures FreeListed(TakeBlock(free, i, need), SplitBlocks(blocks, free[i].off, need, free[i].len),
                       used + {free[i].off})
  {
    var Block(off, len) := free[i];
    var blocks' := SplitBlocks(blocks, off, need, len);
    var free' := TakeBlock(free, i, need);
    SplitListsOnlyFree(free, blocks, used, i, need);
    TakenBlocks(free, i, need);
    forall o | o in blocks' && o !in used + {off} ensures exists j :: 0 <= j < |free'| && free'[j].off == o {
      if o in blocks {
        var k :| 0 <= k < |free| && free[k].off == o;
        assert free'[if k < i then k else k - 1].off == o;
      } else {
        assert free'[|free| - 1].off == o;
      }
    }
  }

  lemma SplitListsOnlyFree(free: seq<Block>, blocks: map<nat, nat>, used: set<nat>, i: nat, need: nat)
    requires FreeListed(free, blocks, used) && i < |free| && used <= blocks.Keys
    requires 0 < need <= free[i].len && (free[i].len > need ==> free[i].off + need !in blocks)
    ensures var f := TakeBlock(free, i, need);
            var blocks' := SplitBlocks(blocks, free[i].off, need, free[i].len);
            && (forall j :: 0 <= j < |f| ==>
                  f[j].off in blocks' && f[j].off !in used + {free[i].off} && blocks'[f[j].off] == f[j].len)
            && (forall j, k :: 0 <= j < k < |f| ==> f[j].off != f[k].off)
  {
    TakenBlocks(free, i, need);
  }

  ghost predicate AgreeExcept(blocks: map<nat, nat>, blocks': map<nat, nat>, off: nat) {
    forall o :: o in blocks && o != off ==> o in blocks' && blocks'[o] == blocks[o]
  }

  /** Writing a new object into its block leaves all other blocks alone. */
  lemma PlaceObject(b: seq<Byte>, sh: Shadow, blocks: map<nat, nat>, next: nat, off: nat, data: seq<Byte>)
    requires Faithful(b, sh) && AgreeExcept(sh.blocks, blocks, off) && off !in sh.live
    requires Within(blocks, next) && Apart(blocks)
    requires next <= |b| && off in blocks && blocks[off] == ExtentTotal(|data|) && |data| < TWO32
    ensures off + HEADER_SIZE + |data| <= |b|
    ensures Faithful(WriteExtent(b, off, data), Shadow(blocks, sh.live[off := Object(data, 0)], sh.freed - {off}))
  {
    var b' := WriteExtent(b, off, data);
    var live' := sh.live[off := Object(data, 0)];
    WriteExtentMakesExtent(b, off, data);
    var hi := off + HEADER_SIZE + |data|;
    forall o | o in live' ensures StoredAt(b', blocks, o, live'[o]) {
      if o != off {
        StoredFrame(b, b', sh.blocks, o, sh.live[o], off, hi);
      }
    }
    forall o | o in sh.freed - {off} ensures o !in live' && ClearedAt(b', blocks, o) {
      ClearedFrame(b, b', sh.blocks, o, off, hi);
    }
  }

  lemma AllocateInv(r: Region, sh: Shadow, data: seq<Byte>)
    requires Inv(r, sh) && |data| < TWO32
    ensures InBounds(r) && Inv(Allocate(r, data).0, AllocShadow(r, sh, data))
  {
    InvInBounds(r, sh);
    var need := ExtentTotal(|data|);
    var i := FirstFit(r.free, need);
    var r', sh' := Allocate(r, data).0, AllocShadow(r, sh, data);
    if i < |r.free| {
      var Block(off, len) := r.free[i];
      FitInv(r, sh, data, i, need);
      assert r' == Region(WriteExtent(r.buffer, off, data), TakeBlock(r.free, i, need), r.used + {off}, r.next);
      assert sh' == Shadow(SplitBlocks(sh.blocks, off, need, len), sh.live[off := Object(data, 0)], sh.freed - {off});
    } else if r.next + need <= |r.buffer| {
      BumpInv(r, sh, data, need);
      assert r' == Region(WriteExtent(r.buffer, r.next, data), r.free, r.used + {r.next}, r.next + need);
      assert sh' == Shadow(sh.blocks[r.next := need], sh.live[r.next := Object(data, 0)], sh.freed);
    }
  }

  lemma FitInv(r: Region, sh: Shadow, data: seq<Byte>, i: nat, need: nat)
    requires Inv(r, sh) && |data| < TWO32 && i < |r.free| && need <= r.free[i].len
    requires need == ExtentTotal(|data|)
    ensures var Block(off, len) := r.free[i];
            && off + HEADER_SIZE + |data| <= |r.buffer|
            && Inv(Region(WriteExtent(r.buffer, off, data), TakeBlock(r.free, i, need), r.used + {off}, r.next),
                   Shadow(SplitBlocks(sh.blocks, off, need, len), sh.live[off := Object(data, 0)], sh.freed - {off}))
  {
    var Block(off, len) := r.free[i];
    SplitTiles(sh.blocks, r.next, off, need, len);
    FitDivided(r, sh, WriteExtent(r.buffer, off, data), Object(data, 0), i, need);
    PlaceObject(r.buffer, sh, SplitBlocks(sh.blocks, off, need, len), r.next, off, data);
  }

  lemma FitDivided(r: Region, sh: Shadow, b: seq<Byte>, x: Object, i: nat, need: nat)
    requires Divided(r, sh) && |b| == |r.buffer| && sh.live.Keys <= sh.blocks.Keys
    requires i < |r.free| && 0 < need <= r.free[i].len && need % 8 == 0
    ensures var Block(off, len) := r.free[i];
            Divided(Region(b, TakeBlock(r.free, i, need), r.used + {off}, r.next),
                    Shadow(SplitBlocks(sh.blocks, off, need, len), sh.live[off := x], sh.freed - {off}))
  {
    var Block(off, len) := r.free[i];
    SplitTiles(sh.blocks, r.next, off, need, len);
    SplitFreeListed(r.free, sh.blocks, r.used, i, need);
  }

  lemma BumpInv(r: Region, sh: Shadow, data: seq<Byte>, need: nat)
    requires Inv(r, sh) && |data| < TWO32 && need == ExtentTotal(|data|) && r.next + need <= |r.buffer|
    ensures Inv(Region(WriteExtent(r.buffer, r.next, data), r.free, r.used + {r.next}, r.next + need),
                Shadow(sh.blocks[r.next := need], sh.live[r.next := Object(data, 0)], sh.freed))
  {
    BumpDivided(r, sh, WriteExtent(r.buffer, r.next, data), Object(data, 0), need);
    BumpTiles(sh.blocks, r.next, need);
    assert r.next !in sh.live && r.next !in sh.freed;
    PlaceObject(r.buffer, sh, sh.blocks[r.next := need], r.next + need, r.next, data);
    assert sh.freed - {r.next} == sh.freed;
  }

  lemma BumpDivided(r: Region, sh: Shadow, b: seq<Byte>, x: Object, need: nat)
    requires Divided(r, sh) && |b| == |r.buffer| && need > 0 && need % 8 == 0 && r.next + need <= |r.buffer|
    ensures Divided(Region(b, r.free, r.used + {r.next}, r.next + need),
                    Shadow(sh.blocks[r.next := need], sh.live[r.next := x], sh.freed))
  {
    BumpTiles(sh.blocks, r.next, need);
    BumpFreeListed(r.free, sh.blocks, r.used, r.next, need);
  }

  lemma BumpFreeListed(free: seq<Block>, blocks: map<nat, nat>, used: set<nat>, next: nat, need: nat)
    requires FreeListed(free, blocks, used) && next !in blocks
    ensures FreeListed(free, blocks[next := need], used + {next})
  {
    forall o | o in blocks[next := need] && o !in used + {next} ensures exists i :: 0 <= i < |free| && free[i].off == o {
      assert o in blocks;
    }
  }

  // -- Freeing -----------------------------------------------------------------------------------

  ghost function Drop(sh: Shadow, gone: set<nat>): Shadow {
    Shadow(sh.blocks, sh.live - gone, sh.freed + gone)
  }

  lemma ReleaseInv(r: Region, sh: Shadow, o: nat)
    requires Inv(r, sh) && o in sh.live
    ensures Decode(r.buffer, o).Some? && Inv(Release(r, o, Decode(r.buffer, o).value), Drop(sh, {o}))
  {
    LiveReads(r, sh, o);
    var d := Decode(r.buffer, o).value;
    assert StoredAt(r.buffer, sh.blocks, o, sh.live[o]);
    assert Footprint(d) == sh.blocks[o];
    AppendFreeListed(r.free, sh.blocks, r.used, o);
    assert (sh.live - {o}).Keys == r.used - {o};
    ZeroMagicFaithful(r.buffer, sh, r.next, o);
  }

  lemma AppendFreeListed(free: seq<Block>, blocks: map<nat, nat>, used: set<nat>, o: nat)
    requires FreeListed(free, blocks, used) && o in used && o in blocks
    ensures FreeListed(free + [Block(o, blocks[o])], blocks, used - {o})
  {
    var free' := free + [Block(o, blocks[o])];
    forall p | p in blocks && p !in used - {o} ensures exists i :: 0 <= i < |free'| && free'[i].off == p {
      if p == o {
        assert free'[|free|].off == p;
      } else {
        var i :| 0 <= i < |free| && free[i].off == p;
        assert free'[i].off == p;
      }
    }
  }

  /** A change inside one live block leaves all the other blocks as they are. */
  lemma OthersFaithful(b: seq<Byte>, b': seq<Byte>, sh: Shadow, next: nat, o: nat, lo: nat, hi: nat)
    requires Faithful(b, sh) && Within(sh.blocks, next) && Apart(sh.blocks) && next <= |b| && o in sh.live
    requires o in sh.blocks && o <= lo <= hi <= o + sh.blocks[o] && SameOutside(b, b', lo, hi)
    ensures forall p :: p in sh.live && p != o ==> StoredAt(b', sh.blocks, p, sh.live[p])
    ensures forall p :: p in sh.freed ==> p !in sh.live && ClearedAt(b', sh.blocks, p)
  {
    forall p | p in sh.live && p != o ensures StoredAt(b', sh.blocks, p, sh.live[p]) {
      assert StoredAt(b, sh.blocks, p, sh.live[p]);
      OtherBlock(sh.blocks, o, p, lo, hi);
      StoredFrame(b, b', sh.blocks, p, sh.live[p], lo, hi);
    }
    forall p | p in sh.freed ensures p !in sh.live && ClearedAt(b', sh.blocks, p) {
      assert p !in sh.live && ClearedAt(b, sh.blocks, p);
      OtherBlock(sh.blocks, o, p, lo, hi);
      ClearedFrame(b, b', sh.blocks, p, lo, hi);
    }
  }

  lemma OtherBlock(blocks: map<nat, nat>, o: nat, p: nat, lo: nat, hi: nat)
    requires Apart(blocks) && o in blocks && p in blocks && o != p && o <= lo <= hi <= o + blocks[o]
    ensures p + blocks[p] <= lo || hi <= p
  {
  }

  lemma ZeroMagicFaithful(b: seq<Byte>, sh: Shadow, next: nat, o: nat)
    requires Faithful(b, sh) && Within(sh.blocks, next) && Apart(sh.blocks) && next <= |b| && o in sh.live
    ensures Faithful(ZeroMagic(b, o), Drop(sh, {o}))
  {
    var b' := ZeroMagic(b, o);
    assert StoredAt(b, sh.blocks, o, sh.live[o]);
    OthersFaithful(b, b', sh, next, o, o, o + 4);
    MagicGone(b, b', sh.blocks, o, sh.live[o]);
  }

  lemma MagicGone(b: seq<Byte>, b': seq<Byte>, blocks: map<nat, nat>, o: nat, x: Object)
    requires StoredAt(b, blocks, o, x) && o + blocks[o] <= |b| && b' == Splice(b, o, Zeros(4))
    ensures ClearedAt(b', blocks, o)
  {
    SpliceElsewhere(b, o, Zeros(4), o + 16, o + 20);
    HeaderFields(|x.data|, x.mark, 0);
    HeaderInBuffer(b, o, HeaderBytes(|x.data|, x.mark, 0), 16, 20);
    FromLeLowHalf(x.mark);
  }

  /** `free` succeeds exactly on allocated offsets, gives the whole block back, and the offset
      then reads as nothing. */
  lemma FreeInv(r: Region, sh: Shadow, o: nat)
    requires Inv(r, sh)
    ensures var (r', res) := Free(r, o);
            if o in sh.live then
              && res == Freed && Inv(r', Drop(sh, {o})) && Read(r'.buffer, o) == None
              && r'.free == r.free + [Block(o, sh.blocks[o])]
            else res == NotAllocated && r' == r
  {
    if o in sh.live {
      LiveReads(r, sh, o);
      ReleaseInv(r, sh, o);
      FreedReadsNone(Free(r, o).0, Drop(sh, {o}), o);
      assert StoredAt(r.buffer, sh.blocks, o, sh.live[o]);
    }
  }

  // -- Marking -----------------------------------------------------------------------------------

  ghost function Remark(sh: Shadow, o: nat, epoch: U64): Shadow
    requires o in sh.live
  {
    sh.(live := sh.live[o := sh.live[o].(mark := epoch)])
  }

  lemma HeaderRemark(dataLen: nat, mark: U64, epoch: U64)
    ensures Splice(HeaderBytes(dataLen, mark, 0), 16, Le(epoch, 8)) == HeaderBytes(dataLen, epoch, 0)
  {
  }

  lemma MarkedExtent(b: seq<Byte>, o: nat, data: seq<Byte>, mark: U64, epoch: U64)
    requires IsExtent(b, o, data, mark)
    ensures IsExtent(Splice(b, o + 16, Le(epoch, 8)), o, data, epoch)
  {
    var b' := Splice(b, o + 16, Le(epoch, 8));
    HeaderRemark(|data|, mark, epoch);
    assert b'[o..o + 32] == Splice(b[o..o + 32], 16, Le(epoch, 8));
    SpliceElsewhere(b, o + 16, Le(epoch, 8), o + 32, o + 32 + |data|);
  }

  /** Marking an allocated offset changes its mark and nothing else. */
  lemma MarkInv(r: Region, sh: Shadow, o: nat, epoch: U64)
    requires Inv(r, sh) && o in sh.live && epoch % TWO32 != EXTENT_MAGIC
    ensures MarkForGc(r, o, epoch).1 == Marked && Inv(MarkForGc(r, o, epoch).0, Remark(sh, o, epoch))
  {
    LiveReads(r, sh, o);
    assert StoredAt(r.buffer, sh.blocks, o, sh.live[o]);
    var b' := MarkForGc(r, o, epoch).0.buffer;
    assert b' == Splice(r.buffer, o + 16, Le(epoch, 8));
    MarkFaithful(r.buffer, b', sh, r.next, o, epoch);
    assert Remark(sh, o, epoch).live.Keys == sh.live.Keys;
  }

  lemma MarkFaithful(b: seq<Byte>, b': seq<Byte>, sh: Shadow, next: nat, o: nat, epoch: U64)
    requires Faithful(b, sh) && Within(sh.blocks, next) && Apart(sh.blocks) && next <= |b| && o in sh.live
    requires epoch % TWO32 != EXTENT_MAGIC && o + 24 <= |b| && b' == Splice(b, o + 16, Le(epoch, 8))
    ensures Faithful(b', Remark(sh, o, epoch))
  {
    var x := sh.live[o];
    assert StoredAt(b, sh.blocks, o, x);
    MarkedExtent(b, o, x.data, x.mark, epoch);
    OthersFaithful(b, b', sh, next, o, o + 16, o + 24);
  }

  /** Marking a freed offset is refused. */
  lemma MarkFreed(r: Region, sh: Shadow, o: nat, epoch: U64)
    requires Inv(r, sh) && o in sh.freed
    ensures MarkForGc(r, o, epoch) == (r, BadMagic)
  {
    FreedReadsNone(r, sh, o);
  }

  /** A mark whose low half equals the V1 magic makes the object unreadable; any other mark does
      not. */
  lemma MarkReadableIff(r: Region, sh: Shadow, o: nat, epoch: U64)
    requires Inv(r, sh) && o in sh.live
    ensures Read(MarkForGc(r, o, epoch).0.buffer, o) == Some(sh.live[o].data) <==> epoch % TWO32 != EXTENT_MAGIC
  {
    LiveReads(r, sh, o);
    var x := sh.live[o];
    assert StoredAt(r.buffer, sh.blocks, o, x);
    MarkedExtent(r.buffer, o, x.data, x.mark, epoch);
    ReadExtentIff(MarkForGc(r, o, epoch).0.buffer, o, x.data, epoch);
  }

  /** A V1 extent gives back its header of 24 bytes and its data, unpadded. */
  lemma FreeV1(r: Region, off: nat, length: U64, mark: U64)
    requires off in r.used && HeaderV1(r.buffer, off, length, mark)
    ensures Free(r, off) == (Region(Splice(r.buffer, off, Zeros(4)), r.free + [Block(off, 24 + length)],
                                    r.used - {off}, r.next), Freed)
  {
    DecodeV1(r.buffer, off, length, mark);
  }

  /** A mark is written where V2 keeps it, which is where V1 keeps its magic: a V1 extent that is marked
      can not be read any more, and shows no mark by which a sweep could collect it. */
  lemma MarkLosesV1(r: Region, off: nat, length: U64, mark: U64, epoch: U64)
    requires HeaderV1(r.buffer, off, length, mark)
    requires length % TWO32 != EXTENT_MAGIC && epoch % TWO32 != EXTENT_MAGIC
    ensures var (r', res) := MarkForGc(r, off, epoch);
            res == Marked && Read(r'.buffer, off) == None && forall m :: SweepOne(r', off, m) == (r', 0)
  {
    DecodeV1(r.buffer, off, length, mark);
    MarkedV1(r.buffer, off, length, epoch);
  }

  lemma MarkedV1(b: seq<Byte>, off: nat, length: U64, epoch: U64)
    requires off + 24 <= |b| && b[off..off + 8] == Le(length, 8)
    requires length % TWO32 != EXTENT_MAGIC && epoch % TWO32 != EXTENT_MAGIC
    ensures Decode(Splice(b, off + 16, Le(epoch, 8)), off) == Some(Decoded(length % TWO32, 0, 0, false))
  {
    var b' := Splice(b, off + 16, Le(epoch, 8));
    assert b'[off + 16..off + 24] == Le(epoch, 8);
    MarkFields(b', off, epoch);
    assert b'[off..off + 4] == Le(length, 8)[..4];
    FromLeLowHalf(length);
  }

  /** A header that is cut off or shows no magic is refused, and nothing changes. */
  lemma HeaderRefused(r: Region, off: nat, epoch: U64)
    requires off + 24 <= |r.buffer| ==> FromLe(r.buffer[off + 16..off + 20]) != EXTENT_MAGIC
    ensures off + 5 > |r.buffer| ==>
              && MarkForGc(r, off, epoch) == (r, BadOffset)
              && Free(r, off) == (r, if off in r.used then InvalidOffset else NotAllocated)
    ensures off + 5 <= |r.buffer| && FromLe(r.buffer[off..off + 4]) != EXTENT_MAGIC ==>
              && MarkForGc(r, off, epoch) == (r, BadMagic)
              && Free(r, off) == (r, if off in r.used then InvalidMagic else NotAllocated)
  {
  }

  /** Why marks must go to allocated extents: data that look like a header, here that of an empty extent,
      can be marked as if they were one, and that changes them. */
  lemma MarkInsideObject(r: Region, sh: Shadow, o: nat, epoch: U64)
    requires Inv(r, sh) && o in sh.live && sh.live[o].data == HeaderBytes(0, 0, 0) && epoch != 0
    ensures MarkForGc(r, o + 32, epoch).1 == Marked
    ensures Read(r.buffer, o) == Some(HeaderBytes(0, 0, 0))
    ensures Read(MarkForGc(r, o + 32, epoch).0.buffer, o) == Some(HeaderBytes(0, epoch, 0))
    ensures HeaderBytes(0, epoch, 0) != HeaderBytes(0, 0, 0)
  {
    LiveReads(r, sh, o);
    assert StoredAt(r.buffer, sh.blocks, o, sh.live[o]);
    InnerMarkPasses(r, o, sh.live[o].mark, epoch);
    InnerMark(r.buffer, o, sh.live[o].mark, epoch);
    ReadExtentIff(Splice(r.buffer, o + 48, Le(epoch, 8)), o, HeaderBytes(0, epoch, 0), sh.live[o].mark);
    MarksDiffer(epoch);
  }

  lemma InnerMarkPasses(r: Region, o: nat, mark: U64, epoch: U64)
    requires IsExtent(r.buffer, o, HeaderBytes(0, 0, 0), mark)
    ensures MarkForGc(r, o + 32, epoch) == (r.(buffer := Splice(r.buffer, o + 48, Le(epoch, 8))), Marked)
  {
    DecodeHeader(r.buffer, o + 32, 0, 0, 0);
  }

  lemma InnerMark(b: seq<Byte>, o: nat, mark: U64, epoch: U64)
    requires IsExtent(b, o, HeaderBytes(0, 0, 0), mark)
    ensures IsExtent(Splice(b, o + 48, Le(epoch, 8)), o, HeaderBytes(0, epoch, 0), mark)
  {
    assert IsExtent(b, o + 32, [], 0);
    MarkedExtent(b, o + 32, [], 0, epoch);
    SpliceElsewhere(b, o + 48, Le(epoch, 8), o, o + 32);
  }

  lemma MarksDiffer(epoch: U64)
    requires epoch != 0
    ensures HeaderBytes(0, epoch, 0) != HeaderBytes(0, 0, 0)
  {
    HeaderFields(0, epoch, 0);
    HeaderFields(0, 0, 0);
    FromLe8(epoch);
    FromLe8(0);
  }

  /** What is allocated reads back exactly if its length fits the 32-bit length field. */
  lemma AllocateReadableIff(r: Region, data: seq<Byte>)
    requires InBounds(r) && Allocate(r, data).1.Some?
    ensures Read(Allocate(r, data).0.buffer, Allocate(r, data).1.value) == Some(data) <==> |data| < TWO32
  {
    var off := Allocate(r, data).1.value;
    WriteExtentMakesExtent(r.buffer, off, data);
    ReadExtentIff(Allocate(r, data).0.buffer, off, data, 0);
  }

  // -- Sweeping ------------------------------------------------------------------------------------

  predicate Due(x: Object, minActive: nat) { 0 < x.mark < minActive }

  ghost function Victims(sh: Shadow, order: seq<nat>, minActive: nat): set<nat> {
    set o | o in order && o in sh.live && Due(sh.live[o], minActive)
  }

  lemma SweepOneInv(r: Region, sh: Shadow, o: nat, minActive: nat)
    requires Inv(r, sh) && o in sh.live
    ensures var (r', n) := SweepOne(r, o, minActive);
            if Due(sh.live[o], minActive) then
              n == 1 && Inv(r', Drop(sh, {o})) && r'.free == r.free + [Block(o, sh.blocks[o])]
            else n == 0 && r' == r
  {
    LiveReads(r, sh, o);
    if Due(sh.live[o], minActive) {
      ReleaseInv(r, sh, o);
      assert StoredAt(r.buffer, sh.blocks, o, sh.live[o]);
    }
  }

  ghost function Single(sh: Shadow, o: nat, minActive: nat): set<nat>
    requires o in sh.live
  {
    if Due(sh.live[o], minActive) then {o} else {}
  }

  /** One round of a sweep. */
  lemma SweepStep(r: Region, sh: Shadow, o: nat, minActive: nat)
    requires Inv(r, sh) && o in sh.live
    ensures var gone := Single(sh, o, minActive);
            Inv(SweepOne(r, o, minActive).0, Drop(sh, gone)) && SweepOne(r, o, minActive).1 == |gone|
  {
    SweepOneInv(r, sh, o, minActive);
    DropNone(sh, Single(sh, o, minActive));
  }

  lemma {:induction false} SweepOrderInv(r: Region, sh: Shadow, order: seq<nat>, minActive: nat)
    requires Inv(r, sh) && Distinct(order) && forall o :: o in order ==> o in sh.live
    ensures Inv(Sweep(r, order, minActive).0, Drop(sh, Victims(sh, order, minActive)))
    ensures Sweep(r, order, minActive).1 == |Victims(sh, order, minActive)|
    decreases |order|
  {
    if order == [] {
      DropNone(sh, Victims(sh, order, minActive));
    } else {
      var before, o := order[..|order| - 1], order[|order| - 1];
      SweepOrderInv(r, sh, before, minActive);
      var sh1 := Drop(sh, Victims(sh, before, minActive));
      VictimsSnoc(sh, order, minActive);
      SweepStep(Sweep(r, before, minActive).0, sh1, o, minActive);
      DropDrop(sh, Victims(sh, before, minActive), Single(sh1, o, minActive));
    }
  }

  lemma DropNone(sh: Shadow, gone: set<nat>)
    ensures gone == {} ==> Drop(sh, gone) == sh
  {
    assert sh.live - {} == sh.live && sh.freed + {} == sh.freed;
  }

  lemma DropDrop(sh: Shadow, a: set<nat>, b: set<nat>)
    ensures Drop(Drop(sh, a), b) == Drop(sh, a + b)
  {
    assert sh.live - a - b == sh.live - (a + b);
    assert sh.freed + a + b == sh.freed + (a + b);
  }

  /** The last offset is still there when its turn comes. */
  lemma VictimsSnoc(sh: Shadow, order: seq<nat>, minActive: nat)
    requires order != [] && Distinct(order) && forall o :: o in order ==> o in sh.live
    ensures var before, o := order[..|order| - 1], order[|order| - 1];
            var gone := Victims(sh, before, minActive);
            && o in Drop(sh, gone).live
            && Victims(sh, order, minActive) == gone + Single(Drop(sh, gone), o, minActive)
            && |Victims(sh, order, minActive)| == |gone| + |Single(Drop(sh, gone), o, minActive)|
  {
    var before, o := order[..|order| - 1], order[|order| - 1];
    var gone := Victims(sh, before, minActive);
    assert order == before + [o] && o !in before;
    assert Victims(sh, order, minActive) == gone + Single(Drop(sh, gone), o, minActive);
  }

  ghost function AllDue(sh: Shadow, minActive: nat): set<nat> {
    set o | o in sh.live && Due(sh.live[o], minActive)
  }

  /** In whatever order the allocated offsets are visited, a sweep frees exactly the objects with
      a mark above zero and below the minimum, and returns their number. */
  lemma SweepExact(r: Region, sh: Shadow, order: seq<nat>, minActive: nat)
    requires Inv(r, sh) && Enumerates(order, r.used)
    ensures var (r', n) := Sweep(r, order, minActive);
            var gone := AllDue(sh, minActive);
            Inv(r', Drop(sh, gone)) && n == |gone| && r'.used == r.used - gone
  {
    SweepOrderInv(r, sh, order, minActive);
    assert Victims(sh, order, minActive) == AllDue(sh, minActive);
  }
}
