/** Space conservation in the large object region: what `used_bytes` counts and what the free
    list holds always add up to the bump pointer. */
module Space {
  import opened Wrappers
  import opened Bits
  import opened Bytes
  import opened Extent
  import opened Region

  /** What the header at an offset says about the footprint of its extent. */
  function FootprintAt(b: seq<Byte>, off: nat): nat {
    match Decode(b, off)
    case Some(d) => ExtentTotal(d.dataLen)
    case None => 0
  }

  /** `used_bytes`: the footprints of the allocated extents, visited in some order. */
  function UsedBytes(b: seq<Byte>, order: seq<nat>): nat {
    if order == [] then 0
    else UsedBytes(b, order[..|order| - 1]) + FootprintAt(b, order[|order| - 1])
  }

  /** A V1 extent counts for at least 8 bytes more than it gives back when it is freed. */
  lemma MiscountedV1(b: seq<Byte>, off: nat, length: U64, mark: U64)
    requires HeaderV1(b, off, length, mark)
    ensures Decode(b, off).Some? && FootprintAt(b, off) == ExtentTotal(length) >= Footprint(Decode(b, off).value) + 8
  {
    DecodeV1(b, off, length, mark);
  }

  function FreeBytes(free: seq<Block>): nat {
    if free == [] then 0 else FreeBytes(free[..|free| - 1]) + free[|free| - 1].len
  }

  // -- Sums over sets ----------------------------------------------------------------------------

  ghost function Pick(s: set<nat>): (x: nat)
    requires s != {}
    ensures x in s
  {
    var x :| x in s; x
  }

  ghost function Sum(s: set<nat>, f: map<nat, nat>): nat
    requires s <= f.Keys
    decreases |s|
  {
    if s == {} then 0 else f[Pick(s)] + Sum(s - {Pick(s)}, f)
  }

  lemma {:induction false} SumRemove(s: set<nat>, f: map<nat, nat>, x: nat)
    requires s <= f.Keys && x in s
    ensures Sum(s, f) == f[x] + Sum(s - {x}, f)
    decreases |s|
  {
    var y := Pick(s);
    if x != y {
      SumRemove(s - {y}, f, x);
      SumRemove(s - {x}, f, y);
      assert s - {x} - {y} == s - {y} - {x};
    }
  }

  lemma SumAdd(s: set<nat>, f: map<nat, nat>, x: nat)
    requires s <= f.Keys && x in f && x !in s
    ensures Sum(s + {x}, f) == Sum(s, f) + f[x]
  {
    SumRemove(s + {x}, f, x);
    assert s + {x} - {x} == s;
  }

  lemma {:induction false} SumUnion(a: set<nat>, b: set<nat>, f: map<nat, nat>)
    requires a <= f.Keys && b <= f.Keys && a !! b
    ensures Sum(a + b, f) == Sum(a, f) + Sum(b, f)
    decreases |b|
  {
    if b == {} {
      assert a + b == a;
    } else {
      var x := Pick(b);
      SumUnion(a, b - {x}, f);
      SumAdd(a + (b - {x}), f, x);
      assert a + (b - {x}) + {x} == a + b;
    }
  }

  // -- The blocks add up to the bump pointer -----------------------------------------------------

  ghost function From(blocks: map<nat, nat>, lo: nat): set<nat> {
    set o | o in blocks && o >= lo
  }

  lemma {:induction false} BlocksFrom(blocks: map<nat, nat>, next: nat, lo: nat)
    requires Tiles(blocks, next) && lo <= next && (lo == next || lo in blocks)
    ensures Sum(From(blocks, lo), blocks) == next - lo
    decreases next - lo
  {
    if lo == next {
      assert From(blocks, lo) == {};
    } else {
      var hi := lo + blocks[lo];
      assert Followed(blocks, next, lo);
      BlocksFrom(blocks, next, hi);
      assert From(blocks, lo) - {lo} == From(blocks, hi);
      SumRemove(From(blocks, lo), blocks, lo);
    }
  }

  ghost function Offs(free: seq<Block>): set<nat> {
    set i | 0 <= i < |free| :: free[i].off
  }

  lemma {:induction false} FreeBytesSum(free: seq<Block>, blocks: map<nat, nat>)
    requires forall i :: 0 <= i < |free| ==> free[i].off in blocks && blocks[free[i].off] == free[i].len
    requires forall i, j :: 0 <= i < j < |free| ==> free[i].off != free[j].off
    ensures FreeBytes(free) == Sum(Offs(free), blocks)
    decreases |free|
  {
    if free == [] {
      assert Offs(free) == {};
    } else {
      var shorter, last := free[..|free| - 1], free[|free| - 1];
      FreeBytesSum(shorter, blocks);
      SumAdd(Offs(shorter), blocks, last.off);
      OffsSnoc(free);
    }
  }

  lemma OffsSnoc(free: seq<Block>)
    requires free != []
    ensures Offs(free) == Offs(free[..|free| - 1]) + {free[|free| - 1].off}
  {
    var shorter := free[..|free| - 1];
    forall o | o in Offs(free) ensures o in Offs(shorter) + {free[|free| - 1].off} {
      var i :| 0 <= i < |free| && free[i].off == o;
      if i < |shorter| {
        assert shorter[i].off == o;
      }
    }
    forall o | o in Offs(shorter) ensures o in Offs(free) {
      var i :| 0 <= i < |shorter| && shorter[i].off == o;
      assert free[i].off == o;
    }
  }

  ghost function Elems(order: seq<nat>): set<nat> { set o | o in order }

  /** The header of an allocated extent tells the length of its block. */
  ghost predicate KnowsLength(b: seq<Byte>, blocks: map<nat, nat>, o: nat) {
    o in blocks && FootprintAt(b, o) == blocks[o]
  }

  lemma {:induction false} UsedBytesSum(b: seq<Byte>, blocks: map<nat, nat>, order: seq<nat>)
    requires Distinct(order) && forall o :: o in order ==> KnowsLength(b, blocks, o)
    ensures Elems(order) <= blocks.Keys && UsedBytes(b, order) == Sum(Elems(order), blocks)
    decreases |order|
  {
    if order == [] {
      assert Elems(order) == {};
    } else {
      var shorter, last := order[..|order| - 1], order[|order| - 1];
      UsedBytesSum(b, blocks, shorter);
      assert KnowsLength(b, blocks, last);
      assert order == shorter + [last] && last !in shorter;
      assert Elems(order) == Elems(shorter) + {last};
      SumAdd(Elems(shorter), blocks, last);
    }
  }

  lemma UsedKnowLengths(r: Region, sh: Shadow)
    requires Inv(r, sh)
    ensures forall o :: o in r.used ==> KnowsLength(r.buffer, sh.blocks, o)
  {
    forall o | o in r.used ensures KnowsLength(r.buffer, sh.blocks, o) {
      LiveReads(r, sh, o);
      assert StoredAt(r.buffer, sh.blocks, o, sh.live[o]);
    }
  }

  lemma FreeAndUsed(r: Region, sh: Shadow)
    requires Inv(r, sh)
    ensures r.used !! Offs(r.free) && r.used + Offs(r.free) == sh.blocks.Keys
  {
    UsedKnowLengths(r, sh);
    forall o | o in r.used ensures o in sh.blocks {
      assert KnowsLength(r.buffer, sh.blocks, o);
    }
  }

  lemma BlocksSum(r: Region, sh: Shadow)
    requires Inv(r, sh)
    ensures Sum(sh.blocks.Keys, sh.blocks) == r.next
  {
    BlocksFrom(sh.blocks, r.next, 0);
    assert From(sh.blocks, 0) == sh.blocks.Keys;
  }

  /** In every reachable state, whatever the order of iteration, the used bytes and the bytes on
      the free list together are the bytes below the bump pointer. */
  lemma SpaceConserved(r: Region, sh: Shadow, order: seq<nat>)
    requires Inv(r, sh) && Enumerates(order, r.used)
    ensures UsedBytes(r.buffer, order) + FreeBytes(r.free) == r.next
  {
    assert Elems(order) == r.used;
    UsedKnowLengths(r, sh);
    UsedBytesSum(r.buffer, sh.blocks, order);
    FreeAndUsed(r, sh);
    BlocksSum(r, sh);
    FreeBytesSum(r.free, sh.blocks);
    SumUnion(r.used, Offs(r.free), sh.blocks);
  }
}
