/** The large object region as an object (src/engine/extent.rs): the buffer is written byte by
    byte in place, and every method is proved against its function in `Region`. */
module LargeObjects {
  import opened Wrappers
  import opened Bits
  import opened Bytes
  import opened Extent
  import R = Region
  import Space

  lemma {:induction false} FirstFitIs(free: seq<R.Block>, need: nat, i: nat)
    requires i <= |free| && (i < |free| ==> free[i].len >= need)
    requires forall j :: 0 <= j < i ==> free[j].len < need
    ensures R.FirstFit(free, need) == i
  {
    var k := R.FirstFit(free, need);
  }

  lemma EnumerateSnoc(order: seq<nat>, s: set<nat>, off: nat)
    requires R.Enumerates(order, s) && off !in s
    ensures R.Enumerates(order + [off], s + {off})
  {
  }

  lemma SweepSnoc(r: R.Region, order: seq<nat>, i: nat, minActive: nat)
    requires i < |order|
    ensures var r1 := R.Sweep(r, order[..i], minActive);
            var r2 := R.SweepOne(r1.0, order[i], minActive);
            R.Sweep(r, order[..i + 1], minActive) == (r2.0, r1.1 + r2.1)
  {
    assert order[..i + 1][..i] == order[..i];
  }

  class LargeObjectRegion {
    const buffer: array<Byte>
    var free: seq<R.Block>
    var used: set<nat>
    var next: nat

    ghost function State(): R.Region
      reads this, buffer
    {
      R.Region(buffer[..], free, used, next)
    }

    constructor (size: nat)
      ensures fresh(buffer) && State() == R.NewRegion(size)
    {
      buffer := new Byte[size](i => 0);
      free, used, next := [], {}, 0;
      new;
      assert buffer[..] == Zeros(size);
    }

    /** `copy_from_slice` into the buffer. */
    method CopyIn(off: nat, d: seq<Byte>)
      requires off + |d| <= buffer.Length
      modifies buffer
      ensures buffer[..] == Splice(old(buffer[..]), off, d)
    {
      for i := 0 to |d|
        invariant buffer[..] == Splice(old(buffer[..]), off, d[..i])
      {
        buffer[off + i] := d[i];
        assert d[..i + 1] == d[..i] + [d[i]];
      }
      assert d[..|d|] == d;
    }

    method WriteExtent(off: nat, data: seq<Byte>)
      requires off + HEADER_SIZE + |data| <= buffer.Length
      modifies buffer
      ensures buffer[..] == R.WriteExtent(old(buffer[..]), off, data)
    {
      CopyIn(off, HeaderBytes(|data|, 0, 0));
      CopyIn(off + HEADER_SIZE, data);
    }

    method FindFit(need: nat) returns (i: nat)
      ensures i == R.FirstFit(free, need)
    {
      i := 0;
      while i < |free| && free[i].len < need
        invariant i <= |free| && forall j :: 0 <= j < i ==> free[j].len < need
      {
        i := i + 1;
      }
      FirstFitIs(free, need, i);
    }

    method Allocate(data: seq<Byte>) returns (r: Option<nat>)
      requires R.InBounds(State())
      modifies this, buffer
      ensures (State(), r) == R.Allocate(old(State()), data)
    {
      var need := ExtentTotal(|data|);
      var i := FindFit(need);
      if i < |free| {
        var off := free[i].off;
        free := R.TakeBlock(free, i, need);
        Occupy(off, data);
        return Some(off);
      }
      if next + need > buffer.Length {
        return None;
      }
      var off := next;
      next := next + need;
      Occupy(off, data);
      return Some(off);
    }

    method Occupy(off: nat, data: seq<Byte>)
      requires off + HEADER_SIZE + |data| <= buffer.Length
      modifies this, buffer
      ensures buffer[..] == R.WriteExtent(old(buffer[..]), off, data)
      ensures used == old(used) + {off} && free == old(free) && next == old(next)
    {
      WriteExtent(off, data);
      used := used + {off};
    }

    method Read(off: nat) returns (r: Option<seq<Byte>>)
      ensures r == Extent.Read(buffer[..], off)
    {
      var d := Decode(buffer[..], off);
      if d == None || d.value.magic != EXTENT_MAGIC {
        return None;
      }
      var start := off + (if d.value.isV2 then 32 else 24);
      if start + d.value.dataLen > buffer.Length {
        return None;
      }
      r := Some(buffer[start..start + d.value.dataLen]);
    }

    method Release(off: nat, d: Decoded)
      modifies this, buffer
      ensures State() == R.Release(old(State()), off, d)
    {
      if off + 4 <= buffer.Length {
        CopyIn(off, Zeros(4));
      }
      free := free + [R.Block(off, R.Footprint(d))];
      used := used - {off};
    }

    method Free(off: nat) returns (res: R.FreeResult)
      modifies this, buffer
      ensures (State(), res) == R.Free(old(State()), off)
    {
      if off !in used {
        return R.NotAllocated;
      }
      var d := Decode(buffer[..], off);
      if d == None {
        return R.InvalidOffset;
      }
      if d.value.magic != EXTENT_MAGIC {
        return R.InvalidMagic;
      }
      Release(off, d.value);
      return R.Freed;
    }

    method MarkForGc(off: nat, epoch: U64) returns (res: R.MarkResult)
      modifies buffer
      ensures (State(), res) == R.MarkForGc(old(State()), off, epoch)
    {
      var d := Decode(buffer[..], off);
      if d == None {
        return R.BadOffset;
      }
      if d.value.magic != EXTENT_MAGIC {
        return R.BadMagic;
      }
      if off + 24 <= buffer.Length {
        CopyIn(off + 16, Le(epoch, 8));
      }
      return R.Marked;
    }

    method SweepOne(off: nat, minActive: nat) returns (n: nat)
      modifies this, buffer
      ensures (State(), n) == R.SweepOne(old(State()), off, minActive)
    {
      n := 0;
      var d := Decode(buffer[..], off);
      if d.Some? && 0 < d.value.epochMark < minActive {
        Release(off, d.value);
        n := 1;
      }
    }

    /** The allocated offsets as a list, in an arbitrary order. */
    method CollectOffsets() returns (order: seq<nat>)
      ensures R.Enumerates(order, used)
    {
      var offsets := used;
      ghost var done := {};
      order := [];
      while offsets != {}
        invariant done + offsets == used && done !! offsets && R.Enumerates(order, done)
        decreases |offsets|
      {
        var off :| off in offsets;
        EnumerateSnoc(order, done, off);
        offsets, order, done := offsets - {off}, order + [off], done + {off};
      }
    }

    method Sweep(minActive: nat) returns (count: nat, ghost order: seq<nat>)
      modifies this, buffer
      ensures R.Enumerates(order, old(used))
      ensures (State(), count) == R.Sweep(old(State()), order, minActive)
    {
      var offsets := CollectOffsets();
      order := offsets;
      count := SweepList(offsets, minActive);
    }

    method SweepList(offsets: seq<nat>, minActive: nat) returns (count: nat)
      modifies this, buffer
      ensures (State(), count) == R.Sweep(old(State()), offsets, minActive)
    {
      count := 0;
      ghost var start := State();
      ghost var swept := R.Sweep(start, offsets[..0], minActive);
      for i := 0 to |offsets|
        invariant swept == R.Sweep(start, offsets[..i], minActive)
        invariant State() == swept.0 && count == swept.1
      {
        SweepSnoc(start, offsets, i, minActive);
        swept := R.Sweep(start, offsets[..i + 1], minActive);
        var n := SweepOne(offsets[i], minActive);
        count := count + n;
      }
      assert offsets[..|offsets|] == offsets;
    }

    /** The sum of the footprints of the allocated extents. */
    method UsedBytes() returns (total: nat)
      ensures exists order :: R.Enumerates(order, used) && total == Space.UsedBytes(buffer[..], order)
    {
      var offsets := CollectOffsets();
      total := 0;
      for i := 0 to |offsets|
        invariant total == Space.UsedBytes(buffer[..], offsets[..i])
      {
        assert offsets[..i + 1][..i] == offsets[..i];
        total := total + Space.FootprintAt(buffer[..], offsets[i]);
      }
      assert offsets[..|offsets|] == offsets;
    }
  }
}
