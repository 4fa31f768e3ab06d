/** The table as an object over a bucket array that is overwritten in place
    (src/engine/cuckoo.rs).  Every method is proved against its function in `Cuckoo`. */
module CuckooTable {
  import opened Wrappers
  import opened Bits
  import opened Bytes
  import opened LockWord
  import opened Layout
  import opened Cuckoo

  datatype LookupResult = LookupResult(value: Body, mode: Mode, extentOffset: nat, extentLength: nat)

  class CuckooTable {
    const buckets: array<Bucket>
    const maxKick: nat

    ghost predicate Valid() { SizeOk(buckets.Length) }

    constructor (bucketCount: nat, maxKick: nat)
      requires IsPowerOfTwo(bucketCount)
      ensures Valid() <==> bucketCount != 1
      ensures fresh(buckets) && this.maxKick == maxKick
      ensures buckets[..] == NewTable(bucketCount)
    {
      this.maxKick := maxKick;
      this.buckets := new Bucket[bucketCount](i => EMPTY_BUCKET);
    }

    /** Writes an item into a slot, overwriting what was there. */
    method WriteSlot(i: nat, item: Item)
      requires i < buckets.Length
      modifies buckets
      ensures buckets[..] == old(buckets[..])[i := Filled(item)]
    {
      buckets[i] := Filled(item);
    }

    method Insert(key: Key, value: seq<Byte>, mode: Mode) returns (reply: Reply)
      requires Valid()
      modifies buckets
      ensures (buckets[..], reply) == Apply(old(buckets[..]), maxKick, Op.Insert(key, value, mode))
    {
      if key.hash == 0 {
        return InvalidKey;
      }
      var ok := InsertRaw(Item(key, Entry(PackBody(value, mode), mode)));
      reply := if ok then Inserted else TableFull;
    }

    method InsertExtent(key: Key, offset: U64, length: U64) returns (reply: Reply)
      requires Valid()
      modifies buckets
      ensures (buckets[..], reply) == Apply(old(buckets[..]), maxKick, Op.InsertExtent(key, offset, length))
    {
      if key.hash == 0 {
        return InvalidKey;
      }
      var ok := InsertRaw(Item(key, Entry(ExtentBody(offset, length), Extent)));
      reply := if ok then Inserted else TableFull;
    }

    method Delete(key: Key) returns (found: bool)
      requires Valid()
      modifies buckets
      ensures (buckets[..], Removed(found)) == Apply(old(buckets[..]), maxKick, Remove(key))
    {
      ghost var t := buckets[..];
      var slot := FindKeyIdx(key);
      found := slot.Some?;
      if found {
        buckets[slot.value] := buckets[slot.value].MarkTombstone();
        assert buckets[..] == t[slot.value := t[slot.value].MarkTombstone()];
      }
    }

    method Lookup(key: Key) returns (r: Option<LookupResult>)
      requires Valid()
      ensures r.Some? <==> Cuckoo.Lookup(buckets[..], key).Some?
      ensures r.Some? ==> Entry(r.value.value, r.value.mode) == Cuckoo.Lookup(buckets[..], key).value
      ensures r.Some? && r.value.mode == Extent ==>
                && r.value.extentOffset == FromLe(r.value.value[0..8])
                && r.value.extentLength == FromLe(r.value.value[8..16])
      ensures r.Some? && r.value.mode == Inline ==> r.value.extentOffset == r.value.extentLength == 0
    {
      var slot := FindKeyIdx(key);
      if slot == None {
        return None;
      }
      var b := buckets[slot.value];
      var (offset, length) := if b.word.mode == Extent then b.ExtentRef() else (0, 0);
      r := Some(LookupResult(b.body, b.word.mode, offset, length));
    }

    method FindKeyIdx(key: Key) returns (r: Option<nat>)
      requires Valid()
      ensures r == FindKey(buckets[..], key)
    {
      var h1, h2 := H1(buckets.Length, key.hash), H2(buckets.Length, key.hash);
      if buckets[h1].Matches(key) && !buckets[h1].word.tombstone {
        return Some(h1);
      }
      if buckets[h2].Matches(key) && !buckets[h2].word.tombstone {
        return Some(h2);
      }
      return None;
    }

    method InsertRaw(item: Item) returns (ok: bool)
      requires Valid()
      modifies buckets
      ensures var r := Cuckoo.InsertRaw(old(buckets[..]), item, maxKick);
              buckets[..] == r.table && ok == r.ok
    {
      var h1, h2 := H1(buckets.Length, item.key.hash), H2(buckets.Length, item.key.hash);
      var slot := FindKeyIdx(item.key);
      if slot.Some? {
        WriteSlot(slot.value, item);
        return true;
      }
      if buckets[h1].Vacant() {
        WriteSlot(h1, item);
        return true;
      }
      if buckets[h2].Vacant() {
        WriteSlot(h2, item);
        return true;
      }
      ok := KickChain(h1, item);
    }

    /** Evicts the occupant of the current slot to its other slot, again and again, until a
        vacant slot is found or `maxKick` displacements have been made. */
    method KickChain(start: nat, item: Item) returns (ok: bool)
      requires Valid() && start < buckets.Length
      modifies buckets
      ensures var r := Cuckoo.KickChain(old(buckets[..]), start, item, maxKick);
              buckets[..] == r.table && ok == r.ok
    {
      var cur, idx: nat, kick := item, start, 0;
      while kick < maxKick
        invariant kick <= maxKick && idx < buckets.Length
        invariant Cuckoo.KickChain(buckets[..], idx, cur, maxKick - kick)
               == Cuckoo.KickChain(old(buckets[..]), start, item, maxKick)
      {
        var occupant := buckets[idx].Stored();
        WriteSlot(idx, cur);
        var alt := Alternate(buckets.Length, occupant.key.hash, idx);
        if buckets[alt].Vacant() {
          WriteSlot(alt, occupant);
          return true;
        }
        cur, idx, kick := occupant, alt, kick + 1;
      }
      return false;
    }
  }
}
