/** The client's read path (src/client/read.rs): probe the two candidate buckets of a key and
    follow an extent reference into the large object region. */
module ClientReader {
  import opened Wrappers
  import opened Bits
  import opened Bytes
  import opened LockWord
  import opened Layout
  import opened Cuckoo
  import E = Extent

  datatype ReadResult = ReadResult(value: seq<Byte>, mode: Mode)

  datatype Error = InvalidKey | BadBucketCount | IndexOutOfBounds

  datatype Result = Ok(found: Option<ReadResult>) | Err(error: Error)

  /** `region` is the buffer of the large object region, if there is one. */
  function Get(k: Key, t: Table, region: Option<seq<Byte>>, bucketCount: nat): Result {
    if k.hash == 0 then Err(Error.InvalidKey)
    else if !IsPowerOfTwo(bucketCount) then Err(BadBucketCount)
    else
      var h1, h2 := k.hash % bucketCount, Or(k.hash / TWO32 % bucketCount, 1);
      if h1 >= |t| || h2 >= |t| then Err(IndexOutOfBounds)
      else
        var r1 := TryReadBucket(k, t, region, h1);
        Ok(if r1.Some? then r1 else TryReadBucket(k, t, region, h2))
  }

  function TryReadBucket(k: Key, t: Table, region: Option<seq<Byte>>, i: nat): Option<ReadResult>
    requires i < |t|
  {
    var b := t[i];
    if b.word.locked || b.word.tombstone || !b.Matches(k) then None
    else Resolve(b.Stored().entry, region)
  }

  /** The bytes an entry stands for. */
  function Resolve(e: Entry, region: Option<seq<Byte>>): Option<ReadResult> {
    if e.mode == Inline then Some(ReadResult(e.body, Inline))
    else
      match region
      case None => None
      case Some(buffer) =>
        match E.Read(buffer, FromLe(e.body[0..8]))
        case None => None
        case Some(data) => Some(ReadResult(data, Extent))
  }

  /** `get` on a table of its own size fails exactly for the reserved hash; otherwise it finds a key
      exactly if the key is in the map, the bucket that holds it is not locked, and the entry can be
      resolved.  In particular it hands out nothing of a write in progress. */
  lemma GetWhileLocked(k: Key, t: Table, region: Option<seq<Byte>>)
    requires Tidy(t)
    ensures Readable(t, k) ==> k in Contents(t)
    ensures Get(k, t, region, |t|)
         == if k.hash == 0 then Err(Error.InvalidKey)
            else Ok(if Readable(t, k) then Resolve(Contents(t)[k], region) else None)
  {
    InContents(t, k);
    if k.hash != 0 {
      var h1, h2 := H1(|t|, k.hash), H2(|t|, k.hash);
      SlotRead(k, t, region, h1);
      SlotRead(k, t, region, h2);
      OneSlot(k, t, h1, h2);
      if Readable(t, k) {
        var i :| Holds(t, i, k) && !t[i].word.locked;
        assert AtHome(|t|, t[i].hash, i);
      }
    }
  }

  /** On a table without locks `get` reads the map. */
  lemma GetReadsMap(k: Key, t: Table, region: Option<seq<Byte>>)
    requires Tidy(t) && Unlocked(t)
    ensures Get(k, t, region, |t|)
         == if k.hash == 0 then Err(Error.InvalidKey)
            else Ok(if k in Contents(t) then Resolve(Contents(t)[k], region) else None)
  {
    InContents(t, k);
    GetWhileLocked(k, t, region);
  }

  /** A probe resolves what an unlocked live slot holds for the key, and nothing else. */
  lemma SlotRead(k: Key, t: Table, region: Option<seq<Byte>>, i: nat)
    requires i < |t| && k.hash != 0
    ensures TryReadBucket(k, t, region, i)
         == if Holds(t, i, k) && !t[i].word.locked then Resolve(t[i].Stored().entry, region) else None
  {
  }

  /** On any array, whatever its size and order: what a get returns was resolved from a bucket that
      carries the key and is neither locked nor a tombstone. */
  lemma GetSkipsLocked(k: Key, t: Table, region: Option<seq<Byte>>, n: nat)
    ensures var r := Get(k, t, region, n);
            r.Ok? && r.found.Some? ==>
              exists i :: 0 <= i < |t| && t[i].Matches(k) && !t[i].word.locked && !t[i].word.tombstone
                       && Resolve(t[i].Stored().entry, region) == r.found
  {
  }

  /** What an entry resolves to: inline bytes as they are; for an extent what the region holds at the
      offset in the first eight bytes, and nothing without a region. */
  lemma ResolveMeaning(e: Entry, region: Option<seq<Byte>>)
    ensures e.mode == Inline ==> Resolve(e, region) == Some(ReadResult(e.body, Inline))
    ensures forall off: U64, len: U64 :: e.mode == Extent && e.body == ExtentBody(off, len) ==>
              match region
              case None => Resolve(e, region) == None
              case Some(b) =>
                match E.Read(b, off)
                case None => Resolve(e, region) == None
                case Some(data) => Resolve(e, region) == Some(ReadResult(data, Extent))
  {
    forall off: U64, len: U64 | e.mode == Extent && e.body == ExtentBody(off, len)
      ensures FromLe(e.body[0..8]) == off
    {
      ExtentRefRoundTrip(Bucket(Fresh(Extent), 0, Zeros(16), e.body), off, len);
    }
  }

  lemma OneSlot(k: Key, t: Table, i: nat, j: nat)
    requires Unique(t)
    ensures Holds(t, i, k) && Holds(t, j, k) ==> i == j
  {
    if Holds(t, i, k) && Holds(t, j, k) {
      assert t[i].Stored().key == t[j].Stored().key;
    }
  }

  /** A bucket count of one sends the second probe out of a one-bucket table. */
  lemma OneBucketOutOfBounds(k: Key, t: Table, region: Option<seq<Byte>>)
    requires k.hash != 0 && |t| == 1
    ensures Get(k, t, region, 1) == Err(IndexOutOfBounds)
  {
    OrOne(0);
  }

  /** A read fails exactly for the reserved hash, for a bucket count that is no power of two, and for
      a slot beyond the end of the slice.  A slice at least as long as the bucket count has all
      slots, except that a single bucket has no second slot. */
  lemma GetFailsIff(k: Key, t: Table, region: Option<seq<Byte>>, n: nat)
    ensures Get(k, t, region, n).Err?
       <==> || k.hash == 0 || !IsPowerOfTwo(n)
            || k.hash % n >= |t| || (if n == 1 then 1 else Odd(k.hash / TWO32 % n)) >= |t|
    ensures n <= |t| ==>
              (Get(k, t, region, n).Err? <==> k.hash == 0 || !IsPowerOfTwo(n) || (n == 1 && |t| == 1))
    ensures Get(k, t, region, n) == Err(Error.InvalidKey) <==> k.hash == 0
    ensures Get(k, t, region, n) == Err(BadBucketCount) <==> k.hash != 0 && !IsPowerOfTwo(n)
  {
    if k.hash != 0 && IsPowerOfTwo(n) {
      OrOne(k.hash / TWO32 % n);
      if n > 1 {
        OddBelow(k.hash / TWO32 % n, n);
      }
    }
  }

  /** The number with its low bit set. */
  function Odd(r: nat): nat { r / 2 * 2 + 1 }
}
