/** Keys and buckets (src/engine/layout.rs). */
module Layout {
  import opened Wrappers
  import opened Bits
  import opened Bytes
  import opened LockWord

  type Digest = d: seq<Byte> | |d| == 16 witness Zeros(16)
  type Body = b: seq<Byte> | |b| == 32 witness Zeros(32)

  datatype Key = Key(hash: U64, digest: Digest)

  /** What a live bucket stores under its key. */
  datatype Entry = Entry(body: Body, mode: Mode)

  datatype Item = Item(key: Key, entry: Entry)

  datatype Bucket = Bucket(word: Word, hash: U64, digest: Digest, body: Body) {
    predicate IsEmpty() { hash == 0 && !word.tombstone }

    predicate Matches(k: Key) { hash == k.hash && digest == k.digest }

    /** Empty or tombstone: an insertion may write here. */
    predicate Vacant() { IsEmpty() || word.tombstone }

    function Stored(): Item { Item(Key(hash, digest), Entry(body, word.mode)) }

    function ExtentRef(): (nat, nat) { (FromLe(body[0..8]), FromLe(body[8..16])) }

    function MarkTombstone(): Bucket { this.(word := Bury(word)) }
  }

  const EMPTY_BUCKET: Bucket := Bucket(Fresh(Inline), 0, Zeros(16), Zeros(32))

  /** A freshly written bucket. */
  function Filled(item: Item): Bucket {
    Bucket(Fresh(item.entry.mode), item.key.hash, item.key.digest, item.entry.body)
  }

  /** A value cut or zero-padded to 32 bytes; an extent reference uses only 16 of them. */
  function PackBody(value: seq<Byte>, mode: Mode): Body {
    var n := Min(|value|, if mode == Inline then 32 else 16);
    value[..n] + Zeros(32 - n)
  }

  /** Byte by byte: the value as far as it fits, zeros after it. */
  lemma PackBodyBytes(value: seq<Byte>, mode: Mode, i: nat)
    requires i < 32
    ensures PackBody(value, mode)[i] == if i < |value| && (mode == Inline || i < 16) then value[i] else 0
  {
  }

  function ExtentBody(offset: U64, length: U64): Body {
    Le(offset, 8) + Le(length, 8) + Zeros(16)
  }

  /** An extent reference survives being stored in a bucket. */
  lemma ExtentRefRoundTrip(b: Bucket, offset: U64, length: U64)
    requires b.body == ExtentBody(offset, length)
    ensures b.ExtentRef() == (offset, length)
  {
    assert b.body[0..8] == Le(offset, 8) && b.body[8..16] == Le(length, 8);
    FromLe8(offset);
    FromLe8(length);
  }
}
