/** The extent format (src/engine/layout.rs, src/engine/extent.rs): a 32-byte V2 header with
    magic, version, data length, epoch mark and checksum, followed by the data. */
module Extent {
  import opened Wrappers
  import opened Bits
  import opened Bytes

  const EXTENT_MAGIC: U32 := 0x5244_4D41
  const HEADER_SIZE: nat := 32

  /** The next multiple of 8. */
  function AlignUp(v: nat): (a: nat)
    ensures a % 8 == 0 && v <= a < v + 8
  {
    (v + 7) / 8 * 8
  }

  /** The engine computes it with a mask. */
  lemma AlignUpIsMask(v: nat)
    requires v + 7 < TWO64
    ensures And(v + 7, TWO64 - 8) == AlignUp(v)
  {
    var x := v + 7;
    var m: nat := 0x1FFF_FFFF_FFFF_FFFF;
    AndDouble(x, 4 * m);
    AndDouble(x / 2, 2 * m);
    AndDouble(x / 2 / 2, m);
    assert x / 2 / 2 / 2 == x / 8;
    Powers();
    AndFull(x / 8, 61);
  }

  lemma {:induction false} AndFull(y: nat, k: nat)
    requires y < Pow2(k)
    ensures And(y, Pow2(k) - 1) == y
    decreases k
  {
    if k == 0 {
    } else {
      AndFull(y / 2, k - 1);
      AndOddMask(y, Pow2(k - 1) - 1);
    }
  }

  lemma AlignedSum(a: nat, b: nat)
    requires a % 8 == 0 && b % 8 == 0
    ensures (a + b) % 8 == 0
  {
  }

  /** Header plus data, rounded up to a multiple of 8. */
  function ExtentTotal(dataLen: nat): (t: nat)
    ensures t % 8 == 0 && HEADER_SIZE + dataLen <= t < HEADER_SIZE + dataLen + 8
  {
    AlignUp(HEADER_SIZE + dataLen)
  }

  /** The header as bytes; the length field keeps the low 32 bits. */
  function HeaderBytes(dataLen: nat, mark: U64, checksum: U64): (h: seq<Byte>)
    ensures |h| == 32
  {
    Le(EXTENT_MAGIC, 4) + [1, 0, 0, 0] + Le(dataLen, 4) + [0, 0, 0, 0] + Le(mark, 8) + Le(checksum, 8)
  }

  lemma HeaderFields(dataLen: nat, mark: U64, checksum: U64)
    ensures var h := HeaderBytes(dataLen, mark, checksum);
            && h[0..4] == Le(EXTENT_MAGIC, 4) && h[4] == 1 && h[8..12] == Le(dataLen, 4)
            && h[16..24] == Le(mark, 8) && h[16..20] == Le(mark, 8)[..4] && h[24..32] == Le(checksum, 8)
            && h[0..4] == [0x41, 0x4D, 0x44, 0x52] && h[5..8] == Zeros(3) && h[12..16] == Zeros(4)
  {
    var h := HeaderBytes(dataLen, mark, checksum);
    MagicBytes();
    assert h[16..24] == Le(mark, 8);
    assert h[16..20] == h[16..24][..4];
  }

  lemma MagicBytes()
    ensures Le(EXTENT_MAGIC, 4) == [0x41, 0x4D, 0x44, 0x52]
  {
    assert Le(0x52, 1) == [0x52];
    assert Le(0x5244, 2) == [0x44, 0x52];
    assert Le(0x52_444D, 3) == [0x4D, 0x44, 0x52];
  }

  datatype Decoded = Decoded(magic: nat, dataLen: nat, epochMark: nat, isV2: bool)

  /** `read_decoded_header`: looks for a V1 header first, by its magic at byte 16 - the place
      where a V2 header keeps the low half of its epoch mark. */
  function Decode(b: seq<Byte>, off: nat): Option<Decoded> {
    if off + 24 <= |b| && FromLe(b[off + 16..off + 20]) == EXTENT_MAGIC then
      Some(Decoded(EXTENT_MAGIC, FromLe(b[off..off + 8]), FromLe(b[off + 8..off + 16]), false))
    else if off + 5 <= |b| then
      var magic := FromLe(b[off..off + 4]);
      if magic != EXTENT_MAGIC then Some(Decoded(magic, 0, 0, false))
      else if b[off + 4] == 0 then
        if off + 24 > |b| then None
        else Some(Decoded(magic, FromLe(b[off..off + 8]), FromLe(b[off + 8..off + 16]), false))
      else if b[off + 4] == 1 then
        if off + 32 > |b| then None
        else Some(Decoded(magic, FromLe(b[off + 8..off + 12]), FromLe(b[off + 16..off + 24]), true))
      else None
    else None
  }

  function Read(b: seq<Byte>, off: nat): Option<seq<Byte>> {
    match Decode(b, off)
    case None => None
    case Some(d) =>
      if d.magic != EXTENT_MAGIC then None
      else
        var start := off + (if d.isV2 then 32 else 24);
        if start + d.dataLen > |b| then None else Some(b[start..start + d.dataLen])
  }

  /** Whatever the buffer and the offset: what is read lies inside the buffer, right behind a header of
      24 or 32 bytes that shows the magic. */
  lemma ReadInBounds(b: seq<Byte>, off: nat)
    ensures var r := Read(b, off);
            r.Some? ==>
              && off + 24 + |r.value| <= |b|
              && (|| FromLe(b[off + 16..off + 20]) == EXTENT_MAGIC || FromLe(b[off..off + 4]) == EXTENT_MAGIC)
              && (|| r.value == b[off + 24..off + 24 + |r.value|]
                  || (off + 32 + |r.value| <= |b| && r.value == b[off + 32..off + 32 + |r.value|]))
  {
  }

  /** A V1 extent - length, mark, magic and padding, then the data - reads back its data, and its
      header decodes to its fields. */
  lemma ReadV1(b: seq<Byte>, off: nat, data: seq<Byte>, mark: U64)
    requires |data| < TWO64 && off + 24 + |data| <= |b| && HeaderV1(b, off, |data|, mark)
    requires b[off + 24..off + 24 + |data|] == data
    ensures Decode(b, off) == Some(Decoded(EXTENT_MAGIC, |data|, mark, false))
    ensures Read(b, off) == Some(data)
  {
    DecodeV1(b, off, |data|, mark);
    ReadBehind(b, off, Decode(b, off).value);
  }

  predicate HeaderV1(b: seq<Byte>, off: nat, length: U64, mark: U64) {
    && off + 24 <= |b| && b[off..off + 8] == Le(length, 8) && b[off + 8..off + 16] == Le(mark, 8)
    && b[off + 16..off + 20] == Le(EXTENT_MAGIC, 4)
  }

  lemma ReadBehind(b: seq<Byte>, off: nat, d: Decoded)
    requires Decode(b, off) == Some(d) && d.magic == EXTENT_MAGIC && !d.isV2 && off + 24 + d.dataLen <= |b|
    ensures Read(b, off) == Some(b[off + 24..off + 24 + d.dataLen])
  {
  }

  lemma DecodeV1(b: seq<Byte>, off: nat, length: U64, mark: U64)
    requires HeaderV1(b, off, length, mark)
    ensures Decode(b, off) == Some(Decoded(EXTENT_MAGIC, length, mark, false))
  {
    FromLe8(length);
    FromLe8(mark);
    FromLeLe4(EXTENT_MAGIC);
  }

  /** A header with the V2 magic in front and none at the V1 place counts only in version 1: another
      version is refused, and version 0 is taken for V1 with the magic as the low half of a length. */
  lemma OddVersions(b: seq<Byte>, off: nat)
    requires off + 24 <= |b| && b[off..off + 4] == Le(EXTENT_MAGIC, 4)
    requires FromLe(b[off + 16..off + 20]) != EXTENT_MAGIC
    ensures b[off + 4] > 1 ==> Decode(b, off) == None
    ensures b[off + 4] == 0 ==>
              && Decode(b, off).Some? && !Decode(b, off).value.isV2
              && Decode(b, off).value.dataLen == EXTENT_MAGIC + TWO32 * FromLe(b[off + 4..off + 8])
  {
    FromLeLe4(EXTENT_MAGIC);
    Powers256();
    assert b[off..off + 8] == b[off..off + 4] + b[off + 4..off + 8];
    FromLeAppend(b[off..off + 4], b[off + 4..off + 8]);
  }

  /** Bytes of the header seen through the buffer. */
  lemma HeaderInBuffer(b: seq<Byte>, off: nat, h: seq<Byte>, lo: nat, hi: nat)
    requires off + 32 <= |b| && |h| == 32 && b[off..off + 32] == h && lo <= hi <= 32
    ensures b[off + lo..off + hi] == h[lo..hi]
  {
    forall i | lo <= i < hi ensures b[off + i] == h[i] {
      assert b[off..off + 32][i] == h[i];
    }
    assert b[off + lo..off + hi] == h[lo..hi];
  }

  /** A V2 header decodes to its own fields, provided its mark does not look like a V1 magic. */
  lemma DecodeHeader(b: seq<Byte>, off: nat, dataLen: nat, mark: U64, checksum: U64)
    requires off + 32 <= |b| && b[off..off + 32] == HeaderBytes(dataLen, mark, checksum)
    requires mark % TWO32 != EXTENT_MAGIC
    ensures Decode(b, off) == Some(Decoded(EXTENT_MAGIC, dataLen % TWO32, mark, true))
  {
    FieldsInBuffer(b, off, dataLen, mark, checksum);
    MarkFields(b, off, mark);
    FromLeLe4(EXTENT_MAGIC);
    FromLeLe4(dataLen);
  }

  lemma FieldsInBuffer(b: seq<Byte>, off: nat, dataLen: nat, mark: U64, checksum: U64)
    requires off + 32 <= |b| && b[off..off + 32] == HeaderBytes(dataLen, mark, checksum)
    ensures b[off..off + 4] == Le(EXTENT_MAGIC, 4) && b[off + 4] == 1 && b[off + 8..off + 12] == Le(dataLen, 4)
    ensures b[off + 16..off + 24] == Le(mark, 8)
  {
    var h := HeaderBytes(dataLen, mark, checksum);
    HeaderFields(dataLen, mark, checksum);
    HeaderInBuffer(b, off, h, 0, 4);
    HeaderInBuffer(b, off, h, 8, 12);
    HeaderInBuffer(b, off, h, 16, 24);
    assert b[off + 4] == b[off..off + 32][4];
  }

  /** The mark, and the part of it that lies where V1 keeps its magic. */
  lemma MarkFields(b: seq<Byte>, off: nat, mark: U64)
    requires off + 24 <= |b| && b[off + 16..off + 24] == Le(mark, 8)
    ensures FromLe(b[off + 16..off + 20]) == mark % TWO32 && FromLe(b[off + 16..off + 24]) == mark
  {
    assert b[off + 16..off + 20] == b[off + 16..off + 24][..4];
    FromLeLowHalf(mark);
    FromLe8(mark);
  }

  /** A complete extent in the buffer. */
  predicate IsExtent(b: seq<Byte>, off: nat, data: seq<Byte>, mark: U64) {
    && off + 32 + |data| <= |b|
    && b[off..off + 32] == HeaderBytes(|data|, mark, 0)
    && b[off + 32..off + 32 + |data|] == data
  }

  /** The length that a V2 header is given when it is mistaken for V1. */
  const V1_LENGTH: nat := TWO32 + EXTENT_MAGIC

  /** Reading an extent gives its data exactly if the data length fits the 32-bit field and the
      mark does not look like a V1 magic - or, by accident, if it does and the data are just as
      many zeros as the mistaken length says. */
  lemma ReadExtentIff(b: seq<Byte>, off: nat, data: seq<Byte>, mark: U64)
    requires IsExtent(b, off, data, mark)
    ensures Read(b, off) == Some(data)
       <==> if mark % TWO32 != EXTENT_MAGIC then |data| < TWO32 else data == Zeros(V1_LENGTH)
  {
    if mark % TWO32 != EXTENT_MAGIC {
      ReadAsV2(b, off, data, mark);
    } else {
      ReadAsV1(b, off, data, mark);
    }
  }

  lemma ReadAsV2(b: seq<Byte>, off: nat, data: seq<Byte>, mark: U64)
    requires IsExtent(b, off, data, mark) && mark % TWO32 != EXTENT_MAGIC
    ensures Read(b, off) == Some(data) <==> |data| < TWO32
  {
    DecodeHeader(b, off, |data|, mark, 0);
    assert |data| % TWO32 == |data| <==> |data| < TWO32;
  }

  lemma ReadAsV1(b: seq<Byte>, off: nat, data: seq<Byte>, mark: U64)
    requires IsExtent(b, off, data, mark) && mark % TWO32 == EXTENT_MAGIC
    ensures Read(b, off) == Some(data) <==> data == Zeros(V1_LENGTH)
  {
    MistakenForV1(b, off, |data|, mark);
    if |data| == V1_LENGTH {
      ShiftedRead(b, off, data, mark);
    }
  }

  /** Read from byte 24 on, the extent shows its eight checksum bytes and then its data; that is
      the data itself only if all of it is zero. */
  lemma ShiftedRead(b: seq<Byte>, off: nat, data: seq<Byte>, mark: U64)
    requires IsExtent(b, off, data, mark) && |data| >= 8
    ensures b[off + 24..off + 24 + |data|] == data <==> data == Zeros(|data|)
  {
    var shown := b[off + 24..off + 24 + |data|];
    ChecksumZero(b, off, data, mark);
    TwoParts(b, off + 24, off + 32, data);
    assert shown == Zeros(8) + data[..|data| - 8];
    if data == Zeros(|data|) {
      assert shown == Zeros(|data|);
    } else if shown == data {
      AllZero(data, |data|);
    }
  }

  lemma TwoParts(b: seq<Byte>, lo: nat, mid: nat, data: seq<Byte>)
    requires lo <= mid <= lo + |data| && mid + |data| <= |b| && b[mid..mid + |data|] == data
    ensures b[lo..lo + |data|] == b[lo..mid] + data[..|data| - (mid - lo)]
  {
    assert b[mid..lo + |data|] == b[mid..mid + |data|][..|data| - (mid - lo)];
  }

  lemma ChecksumZero(b: seq<Byte>, off: nat, data: seq<Byte>, mark: U64)
    requires IsExtent(b, off, data, mark)
    ensures b[off + 24..off + 32] == Zeros(8)
  {
    HeaderFields(|data|, mark, 0);
    HeaderInBuffer(b, off, HeaderBytes(|data|, mark, 0), 24, 32);
    LeZero(8);
  }

  /** A string that starts with zeros and repeats itself is zero. */
  lemma {:induction false} AllZero(data: seq<Byte>, n: nat)
    requires 8 <= |data| && n <= |data| && data == Zeros(8) + data[..|data| - 8]
    ensures forall i :: 0 <= i < n ==> data[i] == 0
  {
    if n == 0 {
    } else {
      AllZero(data, n - 1);
      assert data[n - 1] == (Zeros(8) + data[..|data| - 8])[n - 1];
    }
  }

  /** A mark that looks like a V1 magic makes the header a V1 header, with a length that no
      32-bit field can hold: the magic followed by the version byte. */
  lemma MistakenForV1(b: seq<Byte>, off: nat, dataLen: nat, mark: U64)
    requires off + 32 <= |b| && b[off..off + 32] == HeaderBytes(dataLen, mark, 0)
    requires mark % TWO32 == EXTENT_MAGIC
    ensures var d := Decode(b, off);
            d.Some? && d.value.magic == EXTENT_MAGIC && !d.value.isV2 && d.value.dataLen == V1_LENGTH
  {
    FieldsInBuffer(b, off, dataLen, mark, 0);
    MarkFields(b, off, mark);
    HeaderInBuffer(b, off, HeaderBytes(dataLen, mark, 0), 0, 8);
    FirstEight(dataLen, mark);
  }

  lemma FirstEight(dataLen: nat, mark: U64)
    ensures FromLe(HeaderBytes(dataLen, mark, 0)[0..8]) == TWO32 + EXTENT_MAGIC
  {
    assert HeaderBytes(dataLen, mark, 0)[0..8] == Le(EXTENT_MAGIC, 4) + [1, 0, 0, 0];
    FromLeAppend(Le(EXTENT_MAGIC, 4), [1, 0, 0, 0]);
    FromLeLe4(EXTENT_MAGIC);
    Powers256();
    assert FromLe([1, 0, 0, 0]) == 1;
  }
}
