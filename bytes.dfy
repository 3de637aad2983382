/**
 * Bytes of the scanned buffer and the two-byte length fields read from it.
 *
 * zipchecker.c reads each 16-bit field as `ntohs(*(uint16_t *)p)`. Whatever
 * the host's own byte order, that expression yields `p[0] * 256 + p[1]`: the
 * bytes are taken as big-endian. The ZIP format stores the same fields
 * little-endian (APPNOTE.TXT section 4.4.1.1), `p[0] + p[1] * 256`. The
 * reader below is parametrised by the order so that both readings can be
 * stated and compared.
 */
module Bytes {

  /** C's `uint8_t`, the element type of the file buffer. */
  newtype uint8 = x: int | 0 <= x < 0x100

  datatype ByteOrder = BigEndian | LittleEndian

  /** The order `ntohs(*(uint16_t *)p)` reads on every host: `p[0]` is the high byte. */
  const SourceOrder: ByteOrder := BigEndian

  /** The order the ZIP format prescribes (APPNOTE.TXT section 4.4.1.1): `p[0]` is the low byte. */
  const ZipOrder: ByteOrder := LittleEndian

  /** The unsigned 16-bit value stored in `s[at]` and `s[at + 1]`, read in `order`. */
  function ReadU16(s: seq<uint8>, at: nat, order: ByteOrder): (v: nat)
    requires at + 2 <= |s|
    ensures v < 0x1_0000
  {
    match order
    case BigEndian => s[at] as nat * 0x100 + s[at + 1] as nat
    case LittleEndian => s[at] as nat + s[at + 1] as nat * 0x100
  }

  /** The two bytes that store `v` in `order`: the inverse of `ReadU16`. */
  function WriteU16(v: nat, order: ByteOrder): (b: seq<uint8>)
    requires v < 0x1_0000
    ensures |b| == 2
    ensures ReadU16(b, 0, order) == v
  {
    var hi, lo := (v / 0x100) as uint8, (v % 0x100) as uint8;
    match order
    case BigEndian => [hi, lo]
    case LittleEndian => [lo, hi]
  }

  /** Reading two bytes and writing the value back gives the same two bytes. */
  lemma WriteReadU16(s: seq<uint8>, at: nat, order: ByteOrder)
    requires at + 2 <= |s|
    ensures WriteU16(ReadU16(s, at, order), order) == s[at..at + 2]
  {
    var b := WriteU16(ReadU16(s, at, order), order);
    assert b[0] == s[at] && b[1] == s[at + 1];
  }

  /** Two bytes written for `v` read back as `v` wherever they sit in a buffer. */
  lemma ReadWrittenU16(s: seq<uint8>, at: nat, v: nat, order: ByteOrder)
    requires v < 0x1_0000
    requires at + 2 <= |s|
    requires s[at..at + 2] == WriteU16(v, order)
    ensures ReadU16(s, at, order) == v
  {
    assert s[at] == s[at..at + 2][0] && s[at + 1] == s[at..at + 2][1];
  }

  /** The two orders read the same two bytes swapped. */
  lemma OrdersSwapBytes(s: seq<uint8>, at: nat)
    requires at + 2 <= |s|
    ensures ReadU16(s, at, BigEndian) == ReadU16([s[at + 1], s[at]], 0, LittleEndian)
  {
  }

  /** The bytes `00 01` read 1 in the source's order and 256 in the ZIP format's order. */
  lemma SourceOrderDiffersFromZipOrder()
    ensures ReadU16([0x00, 0x01], 0, SourceOrder) == 1
    ensures ReadU16([0x00, 0x01], 0, ZipOrder) == 0x100
  {
  }

  /** A length under 256 stored in the ZIP format's order reads 256 times too large in the source's order. */
  lemma ShortLengthReadsSwapped(s: seq<uint8>, at: nat, v: nat)
    requires at + 2 <= |s|
    requires v < 0x100 && ReadU16(s, at, ZipOrder) == v
    ensures ReadU16(s, at, SourceOrder) == v * 0x100
  {
  }

  // Slices of the buffer.

  /** `s[i..j][a..c]` is `s[i + a..i + c]`. */
  lemma SliceOfSlice(s: seq<uint8>, i: nat, j: nat, a: nat, c: nat)
    requires i <= j <= |s|
    requires a <= c <= j - i
    ensures s[i..j][a..c] == s[i + a..i + c]
  {
    assert forall k | 0 <= k < c - a :: s[i..j][a..c][k] == s[i + a..i + c][k];
  }

  /** The middle part of three concatenated buffers, cut back out. */
  lemma MiddleOfThree(lead: seq<uint8>, middle: seq<uint8>, tail: seq<uint8>)
    ensures (lead + middle + tail)[|lead|..|lead| + |middle|] == middle
  {
    assert forall k | 0 <= k < |middle| :: (lead + middle + tail)[|lead|..|lead| + |middle|][k] == middle[k];
  }

  /** What follows a prefix, cut back out. */
  lemma AfterFront(front: seq<uint8>, tail: seq<uint8>)
    ensures (front + tail)[|front|..] == tail
  {
    assert forall k | 0 <= k < |tail| :: (front + tail)[|front|..][k] == tail[k];
  }

  /** The buffer ends with the first `k` bytes of `b`: a slice of those bytes is the same slice of `b`. */
  lemma SliceOfPrefix(data: seq<uint8>, offset: nat, b: seq<uint8>, k: nat, a: nat, c: nat)
    requires k <= |b| && offset + k == |data| && data[offset..] == b[..k]
    requires a <= c <= k
    ensures data[offset + a..offset + c] == b[a..c]
  {
    forall i | 0 <= i < c - a ensures data[offset + a..offset + c][i] == b[a..c][i] {
      assert data[offset..][a + i] == b[..k][a + i];
    }
  }

  /** A suffix of what follows a prefix, cut back out. */
  lemma SuffixAfterFront(front: seq<uint8>, tail: seq<uint8>, a: nat)
    requires a <= |tail|
    ensures (front + tail)[|front| + a..] == tail[a..]
  {
    assert forall k | 0 <= k < |tail| - a :: (front + tail)[|front| + a..][k] == tail[a..][k];
  }

  /** A slice made of two parts, cut at the boundary between them. */
  lemma SplitSlice(data: seq<uint8>, offset: nat, mid: nat, end: nat, first: seq<uint8>, rest: seq<uint8>)
    requires mid == offset + |first| && end == mid + |rest| <= |data|
    requires data[offset..end] == first + rest
    ensures data[offset..mid] == first && data[mid..end] == rest
  {
    assert forall k | 0 <= k < |first| :: data[offset..mid][k] == data[offset..end][k];
    assert forall k | 0 <= k < |rest| :: data[mid..end][k] == data[offset..end][|first| + k];
  }
}
