/** Bytes, and the little-endian fields of buffers. */
module Bytes {
  type byte = n: int | 0 <= n < 256

  type Bytes = seq<byte>

  datatype Option<+T> = None | Some(value: T)

  /** The two bytes that `writeUInt16LE` writes for a value in range. */
  function U16(value: nat): (bytes: Bytes)
    ensures |bytes| == 2
  {
    [value % 256, value / 256 % 256]
  }

  /** The four bytes that `writeUInt32LE` writes for a value in range. */
  function U32(value: nat): (bytes: Bytes)
    ensures |bytes| == 4
  {
    U16(value % 0x1_0000) + U16(value / 0x1_0000)
  }

  function ReadU16(buffer: Bytes, at: nat): (value: nat)
    requires at + 2 <= |buffer|
  {
    var low: int, high: int := buffer[at], buffer[at + 1];
    low + 256 * high
  }

  function ReadU32(buffer: Bytes, at: nat): (value: nat)
    requires at + 4 <= |buffer|
  {
    ReadU16(buffer, at) + 0x1_0000 * ReadU16(buffer, at + 2)
  }

  /** A part of a longer whole, where it stands. */
  ghost predicate PartAt(whole: Bytes, at: nat, part: Bytes) {
    at + |part| <= |whole| && forall k | 0 <= k < |part| :: whole[at + k] == part[k]
  }

  lemma U16ReadsBack(buffer: Bytes, at: nat, value: nat)
    requires value < 0x1_0000 && PartAt(buffer, at, U16(value))
    ensures ReadU16(buffer, at) == value
  {
    assert buffer[at + 0] == U16(value)[0] && buffer[at + 1] == U16(value)[1];
  }

  lemma U32ReadsBack(buffer: Bytes, at: nat, value: nat)
    requires value < 0x1_0000_0000 && PartAt(buffer, at, U32(value))
    ensures ReadU32(buffer, at) == value
  {
    var low, high := U16(value % 0x1_0000), U16(value / 0x1_0000);
    assert U32(value)[0] == low[0] && U32(value)[1] == low[1];
    assert buffer[at + 0] == low[0] && buffer[at + 1] == low[1];
    assert U32(value)[2] == high[0] && U32(value)[3] == high[1];
    assert buffer[at + 2] == high[0] && buffer[at + 3] == high[1];
    assert PartAt(buffer, at, low);
    assert PartAt(buffer, at + 2, high);
    U16ReadsBack(buffer, at, value % 0x1_0000);
    U16ReadsBack(buffer, at + 2, value / 0x1_0000);
  }

  lemma PartOfPart(whole: Bytes, at: nat, part: Bytes, from: nat, inner: Bytes)
    requires PartAt(whole, at, part) && PartAt(part, from, inner)
    ensures PartAt(whole, at + from, inner)
  {
    forall k | 0 <= k < |inner|
      ensures whole[at + from + k] == inner[k]
    {
      assert whole[at + (from + k)] == part[from + k];
    }
  }

  lemma PartIsSlice(whole: Bytes, at: nat, part: Bytes)
    requires PartAt(whole, at, part)
    ensures whole[at..at + |part|] == part
  {
  }
}
