/** Byte-level vocabulary shared by the three b3dm readers: little-endian u32 fields
    (struct.unpack_from('<I', data, off)), Python slicing of a bytes object, and
    bytes.decode('ascii', errors='ignore'). */
module Bytes {

  /** One element of a Python `bytes` object. */
  type Byte = x: int | 0 <= x < 256

  const U32Limit: int := 0x1_0000_0000

  function Min(a: int, b: int): int { if a <= b then a else b }

  /** The unsigned 32-bit little-endian integer stored at data[off..off + 4]. */
  function U32At(data: seq<Byte>, off: nat): (v: nat)
    requires off + 4 <= |data|
    ensures v < U32Limit
    ensures v == data[off] as int + 256 * data[off + 1] as int + 65536 * data[off + 2] as int
                 + 16777216 * data[off + 3] as int
  {
    data[off] as int + 256 * (data[off + 1] as int + 256 * (data[off + 2] as int + 256 * data[off + 3] as int))
  }

  /** The four little-endian bytes of a u32; the inverse of U32At. */
  function U32Bytes(v: nat): (bs: seq<Byte>)
    requires v < U32Limit
    ensures |bs| == 4
    ensures U32At(bs, 0) == v
  {
    var q1 := v / 256;
    var q2 := q1 / 256;
    var q3 := q2 / 256;
    [v % 256, q1 % 256, q2 % 256, q3]
  }

  /** Reading four bytes and writing the value back gives the same four bytes. */
  lemma U32BytesOfU32At(data: seq<Byte>, off: nat)
    requires off + 4 <= |data|
    ensures U32Bytes(U32At(data, off)) == data[off..off + 4]
  {
    var b0, b1, b2, b3 := data[off] as int, data[off + 1] as int, data[off + 2] as int, data[off + 3] as int;
    var v := U32At(data, off);
    assert v == b0 + 256 * (b1 + 256 * (b2 + 256 * b3));
    var q1 := v / 256;
    assert v % 256 == b0 && q1 == b1 + 256 * (b2 + 256 * b3);
    var q2 := q1 / 256;
    assert q1 % 256 == b1 && q2 == b2 + 256 * b3;
    assert q2 % 256 == b2 && q2 / 256 == b3;
  }

  /** Python's data[lo:hi] for non-negative bounds: both bounds are clamped to
      len(data), and the slice is empty unless its start lies before its end. */
  function PySlice<T>(data: seq<T>, lo: nat, hi: nat): (r: seq<T>)
    ensures |r| == if lo < hi && lo < |data| then Min(hi, |data|) - lo else 0
    ensures forall i :: 0 <= i < |r| ==> r[i] == data[lo + i]
  {
    if lo < hi && lo < |data| then data[lo..Min(hi, |data|)] else []
  }

  /** bytes.decode('ascii', errors='ignore'): bytes 0..127 become the character with
      that code, every other byte is dropped. */
  function AsciiDecodeIgnore(bs: seq<Byte>): (s: string)
    ensures |s| <= |bs|
  {
    if bs == [] then []
    else (if bs[0] < 128 then [bs[0] as char] else []) + AsciiDecodeIgnore(bs[1..])
  }

  /** The decoded text keeps its full length exactly when no byte was dropped, and
      then it is the bytes read as characters. */
  lemma {:induction false} AsciiDecodeIgnoreFull(bs: seq<Byte>)
    ensures |AsciiDecodeIgnore(bs)| == |bs| <==> forall i :: 0 <= i < |bs| ==> bs[i] < 128
    ensures |AsciiDecodeIgnore(bs)| == |bs| ==>
      forall i :: 0 <= i < |bs| ==> AsciiDecodeIgnore(bs)[i] == bs[i] as char
  {
    if bs != [] {
      AsciiDecodeIgnoreFull(bs[1..]);
      if bs[0] < 128 {
        assert forall i :: 1 <= i < |bs| ==> bs[i] == bs[1..][i - 1];
      }
    }
  }

  /** Comparing a decoded 4-byte prefix with a 4-letter ASCII word is the same as
      comparing the raw bytes with that word's codes. */
  lemma AsciiDecodeIgnoreMatches(bs: seq<Byte>, word: string)
    requires |bs| == |word|
    requires forall i :: 0 <= i < |word| ==> word[i] as int < 128
    ensures AsciiDecodeIgnore(bs) == word <==> forall i :: 0 <= i < |bs| ==> bs[i] == word[i] as int
  {
    AsciiDecodeIgnoreFull(bs);
    if forall i :: 0 <= i < |bs| ==> bs[i] == word[i] as int {
      assert forall i :: 0 <= i < |bs| ==> bs[i] < 128;
      assert forall i :: 0 <= i < |bs| ==> AsciiDecodeIgnore(bs)[i] == word[i];
    }
  }
}
