/** Bytes, and little-endian numbers made of them. */
module Bytes {
  type Byte = b: nat | b < 256

  function ReadU16(m: seq<Byte>, o: nat): (v: nat)
    requires o + 1 < |m|
    ensures v <= 0xFFFF
  {
    var low: nat, high: nat := m[o], m[o + 1];
    low + 256 * high
  }

  function WriteU16(m: seq<Byte>, o: nat, v: nat): (r: seq<Byte>)
    requires o + 1 < |m| && v <= 0xFFFF
    ensures |r| == |m|
    ensures ReadU16(r, o) == v
    ensures forall k :: 0 <= k < |m| && k != o && k != o + 1 ==> r[k] == m[k]
  {
    m[o := v % 256][o + 1 := v / 256]
  }

  /** Writing what was read changes nothing. */
  lemma RewriteU16(m: seq<Byte>, o: nat)
    requires o + 1 < |m|
    ensures WriteU16(m, o, ReadU16(m, o)) == m
  {
    var low: nat, high: nat := m[o], m[o + 1];
    assert (low + 256 * high) % 256 == low && (low + 256 * high) / 256 == high;
  }

  function ReadU32(m: seq<Byte>, o: nat): (v: nat)
    requires o + 3 < |m|
    ensures v <= 0xFFFF_FFFF
  {
    ReadU16(m, o) + 0x1_0000 * ReadU16(m, o + 2)
  }
}
