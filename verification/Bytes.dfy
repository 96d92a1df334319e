/** Bytes and big-endian 16-bit numbers. */
module Bytes {
  type byte = b: nat | b < 256

  function U16(high: byte, low: byte): (v: nat)
    ensures v < 0x1_0000
  {
    (high as int) * 256 + low as int
  }

  function U16Bytes(v: nat): (s: seq<byte>)
    requires v < 0x1_0000
    ensures |s| == 2
  {
    [v / 256, v % 256]
  }

  lemma U16RoundTrip(high: byte, low: byte)
    ensures U16Bytes(U16(high, low)) == [high, low]
  {
  }

  /** A field behind its length. */
  function Framed16(field: seq<byte>): (r: seq<byte>)
    requires |field| < 0x1_0000
    ensures |r| == 2 + |field|
  {
    U16Bytes(|field|) + field
  }
}
