/** Bytes, fixed-width unsigned numbers and memcpy. */
module Bytes {
  type Byte = n: nat | n < 256
  type U16 = n: nat | n < 0x1_0000
  type U32 = n: nat | n < 0x1_0000_0000

  /** The destination of memcpy(dst, src, |src|): a prefix is overwritten, the rest stays. */
  function Overlay(dst: seq<Byte>, src: seq<Byte>): (r: seq<Byte>)
    requires |src| <= |dst|
    ensures |r| == |dst|
    ensures r[..|src|] == src
    ensures forall i :: |src| <= i < |dst| ==> r[i] == dst[i]
  {
    src + dst[|src|..]
  }
}
