// Bytes, and a message as the bits it is sent as.
module Bytes {
  import opened Bits

  type Byte = x: int | 0 <= x < 256
  type Bit = b: nat | b < 2

  // The k low bits of v, most significant first.
  function BitsOf(v: nat, k: nat): (bits: seq<Bit>)
    ensures |bits| == k
    decreases k
  {
    if k == 0 then [] else BitsOf(v / 2, k - 1) + [v % 2]
  }

  function MessageBits(msg: seq<Byte>): (bits: seq<Bit>)
    ensures |bits| == 8 * |msg|
  {
    if |msg| == 0 then [] else MessageBits(msg[..|msg| - 1]) + BitsOf(msg[|msg| - 1], 8)
  }

  lemma ByteBound(b: Byte)
    ensures b < Pow2(8)
  {
  }
}
