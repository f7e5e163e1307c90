/**
  Facts about 64-bit words that the LEB128 proofs need and that do not depend
  on where in a number a byte sits.
 */
module Bits {

  const AllOnes: bv64 := 0xffff_ffff_ffff_ffff

  /** At bit 63 only the lowest bit of what is shifted in survives. */
  lemma TopBitOnly(c: bv64)
    ensures c << 63 == (c & 1) << 63
  {
  }
}
