/** The bit-level facts, kept apart from everything else so that they stay cheap to prove. */
module Bits {

  /** Eight bits of a 64-bit value, from bit `k` on. */
  function Window(v: bv64, k: bv3): bv8 {
    ((v >> k) & 0xFF) as bv8
  }

  predicate ByteBit(b: bv8, j: bv3) {
    (b >> j) & 1 == 1
  }

  /** Bit `k + j` of the value. */
  predicate HashBit(v: bv64, k: bv3, j: bv3) {
    (v >> (k as bv8 + j as bv8)) & 1 == 1
  }

  /** The windows at 0 and 7 together cover the low fifteen bits. */
  lemma OuterWindowsDecide(v: bv64, w: bv64)
    requires Window(v, 0) == Window(w, 0) && Window(v, 7) == Window(w, 7)
    ensures v % 0x8000 == w % 0x8000
  {
  }

  /** Every window lies inside the low fifteen bits. */
  lemma LowBitsDecide(v: bv64, w: bv64, k: bv3)
    requires v % 0x8000 == w % 0x8000
    ensures Window(v, k) == Window(w, k)
  {
  }

  lemma AllWindowsDecided(v: bv64, w: bv64)
    requires v % 0x8000 == w % 0x8000
    ensures forall k: bv3 :: Window(v, k) == Window(w, k)
  {
    forall k: bv3
      ensures Window(v, k) == Window(w, k)
    {
      LowBitsDecide(v, w, k);
    }
  }

  lemma WindowsShareBit(v: bv64)
    ensures Window(v, 7) & 1 == Window(v, 0) >> 7
  {
  }
}
