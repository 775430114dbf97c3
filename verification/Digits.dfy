/** The bits of an eight-bit vector as digits of the number it stands for. */
module Digits {
  import opened Arith

  lemma ShiftOnce(b: bv8, k: nat)
    requires 0 < k < 8
    ensures b >> k == (b >> (k - 1)) >> 1
  {
  }

  lemma HalfOf(b: bv8)
    ensures (b >> 1) as int == b as int / 2
  {
  }

  /** A right shift divides by a power of two. */
  lemma {:induction false} ShiftDivides(b: bv8, k: nat)
    requires k < 8
    ensures (b >> k) as int == b as int / Pow2(k)
  {
    if k > 0 {
      ShiftDivides(b, k - 1);
      ShiftOnce(b, k);
      HalfOf(b >> (k - 1));
      DivTwice(b as int, Pow2(k - 1));
    }
  }

  lemma LowBit(b: bv8)
    ensures (b & 1) as int == b as int % 2
  {
  }

  lemma LowTwoBits(b: bv8)
    ensures (b & 3) as int == b as int % 4
  {
  }

  lemma LowFourBits(b: bv8)
    ensures (b & 15) as int == b as int % 16
  {
  }
}
