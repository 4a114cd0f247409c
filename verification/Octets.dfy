/** Octets as bit vectors, for the code that looks at single bits. */
module Octets {

  type Octets = seq<bv8>

  /** Bit `k` of an octet, counted from the most significant one. */
  predicate Bit(x: bv8, k: nat)
    requires k < 8
  {
    x & (1 << (7 - k)) != 0
  }

  /** The bits as masks. */
  lemma EightBits(x: bv8)
    ensures x == (x & 0x80) | (x & 0x40) | (x & 0x20) | (x & 0x10) | (x & 8) | (x & 4) | (x & 2) | (x & 1)
    ensures Bit(x, 0) == (x & 0x80 == 0x80) && Bit(x, 1) == (x & 0x40 == 0x40) && Bit(x, 2) == (x & 0x20 == 0x20)
    ensures Bit(x, 3) == (x & 0x10 == 0x10) && Bit(x, 4) == (x & 8 == 8) && Bit(x, 5) == (x & 4 == 4)
    ensures Bit(x, 6) == (x & 2 == 2) && Bit(x, 7) == (x & 1 == 1)
  {}
}
