/** The byte that holds a small count, built up one increment at a time so that the
    verifier reasons about it without converting integers to bit-vectors. */
module Octets {

  /** The byte whose unsigned value is `n`: what a cast `n as u8` yields for `n < 256`. */
  function ByteOf(n: nat): (b: bv8)
    requires n < 256
    ensures b as nat == n
  {
    if n == 0 then 0 else ByteOf(n - 1) + 1
  }

  /** A byte read as a count and written back is the same byte. */
  lemma ByteOfValue(b: bv8)
    ensures ByteOf(b as nat) == b
  {
  }
}
