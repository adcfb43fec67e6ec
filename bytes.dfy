/** Conversions between numbers and bytes, kept apart from the rest of the model so that
    their proofs see only bit-vector facts. */
module Bytes {
  /** A number below 256 survives the trip through a byte. */
  lemma ByteValue(x: nat)
    requires x < 256
    ensures (x as bv8) as nat == x
  {
  }
}
