/**
 * Arithmetic: the one fact about products of naturals that the index
 * calculations of the model need and the solver does not find unaided.
 */
module Arithmetic {

  /** Multiplying by the same natural keeps the order of two naturals. */
  lemma MulMonotone(a: nat, b: nat, c: nat)
    requires a <= b
    ensures a * c <= b * c
  {
  }
}
