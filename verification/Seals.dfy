/** Facts that a predicate states only for where a proof wants them: the predicate quantifies over
  a token of the kind below, and a proof opens it by naming one. */
module Seals {
  datatype Seal = OfIndex | OfLinks | OfNodes | OfScan | OfHeap

  predicate Wanted(seal: Seal, t: nat) {
    true
  }
}
