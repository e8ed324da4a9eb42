/** Facts about sequences that the decoder proofs use. */
module Sequences {

  /** Concatenation can be regrouped; proofs that peel a sequence unit by unit
      call this to move a unit from one part to the next. */
  lemma Associative<T>(a: seq<T>, b: seq<T>, c: seq<T>)
    ensures a + (b + c) == (a + b) + c
  {
  }
}
