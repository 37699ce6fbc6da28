/** Small facts about sequence concatenation that the proofs use as
    explicit rewriting steps (stating them once keeps the solver from
    rediscovering them by extensionality). */
module Sequences {

  /** Concatenation regroups. */
  lemma {:induction false} AppendAssoc<T>(a: seq<T>, b: seq<T>, c: seq<T>)
    ensures (a + b) + c == a + (b + c)
  {
  }
}
