/** What the verifier is told about concatenation. */
module Sequences {
  lemma Associate<T>(a: seq<T>, b: seq<T>, c: seq<T>)
    ensures a + (b + c) == (a + b) + c && b + [] == b
  {
  }
}
