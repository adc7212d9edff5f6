/** What several models say about sequences. */
module Sequences {

  /** No number occurs twice. */
  predicate Distinct(q: seq<int>) {
    forall i, j :: 0 <= i < j < |q| ==> q[i] != q[j]
  }
}
