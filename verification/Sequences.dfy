/** What the models of lists share. */
module Sequences {
  /** No element occurs twice. */
  ghost predicate Distinct(list: seq<int>) {
    forall i, j :: 0 <= i < j < |list| ==> list[i] != list[j]
  }
}
