/** What several modules ask of their lists. */
module Sequences {
  predicate NoDup<T(==)>(xs: seq<T>) { forall i, j :: 0 <= i < j < |xs| ==> xs[i] != xs[j] }
}
