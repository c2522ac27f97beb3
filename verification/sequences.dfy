/** Facts about plain sequences shared by the modules below. */
module Sequences {

  /** A list with no element twice, as a DOM query returns and as the
      host's handles are. */
  predicate Distinct<T(==)>(xs: seq<T>) {
    forall i, j :: 0 <= i < j < |xs| ==> xs[i] != xs[j]
  }
}
