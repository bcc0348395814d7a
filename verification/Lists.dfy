/** Lists without repetition, and the set of a list's elements. */
module Lists {
  ghost predicate Distinct<X>(xs: seq<X>) {
    forall i, j :: 0 <= i < j < |xs| ==> xs[i] != xs[j]
  }

  function Elements(xs: seq<string>): set<string> {
    set x | x in xs
  }
}
