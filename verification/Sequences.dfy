/** Sequences without repetitions and the sets of their elements. */
module Sequences {

  ghost function Elements<T>(xs: seq<T>): set<T> {
    set e | e in xs
  }

  lemma {:induction false} DistinctSize<T>(xs: seq<T>)
    requires forall i, j :: 0 <= i < j < |xs| ==> xs[i] != xs[j]
    ensures |Elements(xs)| == |xs|
  {
    if xs != [] {
      var last := |xs| - 1;
      DistinctSize(xs[..last]);
      assert xs == xs[..last] + [xs[last]];
      assert xs[last] !in xs[..last];
      assert Elements(xs) == Elements(xs[..last]) + {xs[last]};
    }
  }
}
