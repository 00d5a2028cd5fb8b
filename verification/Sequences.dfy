/** Sequences without repeats. */
module Sequences {

  ghost predicate Distinct<T>(s: seq<T>) {
    forall i, j :: 0 <= i < j < |s| ==> s[i] != s[j]
  }

  /** A sequence without repeats is no longer than any set that holds its elements. */
  lemma {:induction false} DistinctWithin<T>(s: seq<T>, u: set<T>)
    requires Distinct(s) && forall x :: x in s ==> x in u
    ensures |s| <= |u|
  {
    if s != [] {
      var n := |s| - 1;
      assert s[n] in s;
      forall x | x in s[..n]
        ensures x in u - {s[n]}
      {
        assert x in s;
      }
      DistinctWithin(s[..n], u - {s[n]});
    }
  }
}
