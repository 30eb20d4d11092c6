/** Facts about sequences and sets used by several components. */
module Collections {

  ghost predicate Distinct<T>(s: seq<T>) {
    forall i, j :: 0 <= i < j < |s| ==> s[i] != s[j]
  }

  /** The times of a run's steps never go back. */
  ghost predicate ClockMonotone<T>(run: seq<(int, T)>) {
    forall i, j :: 0 <= i < j < |run| ==> run[i].0 <= run[j].0
  }

  lemma SubsetSize<T>(a: set<T>, b: set<T>)
    requires a <= b
    ensures |a| <= |b|
  {
    assert b == a + (b - a);
  }

  lemma {:induction false} DistinctCount<T>(s: seq<T>)
    requires Distinct(s)
    ensures |set x | x in s| == |s|
  {
    if s != [] {
      var s' := s[..|s| - 1];
      DistinctCount(s');
      assert (set x | x in s) == (set x | x in s') + {s[|s| - 1]};
    }
  }

  lemma DistinctWithin<T>(s: seq<T>, a: set<T>)
    requires Distinct(s) && forall x :: x in s ==> x in a
    ensures |s| <= |a|
  {
    DistinctCount(s);
    SubsetSize((set x | x in s), a);
  }
}
