/** An optional value. */
module Options {

  datatype Option<+T> = None | Some(value: T)
}

/** Sequences without repetitions. */
module Sequences {

  predicate Distinct<T(==)>(s: seq<T>) {
    forall i, j | 0 <= i < j < |s| :: s[i] != s[j]
  }

  predicate AllIn<T(==)>(s: seq<T>, all: set<T>) {
    forall k | 0 <= k < |s| :: s[k] in all
  }

  // A sequence has no repetitions exactly when nothing in it has multiplicity above one.
  lemma {:induction false} DistinctIff<T>(s: seq<T>)
    ensures Distinct(s) <==> forall x | x in s :: multiset(s)[x] <= 1
  {
    if s != [] {
      var front, last := s[..|s| - 1], s[|s| - 1];
      assert s == front + [last];
      assert multiset(s) == multiset(front) + multiset{last};
      DistinctIff(front);
      if Distinct(s) {
        assert last !in front;
        assert last !in multiset(front);
        assert forall x | x in s && x != last :: x in front;
      }
      if forall x | x in s :: multiset(s)[x] <= 1 {
        assert multiset(s)[last] <= 1;
        assert last !in multiset(front);
        assert forall x | x in front :: x in s && multiset(front)[x] <= multiset(s)[x];
      }
    }
  }

  lemma DistinctPermutation<T>(s: seq<T>, t: seq<T>)
    requires Distinct(s) && multiset(s) == multiset(t)
    ensures Distinct(t)
  {
    DistinctIff(s);
    DistinctIff(t);
    assert forall x | x in t :: x in multiset(t) && x in s;
  }
}
