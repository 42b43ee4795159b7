/** Two small facts about Dafny's sets and sequences that the list scans rely on. */
module Collections {

  /** Some element of a non-empty set. */
  lemma PickFrom<T>(s: set<T>) returns (x: T)
    requires s != {}
    ensures x in s
  {
    x :| x in s;
  }

  /** Taking equal elements out of two sequences with equal multisets. */
  lemma SameHeadSamePermutation<T>(a: seq<T>, b: seq<T>, j: int)
    requires a != [] && 0 <= j < |b| && b[j] == a[0]
    requires multiset(a[1..]) == multiset(b[..j] + b[j + 1..])
    ensures multiset(a) == multiset(b)
  {
    assert a == [a[0]] + a[1..];
    assert b == b[..j] + [b[j]] + b[j + 1..];
  }
}
