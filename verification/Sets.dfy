/** Facts about finite sets used by several modules. */
module Sets {
  lemma {:induction false} Pick<T>(s: set<T>) returns (x: T)
    requires s != {}
    ensures x in s
  {
    x :| x in s;
  }

  lemma {:induction false} SubsetSize<T>(a: set<T>, b: set<T>)
    requires a <= b
    ensures |a| <= |b|
  {
    assert a + (b - a) == b;
  }

  lemma {:induction false} SameSizeSubset<T>(a: set<T>, b: set<T>)
    requires a <= b && |a| == |b|
    ensures a == b
  {
    assert a + (b - a) == b;
    assert |b - a| == 0;
  }

  /** An element that a proper subset leaves out. */
  lemma {:induction false} LeftOut<T>(a: set<T>, b: set<T>) returns (x: T)
    requires b <= a && b != a
    ensures x in a && x !in b
  {
    x :| x in a && x !in b;
  }
}
