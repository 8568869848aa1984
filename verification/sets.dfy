/** Cardinality facts about finite sets used when a SQL `count(*)` is
    restated as a set. */
module SetFacts {

  /** A set of size one that contains `x` is exactly `{x}`. */
  lemma SingletonByCardinality<T>(s: set<T>, x: T)
    requires x in s
    ensures |s| == 1 <==> s == {x}
  {
    if |s| == 1 {
      var rest := s - {x};
      assert |rest| == 0;
      assert s == rest + {x};
    }
  }
}
