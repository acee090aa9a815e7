/** The meaning of the two-rule Datalog programs the analysis queries use
    for reachability:
      reach(t, n) :- seed(t, n).
      reach(t, m) :- reach(t, n), edge(n, m).
    Their output is the least set that contains the seed and is closed
    under following an edge while keeping the tag `t`. The engine computes
    it by iterating to a fixpoint; so does `Closure`. */
module Closures {

  /** One round of the recursive rule. */
  function Step<A(==), N(==)>(s: set<(A, N)>, edges: set<(N, N)>): set<(A, N)>
  {
    set x, e | x in s && e in edges && x.1 == e.0 :: (x.0, e.1)
  }

  /** Nothing new can be derived from `s`. */
  predicate Closed<A(==), N(==)>(s: set<(A, N)>, edges: set<(N, N)>)
  {
    forall x, e :: x in s && e in edges && x.1 == e.0 ==> (x.0, e.1) in s
  }

  function Tags<A(==), N(==)>(seed: set<(A, N)>): set<A>
  {
    set x | x in seed :: x.0
  }

  function Nodes<A(==), N(==)>(seed: set<(A, N)>, edges: set<(N, N)>): set<N>
  {
    (set x | x in seed :: x.1) + (set e | e in edges :: e.1)
  }

  /** Every fact derivable from the seed: a tag of the seed with a node of
      the seed or an edge target. */
  function Universe<A(==), N(==)>(seed: set<(A, N)>, edges: set<(N, N)>): set<(A, N)>
  {
    set a, n | a in Tags(seed) && n in Nodes(seed, edges) :: (a, n)
  }

  lemma StepMonotone<A, N>(s: set<(A, N)>, t: set<(A, N)>, edges: set<(N, N)>)
    requires s <= t
    ensures Step(s, edges) <= Step(t, edges)
  {
  }

  lemma SeedInUniverse<A, N>(seed: set<(A, N)>, edges: set<(N, N)>)
    ensures seed <= Universe(seed, edges)
  {
    forall x | x in seed
      ensures x in Universe(seed, edges)
    {
      assert x.0 in Tags(seed);
      assert x.1 in Nodes(seed, edges);
    }
  }

  /** Following an edge keeps the tag and reaches an edge target, so it
      stays inside the universe. */
  lemma UniverseClosed<A, N>(seed: set<(A, N)>, edges: set<(N, N)>)
    ensures Step(Universe(seed, edges), edges) <= Universe(seed, edges)
  {
    var u := Universe(seed, edges);
    forall y | y in Step(u, edges)
      ensures y in u
    {
      var x, e :| x in u && e in edges && x.1 == e.0 && y == (x.0, e.1);
      assert e.1 in Nodes(seed, edges);
    }
  }

  /** A proper subset of a finite set is smaller. */
  lemma ProperSubsetSmaller<T>(a: set<T>, b: set<T>)
    requires a < b
    ensures |a| < |b|
  {
    assert b == a + (b - a);
  }

  /** Rounds of the recursive rule until nothing changes. */
  function Iterate<A(==), N(==)>(s: set<(A, N)>, edges: set<(N, N)>, univ: set<(A, N)>): set<(A, N)>
    requires s <= univ && Step(univ, edges) <= univ
    decreases |univ - s|
  {
    StepMonotone(s, univ, edges);
    var next := s + Step(s, edges);
    if next <= s then s
    else
      ProperSubsetSmaller(univ - next, univ - s);
      Iterate(next, edges, univ)
  }

  /** The output of the reachability rules for `seed` and `edges`. */
  function Closure<A(==), N(==)>(seed: set<(A, N)>, edges: set<(N, N)>): set<(A, N)>
  {
    UniverseClosed(seed, edges);
    SeedInUniverse(seed, edges);
    Iterate(seed, edges, Universe(seed, edges))
  }

  lemma {:induction false} IterateCorrect<A, N>(s: set<(A, N)>, edges: set<(N, N)>, univ: set<(A, N)>)
    requires s <= univ && Step(univ, edges) <= univ
    ensures s <= Iterate(s, edges, univ) <= univ
    ensures Closed(Iterate(s, edges, univ), edges)
    decreases |univ - s|
  {
    StepMonotone(s, univ, edges);
    var next := s + Step(s, edges);
    if next <= s {
      forall x, e | x in s && e in edges && x.1 == e.0
        ensures (x.0, e.1) in s
      {
        assert (x.0, e.1) in Step(s, edges);
      }
    } else {
      ProperSubsetSmaller(univ - next, univ - s);
      IterateCorrect(next, edges, univ);
    }
  }

  lemma {:induction false} IterateLeast<A, N>(s: set<(A, N)>, edges: set<(N, N)>, univ: set<(A, N)>,
                                                     t: set<(A, N)>)
    requires s <= univ && Step(univ, edges) <= univ
    requires s <= t && Closed(t, edges)
    ensures Iterate(s, edges, univ) <= t
    decreases |univ - s|
  {
    StepMonotone(s, univ, edges);
    var next := s + Step(s, edges);
    if !(next <= s) {
      ProperSubsetSmaller(univ - next, univ - s);
      assert Step(s, edges) <= t;
      IterateLeast(next, edges, univ, t);
    }
  }

  /** The closure holds the seed, is closed under the edges, and lies
      within every other set that is: it is the least fixpoint. */
  lemma ClosureCorrect<A, N>(seed: set<(A, N)>, edges: set<(N, N)>)
    ensures seed <= Closure(seed, edges)
    ensures Closed(Closure(seed, edges), edges)
  {
    UniverseClosed(seed, edges);
    SeedInUniverse(seed, edges);
    IterateCorrect(seed, edges, Universe(seed, edges));
  }

  lemma ClosureLeast<A, N>(seed: set<(A, N)>, edges: set<(N, N)>, t: set<(A, N)>)
    requires seed <= t && Closed(t, edges)
    ensures Closure(seed, edges) <= t
  {
    UniverseClosed(seed, edges);
    SeedInUniverse(seed, edges);
    IterateLeast(seed, edges, Universe(seed, edges), t);
  }

  /** Every derived fact carries a tag of the seed. */
  lemma ClosureTags<A, N>(seed: set<(A, N)>, edges: set<(N, N)>, y: (A, N))
    requires y in Closure(seed, edges)
    ensures y.0 in Tags(seed)
  {
    UniverseClosed(seed, edges);
    SeedInUniverse(seed, edges);
    IterateCorrect(seed, edges, Universe(seed, edges));
    assert y in Universe(seed, edges);
  }

  /** Every derived fact's node is a node of the seed or an edge target. */
  lemma ClosureNodes<A, N>(seed: set<(A, N)>, edges: set<(N, N)>, y: (A, N))
    requires y in Closure(seed, edges)
    ensures y.1 in Nodes(seed, edges)
  {
    UniverseClosed(seed, edges);
    SeedInUniverse(seed, edges);
    IterateCorrect(seed, edges, Universe(seed, edges));
    assert y in Universe(seed, edges);
  }
}
