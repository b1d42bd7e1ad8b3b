/** Reachability in a possibly cyclic dependency graph, given as the successors of each node. */
module Graph {
  type Edges<T> = map<T, set<T>>

  function Next<T>(g: Edges<T>, v: T): set<T> {
    if v in g then g[v] else {}
  }

  ghost predicate IsPath<T>(g: Edges<T>, p: seq<T>, a: T, b: T) {
    |p| > 0 && p[0] == a && p[|p| - 1] == b
    && forall i | 0 <= i < |p| - 1 :: p[i + 1] in Next(g, p[i])
  }

  /** a depends on b, over any number of edges. */
  ghost predicate Reaches<T(!new)>(g: Edges<T>, a: T, b: T) {
    exists p :: IsPath(g, p, a, b)
  }

  lemma ReachesItself<T(!new)>(g: Edges<T>, a: T)
    ensures Reaches(g, a, a)
  {
    assert IsPath(g, [a], a, a);
  }

  lemma ReachesStep<T(!new)>(g: Edges<T>, a: T, b: T, c: T)
    requires Reaches(g, a, b) && c in Next(g, b)
    ensures Reaches(g, a, c)
  {
    var p :| IsPath(g, p, a, b);
    var q := p + [c];
    forall i | 0 <= i < |q| - 1 ensures q[i + 1] in Next(g, q[i]) {
      if i < |p| - 1 {
        assert q[i] == p[i] && q[i + 1] == p[i + 1];
      }
    }
    assert IsPath(g, q, a, c);
  }

  lemma {:induction false} PathStays<T>(g: Edges<T>, s: set<T>, p: seq<T>, a: T, b: T)
    requires a in s && IsPath(g, p, a, b) && forall v, d | v in s && d in Next(g, v) :: d in s
    ensures b in s
  {
    if |p| > 1 {
      var q := p[..|p| - 1];
      assert IsPath(g, q, a, q[|q| - 1]);
      PathStays(g, s, q, a, q[|q| - 1]);
      assert p[|p| - 2 + 1] in Next(g, p[|p| - 2]);
    }
  }

  /** A closed set that holds a holds everything a reaches. */
  lemma ReachesStays<T(!new)>(g: Edges<T>, s: set<T>, a: T, b: T)
    requires a in s && Reaches(g, a, b) && forall v, d | v in s && d in Next(g, v) :: d in s
    ensures b in s
  {
    var p :| IsPath(g, p, a, b);
    PathStays(g, s, p, a, b);
  }

  lemma Smaller<T>(all: set<T>, seen: set<T>, v: T)
    requires v in all && v !in seen
    ensures |all - (seen + {v})| < |all - seen|
  {
    assert all - seen == (all - (seen + {v})) + {v};
  }
}
