/**
 * The query loops that both adjacency-list stores share word for word:
 * counting edges, the source-vertex scan, the incident-edge and edge lists,
 * and the defensive copy of the whole adjacency. Each works on the store's
 * adjacency map and changes nothing.
 */
module AdjacencyQueries {
  import opened Graph

  lemma DistinctConcat<T>(a: seq<T>, b: seq<T>)
    requires Distinct(a) && Distinct(b)
    requires forall x :: x in a ==> x !in b
    ensures Distinct(a + b)
  {
    var c := a + b;
    forall i, j | 0 <= i < |c| && 0 <= j < |c| && i != j
      ensures c[i] != c[j]
    {
      if i < |a| && j >= |a| {
        assert c[i] in a && c[j] == b[j - |a|];
      } else if j < |a| && i >= |a| {
        assert c[j] in a && c[i] == b[i - |a|];
      }
    }
  }

  lemma {:induction false} DistinctCard<T>(s: seq<T>)
    requires Distinct(s)
    ensures |set x | x in s| == |s|
    decreases |s|
  {
    if s != [] {
      var init := s[..|s| - 1];
      assert Distinct(init);
      DistinctCard(init);
      assert (set x | x in s) == (set x | x in init) + {s[|s| - 1]};
      assert s[|s| - 1] !in init;
    }
  }

  /** The elements of a set in some order, each once (the iteration order of a hash set is unspecified). */
  method Elements<T(==)>(s: set<T>) returns (xs: seq<T>)
    ensures Distinct(xs)
    ensures forall x :: x in xs <==> x in s
    ensures |xs| == |s|
  {
    xs := [];
    var rest := s;
    while rest != {}
      invariant rest <= s
      invariant Distinct(xs)
      invariant forall x :: x in xs <==> x in s && x !in rest
      invariant |xs| + |rest| == |s|
      decreases rest
    {
      var x :| x in rest;
      DistinctConcat(xs, [x]);
      xs := xs + [x];
      rest := rest - {x};
    }
  }

  /** `numEdges`: the sum of the neighbour-set sizes, which is the number of distinct edges. */
  method NumEdges<T(==)>(g: Adjacency<T>) returns (n: nat)
    ensures n == EdgeCount(g)
    ensures n == |EdgeSet(g)|
  {
    n := 0;
    ghost var rg := g;
    var rest := g.Keys;
    while rest != {}
      invariant rest == rg.Keys
      invariant forall u :: u in rg ==> u in g && rg[u] == g[u]
      invariant n + EdgeCount(rg) == EdgeCount(g)
      decreases rest
    {
      var u :| u in rest;
      EdgeCountRemove(rg, u);
      n := n + |g[u]|;
      rg := rg - {u};
      rest := rest - {u};
    }
    EdgeCountIsNumberOfEdges(g);
  }

  /** `getSourceVertices` of the stores: start from all vertices and remove every neighbour set. */
  method SourceVerticesOf<T(==)>(g: Adjacency<T>) returns (r: set<T>)
    ensures r == g.Keys - Destinations(g)
    ensures r == SourceVertices(g)
  {
    r := g.Keys;
    var rest := g.Keys;
    while rest != {}
      invariant rest <= g.Keys
      invariant forall x :: x in r <==> x in g && forall u :: u in g && u !in rest ==> x !in g[u]
      decreases rest
    {
      var u :| u in rest;
      r := r - g[u];
      rest := rest - {u};
    }
    SourceVerticesAreKeysMinusDestinations(g);
  }

  /** `getIncidentEdges`: absent for a non-vertex, otherwise the pair (v, n) for each neighbour n. */
  method IncidentEdgesOf<T(==)>(g: Adjacency<T>, v: T) returns (r: Option<seq<(T, T)>>)
    ensures r.None? <==> v !in g
    ensures r.Some? ==> Distinct(r.value) && |r.value| == |g[v]|
    ensures r.Some? ==> forall e :: e in r.value <==> e.0 == v && e.1 in g[v]
  {
    if v !in g {
      return None;
    }
    var es: seq<(T, T)> := [];
    var rest := g[v];
    while rest != {}
      invariant rest <= g[v]
      invariant Distinct(es)
      invariant forall e :: e in es <==> e.0 == v && e.1 in g[v] && e.1 !in rest
      invariant |es| + |rest| == |g[v]|
      decreases rest
    {
      var n :| n in rest;
      DistinctConcat(es, [(v, n)]);
      es := es + [(v, n)];
      rest := rest - {n};
    }
    return Some(es);
  }

  /** `getEdges`: the incident edges of every vertex, concatenated; as many as `numEdges`. */
  method EdgesOf<T(==)>(g: Adjacency<T>) returns (es: seq<(T, T)>)
    ensures Distinct(es)
    ensures forall e :: e in es <==> e in EdgeSet(g)
    ensures forall e :: e in es <==> IsEdge(g, e.0, e.1)
    ensures |es| == |EdgeSet(g)| == EdgeCount(g)
  {
    es := [];
    var rest := g.Keys;
    while rest != {}
      invariant rest <= g.Keys
      invariant Distinct(es)
      invariant forall e :: e in es <==> e.0 in g && e.0 !in rest && e.1 in g[e.0]
      decreases rest
    {
      var u :| u in rest;
      var inc := IncidentEdgesOf(g, u);
      DistinctConcat(es, inc.value);
      es := es + inc.value;
      rest := rest - {u};
    }
    assert (set e | e in es) == EdgeSet(g);
    DistinctCard(es);
    EdgeCountIsNumberOfEdges(g);
  }

  /** `getAdjacencyList`: a map from each vertex to a copy of its neighbour set. */
  method CopyOf<T(==)>(g: Adjacency<T>) returns (c: Adjacency<T>)
    ensures c.Keys == g.Keys
    ensures forall u :: u in c ==> c[u] == Neighbors(g, u)
    ensures c == g
  {
    c := map[];
    var rest := g.Keys;
    while rest != {}
      invariant rest <= g.Keys
      invariant c.Keys == g.Keys - rest
      invariant forall u :: u in c ==> c[u] == g[u]
      decreases rest
    {
      var u :| u in rest;
      c := c[u := Neighbors(g, u)];
      rest := rest - {u};
    }
  }
}
