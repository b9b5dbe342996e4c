/**
 * The abstract graph contract and its default operations.
 *
 * A graph is viewed through its outgoing adjacency: every vertex that was added
 * explicitly or as the source of an edge is a key, mapped to the set of its
 * destinations. A destination that was never added is not a key (a pure sink).
 * The functions below are the view that the default methods of the contract
 * work on (`getVertices()` is the key set, `getNeighbors(v)` the destination set
 * or empty), together with the effect of the four abstract mutators on that view,
 * which both adjacency-list stores implement, and the bulk default loops.
 */
module Graph {

  datatype Option<T> = None | Some(value: T)

  /** Outgoing adjacency: vertex -> set of destination vertices. */
  type Adjacency<T> = map<T, set<T>>

  /** No element occurs twice. */
  predicate Distinct<T(==)>(s: seq<T>) {
    forall i, j :: 0 <= i < |s| && 0 <= j < |s| && i != j ==> s[i] != s[j]
  }

  // ---------------------------------------------------------------------------
  // Queries of the contract
  // ---------------------------------------------------------------------------

  predicate IsVertex<T(==)>(g: Adjacency<T>, v: T) {
    v in g
  }

  predicate IsEdge<T(==)>(g: Adjacency<T>, s: T, d: T) {
    s in g && d in g[s]
  }

  /** `getNeighbors`: the destination set, or empty for a non-vertex. */
  function Neighbors<T(==)>(g: Adjacency<T>, v: T): set<T> {
    if v in g then g[v] else {}
  }

  /** What the `hasIncomingEdge` loop looks for: some vertex lists `t` as a neighbour. */
  predicate HasIncoming<T(==)>(g: Adjacency<T>, t: T) {
    exists v :: v in g && t in g[v]
  }

  /** Witness edges for a non-empty neighbour set and for an incoming edge. */
  lemma EdgeWitness<T>(g: Adjacency<T>, v: T)
    ensures Neighbors(g, v) != {} ==> exists e :: e in EdgeSet(g) && e.0 == v
    ensures HasIncoming(g, v) ==> exists e :: e in EdgeSet(g) && e.1 == v
  {
    if Neighbors(g, v) != {} {
      var d :| d in Neighbors(g, v);
      assert (v, d) in EdgeSet(g);
    }
    if HasIncoming(g, v) {
      var u :| u in g && v in g[u];
      assert (u, v) in EdgeSet(g);
    }
  }

  /** The default `hasOutgoingEdge`: the neighbour set is not empty, so some edge leaves `v`. */
  function HasOutgoingEdge<T(==)>(g: Adjacency<T>, v: T): (b: bool)
    ensures b <==> exists e :: e in EdgeSet(g) && e.0 == v
  {
    EdgeWitness(g, v);
    Neighbors(g, v) != {}
  }

  /** The default `isSource`: no edge ends in `v`. */
  function IsSource<T(==)>(g: Adjacency<T>, v: T): (b: bool)
    ensures b <==> forall e :: e in EdgeSet(g) ==> e.1 != v
  {
    EdgeWitness(g, v);
    !HasIncoming(g, v)
  }

  /** The default `isSink`: no edge leaves `v`. */
  function IsSink<T(==)>(g: Adjacency<T>, v: T): (b: bool)
    ensures b <==> forall e :: e in EdgeSet(g) ==> e.0 != v
  {
    !HasOutgoingEdge(g, v)
  }

  /** The default `getSourceVertices`: the vertices filtered by `isSource`. */
  function SourceVertices<T(==)>(g: Adjacency<T>): (r: set<T>)
    ensures forall v :: v in r ==> v in g && forall u :: u in g ==> v !in g[u]
    ensures forall v :: v in g && (forall u :: u in g ==> v !in g[u]) ==> v in r
  {
    set v | v in g && IsSource(g, v)
  }

  /** The default `getSinkVertices`: the vertices filtered by `isSink`. */
  function SinkVertices<T(==)>(g: Adjacency<T>): (r: set<T>)
    ensures forall v :: v in r ==> v in g && g[v] == {}
    ensures forall v :: v in g && g[v] == {} ==> v in r
  {
    set v | v in g && IsSink(g, v)
  }

  /** Union of all neighbour sets. */
  function Destinations<T(==)>(g: Adjacency<T>): set<T> {
    set v, w | v in g && w in g[v] :: w
  }

  /** Every vertex the edges or the keys mention, pure sinks included. */
  function AllVertices<T(==)>(g: Adjacency<T>): set<T> {
    g.Keys + Destinations(g)
  }

  ghost function EdgeSet<T>(g: Adjacency<T>): set<(T, T)> {
    set v, w | v in g && w in g[v] :: (v, w)
  }

  /** The destinations are the second components of the edges. */
  lemma DestinationsAreEdgeTargets<T>(g: Adjacency<T>)
    ensures Destinations(g) == set e | e in EdgeSet(g) :: e.1
  {
    forall w | w in Destinations(g)
      ensures w in set e | e in EdgeSet(g) :: e.1
    {
      var u :| u in g && w in g[u];
      assert (u, w) in EdgeSet(g);
    }
  }

  /** Sum of the neighbour-set sizes (what `numEdges` adds up). */
  ghost function EdgeCount<T>(g: Adjacency<T>): nat
    decreases |g|
  {
    if g == map[] then 0
    else
      var u :| u in g;
      |g[u]| + EdgeCount(g - {u})
  }

  /** The default `hasIncomingEdge`: scan every vertex's neighbours, return at the first hit. */
  method HasIncomingEdge<T(==)>(g: Adjacency<T>, t: T) returns (b: bool)
    ensures b <==> exists v :: v in g && t in g[v]
  {
    var rest := g.Keys;
    while rest != {}
      invariant rest <= g.Keys
      invariant forall v :: v in g && v !in rest ==> t !in g[v]
      decreases rest
    {
      var v :| v in rest;
      if t in g[v] {
        return true;
      }
      rest := rest - {v};
    }
    return false;
  }

  lemma SourceIffNoIncomingEdge<T>(g: Adjacency<T>, v: T)
    ensures IsSource(g, v) <==> forall u :: u in g ==> !IsEdge(g, u, v)
    ensures v in SourceVertices(g) <==> v in g && forall u :: u in g ==> v !in g[u]
  {
  }

  lemma SinkIffNoOutgoingEdge<T>(g: Adjacency<T>, v: T)
    ensures IsSink(g, v) <==> forall d :: !IsEdge(g, v, d)
    ensures v in SinkVertices(g) <==> v in g && g[v] == {}
  {
    if !IsSink(g, v) {
      var d :| d in Neighbors(g, v);
      assert IsEdge(g, v, d);
    }
  }

  /** The source vertices are the keys minus the union of all neighbour sets; isolated vertices count. */
  lemma SourceVerticesAreKeysMinusDestinations<T>(g: Adjacency<T>)
    ensures SourceVertices(g) == g.Keys - Destinations(g)
    ensures forall v :: v in g && g[v] == {} && !HasIncoming(g, v) ==> v in SourceVertices(g)
  {
  }

  // ---------------------------------------------------------------------------
  // Effect of the mutators of the contract on the adjacency
  // ---------------------------------------------------------------------------

  /** `addVertex`: insert with an empty neighbour set when absent. */
  function AddVertex<T(==)>(g: Adjacency<T>, v: T): (r: Adjacency<T>)
    ensures r.Keys == g.Keys + {v}
    ensures v in g ==> r == g
    ensures v !in g ==> r[v] == {}
    ensures forall u :: u in g ==> r[u] == g[u]
  {
    if v in g then g else g[v := {}]
  }

  /** `addEdge`: the source becomes a vertex, and the destination joins its set. */
  function AddEdge<T(==)>(g: Adjacency<T>, s: T, d: T): (r: Adjacency<T>)
    ensures IsVertex(r, s) && IsEdge(r, s, d)
    ensures r.Keys == g.Keys + {s}
    ensures r[s] == Neighbors(g, s) + {d}
    ensures forall u :: u in g && u != s ==> r[u] == g[u]
  {
    var g1 := AddVertex(g, s);
    g1[s := g1[s] + {d}]
  }

  /** `deleteVertex`: drop the key and remove it from every other neighbour set. */
  function DeleteVertex<T(==)>(g: Adjacency<T>, v: T): (r: Adjacency<T>)
    ensures !IsVertex(r, v)
    ensures forall u :: u in r ==> v !in r[u]
    ensures r.Keys == g.Keys - {v}
    ensures forall u :: u in r ==> r[u] == g[u] - {v}
  {
    map u | u in g && u != v :: g[u] - {v}
  }

  /** `deleteEdge`: remove the destination from the source's set; no-op for a non-vertex source. */
  function DeleteEdge<T(==)>(g: Adjacency<T>, s: T, d: T): (r: Adjacency<T>)
    ensures !IsEdge(r, s, d)
    ensures r.Keys == g.Keys
    ensures forall u :: u in g && u != s ==> r[u] == g[u]
    ensures s in g ==> r[s] == g[s] - {d}
    ensures s !in g ==> r == g
  {
    if s in g then g[s := g[s] - {d}] else g
  }

  lemma AddVertexIdempotent<T>(g: Adjacency<T>, v: T)
    ensures AddVertex(AddVertex(g, v), v) == AddVertex(g, v)
  {
  }

  lemma AddEdgeIdempotent<T>(g: Adjacency<T>, s: T, d: T)
    ensures AddEdge(AddEdge(g, s, d), s, d) == AddEdge(g, s, d)
  {
    var r1 := AddEdge(g, s, d);
    var r2 := AddEdge(r1, s, d);
    assert r2.Keys == r1.Keys;
    assert forall u :: u in r2 ==> r2[u] == r1[u];
  }

  /**
   * Adding an absent edge and deleting it again restores the adjacency when the
   * source was a vertex, and otherwise leaves only the source as a new isolated
   * vertex; the edges are the same either way.
   */
  lemma AddThenDeleteEdgeRestores<T>(g: Adjacency<T>, s: T, d: T)
    requires d !in Neighbors(g, s)
    ensures s in g ==> DeleteEdge(AddEdge(g, s, d), s, d) == g
    ensures s !in g ==> DeleteEdge(AddEdge(g, s, d), s, d) == AddVertex(g, s)
    ensures EdgeSet(DeleteEdge(AddEdge(g, s, d), s, d)) == EdgeSet(g)
    ensures EdgeCount(DeleteEdge(AddEdge(g, s, d), s, d)) == EdgeCount(g)
  {
    var r := DeleteEdge(AddEdge(g, s, d), s, d);
    assert r.Keys == g.Keys + {s};
    assert r[s] == Neighbors(g, s);
    assert forall u :: u in g ==> r[u] == g[u];
    if s !in g {
      var a := AddVertex(g, s);
      assert forall u :: u in r ==> r[u] == a[u];
    }
    assert forall u, w :: IsEdge(r, u, w) <==> IsEdge(g, u, w);
    EdgeCountIsNumberOfEdges(r);
    EdgeCountIsNumberOfEdges(g);
  }

  // ---------------------------------------------------------------------------
  // Bulk defaults: the mutators applied in list order
  // ---------------------------------------------------------------------------

  function SourcesOf<T(==)>(es: seq<(T, T)>): set<T> {
    set e | e in es :: e.0
  }

  function DestinationsFrom<T(==)>(es: seq<(T, T)>, u: T): set<T> {
    set e | e in es && e.0 == u :: e.1
  }

  lemma SnocEdge<T>(init: seq<(T, T)>, e: (T, T))
    ensures init + [e] == (init + [e])[..|init|] + [e]
    ensures SourcesOf(init + [e]) == SourcesOf(init) + {e.0}
    ensures forall u :: DestinationsFrom(init + [e], u) == DestinationsFrom(init, u) + (if u == e.0 then {e.1} else {})
  {
    assert (init + [e])[..|init|] == init;
  }

  /** Adding one more edge to the result for a list extends the characterization to the longer list. */
  lemma AddEdgeExtends<T>(g: Adjacency<T>, init: seq<(T, T)>, e: (T, T), r0: Adjacency<T>)
    requires r0.Keys == g.Keys + SourcesOf(init)
    requires forall u :: u in r0 ==> r0[u] == Neighbors(g, u) + DestinationsFrom(init, u)
    ensures var r := AddEdge(r0, e.0, e.1);
      && r.Keys == g.Keys + SourcesOf(init + [e])
      && forall u :: u in r ==> r[u] == Neighbors(g, u) + DestinationsFrom(init + [e], u)
  {
    SnocEdge(init, e);
  }

  /** `addVertices`: `addVertex` on each element in order. */
  function AddVertices<T(==)>(g: Adjacency<T>, vs: seq<T>): (r: Adjacency<T>)
    ensures r.Keys == g.Keys + set v | v in vs
    ensures forall u :: u in r ==> r[u] == Neighbors(g, u)
    decreases |vs|
  {
    if vs == [] then g
    else AddVertex(AddVertices(g, vs[..|vs| - 1]), vs[|vs| - 1])
  }

  /** `addEdges`: `addEdge` on each pair in order. */
  function AddEdges<T(==)>(g: Adjacency<T>, es: seq<(T, T)>): (r: Adjacency<T>)
    ensures r.Keys == g.Keys + SourcesOf(es)
    ensures forall u :: u in r ==> r[u] == Neighbors(g, u) + DestinationsFrom(es, u)
    decreases |es|
  {
    if es == [] then g
    else
      var init := es[..|es| - 1];
      var e := es[|es| - 1];
      assert es == init + [e];
      var r0 := AddEdges(g, init);
      AddEdgeExtends(g, init, e, r0);
      AddEdge(r0, e.0, e.1)
  }

  /** `deleteVertices`: `deleteVertex` on each element in order. */
  function DeleteVertices<T(==)>(g: Adjacency<T>, vs: seq<T>): (r: Adjacency<T>)
    ensures r.Keys == g.Keys - set v | v in vs
    ensures forall u :: u in r ==> r[u] == g[u] - set v | v in vs
    decreases |vs|
  {
    if vs == [] then g
    else
      var init := vs[..|vs| - 1];
      assert vs == init + [vs[|vs| - 1]];
      DeleteVertex(DeleteVertices(g, init), vs[|vs| - 1])
  }

  /** `deleteEdges`: `deleteEdge` on each pair in order. */
  function DeleteEdges<T(==)>(g: Adjacency<T>, es: seq<(T, T)>): (r: Adjacency<T>)
    ensures r.Keys == g.Keys
    ensures forall u :: u in r ==> r[u] == g[u] - DestinationsFrom(es, u)
    decreases |es|
  {
    if es == [] then g
    else
      var init := es[..|es| - 1];
      var e := es[|es| - 1];
      SnocEdge(init, e);
      DeleteEdge(DeleteEdges(g, init), e.0, e.1)
  }

  /** Two adjacencies with the same keys and the same neighbour sets are equal. */
  lemma SameAdjacency<T>(a: Adjacency<T>, b: Adjacency<T>)
    requires a.Keys == b.Keys
    requires forall u :: u in a ==> a[u] == b[u]
    ensures a == b
  {
  }

  /** A list holding exactly the edges of `g` has sources among its vertices and its neighbours as targets. */
  lemma EdgeListOf<T>(g: Adjacency<T>, es: seq<(T, T)>)
    requires forall e :: e in es <==> e in EdgeSet(g)
    ensures SourcesOf(es) <= g.Keys
    ensures forall u :: u in g ==> DestinationsFrom(es, u) == g[u]
  {
    forall u | u in SourcesOf(es) ensures u in g {
      var e :| e in es && e.0 == u;
    }
    forall u, w | u in g && w in g[u] ensures w in DestinationsFrom(es, u) {
      assert (u, w) in EdgeSet(g);
    }
  }

  /** Adding the edges of `g` to its vertices with no neighbours gives `g`. */
  lemma EdgesOntoVertices<T>(g: Adjacency<T>, g1: Adjacency<T>, es: seq<(T, T)>)
    requires g1.Keys == g.Keys && forall u :: u in g1 ==> g1[u] == {}
    requires SourcesOf(es) <= g.Keys
    requires forall u :: u in g ==> DestinationsFrom(es, u) == g[u]
    ensures AddEdges(g1, es) == g
  {
    var r := AddEdges(g1, es);
    forall u | u in r ensures r[u] == g[u] {
      assert Neighbors(g1, u) == {};
    }
    SameAdjacency(r, g);
  }

  /**
   * Rebuilding from the vertex list and the edge list gives back the same
   * adjacency: what `clone` relies on.
   */
  lemma RebuildFromVerticesAndEdges<T>(g: Adjacency<T>, vs: seq<T>, es: seq<(T, T)>)
    requires forall v :: v in vs <==> v in g
    requires forall e :: e in es <==> e in EdgeSet(g)
    ensures AddEdges(AddVertices(map[], vs), es) == g
  {
    var g1 := AddVertices(map[], vs);
    EdgeListOf(g, es);
    assert g1.Keys == g.Keys;
    EdgesOntoVertices(g, g1, es);
  }

  // ---------------------------------------------------------------------------
  // Counting edges
  // ---------------------------------------------------------------------------

  lemma {:induction false} EdgeCountRemove<T>(g: Adjacency<T>, u: T)
    requires u in g
    ensures EdgeCount(g) == |g[u]| + EdgeCount(g - {u})
    decreases |g|
  {
    var k :| k in g && EdgeCount(g) == |g[k]| + EdgeCount(g - {k});
    if k != u {
      var gk := g - {k};
      var gu := g - {u};
      assert |gk| < |g| && |gu| < |g|;
      EdgeCountRemove(gk, u);
      EdgeCountRemove(gu, k);
      assert gk - {u} == gu - {k};
    }
  }

  lemma {:induction false} PairsFromCard<T>(u: T, s: set<T>)
    ensures |set w | w in s :: (u, w)| == |s|
    decreases |s|
  {
    if s != {} {
      var x :| x in s;
      PairsFromCard(u, s - {x});
      assert (set w | w in s :: (u, w)) == (set w | w in s - {x} :: (u, w)) + {(u, x)};
    }
  }

  /** The edges of `g` are those leaving `u` plus, disjointly, those of the rest. */
  lemma EdgeSetSplit<T>(g: Adjacency<T>, u: T)
    requires u in g
    ensures EdgeSet(g) == EdgeSet(g - {u}) + set w | w in g[u] :: (u, w)
    ensures EdgeSet(g - {u}) !! set w | w in g[u] :: (u, w)
  {
  }

  /** The sum of the neighbour-set sizes is the number of distinct edges. */
  lemma {:induction false} EdgeCountIsNumberOfEdges<T>(g: Adjacency<T>)
    ensures EdgeCount(g) == |EdgeSet(g)|
    decreases |g|
  {
    if g != map[] {
      var u :| u in g;
      var rest := g - {u};
      EdgeCountRemove(g, u);
      EdgeCountIsNumberOfEdges(rest);
      PairsFromCard(u, g[u]);
      EdgeSetSplit(g, u);
    }
  }
}
