/**
 * The adjacency-list store that mirrors every mutation into a change log.
 *
 * The store is a map from vertex to its set of destinations. Adding a vertex
 * logs a +1 vertex record only when the vertex is new; adding an edge logs a
 * +1 edge record every time, even for an edge that already exists; deleting an
 * edge logs a -1 edge record only when the edge existed; deleting a vertex
 * always logs a -1 vertex record, then one -1 edge record per incoming edge it
 * removes, while its own outgoing edges vanish with the key and are not logged.
 */
module CoreAdjacencyList {
  import Graph
  import opened ChangeLogs
  import AdjacencyQueries

  // ---------------------------------------------------------------------------
  // The records each mutation writes, as functions of the adjacency before it
  // ---------------------------------------------------------------------------

  ghost function AddVertexRecords<T>(g: Graph.Adjacency<T>, v: T): seq<Record<T>> {
    if v in g then [] else [Record(VertexEntry(v), 1)]
  }

  ghost function AddEdgeRecords<T>(g: Graph.Adjacency<T>, s: T, d: T): seq<Record<T>> {
    AddVertexRecords(g, s) + [Record(EdgeEntry(s, d), 1)]
  }

  ghost function DeleteEdgeRecords<T>(g: Graph.Adjacency<T>, s: T, d: T): seq<Record<T>> {
    if Graph.IsEdge(g, s, d) then [Record(EdgeEntry(s, d), -1)] else []
  }

  /** The -1 records for the edges (u, v) with u in `from`, u a vertex other than v. */
  ghost function IncomingDeletions<T>(g: Graph.Adjacency<T>, v: T, from: set<T>): set<Record<T>> {
    set u | u in from && u in g && u != v && v in g[u] :: Record(EdgeEntry(u, v), -1)
  }

  /**
   * The records `deleteVertex(v)` writes: the -1 vertex record, then the -1
   * records of the removed incoming edges, each once, in the map's iteration order.
   */
  ghost predicate IsDeleteVertexLog<T>(g: Graph.Adjacency<T>, v: T, rs: seq<Record<T>>) {
    && |rs| >= 1
    && rs[0] == Record(VertexEntry(v), -1)
    && Graph.Distinct(rs[1..])
    && (set r | r in rs[1..]) == IncomingDeletions(g, v, g.Keys)
  }

  ghost function AddVerticesRecords<T>(g: Graph.Adjacency<T>, vs: seq<T>): seq<Record<T>>
    decreases |vs|
  {
    if vs == [] then []
    else
      var init := vs[..|vs| - 1];
      AddVerticesRecords(g, init) + AddVertexRecords(Graph.AddVertices(g, init), vs[|vs| - 1])
  }

  ghost function AddEdgesRecords<T>(g: Graph.Adjacency<T>, es: seq<(T, T)>): seq<Record<T>>
    decreases |es|
  {
    if es == [] then []
    else
      var init := es[..|es| - 1];
      var e := es[|es| - 1];
      AddEdgesRecords(g, init) + AddEdgeRecords(Graph.AddEdges(g, init), e.0, e.1)
  }

  ghost function DeleteEdgesRecords<T>(g: Graph.Adjacency<T>, es: seq<(T, T)>): seq<Record<T>>
    decreases |es|
  {
    if es == [] then []
    else
      var init := es[..|es| - 1];
      var e := es[|es| - 1];
      DeleteEdgesRecords(g, init) + DeleteEdgeRecords(Graph.DeleteEdges(g, init), e.0, e.1)
  }

  /** The records of `deleteVertex` on each element in order: one `IsDeleteVertexLog` block per vertex. */
  ghost predicate IsDeleteVerticesLog<T>(g: Graph.Adjacency<T>, vs: seq<T>, rs: seq<Record<T>>)
    decreases |vs|
  {
    if vs == [] then rs == []
    else
      var init := vs[..|vs| - 1];
      exists k :: 0 <= k <= |rs| && IsDeleteVerticesLog(g, init, rs[..k])
        && IsDeleteVertexLog(Graph.DeleteVertices(g, init), vs[|vs| - 1], rs[k..])
  }

  lemma AddEdgesStep<T>(g: Graph.Adjacency<T>, es: seq<(T, T)>, i: nat)
    requires i < |es|
    ensures Graph.AddEdges(g, es[..i + 1]) == Graph.AddEdge(Graph.AddEdges(g, es[..i]), es[i].0, es[i].1)
    ensures AddEdgesRecords(g, es[..i + 1]) == AddEdgesRecords(g, es[..i]) + AddEdgeRecords(Graph.AddEdges(g, es[..i]), es[i].0, es[i].1)
  {
    assert es[..i + 1][..i] == es[..i];
  }

  lemma AddVerticesStep<T>(g: Graph.Adjacency<T>, vs: seq<T>, i: nat)
    requires i < |vs|
    ensures Graph.AddVertices(g, vs[..i + 1]) == Graph.AddVertex(Graph.AddVertices(g, vs[..i]), vs[i])
    ensures AddVerticesRecords(g, vs[..i + 1]) == AddVerticesRecords(g, vs[..i]) + AddVertexRecords(Graph.AddVertices(g, vs[..i]), vs[i])
  {
    assert vs[..i + 1][..i] == vs[..i];
  }

  lemma DeleteEdgesStep<T>(g: Graph.Adjacency<T>, es: seq<(T, T)>, i: nat)
    requires i < |es|
    ensures Graph.DeleteEdges(g, es[..i + 1]) == Graph.DeleteEdge(Graph.DeleteEdges(g, es[..i]), es[i].0, es[i].1)
    ensures DeleteEdgesRecords(g, es[..i + 1]) == DeleteEdgesRecords(g, es[..i]) + DeleteEdgeRecords(Graph.DeleteEdges(g, es[..i]), es[i].0, es[i].1)
  {
    assert es[..i + 1][..i] == es[..i];
  }

  lemma IncomingDeletionsAdd<T>(g: Graph.Adjacency<T>, v: T, from: set<T>, u: T)
    requires u in g && u != v
    ensures IncomingDeletions(g, v, from + {u})
      == IncomingDeletions(g, v, from) + (if v in g[u] then {Record(EdgeEntry(u, v), -1)} else {})
  {
  }

  lemma AppendAssoc<T>(a: seq<T>, b: seq<T>, c: seq<T>)
    ensures (a + b) + c == a + (b + c)
  {
  }

  ghost predicate AllAdditions<T>(rs: seq<Record<T>>) {
    forall i :: 0 <= i < |rs| ==> rs[i].value == 1
  }

  lemma AllAdditionsConcat<T>(a: seq<Record<T>>, b: seq<Record<T>>)
    requires AllAdditions(a) && AllAdditions(b)
    ensures AllAdditions(a + b)
  {
    forall i | 0 <= i < |a + b|
      ensures (a + b)[i].value == 1
    {
      if i >= |a| {
        assert (a + b)[i] == b[i - |a|];
      }
    }
  }

  /** The +1 vertex record of each listed vertex, in the order listed. */
  function VertexAdditions<T>(vs: seq<T>): (rs: seq<Record<T>>)
    ensures |rs| == |vs|
    ensures forall i :: 0 <= i < |vs| ==> rs[i] == Record(VertexEntry(vs[i]), 1)
  {
    if vs == [] then [] else VertexAdditions(vs[..|vs| - 1]) + [Record(VertexEntry(vs[|vs| - 1]), 1)]
  }

  /** The +1 edge record of each listed edge, in the order listed. */
  function EdgeAdditions<T>(es: seq<(T, T)>): (rs: seq<Record<T>>)
    ensures |rs| == |es|
    ensures forall i :: 0 <= i < |es| ==> rs[i] == Record(EdgeEntry(es[i].0, es[i].1), 1)
  {
    if es == [] then [] else EdgeAdditions(es[..|es| - 1]) + [Record(EdgeEntry(es[|es| - 1].0, es[|es| - 1].1), 1)]
  }

  // ---------------------------------------------------------------------------
  // Properties of the logging policy
  // ---------------------------------------------------------------------------

  /** A second `addVertex` logs nothing and changes nothing. */
  lemma AddVertexTwiceLogsOnce<T>(g: Graph.Adjacency<T>, v: T)
    ensures AddVertexRecords(Graph.AddVertex(g, v), v) == []
    ensures |AddVertexRecords(g, v)| == (if v in g then 0 else 1)
    ensures Graph.AddVertex(Graph.AddVertex(g, v), v) == Graph.AddVertex(g, v)
  {
  }

  /** Re-adding an existing edge leaves the map as it is but still logs a +1 edge record. */
  lemma RepeatedAddEdgeStillLogs<T>(g: Graph.Adjacency<T>, s: T, d: T)
    requires Graph.IsEdge(g, s, d)
    ensures Graph.AddEdge(g, s, d) == g
    ensures AddEdgeRecords(g, s, d) == [Record(EdgeEntry(s, d), 1)]
  {
    assert g[s] + {d} == g[s];
  }

  /**
   * Adding an absent edge from an existing vertex and deleting it again restores
   * the map, writes exactly a +1 and a -1 record for that edge, and so leaves
   * `hasChangedSince` false for the checkpoint taken before (unless that
   * checkpoint is in the last slot of its epoch).
   */
  lemma AddThenDeleteEdgeRoundTrip<T>(g: Graph.Adjacency<T>, a: T, b: T, h: seq<Record<T>>)
    requires a in g && b !in g[a]
    requires |h| % LogSize != LogSize - 1
    ensures Graph.DeleteEdge(Graph.AddEdge(g, a, b), a, b) == g
    ensures var rs := AddEdgeRecords(g, a, b) + DeleteEdgeRecords(Graph.AddEdge(g, a, b), a, b);
      rs == [Record(EdgeEntry(a, b), 1), Record(EdgeEntry(a, b), -1)]
      && !HasChanged(h + rs, |h|)
  {
    Graph.AddThenDeleteEdgeRestores(g, a, b);
    CancellingPair(h, EdgeEntry(a, b), 1);
  }

  /** `deleteVertex` writes one record for the vertex plus one per removed incoming edge. */
  lemma DeleteVertexLogLength<T>(g: Graph.Adjacency<T>, v: T, rs: seq<Record<T>>)
    requires IsDeleteVertexLog(g, v, rs)
    ensures |rs| == 1 + |set u | u in g && u != v && v in g[u]|
  {
    var sources := set u | u in g && u != v && v in g[u];
    var dels := IncomingDeletions(g, v, g.Keys);
    assert (set r | r in rs[1..]) == dels;
    AdjacencyQueries.DistinctCard(rs[1..]);
    SourcesToDeletionsCard(sources, v);
    assert dels == set u | u in sources :: Record(EdgeEntry(u, v), -1);
  }

  lemma {:induction false} SourcesToDeletionsCard<T>(sources: set<T>, v: T)
    ensures |set u | u in sources :: Record(EdgeEntry(u, v), -1)| == |sources|
    decreases |sources|
  {
    if sources != {} {
      var x :| x in sources;
      SourcesToDeletionsCard(sources - {x}, v);
      assert (set u | u in sources :: Record(EdgeEntry(u, v), -1))
        == (set u | u in sources - {x} :: Record(EdgeEntry(u, v), -1)) + {Record(EdgeEntry(x, v), -1)};
    }
  }

  /** Adding distinct new vertices writes one +1 record per vertex, in the order listed. */
  lemma AddVerticesRecordsOfNewVertices<T>(g: Graph.Adjacency<T>, vs: seq<T>)
    requires Graph.Distinct(vs)
    requires forall v :: v in vs ==> v !in g
    ensures AddVerticesRecords(g, vs) == VertexAdditions(vs)
    ensures AllAdditions(AddVerticesRecords(g, vs))
    ensures forall i :: 0 <= i < |vs| ==> AddVerticesRecords(g, vs)[i] == Record(VertexEntry(vs[i]), 1)
  {
    NewVerticesAreAdditions(g, vs);
  }

  lemma {:induction false} NewVerticesAreAdditions<T>(g: Graph.Adjacency<T>, vs: seq<T>)
    requires Graph.Distinct(vs)
    requires forall v :: v in vs ==> v !in g
    ensures AddVerticesRecords(g, vs) == VertexAdditions(vs)
    decreases |vs|
  {
    if vs != [] {
      var init := vs[..|vs| - 1];
      assert Graph.Distinct(init);
      assert forall v :: v in init ==> v in vs;
      NewVerticesAreAdditions(g, init);
      var v := vs[|vs| - 1];
      assert v !in init;
      assert v !in Graph.AddVertices(g, init);
      assert AddVertexRecords(Graph.AddVertices(g, init), v) == [Record(VertexEntry(v), 1)];
    }
  }

  /** Adding edges whose sources are all vertices writes one +1 record per edge, in the order listed. */
  lemma AddEdgesRecordsOfKnownSources<T>(g: Graph.Adjacency<T>, es: seq<(T, T)>)
    requires forall e :: e in es ==> e.0 in g
    ensures AddEdgesRecords(g, es) == EdgeAdditions(es)
    ensures AllAdditions(AddEdgesRecords(g, es))
    ensures forall i :: 0 <= i < |es| ==> AddEdgesRecords(g, es)[i] == Record(EdgeEntry(es[i].0, es[i].1), 1)
  {
    KnownSourceEdgesAreAdditions(g, es);
  }

  lemma {:induction false} KnownSourceEdgesAreAdditions<T>(g: Graph.Adjacency<T>, es: seq<(T, T)>)
    requires forall e :: e in es ==> e.0 in g
    ensures AddEdgesRecords(g, es) == EdgeAdditions(es)
    decreases |es|
  {
    if es != [] {
      var init := es[..|es| - 1];
      assert forall e :: e in init ==> e in es;
      KnownSourceEdgesAreAdditions(g, init);
      var e := es[|es| - 1];
      assert e.0 in Graph.AddEdges(g, init);
      var r := Record(EdgeEntry(e.0, e.1), 1);
      assert AddEdgeRecords(Graph.AddEdges(g, init), e.0, e.1) == [r];
      assert AddEdgesRecords(g, es) == AddEdgesRecords(g, init) + [r];
    }
  }

  /**
   * Rebuilding a map from a list of its keys and a list of its edges gives the
   * map back, and writes the +1 record of each listed vertex, then that of each
   * listed edge, in the order listed.
   */
  lemma CloneRebuilds<T>(g: Graph.Adjacency<T>, vs: seq<T>, es: seq<(T, T)>)
    requires Graph.Distinct(vs) && |vs| == |g|
    requires forall v :: v in vs <==> v in g
    requires forall e :: e in es <==> e in Graph.EdgeSet(g)
    requires |es| == |Graph.EdgeSet(g)|
    ensures Graph.AddEdges(Graph.AddVertices(map[], vs), es) == g
    ensures var rs := AddVerticesRecords(map[], vs) + AddEdgesRecords(Graph.AddVertices(map[], vs), es);
      |rs| == |g| + |Graph.EdgeSet(g)| && AllAdditions(rs) && IsRebuildLog(g, rs)
      && (forall i :: 0 <= i < |vs| ==> rs[i] == Record(VertexEntry(vs[i]), 1))
      && (forall j :: 0 <= j < |es| ==> rs[|vs| + j] == Record(EdgeEntry(es[j].0, es[j].1), 1))
  {
    Graph.RebuildFromVerticesAndEdges(g, vs, es);
    AddVerticesRecordsOfNewVertices(map[], vs);
    var g1 := Graph.AddVertices(map[], vs);
    assert forall e :: e in es ==> e.0 in g1;
    AddEdgesRecordsOfKnownSources(g1, es);
    AllAdditionsConcat(AddVerticesRecords(map[], vs), AddEdgesRecords(g1, es));
    ListedAdditions(vs, es);
    ListingsGiveRebuildLog(g, vs, es);
  }

  /**
   * The log of a rebuild of `g`: first the +1 record of every vertex, then the
   * +1 record of every edge, each once (the counts rule out repeats).
   */
  ghost predicate IsRebuildLog<T>(g: Graph.Adjacency<T>, h: seq<Record<T>>) {
    |h| == |g| + |Graph.EdgeSet(g)| && IsVertexLog(g, h[..|g|]) && IsEdgeLog(g, h[|g|..])
  }

  /** Only +1 vertex records of vertices of `g`, and one for each. */
  ghost predicate IsVertexLog<T>(g: Graph.Adjacency<T>, p: seq<Record<T>>) {
    (forall i :: 0 <= i < |p| ==> p[i].value == 1 && p[i].entry.VertexEntry? && p[i].entry.vertex in g)
    && (forall v :: v in g ==> Record(VertexEntry(v), 1) in p)
  }

  /** Only +1 edge records of edges of `g`, and one for each. */
  ghost predicate IsEdgeLog<T>(g: Graph.Adjacency<T>, q: seq<Record<T>>) {
    (forall j :: 0 <= j < |q| ==>
       q[j].value == 1 && q[j].entry.EdgeEntry? && (q[j].entry.source, q[j].entry.dest) in Graph.EdgeSet(g))
    && (forall e :: e in Graph.EdgeSet(g) ==> Record(EdgeEntry(e.0, e.1), 1) in q)
  }

  lemma ListingsGiveRebuildLog<T>(g: Graph.Adjacency<T>, vs: seq<T>, es: seq<(T, T)>)
    requires |vs| == |g| && forall v :: v in vs <==> v in g
    requires |es| == |Graph.EdgeSet(g)| && forall e :: e in es <==> e in Graph.EdgeSet(g)
    ensures IsRebuildLog(g, VertexAdditions(vs) + EdgeAdditions(es))
  {
    var h := VertexAdditions(vs) + EdgeAdditions(es);
    assert h[..|g|] == VertexAdditions(vs);
    assert h[|g|..] == EdgeAdditions(es);
    VertexListingLog(g, vs);
    EdgeListingLog(g, es);
  }

  lemma VertexListingLog<T>(g: Graph.Adjacency<T>, vs: seq<T>)
    requires forall v :: v in vs <==> v in g
    ensures IsVertexLog(g, VertexAdditions(vs))
  {
    var p := VertexAdditions(vs);
    forall v | v in g
      ensures Record(VertexEntry(v), 1) in p
    {
      var i :| 0 <= i < |vs| && vs[i] == v;
      assert p[i] == Record(VertexEntry(v), 1);
    }
  }

  lemma EdgeListingLog<T>(g: Graph.Adjacency<T>, es: seq<(T, T)>)
    requires forall e :: e in es <==> e in Graph.EdgeSet(g)
    ensures IsEdgeLog(g, EdgeAdditions(es))
  {
    var q := EdgeAdditions(es);
    forall e | e in Graph.EdgeSet(g)
      ensures Record(EdgeEntry(e.0, e.1), 1) in q
    {
      var j :| 0 <= j < |es| && es[j] == e;
      assert q[j] == Record(EdgeEntry(e.0, e.1), 1);
    }
    forall j | 0 <= j < |q|
      ensures q[j].entry.EdgeEntry? && (q[j].entry.source, q[j].entry.dest) in Graph.EdgeSet(g)
    {
      assert es[j] in es;
    }
  }

  lemma ListedAdditions<T>(vs: seq<T>, es: seq<(T, T)>)
    ensures var rs := VertexAdditions(vs) + EdgeAdditions(es);
      (forall i :: 0 <= i < |vs| ==> rs[i] == Record(VertexEntry(vs[i]), 1))
      && (forall j :: 0 <= j < |es| ==> rs[|vs| + j] == Record(EdgeEntry(es[j].0, es[j].1), 1))
  {
    ConcatOfListings(VertexAdditions(vs), EdgeAdditions(es), vs, es);
  }

  lemma ConcatOfListings<T>(va: seq<Record<T>>, ea: seq<Record<T>>, vs: seq<T>, es: seq<(T, T)>)
    requires |va| == |vs| && forall i :: 0 <= i < |vs| ==> va[i] == Record(VertexEntry(vs[i]), 1)
    requires |ea| == |es| && forall j :: 0 <= j < |es| ==> ea[j] == Record(EdgeEntry(es[j].0, es[j].1), 1)
    ensures forall i :: 0 <= i < |vs| ==> (va + ea)[i] == Record(VertexEntry(vs[i]), 1)
    ensures forall j :: 0 <= j < |es| ==> (va + ea)[|vs| + j] == Record(EdgeEntry(es[j].0, es[j].1), 1)
  {
  }

  // ---------------------------------------------------------------------------
  // The store
  // ---------------------------------------------------------------------------

  class AdjacencyList<T(==)> {
    var graph: Graph.Adjacency<T>
    var changeLog: ChangeLog<T>

    ghost predicate Valid()
      reads this, changeLog
    {
      changeLog.Valid()
    }

    constructor ()
      ensures Valid() && fresh(changeLog)
      ensures graph == map[] && changeLog.history == []
    {
      graph := map[];
      changeLog := new ChangeLog();
    }

    /** `AdjacencyList(List<Pair<T, T>> edges)`: start empty, then `addEdges`. */
    constructor FromEdges(edges: seq<(T, T)>)
      ensures Valid() && fresh(changeLog)
      ensures graph == Graph.AddEdges(map[], edges)
      ensures changeLog.history == AddEdgesRecords(map[], edges)
    {
      graph := map[];
      changeLog := new ChangeLog();
      new;
      AddEdges(edges);
    }

    /** `AdjacencyList(Collection<T> vertices)`: start empty, then `addVertices`. */
    constructor FromVertices(vertices: seq<T>)
      ensures Valid() && fresh(changeLog)
      ensures graph == Graph.AddVertices(map[], vertices)
      ensures changeLog.history == AddVerticesRecords(map[], vertices)
    {
      graph := map[];
      changeLog := new ChangeLog();
      new;
      AddVertices(vertices);
    }

    method AddVertex(v: T)
      requires Valid()
      modifies this, changeLog
      ensures Valid() && changeLog == old(changeLog)
      ensures graph == Graph.AddVertex(old(graph), v)
      ensures changeLog.history == old(changeLog.history) + AddVertexRecords(old(graph), v)
    {
      if v !in graph {
        graph := graph[v := {}];
        changeLog.AddVertex(v);
      }
    }

    method AddEdge(s: T, d: T)
      requires Valid()
      modifies this, changeLog
      ensures Valid() && changeLog == old(changeLog)
      ensures graph == Graph.AddEdge(old(graph), s, d)
      ensures changeLog.history == old(changeLog.history) + AddEdgeRecords(old(graph), s, d)
    {
      AddVertex(s);
      graph := graph[s := graph[s] + {d}];
      changeLog.AddEdge((s, d));
    }

    method DeleteVertex(v: T)
      requires Valid()
      modifies this, changeLog
      ensures Valid() && changeLog == old(changeLog)
      ensures graph == Graph.DeleteVertex(old(graph), v)
      ensures old(changeLog.history) <= changeLog.history
      ensures IsDeleteVertexLog(old(graph), v, changeLog.history[|old(changeLog.history)|..])
    {
      ghost var g0 := graph;
      ghost var h0 := changeLog.history;
      graph := graph - {v};
      changeLog.DeleteVertex(v);
      ghost var h1 := changeLog.history;
      RemoveIncomingEdges(v);
      ghost var dels := changeLog.history[|h1|..];
      assert IncomingDeletions(g0 - {v}, v, g0.Keys - {v}) == IncomingDeletions(g0, v, g0.Keys);
      assert (set r | r in dels) == IncomingDeletions(g0, v, g0.Keys);
      assert changeLog.history[|h0|..] == [Record(VertexEntry(v), -1)] + dels;
    }

    /** The loop of `deleteVertex`: drop `v` from every remaining neighbour set, logging each removed edge once. */
    method RemoveIncomingEdges(v: T)
      requires Valid() && v !in graph
      modifies this, changeLog
      ensures Valid() && changeLog == old(changeLog)
      ensures graph.Keys == old(graph).Keys
      ensures forall u :: u in graph ==> graph[u] == old(graph)[u] - {v}
      ensures old(changeLog.history) <= changeLog.history
      ensures Graph.Distinct(changeLog.history[|old(changeLog.history)|..])
      ensures forall r ::
        r in changeLog.history[|old(changeLog.history)|..] <==> r in IncomingDeletions(old(graph), v, old(graph).Keys)
    {
      ghost var g0 := graph;
      ghost var h0 := changeLog.history;
      ghost var dels: seq<Record<T>> := [];
      var others := graph.Keys;
      var rest := others;
      while rest != {}
        invariant rest <= others && graph.Keys == others && others == g0.Keys
        invariant Valid() && changeLog == old(changeLog)
        invariant forall u :: u in graph ==> graph[u] == if u in rest then g0[u] else g0[u] - {v}
        invariant changeLog.history == h0 + dels
        invariant Graph.Distinct(dels)
        invariant forall r :: r in dels <==> r in IncomingDeletions(g0, v, others - rest)
        decreases rest
      {
        var u :| u in rest;
        ghost var added := DeleteEdgeRecords(graph, u, v);
        assert Record(EdgeEntry(u, v), -1) !in IncomingDeletions(g0, v, others - rest);
        AdjacencyQueries.DistinctConcat(dels, added);
        IncomingDeletionsAdd(g0, v, others - rest, u);
        assert others - (rest - {u}) == (others - rest) + {u};
        AppendAssoc(h0, dels, added);
        DeleteEdge(u, v);
        dels := dels + added;
        rest := rest - {u};
      }
      assert others - rest == others;
      assert changeLog.history[|h0|..] == dels;
    }

    method DeleteEdge(s: T, d: T)
      requires Valid()
      modifies this, changeLog
      ensures Valid() && changeLog == old(changeLog)
      ensures graph == Graph.DeleteEdge(old(graph), s, d)
      ensures changeLog.history == old(changeLog.history) + DeleteEdgeRecords(old(graph), s, d)
    {
      if s in graph {
        var neighbors := graph[s];
        if d in neighbors {
          graph := graph[s := neighbors - {d}];
          changeLog.DeleteEdge((s, d));
        } else {
          assert neighbors - {d} == neighbors;
        }
      }
    }

    /** `addVertices`: `addVertex` on each element, in order. */
    method AddVertices(vertices: seq<T>)
      requires Valid()
      modifies this, changeLog
      ensures Valid() && changeLog == old(changeLog)
      ensures graph == Graph.AddVertices(old(graph), vertices)
      ensures changeLog.history == old(changeLog.history) + AddVerticesRecords(old(graph), vertices)
    {
      ghost var g0 := graph;
      ghost var h0 := changeLog.history;
      for i := 0 to |vertices|
        invariant Valid() && changeLog == old(changeLog)
        invariant graph == Graph.AddVertices(g0, vertices[..i])
        invariant changeLog.history == h0 + AddVerticesRecords(g0, vertices[..i])
      {
        AddVerticesStep(g0, vertices, i);
        AppendAssoc(h0, AddVerticesRecords(g0, vertices[..i]), AddVertexRecords(graph, vertices[i]));
        AddVertex(vertices[i]);
      }
      assert vertices[..|vertices|] == vertices;
    }

    /** `addEdges`: `addEdge` on each pair, in order. */
    method AddEdges(edges: seq<(T, T)>)
      requires Valid()
      modifies this, changeLog
      ensures Valid() && changeLog == old(changeLog)
      ensures graph == Graph.AddEdges(old(graph), edges)
      ensures changeLog.history == old(changeLog.history) + AddEdgesRecords(old(graph), edges)
    {
      ghost var g0 := graph;
      ghost var h0 := changeLog.history;
      for i := 0 to |edges|
        invariant Valid() && changeLog == old(changeLog)
        invariant graph == Graph.AddEdges(g0, edges[..i])
        invariant changeLog.history == h0 + AddEdgesRecords(g0, edges[..i])
      {
        AddEdgesStep(g0, edges, i);
        AppendAssoc(h0, AddEdgesRecords(g0, edges[..i]), AddEdgeRecords(graph, edges[i].0, edges[i].1));
        AddEdge(edges[i].0, edges[i].1);
      }
      assert edges[..|edges|] == edges;
    }

    /** `deleteVertices`: `deleteVertex` on each element, in order. */
    method DeleteVertices(vertices: seq<T>)
      requires Valid()
      modifies this, changeLog
      ensures Valid() && changeLog == old(changeLog)
      ensures graph == Graph.DeleteVertices(old(graph), vertices)
      ensures old(changeLog.history) <= changeLog.history
      ensures IsDeleteVerticesLog(old(graph), vertices, changeLog.history[|old(changeLog.history)|..])
    {
      ghost var h0 := changeLog.history;
      for i := 0 to |vertices|
        invariant Valid() && changeLog == old(changeLog)
        invariant graph == Graph.DeleteVertices(old(graph), vertices[..i])
        invariant h0 <= changeLog.history
        invariant IsDeleteVerticesLog(old(graph), vertices[..i], changeLog.history[|h0|..])
      {
        ghost var before := changeLog.history;
        assert vertices[..i + 1][..i] == vertices[..i];
        DeleteVertex(vertices[i]);
        ghost var rs := changeLog.history[|h0|..];
        ghost var k := |before| - |h0|;
        assert rs[..k] == before[|h0|..];
        assert rs[k..] == changeLog.history[|before|..];
        assert IsDeleteVerticesLog(old(graph), vertices[..i + 1], rs);
      }
      assert vertices[..|vertices|] == vertices;
    }

    /** `deleteEdges`: `deleteEdge` on each pair, in order. */
    method DeleteEdges(edges: seq<(T, T)>)
      requires Valid()
      modifies this, changeLog
      ensures Valid() && changeLog == old(changeLog)
      ensures graph == Graph.DeleteEdges(old(graph), edges)
      ensures changeLog.history == old(changeLog.history) + DeleteEdgesRecords(old(graph), edges)
    {
      ghost var g0 := graph;
      ghost var h0 := changeLog.history;
      for i := 0 to |edges|
        invariant Valid() && changeLog == old(changeLog)
        invariant graph == Graph.DeleteEdges(g0, edges[..i])
        invariant changeLog.history == h0 + DeleteEdgesRecords(g0, edges[..i])
      {
        DeleteEdgesStep(g0, edges, i);
        AppendAssoc(h0, DeleteEdgesRecords(g0, edges[..i]), DeleteEdgeRecords(graph, edges[i].0, edges[i].1));
        DeleteEdge(edges[i].0, edges[i].1);
      }
      assert edges[..|edges|] == edges;
    }

    // -------------------------------------------------------------------------
    // Queries; none of them changes the store or the log
    // -------------------------------------------------------------------------

    /** `getVertices`: a copy of the key set. */
    function GetVertices(): (vs: set<T>)
      reads this
      ensures vs == graph.Keys
    {
      graph.Keys
    }

    function NumVertices(): (n: nat)
      reads this
      ensures n == |GetVertices()|
    {
      |graph.Keys|
    }

    function IsVertex(v: T): (b: bool)
      reads this
      ensures b <==> v in GetVertices()
    {
      v in graph
    }

    /** `getNeighbors`: a copy of the destination set, empty for a non-vertex. */
    function GetNeighbors(v: T): (ns: set<T>)
      reads this
      ensures !IsVertex(v) ==> ns == {}
      ensures IsVertex(v) ==> ns == graph[v]
    {
      if v in graph then graph[v] else {}
    }

    function IsEdge(s: T, d: T): (b: bool)
      reads this
      ensures b ==> IsVertex(s)
      ensures b <==> d in GetNeighbors(s)
    {
      s in graph && d in graph[s]
    }

    function IsEmpty(): (b: bool)
      reads this
      ensures b <==> NumVertices() == 0
    {
      graph == map[]
    }

    /** The store's own `hasOutgoingEdge`; agrees with the contract's default. */
    function HasOutgoingEdge(v: T): (b: bool)
      reads this
      ensures b <==> Graph.HasOutgoingEdge(graph, v)
      ensures b <==> GetNeighbors(v) != {}
    {
      if v in graph then graph[v] != {} else false
    }

    function IsSink(v: T): (b: bool)
      reads this
      ensures b <==> GetNeighbors(v) == {}
      ensures b <==> Graph.IsSink(graph, v)
    {
      !HasOutgoingEdge(v)
    }

    /** The contract's default `getSinkVertices`: the vertices without outgoing edges. */
    function GetSinkVertices(): (r: set<T>)
      reads this
      ensures r == set v | v in graph && graph[v] == {}
      ensures r == Graph.SinkVertices(graph)
    {
      set v | v in graph && IsSink(v)
    }

    method NumEdges() returns (n: nat)
      ensures n == |Graph.EdgeSet(graph)|
    {
      n := AdjacencyQueries.NumEdges(graph);
    }

    method HasIncomingEdge(t: T) returns (b: bool)
      ensures b <==> exists u :: u in graph && t in graph[u]
    {
      b := Graph.HasIncomingEdge(graph, t);
    }

    /** The contract's default `isSource`: no incoming edge. */
    method IsSource(v: T) returns (b: bool)
      ensures b <==> forall u :: u in graph ==> !Graph.IsEdge(graph, u, v)
      ensures b <==> Graph.IsSource(graph, v)
    {
      var incoming := HasIncomingEdge(v);
      b := !incoming;
    }

    method GetSourceVertices() returns (r: set<T>)
      ensures r == graph.Keys - Graph.Destinations(graph)
      ensures r == Graph.SourceVertices(graph)
    {
      r := AdjacencyQueries.SourceVerticesOf(graph);
    }

    method GetIncidentEdges(v: T) returns (r: Graph.Option<seq<(T, T)>>)
      ensures r.None? <==> !IsVertex(v)
      ensures r.Some? ==> Graph.Distinct(r.value) && |r.value| == |GetNeighbors(v)|
      ensures r.Some? ==> forall e :: e in r.value <==> e.0 == v && IsEdge(v, e.1)
    {
      r := AdjacencyQueries.IncidentEdgesOf(graph, v);
    }

    method GetEdges() returns (es: seq<(T, T)>)
      ensures Graph.Distinct(es)
      ensures forall e :: e in es <==> IsEdge(e.0, e.1)
      ensures |es| == |Graph.EdgeSet(graph)|
    {
      es := AdjacencyQueries.EdgesOf(graph);
    }

    method GetAdjacencyList() returns (c: Graph.Adjacency<T>)
      ensures c.Keys == GetVertices()
      ensures forall u :: u in c ==> c[u] == GetNeighbors(u)
    {
      c := AdjacencyQueries.CopyOf(graph);
    }

    /** A fresh store that has had `addVertices(vertices)` and then `addEdges(edges)` applied. */
    static method Rebuild(vertices: seq<T>, edges: seq<(T, T)>) returns (c: AdjacencyList<T>)
      ensures fresh(c) && fresh(c.changeLog) && c.Valid()
      ensures c.graph == Graph.AddEdges(Graph.AddVertices(map[], vertices), edges)
      ensures c.changeLog.history
        == AddVerticesRecords(map[], vertices) + AddEdgesRecords(Graph.AddVertices(map[], vertices), edges)
    {
      c := new AdjacencyList();
      c.AddVertices(vertices);
      assert [] + AddVerticesRecords(map[], vertices) == AddVerticesRecords(map[], vertices);
      c.AddEdges(edges);
    }

    /**
     * `clone`: a new store built by `addVertices(getVertices())` then
     * `addEdges(getEdges())`. Its log is a fresh one that holds the +1 records
     * of that rebuilding: one per vertex and one per edge.
     */
    method Clone() returns (c: AdjacencyList<T>)
      requires Valid()
      ensures fresh(c) && fresh(c.changeLog) && c.Valid()
      ensures c.graph == graph
      ensures |c.changeLog.history| == |graph| + |Graph.EdgeSet(graph)|
      ensures AllAdditions(c.changeLog.history)
      ensures IsRebuildLog(graph, c.changeLog.history)
    {
      var vertices := AdjacencyQueries.Elements(graph.Keys);
      var edges := GetEdges();
      CloneRebuilds(graph, vertices, edges);
      c := Rebuild(vertices, edges);
    }
  }
}
