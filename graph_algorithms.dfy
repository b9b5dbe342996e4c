/**
 * `topologicalSort`: Kahn's algorithm on a copy of the graph. Vertices are
 * taken from a FIFO queue seeded with the source vertices; each dequeued vertex
 * is appended to the result and its outgoing edges are deleted from the copy,
 * and every neighbour that thereby becomes a source joins the queue. If edges
 * remain at the end the graph has a cycle and the result is absent.
 */
module GraphAlgorithms {
  import opened Graph
  import AdjacencyQueries
  import LegacyAdjacencyList

  /**
   * A topological order of the graph: every vertex (pure sinks included) once,
   * and every edge pointing from an earlier to a later position. A self-loop
   * rules out every order.
   */
  ghost predicate IsTopologicalOrder<T>(g: Adjacency<T>, o: seq<T>) {
    && Distinct(o)
    && Members(o) == AllVertices(g)
    && (forall i, j :: 0 <= i < |o| && 0 <= j < |o| && IsEdge(g, o[i], o[j]) ==> i < j)
  }

  /** The elements of a sequence. */
  function Members<T(==)>(s: seq<T>): set<T> {
    set v | v in s
  }

  /** The vertices with an edge into `w`. */
  function Predecessors<T(==)>(g: Adjacency<T>, w: T): set<T> {
    set u | u in g && w in g[u]
  }

  /** Every source vertex of `g` comes before every other element of `o`. */
  ghost predicate SourcesFirst<T>(g: Adjacency<T>, o: seq<T>) {
    forall i, j :: 0 <= i < |o| && 0 <= j < |o| && o[i] in SourceVertices(g) && o[j] !in SourceVertices(g) ==> i < j
  }

  /** The destinations of the edges that leave `s`. */
  function SuccessorsOf<T(==)>(g: Adjacency<T>, s: set<T>): set<T> {
    set u, w | u in s && u in g && w in g[u] :: w
  }

  /** The predecessor and successor sets agree with the graph's own views of incoming edges and destinations. */
  lemma PredecessorsMatchGraphViews<T>(g: Adjacency<T>, w: T)
    ensures Predecessors(g, w) != {} <==> HasIncoming(g, w)
    ensures Predecessors(g, w) == {} <==> IsSource(g, w)
    ensures SuccessorsOf(g, g.Keys) == Destinations(g)
  {
    if HasIncoming(g, w) {
      var u :| u in g && w in g[u];
      assert u in Predecessors(g, w);
    }
  }

  /** Every vertex of `s` has a predecessor in `s`: no vertex of `s` can come first. */
  ghost predicate ClosedUnderPredecessors<T>(g: Adjacency<T>, s: set<T>) {
    s <= SuccessorsOf(g, s)
  }

  // ---------------------------------------------------------------------------
  // What an order can and cannot be
  // ---------------------------------------------------------------------------

  /** A listing of the vertices in which every predecessor of an element occurs before it is a topological order. */
  lemma PredecessorsFirstIsOrder<T>(g: Adjacency<T>, o: seq<T>)
    requires Distinct(o)
    requires Members(o) == AllVertices(g)
    requires forall j :: 0 <= j < |o| ==> Predecessors(g, o[j]) <= Members(o[..j])
    ensures IsTopologicalOrder(g, o)
  {
    forall i, j | 0 <= i < |o| && 0 <= j < |o| && IsEdge(g, o[i], o[j])
      ensures i < j
    {
      assert o[i] in Predecessors(g, o[j]);
      var k :| 0 <= k < j && o[..j][k] == o[i];
      assert o[k] == o[i];
    }
  }

  /** In a topological order, no element among the first `k` belongs to a predecessor-closed set. */
  lemma {:induction false} ClosedSetNotBefore<T>(g: Adjacency<T>, o: seq<T>, s: set<T>, k: nat)
    requires IsTopologicalOrder(g, o)
    requires ClosedUnderPredecessors(g, s)
    requires k <= |o|
    ensures forall i :: 0 <= i < k ==> o[i] !in s
    decreases k
  {
    if k > 0 {
      ClosedSetNotBefore(g, o, s, k - 1);
      forall u | IsEdge(g, u, o[k - 1])
        ensures u !in s
      {
        assert u in AllVertices(g);
        var i :| 0 <= i < |o| && o[i] == u;
        assert i < k - 1;
      }
    }
  }

  /** A graph with a topological order has no non-empty predecessor-closed set of vertices. */
  lemma OrderLeavesNoClosedSet<T>(g: Adjacency<T>, o: seq<T>, s: set<T>)
    requires IsTopologicalOrder(g, o)
    requires ClosedUnderPredecessors(g, s)
    requires s <= AllVertices(g)
    ensures s == {}
  {
    ClosedSetNotBefore(g, o, s, |o|);
    forall w | w in s
      ensures w in o
    {
    }
  }

  /** A non-empty predecessor-closed set of vertices (a cycle, for instance) rules out every topological order. */
  lemma ClosedSetRulesOutOrders<T>(g: Adjacency<T>, s: set<T>)
    requires s <= AllVertices(g)
    requires ClosedUnderPredecessors(g, s)
    ensures (exists o :: IsTopologicalOrder(g, o)) ==> s == {}
  {
    forall o | IsTopologicalOrder(g, o)
      ensures s == {}
    {
      OrderLeavesNoClosedSet(g, o, s);
    }
  }

  /** A repetition-free sequence that starts with a listing of the sources lists them first. */
  lemma SourcesPrefixFirst<T>(g: Adjacency<T>, q: seq<T>, o: seq<T>)
    requires Distinct(o) && q <= o
    requires Members(q) == SourceVertices(g)
    ensures SourcesFirst(g, o)
  {
    forall i, j | 0 <= i < |o| && 0 <= j < |o| && o[i] in SourceVertices(g) && o[j] !in SourceVertices(g)
      ensures i < j
    {
      var k :| 0 <= k < |q| && q[k] == o[i];
      assert o[k] == o[i];
      forall m | 0 <= m < |q|
        ensures o[m] in SourceVertices(g)
      {
        assert o[m] == q[m];
      }
    }
  }

  // ---------------------------------------------------------------------------
  // The state of the algorithm
  // ---------------------------------------------------------------------------

  /** The copy once every vertex of `done` has had its outgoing edges deleted. */
  function Residual<T(==)>(g0: Adjacency<T>, done: set<T>): Adjacency<T> {
    map u | u in g0 :: if u in done then {} else g0[u]
  }

  /** The copy while the outgoing edges of `cur` are being deleted and `rest` of them are left. */
  function Processing<T(==)>(g0: Adjacency<T>, done: set<T>, cur: T, rest: set<T>): Adjacency<T> {
    map u | u in g0 :: if u == cur then rest else if u in done then {} else g0[u]
  }

  /**
   * What holds of the vertices queued so far (`enq`, the sorted ones followed by
   * the queue) against the copy `cg`: each once, none with an incoming edge left,
   * every other vertex still with one, and every original predecessor of a
   * queued vertex queued before it.
   */
  ghost predicate KahnInvariant<T>(g0: Adjacency<T>, cg: Adjacency<T>, enq: seq<T>) {
    && cg.Keys == g0.Keys
    && Distinct(enq)
    && Members(enq) <= AllVertices(g0)
    && Members(enq) !! Destinations(cg)
    && AllVertices(g0) - Members(enq) <= Destinations(cg)
    && (forall j :: 0 <= j < |enq| ==> Predecessors(g0, enq[j]) <= Members(enq[..j]))
  }

  /** The queue starts with the source vertices, in any order. */
  lemma KahnStart<T>(g0: Adjacency<T>, queue: seq<T>)
    requires Distinct(queue)
    requires Members(queue) == g0.Keys - Destinations(g0)
    ensures Residual(g0, {}) == g0
    ensures KahnInvariant(g0, g0, queue)
  {
    forall j | 0 <= j < |queue|
      ensures Predecessors(g0, queue[j]) == {}
    {
      assert queue[j] !in Destinations(g0);
    }
  }

  /** Dequeuing `cur`: the copy is `cur`'s processing state with all its edges left. */
  lemma BeginVertex<T>(g0: Adjacency<T>, done: set<T>, cur: T)
    requires cur !in done
    ensures Residual(g0, done) == Processing(g0, done + {cur}, cur, Neighbors(g0, cur))
  {
  }

  /**
   * Dequeuing the head `cur` of the queue and appending it to `sorted`: it was
   * not sorted yet, and the copy is its processing state with all its edges left.
   */
  lemma Dequeue<T>(g0: Adjacency<T>, sorted: seq<T>, queue: seq<T>)
    requires queue != []
    requires KahnInvariant(g0, Residual(g0, Members(sorted)), sorted + queue)
    ensures queue[0] !in Members(sorted) && queue[0] in AllVertices(g0)
    ensures Members(sorted + [queue[0]]) == Members(sorted) + {queue[0]}
    ensures (sorted + [queue[0]]) + queue[1..] == sorted + queue
    ensures Residual(g0, Members(sorted))
      == Processing(g0, Members(sorted + [queue[0]]), queue[0], Neighbors(g0, queue[0]))
  {
    var cur := queue[0];
    assert (sorted + queue)[|sorted|] == cur;
    forall k | 0 <= k < |sorted|
      ensures sorted[k] != cur
    {
      assert (sorted + queue)[k] == sorted[k];
    }
    assert (sorted + [cur]) + queue[1..] == sorted + queue;
    BeginVertex(g0, Members(sorted), cur);
  }

  /** With no outgoing edge of `cur` left, the copy is the residual of `done`. */
  lemma EndVertex<T>(g0: Adjacency<T>, done: set<T>, cur: T)
    requires cur in done
    ensures Processing(g0, done, cur, {}) == Residual(g0, done)
  {
  }

  /**
   * Deleting the edge from `cur` to `n` keeps the invariant, with `n` queued
   * exactly when it is left without incoming edges.
   */
  lemma DeleteStep<T>(g0: Adjacency<T>, done: set<T>, cur: T, rest: set<T>, n: T, enq: seq<T>)
    requires cur in done && done <= Members(enq)
    requires n in rest && rest <= Neighbors(g0, cur)
    requires KahnInvariant(g0, Processing(g0, done, cur, rest), enq)
    ensures DeleteEdge(Processing(g0, done, cur, rest), cur, n) == Processing(g0, done, cur, rest - {n})
    ensures var cg := Processing(g0, done, cur, rest - {n});
      && (IsSource(cg, n) ==> n !in enq && KahnInvariant(g0, cg, enq + [n]))
      && (!IsSource(cg, n) ==> KahnInvariant(g0, cg, enq))
  {
    var before := Processing(g0, done, cur, rest);
    var cg := Processing(g0, done, cur, rest - {n});
    assert cur in g0;
    assert n in Destinations(before);
    forall v | v in AllVertices(g0) - Members(enq) && v != n
      ensures v in Destinations(cg)
    {
      var u :| u in before && v in before[u];
      assert v in cg[u];
    }
    assert Destinations(cg) <= Destinations(before);
    if IsSource(cg, n) {
      var enq' := enq + [n];
      assert n in AllVertices(g0);
      assert Members(enq') == Members(enq) + {n};
      AdjacencyQueries.DistinctConcat(enq, [n]);
      forall u | u in Predecessors(g0, n)
        ensures u in Members(enq)
      {
        assert u in cg;
      }
      forall j | 0 <= j < |enq'|
        ensures Predecessors(g0, enq'[j]) <= Members(enq'[..j])
      {
        if j < |enq| {
          assert enq'[..j] == enq[..j];
        } else {
          assert enq'[..j] == enq;
        }
      }
      assert n !in Destinations(cg);
    } else {
      assert n in Destinations(cg);
    }
  }

  /** With no edge left in the copy, the queued vertices are a topological order. */
  lemma KahnComplete<T>(g0: Adjacency<T>, cg: Adjacency<T>, sorted: seq<T>)
    requires KahnInvariant(g0, cg, sorted)
    requires EdgeSet(cg) == {}
    ensures IsTopologicalOrder(g0, sorted)
  {
    DestinationsAreEdgeTargets(cg);
    assert (set e | e in EdgeSet(cg) :: e.1) == {};
    forall v | v in AllVertices(g0)
      ensures v in Members(sorted)
    {
      assert v !in Destinations(cg);
    }
    PredecessorsFirstIsOrder(g0, sorted);
  }

  /** With an edge left in the copy, the unsorted vertices form a predecessor-closed set: there is no order. */
  lemma KahnStuck<T>(g0: Adjacency<T>, sorted: seq<T>)
    requires KahnInvariant(g0, Residual(g0, Members(sorted)), sorted)
    requires EdgeSet(Residual(g0, Members(sorted))) != {}
    ensures forall o :: !IsTopologicalOrder(g0, o)
  {
    var cg := Residual(g0, Members(sorted));
    var s := AllVertices(g0) - Members(sorted);
    var e :| e in EdgeSet(cg);
    assert e.0 in s;
    forall w | w in s
      ensures w in SuccessorsOf(g0, s)
    {
      var u :| u in cg && w in cg[u];
      assert u in s && IsEdge(g0, u, w);
    }
    ClosedSetRulesOutOrders(g0, s);
  }

  // ---------------------------------------------------------------------------
  // The algorithm
  // ---------------------------------------------------------------------------

  /**
   * The inner loop of the sort, for the vertex `cur` just appended to `sorted`:
   * delete each of its outgoing edges from the copy and queue every neighbour
   * that is left without incoming edges.
   */
  method DeleteOutgoingEdges<T(==)>(cloned: LegacyAdjacencyList.AdjacencyList<T>, cur: T, queue: seq<T>,
                                    ghost g0: Adjacency<T>, ghost sorted: seq<T>)
    returns (queue': seq<T>)
    requires cur in sorted
    requires cloned.graph == Processing(g0, Members(sorted), cur, Neighbors(g0, cur))
    requires KahnInvariant(g0, cloned.graph, sorted + queue)
    modifies cloned
    ensures cloned.graph == Residual(g0, Members(sorted))
    ensures KahnInvariant(g0, cloned.graph, sorted + queue')
    ensures queue <= queue'
  {
    ghost var done := Members(sorted);
    var neighbors := cloned.GetNeighbors(cur);
    var rest := neighbors;
    queue' := queue;
    while rest != {}
      invariant rest <= neighbors && neighbors == Neighbors(g0, cur)
      invariant cloned.graph == Processing(g0, done, cur, rest)
      invariant KahnInvariant(g0, cloned.graph, sorted + queue')
      invariant queue <= queue'
      decreases rest
    {
      var n :| n in rest;
      assert done <= Members(sorted + queue');
      DeleteStep(g0, done, cur, rest, n, sorted + queue');
      cloned.DeleteEdge(cur, n);
      var isSource := cloned.IsSource(n);
      if isSource {
        assert sorted + (queue' + [n]) == (sorted + queue') + [n];
        queue' := queue' + [n];
      }
      rest := rest - {n};
    }
    EndVertex(g0, done, cur);
  }

  /**
   * The outer loop of the sort: dequeue a vertex, append it to the result and
   * delete its outgoing edges, until the queue is empty.
   */
  method DrainQueue<T(==)>(cloned: LegacyAdjacencyList.AdjacencyList<T>, queue: seq<T>, ghost g0: Adjacency<T>)
    returns (sorted: seq<T>)
    requires cloned.graph == g0
    requires KahnInvariant(g0, g0, queue)
    modifies cloned
    ensures cloned.graph == Residual(g0, Members(sorted))
    ensures KahnInvariant(g0, cloned.graph, sorted)
    ensures queue <= sorted
  {
    ghost var all := AllVertices(g0);
    sorted := [];
    var pending := queue;
    assert Residual(g0, {}) == g0;
    assert sorted + pending == queue;
    while pending != []
      invariant cloned.graph == Residual(g0, Members(sorted))
      invariant KahnInvariant(g0, cloned.graph, sorted + pending)
      invariant queue <= sorted + pending
      decreases all - Members(sorted)
    {
      var cur := pending[0];
      Dequeue(g0, sorted, pending);
      pending := pending[1..];
      sorted := sorted + [cur];
      pending := DeleteOutgoingEdges(cloned, cur, pending, g0, sorted);
    }
    assert sorted + pending == sorted;
  }

  /**
   * The result is present exactly when the graph has a topological order, and
   * then it is one. The caller's graph is not changed: the algorithm works on
   * a clone.
   */
  method TopologicalSort<T(==)>(graph: LegacyAdjacencyList.AdjacencyList<T>) returns (r: Option<seq<T>>)
    ensures r.Some? ==> IsTopologicalOrder(graph.graph, r.value)
    ensures r.Some? ==> SourcesFirst(graph.graph, r.value)
    ensures r.None? ==> forall o :: !IsTopologicalOrder(graph.graph, o)
  {
    ghost var g0 := graph.graph;
    var cloned := graph.Clone();
    var sources := cloned.GetSourceVertices();
    var queue := AdjacencyQueries.Elements(sources);
    KahnStart(g0, queue);
    var sorted := DrainQueue(cloned, queue, g0);
    var remaining := cloned.GetEdges();
    assert graph.graph == g0;
    if remaining == [] {
      KahnComplete(g0, cloned.graph, sorted);
      SourceVerticesAreKeysMinusDestinations(g0);
      SourcesPrefixFirst(g0, queue, sorted);
      r := Some(sorted);
    } else {
      assert remaining[0] in Graph.EdgeSet(cloned.graph);
      KahnStuck(g0, sorted);
      r := None;
    }
  }
}
