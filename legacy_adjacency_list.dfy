/**
 * The earlier adjacency-list store, without a change log: the same map from
 * vertex to destination set and the same mutation rules, but `deleteVertex`
 * removes the vertex from every neighbour set silently. This is the store the
 * topological sort works on.
 */
module LegacyAdjacencyList {
  import Graph
  import AdjacencyQueries

  class AdjacencyList<T(==)> {
    var graph: Graph.Adjacency<T>

    constructor ()
      ensures graph == map[]
    {
      graph := map[];
    }

    /** `AdjacencyList(List<Pair<T, T>> edges)`: start empty, then `addEdges`. */
    constructor FromEdges(edges: seq<(T, T)>)
      ensures graph == Graph.AddEdges(map[], edges)
    {
      graph := map[];
      new;
      AddEdges(edges);
    }

    /** `AdjacencyList(Collection<T> vertices)`: start empty, then `addVertices`. */
    constructor FromVertices(vertices: seq<T>)
      ensures graph == Graph.AddVertices(map[], vertices)
    {
      graph := map[];
      new;
      AddVertices(vertices);
    }

    method AddVertex(v: T)
      modifies this
      ensures graph == Graph.AddVertex(old(graph), v)
    {
      if v !in graph {
        graph := graph[v := {}];
      }
    }

    method AddEdge(s: T, d: T)
      modifies this
      ensures graph == Graph.AddEdge(old(graph), s, d)
    {
      if s !in graph {
        graph := graph[s := {}];
      }
      graph := graph[s := graph[s] + {d}];
    }

    method DeleteVertex(v: T)
      modifies this
      ensures graph == Graph.DeleteVertex(old(graph), v)
    {
      ghost var g0 := graph;
      graph := graph - {v};
      var others := graph.Keys;
      var rest := others;
      while rest != {}
        invariant rest <= others && graph.Keys == others && others == g0.Keys - {v}
        invariant forall u :: u in graph ==> graph[u] == if u in rest then g0[u] else g0[u] - {v}
        decreases rest
      {
        var u :| u in rest;
        graph := graph[u := graph[u] - {v}];
        rest := rest - {u};
      }
    }

    method DeleteEdge(s: T, d: T)
      modifies this
      ensures graph == Graph.DeleteEdge(old(graph), s, d)
    {
      if s in graph {
        graph := graph[s := graph[s] - {d}];
      }
    }

    /** `addVertices`: `addVertex` on each element, in order. */
    method AddVertices(vertices: seq<T>)
      modifies this
      ensures graph == Graph.AddVertices(old(graph), vertices)
    {
      for i := 0 to |vertices|
        invariant graph == Graph.AddVertices(old(graph), vertices[..i])
      {
        assert vertices[..i + 1][..i] == vertices[..i];
        AddVertex(vertices[i]);
      }
      assert vertices[..|vertices|] == vertices;
    }

    /** `addEdges`: `addEdge` on each pair, in order. */
    method AddEdges(edges: seq<(T, T)>)
      modifies this
      ensures graph == Graph.AddEdges(old(graph), edges)
    {
      for i := 0 to |edges|
        invariant graph == Graph.AddEdges(old(graph), edges[..i])
      {
        assert edges[..i + 1][..i] == edges[..i];
        AddEdge(edges[i].0, edges[i].1);
      }
      assert edges[..|edges|] == edges;
    }

    /** `deleteVertices`: `deleteVertex` on each element, in order. */
    method DeleteVertices(vertices: seq<T>)
      modifies this
      ensures graph == Graph.DeleteVertices(old(graph), vertices)
    {
      for i := 0 to |vertices|
        invariant graph == Graph.DeleteVertices(old(graph), vertices[..i])
      {
        assert vertices[..i + 1][..i] == vertices[..i];
        DeleteVertex(vertices[i]);
      }
      assert vertices[..|vertices|] == vertices;
    }

    /** `deleteEdges`: `deleteEdge` on each pair, in order. */
    method DeleteEdges(edges: seq<(T, T)>)
      modifies this
      ensures graph == Graph.DeleteEdges(old(graph), edges)
    {
      for i := 0 to |edges|
        invariant graph == Graph.DeleteEdges(old(graph), edges[..i])
      {
        assert edges[..i + 1][..i] == edges[..i];
        DeleteEdge(edges[i].0, edges[i].1);
      }
      assert edges[..|edges|] == edges;
    }

    // -------------------------------------------------------------------------
    // Queries; none of them changes the store
    // -------------------------------------------------------------------------

    /** `getVertices`: a copy of the key set. */
    function GetVertices(): (vs: set<T>)
      reads this
      ensures vs == graph.Keys
    {
      graph.Keys
    }

    function NumVertices(): (n: nat)
      reads this
      ensures n == |GetVertices()|
    {
      |graph.Keys|
    }

    function IsVertex(v: T): (b: bool)
      reads this
      ensures b <==> v in GetVertices()
    {
      v in graph
    }

    /** `getNeighbors`: a copy of the destination set, empty for a non-vertex. */
    function GetNeighbors(v: T): (ns: set<T>)
      reads this
      ensures !IsVertex(v) ==> ns == {}
      ensures IsVertex(v) ==> ns == graph[v]
    {
      if v in graph then graph[v] else {}
    }

    function IsEdge(s: T, d: T): (b: bool)
      reads this
      ensures b ==> IsVertex(s)
      ensures b <==> d in GetNeighbors(s)
    {
      s in graph && d in graph[s]
    }

    function IsEmpty(): (b: bool)
      reads this
      ensures b <==> NumVertices() == 0
    {
      graph == map[]
    }

    function HasOutgoingEdge(v: T): (b: bool)
      reads this
      ensures b <==> Graph.HasOutgoingEdge(graph, v)
      ensures b <==> GetNeighbors(v) != {}
    {
      if v in graph then graph[v] != {} else false
    }

    /** The contract's default `isSink`: no outgoing edge. */
    function IsSink(v: T): (b: bool)
      reads this
      ensures b <==> GetNeighbors(v) == {}
      ensures b <==> Graph.IsSink(graph, v)
    {
      !HasOutgoingEdge(v)
    }

    /** The contract's default `getSinkVertices`. */
    function GetSinkVertices(): (r: set<T>)
      reads this
      ensures r == set v | v in graph && graph[v] == {}
      ensures r == Graph.SinkVertices(graph)
    {
      set v | v in graph && IsSink(v)
    }

    /** `numEdges`: the sum of the neighbour-set sizes. */
    method NumEdges() returns (n: nat)
      ensures n == |Graph.EdgeSet(graph)|
    {
      n := AdjacencyQueries.NumEdges(graph);
    }

    method HasIncomingEdge(t: T) returns (b: bool)
      ensures b <==> exists u :: u in graph && t in graph[u]
    {
      b := Graph.HasIncomingEdge(graph, t);
    }

    /** The contract's default `isSource`: no incoming edge. */
    method IsSource(v: T) returns (b: bool)
      ensures b <==> forall u :: u in graph ==> !Graph.IsEdge(graph, u, v)
      ensures b <==> Graph.IsSource(graph, v)
    {
      var incoming := HasIncomingEdge(v);
      b := !incoming;
    }

    method GetSourceVertices() returns (r: set<T>)
      ensures r == graph.Keys - Graph.Destinations(graph)
      ensures r == Graph.SourceVertices(graph)
    {
      r := AdjacencyQueries.SourceVerticesOf(graph);
    }

    method GetIncidentEdges(v: T) returns (r: Graph.Option<seq<(T, T)>>)
      ensures r.None? <==> !IsVertex(v)
      ensures r.Some? ==> Graph.Distinct(r.value) && |r.value| == |GetNeighbors(v)|
      ensures r.Some? ==> forall e :: e in r.value <==> e.0 == v && IsEdge(v, e.1)
    {
      r := AdjacencyQueries.IncidentEdgesOf(graph, v);
    }

    method GetEdges() returns (es: seq<(T, T)>)
      ensures Graph.Distinct(es)
      ensures forall e :: e in es <==> IsEdge(e.0, e.1)
      ensures forall e :: e in es <==> e in Graph.EdgeSet(graph)
      ensures |es| == |Graph.EdgeSet(graph)|
    {
      es := AdjacencyQueries.EdgesOf(graph);
    }

    method GetAdjacencyList() returns (c: Graph.Adjacency<T>)
      ensures c.Keys == GetVertices()
      ensures forall u :: u in c ==> c[u] == GetNeighbors(u)
    {
      c := AdjacencyQueries.CopyOf(graph);
    }

    /** `clone`: a new store built by `addVertices(getVertices())` then `addEdges(getEdges())`. */
    method Clone() returns (c: AdjacencyList<T>)
      ensures fresh(c) && c.graph == graph
    {
      var vertices := AdjacencyQueries.Elements(graph.Keys);
      var edges := GetEdges();
      Graph.RebuildFromVerticesAndEdges(graph, vertices, edges);
      c := new AdjacencyList();
      c.AddVertices(vertices);
      c.AddEdges(edges);
    }
  }
}
