/**
 * The two graphs the sort is discussed on: the demo edge list of
 * `GraphAlgorithms.main`, a DAG with sources 3, 5 and 7, and the two-cycle
 * 1 -> 2 -> 1, which has no source at all.
 */
module SortScenarios {
  import opened Graph
  import opened GraphAlgorithms
  import LegacyAdjacencyList

  /** The edge list of the demo. */
  function DemoEdges(): seq<(int, int)> {
    [(3, 8), (3, 10), (5, 11), (7, 8), (7, 11), (8, 9), (11, 2), (11, 9), (11, 10)]
  }

  function DemoAdjacency(): Adjacency<int> {
    map[3 := {8, 10}, 5 := {11}, 7 := {8, 11}, 8 := {9}, 11 := {2, 9, 10}]
  }

  /** One order the demo admits: the sources, then the rest level by level. */
  function DemoOrder(): seq<int> {
    [3, 5, 7, 8, 11, 2, 9, 10]
  }

  lemma DemoSourcesOf()
    ensures SourcesOf(DemoEdges()) == DemoAdjacency().Keys
  {
    var es := DemoEdges();
    assert es[0].0 == 3 && es[2].0 == 5 && es[3].0 == 7 && es[5].0 == 8 && es[6].0 == 11;
  }

  lemma DemoDestinationsFrom(u: int)
    ensures DestinationsFrom(DemoEdges(), u) == Neighbors(DemoAdjacency(), u)
  {
    forall w | w in Neighbors(DemoAdjacency(), u)
      ensures w in DestinationsFrom(DemoEdges(), u)
    {
      assert (u, w) in DemoEdges();
    }
  }

  /** A store built from an edge list alone has the edges' sources as keys and their targets as neighbours. */
  lemma BuiltFromEdges(es: seq<(int, int)>, d: Adjacency<int>)
    requires SourcesOf(es) == d.Keys
    requires forall u :: u in d ==> DestinationsFrom(es, u) == d[u]
    ensures AddEdges(map[], es) == d
  {
    var g := AddEdges(map[], es);
    forall u | u in g
      ensures g[u] == d[u]
    {
      assert Neighbors(map[], u) == {};
    }
    SameAdjacency(g, d);
  }

  /** Building a store from the demo edges gives this map; 2, 9 and 10 are pure sinks, not keys. */
  lemma DemoGraph()
    ensures AddEdges(map[], DemoEdges()) == DemoAdjacency()
  {
    DemoSourcesOf();
    forall u | u in DemoAdjacency()
      ensures DestinationsFrom(DemoEdges(), u) == DemoAdjacency()[u]
    {
      DemoDestinationsFrom(u);
    }
    BuiltFromEdges(DemoEdges(), DemoAdjacency());
  }

  lemma DemoSinks()
    ensures Destinations(DemoAdjacency()) == {2, 8, 9, 10, 11}
  {
    var d := DemoAdjacency();
    assert 8 in d[3] && 10 in d[3] && 11 in d[5] && 9 in d[8] && 2 in d[11];
  }

  /** Its vertices, pure sinks included. */
  lemma DemoVertices()
    ensures AllVertices(DemoAdjacency()) == {2, 3, 5, 7, 8, 9, 10, 11}
  {
    DemoSinks();
  }

  /** Its sources: the keys nothing points into. */
  lemma DemoSources()
    ensures SourceVertices(DemoAdjacency()) == {3, 5, 7}
  {
    DemoKeys();
    DemoSinks();
    SourcesOfKnownGraph(DemoAdjacency(), {3, 5, 7, 8, 11}, {2, 8, 9, 10, 11});
  }

  lemma DemoKeys()
    ensures DemoAdjacency().Keys == {3, 5, 7, 8, 11}
  {
  }

  /** The sources of a store whose keys and destinations are known. */
  lemma SourcesOfKnownGraph(g: Adjacency<int>, keys: set<int>, dests: set<int>)
    requires g.Keys == keys && Destinations(g) == dests
    ensures SourceVertices(g) == keys - dests
  {
    SourceVerticesAreKeysMinusDestinations(g);
  }

  lemma DemoOrderMembers()
    ensures Distinct(DemoOrder())
    ensures Members(DemoOrder()) == {2, 3, 5, 7, 8, 9, 10, 11}
  {
  }

  lemma DemoOrderRespectsEdges()
    ensures forall i, j :: 0 <= i < |DemoOrder()| && 0 <= j < |DemoOrder()| && IsEdge(DemoAdjacency(), DemoOrder()[i], DemoOrder()[j]) ==> i < j
  {
  }

  /** The demo has a topological order, so the sort cannot report a cycle on it. */
  lemma DemoHasOrder()
    ensures IsTopologicalOrder(DemoAdjacency(), DemoOrder())
  {
    DemoVertices();
    DemoOrderMembers();
    DemoOrderRespectsEdges();
  }

  function CycleEdges(): seq<(int, int)> {
    [(1, 2), (2, 1)]
  }

  function CycleAdjacency(): Adjacency<int> {
    map[1 := {2}, 2 := {1}]
  }

  lemma CycleGraph()
    ensures AddEdges(map[], CycleEdges()) == CycleAdjacency()
  {
    var es := CycleEdges();
    assert es[0].0 == 1 && es[1].0 == 2;
    forall u | u in CycleAdjacency()
      ensures DestinationsFrom(es, u) == CycleAdjacency()[u]
    {
      forall w | w in CycleAdjacency()[u]
        ensures w in DestinationsFrom(es, u)
      {
        assert (u, w) in es;
      }
    }
    BuiltFromEdges(es, CycleAdjacency());
  }

  /** The two-cycle: no source vertex, and no topological order. */
  lemma CycleHasNoOrder()
    ensures SourceVertices(CycleAdjacency()) == {}
    ensures forall o :: !IsTopologicalOrder(CycleAdjacency(), o)
  {
    var g := CycleAdjacency();
    assert 1 in g[2] && 2 in g[1];
    assert {1, 2} <= SuccessorsOf(g, {1, 2});
    ClosedSetRulesOutOrders(g, {1, 2});
  }

  /** In the demo, putting the sources first means putting 3, 5 and 7 ahead of every other vertex. */
  lemma DemoSourcesFirst(o: seq<int>)
    requires SourcesFirst(DemoAdjacency(), o)
    ensures forall i, j :: 0 <= i < |o| && 0 <= j < |o| && o[i] in {3, 5, 7} && o[j] !in {3, 5, 7} ==> i < j
  {
    DemoSources();
  }

  /** Sorting the demo store succeeds, with 3, 5 and 7 ahead of every other vertex. */
  method SortDemo() returns (r: Option<seq<int>>)
    ensures r.Some? && IsTopologicalOrder(DemoAdjacency(), r.value)
    ensures forall i, j :: 0 <= i < |r.value| && 0 <= j < |r.value| && r.value[i] in {3, 5, 7} && r.value[j] !in {3, 5, 7} ==> i < j
  {
    DemoGraph();
    var g := new LegacyAdjacencyList.AdjacencyList.FromEdges(DemoEdges());
    assert g.graph == DemoAdjacency();
    r := TopologicalSort(g);
    DemoHasOrder();
    assert r.Some?;
    DemoSourcesFirst(r.value);
  }

  /** Sorting the two-cycle store yields no result. */
  method SortCycle() returns (r: Option<seq<int>>)
    ensures r.None?
  {
    var g := new LegacyAdjacencyList.AdjacencyList.FromEdges(CycleEdges());
    CycleGraph();
    CycleHasNoOrder();
    r := TopologicalSort(g);
  }
}
