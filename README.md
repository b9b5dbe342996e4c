# graphj in Dafny

This is a verified model of the core of graphj, a small in-process library for directed graphs. The model covers:

- the default methods of the `Graph` interface;
- the change log, which records every mutation as a (entry, +1/-1) record in a ring buffer of 1000 slots;
- the adjacency-list store that mirrors its mutations into that log;
- the older adjacency-list store without a log;
- the topological sort (Kahn's algorithm) that runs on the older store.

A graph is a map from each vertex to the set of its destinations. The keys are the vertices that were added explicitly or as the source of an edge. A destination that was never added is a pure sink and is not a key.

Files and modules:

- `graph.dfy` (`Graph`): the view of a graph that the defaults of `Graph.java` work on. It holds:
  - the queries (sources, sinks, incoming and outgoing edges);
  - the effect of the four mutators on the map;
  - the bulk folds `addVertices`/`addEdges`/`deleteVertices`/`deleteEdges`;
  - the lemmas that relate them.
- `adjacency_queries.dfy` (`AdjacencyQueries`): the query loops that both stores share. These are `numEdges`, `getSourceVertices`, `getIncidentEdges`, `getEdges` and `getAdjacencyList`.
- `change_log.dfy` (`ChangeLogs`): the class `ChangeLog`. It has the buffer `log` and the counter `logId`, and a ghost `history` of every record ever written. `Valid` says that the buffer is always the current epoch's slice of that history. The module also holds the aggregate, `hasChangedSince` and `netChangeSince`, and what they mean in terms of the records written since a checkpoint.
- `core_adjacency_list.dfy` (`CoreAdjacencyList`): the store with a change log.
  - Every mutator states both its new map and the exact records it appends.
  - Helper functions give those records as a function of the map before the call.
- `legacy_adjacency_list.dfy` (`LegacyAdjacencyList`): the store without a log.
- `graph_algorithms.dfy` (`GraphAlgorithms`): `topologicalSort`. It is proved as follows:
  - a present result is a topological order that lists the initial sources first;
  - an absent result means the graph has no topological order at all.
- `sort_scenarios.dfy` (`SortScenarios`): two example graphs.
  - The demo edge list of `GraphAlgorithms.main`: the sort succeeds, and 3, 5 and 7 come first.
  - The two-cycle 1 -> 2 -> 1: the sort returns nothing.

Inputs and outputs use Dafny values:

- Apache Commons `Pair` is a tuple.
- A log entry is the datatype `Entry`: `VertexEntry(v)` for `(v, null)` and `EdgeEntry(s, d)` for an edge.
- A `null` return is `Option.None`.
- Java's `Integer` arithmetic is unbounded `int`/`nat`.
- Hash-set and hash-map iteration is a nondeterministic choice (`:|`). Every proof holds for any iteration order.

Three behaviours of the code worth knowing:

- `clone()` of the logging store builds the copy with `addVertices` and `addEdges`. Its log therefore holds one +1 record per vertex and per edge, not an empty log.
- Inside the checkpoint's epoch, `hasChangedSince` answers true only when every aggregated entry is nonzero (`allMatch`); past the next reset it answers true without looking at the records. So a single entry that cancels out hides other changes (`ChangeLogs.CancelledEntryMasksChange`).
- A checkpoint taken on a positive multiple of 1000, with nothing written after it, scans the whole previous epoch instead of nothing (`ChangeLogs.CheckpointOnEpochBoundary`). So `hasChangedSince(getLogId())` can then be false and `netChangeSince(getLogId())` nonzero; after an epoch of insert/delete pairs of one entry it is false (`ChangeLogs.EpochOfCancellingPairs`). A checkpoint anywhere else with nothing written after it answers true and 0 (`ChangeLogs.NothingWrittenSince`).

## Model

| member | source | states |
|---|---|---|
| Graph.HasIncomingEdge | src/main/java/com/fignewtons/core/Graph.java:64-71 | the scan answers true exactly when some vertex lists the target among its neighbours |
| Graph.SourceIffNoIncomingEdge | src/main/java/com/fignewtons/core/Graph.java:47-50 | `isSource(v)` holds exactly when no vertex has an edge into `v`; the default `getSourceVertices` is exactly the vertices without an incoming edge, isolated ones included |
| Graph.HasOutgoingEdge | src/main/java/com/fignewtons/core/Graph.java:73-75 | `hasOutgoingEdge(v)` holds exactly when some edge of the graph starts at `v` |
| Graph.IsSource | src/main/java/com/fignewtons/core/Graph.java:77-79 | `isSource(v)` holds exactly when no edge of the graph ends at `v` |
| Graph.IsSink | src/main/java/com/fignewtons/core/Graph.java:81-83 | `isSink(v)` holds exactly when no edge of the graph starts at `v` |
| Graph.SourceVertices | src/main/java/com/fignewtons/core/Graph.java:47-50 | the default `getSourceVertices` holds exactly the vertices no vertex has an edge into, isolated ones included |
| Graph.SinkVertices | src/main/java/com/fignewtons/core/Graph.java:52-54 | the default `getSinkVertices` holds exactly the vertices whose neighbour set is empty |
| Graph.SinkIffNoOutgoingEdge | src/main/java/com/fignewtons/core/Graph.java:52-54 | `isSink(v)` holds exactly when `v` has no outgoing edge; `getSinkVertices` is exactly the vertices whose neighbour set is empty |
| Graph.SourceVerticesAreKeysMinusDestinations | src/main/java/com/fignewtons/core/Graph.java:47-50 | the filtered vertex set equals the keys minus the union of all neighbour sets, and an isolated vertex is a source |
| Graph.AddVertex | src/AdjacencyList.java:30-35 | the new vertex joins with an empty neighbour set, a present vertex leaves the map unchanged, and all other neighbour sets are kept |
| Graph.AddEdge | src/AdjacencyList.java:37-43 | afterwards `isVertex(s)` and `isEdge(s, d)` hold, `s`'s set gains exactly `d`, and every other neighbour set is unchanged |
| Graph.DeleteVertex | src/AdjacencyList.java:45-52 | the vertex is no key and appears in no neighbour set, and every other neighbour set only loses `v` |
| Graph.DeleteEdge | src/AdjacencyList.java:54-59 | afterwards `isEdge(s, d)` is false, only `s`'s set loses `d`, and a non-vertex source changes nothing |
| Graph.AddVertexIdempotent | src/AdjacencyList.java:30-35 | adding a vertex twice is the same as adding it once |
| Graph.AddEdgeIdempotent | src/AdjacencyList.java:37-43 | adding an edge twice is the same as adding it once, because neighbours are a set |
| Graph.AddThenDeleteEdgeRestores | src/main/java/com/fignewtons/core/AdjacencyList.java:41-66 | adding an absent edge and deleting it again leaves the same edges and edge count; the map itself comes back when the source was a vertex, and otherwise only gains the source as an isolated vertex |
| Graph.AddVertices | src/main/java/com/fignewtons/core/Graph.java:15-19 | applying `addVertex` along the list adds exactly the listed vertices, each with empty neighbours if new, and keeps every existing neighbour set |
| Graph.AddEdges | src/main/java/com/fignewtons/core/Graph.java:21-29 | applying `addEdge` along the list adds the edge sources as vertices and gives each vertex its old neighbours plus the listed destinations |
| Graph.DeleteVertices | src/main/java/com/fignewtons/core/Graph.java:31-35 | applying `deleteVertex` along the list removes every listed vertex as key and as neighbour, and nothing else |
| Graph.DeleteEdges | src/main/java/com/fignewtons/core/Graph.java:37-45 | applying `deleteEdge` along the list keeps the keys and removes exactly the listed destinations from each source's set |
| Graph.RebuildFromVerticesAndEdges | src/AdjacencyList.java:150-156 | adding a listing of the vertices and then a listing of the edges to an empty store gives back the original map |
| Graph.EdgeCountIsNumberOfEdges | src/AdjacencyList.java:66-69 | the sum of the neighbour-set sizes equals the number of distinct edges |
| AdjacencyQueries.Elements | src/main/java/com/fignewtons/core/AdjacencyList.java:157-163 | a listing of a set: each element once, nothing else, as many entries as the set has elements |
| AdjacencyQueries.NumEdges | src/main/java/com/fignewtons/core/AdjacencyList.java:73-76 | the loop's sum is the sum of all neighbour-set sizes, which is the number of edges |
| AdjacencyQueries.SourceVerticesOf | src/main/java/com/fignewtons/core/AdjacencyList.java:118-126 | removing each neighbour set from the keys leaves exactly the source vertices of the interface default |
| AdjacencyQueries.IncidentEdgesOf | src/main/java/com/fignewtons/core/AdjacencyList.java:129-138 | absent exactly for a non-vertex; otherwise each pair `(v, n)` for a neighbour `n` once, and nothing else |
| AdjacencyQueries.EdgesOf | src/main/java/com/fignewtons/core/AdjacencyList.java:140-147 | each edge of the map exactly once, and as many pairs as `numEdges` |
| AdjacencyQueries.CopyOf | src/main/java/com/fignewtons/core/AdjacencyList.java:149-155 | the copy has the same vertices and each vertex's neighbour set, so it equals the map |
| ChangeLogs.EpochStart | src/main/java/com/fignewtons/core/ChangeLog.java:32-39 | the first id of the current epoch is a multiple of 1000 at most `logId`, and the buffer holds 1 to 1000 records of it |
| ChangeLogs.BufferSize | src/main/java/com/fignewtons/core/ChangeLog.java:18-39 | the buffer never exceeds `LOG_SIZE`, and it is full exactly when `logId` is a positive multiple of 1000 |
| ChangeLogs.BufferAfterAppend | src/main/java/com/fignewtons/core/ChangeLog.java:32-39 | after the reset check the buffer holds exactly `logId % 1000` records, so the insertion at that index appends; the buffer is cleared exactly when a positive multiple of 1000 is written |
| ChangeLogs.Combine | src/main/java/com/fignewtons/core/ChangeLog.java:70-90 | a value equal to the aggregate leaves it unchanged; on -1..1 and a unit value the result is the sum clamped to -1..1 |
| ChangeLogs.AggregateIsClampedSum | src/main/java/com/fignewtons/core/ChangeLog.java:59-93 | the aggregate has one key per entry in the window, each value is that entry's running sum clamped at every step, and it stays in -1..1 |
| ChangeLogs.WindowIsRecordsSince | src/main/java/com/fignewtons/core/ChangeLog.java:59-65 | while the counter has not passed the checkpoint's next reset, the scanned records are exactly those written since the checkpoint |
| ChangeLogs.OverwrittenMeansChanged | src/main/java/com/fignewtons/core/ChangeLog.java:103-105 | past the next reset the checkpoint's records are gone and `hasChangedSince` is true whatever was logged |
| ChangeLogs.CheckpointOnEpochBoundary | src/main/java/com/fignewtons/core/ChangeLog.java:59-65 | a checkpoint equal to a positive multiple of 1000, taken before that record is written, scans the whole previous epoch |
| ChangeLogs.AlternatingAggregate | src/main/java/com/fignewtons/core/ChangeLog.java:59-93 | n insert/delete pairs of one entry take 2n slots and aggregate to that entry alone, at 0 |
| ChangeLogs.PairAfterCancelled | src/main/java/com/fignewtons/core/ChangeLog.java:59-93 | a +1/-1 pair of an entry after records that leave it at 0 or absent leaves the aggregate as that entry alone, at 0 |
| ChangeLogs.EpochOfCancellingPairs | src/main/java/com/fignewtons/core/ChangeLog.java:59-112 | after a whole epoch of insert/delete pairs of one entry, `hasChangedSince(getLogId())` is false and `netChangeSince(getLogId())` is 0 |
| ChangeLogs.Aggregate | src/main/java/com/fignewtons/core/ChangeLog.java:59-93 | the left-to-right fold of the scanned records: at most one key per record, and the last record's entry is always a key |
| ChangeLogs.HasChangedOn | src/main/java/com/fignewtons/core/ChangeLog.java:103-108 | `hasChangedSince` on a buffer and a counter: true past the checkpoint's next reset, and true when nothing is scanned |
| ChangeLogs.NetChangeOn | src/main/java/com/fignewtons/core/ChangeLog.java:110-112 | `netChangeSince` on a buffer: 0 when nothing is scanned, and for unit records between minus and plus the number of distinct entries scanned |
| ChangeLogs.HasChangedMeaning | src/main/java/com/fignewtons/core/ChangeLog.java:103-108 | inside the checkpoint's epoch, `hasChangedSince` is true exactly when every entry written since has a nonzero clamped sum, except a checkpoint on a positive multiple of 1000 with nothing written after it, which scans the previous epoch |
| ChangeLogs.NothingWrittenSince | src/main/java/com/fignewtons/core/ChangeLog.java:103-112 | with nothing logged since the checkpoint, `hasChangedSince` is true and `netChangeSince` is 0, except a checkpoint on a positive multiple of 1000 with nothing written after it |
| ChangeLogs.CancellingPair | src/main/test/java/com.fignewtons.core/ChangeLogTest.java:26-56 | inserting then deleting an entry, or deleting then inserting it, gives no change and no net change; the only exception is a checkpoint in the epoch's last slot, where the answer is the conservative true |
| ChangeLogs.OppositeEdgesStayChanged | src/main/test/java/com.fignewtons.core/ChangeLogTest.java:58-65 | adding `(a, b)` and deleting `(b, a)` nets to zero yet counts as a change, because directed edges are separate entries; this holds for every checkpoint slot, the epoch's last included |
| ChangeLogs.CancelledEntryMasksChange | src/main/java/com/fignewtons/core/ChangeLog.java:103-112 | adding a and b and deleting a gives a net change of 1, yet `hasChangedSince` answers false |
| ChangeLogs.ChangeLog.constructor | src/main/java/com/fignewtons/core/ChangeLog.java:21-30 | a new log has an empty buffer, counter 0 and no history |
| ChangeLogs.ChangeLog.Reset | src/main/java/com/fignewtons/core/ChangeLog.java:28-30 | the buffer becomes empty |
| ChangeLogs.ChangeLog.Append | src/main/java/com/fignewtons/core/ChangeLog.java:32-39 | one record is written, the counter grows by exactly 1, and the buffer stays the current epoch's records |
| ChangeLogs.ChangeLog.AddVertex | src/main/java/com/fignewtons/core/ChangeLog.java:41-44 | appends exactly a +1 vertex record |
| ChangeLogs.ChangeLog.DeleteVertex | src/main/java/com/fignewtons/core/ChangeLog.java:46-49 | appends exactly a -1 vertex record |
| ChangeLogs.ChangeLog.AddEdge | src/main/java/com/fignewtons/core/ChangeLog.java:51-53 | appends exactly a +1 edge record |
| ChangeLogs.ChangeLog.DeleteEdge | src/main/java/com/fignewtons/core/ChangeLog.java:55-57 | appends exactly a -1 edge record |
| ChangeLogs.ChangeLog.GetAggregateLog | src/main/java/com/fignewtons/core/ChangeLog.java:59-93 | the loop builds the aggregate of the records from the checkpoint's slot to the end of the buffer |
| ChangeLogs.ChangeLog.GetLogId | src/main/java/com/fignewtons/core/ChangeLog.java:95-97 | the counter is the number of records ever written |
| ChangeLogs.ChangeLog.GetLogSize | src/main/java/com/fignewtons/core/ChangeLog.java:99-101 | the buffer size is at most 1000, and it is `(logId - 1) % 1000 + 1` once something was written |
| ChangeLogs.ChangeLog.HasChangedSince | src/main/java/com/fignewtons/core/ChangeLog.java:103-108 | true past the next reset, otherwise true exactly when every aggregated value is nonzero |
| ChangeLogs.ChangeLog.NetChangeSince | src/main/java/com/fignewtons/core/ChangeLog.java:110-112 | the sum of the aggregated values |
| CoreAdjacencyList.AddVertexTwiceLogsOnce | src/main/java/com/fignewtons/core/AdjacencyList.java:33-38 | a new vertex logs one record and a present one logs none; a second `addVertex` changes neither the map nor the log |
| CoreAdjacencyList.RepeatedAddEdgeStillLogs | src/main/java/com/fignewtons/core/AdjacencyList.java:41-45 | re-adding an existing edge leaves the map unchanged but still logs a +1 edge record |
| CoreAdjacencyList.AddThenDeleteEdgeRoundTrip | src/main/java/com/fignewtons/core/AdjacencyList.java:41-66 | adding an absent edge from an existing vertex and deleting it restores the map and logs exactly +1 then -1 for that edge, so `hasChangedSince` for the checkpoint before is false, outside the epoch's last slot, where `CancellingPair` gives the conservative true |
| CoreAdjacencyList.DeleteVertexLogLength | src/main/java/com/fignewtons/core/AdjacencyList.java:48-55 | `deleteVertex` writes one vertex record plus one record per vertex that had an edge into it |
| CoreAdjacencyList.AddVerticesRecordsOfNewVertices | src/main/java/com/fignewtons/core/AdjacencyList.java:33-38 | adding distinct new vertices writes, for each listed vertex in order, its +1 vertex record and nothing else: the i-th record is that of `vs[i]` |
| CoreAdjacencyList.AddEdgesRecordsOfKnownSources | src/main/java/com/fignewtons/core/AdjacencyList.java:41-45 | adding edges whose sources are vertices writes, for each listed edge in order, its +1 edge record and nothing else: the i-th record is that of `es[i]` |
| CoreAdjacencyList.CloneRebuilds | src/main/java/com/fignewtons/core/AdjacencyList.java:157-163 | rebuilding from the vertex listing and the edge listing gives back the map; its log is the +1 record of `vs[i]` at index i, then the +1 record of `es[j]` at index `|vs| + j`, so every vertex and then every edge is logged once |
| CoreAdjacencyList.VertexAdditions | src/main/java/com/fignewtons/core/AdjacencyList.java:33-38 | the reference log of adding new vertices: one record per listed vertex, the i-th being the +1 record of `vs[i]` |
| CoreAdjacencyList.EdgeAdditions | src/main/java/com/fignewtons/core/AdjacencyList.java:41-45 | the reference log of adding edges from known sources: one record per listed edge, the i-th being the +1 record of `es[i]` |
| CoreAdjacencyList.NewVerticesAreAdditions | src/main/java/com/fignewtons/core/AdjacencyList.java:33-38 | the records of `addVertices` on distinct new vertices equal the reference log |
| CoreAdjacencyList.KnownSourceEdgesAreAdditions | src/main/java/com/fignewtons/core/AdjacencyList.java:41-45 | the records of `addEdges` on known sources equal the reference log |
| CoreAdjacencyList.ListedAdditions | src/main/java/com/fignewtons/core/AdjacencyList.java:157-163 | in the rebuild log, index i holds the +1 record of the i-th vertex listed and index `|vs| + j` that of the j-th edge listed |
| CoreAdjacencyList.ListingsGiveRebuildLog | src/main/java/com/fignewtons/core/AdjacencyList.java:157-163 | from complete listings, the rebuild log is the +1 record of every vertex and then the +1 record of every edge |
| CoreAdjacencyList.VertexListingLog | src/main/java/com/fignewtons/core/AdjacencyList.java:157-160 | the log of a complete vertex listing holds only +1 records of vertices, and one for each vertex |
| CoreAdjacencyList.EdgeListingLog | src/main/java/com/fignewtons/core/AdjacencyList.java:157-161 | the log of a complete edge listing holds only +1 records of edges, and one for each edge |
| CoreAdjacencyList.AdjacencyList.constructor | src/main/java/com/fignewtons/core/AdjacencyList.java:18-22 | an empty map with a fresh, empty log |
| CoreAdjacencyList.AdjacencyList.FromEdges | src/main/java/com/fignewtons/core/AdjacencyList.java:24-26 | the map and the log after `addEdges` on an empty store |
| CoreAdjacencyList.AdjacencyList.FromVertices | src/main/java/com/fignewtons/core/AdjacencyList.java:28-30 | the map and the log after `addVertices` on an empty store |
| CoreAdjacencyList.AdjacencyList.AddVertex | src/main/java/com/fignewtons/core/AdjacencyList.java:33-38 | the map is updated as `addVertex` prescribes, and a +1 vertex record is logged only for a new vertex |
| CoreAdjacencyList.AdjacencyList.AddEdge | src/main/java/com/fignewtons/core/AdjacencyList.java:41-45 | the map gains the edge, and the log gains the source's vertex record when it was new, then always a +1 edge record |
| CoreAdjacencyList.AdjacencyList.DeleteVertex | src/main/java/com/fignewtons/core/AdjacencyList.java:48-55 | the vertex is gone from keys and neighbour sets; the log gains a -1 vertex record (even for an absent vertex), then each removed incoming edge's -1 record exactly once, and nothing for the vertex's own outgoing edges |
| CoreAdjacencyList.AdjacencyList.RemoveIncomingEdges | src/main/java/com/fignewtons/core/AdjacencyList.java:52-54 | the loop removes the vertex from every remaining neighbour set and logs each removed edge exactly once |
| CoreAdjacencyList.AdjacencyList.DeleteEdge | src/main/java/com/fignewtons/core/AdjacencyList.java:58-66 | the edge is gone, and a -1 edge record is logged only when the edge existed |
| CoreAdjacencyList.AdjacencyList.AddVertices | src/main/java/com/fignewtons/core/Graph.java:15-19 | map and log are those of `addVertex` on each element in order |
| CoreAdjacencyList.AdjacencyList.AddEdges | src/main/java/com/fignewtons/core/Graph.java:21-29 | map and log are those of `addEdge` on each pair in order |
| CoreAdjacencyList.AdjacencyList.DeleteVertices | src/main/java/com/fignewtons/core/Graph.java:31-35 | the map of `deleteVertex` on each element in order, and a log made of one `deleteVertex` block per element |
| CoreAdjacencyList.AdjacencyList.DeleteEdges | src/main/java/com/fignewtons/core/Graph.java:37-45 | map and log are those of `deleteEdge` on each pair in order |
| CoreAdjacencyList.AdjacencyList.GetVertices | src/main/java/com/fignewtons/core/AdjacencyList.java:113-116 | the key set |
| CoreAdjacencyList.AdjacencyList.NumVertices | src/main/java/com/fignewtons/core/AdjacencyList.java:68-71 | the number of vertices |
| CoreAdjacencyList.AdjacencyList.IsVertex | src/main/java/com/fignewtons/core/AdjacencyList.java:78-81 | membership in the vertex set |
| CoreAdjacencyList.AdjacencyList.GetNeighbors | src/main/java/com/fignewtons/core/AdjacencyList.java:108-111 | the destination set, or empty for a non-vertex |
| CoreAdjacencyList.AdjacencyList.IsEdge | src/main/java/com/fignewtons/core/AdjacencyList.java:83-86 | an edge needs a vertex source and is a membership in its neighbours |
| CoreAdjacencyList.AdjacencyList.IsEmpty | src/main/java/com/fignewtons/core/AdjacencyList.java:88-91 | empty exactly when there are no vertices |
| CoreAdjacencyList.AdjacencyList.HasOutgoingEdge | src/main/java/com/fignewtons/core/AdjacencyList.java:103-106 | agrees with the interface default: the neighbour set is non-empty |
| CoreAdjacencyList.AdjacencyList.IsSink | src/main/java/com/fignewtons/core/Graph.java:81-83 | exactly `!hasOutgoingEdge`: no neighbours |
| CoreAdjacencyList.AdjacencyList.GetSinkVertices | src/main/java/com/fignewtons/core/Graph.java:52-54 | the vertices without outgoing edges |
| CoreAdjacencyList.AdjacencyList.NumEdges | src/main/java/com/fignewtons/core/AdjacencyList.java:73-76 | the number of distinct edges |
| CoreAdjacencyList.AdjacencyList.HasIncomingEdge | src/main/java/com/fignewtons/core/AdjacencyList.java:93-101 | true exactly when some vertex lists the target as a neighbour |
| CoreAdjacencyList.AdjacencyList.IsSource | src/main/java/com/fignewtons/core/Graph.java:77-79 | exactly `!hasIncomingEdge`: no vertex has an edge into it |
| CoreAdjacencyList.AdjacencyList.GetSourceVertices | src/main/java/com/fignewtons/core/AdjacencyList.java:118-126 | the keys minus all neighbour sets, which are the interface's source vertices |
| CoreAdjacencyList.AdjacencyList.GetIncidentEdges | src/main/java/com/fignewtons/core/AdjacencyList.java:129-138 | absent exactly for a non-vertex, otherwise each outgoing edge once |
| CoreAdjacencyList.AdjacencyList.GetEdges | src/main/java/com/fignewtons/core/AdjacencyList.java:140-147 | every edge exactly once, as many as `numEdges` |
| CoreAdjacencyList.AdjacencyList.GetAdjacencyList | src/main/java/com/fignewtons/core/AdjacencyList.java:149-155 | a map with the same vertices and neighbour sets |
| CoreAdjacencyList.AdjacencyList.Rebuild | src/main/java/com/fignewtons/core/AdjacencyList.java:157-163 | a fresh store after `addVertices` then `addEdges`, with the log of those calls |
| CoreAdjacencyList.AdjacencyList.Clone | src/main/java/com/fignewtons/core/AdjacencyList.java:157-163 | a fresh store with its own log and the same map; its log holds the +1 record of every vertex, each once, and then the +1 record of every edge, each once |
| LegacyAdjacencyList.AdjacencyList.constructor | src/AdjacencyList.java:16-20 | an empty map |
| LegacyAdjacencyList.AdjacencyList.FromEdges | src/AdjacencyList.java:22-24 | the map after `addEdges` on an empty store |
| LegacyAdjacencyList.AdjacencyList.FromVertices | src/AdjacencyList.java:26-28 | the map after `addVertices` on an empty store |
| LegacyAdjacencyList.AdjacencyList.AddVertex | src/AdjacencyList.java:30-35 | the map is updated as `addVertex` prescribes |
| LegacyAdjacencyList.AdjacencyList.AddEdge | src/AdjacencyList.java:37-43 | the map is updated as `addEdge` prescribes, with the source added when absent |
| LegacyAdjacencyList.AdjacencyList.DeleteVertex | src/AdjacencyList.java:45-52 | the map is updated as `deleteVertex` prescribes, so no edge into the vertex remains |
| LegacyAdjacencyList.AdjacencyList.DeleteEdge | src/AdjacencyList.java:54-59 | the map is updated as `deleteEdge` prescribes |
| LegacyAdjacencyList.AdjacencyList.AddVertices | src/main/java/com/fignewtons/core/Graph.java:15-19 | `addVertex` on each element in order |
| LegacyAdjacencyList.AdjacencyList.AddEdges | src/main/java/com/fignewtons/core/Graph.java:21-29 | `addEdge` on each pair in order |
| LegacyAdjacencyList.AdjacencyList.DeleteVertices | src/main/java/com/fignewtons/core/Graph.java:31-35 | `deleteVertex` on each element in order |
| LegacyAdjacencyList.AdjacencyList.DeleteEdges | src/main/java/com/fignewtons/core/Graph.java:37-45 | `deleteEdge` on each pair in order |
| LegacyAdjacencyList.AdjacencyList.GetVertices | src/AdjacencyList.java:106-109 | the key set |
| LegacyAdjacencyList.AdjacencyList.NumVertices | src/AdjacencyList.java:61-64 | the number of vertices |
| LegacyAdjacencyList.AdjacencyList.IsVertex | src/AdjacencyList.java:71-74 | membership in the vertex set |
| LegacyAdjacencyList.AdjacencyList.GetNeighbors | src/AdjacencyList.java:101-104 | the destination set, or empty for a non-vertex |
| LegacyAdjacencyList.AdjacencyList.IsEdge | src/AdjacencyList.java:76-79 | an edge needs a vertex source and is a membership in its neighbours |
| LegacyAdjacencyList.AdjacencyList.IsEmpty | src/AdjacencyList.java:81-84 | empty exactly when there are no vertices |
| LegacyAdjacencyList.AdjacencyList.HasOutgoingEdge | src/AdjacencyList.java:96-99 | agrees with the interface default: the neighbour set is non-empty |
| LegacyAdjacencyList.AdjacencyList.IsSink | src/main/java/com/fignewtons/core/Graph.java:81-83 | exactly `!hasOutgoingEdge`: no neighbours |
| LegacyAdjacencyList.AdjacencyList.GetSinkVertices | src/main/java/com/fignewtons/core/Graph.java:52-54 | the vertices without outgoing edges |
| LegacyAdjacencyList.AdjacencyList.NumEdges | src/AdjacencyList.java:66-69 | the number of distinct edges |
| LegacyAdjacencyList.AdjacencyList.HasIncomingEdge | src/AdjacencyList.java:86-94 | true exactly when some vertex lists the target as a neighbour |
| LegacyAdjacencyList.AdjacencyList.IsSource | src/main/java/com/fignewtons/core/Graph.java:77-79 | exactly `!hasIncomingEdge`: no vertex has an edge into it |
| LegacyAdjacencyList.AdjacencyList.GetSourceVertices | src/AdjacencyList.java:111-119 | the keys minus all neighbour sets, which are the interface's source vertices |
| LegacyAdjacencyList.AdjacencyList.GetIncidentEdges | src/AdjacencyList.java:122-131 | absent exactly for a non-vertex, otherwise each outgoing edge once |
| LegacyAdjacencyList.AdjacencyList.GetEdges | src/AdjacencyList.java:133-140 | exactly the edges of the map, each once |
| LegacyAdjacencyList.AdjacencyList.GetAdjacencyList | src/AdjacencyList.java:142-148 | a map with the same vertices and neighbour sets |
| LegacyAdjacencyList.AdjacencyList.Clone | src/AdjacencyList.java:150-156 | a fresh store with the same map |
| GraphAlgorithms.PredecessorsFirstIsOrder | src/GraphAlgorithms.java:17-29 | a listing of all vertices in which every predecessor comes earlier is a topological order |
| GraphAlgorithms.ClosedSetNotBefore | src/GraphAlgorithms.java:31-36 | no vertex of a predecessor-closed set can appear anywhere in a topological order |
| GraphAlgorithms.PredecessorsMatchGraphViews | src/main/java/com/fignewtons/core/Graph.java:64-79 | a vertex has predecessors exactly when `hasIncomingEdge` holds, none exactly when `isSource` holds, and the successors of all vertices are the union of the neighbour sets |
| GraphAlgorithms.ClosedSetRulesOutOrders | src/GraphAlgorithms.java:31-36 | a non-empty predecessor-closed set of vertices, a cycle for instance, rules out every topological order |
| GraphAlgorithms.SourcesPrefixFirst | src/GraphAlgorithms.java:17-21 | a repetition-free output that starts with the initial queue of sources lists every source before every other vertex |
| GraphAlgorithms.KahnStart | src/GraphAlgorithms.java:14-17 | the queue seeded with the source vertices satisfies the loop invariant on the untouched copy |
| GraphAlgorithms.Dequeue | src/GraphAlgorithms.java:20-21 | the dequeued vertex is a vertex that was not output before |
| GraphAlgorithms.DeleteStep | src/GraphAlgorithms.java:23-27 | deleting one outgoing edge keeps the invariant; the neighbour is queued exactly when its last incoming edge was just deleted, and then it was never queued before |
| GraphAlgorithms.KahnComplete | src/GraphAlgorithms.java:31-32 | with no edge left in the copy, the output is a topological order of the original graph |
| GraphAlgorithms.KahnStuck | src/GraphAlgorithms.java:33-36 | with an edge left, the vertices never output form a predecessor-closed set, so the graph has no topological order |
| GraphAlgorithms.DeleteOutgoingEdges | src/GraphAlgorithms.java:23-28 | the inner loop deletes all outgoing edges of the dequeued vertex from the copy and only extends the queue |
| GraphAlgorithms.DrainQueue | src/GraphAlgorithms.java:18-29 | the outer loop terminates, each vertex is output at most once, and the copy ends with the output vertices' edges deleted |
| GraphAlgorithms.TopologicalSort | src/GraphAlgorithms.java:10-37 | a present result is a topological order of the input that lists the initial sources first; an absent result means that no topological order exists; the input graph is not modified |
| SortScenarios.DemoGraph | src/GraphAlgorithms.java:42-54 | the store built from the demo edges has keys 3, 5, 7, 8, 11 with their destination sets |
| SortScenarios.DemoVertices | src/GraphAlgorithms.java:42-54 | the demo graph has vertices 2, 3, 5, 7, 8, 9, 10, 11 |
| SortScenarios.DemoSources | src/GraphAlgorithms.java:42-54 | the demo graph's source vertices are 3, 5 and 7 |
| SortScenarios.SourcesOfKnownGraph | src/main/java/com/fignewtons/core/Graph.java:47-50 | a store's source vertices are its keys minus the vertices its edges point into |
| SortScenarios.DemoHasOrder | src/GraphAlgorithms.java:42-54 | 3, 5, 7, 8, 11, 2, 9, 10 is a topological order of the demo |
| SortScenarios.SortDemo | src/GraphAlgorithms.java:42-56 | sorting the demo succeeds, and 3, 5 and 7 come before every other vertex |
| SortScenarios.CycleGraph | src/GraphAlgorithms.java:31-36 | the edges (1, 2) and (2, 1) give the map 1 -> {2}, 2 -> {1} |
| SortScenarios.CycleHasNoOrder | src/GraphAlgorithms.java:31-36 | the two-cycle has no source vertex and no topological order |
| SortScenarios.SortCycle | src/GraphAlgorithms.java:31-36 | sorting the two-cycle yields no result |

## Left out

- `hasChanged()` and `save()` of the logging store are not modelled. They call `changeLog.hasChanged()` and `changeLog.flush()`, which `ChangeLog` does not define.
- The graph-level `hasChangedSince` and `getChangeId` that the last change-log test calls are not modelled, because the interface does not declare them. The log's own `getLogId` and `hasChangedSince` are modelled instead.
- `getGraphAsPair` and the `Pair` overloads `isEdge(Pair)`, `addEdge(Pair)` and `deleteEdge(Pair)` are not separate members. A pair is a tuple, and the bulk folds take tuples directly.
- `ChangeLogs.ChangeLog.HasChangedSince` and `NetChangeSince` take a `nat` checkpoint: the model does not cover negative checkpoints. Ids only come from `getLogId`. In Java a negative checkpoint that is not a multiple of 1000 throws once `getAggregateLog` is reached, and one past the next reset returns true before any indexing.
- Null vertices are not modelled. Java's hash containers accept `null`, and `addEdge(s, null)` logs `Pair.of(s, null)`, the same entry as the vertex record of `s`. The `Entry` datatype keeps the two apart.
- Java `Integer` overflow of `logId` and of the edge count is not modelled; the counters are unbounded.
- Java compares the aggregate and the new value as `Integer` objects (`!=`). The model compares them by value: the boxed values -1..1 are cached, so the two agree.
- Hash-map and hash-set iteration order is not fixed. Every loop picks its next element nondeterministically, so the proofs hold for every order, but the model does not reproduce Java's actual order.
- Aliasing is not modelled. Getters that return copies are values, and the stores hold the map as a value, so a clone cannot share a neighbour set with its original.
- Concurrency is out of scope; the library is single-threaded.
- `GraphAlgorithms.main` only prints; its edge list is used as the scenario in `SortScenarios`.
- `GraphClassification` declares signatures and enums with nothing to verify.
- `src/Graph.java`, the interface the older store implements, is not part of this model. The older store uses the defaults of `src/main/java/com/fignewtons/core/Graph.java` in its place.
- `CoreAdjacencyList.AdjacencyList.DeleteVertices` states its log as a relation: one `deleteVertex` block per element, in order. It does not give a single sequence, because each block's order follows the map's iteration.
- `CoreAdjacencyList.AdjacencyList.DeleteVertex` states the removed incoming edges' records as a set, each once, and not their order, which follows the map's iteration.
- `CoreAdjacencyList.AdjacencyList.Clone` states which records the copy's log holds (every vertex's +1 record once, then every edge's once), not their order within each part, which depends on the iteration order of `getVertices` and `getEdges`. `CloneRebuilds` fixes that order for given listings.
- `LegacyAdjacencyList.AdjacencyList.Clone` states equality of value maps. It does not state the absence of shared mutable sets as a separate claim, since values cannot be shared.
- Who calls `TopologicalSort` across stores is not modelled: it takes the older store, the one the algorithm's source file runs against, and not an arbitrary `Graph` implementation.
