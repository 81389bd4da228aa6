# complex_networks Graph: a verified model

This project models the `Graph` class of complex_networks in Dafny. The class
is an undirected graph. It holds:

- `links`, one neighbour list per vertex id, indexed by id;
- `vertices`, the set of registered vertex ids;
- `edges`, the set of recorded edges, where an edge compares equal to its own reverse.

The model covers these operations:

- the edge-list loader (pass 1 sizes `links`, pass 2 records every line);
- `setVertexSize`, `shrinkMemory` and `addVertex`;
- both `addEdge` variants:
  - the bounds-checking one that the loader uses;
  - the registering one, which calls `addVertex` on both endpoints;
- `getVertexSize` and `getEdgeSize`;
- `isOneComponent`, a scan for a seed followed by a tri-colour breadth-first
  traversal and a final scan.

Modules:

- `Entities`: vertices, edges, and edge equality.
- `Faults`: the thrown errors, as values.
- `Adjacency`: the neighbour lists as a value. It defines the consistency
  invariant:
  - every id is in range;
  - each edge is recorded in both lists, as often in one as in the other;
  - the edge set matches the lists.
- `Reachability`: walks, reachability, and what "one component" means.
- `Connectivity`: the seed scan, the traversal, and the final scan, as loops.
- `Loader`: the two passes of the loader over lines that have already been parsed.
- `Graphs`: the `Graph` class. Its methods change `links`, `vertices` and
  `edges` in place and keep `Valid()`.
- `Scenarios`: two small loaded graphs and what the connectivity check answers for them.

A thrown `runtime_error` or `out_of_range` is modelled as an error value:

| Fault | thrown by |
|---|---|
| `ShrinkRejected` | `setVertexSize` when asked to shrink |
| `NoVertex` | `isOneComponent` on an empty `links` |
| `SeedOutOfRange` | `isOneComponent` when the seed scan runs past the end |

"One component" means that every pair of vertices with at least one neighbour
is joined by a walk. Isolated ids take no part.

When `links` is non-empty but every list is empty, the seed scan runs off the
end of `links` and `links.at` throws `out_of_range`. The model follows this
code and returns `Err(SeedOutOfRange)`. Answering "one component" here would
be a reasonable alternative.

## Model

| member | source | states |
|---|---|---|
| Entities.KeyOf | general_graph/graph.h:53-59 | the key for an ordered id pair is the unordered pair with the smaller id first; it holds exactly the two ids |
| Entities.VertexEquals | general_graph/graph.h:48-51 | vertex equality holds exactly when the two vertices are the same, i.e. have the same id |
| Entities.EdgeEquals | general_graph/graph.h:53-59 | edge equality holds exactly when the two edges have the same unordered endpoint pair |
| Entities.EdgeEqualsIffSameEndpoints | general_graph/graph.h:53-59 | edge equality holds exactly when the two edges have the same endpoint sets |
| Entities.EdgeEqualsIsEquivalence | general_graph/graph.h:53-59 | an edge equals its reverse; edge equality is reflexive, symmetric and transitive |
| Entities.EdgeOfIdsAsWritten | general_graph/graph.h:24-25 | the two-id edge constructor as written keeps the start id and reduces the end id below 2^32; the end id survives exactly when it is already below 2^32 |
| Entities.EdgeOfIdsAsWrittenLosesEndId | general_graph/graph.h:24-25 | as written, the line 0 -> 2^32 turns into the self-loop at 0, and that edge is not equal to the edge 0 -> 2^32 |
| Entities.EdgeOfIds | general_graph/graph.h:24-25 | the corrected constructor keeps both ids, so the edge's unordered pair is the pair of the line |
| Entities.VertexHash | general_graph/graph.h:65-71 | `std::hash<Vertex>` is the id itself as a 64-bit `size_t`; an id below 2^64 hashes to itself (properties of the edge hash built on it: Entities.EdgeHashAsWrittenSeparatesReverse, Entities.InsertAsWrittenKeepsBothOrientations) |
| Entities.EdgeHashAsWritten | general_graph/graph.h:73-81 | `std::hash<Edge>` is the start hash xor the end hash shifted left by one: its low bit is the start hash's low bit, and xor-ing out the shifted end hash gives back the start hash (properties: Entities.EdgeHashAsWrittenSeparatesReverse, Entities.InsertAsWrittenKeepsBothOrientations) |
| Entities.Reversed | general_graph/graph.h:53-59 | an edge with its endpoints swapped is equal to it and has the same unordered pair |
| Entities.EdgeHashAsWrittenSeparatesReverse | general_graph/graph.h:73-81 | the edge hash as written differs between an edge and its reverse whenever the two endpoint hashes differ, although operator== calls the two edges equal |
| Entities.InsertAsWritten | util/graph.cc:81 | `edges.insert`, as libstdc++ and libc++ implement it, keeps every stored edge and adds at most the new one; afterwards an element with the same hash that is equal to the edge is stored; the set is unchanged exactly when such an element was already there |
| Entities.InsertAsWrittenKeepsBothOrientations | util/graph.cc:81 | as written, inserting 0-1 and then the equal edge 1-0 stores two elements |
| Entities.KeyIgnoresOrientation | util/graph.cc:81 | keyed by unordered pair, an edge and its reverse have one key: inserting both adds one element, or none if the pair was already there |
| Adjacency.Empties | general_graph/graph.h:129 | after resizing from nothing there are n slots, and every list is empty |
| Adjacency.Grown | general_graph/graph.h:129 | a resize to n slots keeps every existing list unchanged, and every new list is empty |
| Adjacency.Linked | util/graph.cc:79-80 | recording an edge keeps the number of slots |
| Adjacency.LinkedAt | util/graph.cc:79-80 | recording {u, v} appends v to the back of u's list and u to the back of v's list; every other list is unchanged |
| Adjacency.EmptiesConsistent | general_graph/graph.h:129 | empty lists of any size satisfy the invariant with the empty edge set |
| Adjacency.GrownConsistent | general_graph/graph.h:123-130 | a resize keeps the invariant with the same edge set |
| Adjacency.LinkedConsistent | util/graph.cc:79-81 | recording an edge in both lists and adding its unordered pair to the edge set keeps the invariant |
| Adjacency.NeighbourBack | util/graph.cc:79-80 | when the lists are consistent, y in x's list implies that x occurs in y's list |
| Adjacency.EdgeRecordedBothWays | util/graph.cc:79-81 | every pair in the edge set appears in both endpoints' lists |
| Adjacency.VerticesWithinCapacity | general_graph/graph.h:141-149 | the registered ids are all below n, so there are at most n of them |
| Adjacency.NoEdgesIffNoNeighbours | general_graph/graph.h:96 | the edge set is empty exactly when every neighbour list is empty |
| Reachability.ReachableStep | util/graph.cc:117-121 | a walk to c extends to any neighbour of c |
| Reachability.ReachableTrans | util/graph.cc:109-123 | reachability is transitive |
| Reachability.WalkReversed | util/graph.cc:79-80 | a walk can be reversed, because both directions of each edge are recorded |
| Reachability.ReachableSymmetric | util/graph.cc:79-80 | reachability is symmetric |
| Reachability.WalkStaysInside | util/graph.cc:109-123 | a walk that starts in a neighbour-closed set ends in that set |
| Reachability.ReachableStaysInside | util/graph.cc:109-123 | everything reachable from a member of a neighbour-closed set is in the set |
| Reachability.ReachableInRange | util/graph.cc:117-121 | from an in-range id, only in-range ids are reachable |
| Reachability.SeedDecidesConnected | util/graph.cc:125-130 | for a seed that has a neighbour, reaching every non-isolated id from the seed is equivalent to the graph being one component |
| Reachability.WalkInGrown | general_graph/graph.h:123-130 | a resize neither adds nor removes walks |
| Reachability.ReachableInGrown | general_graph/graph.h:123-130 | a resize does not change reachability |
| Reachability.ConnectedInGrown | general_graph/graph.h:123-130 | a resize adds only isolated ids, so it does not change the connectivity answer |
| Connectivity.FindSeed | util/graph.cc:100-104 | the scan returns the first id with a non-empty list; if every list is empty it fails with out_of_range |
| Connectivity.Discovered | util/graph.cc:117-122 | the ids a scan of a neighbour list queues are never more than the entries of the list |
| Connectivity.DiscoveredStep | util/graph.cc:117-122 | looking at one more entry queues it exactly when it is white and not yet queued by this scan |
| Connectivity.DiscoveredMembers | util/graph.cc:117-122 | the scan queues exactly the white ids of the list, each once |
| Connectivity.ScanStep | util/graph.cc:117-122 | one step of the scan keeps the queue equal to the old queue followed by the ids queued so far, and turns exactly those ids gray |
| Connectivity.ScannedStart | util/graph.cc:117-122 | before the scan of a finished id's list looks at any entry, the scan's invariant holds of the unchanged queue, log and colours |
| Connectivity.ScannedStep | util/graph.cc:117-122 | looking at the next entry of the list, and queuing it if it is white, keeps the scan's invariant: queue, log of queued ids and colours in step with the scan, the queue discipline, and the white count |
| Connectivity.ScannedAll | util/graph.cc:117-122 | once the whole list has been looked at, the queue and the log of queued ids are the old ones followed by the list's white ids in list order, exactly those ids are turned gray, the queue discipline and the white count hold, and no black id has a white neighbour |
| Connectivity.VisitNeighbours | util/graph.cc:117-122 | for one finished id, the new queue is the old queue followed by the white ids of its list, in list order and each once, and the same ids are appended to the log of queued ids; exactly those ids turn gray and no other colour changes; the queue discipline is kept (each gray id queued exactly once, every non-white id reachable) and no black id has a white neighbour |
| Connectivity.LogTailStep | util/graph.cc:110-122 | dequeuing the front and appending the same ids to the queue and to the log keeps the queue a tail of the log, and keeps the log's earlier entries |
| Connectivity.Traverse | util/graph.cc:97-123 | when the queue drains, no id is gray; an id is black exactly when it is reachable from the seed; the log of queued ids starts with the seed, and the ids appended to it are exactly those pushed on the queue (the queue stays a tail of it), so over the whole run each reachable id is queued exactly once and no other id is |
| Connectivity.NoUnfinishedFrom | util/graph.cc:125-130 | the scan answers true exactly when every id from the seed on that has a neighbour is black |
| Connectivity.FinishStep | util/graph.cc:110-116 | dequeuing the front id, which is gray, and turning it black keeps the queue discipline |
| Connectivity.DiscoverStep | util/graph.cc:118-120 | queuing a white neighbour as gray keeps the queue discipline and removes one white id |
| Connectivity.DrainedTraversal | util/graph.cc:109-123 | with an empty queue and no white neighbour of any black id, black means exactly reachable from the seed |
| Loader.MaxIdBounds | util/graph.cc:28-40 | every id on every line is at most the running maximum |
| Loader.MaxIdAttained | util/graph.cc:28-40 | for non-empty input, the running maximum occurs on some line |
| Loader.CapacityCoversLines | util/graph.cc:28-40 | the computed size is one more than the largest id (1 for no lines), so every id on every line is below it |
| Loader.VertexSizeFromLines | util/graph.cc:28-40 | the pass-1 loop returns one more than the largest id on any line (1 for no lines), which bounds every id |
| Loader.AddAll | util/graph.cc:54-63 | recording lines never changes the number of slots |
| Loader.LineKeysNext | util/graph.cc:81 | a proof step, not a separate operation: the edge set after one more line is the one before with that line's unordered pair added |
| Loader.LineKeysContainLines | util/graph.cc:81 | the unordered pair of each of the first n lines is in the edge set |
| Loader.AddAllConsistentStep | util/graph.cc:54-63 | recording one more line keeps the invariant, with that line's pair added to the edge set |
| Loader.AddAllConsistent | util/graph.cc:54-63 | recording lines keeps the invariant, with the lines' pairs added to the edge set |
| Loader.AddAllRecordsLines | util/graph.cc:54-63 | after the lines are recorded, each line's end id is in its start id's list, and the start id is in the end id's list |
| Loader.LoadedRecordsEveryLine | util/graph.cc:43-67 | after loading, every id is below the size, and both directions of every line are recorded |
| Graphs.Graph.Load | util/graph.cc:43-67 | the loader yields a valid graph with size max id + 1, whose lists are pass 2's insertions, whose edge set holds the lines' pairs, and with no registered vertices; "add edge to graph failed" is never thrown |
| Graphs.Graph.RecordLines | util/graph.cc:53-63 | pass 2 records every line, in order, with the bounds-checking addEdge; no insertion is refused; the invariant is kept, the lists are the lines' insertions, and the edge set holds the lines' pairs |
| Graphs.Graph.VertexSize | general_graph/graph.h:94 | getVertexSize is the number of slots in links, not the number of registered vertices; in a valid graph every registered id is below it |
| Graphs.Graph.EdgeSize | general_graph/graph.h:96 | getEdgeSize is the number of recorded edges |
| Graphs.Graph.VertexSizeBoundsVertices | general_graph/graph.h:94 | the number of registered vertices never exceeds getVertexSize |
| Graphs.Graph.EdgeSizeZeroIffNoNeighbours | general_graph/graph.h:96 | getEdgeSize is zero exactly when no vertex has a neighbour |
| Graphs.Graph.SetVertexSize | general_graph/graph.h:123-130 | shrinking fails with "new size is less than old size" and changes nothing; otherwise the lists are resized with empty lists and nothing else changes |
| Graphs.Graph.ShrinkMemory | general_graph/graph.h:133-138 | no list, vertex or edge changes |
| Graphs.Graph.AddVertex | general_graph/graph.h:141-149 | an id registers exactly when it is below getVertexSize; links and edges do not change |
| Graphs.Graph.Record | util/graph.cc:79-81 | the edge goes into both lists and its pair into the edge set; the invariant is kept |
| Graphs.Graph.AddEdge | util/graph.cc:70-84 | the edge is accepted exactly when both ids are in range; a refusal changes nothing; an acceptance records the edge at the back of both lists and its unordered pair in the edge set; the invariant is kept |
| Graphs.Graph.AddEdgeWithVertices | general_graph/graph.cc:18-32 | the edge is accepted exactly when both ids are in range; an in-range start id stays registered even if the end id is refused; the edge is recorded only when both ids are accepted |
| Graphs.Graph.IsOneComponent | util/graph.cc:87-131 | an answer comes back exactly when links is non-empty and some list is non-empty; the only faults are NoVertex, exactly when links is empty, and SeedOutOfRange, exactly when links is non-empty and every list is empty; otherwise the answer is reachability of every non-isolated id from the first non-isolated id, which is the same as being one component |
| Scenarios.PathLinks | util/graph.cc:54-63 | the path 0-1, 1-2, 2-3 loads into the lists [1], [0, 2], [1, 3], [2] |
| Scenarios.TwoDisjointEdgesAreTwoComponents | util/graph.cc:28-131 | the lines 0-1 and 2-3 load into 4 slots and are not one component |
| Scenarios.PathIsOneComponent | util/graph.cc:28-131 | the lines 0-1, 1-2 and 2-3 load into 4 slots and are one component |

The connectivity check in general_graph/graph.cc:35-79 is the same code as
util/graph.cc:87-131, so the same members model both.

## Left out

- Opening and reading the file, and parsing each line: the loader is modelled
  over the (start, end) pairs the lines parse to. A malformed line is not
  modelled, and neither is the "open file error" throw.
- `print` is left out: it only writes text to the standard output.
- Ids are unbounded naturals. A wrap-around of `unsigned long` is not modelled
  in the size computation or in resizing.
- The `unsigned` narrowing of the end id is modelled only in `EdgeOfIdsAsWritten`
  (see Findings).
- Allocation failure in `resize` and `push_back` is not modelled.
- Graphs.Graph.AddEdge: the model's edge set counts unordered pairs. The
  program's `unordered_set<Edge>`, whose hash separates an edge from its
  reverse, counts both orientations (see Findings). Only the size of `edges`
  differs; `links` is the same in both.
- Graphs.Graph.AddEdgeWithVertices: the same divergence, through the same
  `edges.insert` at general_graph/graph.cc:29.
- Graphs.Graph.EdgeSize: it counts the model's unordered pairs, so after an
  edge and its reverse it answers 1 where the program's `edges.size()` answers 2.
- The bucket layout of `unordered_set` is not modelled. `Entities.InsertAsWritten`
  models only its lookup: cached hash codes first, then `operator==`.
- Neighbour lists hold vertex ids rather than `Vertex` objects. A `Vertex` is
  nothing but its id.
- `shrink_to_fit` only releases spare capacity. `ShrinkMemory` models it as a
  loop that changes nothing, because capacity is not part of the model.
- The copy constructor, the assignment operators and the accessors
  `getLinks`, `getVertices` and `getEdges` are left out. The accessors are the
  fields themselves.
- The path constructor of general_graph/graph.cc:12-15 is left out: its body is
  empty, with a TODO.
- The loader's "add edge to graph failed" branch is never taken with unbounded
  ids and with both passes reading the same lines. It appears as a proved
  assertion in `Graphs.Graph.RecordLines`. In the program it can fire: the
  line `0 18446744073709551615` makes `size + 1` wrap to 0, and a file that
  changes between the two opens can hold ids pass 1 did not see.
- The traversal's skip of an already black dequeued id is never taken. It
  appears as a proved assertion in `Connectivity.Traverse`.
- The util loader never registers vertices, because that `addEdge` does not
  call `addVertex`. The loaded graph therefore has an empty vertex set, as stated.

## Findings

| source | as written | input that shows it | evidently intended | confidence | as-written member | corrected member |
|---|---|---|---|---|---|---|
| general_graph/graph.h:24-25 | the loader builds each edge with the constructor that takes an `unsigned long` start id and an `unsigned` end id, so an end id of 2^32 or more is reduced modulo 2^32 | the line `0 4294967296`: pass 1 sizes links to 4294967297 slots, and pass 2 records the self-loop 0-0 | both ids of the line are kept, so the line's own edge is recorded | not executed; assumes a 32-bit `unsigned` and a 64-bit `unsigned long` (LP64); where `unsigned long` has 32 bits (LLP64) no id of 2^32 or more parses at all, so nothing is narrowed; any witness needs more than 2^32 slots (about 100 GB of empty lists), so an allocation failure, which is not modelled, would normally come first | Entities.EdgeOfIdsAsWrittenLosesEndId | Entities.EdgeOfIds |
| general_graph/graph.h:73-81 | the edge hash is `h1 ^ (h2 << 1)`, which differs between an edge and its reverse whenever the ids differ, although `operator==` calls the two equal; `edges.insert` at util/graph.cc:81 therefore keeps both | the lines `0 1` and `1 0`: getEdgeSize answers 2 | an edge and its reverse are one undirected edge, so getEdgeSize answers 1 | not executed; relies on the container comparing cached hash codes before `operator==`, as libstdc++ and libc++ do | Entities.InsertAsWrittenKeepsBothOrientations | Entities.KeyIgnoresOrientation |
