# FastGraph, modelled and proved in Dafny

A model of the data structures and algorithms of FastGraph, an in-memory property graph and key-value
server, with proofs of what they are for. Code that changes state in the original is a class or a loop
here; each is tied to a specification function or predicate, and the properties are proved about that.

| Files | What they model |
|---|---|
| `Walks`, `Words`, `Sets`, `Sums` | walks through a graph; walks written as edge positions, ordered by length and then by list order; counting |
| `Dijkstra`, `CsrDijkstra` | cheapest paths with a lazy-deletion queue, on the adjacency lists and on the compressed copy |
| `BfsSearch`, `Bfs`, `CsrSearch` | breadth-first path, neighbourhood and component; the same path on the compressed copy |
| `Dfs` | component by stack, three-colour cycle test, reverse postorder |
| `DynamicGraph`, `Csr`, `GraphEngine` | the mutable graph with its two adjacency tables, the compressed copy, the engine that caches it |
| `Bits`, `Smearing`, `RobinHood` | the Robin Hood hash map, its masking by a power of two, and rounding up to one |
| `SkipLinks`, `SkipList`, `Shelves`, `SortedSet`, `PropertyIndex` | the skip list as linked nodes, and the two engines that keep many of them |
| `Ttl`, `KvEngine` | the deadline heap with its position index, and the key-value engine with lazy and background expiry |
| `Widths`, `Decimals`, `Slices`, `Resp`, `Connection` | machine integers, numbers in decimal, the wire protocol, connection buffers |
| `Bytes`, `Rdb` | little-endian layout and short reads, snapshots |

What the model takes as given, because the original takes it as given:

- The searches and the compressed copy want ids from 0 on and edges that join nodes of the graph. The graph
  itself takes any ids and edges; its operations keep the two conditions for callers that respect them
  (`DynamicGraph.Closed`), and what the copy does with an edge to an unknown id is modelled.
- `bfs_path` with a source outside 0 to `max_node_id` writes outside its arrays (src/graph/bfs.cpp:37-39), and
  the dispatcher passes any integer on; the model asks for a source within, unless it is the target itself.
- Weights are not negative. Costs add up by any operation that is monotone in the cost and never goes below
  it (`Query.Lawful`). Rounded addition is one once it is kept from going below a cost that is itself no float, and
  on the costs of a search, which are sums from zero on, that changes nothing (`Dijkstra.RoundedPlusIsLawful`,
  `Dijkstra.CostIsRounded`).
- Clock readings are a parameter; one operation sees one reading. Readings are not negative and do not go back.
- The hash map starts with a capacity that rounds up to a power of two; every one from 1 to 2^32 does. Its mask
  is 32 bits wide in the original and equals the capacity less one for capacities up to 2^32 only.
- Scores are totally ordered. A random level is any of 1 to 16.
- A connection's buffer is shorter than 2 GiB, so that a position in it fits an `int`. `atoi` is that of the C
  library the server runs on: it reads 64 bits, staying at their bounds, and keeps the lower 32.
- Iteration over a hash table is in an arbitrary order.

Where a comment and the code disagree the model follows the code, and where the code falls short of what one
would expect the exact condition is proved, with an input that shows it:

- `dfs_topo_sort` is announced to return an empty result when there is a cycle (src/graph/dfs.hpp:11). It does
  not: the result is empty exactly when no roots are given, and it is a topological order exactly when no cycle
  can be reached from them (`Dfs.DfsTopoSort`; a node with an edge to itself is listed, `Dfs.LoopIsListed`).
- `edge_count_` after `remove_edge` drops once for each of the two lists touched. It stays right exactly when
  no edge matched, or two did (`DynamicGraph.RemoveEdge`; with a single edge it ends at -1,
  `DynamicGraph.OneEdgeMiscounts`).
- The compressed copy counts a slot for an edge to an id that is no node and leaves it at zero, which reads as an
  edge of weight 0 to the first node. It represents the graph exactly when no edge of a node dangles
  (`Csr.FaithfulIffKnown`, `Csr.DanglingBecomesLoop`).
- `expire` and `persist` look at the stored map, not at the live one: on a key that has expired and is not yet
  evicted they bring it back; `expire` can set a deadline before the origin of the clock, which then reads as none;
  and a deadline past 64 bits wraps to one long past, which the eviction acts on. `KvEngines.StaysInStep` gives the
  exact condition; `KvEngines.ExpireRevives`, `KvEngines.PersistRevives`, `KvEngines.NegativeDeadlineIsNone` and
  `KvEngines.FarDeadlineIsPast` are runs.
- A saved deadline that is negative is not restored. Everything that shows comes back exactly when no key that
  shows has one (`Rdb.AllComesBack`, `Rdb.NegativeDeadlineIsLost`).
- A composed property key belongs to one pair only exactly when neither its label nor its property holds a dot
  (`PropertyIndexes.KeyIsItsOwn`, `PropertyIndexes.KeysCanMeet`).
- A bulk length that reads as negative moves the parser back, so a complete request can take nothing from the buffer
  and `try_parse` loops for ever on it. A length is negative when written so, as -12 is, or when 32 bits do not hold
  it, as they do not hold 4294967277. The loop ends exactly when no request met on the way does that
  (`Connections.SettlesIffNeverStalls`, `Connections.NeverSettles`), and always when no `$` is followed by a number
  that reads as negative (`Connections.NaturalSettles`).
- A protocol error sets the connection to closing and is then overwritten by writing, as its own reply is
  still to be sent (`Connection.TryParse`; an empty line does it, `Connections.EmptyLineIsRejected`).
- `next_pow2` smears over 32 bits only. It yields a power of two exactly from 1 to 2^63 where the bits of `n - 1`
  leave no gap of 32 (`Smearing.NextPow2Rounds`); 2^32 + 1 is the first number it fails on (`Smearing.FirstGap`).

## Model

| member | source | states |
|---|---|---|
| `Walks.WalkEdgeByEdge` | src/graph/bfs.cpp:46-47 | a filtered walk is, edge by edge, a sequence of stored edges each of which leaves the node the one before led to and carries the relation asked for, or any if none is |
| `Walks.WalkJoins` | src/graph/dijkstra.cpp:27-34 | the nodes and relations told of a walk are joined by such edges, in order |
| `Dijkstra.DijkstraPath` | src/graph/dijkstra.cpp:11-54 | the path is a filtered walk from source to target whose weights add up to `cost`, no filtered walk costs less, and the result is empty exactly when the target cannot be reached; the queue loop and the parent walk end |
| `Dijkstra.AnswersMean` | src/graph/dijkstra.cpp:11-54 | an answer has no nodes if and only if the target cannot be reached, and then no relations and cost 0; any other begins at the source, ends at the target, follows stored edges of the relation asked for, and costs no more than any walk |
| `Dijkstra.ExactCostIsSum` | src/graph/dijkstra.cpp:43 | where costs add up exactly, the cost of a walk is the sum of its weights |
| `Dijkstra.PopMin` | src/graph/dijkstra.cpp:7-23 | takes out a least entry, by cost and then by node |
| `Dijkstra.RelaxEdges` | src/graph/dijkstra.cpp:41-51 | relaxing the edges of the node just popped keeps the invariant of the search: recorded distances are costs of recorded walks, settled nodes have all edges relaxed |
| `Dijkstra.Optimal` | src/graph/dijkstra.cpp:22-52 | while no unsettled node is nearer than a bound, every walk costs at least the bound or ends at a node recorded at no more than its cost |
| `Dijkstra.FirstPopIsCheapest` | src/graph/dijkstra.cpp:25-36 | returning at the first pop of the target, before the stale test, is right: the walk recorded for it is then a cheapest one |
| `Dijkstra.Settles` | src/graph/dijkstra.cpp:38-39 | a least entry that passes the stale test belongs to a node not expanded before, and expanding it keeps the invariant |
| `Dijkstra.DropsStale` | src/graph/dijkstra.cpp:38-39 | dropping a stale entry keeps the invariant |
| `Dijkstra.ParentWalk` | src/graph/dijkstra.cpp:27-34 | the parent walk ends and gives the nodes and relations of the recorded walk, in order |
| `Dijkstra.DrainedIsExact` | src/graph/dijkstra.cpp:64-78 | when the queue runs dry, the table holds exactly the reachable nodes, each at its least cost |
| `Dijkstra.DijkstraAll` | src/graph/dijkstra.cpp:56-79 | the distance map holds exactly the reachable nodes with their least costs, and the parents form a tree: there are cheapest walks to all of them, that to a node one edge longer than that to its parent, so following the parents leads back to the source |
| `Dijkstra.RoundedPlusIsLawful` | src/graph/dijkstra.cpp:43 | addition followed by any monotone rounding, kept from going below the cost, is an addition the search works with |
| `Dijkstra.CostIsRounded` | src/graph/dijkstra.cpp:43 | on the cost of any walk that is plain rounded addition |
| `Words.Earliest` | src/graph/bfs.cpp:43-66 | if the edges out of known nodes are covered or come no earlier than a bound, every walk comes no earlier than the bound or ends at a node known by an earlier or equal walk |
| `Words.DecidedAtDifference` | src/graph/bfs.cpp:44-46 | of two walks with as many edges the one that takes the earlier edge where they first part comes first |
| `Words.WordEdgeByEdge` | src/graph/bfs.cpp:44-46 | each number of a written walk is the place of its edge in the list of the node it leaves |
| `Words.FirstIsShortest` | src/graph/bfs.cpp:43-66 | the first walk in that order has the fewest edges |
| `Words.FirstIsUnique` | src/graph/bfs.cpp:43-66 | there is one such walk, so the answer of the search is determined |
| `BfsSearch.FoundFirst` | src/graph/bfs.cpp:46-63 | the first time a node is met, it is met by its first walk |
| `BfsSearch.Drained` | src/graph/bfs.cpp:43-66 | when the queue runs dry, exactly the reachable nodes are marked |
| `Bfs.BfsPath` | src/graph/bfs.cpp:6-76 | the path is the first filtered walk, so one with the fewest edges, with the relation of each of its edges; empty exactly when there is none |
| `Bfs.AnswersMean` | src/graph/bfs.cpp:6-76 | an answer has no nodes if and only if the target cannot be reached, and then no relations; any other begins at the source, ends at the target, follows stored edges of the relation asked for, and has as few as any walk |
| `Bfs.ExpandNode` | src/graph/bfs.cpp:44-65 | the inner loop keeps the invariant and returns a path exactly when it meets the target; no write leaves the arrays |
| `Bfs.RoomInQueue` | src/graph/bfs.cpp:31-38 | a node not yet marked always finds room in the queue of `max_node_id + 1` slots |
| `Bfs.ParentWalk` | src/graph/bfs.cpp:54-61 | the parent walk ends and gives the nodes and relations of the walk the node was met by |
| `Bfs.BfsNeighborhood` | src/graph/bfs.cpp:78-101 | lists exactly the nodes at filtered distance 1 to `max_hops`, once each, with the true distance, nearest first, each with an edge from a node one hop nearer |
| `Bfs.WithinHops` | src/graph/bfs.cpp:90 | not expanding the nodes at `max_hops` loses no node within `max_hops` |
| `Bfs.BfsComponent` | src/graph/bfs.cpp:103-122 | lists exactly the reachable nodes, once each |
| `Dfs.DfsComponent` | src/graph/dfs.cpp:7-22 | lists exactly the reachable nodes, once each, and ends although a node may wait on the stack several times |
| `Dfs.DropsDuplicate` | src/graph/dfs.cpp:15 | skipping a stack entry already visited loses nothing |
| `Dfs.CycleSearch.Visit` | src/graph/dfs.cpp:28-36 | a true result means a cycle can be reached from the node; after a false one the node is black, and black nodes reach only earlier black ones |
| `Dfs.ClosesCycle` | src/graph/dfs.cpp:31 | an edge to a gray node closes a cycle |
| `Dfs.BackwardHasNoCycle` | src/graph/dfs.cpp:34-42 | nothing reachable from nodes whose edges all lead to earlier finished ones lies on a cycle |
| `Dfs.DfsHasCycle` | src/graph/dfs.cpp:24-43 | true if and only if some cycle can be reached from a node of the graph |
| `Dfs.TopoSearch.Visit` | src/graph/dfs.cpp:50-55 | appends nodes reachable from the given one, the given one among them, each after the targets of its edges unless they lead back to an open call |
| `Dfs.TopologicalIffAcyclic` | src/graph/dfs.cpp:57-61 | the reversed postorder puts every edge's source before its target if and only if no cycle can be reached |
| `Dfs.LoopIsListed` | src/graph/dfs.cpp:45-62 | a node with an edge to itself: the result is neither empty nor topological |
| `Dfs.DfsTopoSort` | src/graph/dfs.cpp:45-62 | lists exactly the nodes reachable from the roots, once each, in topological order if and only if no cycle can be reached; empty only for no roots |
| `Dfs.TopologicalLeadsOn` | src/graph/dfs.cpp:57-61 | in a topological order the target of every stored edge comes later than its source |
| `DynamicGraphs.DynamicGraph.AddNode` | src/graph/dynamic_graph.cpp:6-14 | for any id: sets the metadata, leaves every edge list as it is, keeps the tables transposed; edges that join nodes still do |
| `DynamicGraphs.DynamicGraph.RemoveNode` | src/graph/dynamic_graph.cpp:16-42 | deletes exactly the edges at the node in both tables, parallel ones and self-loops included; the counter keeps its distance from the number of stored edges; edges that join nodes still do |
| `DynamicGraphs.DynamicGraph.AddEdge` | src/graph/dynamic_graph.cpp:44-50 | for any two ids: appends to one list in each table, the counter goes up by one, the tables stay transposed; edges that join nodes still do if both ends are nodes |
| `DynamicGraphs.DynamicGraph.RemoveEdge` | src/graph/dynamic_graph.cpp:52-62 | drops every matching edge from both tables; the counter stays right exactly when no or two edges matched |
| `DynamicGraphs.DynamicGraph.OneEdgeMiscounts` | src/graph/dynamic_graph.cpp:52-62 | one edge added and removed: nothing is stored and the counter stands at -1 |
| `DynamicGraphs.DynamicGraph.HasEdge` | src/graph/dynamic_graph.cpp:83-89 | true if and only if there is an edge between the two nodes |
| `DynamicGraphs.AddedTransposed` | src/graph/dynamic_graph.cpp:46-47 | after an edge is added, the edges from u to v are the same sequence of relation and weight in both tables, for all u and v |
| `DynamicGraphs.DroppedTransposed` | src/graph/dynamic_graph.cpp:59-60 | the same after edges are removed |
| `DynamicGraphs.PurgedTransposed` | src/graph/dynamic_graph.cpp:16-38 | the same after a node is removed |
| `DynamicGraphs.PurgeEach` | src/graph/dynamic_graph.cpp:19-24 | going along one list drops the edges to the node from every list it names, however often it names it, and from no other |
| `DynamicGraphs.StoredPurged` | src/graph/dynamic_graph.cpp:19-35 | what removing a node takes out is its outgoing list and its incoming one without the self-loops: what the two loops subtract |
| `DynamicGraphs.RemoveEdgeCounts` | src/graph/dynamic_graph.cpp:53-60 | both lists lose as many entries as there were parallel edges of that relation |
| `DynamicGraphs.WithoutEdgeByEdge` | src/graph/dynamic_graph.cpp:19-35 | what dropping the edges to a node leaves: edge by edge and in order, those that lead elsewhere |
| `DynamicGraphs.WithoutRelEdgeByEdge` | src/graph/dynamic_graph.cpp:53-58 | what dropping the edges of one relation to a node leaves: edge by edge and in order, all others |
| `DynamicGraphs.ParallelCounts` | src/graph/dynamic_graph.cpp:53-60 | the edges that match are those at the places of the list with this target and relation |
| `Csr.BuildCsr` | src/graph/csr_graph.cpp:6-69 | for every graph with ids from 0 on: ids and indices are inverse and in the same order, each slice has a slot for every edge of its node and holds its edges to nodes in order with weights and relations, the slots of dangling edges untouched at its end, metadata carried over |
| `Csr.FaithfulIffKnown` | src/graph/csr_graph.cpp:25-56 | the copy says exactly what the graph says if and only if no edge of a node leads to an id that is no node |
| `Csr.DanglingBecomesLoop` | src/graph/csr_graph.cpp:29-50 | one node with an edge to an unknown id: its copy has an edge of weight 0 from the node to itself |
| `Csr.SortedIds` | src/graph/csr_graph.cpp:10-12 | the ids, strictly increasing |
| `Csr.BuildIndex` | src/graph/csr_graph.cpp:17-23 | inverse to the sorted ids, -1 elsewhere |
| `Csr.CountDegrees` | src/graph/csr_graph.cpp:25-30 | the length of each node's list, whatever the order of iteration |
| `Csr.PrefixSums` | src/graph/csr_graph.cpp:32-38 | each offset is the sum of the degrees before it |
| `Csr.FillOne` | src/graph/csr_graph.cpp:48-55 | writes the edges of one list that lead to nodes through its cursor, passes over the others, and writes nothing else |
| `Csr.FillEdges` | src/graph/csr_graph.cpp:43-56 | every slice is laid out from its node's list, whatever the order of iteration; a slot is written once if an edge falls to it and never otherwise |
| `Csr.FillMeta` | src/graph/csr_graph.cpp:58-66 | labels and properties at each node's index |
| `Csr.CopyTellsNode` | src/graph/csr_graph.cpp:10-23 | in a copy every node has an index, in the order of the ids, and its label and properties stand there |
| `CsrSearch.RepresentsIsWellShaped` | src/graph/csr_graph.cpp:32-56 | in a copy that represents a graph every offset, slice and target is in range |
| `CsrSearch.SliceMatches` | src/graph/csr_graph.cpp:43-56 | a slice decodes to the node's adjacency list, with targets as indices |
| `CsrSearch.SameFirst` | src/graph/bfs.cpp:137-155 | the first walk between two nodes is the same in the copy and in the graph |
| `CsrSearch.BfsPathCsr` | src/graph/bfs.cpp:124-158 | returns the ids along the first walk in the copy, empty when an id is unknown or there is no walk |
| `CsrSearch.AnswersMean` | src/graph/bfs.cpp:124-158 | an answer has no nodes if and only if an id is unknown or there is no walk in the copy; any other begins and ends at the ids asked for; relations are never told |
| `CsrSearch.BfsAgrees` | src/graph/bfs.cpp:124-158 | for nodes of the graph, `bfs_path_csr` on the copy returns the same nodes as unfiltered `bfs_path` |
| `CsrDijkstra.RelaxSlice` | src/graph/dijkstra.cpp:102-111 | relaxing a slice keeps the invariant of the search and the arrays that mirror it |
| `CsrDijkstra.VisitedIsStale` | src/graph/dijkstra.cpp:99-100 | the `visited` test drops exactly the entries the stale test would |
| `CsrDijkstra.DijkstraPathCsr` | src/graph/dijkstra.cpp:81-122 | returns the ids along a cheapest walk in the copy, with its cost, empty when an id is unknown or there is no walk |
| `CsrDijkstra.CsrAnswersMean` | src/graph/dijkstra.cpp:81-122 | an answer has no nodes if and only if an id is unknown or there is no walk in the copy, and then cost 0; any other begins and ends at the ids asked for; relations are never told |
| `CsrDijkstra.SameCost` | src/graph/csr_graph.cpp:50-54 | corresponding walks cost the same in the copy and in the graph |
| `CsrDijkstra.LawfulCarriesOver` | src/graph/csr_graph.cpp:53 | weights that are as they should be in the graph are so in the copy |
| `CsrDijkstra.FastIsCheapest` | src/graph/dijkstra.cpp:81-122 | for nodes of a graph in which no edge of a node dangles, the ids `dijkstra_path_csr` returns are those along a cheapest walk of the graph itself, with its cost; none exactly when there is no walk |
| `CsrDijkstra.DijkstraAgrees` | src/graph/dijkstra.cpp:81-122 | for nodes of the graph, `dijkstra_path_csr` on the copy returns the same cost as unfiltered `dijkstra_path`, and both are empty or neither |
| `GraphEngines.GraphEngine.constructor` | src/graph/graph_engine.hpp:69-75 | starts empty, clean, with the copy of the empty graph |
| `GraphEngines.GraphEngine.CsrOf` | src/graph/graph_engine.cpp:40-48 | always hands out a copy of the current graph, which represents it if and only if no edge of a node dangles; a clean one is not rebuilt |
| `GraphEngines.GraphEngine.RemoveNode` | src/graph/graph_engine.cpp:11-17 | removes the node, the edges at it and, if it was a node, all its indexed values under every key; no other value changes |
| `GraphEngines.GraphEngine.AllNodes` | src/graph/graph_engine.cpp:71-77 | every node once, with its label and properties |
| `GraphEngines.GraphEngine.AllEdges` | src/graph/graph_engine.cpp:79-86 | every node's list, whole and in order |
| `GraphEngines.GraphIsSearchable` | src/graph/dynamic_graph.hpp:33-35 | a graph whose ids and edges are as they should be meets what the searches and the copy ask: endpoints within `max_node_id`, no id that could be taken for the end of a parent walk |
| `Bits.MaskIsMod` | src/kv/hashmap.cpp:18 | masking with a power of two less one is the remainder |
| `RobinHood.HashOf` | src/kv/hashmap.cpp:144-148 | the hash is below the mark of an empty slot |
| `RobinHood.MixKnown` | src/kv/hashmap.cpp:144-148 | the published FNV-1a value of one string |
| `RobinHood.HashIsLawful` | src/kv/hashmap.cpp:144-148 | it is a hash function as the map wants one |
| `Smearing.SmearTells` | src/kv/hashmap.cpp:152-153 | a bit of the smeared number is set if and only if one of the 32 bits from its place on was |
| `Smearing.NextPow2Rounds` | src/kv/hashmap.cpp:150-155 | for every 64-bit `n`: the result is a power of two if and only if `n` is from 1 to 2^63 and no 32 bits in a row below the top of `n - 1` are zero; it is then the least one that is at least `n` |
| `Smearing.SmallRounds` | src/kv/hashmap.cpp:150-155 | it is one for every `n` from 1 to 2^32 |
| `Smearing.FirstGap` | src/kv/hashmap.cpp:150-155 | it is none for 2^32 + 1 |
| `RobinHood.TakenBack` | src/kv/hashmap.cpp:26-46 | going back from an entry toward its home meets only taken slots, with distances that fall by at most one a step |
| `RobinHood.ExitMeansAbsent` | src/kv/hashmap.cpp:54-59 | an empty slot, or one whose entry is nearer its home than the probe, means the key is nowhere in the table |
| `RobinHood.StopsShort` | src/kv/hashmap.cpp:29-42 | no swap happens before an existing key is found: where the first swap or the empty slot comes, the key is not in the map |
| `RobinHood.Swaps` | src/kv/hashmap.cpp:40-42 | swapping keeps the ring, and the table with the entry in hand stands for the same map |
| `RobinHood.ProbeGoesOn` | src/kv/hashmap.cpp:44-45 | a probe comes nearer to an empty slot with every step, so it ends |
| `RobinHood.Probe` | src/kv/hashmap.cpp:49-60 | finds the slot of the key if and only if the key is in the table |
| `RobinHood.SetLoop` | src/kv/hashmap.cpp:17-46 | keeps the ring, binds the key to the value and changes no other binding; says whether the key was new |
| `RobinHood.ShiftKeepsRing` | src/kv/hashmap.cpp:93-95 | moving the next entry back by one slot, around the end of the array too, keeps the ring |
| `RobinHood.EraseAt` | src/kv/hashmap.cpp:84-97 | ends, keeps the ring and removes exactly the binding of the slot |
| `RobinHood.PlaceNew` | src/kv/hashmap.cpp:112-136 | inserting an entry known to be new adds exactly its binding |
| `RobinHood.RobinHoodMap.constructor` | src/kv/hashmap.cpp:5-10 | an empty map whose capacity is the least power of two not below the one asked for |
| `RobinHood.RobinHoodMap.Grow` | src/kv/hashmap.cpp:99-137 | doubles the capacity and keeps the whole map |
| `RobinHood.RobinHoodMap.Set` | src/kv/hashmap.cpp:14-47 | the map with the key bound to the value, whether or not it grew; true if and only if the key was new; the capacity doubles exactly when one more would exceed three quarters of it |
| `RobinHood.RobinHoodMap.Get` | src/kv/hashmap.cpp:49-62 | the value of the key if it is bound, nothing otherwise |
| `RobinHood.RobinHoodMap.Del` | src/kv/hashmap.cpp:64-82 | the map without the key; true if and only if it was bound |
| `SkipLinks.InsertLinks` | src/index/skiplist.cpp:88-92 | relinking the last nodes before the spot, level by level, leaves every level linked, for every choice of level |
| `SkipLinks.RemoveLinks` | src/index/skiplist.cpp:114-117 | bypassing the node until a level it does not take part in leaves every level linked |
| `SkipLists.SkipList.FindUpdate` | src/index/skiplist.cpp:52-59 | on every level, the last node before the spot of the key |
| `SkipLists.SkipList.Insert` | src/index/skiplist.cpp:48-95 | the member has the score, no other member changes, the size grows by one if and only if the member is new; the chain stays sorted and linked on all levels and says what the side table says |
| `SkipLists.SkipList.Remove` | src/index/skiplist.cpp:97-124 | removes the member if and only if it has this score; the level falls while the top one is empty |
| `SkipLists.ChainIsLevel` | src/index/skiplist.cpp:52-59 | following the links of a level meets exactly the nodes that take part in it, in order |
| `SkipLists.LevelsNest` | src/index/skiplist.cpp:82-92 | each level is a sublist of the one below |
| `SkipLists.LowestLevelIsAll` | src/index/skiplist.cpp:148-157 | the lowest level is the whole sorted chain |
| `SkipLinks.MembersDistinct` | src/index/skiplist.cpp:65-80 | no member is in the chain twice |
| `SkipLists.SkipList.RangeByScore` | src/index/skiplist.cpp:132-145 | exactly the entries with a score in the range, in order |
| `SkipLists.SkipList.RangeByRank` | src/index/skiplist.cpp:147-158 | exactly the entries at the ranks asked for, as far as there are any |
| `Shelves.ChainInOrder` | src/index/skiplist.cpp:48-124 | the chain is the side table's entries ordered by score and then by member |
| `Shelves.OrderIsUnique` | src/index/skiplist.cpp:132-158 | there is one such order, so the answers to range queries depend on the scores alone and not on the random levels |
| `Shelves.InOrderMeans` | src/index/skiplist.cpp:53-57 | in that order a smaller score comes first, and of one score the member that is smaller where the two first differ, or ends there |
| `SkipLinks.StrLessIsDictionary` | src/index/skiplist.cpp:56 | the order of members is that of the first difference, for all strings |
| `SkipLists.RankedIs` | src/index/skiplist.cpp:147-158 | the ranks asked for are those from `start` to `stop`, both included and counted from 0 |
| `SortedSets.SortedSetEngine.ZAdd` | src/sorted_set/sorted_set_engine.cpp:21-27 | sets the member's score in the named set, made if needed, and changes no other set; 1 if and only if the member is new |
| `SortedSets.SortedSetEngine.ZRem` | src/sorted_set/sorted_set_engine.cpp:29-36 | removes exactly the member; true if and only if it was there |
| `SortedSets.SortedSetEngine.ZRange` | src/sorted_set/sorted_set_engine.cpp:45-51 | there is an order of the set, and the result is its entries at the ranks asked for |
| `SortedSets.SortedSetEngine.ZRangeByScore` | src/sorted_set/sorted_set_engine.cpp:53-59 | the entries with a score in the range, in that order |
| `SortedSets.SortedSetEngine.ZCard` | src/sorted_set/sorted_set_engine.cpp:61-64 | the number of members |
| `SortedSets.SortedSetEngine.ZRank` | src/sorted_set/sorted_set_engine.cpp:66-76 | the member's place in that order; -1 if and only if it is not there |
| `PropertyIndexes.KeysApart` | src/index/property_index.hpp:30-32 | composed keys of labels without a dot are equal if and only if label and property are |
| `PropertyIndexes.KeyIsItsOwn` | src/index/property_index.hpp:30-32 | no other pair has the key of this one if and only if neither its label nor its property holds a dot |
| `PropertyIndexes.KeysCanMeet` | src/index/property_index.hpp:30-32 | two different pairs with one composed key |
| `PropertyIndexes.PropertyIndex.Add` | src/index/property_index.cpp:4-14 | the value under this key for this node is the new one; no other changes |
| `PropertyIndexes.PropertyIndex.Remove` | src/index/property_index.cpp:16-28 | takes the value out if and only if it is the current one; no other changes |
| `PropertyIndexes.PropertyIndex.RemoveNode` | src/index/property_index.cpp:30-39 | no key has a value for the node any more, despite entries remembered for values long replaced; no other node's value changes |
| `PropertyIndexes.PurgeEnds` | src/index/property_index.cpp:33-38 | because the current value is always among those remembered, going through them all leaves none |
| `PropertyIndexes.PropertyIndex.Range` | src/index/property_index.cpp:41-54 | exactly the nodes with a value in the range, once each, by increasing value |
| `Ttl.SiftsUp` | src/kv/ttl.cpp:67-70 | one step up leaves a heap but for the entry on its way |
| `Ttl.SiftsDown` | src/kv/ttl.cpp:77-84 | one step down, to the child due first, leaves a heap but for the children of the entry on its way |
| `Ttl.SwapKeepsIndex` | src/kv/ttl.cpp:88-94 | swapping keeps positions, keys and index in agreement and changes no deadline |
| `Ttl.RootIsLeast` | src/kv/ttl.cpp:52 | nothing is due before the root |
| `Ttl.TtlManager.SiftUp` | src/kv/ttl.cpp:65-72 | ends with a heap but for the children of where it started, deadlines unchanged |
| `Ttl.TtlManager.SiftDown` | src/kv/ttl.cpp:74-86 | ends with a heap, deadlines unchanged |
| `Ttl.TtlManager.SetExpiry` | src/kv/ttl.cpp:9-23 | the key is due at `now + ttl_ms` in 64 bits, no other deadline changes; the invariant holds again, whether the deadline rose, fell or is new |
| `Ttl.TtlManager.RemoveExpiry` | src/kv/ttl.cpp:26-41 | the key has no deadline, no other changes; the invariant holds again after the last entry took the place |
| `Ttl.TtlManager.GetExpiry` | src/kv/ttl.cpp:43-47 | the key's deadline, -1 if it has none |
| `Ttl.TtlManager.EvictExpired` | src/kv/ttl.cpp:49-57 | takes off exactly the keys due by `now`, each once, in order of deadline, and leaves the others' deadlines as they are |
| `Ttl.TtlManager.NextExpiryIn` | src/kv/ttl.cpp:59-63 | -1 if and only if there is no deadline; otherwise the time to the earliest one, 0 if one has passed, as long as no difference leaves 64 bits |
| `KvEngines.KvEngine.Set` | src/kv/kv_engine.cpp:3-10 | binds the value and sets or clears the deadline; true if and only if the key was not stored |
| `KvEngines.KvEngine.Get` | src/kv/kv_engine.cpp:12-23 | the value unless the deadline has passed; an expired key is evicted on sight |
| `KvEngines.KvEngine.Del` | src/kv/kv_engine.cpp:25-28 | forgets value and deadline |
| `KvEngines.KvEngine.Expire` | src/kv/kv_engine.cpp:34-38 | sets the deadline of a stored key |
| `KvEngines.KvEngine.Persist` | src/kv/kv_engine.cpp:40-44 | clears a deadline that is not negative |
| `KvEngines.KvEngine.Ttl` | src/kv/kv_engine.cpp:46-52 | -2, -1, 0 or the time left, of the stored map |
| `KvEngines.KvEngine.Tick` | src/kv/kv_engine.cpp:54-57 | forgets exactly the keys due by `now` |
| `KvEngines.KvEngine.AllEntries` | src/kv/kv_engine.cpp:59-70 | every key that shows at `now`, once, with value and deadline, and no other |
| `KvEngines.ListsTell` | src/kv/kv_engine.cpp:66-67 | a key that shows is told once, with its value and its deadline, or -1 for none |
| `KvEngines.OnlyTheDueGo` | src/kv/kv_engine.cpp:12-57 | `get` and `exists` take out their key if it has expired, `tick` takes out every key that is due, and all other values and deadlines stay |
| `KvEngines.StaleAnswers` | src/kv/kv_engine.cpp:3-52 | on a key expired and not yet evicted `get` finds nothing, `ttl` is 0, `set` says it was there, and `del`, `expire` and `persist` succeed |
| `KvEngines.TimedMapIs` | src/kv/kv_engine.hpp:11-21 | the timed map by what a later `get` finds: a value set is found while its time lasts, or for ever without one; `expire` limits a live one, `persist` lifts the limit, `del` ends it; other keys are not touched |
| `KvEngines.SoundAfter` | src/kv/kv_engine.cpp:3-57 | keys with a deadline are always keys of the map, and deadlines stay within 64 bits |
| `KvEngines.TimePasses` | src/kv/kv_engine.cpp:12-19 | while nobody acts, engine and timed map stay the same to whoever asks |
| `KvEngines.StaysInStep` | src/kv/kv_engine.cpp:3-57 | an operation keeps the engine in step with a simple timed map if and only if it is not a `set` or an `expire` of a live key whose deadline leaves 64 bits, an `expire` that revives an expired stored key or sets a negative deadline, nor a `persist` of an expired stored key |
| `KvEngines.AnswersAlike` | src/kv/kv_engine.cpp:3-57 | `get`, `exists` and `tick` always answer as the timed map does; any other operation does if and only if its key is not expired and still stored |
| `KvEngines.LookupsAgree` | src/kv/kv_engine.cpp:12-32 | over every run under a clock that does not go back, whose operations keep in step, `get` and `exists` answer as the timed map does |
| `KvEngines.EvictionIsInvisible` | src/kv/kv_engine.cpp:3-57 | from the empty engine on, every interleaving of background eviction with sets whose deadlines fit 64 bits, lookups and deletions answers every lookup as the timed map does |
| `KvEngines.ExpireRevives` | src/kv/kv_engine.cpp:34-38 | a run in which `expire` brings an expired key back, and the same run with the eviction first, in which it does not |
| `KvEngines.PersistRevives` | src/kv/kv_engine.cpp:40-44 | a run in which `persist` brings an expired key back |
| `KvEngines.NegativeDeadlineIsNone` | src/kv/kv_engine.cpp:12-19 | a run in which a deadline before the origin of the clock reads as none |
| `KvEngines.FarDeadlineIsPast` | src/kv/ttl.cpp:10 | a run in which a key made to last for 2^63 - 1 milliseconds is evicted at once |
| `Decimals.AtoiInverts` | src/protocol/resp.cpp:22-35 | `atoi` reads back what `to_string` printed, up to the first non-digit, for every number below 2^31 |
| `Decimals.AtoiIs` | src/protocol/resp.cpp:22-35 | for every string: `atoi` is the number at its beginning up to a multiple of 2^32, within 32 bits, as long as 64 bits hold the number; above it is -1 and below 0 |
| `Decimals.SpaceIsSkipped` | src/protocol/resp.cpp:22-35 | the six white-space characters in front are passed over |
| `Decimals.SignIsRead` | src/protocol/resp.cpp:22-35 | a minus sign negates and a plus sign does not |
| `Decimals.NoLeadingZero` | src/protocol/encoder.cpp:16-24 | `to_string` prints no zero in front |
| `Decimals.PrintedIsRead` | src/index/property_index.cpp:52 | a printed node id is read back |
| `Resp.FirstCrlf` | src/protocol/resp.cpp:4-10 | the first line end at or after the start, or -1 if there is none |
| `Resp.FindCrlf` | src/protocol/resp.cpp:4-10 | the loop finds it |
| `Resp.ParseArray` | src/protocol/resp.cpp:18-47 | verdict, remaining buffer and arguments are those of reading the bulk strings one after the other, for every buffer, malformed and negative lengths and those that leave 32 bits included |
| `Resp.OtherMarkFails` | src/protocol/resp.cpp:28 | an array in which a part begins otherwise than with `$` is an error, after however many good parts, and the buffer stays |
| `Resp.NoCountFails` | src/protocol/resp.cpp:22-23 | so is an array whose count is not positive |
| `Resp.AnyEndIsTaken` | src/protocol/resp.cpp:38-41 | the two bytes behind a bulk string are passed over, whatever they are |
| `Resp.NegativeLengthTakesAll` | src/protocol/resp.cpp:35-41 | a bulk string of length -1 is all that is left of the buffer, and the request ends one character into it |
| `Resp.ParseInline` | src/protocol/resp.cpp:49-69 | verdict, remaining buffer and words of the first line; an empty line is consumed and is an error |
| `Resp.InlineIs` | src/protocol/resp.cpp:49-69 | a line is taken whole, its words are the arguments, and none is an error |
| `Resp.WordsApart` | src/protocol/resp.cpp:56-62 | the words of two pieces with a space between are those of the one and then of the other, so runs of spaces give no empty words |
| `Resp.WordAlone` | src/protocol/resp.cpp:56-62 | a piece without a space is one word, or none if it is empty |
| `Resp.TakesAPrefix` | src/protocol/resp.cpp:12-69 | an incomplete request leaves the buffer alone, anything else takes a prefix of it; arguments change only when complete, and are then not empty |
| `Resp.EncodeArray` | src/protocol/encoder.cpp:23-27 | the accumulating loop writes the header and every bulk string |
| `Resp.ErrorIsOneLine` | src/protocol/encoder.cpp:7-9 | an error reply begins with a minus sign, holds the message and is one line |
| `Resp.RoundTrip` | src/protocol/resp.cpp:18-47 | parsing an encoded array followed by anything yields the items and leaves the rest, whatever bytes the items hold, for counts and lengths that fit an `int` |
| `Resp.PrefixIsIncomplete` | src/protocol/resp.cpp:18-47 | every proper prefix of an encoded array is incomplete, and the buffer is untouched |
| `Resp.InlineRoundTrip` | src/protocol/resp.cpp:49-69 | a line of words is parsed into the words |
| `Resp.BackToZeroStalls` | src/protocol/resp.cpp:35-44 | every request of one string whose length, written in k characters, reads as -(k + 9) is complete and leaves the buffer as it was |
| `Resp.NegativeLengthStalls` | src/protocol/resp.cpp:35-44 | a length of -12 does so |
| `Resp.WrappedLengthStalls` | src/protocol/resp.cpp:35-44 | so does a length of 4294967277, which 32 bits read as -19 |
| `Resp.BulkLeadsOn` | src/protocol/resp.cpp:32-41 | a bulk string leads on if and only if the sum of position, length and 2 ends up behind its beginning; one whose length does not read as negative always does |
| `Resp.StallsIfBackAtZero` | src/protocol/resp.cpp:12-47 | a complete request takes nothing if and only if it is an array whose reading ends at position 0 |
| `Resp.NaturalNeverStalls` | src/protocol/resp.cpp:12-47 | when no `$` is followed by a number that reads as negative, every complete request takes something |
| `Resp.EmptyLineFails` | src/protocol/resp.cpp:49-66 | an empty line is taken and is an error |
| `Connections.SettlesIffDrains` | src/net/server.cpp:84-117 | the parse loop ends after some number of requests if and only if the buffer settles, which a function of the buffer decides |
| `Connections.SettlesIffNeverStalls` | src/net/server.cpp:84-117 | a buffer settles if and only if no request met on the way is complete and takes nothing |
| `Connections.NaturalSettles` | src/net/server.cpp:84-117 | a buffer in which no `$` is followed by a number that reads as negative settles, within as many requests as it has characters |
| `Connections.NeverSettles` | src/net/server.cpp:84-117 | two buffers on which the loop never ends, one with a minus sign and one without |
| `Connections.EmptyLineIsRejected` | src/net/server.cpp:88-92 | a buffer on which the parser gives up |
| `Connections.RejectionText` | src/net/server.cpp:89 | the reply to what cannot be parsed, to the byte |
| `Connections.NextRequest` | src/protocol/resp.cpp:12-47 | after any bytes of an encoded stream the parser takes the next request if all of it is there and waits otherwise |
| `Connections.DrainsRequests` | src/net/server.cpp:83-117 | the parse loop handles exactly the requests that are complete, in order, and ends without an error |
| `Connections.SplittingDoesNotMatter` | src/net/server.cpp:67-81 | how many requests are handled and what is left depends on the bytes received, not on how they were split |
| `Connections.Connection.TryParse` | src/net/server.cpp:83-122 | for every buffer on which the loop ends: appends the replies to all complete requests, in order, and an error text if the parser gives up, which leaves the connection writing; what was sent and what waits is what is owed; an open connection is reading exactly when nothing waits |
| `Connections.Connection.DoRead` | src/net/server.cpp:67-81 | takes in every chunk and parses; at the end of the stream it closes without parsing |
| `Connections.Connection.DoWrite` | src/net/server.cpp:124-142 | for every pattern of short writes: exactly as many bytes go out, in order, as the network takes; what was sent and what waits is what is owed; the state follows |
| `Connections.WritesUntil` | src/net/server.cpp:124-142 | after any number of writes that took something: all is out once there was room for it; otherwise the rest waits if the next would block, and the connection closes if it fails or takes nothing |
| `Connections.Connection.OnIo` | src/net/server.cpp:58-65 | for a client that sends encoded requests, in whatever pieces: the requests that have come whole have been served in order, and bytes sent followed by bytes waiting are the replies to them; the connection is closed exactly when it is closing, at the end of the stream always |
| `Connections.OwedStays` | src/net/server.cpp:116 | requests other connections make later do not change what is owed |
| `Connections.OthersUndisturbed` | src/net/server.cpp:58-65 | what one connection does leaves the invariant of every other one intact |
| `Bytes.StringReadsBack` | src/persistence/rdb.cpp:20-39 | a string shorter than 4 GiB is read back |
| `Bytes.FillAt` | src/persistence/rdb.cpp:36-38 | a short read fills the bytes there are and leaves the others |
| `Bytes.CutString` | src/persistence/rdb.cpp:34-39 | a string whose length is cut short stays empty; one whose bytes are cut short is filled up with zeros |
| `Bytes.AllReadBack` | src/persistence/rdb.cpp:104-146 | a list of values that are each read back is read back |
| `Bytes.AllCut` | src/persistence/rdb.cpp:104-146 | reading a file that was cut off gives the same list, or leaves the file at its end |
| `Bytes.ShortIsNotMarker` | src/persistence/rdb.cpp:148-151 | a short read of the last number is never taken for the end marker, although the bytes there are do land in it |
| `Widths.SignedInverts` | src/persistence/rdb.cpp:61-62 | a negative number survives the unsigned layout |
| `Rdb.ImageIsRead` | src/persistence/rdb.cpp:93-152 | a saved image is read back whole: header, every entry, node and edge, marker |
| `Rdb.ImageByByte` | src/persistence/rdb.cpp:50-84 | the image of one entry, one node and one edge, to the byte |
| `Rdb.HeaderIs` | src/persistence/rdb.cpp:99-102 | a file of bytes is looked at if and only if it begins with these twelve |
| `Rdb.PrefixIsRejected` | src/persistence/rdb.cpp:99-151 | no proper prefix of an image is accepted |
| `Rdb.File.ReadEntries` | src/persistence/rdb.cpp:104-120 | the loop reads as many entries as the count says, from whatever the file holds |
| `Rdb.File.ReadNodes` | src/persistence/rdb.cpp:122-132 | the same for nodes |
| `Rdb.File.ReadEdges` | src/persistence/rdb.cpp:134-146 | the same for edges |
| `Rdb.ReadImage` | src/persistence/rdb.cpp:96-151 | for every file, what is read and whether it is accepted |
| `Rdb.WriteRows` | src/persistence/rdb.cpp:55-82 | a section is its count and its rows in order |
| `Rdb.Save` | src/persistence/rdb.cpp:43-84 | the image of exactly the live entries, all nodes and all edge lists |
| `Rdb.Load` | src/persistence/rdb.cpp:93-152 | for every file: true if and only if it is accepted; the engines hold what they held and what could be read of the file, entries past their deadline skipped; a file without the header changes nothing |
| `Rdb.ResetIsExact` | src/persistence/rdb.cpp:114-119 | an entry whose deadline has passed changes nothing; any other binds its key to its value, with the deadline if that is positive and without one otherwise, and touches no other key |
| `Rdb.PassedIsSkipped` | src/persistence/rdb.cpp:115-118 | an entry due at 100, loaded at 200 |
| `Rdb.SavedIsRestored` | src/persistence/rdb.cpp:43-152 | loading an image into empty engines, at the clock reading of the save or any later one, is accepted and restores every key that shows then with its value, its deadline unless that is negative, and no other key, all metadata, and every node's edge list in order |
| `Rdb.AllComesBack` | src/persistence/rdb.cpp:114-119 | setting the saved entries anew in an empty engine, at once or later, gives the store that shows then if and only if no key that shows has a negative deadline |
| `Rdb.NegativeDeadlineIsLost` | src/persistence/rdb.cpp:114-119 | a stored deadline of -5: saved, not restored |

## Left out

- Sockets, epoll, timers, event descriptors, fork, file names and rename, printing, configuration, the command line, the benchmarks: input and output without provable content. The stream and the file are sequences of bytes.
- `Dispatcher`: an arbitrary function from the requests made so far to the reply to the last one.
- The thread-pool path of `try_parse`, which is never taken (src/net/server.cpp:98), and `ThreadPool`.
- Arena, slab and pool allocators: allocation succeeds. String interning is the label itself.
- Float rounding in scores, infinities and values that are not numbers; integers are unbounded except where a width decides a result (counts and lengths in the protocol, deadlines, the numbers in a snapshot, rounding up to a power of two).
- The random generator: any level from 1 to 16.
- `nodes_by_label`, `reverse_neighbors`, `size` and other accessors: they would add easy members only.
- Connections.Connection.TryParse: asks that the buffer settle, as the original does not come back otherwise.
- Connections.Connection.DoRead: asks the same of what it reads.
- RobinHood.RobinHoodMap.constructor: asks for a capacity that rounds up to a power of two, as the original masks the hash with the capacity less one, and with no power of two that leaves slots out of reach.
- RobinHood.RobinHoodMap.Set: tests the load exactly, where the original compares floats and above 2^24 entries can take a few more before it grows.
- Bfs.BfsPath: asks for a source among the ids the arrays have room for, as the original writes outside them otherwise.
- Csr.BuildCsr: asks for ids from 0 on, as the original writes outside its table otherwise.
- GraphEngines.GraphEngine.CsrOf: asks the same.
- Rdb.Load: reads the whole file before it changes the engines, where the original goes row by row.
- Rdb.SavedIsRestored: asks that strings, ids, deadlines and counts fit the widths of the format, and that the float layout reads back the weights.
- The order of reverse edge lists after a load: forward lists come back in order, reverse lists hold the same edges.
- GraphEngines.GraphEngine.RemoveNode: values indexed for an id that is no node stay, as in the original.
- The forward array of a skip node and the `update` array of a search are sequences of node references.
- Freed memory: a removed skip node is unlinked and forgotten, not freed.
