# akar, verified

A Dafny model of the algorithmic core of akar, an embedded graph database, with
proofs of what that core promises.

- **Graph algorithms** (akar-algo, akar-graph): strongly connected components by
  Tarjan and by Kosaraju, k-core, Dijkstra, Brandes betweenness, breadth-first
  searches, closeness, union-find, triangles, Louvain, spreading activation and
  PageRank. Each is an imperative method over the compressed-sparse-row adjacency,
  proved against a specification that does not mention it: reachability, least
  path weight, number of shortest paths, largest k-set, partition, modularity.
- **Memory governor** (akar-common): a state machine of the atomic accesses that
  threads make to a shared pool, and the governor's calls as a state machine with
  objects that refine it.
- **Avro decoder** (akar-iceberg): the encodings of the Apache Avro 1.11
  specification, sections "Binary Encoding" and "Object Container Files", and a
  decoder that inverts every one of them.
- **Calendar arithmetic** (akar-common): Gregorian dates and ISO 8601 text.

How the modules fit together:

- `Graphs`: the adjacency, paths, reachability, hop distance
- `Numbers`, `Digits`, `Buckets`, `Sorting`, `Relabelling`, `Sums`, `ListSums`: words, digits by place, counting-sort placement, sorting, dense class ids, finite sums, sums over lists, shared by the others
- `Tarjan`, `Kosaraju`, `KCore`, `Bfs`, `Closeness`, `Dijkstra`: one algorithm each: specification, invariant, method
- `ClosenessValues`: what a closeness value says
- `Walks`, `Betweenness`, `Brandes`: counting walks, Brandes' recursion, the algorithm
- `Modularity`, `Newman`, `Louvain`, `LouvainRuns`: communities and their quality, the quality by pairs, the algorithm, what its runs report
- `Triangles`, `UnionFind`, `PageRank`: one algorithm each
- `Spread`, `SpreadWaves`, `SpreadSeeds`: the algorithm, its seeds and hops by position, where a seed stands in its own result
- `CsrBuild`, `BuiltGraphs`: building the adjacency, and the theorems' premises for built graphs
- `PoolThreads`, `PoolShrink`, `Governor`, `GovernorAccounts`: the pool under interleaving, what shrinking does there, the governor's calls, the accounts of its runs
- `Avro`, `Utf8`, `AvroCodings`, `AvroSpec`, `AvroFile`, `AvroTruncation`, `AvroReader`: decoding functions, which bytes are text, what they accept, what the specification allows, containers, containers cut short, the cursor-based reader
- `Calendar`, `Timestamps`: dates, ISO text

Scores are reals and ids are naturals. The adjacency of a graph is any valid one,
directed or not, with entries outside the graph allowed, unless a row below says
otherwise. `usize::MAX` is an unspecified number of at least 16 bits that exceeds
the number of nodes.

Where code and documentation disagree, the model follows the code:

- `compute_louvain_weighted` documents its reported number as modularity but divides
  ordered-pair weight by m (`LouvainRuns.ReportedIsNotModularity`). The two agree
  exactly when no weight lies inside communities (`LouvainRuns.ReportedIffNoneInside`).
- `batch_spread_activation` documents that the seed is excluded but does not exclude it
  (`SpreadSeeds.SeedReturned`). The seed is listed exactly when it survives and fewer
  than k nodes have more activation (`SpreadSeeds.SeedInBatch`).
- `shrink_to_reserved` documents that every later reservation is refused. A request for
  no bytes is granted (`Governor.ShrinkRefuses`), and so is one that had passed its check
  (`PoolShrink.AddsAfterShrink`); `PoolShrink.ShrinkStops` says
  exactly when the reservation can still grow.
- The container loop takes a block count that is cut off by the end of the file for the
  end of the blocks (`AvroTruncation.RecordsLost`); `AvroTruncation.CutExactly` says
  exactly which cuts go unnoticed.

## Model

| member | source | states |
|---|---|---|
| `Tarjan.ComputeSccTarjan` | akar-core/akar-algo/src/lib.rs:919-1004 | For every directed graph, two nodes get the same id exactly when each reaches the other; ids are 0..k-1 without gaps; an edge that leaves a component leads to a smaller id. |
| `Tarjan.TurnKeeps` | akar-core/akar-algo/src/lib.rs:952-996 | One turn of the explicit-stack loop, whichever branch it takes, keeps the invariant of the search: the stacks, indices, low links and emitted components stay as the algorithm needs them. |
| `Tarjan.DiscoverKeeps` | akar-core/akar-algo/src/lib.rs:944-973 | Entering a new node keeps that invariant. |
| `Tarjan.LookKeeps` | akar-core/akar-algo/src/lib.rs:957-975 | Passing an entry that leads to a known node, with its low-link update, keeps that invariant. |
| `Tarjan.LeaveKeeps` | akar-core/akar-algo/src/lib.rs:976-984 | Leaving a node that is not the root of its component, with the low link handed to its parent, keeps that invariant. |
| `Tarjan.EmitKeeps` | akar-core/akar-algo/src/lib.rs:980-994 | Popping a component keeps that invariant; the emitted ids are final. |
| `Tarjan.SegmentClosed` | akar-core/akar-algo/src/lib.rs:984-994 | When a node is left with its low link at its own index, an edge out of what is on the component stack from it on leads back into it or to an emitted node. |
| `Tarjan.SegmentMutual` | akar-core/akar-algo/src/lib.rs:984-994 | Everything on the component stack from that node on is strongly connected with it. |
| `Tarjan.SegmentReach` | akar-core/akar-algo/src/lib.rs:984-994 | Whatever can be reached from that node is in that part of the stack or emitted. |
| `Tarjan.SegmentIsComponent` | akar-core/akar-algo/src/lib.rs:984-994 | So that part of the stack is exactly the strongly connected component of the node. |
| `Tarjan.PopComponent` | akar-core/akar-algo/src/lib.rs:986-992 | The pop loop removes exactly the nodes whose index is at least the root's, clears their flags and writes the component id to them and to no other node. |
| `Tarjan.VisitFrom` | akar-core/akar-algo/src/lib.rs:944-996 | The search from a start node visits it, keeps the invariant and leaves no active node. |
| `Kosaraju.ComputeSccKosaraju` | akar-core/akar-algo/src/lib.rs:1009-1123 | The ids tell strongly connected nodes as Tarjan's do, have no gaps, and ascend along edges that leave a component. |
| `Graphs.SamePartition` | akar-core/akar-algo/src/lib.rs:919-1123 | Any two labellings that tell components apart by strong connectivity are the same partition; so Tarjan and Kosaraju agree. |
| `Kosaraju.FinishOrder` | akar-core/akar-algo/src/lib.rs:1014-1047 | The first search lists all nodes once, such that an edge out of a node finished no later than y leads to a node finished no later than y or to one that reaches y. |
| `Kosaraju.TurnKeeps` | akar-core/akar-algo/src/lib.rs:1027-1046 | One turn of the first search keeps its invariant. |
| `Kosaraju.Climb` | akar-core/akar-algo/src/lib.rs:1097-1116 | Outside a union of components, a node that reaches the latest finished one is reached from it. |
| `Kosaraju.FoundIsComponent` | akar-core/akar-algo/src/lib.rs:1097-1116 | What a finished reverse search has found is exactly the strongly connected component of its start. |
| `Kosaraju.CloseComponent` | akar-core/akar-algo/src/lib.rs:1104-1115 | Adding what a finished reverse search has found keeps the emitted part whole, closed under predecessors, numbered without gaps and ascending along edges. |
| `Kosaraju.ReverseCsr` | akar-core/akar-algo/src/lib.rs:1053-1087 | The counting-sort construction yields a flat table in which the slice of a node lists exactly the sources of its incoming edges. |
| `Kosaraju.PrefixSums` | akar-core/akar-algo/src/lib.rs:1068-1071 | In-place prefix sums turn the counts into the starts of the slices. |
| `Kosaraju.CollectComponent` | akar-core/akar-algo/src/lib.rs:1102-1115 | The reverse search gives the current id to everything it finds, all of which reaches its start, leaves no predecessor of it unvisited, and changes no id given before. |
| `KCore.ComputeKCore` | akar-core/akar-algo/src/lib.rs:1133-1204 | On a symmetric graph, parallel edges and loops included, core[v] is the largest k for which v lies in a node set whose members each have at least k entries into the set. |
| `KCore.CoreStep` | akar-core/akar-algo/src/lib.rs:1171-1197 | The degree of a remaining node of least degree is its core number, and what has been shown of the other cores carries over to the remaining set without it. |
| `KCore.DecrementBuckets` | akar-core/akar-algo/src/lib.rs:1182-1195 | The swap that lowers a neighbour's degree keeps `vert` and `pos` inverse permutations, `vert` sorted by degree and every bucket start above the level right. |
| `KCore.TakenAll` | akar-core/akar-algo/src/lib.rs:1177-1196 | After all entries of the node have been processed, every remaining degree is the number of entries into the remaining set, but at least the level. |
| `KCore.Decrement` | akar-core/akar-algo/src/lib.rs:1182-1195 | The array updates of one decrement are that swap. |
| `KCore.ProcessNode` | akar-core/akar-algo/src/lib.rs:1171-1197 | Processing one position of the bucket order keeps the whole invariant. |
| `KCore.BucketSort` | akar-core/akar-algo/src/lib.rs:1145-1169 | The counting sort leaves the nodes ordered by degree, with inverse positions and right bucket starts. |
| `Bfs.BreadthFirst` | akar-core/akar-graph/src/algorithms.rs:27-71 | Distances are least hop counts, absent exactly for unreachable nodes; each parent is one hop closer along an edge; a source out of range gives absent entries only. |
| `Bfs.ShortestPath` | akar-core/akar-graph/src/algorithms.rs:215-254 | The early exit returns the least hop count, or nothing exactly when the target is unreachable or an argument is out of range. |
| `Bfs.ReachableWithin` | akar-core/akar-graph/src/algorithms.rs:259-297 | The result lists, once each, exactly the nodes within the bound. |
| `Bfs.EarlyExitAgrees` | akar-core/akar-graph/src/algorithms.rs:215-254 | The early exit returns what the full search finds at the target. |
| `Bfs.BoundedAgrees` | akar-core/akar-graph/src/algorithms.rs:259-297 | The bounded search lists the nodes that the full search finds within the bound. |
| `Bfs.Exhausted` | akar-core/akar-algo/src/lib.rs:2160-2188 | When the queue is used up, every distance is exact and every node within the bound has one. |
| `Bfs.Beyond` | akar-core/akar-graph/src/algorithms.rs:232-250 | A node not yet discovered is further away than the node at hand; so the first discovery of the target is at its distance. |
| `Bfs.Expand` | akar-core/akar-algo/src/lib.rs:2162-2175 | Expanding one node of the queue keeps the search invariant and changes no distance already set. |
| `Bfs.Search` | akar-core/akar-algo/src/lib.rs:2368-2388 | From a clean distance buffer the search ends with every queued node expanded, which `Bfs.Exhausted` turns into exact distances. |
| `Closeness.AllSpDestinations` | akar-core/akar-algo/src/lib.rs:2355-2404 | For every source, over buffers reset only where they were written, the value is the number of other nodes it reaches. |
| `Closeness.ComputeCloseness` | akar-core/akar-algo/src/lib.rs:1374-1441 | For every source the value is the Wasserman-Faust formula of the number of nodes it reaches and the sum of their hop distances; graphs of at most two nodes give zeros. |
| `ClosenessValues.ClosenessFacts` | akar-core/akar-algo/src/lib.rs:1422-1428 | Times the distance sum and the square of the number of other nodes, the value is the cube of the number reached; it is 0 if none is, never above 1, and 1 exactly if an edge leads to every other node. |
| `ClosenessValues.DistanceAtLeast` | akar-core/akar-algo/src/lib.rs:1401-1407 | The distance sum is at least the number of nodes reached, and equal to it exactly if an edge leads to each. |
| `Closeness.ClosenessFrom` | akar-core/akar-algo/src/lib.rs:1396-1433 | One source: the formula of an independent search, and a distance buffer that is clean again. |
| `Closeness.Reset` | akar-core/akar-algo/src/lib.rs:1431-1433 | Resetting the queued nodes alone leaves no written entry behind. |
| `Closeness.SearchCount` | akar-core/akar-algo/src/lib.rs:1422-1422 | One less than the queue length is the number of other reachable nodes. |
| `Closeness.SearchSum` | akar-core/akar-algo/src/lib.rs:1401-1407 | The distances added up in queue order are the distance sum over all reachable nodes. |
| `Dijkstra.WeightedShortestPath` | akar-core/akar-algo/src/lib.rs:2268-2314 | With non-negative weights the run ends; the nodes whose entries it relaxes are exactly the reachable ones, once each despite stale heap entries and in order of distance; it returns the least path weight (absent exactly if unreachable), and the parent links trace a path of that weight; a source out of range gives absent entries only. |
| `Dijkstra.Settle` | akar-core/akar-algo/src/lib.rs:2289-2292 | A popped entry that is not stale belongs to a node that was not settled before and carries its recorded distance; settling the node keeps the invariant. |
| `Dijkstra.Turn` | akar-core/akar-algo/src/lib.rs:2288-2312 | One turn of the loop, stale entry or not, keeps the invariant, and either settles a new node or shrinks the heap. |
| `Dijkstra.Relax` | akar-core/akar-algo/src/lib.rs:2294-2310 | Relaxing a settled node's entries keeps the invariant of the heap, the tentative distances and the links. |
| `Dijkstra.Pop` | akar-core/akar-algo/src/lib.rs:2257-2262 | The heap gives up an entry of least distance, and the larger node among equals. |
| `Dijkstra.UnitWeightsAgreeWithBfs` | akar-core/akar-algo/src/lib.rs:2339-2350 | With unit weights the distances are the breadth-first ones. |
| `Brandes.ComputeBetweenness` | akar-core/akar-algo/src/lib.rs:1287-1366 | cb[v] is the sum over ordered pairs s, t other than v of the fraction of shortest s-t paths that pass through v, parallel edges counted as separate paths. |
| `Brandes.SigmaIsNumber` | akar-core/akar-algo/src/lib.rs:1334-1338 | When the forward phase of a source ends, sigma[w] is the number of shortest paths from the source to w. |
| `Brandes.ForwardDone` | akar-core/akar-algo/src/lib.rs:1311-1340 | The forward phase leaves exact distances, path counts and full predecessor lists, and touches no unreachable node. |
| `Brandes.CountPaths` | akar-core/akar-algo/src/lib.rs:1306-1340 | The forward loop runs to that state from clean buffers. |
| `Brandes.HandedAll` | akar-core/akar-algo/src/lib.rs:1343-1348 | When a popped node has handed its share to every predecessor, every delta is the part of the dependency that the popped nodes account for. |
| `Brandes.PopKeeps` | akar-core/akar-algo/src/lib.rs:1343-1358 | Popping a node, handing its share to its predecessors, adding it to the result and resetting its entries keeps the invariant of the backward phase. |
| `Brandes.FromSource` | akar-core/akar-algo/src/lib.rs:1305-1359 | One source adds its dependencies to the result and leaves every scratch buffer at its default. |
| `Betweenness.DependencyRecursion` | akar-core/akar-algo/src/lib.rs:1343-1352 | Brandes' theorem: the dependency of s on v is the sum, over the nodes w one hop further behind v, of sigma(v) / sigma(w) times one plus the dependency on w, for each edge. |
| `Betweenness.VisitingCard` | akar-core/akar-algo/src/lib.rs:1334-1348 | The shortest s-t paths through v number sigma(s, v) times the number of walks from v to t of the remaining length. |
| `Betweenness.ShortestMembers` | akar-core/akar-algo/src/lib.rs:1334-1348 | The walks counted as shortest paths are exactly those of least length between their ends. |
| `Walks.NumberJoin` | akar-core/akar-algo/src/lib.rs:1334-1348 | Walks from s to x and from x to t join to walks from s to t of the summed length. |
| `Walks.ViaCard` | akar-core/akar-algo/src/lib.rs:1334-1348 | The walks that are at a given node after a given number of steps are counted by the product of the two parts' counts. |
| `Louvain.ComputeLouvain` | akar-core/akar-algo/src/lib.rs:1560-1795 | The labels number the communities of the last pass in order of first appearance; pass i visits the nodes in the i-th order of the seed and plans a best move for each; by position in that order, a move takes place exactly if it leads elsewhere and its target is not the node of an earlier move of the pass that took place, its node is then in the target's community, and every other node stays; passes go on until one moves nothing or the limit is reached; on undirected input a run that stops of itself ends in communities that no single node can improve by more than `min_gain`, and the reported number is the stated function of the final communities; no nodes or zero total weight gives zeros. |
| `Louvain.ApplyMove` | akar-core/akar-algo/src/lib.rs:1728-1753 | Every applied move keeps `sigma_tot[c]` equal to the members' degree sum and, on undirected loop-free input, `sigma_in[c]` equal to the ordered-pair weight inside c. |
| `Louvain.BooksMove` | akar-core/akar-algo/src/lib.rs:1749-1752 | The four updates of a move are exactly the change of those sums. |
| `Louvain.BooksTotal` | akar-core/akar-algo/src/lib.rs:1749-1752 | The recorded degree sums add up to 2m at all times. |
| `Modularity.GainIsChange` | akar-core/akar-algo/src/lib.rs:1695-1705 | The gain expression equals the change in the sum over communities of internal edge weight over m less the squared degree sum over 2m, when the node alone moves. |
| `Modularity.GainAlgebra` | akar-core/akar-algo/src/lib.rs:1704-1705 | The identity behind it, for all reals with m not zero. |
| `Newman.QualityByPairs` | akar-core/akar-algo/src/lib.rs:1695-1769 | The quality is the modularity: over all ordered pairs of nodes of one community, the share of the weight between them less the product of their shares of the degrees. |
| `Newman.DegreeIsRow` | akar-core/akar-algo/src/lib.rs:1582-1596 | A node's weighted degree is the sum of its row of the weight matrix. |
| `Louvain.Gather` | akar-core/akar-algo/src/lib.rs:1673-1686 | Generation stamps: after the scan the stamped slots hold exactly the node's weight into each neighbouring community. |
| `Louvain.BestMove` | akar-core/akar-algo/src/lib.rs:1667-1710 | The recorded move is to the neighbouring community of largest gain, the smallest id among equals; staying means that none exceeds `min_gain`. |
| `Louvain.MoveGain` | akar-core/akar-algo/src/lib.rs:1696-1714 | The gain of a recorded move is the change of quality it would make alone, more than `min_gain`, and at least that of every other neighbouring community. |
| `Louvain.Plan` | akar-core/akar-algo/src/lib.rs:1664-1715 | A pass records the improving moves of all nodes of the visiting order against the communities at its start. |
| `Louvain.ApplyAll` | akar-core/akar-algo/src/lib.rs:1720-1756 | By position in the list of moves, the same: the claim stamps drop exactly the moves into the community named after a node that has moved in this pass; `improved` is set exactly if one takes place. |
| `Louvain.PlanApplied` | akar-core/akar-algo/src/lib.rs:1664-1756 | Listing only the moves that lead elsewhere and applying the list is a pass over the whole plan. |
| `Louvain.ResolvedUnique` | akar-core/akar-algo/src/lib.rs:1720-1756 | Which moves take place, and the communities after them, are determined by the list. |
| `Louvain.NothingTaken` | akar-core/akar-algo/src/lib.rs:1720-1756 | Nothing takes place exactly if every decision is to stay. |
| `Louvain.StillIsOptimal` | akar-core/akar-algo/src/lib.rs:1650-1757 | A pass that moves nothing shows its communities locally optimal, whatever its visiting order: no node gains more than `min_gain` of quality by joining a neighbour's community. |
| `Louvain.StoppedIsOptimal` | akar-core/akar-algo/src/lib.rs:1650-1757 | So a run whose last pass moved nothing ends in locally optimal communities. |
| `Louvain.Shuffle` | akar-core/akar-algo/src/lib.rs:1618-1635 | The order after a seeded shuffle is the stated function of the order before and the seed. |
| `Louvain.OrderAtIsOrder` | akar-core/akar-algo/src/lib.rs:1618-1635 | Every pass visits every node once; without a seed, in the order of the ids. |
| `Louvain.ShuffledLast` | akar-core/akar-algo/src/lib.rs:1629-1634 | The last open place gets what stands at the place drawn, and the places behind it keep what they have. |
| `Louvain.DrawsClosed` | akar-core/akar-algo/src/lib.rs:1625-1628 | The k-th state of the generator is, to 64 bits, the seed times the k-th power of the factor plus the sum of its lower powers. |
| `LouvainRuns.SeedDeterminesRun` | akar-core/akar-algo/src/lib.rs:1560-1795 | Two runs on the same graph with the same seed, gain and limit go through the same communities and give the same labels. |
| `Louvain.Report` | akar-core/akar-algo/src/lib.rs:1761-1769 | The sum over the communities seen for the first time is the sum over all communities. |
| `Louvain.ReportedExceeds` | akar-core/akar-algo/src/lib.rs:1767-1767 | The reported number is the modularity plus the weight inside communities over 2m. |
| `LouvainRuns.ReportedIsNotModularity` | akar-core/akar-algo/src/lib.rs:1757-1769 | One edge between two nodes, and one pass: the number reported is 1, the modularity is 0. |
| `LouvainRuns.ReportedIffNoneInside` | akar-core/akar-algo/src/lib.rs:1757-1769 | The two agree exactly when no weight lies inside communities. |
| `LouvainRuns.AloneStays` | akar-core/akar-algo/src/lib.rs:1650-1757 | From single nodes, a pass moves nothing exactly when no edge joins two nodes whose union gains more than `min_gain`, a condition on the input alone. |
| `LouvainRuns.UnmovedIsModularity` | akar-core/akar-algo/src/lib.rs:1560-1795 | Under that condition, or with a limit of no passes, the run ends in single nodes and reports the modularity. |
| `Relabelling.Relabel` | akar-core/akar-algo/src/lib.rs:1774-1785 | Two nodes share a label exactly when they share a representative, and labels are issued in order of first appearance. |
| `Relabelling.RelabelledUnique` | akar-core/akar-algo/src/lib.rs:1774-1785 | A partition has only one such labelling. |
| `Triangles.ComputeTriangleCount` | akar-core/akar-algo/src/lib.rs:1448-1548 | values[v] is the number of triangles through v, where loops, duplicates and entries outside the graph do not count, and the values sum to three times the number of triangles. |
| `Triangles.TrianglesArePairs` | akar-core/akar-algo/src/lib.rs:1444-1548 | On a symmetric graph the triangles through a node are as many as the unordered pairs of its neighbours that are themselves adjacent. |
| `Triangles.TotalTriangles` | akar-core/akar-algo/src/lib.rs:1447-1447 | Every triangle is counted at exactly three nodes. |
| `Triangles.PushRow` | akar-core/akar-algo/src/lib.rs:1475-1497 | Filter, sort and compaction append to the flat array exactly the row of the node, and change nothing before it. |
| `Triangles.RowFacts` | akar-core/akar-algo/src/lib.rs:1475-1497 | That row is strictly ascending and lists exactly the neighbours. |
| `Triangles.Compact` | akar-core/akar-algo/src/lib.rs:1488-1497 | The in-place loop removes repeated entries of a sorted slice. |
| `Triangles.PartitionPoint` | akar-core/akar-algo/src/lib.rs:1507-1519 | The index separates the entries up to a value from those above it. |
| `Triangles.Intersect` | akar-core/akar-algo/src/lib.rs:1522-1539 | The merge raises the counts of the three nodes once for every common entry of two ascending rows. |
| `Triangles.CountFrom` | akar-core/akar-algo/src/lib.rs:1501-1541 | From one node exactly the triangles in which it is smallest are added. |
| `Spread.BatchSpreadActivation` | akar-core/akar-algo/src/lib.rs:1991-2045 | Over the adjacency built from the edges, every distinct seed's result is the first k entries of an independent run from fresh buffers with that seed's last given activation; empty input gives no results. |
| `SpreadWaves.LastAtIs` | akar-core/akar-algo/src/lib.rs:2025-2042 | The activation a batch runs a position with is the one given last for it. |
| `SpreadWaves.TopEntries` | akar-core/akar-algo/src/lib.rs:2038-2039 | A batch keeps the first k entries, or all there are. |
| `Spread.SpreadFrom` | akar-core/akar-algo/src/lib.rs:1852-1954 | On buffers as good as new the run returns the hop-by-hop activation as a function of its arguments alone, sorted by activation, and leaves every written entry listed for the reset. |
| `SpreadWaves.SeededAt` | akar-core/akar-algo/src/lib.rs:1868-1878 | After seeding, a node has the activation of the last seed there that is in range and positive, at hop 0; a node without one has none and is not reached. |
| `SpreadWaves.FrontierAt` | akar-core/akar-algo/src/lib.rs:1868-1878 | The seeds taken up spread first, in the order given. |
| `SpreadWaves.VisitedAt` | akar-core/akar-algo/src/lib.rs:1868-1878 | Their nodes are listed in the order in which they first come up. |
| `SpreadWaves.EverySeedListed` | akar-core/akar-algo/src/lib.rs:1852-1954 | Of any list of seeds, the last one taken up at a node is listed exactly when it reaches the threshold, with the activation given and hop 0. |
| `SpreadWaves.ActivatedExactly` | akar-core/akar-algo/src/lib.rs:1940-1951 | The result lists exactly the nodes reached within the hops with at least the threshold, as the last hop left them. |
| `SpreadWaves.HopByEntries` | akar-core/akar-algo/src/lib.rs:1885-1934 | Entry by entry: a hop reaches exactly the unreached nodes to which an entry of a spreading node carries at least the threshold, adds up all that such entries carry, and changes nothing else. |
| `SpreadWaves.TwoSeedsMeet` | akar-core/akar-algo/src/lib.rs:3279-3301 | Two seeds with an edge to a third node each, decay 0.5: it gets half of both. |
| `Spread.SpreadScratch.Reset` | akar-core/akar-algo/src/lib.rs:1838-1849 | Visiting only the listed nodes makes the buffers as good as new. |
| `Spread.OneHop` | akar-core/akar-algo/src/lib.rs:1885-1934 | A hop reaches, in ascending order, exactly the unreached nodes that get a gift of at least the threshold, with the sum of those gifts. |
| `Spread.GatherHop` | akar-core/akar-algo/src/lib.rs:1889-1914 | The stamped buffers hold that sum for every node that gets one. |
| `Spread.Settle` | akar-core/akar-algo/src/lib.rs:1918-1932 | The touched nodes are settled, listed and put on the next frontier. |
| `Spread.Propagate` | akar-core/akar-algo/src/lib.rs:1885-1938 | Stopping at an empty frontier gives what all hops would give. |
| `Spread.AdvanceListed` | akar-core/akar-algo/src/lib.rs:1885-1934 | A hop keeps the visited list free of repetitions and equal to the set of reached nodes. |
| `Spread.ResultOrder` | akar-core/akar-algo/src/lib.rs:1943-1951 | The results are in descending order of activation, and sorting neither loses nor adds any. |
| `SpreadSeeds.SeedListed` | akar-core/akar-algo/src/lib.rs:1852-1954 | A run from one seed lists that seed exactly when it is a node, positive and at least the threshold, with the activation it was given, behind exactly the nodes of more activation. |
| `SpreadSeeds.SeedInBatch` | akar-core/akar-algo/src/lib.rs:2017-2041 | The batch lists a seed in its own result exactly when it does so and fewer than k nodes of that run have more activation. |
| `SpreadSeeds.SeedInRoomyBatch` | akar-core/akar-algo/src/lib.rs:2017-2041 | With k at least the number of nodes it is listed exactly when it survives, and with k zero never. |
| `SpreadSeeds.SeedReturned` | akar-core/akar-algo/src/lib.rs:2017-2041 | Two nodes joined by two edges, k = 2: the seed is in its own result, although the documentation says that it is left out. |
| `SpreadSeeds.SeedDropped` | akar-core/akar-algo/src/lib.rs:2017-2041 | The same graph, k = 1: the other node has more activation, and the seed is cut off. |
| `UnionFind.WeaklyConnectedComponents` | akar-core/akar-graph/src/algorithms.rs:143-208 | Two nodes get the same label exactly when they are connected ignoring direction; labels are issued in order of first appearance. |
| `UnionFind.SpanningForest` | akar-core/akar-algo/src/lib.rs:2052-2134 | The same for the entries that lead to a larger node, with the labels taken from the parent array returned: its links lead to roots of their own class, ranks strictly increase along them and a root of rank r has at least 2^r nodes. |
| `UnionFind.SameLabels` | akar-core/akar-algo/src/lib.rs:2052-2134 | On a symmetric graph both algorithms return the identical label vector. |
| `UnionFind.UpEnough` | akar-core/akar-algo/src/lib.rs:2096-2106 | On a symmetric graph the ascending entries connect what all entries connect. |
| `UnionFind.Find` | akar-core/akar-graph/src/algorithms.rs:149-161 | Both passes end; the result is the root, every node on the way is hung below it, and no class changes. |
| `UnionFind.Union` | akar-core/akar-graph/src/algorithms.rs:164-170 | The two classes become one, and no other class changes. |
| `UnionFind.UnionByRank` | akar-core/akar-algo/src/lib.rs:2080-2093 | The same, with ranks kept increasing along parents and bounded by the tree sizes. |
| `UnionFind.RankLogarithmic` | akar-core/akar-algo/src/lib.rs:2080-2093 | No rank exceeds the binary logarithm of the number of nodes. |
| `UnionFind.CoveredAll` | akar-core/akar-graph/src/algorithms.rs:172-181 | When every entry has been processed, the classes are the connected components. |
| `UnionFind.CompressAll` | akar-core/akar-graph/src/algorithms.rs:184-186 | After the last pass every parent is the root. |
| `PageRank.ComputePageRank` | akar-core/akar-graph/src/algorithms.rs:77-138 | The result is the last of the iterates from the uniform vector; iteration stops at the first step shorter than the tolerance or at the limit; with targets in range and damping in [0, 1] it stops by tolerance after at most k + 1 iterations once 2 damping^k is below the tolerance. |
| `PageRank.OneIteration` | akar-core/akar-graph/src/algorithms.rs:98-124 | The loops over nodes and entries compute one iteration: teleporting share, shares along entries, dangling mass spread evenly. |
| `PageRank.RankByEntries` | akar-core/akar-graph/src/algorithms.rs:98-124 | Entry by entry: the new rank is an even part of what teleports, the damped rank of every node with an entry there in equal parts, and an even part of the damped rank of the nodes without entries. |
| `PageRank.IterateProper` | akar-core/akar-graph/src/algorithms.rs:77-138 | With targets in range and damping in [0, 1], every iterate sums to 1 and no entry is below (1 - damping) / n. |
| `PageRank.MassKept` | akar-core/akar-graph/src/algorithms.rs:98-124 | An iteration maps mass M to 1 - damping + damping * M, dangling mass included. |
| `PageRank.Contracts` | akar-core/akar-graph/src/algorithms.rs:98-127 | An iteration brings any two non-negative vectors closer in L1 distance by the damping factor. |
| `PageRank.StepsShrink` | akar-core/akar-graph/src/algorithms.rs:97-131 | So every step is at most the damping factor times the step before. |
| `PageRank.StepBound` | akar-core/akar-graph/src/algorithms.rs:97-131 | The k-th step is at most 2 damping^k long. |
| `PageRank.ToleranceReached` | akar-core/akar-graph/src/algorithms.rs:97-131 | Damping below 1 and a positive tolerance: 2 damping^k is below the tolerance for every k of at least 2 / (tolerance (1 - damping)). |
| `CsrBuild.Build` | akar-core/akar-graph/src/graph.rs:65-112 | Offsets start at 0, are monotone and end at 2|E|; the slice of a node lists its incident edges in order, each with the other end, loops twice. |
| `CsrBuild.EdgeStored` | akar-core/akar-graph/src/graph.rs:89-105 | An edge is listed at either end, with its ids and the other end, behind the ends of the edges before it; a loop takes two places. |
| `CsrBuild.BuiltSymmetric` | akar-core/akar-graph/src/graph.rs:89-105 | Between two nodes there are as many entries one way as the other. |
| `CsrBuild.BuiltInRange` | akar-core/akar-graph/src/graph.rs:89-105 | All targets lie in the graph. |
| `CsrBuild.SelectIsIncident` | akar-core/akar-graph/src/graph.rs:89-105 | The counting-sort buckets are the incident edges. |
| `CsrBuild.CountEnds` | akar-core/akar-graph/src/graph.rs:70-74 | The 32-bit degree counters hold the number of edge ends at each node, wrapped. |
| `CsrBuild.SlotsExact` | akar-core/akar-graph/src/graph.rs:70-82 | The counters set aside a slot for every entry exactly when no node has 2^32 or more ends. |
| `CsrBuild.Starts` | akar-core/akar-graph/src/graph.rs:77-82 | The running sum gives the bucket starts. |
| `CsrBuild.Fill` | akar-core/akar-graph/src/graph.rs:86-105 | Writing through the moving positions puts every half-edge into the next free slot of its bucket. |
| `Buckets.FillOne` | akar-core/akar-graph/src/graph.rs:86-105 | Writing one item to its position keeps all buckets filled in order and all positions right. |
| `BuiltGraphs.CoreSymmetric` | akar-core/akar-graph/src/graph.rs:65-112 | A built adjacency has the symmetry that the k-core theorem needs. |
| `BuiltGraphs.EdgesSymmetric` | akar-core/akar-graph/src/graph.rs:65-112 | It has the symmetry that the triangle and union-find theorems need. |
| `BuiltGraphs.LouvainUndirected` | akar-core/akar-graph/src/graph.rs:65-112 | Without loops and with equal weights both ways, it has the symmetry that Louvain's theorems need. |
| `AvroSpec.RoundTrip` | akar-core/akar-iceberg/src/avro.rs:289-370 | For every schema, value and encoding of it that the specification allows (any cut into blocks, negative counts with byte sizes, padded varints), followed by any bytes, decoding returns exactly the value and exactly the trailing bytes. |
| `AvroSpec.LittleDigits` | akar-core/akar-iceberg/src/avro.rs:307-316 | The bytes of a float or double are the base-256 digits of its bit pattern, the least significant first. |
| `AvroSpec.GroupDigits` | akar-core/akar-iceberg/src/avro.rs:227-248 | The groups of a varint are the base-128 digits of its value, the least significant first. |
| `AvroSpec.LongByBytes` | akar-core/akar-iceberg/src/avro.rs:227-248 | At most ten bytes, all but the last with the top bit set, whose other bits are the digits of the zig-zag number, are read as the integer. |
| `AvroSpec.IntWraps` | akar-core/akar-iceberg/src/avro.rs:298-301 | An `int` or enum index beyond 32 bits is read as the 32-bit integer congruent to it. |
| `Utf8.ValidExactly` | akar-core/akar-iceberg/src/avro.rs:260-261 | The bytes accepted as a string are exactly those of a sequence of Unicode scalar values. |
| `Digits.NumberDigits` | akar-core/akar-iceberg/src/avro.rs:227-316 | The digits a number is put together from are its digits by place. |
| `Digits.DigitsNumber` | akar-core/akar-iceberg/src/avro.rs:227-316 | A number is put together from its digits by place. |
| `AvroSpec.EncodingFits` | akar-core/akar-iceberg/src/avro.rs:289-370 | Every allowed encoding is one the decoder tolerates, with the value it encodes. |
| `AvroSpec.Encodable` | akar-core/akar-iceberg/src/avro.rs:289-370 | Every value of the schema's type has an allowed encoding. |
| `AvroSpec.DecodableValues` | akar-core/akar-iceberg/src/avro.rs:289-370 | The values that can be decoded are exactly the values of the schema's type. |
| `AvroCodings.DecodesExactly` | akar-core/akar-iceberg/src/avro.rs:289-370 | Decoding succeeds with value v and rest r exactly on the bytes of a coding that fits the schema and denotes v, followed by r. |
| `AvroCodings.CodingRead` | akar-core/akar-iceberg/src/avro.rs:289-370 | Every fitting coding is decoded to its value, by induction on the schema. |
| `AvroCodings.CodingFound` | akar-core/akar-iceberg/src/avro.rs:289-370 | Whatever is decoded is the serialization of a fitting coding. |
| `AvroCodings.DecodeExtends` | akar-core/akar-iceberg/src/avro.rs:289-370 | Bytes after a decoded value do not influence it. |
| `AvroCodings.LongRead` | akar-core/akar-iceberg/src/avro.rs:227-248 | Any varint of at most ten groups is read as its 64-bit zig-zag value. |
| `AvroCodings.VarintLayout` | akar-core/akar-iceberg/src/avro.rs:232-240 | Every group is a byte; all but the last have the top bit set. |
| `AvroCodings.LongFound` | akar-core/akar-iceberg/src/avro.rs:227-248 | Whatever is read as a long is such a varint. |
| `AvroCodings.HeaderRead` | akar-core/akar-iceberg/src/avro.rs:279-287 | A block header gives its item count, with the ignored byte size after a negative count; the least 64-bit count gives no items. |
| `AvroSpec.LongWritten` | akar-core/akar-iceberg/src/avro.rs:227-248 | The zig-zag varint of a 64-bit integer is read back as that integer. |
| `AvroFile.FileExactly` | akar-core/akar-iceberg/src/avro.rs:115-156 | The block loop succeeds exactly on sequences of well-framed blocks, followed by nothing or by at most nine bytes of an unfinished count, and returns the records of all blocks in order. |
| `AvroFile.FileRoundTrip` | akar-core/akar-iceberg/src/avro.rs:88-157 | Reading a container gives back the records written to it, however they were cut into blocks. |
| `AvroFile.EndOfBlocks` | akar-core/akar-iceberg/src/avro.rs:116-121 | The loop ends without an error exactly at fewer than ten bytes that all announce a further byte. |
| `AvroFile.UnknownCodec` | akar-core/akar-iceberg/src/avro.rs:134-145 | Under a codec that is neither null nor deflate no block is read, and the end of the blocks is still found. |
| `AvroFile.LookupLast` | akar-core/akar-iceberg/src/avro.rs:96-108 | Of metadata entries with the same key the last counts. |
| `AvroFile.LookupNone` | akar-core/akar-iceberg/src/avro.rs:96-108 | A key without an entry is not found. |
| `AvroTruncation.CutExactly` | akar-core/akar-iceberg/src/avro.rs:115-156 | A sequence of well-framed blocks that was cut short is accepted exactly where the cut is between blocks or strictly inside a block count, and then gives the records of the whole blocks before the cut. |
| `AvroTruncation.CutFile` | akar-core/akar-iceberg/src/avro.rs:88-156 | The same of a container file cut short behind its header. |
| `AvroTruncation.BlockCut` | akar-core/akar-iceberg/src/avro.rs:116-147 | A block cut inside its count ends the loop; cut anywhere after it, it is an error. |
| `AvroTruncation.RecordsLost` | akar-core/akar-iceberg/src/avro.rs:116-121 | A file of 64 records, cut after its first byte, reads as a file of none. |
| `AvroReader.Reader.Long` | akar-core/akar-iceberg/src/avro.rs:227-248 | The loop over a moving cursor with 64-bit shifts reads what the specification function reads. |
| `AvroReader.Reader.Exact` | akar-core/akar-iceberg/src/avro.rs:230-233 | Reading a number of bytes moves the cursor past them, or fails at the end of the data. |
| `AvroReader.Reader.Blob` | akar-core/akar-iceberg/src/avro.rs:264-275 | A length within the limit and that many bytes, or the error of the first check that fails. |
| `AvroReader.Reader.Utf8` | akar-core/akar-iceberg/src/avro.rs:250-262 | The same for strings, which must be UTF-8. |
| `AvroReader.Reader.BlockCount` | akar-core/akar-iceberg/src/avro.rs:279-287 | The count of the next block, with the byte size skipped after a negative one. |
| `AvroReader.Reader.Value` | akar-core/akar-iceberg/src/avro.rs:289-370 | The recursive decoder on a cursor returns what the decoding function returns and leaves the cursor where it says. |
| `AvroReader.Reader.Fields` | akar-core/akar-iceberg/src/avro.rs:317-324 | The loop over record fields decodes them in order. |
| `AvroReader.Reader.Blocks` | akar-core/akar-iceberg/src/avro.rs:329-356 | The loop over blocks collects the items of all blocks up to the empty one. |
| `AvroReader.Reader.Items` | akar-core/akar-iceberg/src/avro.rs:336-354 | The loop over the items of one block. |
| `AvroReader.FileBlock` | akar-core/akar-iceberg/src/avro.rs:116-152 | One round of the container loop. |
| `AvroReader.FileBlocks` | akar-core/akar-iceberg/src/avro.rs:115-153 | All rounds of the container loop. |
| `AvroReader.ReadAvroBytes` | akar-core/akar-iceberg/src/avro.rs:88-156 | Magic, metadata map (later entries win), schema and codec lookup, sync marker and blocks, with every error case. |
| `AvroReader.Inserted` | akar-core/akar-iceberg/src/avro.rs:373-387 | The metadata map holds the last entry of every key. |
| `PoolThreads.ReservedBound` | akar-core/akar-common/src/query_pool.rs:98-163 | In every interleaving of the pool's atomic accesses by T threads with requests of at most B bytes, the reservation never exceeds the largest grant of the run plus (T - 1) B, while that is below 2^64. |
| `PoolThreads.RunBounded` | akar-core/akar-common/src/query_pool.rs:98-163 | Stronger: what is reserved plus what threads past the check will still add stays within that bound. |
| `PoolThreads.BoundedStep` | akar-core/akar-common/src/query_pool.rs:98-163 | Every atomic step of every thread keeps it. |
| `PoolThreads.ReservedBoundTight` | akar-core/akar-common/src/query_pool.rs:146-153 | The bound is reached for every T and B: there is a run that reserves T requests against a grant of one. |
| `PoolShrink.CallerBound` | akar-core/akar-common/src/query_pool.rs:93-163 | Against the grants that callers set, with j shrinks in the run: the reservation never exceeds the largest of them plus (j + 1)(T - 1) B, while that is below 2^64. |
| `PoolShrink.CallerBoundTight` | akar-core/akar-common/src/query_pool.rs:93-163 | That bound is reached for every T, B and j. |
| `PoolShrink.CallerBoundBroken` | akar-core/akar-common/src/query_pool.rs:93-163 | Two threads, one byte, one shrink: three bytes are reserved against a grant of one, more than the bound without shrinks allows. |
| `PoolShrink.UnshrunkBound` | akar-core/akar-common/src/query_pool.rs:93-163 | Without a shrink, or with one thread, the largest grant a caller set plus (T - 1) B bounds the reservation. |
| `PoolShrink.RunHasActs` | akar-core/akar-common/src/query_pool.rs:93-163 | Every run is one of the runs whose shrinks are counted here. |
| `PoolShrink.AddsAfterShrink` | akar-core/akar-common/src/query_pool.rs:93-153 | A request that passed its check before a shrink is added after it, although the documentation says that every later reservation is refused. |
| `PoolShrink.ShrinkStops` | akar-core/akar-common/src/query_pool.rs:93-153 | After a shrink, while nothing is released and no grant is set, the reservation can still grow exactly when the grant just written exceeds it or another call underway can still add to it. |
| `PoolShrink.RunSane` | akar-core/akar-common/src/query_pool.rs:93-163 | Every state of a run is one of those of which this is stated. |
| `PoolThreads.PeakExact` | akar-core/akar-common/src/query_pool.rs:146-153 | When no call is in flight, the recorded peak is the largest reservation the run ever reached. |
| `PoolThreads.RunPeak` | akar-core/akar-common/src/query_pool.rs:146-153 | At any time that maximum is the larger of the recorded peak and the totals that threads are about to record. |
| `Governor.RunSound` | akar-core/akar-common/src/query_pool.rs:394-511 | In every run of non-overlapping calls the active count is the number of live pools, and ids ascend in the order of granting. |
| `GovernorAccounts.Accounts` | akar-core/akar-common/src/query_pool.rs:146-163 | In every run, a pool's reservation plus what was given back is the sum of the requests granted to it. |
| `GovernorAccounts.PeakIsLargest` | akar-core/akar-common/src/query_pool.rs:146-153 | In every run, a pool's peak is the largest reservation it has had. |
| `GovernorAccounts.WithinGrant` | akar-core/akar-common/src/query_pool.rs:88-163 | In every run, a reservation stays within the grant unless a call has set the grant below it. |
| `GovernorAccounts.RefusalsCounted` | akar-core/akar-common/src/query_pool.rs:427-461 | In every run, the count of rejected queries is the number that the gate turned away. |
| `GovernorAccounts.ShareIsEven` | akar-core/akar-common/src/query_pool.rs:394-416 | A new pool's grant is the largest number of bytes that every active query, the new one included, can have of the threshold. |
| `GovernorAccounts.AdmittedExactly` | akar-core/akar-common/src/query_pool.rs:427-461 | A query is admitted exactly when the pressure is below its ceiling, the active queries are below the cap and the floor times the queries it would join fits the threshold; a rejection is counted and changes nothing else. |
| `Governor.CapHolds` | akar-core/akar-common/src/query_pool.rs:427-461 | Where queries are admitted through the gate alone under one policy, the cap on concurrent queries is never exceeded. |
| `Governor.FloorHolds` | akar-core/akar-common/src/query_pool.rs:427-461 | Nor is a query admitted with a grant below the floor. |
| `Governor.ReclaimDrains` | akar-core/akar-common/src/query_pool.rs:479-511 | Repeated reclaim leaves all live pools without headroom exactly when the calls may touch as many pools as have headroom; one call for every k live pools, rounded up, suffices. |
| `Governor.ReclaimsCandidates` | akar-core/akar-common/src/query_pool.rs:479-511 | Each call takes the headroom of k pools, or of all that have any. |
| `Governor.ShrunkYoungest` | akar-core/akar-common/src/query_pool.rs:501-509 | The pools that lose their headroom are the youngest that have any: of two live pools with headroom, the one with the larger id loses it if the other does. |
| `Governor.ShrunkAt` | akar-core/akar-common/src/query_pool.rs:98-102 | Reclaim changes no id and no reservation: it lowers grants to the reservation. |
| `Governor.ShrinkRefuses` | akar-core/akar-common/src/query_pool.rs:93-102 | Between whole calls: after a shrink, whatever has been requested since, a request is granted exactly if it is for no bytes, and after a release of r bytes exactly if it is for at most r of those reserved. |
| `Governor.NoHeadroomRefuses` | akar-core/akar-common/src/query_pool.rs:146-153 | The same of any pool without headroom, one whose grant is below its reservation included: requests change neither, and only one for no bytes is granted. |
| `Governor.GrantBelowReservation` | akar-core/akar-common/src/query_pool.rs:88-90 | There is a run whose grant ends below the reservation. |
| `Governor.QueryMemoryPool.TryReserve` | akar-core/akar-common/src/query_pool.rs:146-153 | A request is granted exactly if it fits; then it is added to the reservation and the peak covers the sum, otherwise nothing changes. |
| `Governor.QueryMemoryPool.GiveBack` | akar-core/akar-common/src/query_pool.rs:157-163 | The reservation shrinks by what is given back, and to zero if that is more than is reserved. |
| `Governor.QueryMemoryPool.ShrinkToReserved` | akar-core/akar-common/src/query_pool.rs:98-102 | The grant becomes the reservation, no headroom remains, and the headroom that was there is returned. |
| `Governor.QueryMemoryPool.SetGrant` | akar-core/akar-common/src/query_pool.rs:88-90 | The grant is the one given, and nothing else changes. |
| `Governor.MemoryGovernor.GrantNewQuery` | akar-core/akar-common/src/query_pool.rs:394-416 | A new pool gets the next id and an even share of the threshold that counts it. |
| `Governor.MemoryGovernor.Gate` | akar-core/akar-common/src/query_pool.rs:427-461 | Admission or the first reason that applies, with the figures it was judged by; a rejection is counted and changes nothing else. |
| `Governor.MemoryGovernor.DropPool` | akar-core/akar-common/src/query_pool.rs:180-186 | Dropping a pool lowers the active count by one. |
| `Governor.MemoryGovernor.ReclaimPools` | akar-core/akar-common/src/query_pool.rs:479-511 | Dead handles leave the registry, the youngest pools with headroom are shrunk, and the outcome counts them and the exact drop in summed headroom. |
| `Calendar.CivilSuccessor` | akar-core/akar-common/src/types.rs:233-244 | The next day has the calendar successor of the day's date, for every integer. |
| `Calendar.CivilValid` | akar-core/akar-common/src/types.rs:233-244 | Every integer day count has a valid proleptic Gregorian date, which counts back to it. |
| `Calendar.CivilOnto` | akar-core/akar-common/src/types.rs:233-244 | Every valid date belongs to exactly one day. |
| `Calendar.EpochDate` | akar-core/akar-common/src/types.rs:233-244 | Day 0 is the first of January 1970. |
| `Calendar.YearOfEraCorrect` | akar-core/akar-common/src/types.rs:237-237 | The year-of-era expression names the year a day of the era lies in. |
| `Calendar.TomorrowCounts` | akar-core/akar-common/src/types.rs:233-244 | Counting days backwards, tomorrow is one more than today. |
| `Timestamps.IsoRoundTrip` | akar-core/akar-common/src/types.rs:212-230 | Reading the text of a timestamp, the digits of a fraction by their places, gives back the timestamp, negative ones included. |
| `Timestamps.IsoInjective` | akar-core/akar-common/src/types.rs:226-230 | Different timestamps have different texts. |
| `Timestamps.TimeRead` | akar-core/akar-common/src/types.rs:212-222 | The time of day recombines from its printed fields, a fraction read by the places of its digits and left out when zero. |
| `Timestamps.DateRead` | akar-core/akar-common/src/types.rs:206-209 | The date recombines from its printed fields, years of any size and sign included. |
| `Timestamps.IsoForm` | akar-core/akar-common/src/types.rs:226-230 | The text is a date, a T and a time of day, each in its form; there is a fraction exactly if there are microseconds. |
| `Timestamps.TimeForm` | akar-core/akar-common/src/types.rs:212-222 | A time of day has length 8 or 15: colons at 2 and 5, a point at 8, digits elsewhere, and so six digits of fraction. |
| `Timestamps.DateForm` | akar-core/akar-common/src/types.rs:206-209 | A date ends in a hyphen, two digits, a hyphen and two digits behind its year. |
| `Timestamps.YearForm` | akar-core/akar-common/src/types.rs:206-209 | A year has at least four places, the sign included, and no zero in front beyond those. |

## Left out

- Floating-point rounding, NaN and infinities: scores and weights are reals, an infinite distance is an absent value, and ids returned as floats are naturals.
- Weak memory orderings: atomics are sequentially consistent steps; the compare-and-swap loop of `release` is one step; lock poisoning is not modelled.
- `compute_lpa`, `degree_centrality`, `compute_shortest_path` and `compute_page_rank`: label propagation has no clean specification, the others repack results proved here.
- `AlgoExtension::load` and the table functions: registration and column packing.
- Avro JSON schema parsing and the inflater: parameters of the model; any functions.
- Avro sizes: the model does not allocate, so a block size or a `fixed` size that the source cannot allocate is an ordinary failure or success here; a negative container block size, on which the source aborts, is a failure.
- Avro floats are kept as bit patterns, and the or of a varint group into the accumulator is a sum, since no bit is set twice.
- `BinaryHeap` is a multiset with a pop-of-the-top contract, `sort_unstable` and `sort_by` are functions, and `partition_point` is a binary search.
- Dijkstra.WeightedShortestPath: states its result for non-negative weights only, on which Dijkstra's algorithm depends.
- KCore.ComputeKCore: states its result for symmetric graphs, as `build` makes them; entries outside the graph count in every set, as in the source.
- Brandes.ComputeBetweenness: counts paths as reals, so that counts beyond 2^53 do not round.
- PoolThreads.ReservedBound: the largest grant includes grants that `shrink_to_reserved` itself has set; `PoolShrink.CallerBound` is the bound by the grants of callers.
- CsrBuild.Build: for edges whose ends are in range and nodes with fewer than 2^32 ends each; an end out of range aborts in the source, and a counter that wraps leaves too few slots (`CsrBuild.SlotsExact`).
- LouvainRuns.UnmovedIsModularity: the condition on the input is sufficient; nodes that move and end up without weight inside communities are told by `LouvainRuns.ReportedIffNoneInside` only.
- Calendar.CivilFromDays: unbounded integers; within 719468 days of the largest 64-bit integer the source overflows.
- Governor: the pressure ratio is a number given to each call, as is the threshold that the memory manager offers; `note_spill`, `pressure` and `reclaim_under_pressure` add only counters and a guard.
- Spread.SpreadFrom: seeds of a single run may repeat, as in the source; the node activation that frontier entries carry is never read there and is not kept.
- node2vec, random walks, storage, catalog, planner, connectors and tools: not part of this model.
