# Community detection on social graphs, in Dafny

This project models the graph core of the SocialNetworks community-detection
program and proves properties of the model.

- **`egonet` package.**
  - The directed edge (`Edge`) and the vertex (`Node`).
  - The directed graph store `EgoGraph`, its operations, its ego-net extraction
    and Kosaraju's strongly-connected-components search.
- **`graph` package.**
  - The undirected store `CapGraph`, with the same operations.
  - The Brandes edge-betweenness computation and the Girvan–Newman divisive loop.
  - The modularity gain `dQ` of `FastNewman`.
  - The greedy agglomerative merge of `FastNewmanImpl`.

The model follows the source's own form. Each of these is a Dafny `class`
whose fields its methods update in place:

- `Node`: a label and an adjacency list that the stores append to through it;
- `EgoGraph` and `CapGraph`: the label→node map, the node stack, the edge
  list or set, the counters and the betweenness map;
- `FastNewmanImpl`: the step→partition map.

The loops of the source are methods with `while` loops and their invariants.
Each method is proved against a specification function or predicate. Pure
helpers are functions, and the facts that connect them are lemmas.

The modules are:

- **`Edges`** (`edge.dfy`).
  - `egonet.Edge`: the directional `equals`, the `hashCode` with Java's 32-bit
    wrap-around, `compareTo` and `isTailOrHead`.
  - The undirected equality that the graph package's edge class relies on:
    `SameEdge`, and its canonical key `Key`.
- **`Nodes`** (`node.dfy`).
  - The `Node` class.
  - `List.remove(Object)` as `RemoveFirst`.
- **`Iteration`** (`iteration.dfy`): the ascending enumeration of a set of
  labels. It stands for the iteration order of an integer key set.
- **`Reach`** and **`Kosaraju`** (`reach.dfy`, `kosaraju.dfy`).
  - Paths and reachability.
  - The invariants of the two depth-first passes of `getSCCs`. The first pass
    yields a finish order. The second pass grows one tree per unvisited vertex
    over the reversed graph.
- **`EgoGraphs`** (`egograph.dfy`): the directed store.
- **`CapGraphs`** (`capgraph.dfy`): the undirected store and the Girvan–Newman
  driver loop.
- **`Brandes`** (`brandes.dfy`): the breadth-first search and the bottom-up
  accumulation that `edgeBetweenness` runs from every source.
- **`FastNewmans`** and **`TrackKeys`** (`fastnewman.dfy`).
  - `dQ`: the cross-edge count `e_ij` and the degree sums `a_i` and `a_j`.
  - The string-keyed `trackSet` of the source, as written.
- **`FastNewmanImpls`** (`fastnewmanimpl.dfy`).
  - The pair selection.
  - The merge of two communities under the lesser leader.
  - The report of the arrangement before every step of negative dQ.

Java `double`s are Dafny `real`s. Java `int`s are unbounded integers, except
where `hashCode` wraps. Iteration over a `HashSet` or the key set of a
`HashMap` is an arbitrary choice (`:|`) wherever the result does not depend on
the order. Where it does depend on the order, the iteration is the ascending
order of the labels:

- the selection loops of `merge`;
- the vertex stack that `reverse` builds;
- the second loop of both `getEgonet`s, over the neighbour set. In `EgoGraph`
  this order decides the order of the ego graph's edge list.

## Model

| member | source | states |
|---|---|---|
| Edges.Wrap32 | SocialNetworks/src/egonet/Edge.java:41-44 | the result is a 32-bit signed value congruent to its argument modulo 2^32, as Java int addition wraps |
| Edges.WrapWrap | SocialNetworks/src/egonet/Edge.java:41-44 | wrapping an intermediate sum of the hash does not change the wrapped total |
| Edges.CompareTo | SocialNetworks/src/egonet/Edge.java:22-31 | -1 exactly when both ends are smaller, 1 exactly when both are larger, and 0 otherwise |
| Edges.CompareToIsAntisymmetric | SocialNetworks/src/egonet/Edge.java:22-31 | swapping the operands negates the comparison, and an edge compares equal to itself |
| Edges.CompareToZeroIsNotEquality | SocialNetworks/src/egonet/Edge.java:22-39 | compareTo is 0 for (1,3) against (2,2), although the two edges are not equal (the order is inconsistent with equals) |
| Edges.EqualsIsDirectional | SocialNetworks/src/egonet/Edge.java:33-39 | equals holds exactly for identical (from, to) pairs, so (1,2) and (2,1) differ |
| Edges.HashCodeIsSymmetric | SocialNetworks/src/egonet/Edge.java:41-44 | (a,b) and (b,a) hash alike, because the ends are summed |
| Edges.EqualEdgesHashEqually | SocialNetworks/src/egonet/Edge.java:33-44 | equal edges have equal hash codes, which is the hashCode/equals contract |
| Edges.Key | SocialNetworks/src/graph/CapGraph.java:208-215 | the canonical key is the same undirected edge as its argument, with the lower end first |
| Edges.KeyDecidesSameEdge | SocialNetworks/src/graph/CapGraph.java:214-216 | two edges are the same undirected edge exactly when their canonical keys are equal |
| Edges.Opposite | SocialNetworks/src/graph/CapGraph.java:265-273 | for an edge incident to v, the end picked by getNeighbors is the far end, and the edge joins v to it |
| Nodes.Node.constructor | SocialNetworks/src/egonet/Node.java:11-14 | a new node has the given label and an empty adjacency list |
| Nodes.Node.Append | SocialNetworks/src/egonet/EgoGraph.java:69-76 | appending through the node's list extends that list by exactly the one edge |
| Nodes.Node.Remove | SocialNetworks/src/graph/CapGraph.java:387-397 | the list loses exactly its first entry that is the same undirected edge, if there is one |
| Nodes.EqualsIgnoresAdjacency | SocialNetworks/src/egonet/Node.java:24-27 | nodes with the same label are equal both ways, whatever their adjacency lists |
| Nodes.RemoveFirstCounts | SocialNetworks/src/graph/CapGraph.java:392-395 | a removal lowers the count of the removed edge by one if present, leaves other counts alone, keeps only old entries and shortens the list by one exactly when the edge occurred |
| Nodes.CountSamePositive | SocialNetworks/src/graph/CapGraph.java:392-395 | an edge's count in a list is positive exactly when some entry is the same undirected edge |
| Iteration.Minimum | SocialNetworks/src/graph/FastNewmanImpl.java:83-85 | the least element of a non-empty set of leaders is in the set and below all others |
| Iteration.Ascending | SocialNetworks/src/egonet/EgoGraph.java:202-204 | the enumeration of a key set has exactly the set's elements and as many entries as the set |
| Iteration.AscendingIsSorted | SocialNetworks/src/egonet/EgoGraph.java:202-204 | the enumeration is strictly increasing |
| Iteration.AscendingHasNoDuplicates | SocialNetworks/src/egonet/EgoGraph.java:202-204 | the enumeration visits each key once |
| Reach.ReachesTrans | SocialNetworks/src/egonet/EgoGraph.java:188-196 | reachability composes along paths |
| Reach.ReverseReaches | SocialNetworks/src/egonet/EgoGraph.java:200-209 | a path from a to b in the reversed graph means b reaches a in the original |
| Reach.PredClosedReach | SocialNetworks/src/egonet/EgoGraph.java:160-167 | a set closed under predecessors holds every vertex that reaches one of its members |
| Kosaraju.Discover | SocialNetworks/src/egonet/EgoGraph.java:188-196 | entering an unvisited vertex keeps the first pass's finish-order invariant |
| Kosaraju.Finish | SocialNetworks/src/egonet/EgoGraph.java:195 | pushing v once its successors are visited takes it off the DFS stack and keeps the first pass's finish-order invariant, given that every finished vertex reaching v is reached back or reaches the stack below v |
| Kosaraju.GrayOnPath | SocialNetworks/src/egonet/EgoGraph.java:188-196 | a path from a finished vertex to an unvisited one passes through a vertex still on the DFS stack |
| Kosaraju.TreeIsComponent | SocialNetworks/src/egonet/EgoGraph.java:160-167 | a reverse-DFS tree from the latest-finished unvisited root, over a predecessor-closed visited set, is exactly one strongly connected component |
| Kosaraju.PartitionGrow | SocialNetworks/src/egonet/EgoGraph.java:163-165 | adding a new non-empty tree disjoint from the visited set keeps the trees a partition of the visited set |
| Kosaraju.ForestGrow | SocialNetworks/src/egonet/EgoGraph.java:160-167 | adding a tree keeps the visited set closed under predecessors and every tree a component |
| Kosaraju.PassGrow | SocialNetworks/src/egonet/EgoGraph.java:161-166 | popping an unvisited root and growing its tree keeps the second pass's invariant one position down the finish stack |
| Kosaraju.PassSkip | SocialNetworks/src/egonet/EgoGraph.java:161-162 | popping a visited vertex keeps the second pass's invariant |
| EgoGraphs.Flipped | SocialNetworks/src/egonet/EgoGraph.java:205-207 | the reversed edge list has the same length and the i-th edge turned around at position i |
| EgoGraphs.IncomingNeighbours | SocialNetworks/src/egonet/EgoGraph.java:200-209 | the reversed graph's list of v leads exactly to the vertices with an edge into v, and every entry starts at v |
| EgoGraphs.WithinMembers | SocialNetworks/src/egonet/EgoGraph.java:119-122 | the filtered list holds exactly the entries of the list whose to-end lies in the given set |
| EgoGraphs.EgoGraph.constructor | SocialNetworks/src/egonet/EgoGraph.java:47-52 | a new graph has no vertices, no edges, an empty stack and zero counters |
| EgoGraphs.EgoGraph.AddVertex | SocialNetworks/src/egonet/EgoGraph.java:58-63 | the label gets a new empty node, replacing any old one; it is pushed on the stack and numNodes grows by one even for a repeated label; nothing else changes |
| EgoGraphs.EgoGraph.AddEdge | SocialNetworks/src/egonet/EgoGraph.java:69-76 | the directed edge is appended to the from-node's list and to the edge list on every call, and numEdges grows by one; no other list changes; isEdge afterwards holds exactly for the old edges and (from, to) |
| EgoGraphs.EgoGraph.IsEdgeDirected | SocialNetworks/src/egonet/EgoGraph.java:78-80 | isEdge is directed: with (i, j) the only edge, isEdge(i, j) holds and, for i ≠ j, isEdge(j, i) does not |
| EgoGraphs.EgoGraph.GetNeighbors | SocialNetworks/src/egonet/EgoGraph.java:133-141 | the result is exactly the set of to-ends of the vertex's list |
| EgoGraphs.EgoGraph.ExportGraph | SocialNetworks/src/egonet/EgoGraph.java:215-221 | every vertex is mapped to its neighbour set, and there are no other keys |
| EgoGraphs.EgoGraph.Reverse | SocialNetworks/src/egonet/EgoGraph.java:200-209 | a new graph with the same vertices, pushed once each in key order, the edge list turned around in order, and each vertex's list holding the incoming edges turned around |
| EgoGraphs.EgoGraph.AddFlippedEdges | SocialNetworks/src/egonet/EgoGraph.java:205-207 | the second loop of reverse appends each edge's reversal to its to-end's list and to the edge list, in order |
| EgoGraphs.EgoGraph.GetEgonet | SocialNetworks/src/egonet/EgoGraph.java:103-127 | the ego graph's vertices are center and its out-neighbours, center pushed first and then the to-end of every entry of center's list; its edge list is center's list followed, for each neighbour in ascending order, by the entries of that neighbour's list that end at a neighbour; each neighbour other than center lists exactly its own entries that end at a neighbour, and center keeps its list unless it is its own neighbour |
| EgoGraphs.BuildEgonet | SocialNetworks/src/egonet/EgoGraph.java:105-124 | the two loops of getEgonet on the source's lists, which they only read: the same vertices, stack, count, edge list and lists as GetEgonet states |
| EgoGraphs.FillInner | SocialNetworks/src/egonet/EgoGraph.java:115-124 | the second loop, run on the star the first loop builds, leaves each neighbour other than center with exactly its entries that end at a neighbour, center with its own list when it is not its own neighbour, and the inner edges appended to the edge list in ascending neighbour order |
| EgoGraphs.AddInnerEdges | SocialNetworks/src/egonet/EgoGraph.java:116-124 | the loop over the neighbours appends to the edge list exactly Gather, the entries of each listed vertex's source list that end inside the set, vertex by vertex, and extends each listed vertex's ego list by the same entries; nothing else changes |
| EgoGraphs.AddRow | SocialNetworks/src/egonet/EgoGraph.java:117-123 | one neighbour u: its entries that end inside the set are appended to u's ego list and to the edge list; the other lists are unchanged |
| EgoGraphs.GatherMembers | SocialNetworks/src/egonet/EgoGraph.java:116-124 | an edge is gathered exactly when some listed vertex's list holds it and it ends inside the set |
| EgoGraphs.GatherInside | SocialNetworks/src/egonet/EgoGraph.java:116-124 | with lists whose entries start at their owner, an edge is gathered exactly when it starts at a listed vertex, ends inside the set and is on its start's list |
| EgoGraphs.ExtendedSnoc | SocialNetworks/src/egonet/EgoGraph.java:116-124 | handling one more listed vertex (not met before) extends exactly that vertex's list by its entries inside the set |
| EgoGraphs.EgoLists | SocialNetworks/src/egonet/EgoGraph.java:105-124 | after the second loop on the star, each neighbour other than center lists its entries that end at a neighbour, and center its own list when it is not its own neighbour |
| EgoGraphs.EgoGraph.AddEdgesWithin | SocialNetworks/src/egonet/EgoGraph.java:119-122 | one neighbour's inner loop appends exactly the entries of its list that end inside the neighbour set |
| EgoGraphs.NewStar | SocialNetworks/src/egonet/EgoGraph.java:106-114 | the first loop of getEgonet yields center plus the to-end of every entry of center's list, each pushed and counted once per entry, and center's list as the edge list; center's new list is its old list when it does not list itself, and every other neighbour's new list is empty |
| EgoGraphs.StarStep | SocialNetworks/src/egonet/EgoGraph.java:106-114 | one pass of the first loop adds the entry's to-end as a vertex with an empty list (replacing any node under that label), pushed and counted, and appends the entry to the edge list and, unless center lists itself, to center's list; every node it did not create is the one that was there |
| EgoGraphs.EgoGraph.SnapshotAbstracts | SocialNetworks/src/egonet/EgoGraph.java:133-141 | the value snapshot has the graph's vertices and neighbour sets, and is closed when every to-end is a vertex |
| EgoGraphs.EgoGraph.GetSCCs | SocialNetworks/src/egonet/EgoGraph.java:148-169 | the stack is emptied; the graphs returned have no edges and disjoint non-empty vertex sets covering every vertex that was on the stack, and there are none when the stack was empty (so a second call returns nothing); when the edge list agrees with the lists and the stack held every vertex, each set is a strongly connected component |
| EgoGraphs.EgoGraph.FinishAll | SocialNetworks/src/egonet/EgoGraph.java:151-156 | the first loop finishes every stacked vertex exactly once, closed under out-edges and in finish order |
| EgoGraphs.EgoGraph.DFSVisit | SocialNetworks/src/egonet/EgoGraph.java:188-196 | the visit marks v, pushes v after everything newly reached, adds only vertices v reaches, and keeps the finish-order invariant |
| EgoGraphs.EgoGraph.SecondPass | SocialNetworks/src/egonet/EgoGraph.java:157-167 | the second half of getSCCs: disjoint non-empty edge-free graphs covering the finish stack, components when the first pass was complete |
| EgoGraphs.EgoGraph.CollectTrees | SocialNetworks/src/egonet/EgoGraph.java:160-167 | popping the finish stack yields disjoint non-empty trees covering it, each a strongly connected component under the first pass's guarantee |
| EgoGraphs.EgoGraph.DFSVisitReverse | SocialNetworks/src/egonet/EgoGraph.java:175-183 | the reverse visit adds to the tree exactly the newly visited vertices, all reachable from w in the reversed graph, and leaves none of their reverse neighbours unvisited |
| EgoGraphs.EgoGraph.ConsistentLists | SocialNetworks/src/egonet/EgoGraph.java:69-76 | while the edge list and the lists agree, the edge list describes the graph's edges |
| EgoGraphs.ReverseOfList | SocialNetworks/src/egonet/EgoGraph.java:200-209 | the reversed graph is closed, and it is the reverse of the original when the edge list lists the original's edges |
| EgoGraphs.TreesCover | SocialNetworks/src/egonet/EgoGraph.java:157-168 | once the finish stack is empty, the trees are disjoint, non-empty, cover it, and are components in the complete case |
| CapGraphs.CapGraph.constructor | SocialNetworks/src/graph/CapGraph.java:39-46 | a new graph is empty, with agreeing lists and zero counters |
| CapGraphs.CapGraph.AddVertex | SocialNetworks/src/graph/CapGraph.java:49-54 | the label gets a new empty node and is pushed; numNodes grows by one on every call; the lists and the edge set keep agreeing for a new label |
| CapGraphs.CapGraph.AddEdge | SocialNetworks/src/graph/CapGraph.java:201-212 | the edge goes on both endpoints' lists on every call (twice on one list for a loop); the edge set gains its key, and numEdges grows only for a new key; agreement is preserved |
| CapGraphs.CapGraph.IsEdgeSymmetric | SocialNetworks/src/graph/CapGraph.java:214-216 | isEdge ignores the order of its arguments and is the lookup of the pair's key |
| CapGraphs.CapGraph.IsEdgeMeansNeighbor | SocialNetworks/src/graph/CapGraph.java:214-273 | while the lists agree with the edge set, isEdge(i, j) holds exactly when j is a neighbour of i |
| CapGraphs.CapGraph.NeighborsSymmetric | SocialNetworks/src/graph/CapGraph.java:265-273 | while the lists agree with the edge set, neighbourhood is symmetric |
| CapGraphs.CapGraph.GetNeighbors | SocialNetworks/src/graph/CapGraph.java:265-273 | the result is exactly the set of other ends of the vertex's list |
| CapGraphs.CapGraph.RemoveEdge | SocialNetworks/src/graph/CapGraph.java:387-397 | the key leaves the edge set and the scores; each endpoint's list loses exactly the removals made; numEdges drops by one in every case; agreement and the count are kept for a stored edge |
| CapGraphs.RemovalKeepsLists | SocialNetworks/src/graph/CapGraph.java:387-397 | after the four removals, the lists still agree with the edge set minus the removed key, provided no list held the edge more often than removed |
| CapGraphs.AfterRemovalCounts | SocialNetworks/src/graph/CapGraph.java:392-395 | the removals lower no count, keep the other edges' counts, and clear the edge when it occurred at most as often as removed |
| CapGraphs.AddEdgeKeepsLists | SocialNetworks/src/graph/CapGraph.java:201-212 | appending at both ends adds exactly the edge's key to what the lists say |
| CapGraphs.CapGraph.EdgeBetweenness | SocialNetworks/src/graph/CapGraph.java:64-198 | afterwards the score map is exactly Scores: every stored edge, each with its betweenness, the sum over every source of the shares its round passes along the edge; only the map changes |
| CapGraphs.Betweenness | SocialNetworks/src/graph/CapGraph.java:64-198 | resetting the scores and running the round from every vertex gives exactly Scores of the lists and the edge set |
| CapGraphs.AgreesStored | SocialNetworks/src/graph/CapGraph.java:64-198 | lists that agree with the edge set hold only stored edges, so no lookup of the pass fails |
| CapGraphs.EntryKey | SocialNetworks/src/graph/CapGraph.java:169-195 | an entry of p's list whose far end w differs from p is the stored edge between w and p |
| CapGraphs.ScoresBounds | SocialNetworks/src/graph/CapGraph.java:64-198 | every score is at least 0 and a loop scores 0; while the lists agree with the edge set, every other edge scores at least 2 |
| CapGraphs.EdgeScoreBounds | SocialNetworks/src/graph/CapGraph.java:81-197 | the sum of the rounds over all sources is at least 0 for every edge, and 0 for a loop |
| CapGraphs.EdgeScoreAtLeastTwo | SocialNetworks/src/graph/CapGraph.java:81-197 | with agreeing lists, an edge between distinct vertices scores at least 2 once every vertex has been the source |
| CapGraphs.TotalGainTouched | SocialNetworks/src/graph/CapGraph.java:81-197 | over distinct sources, an edge between distinct vertices gains at least one for each of its ends among the sources |
| CapGraphs.GainAtEnd | SocialNetworks/src/graph/CapGraph.java:81-196 | the round from either end of an edge between distinct vertices adds at least 1 to it |
| CapGraphs.SourceLeadsTo | SocialNetworks/src/graph/CapGraph.java:109-152 | the search from one end of a stored edge makes the source a predecessor of the other end, and the edge is the key between them |
| CapGraphs.GainStep | SocialNetworks/src/graph/CapGraph.java:81-197 | the sources' total grows, one source at a time, by exactly the next round's gain |
| CapGraphs.ResetScores | SocialNetworks/src/graph/CapGraph.java:71-73 | every stored edge's score is set to 0 |
| CapGraphs.FromSource | SocialNetworks/src/graph/CapGraph.java:81-196 | one source's round (the search, then the pass) adds to every stored edge exactly that round's gain, and keeps the keys |
| CapGraphs.AllSources | SocialNetworks/src/graph/CapGraph.java:81-197 | after every vertex in ascending order has served as the source, each stored edge has gained exactly the sum of their rounds |
| CapGraphs.SearchScored | SocialNetworks/src/graph/CapGraph.java:169-195 | every edge between a stack vertex and a predecessor is stored and scored, and no loop lies on the search DAG |
| CapGraphs.CapGraph.GetMaxBW | SocialNetworks/src/graph/CapGraph.java:403-417 | exactly the scored edges whose score equals the maximum (which starts at 0), each once; non-empty when some edge is scored and no score is negative; its list, read as a set, is exactly Top of the scores |
| CapGraphs.CapGraph.RemoveAll | SocialNetworks/src/graph/CapGraph.java:450-451 | removing the listed edges takes exactly them out of the edge set and lowers numEdges by their number |
| CapGraphs.CapGraph.Round | SocialNetworks/src/graph/CapGraph.java:441-451 | one round of the divisive loop removes exactly the edges of greatest score under the scores of the old graph (the edges of Top), at least one, so the edge set and numEdges strictly shrink |
| CapGraphs.CapGraph.TopScored | SocialNetworks/src/graph/CapGraph.java:441-446 | rescoring and then getMaxBW lists, once each, exactly the stored edges of greatest score; non-empty when an edge is stored |
| CapGraphs.ListedTop | SocialNetworks/src/graph/CapGraph.java:403-417 | getMaxBW's list, read as a set, is Top of the scores |
| CapGraphs.CapGraph.GirvanNewman | SocialNetworks/src/graph/CapGraph.java:436-455 | the divisive loop terminates with no edges in the set or in any list, and the vertices untouched |
| CapGraphs.CapGraph.ExportGraph | SocialNetworks/src/graph/CapGraph.java:340-346 | every vertex is mapped to its neighbour set |
| CapGraphs.CapGraph.Reverse | SocialNetworks/src/graph/CapGraph.java:328-337 | a new graph with the same vertices and the same undirected edges, counted, with agreeing lists, and with its vertices pushed in key order |
| CapGraphs.CapGraph.AddReversed | SocialNetworks/src/graph/CapGraph.java:333-335 | adding every stored edge turned around rebuilds exactly the same edge set, keeping the count and agreement |
| CapGraphs.CapGraph.GetEgonet | SocialNetworks/src/graph/CapGraph.java:239-260 | (corrected) the ego graph holds center and its neighbours, and, while the lists agree, exactly the stored edges with both ends among them |
| CapGraphs.NewSpokes | SocialNetworks/src/graph/CapGraph.java:243-248 | (corrected) the first loop yields center plus each other end of center's list, among the allowed ones, added, pushed and counted once each and joined to center |
| CapGraphs.Hub | SocialNetworks/src/graph/CapGraph.java:241-243 | the ego graph starts as a new graph holding center alone, pushed and counted once, with no edges |
| CapGraphs.Spoke | SocialNetworks/src/graph/CapGraph.java:244-248 | (corrected) one pass of the first loop adds the entry's other end once, if new pushing and counting it, and joins it to center; the stack still holds each vertex once |
| CapGraphs.AddInner | SocialNetworks/src/graph/CapGraph.java:251-258 | the second loop adds exactly the edges from the listed neighbours whose other end is in the set |
| CapGraphs.EgonetGathered | SocialNetworks/src/graph/CapGraph.java:239-260 | what the corrected loops gather is every neighbour and, with agreeing lists, exactly the induced subgraph's edges |
| CapGraphs.EgonetInduced | SocialNetworks/src/graph/CapGraph.java:239-260 | the spokes plus the edges between neighbours are exactly the stored edges among center and its neighbours |
| CapGraphs.GatheredEnds | SocialNetworks/src/graph/CapGraph.java:253-256 | a list's gathered ends and keys are its other ends inside the set and the edges to them |
| CapGraphs.EgonetAsWrittenAddsLoop | SocialNetworks/src/graph/CapGraph.java:244-256 | as written, after addEdge(1, 2) the egonet of 1 gets the self-loop (2, 2), which is no edge of the graph |
| CapGraphs.EgonetAsWrittenMissesNeighbor | SocialNetworks/src/graph/CapGraph.java:244-248 | as written, after addEdge(2, 1) the egonet of 1 leaves out the neighbour 2 |
| CapGraphs.EgonetAsWrittenThrows | SocialNetworks/src/graph/CapGraph.java:249-256 | as written, on the triangle addEdge(2,1), addEdge(3,1), addEdge(2,3) the second loop adds an edge at an end the ego graph lacks, which throws |
| CapGraphs.Joined | SocialNetworks/src/graph/CapGraph.java:201-212 | the lists after addEdge(from, to): the edge appended at both ends, twice on the one list of a loop, and every other list unchanged |
| CapGraphs.SpokesAsWritten | SocialNetworks/src/graph/CapGraph.java:243-248 | as written, the first loop holds center and every entry's to-end, and pushes a label for every entry, one more than the list's length |
| CapGraphs.SpokesOfLoopAtCenter | SocialNetworks/src/graph/CapGraph.java:243-248 | as written, for center 1 with entries (1, 2) and (1, 1), the loop ends with 1 listing only the loop twice, 2 listing (1, 2), and the stack [1, 2, 1] |
| CapGraphs.EgonetAsWrittenResetsCenter | SocialNetworks/src/graph/CapGraph.java:243-248 | as written, after addEdge(1, 2) and addEdge(1, 1) the egonet's first loop re-adds center, so 1 no longer lists 2 while 2 lists 1, and 1 is pushed three times |
| CapGraphs.CapGraph.GetSCCs | SocialNetworks/src/graph/CapGraph.java:276-297 | disjoint non-empty edge-free graphs covering the stacked vertices, none when the stack was empty, each a connected component when the lists agree and the stack held every vertex |
| CapGraphs.CapGraph.SnapshotAbstracts | SocialNetworks/src/graph/CapGraph.java:265-273 | the snapshot is the graph's neighbour map, closed, and its own reverse while the lists agree |
| CapGraphs.CapGraph.FinishAll | SocialNetworks/src/graph/CapGraph.java:279-284 | every stacked vertex is finished, in finish order, and the lists are untouched |
| CapGraphs.CapGraph.DFSVisit | SocialNetworks/src/graph/CapGraph.java:316-324 | the visit pushes v after all it newly reaches and keeps the finish-order invariant |
| CapGraphs.CapGraph.SecondPass | SocialNetworks/src/graph/CapGraph.java:285-296 | the second half of getSCCs over reverse(): disjoint non-empty trees covering the finish stack, components in the complete case |
| CapGraphs.CapGraph.ExportReverse | SocialNetworks/src/graph/CapGraph.java:286 | the reversed graph's neighbour map is closed and, with agreeing lists, the same as the graph's own |
| CapGraphs.CollectTrees | SocialNetworks/src/graph/CapGraph.java:288-295 | popping the finish stack yields disjoint non-empty trees covering it, components under the first pass's guarantee |
| CapGraphs.DFSVisitReverse | SocialNetworks/src/graph/CapGraph.java:303-311 | the tree gains exactly the newly visited vertices, all reachable from w, with no unvisited neighbour left |
| CapGraphs.TreesCover | SocialNetworks/src/graph/CapGraph.java:287-296 | once the finish stack is empty, the trees are disjoint, non-empty, cover it, and are components in the complete case |
| Brandes.Bfs | SocialNetworks/src/graph/CapGraph.java:109-154 | the vertices reached in queue order, by non-decreasing depth from the source; each has a shortest path, each count is the sum of its predecessors' counts, each predecessor is one level up, the source precedes its neighbours, and the reached set is closed |
| Brandes.Relax | SocialNetworks/src/graph/CapGraph.java:126-152 | one list entry queues an unreached far end one level down, and credits a far end one level down with v's paths and v as a predecessor |
| Brandes.AddPath | SocialNetworks/src/graph/CapGraph.java:142-152 | crediting x with v's paths and v as a predecessor keeps what the maps say about shortest paths |
| Brandes.Unreached | SocialNetworks/src/graph/CapGraph.java:109-113 | every vertex starts with count 0, depth -1 and no predecessors |
| Brandes.Accumulate | SocialNetworks/src/graph/CapGraph.java:160-196 | the bottom-up pass keeps the scored keys and adds to every score exactly Scored, the shares the whole stack passes along that edge |
| Brandes.Pop | SocialNetworks/src/graph/CapGraph.java:169-171 | popping one vertex keeps the pass's invariant one position down the stack: every delta is what the popped vertices owe, every score has grown by their shares |
| Brandes.Spread | SocialNetworks/src/graph/CapGraph.java:171-195 | each predecessor p of w gains in delta, and the edge between w and p gains in score, exactly the share count[p]·(delta[w]/count[w] + 1), once per listing of p; nothing else changes |
| Brandes.PopExact | SocialNetworks/src/graph/CapGraph.java:169-195 | spreading the dependency of the vertex popped makes every delta and score exactly what the stack from that position up gives |
| Brandes.SpreadStep | SocialNetworks/src/graph/CapGraph.java:176-194 | one more predecessor entry adds its share to its own delta and to its edge's score, matching Credit and EdgeCredit one entry further |
| Brandes.EdgeCreditAtKey | SocialNetworks/src/graph/CapGraph.java:176-194 | the credit to the key of the edge between w and p is at least p's credit |
| Brandes.CreditAtLeastOne | SocialNetworks/src/graph/CapGraph.java:176-194 | a listed predecessor is credited at least one share |
| Brandes.ScoredNonNegative | SocialNetworks/src/graph/CapGraph.java:160-196 | no score gains a negative amount in the pass |
| Brandes.ScoredOfLoop | SocialNetworks/src/graph/CapGraph.java:160-196 | a loop gains nothing in the pass |
| Brandes.ScoredAtLeastOne | SocialNetworks/src/graph/CapGraph.java:160-196 | the edge between a stack vertex and one of its predecessors gains at least one |
| Brandes.SearchStack | SocialNetworks/src/graph/CapGraph.java:109-154 | the search's result is what the pass needs: positive counts, predecessors with positive counts, no vertex its own predecessor |
| Brandes.GainBounds | SocialNetworks/src/graph/CapGraph.java:81-196 | no round lowers a score, and a round adds nothing to a loop |
| Brandes.TotalGainBounds | SocialNetworks/src/graph/CapGraph.java:81-197 | the sum of rounds over any sources is at least 0, and 0 on a loop |
| Brandes.GainAtLeastOne | SocialNetworks/src/graph/CapGraph.java:81-196 | the edge between the source and a vertex that has the source as a predecessor gains at least one |
| Brandes.ShareAtLeastOne | SocialNetworks/src/graph/CapGraph.java:178-179 | a share is at least one when the counts are positive and delta is non-negative |
| Brandes.Zeros | SocialNetworks/src/graph/CapGraph.java:160-163 | every vertex starts with delta 0 |
| FastNewmans.DeltaQSign | SocialNetworks/src/graph/FastNewman.java:120-122 | dQ is positive exactly when 2·m·e_ij exceeds a_i·a_j, and zero exactly when they are equal |
| FastNewmans.FastNewman.constructor | SocialNetworks/src/graph/FastNewman.java:21-23 | the scorer holds the given graph |
| FastNewmans.FastNewman.DQ | SocialNetworks/src/graph/FastNewman.java:31-123 | (corrected) the gain computed from the true number of edges between the two vertex sets and from the two degree sums, scaled by twice the edge count |
| FastNewmans.GainByDegrees | SocialNetworks/src/graph/FastNewman.java:85-113 | while the lists agree with the edge set, a_i and a_j are the total degrees of the two communities |
| FastNewmans.TiesAreNeighbors | SocialNetworks/src/graph/FastNewman.java:86-94 | counting isEdge over the neighbour union finds exactly a vertex's neighbours |
| FastNewmans.GainSymmetric | SocialNetworks/src/graph/FastNewman.java:31-123 | dQ does not depend on which community is given first |
| FastNewmans.Counts | SocialNetworks/src/graph/FastNewman.java:42-113 | the three counts are the cross edges and the two degree sums |
| FastNewmans.CountCross | SocialNetworks/src/graph/FastNewman.java:42-54 | (corrected) e_ij is the number of distinct stored edges with one end in each set, each counted once |
| FastNewmans.MeetRow | SocialNetworks/src/graph/FastNewman.java:47-53 | one row of the double loop extends the count to the edges from the finished rows plus this one |
| FastNewmans.Reached | SocialNetworks/src/graph/FastNewman.java:63-69 | the union of neighbour sets is the neighbourhood of the community |
| FastNewmans.CountTies | SocialNetworks/src/graph/FastNewman.java:85-95 | a_i counts, for every vertex of the community, its edges to the neighbour union |
| FastNewmans.TiesRow | SocialNetworks/src/graph/FastNewman.java:87-94 | one row counts exactly the vertex's ties inside the neighbour union |
| TrackKeys.Digits | SocialNetworks/src/graph/FastNewman.java:48-51 | the decimal text of a natural number is non-empty and made of digits |
| TrackKeys.CountAsWrittenExact | SocialNetworks/src/graph/FastNewman.java:44-54 | the string-keyed count is exact when no two pairs of labels concatenate to the same text |
| TrackKeys.KeysCollide | SocialNetworks/src/graph/FastNewman.java:48-51 | the pairs (1, 23) and (12, 3) produce the same key "123" |
| TrackKeys.CountAsWrittenMissesEdge | SocialNetworks/src/graph/FastNewman.java:44-54 | with edges 1–23 and 3–12, I = {1, 12} and J = {3, 23}, the string-keyed count is 1 where 2 edges cross |
| FastNewmanImpls.SingletonsPartition | SocialNetworks/src/graph/FastNewmanImpl.java:54-60 | the initial arrangement partitions the vertices into singletons, each led by itself |
| FastNewmanImpls.FastNewmanImpl.constructor | SocialNetworks/src/graph/FastNewmanImpl.java:43-63 | numSteps is numNodes - 1, and step 0 holds every vertex alone |
| FastNewmanImpls.Select | SocialNetworks/src/graph/FastNewmanImpl.java:79-104 | the chosen pair is the first pair of different leaders, in loop order, with the greatest dQ, and dQ is returned |
| FastNewmanImpls.SelectRow | SocialNetworks/src/graph/FastNewmanImpl.java:85-103 | the inner loop over keyTwo extends the search to every pair of the current row |
| FastNewmanImpls.Consider | SocialNetworks/src/graph/FastNewmanImpl.java:88-102 | skipping equal leaders, and taking a pair only on a strictly greater dQ, keeps the best-so-far, first-so-far choice |
| FastNewmanImpls.SearchComplete | SocialNetworks/src/graph/FastNewmanImpl.java:83-104 | once every row is searched, the choice is the best pair |
| FastNewmanImpls.MergeCommunities | SocialNetworks/src/graph/FastNewmanImpl.java:109-131 | the new arrangement drops both leaders and puts both member lists, concatenated, under the lesser one |
| FastNewmanImpls.MergedPartitions | SocialNetworks/src/graph/FastNewmanImpl.java:109-131 | merging two communities of a partition of V gives a partition of V, led by least members, without repeated members |
| FastNewmanImpls.MergedKeys | SocialNetworks/src/graph/FastNewmanImpl.java:118-131 | a merge removes both leaders, adds the lesser, and leaves one community fewer |
| FastNewmanImpls.MergedMembers | SocialNetworks/src/graph/FastNewmanImpl.java:113-131 | a merge keeps the set of members |
| FastNewmanImpls.StepsPartition | SocialNetworks/src/graph/FastNewmanImpl.java:72-134 | after n merge steps from a partition of V, step n still partitions V, with n communities fewer |
| FastNewmanImpls.HistoryExtend | SocialNetworks/src/graph/FastNewmanImpl.java:133-134 | storing the best merge as step n + 1 extends the record of steps |
| FastNewmanImpls.ReportsAreDrops | SocialNetworks/src/graph/FastNewmanImpl.java:144-149 | every report is, for some step whose dQ is negative, the modularity before that step with the arrangement before it |
| FastNewmanImpls.DropsAreReported | SocialNetworks/src/graph/FastNewmanImpl.java:144-149 | every step with a negative dQ is reported, with the modularity and arrangement before it |
| FastNewmanImpls.ReportsExtend | SocialNetworks/src/graph/FastNewmanImpl.java:106-149 | the running modularity stays the sum of the dQs, and the reports stay those of the record |
| FastNewmanImpls.FastNewmanImpl.Merge | SocialNetworks/src/graph/FastNewmanImpl.java:65-151 | numSteps steps, each merging the best pair of the previous arrangement into the next; earlier keys remain; the reports are exactly the arrangement before every step of negative dQ, with the running modularity there |
| FastNewmanImpls.FastNewmanImpl.Step | SocialNetworks/src/graph/FastNewmanImpl.java:72-134 | one iteration selects the best pair, stores the merged arrangement as the next step, and keeps the members with one community fewer |
| PathExample.SearchFromZero | SocialNetworks/src/graph/CapGraph.java:109-154 | on the path 0-1-2-3, the search from 0 queues 0, 1, 2, 3 at depths 0 to 3 with one path each, each vertex's predecessor its left neighbour |
| PathExample.ZeroGain | SocialNetworks/src/graph/CapGraph.java:81-196 | on the path, the round from 0 adds 3, 2 and 1 to the edges (0, 1), (1, 2) and (2, 3), and nothing to any other key |
| PathExample.PathOrder | SocialNetworks/src/graph/CapGraph.java:81 | the vertices of the path are visited as sources in the order 0, 1, 2, 3 |
| PathExample.AllRounds | SocialNetworks/src/graph/CapGraph.java:81-197 | on the path, the four rounds together give the edges 6, 8 and 6 |
| PathExample.PathScore | SocialNetworks/src/graph/CapGraph.java:64-198 | the betweenness of the path's edges is 6, 8 and 6: the middle edge scores highest |
| PathRound.PathAgrees | SocialNetworks/src/graph/CapGraph.java:201-212 | the lists of the path agree with its three stored edges |
| PathRound.PathScores | SocialNetworks/src/graph/CapGraph.java:64-198 | edgeBetweenness on the path stores exactly its three edges, scored 6, 8 and 6 |
| PathRound.PathTop | SocialNetworks/src/graph/CapGraph.java:403-417 | on the path, getMaxBW lists only the middle edge (1, 2) |
| PathRound.TopOfThree | SocialNetworks/src/graph/CapGraph.java:403-417 | of three scored edges, one scoring above the other two is the only one getMaxBW can list |
| PathRound.PathRemains | SocialNetworks/src/graph/CapGraph.java:441-451 | a round on the path leaves exactly the edges (0, 1) and (2, 3) |
| PathRound.SplitPath | SocialNetworks/src/graph/CapGraph.java:441-451 | one round on a graph store holding the path removes the middle edge and keeps the outer two |

## Left out

- Printing is left out: `printEdges`, `printGraph`, `DFSNode`, `toString`,
  and the elapsed-time print in `EgoGraph.getEgonet`. The clock is
  `System.nanoTime`.
- `merge`'s two `println` calls become the `reports` sequence of
  `FastNewmanImpl.Merge`. Each report carries the running modularity and the
  arrangement before the drop.
- The `main` drivers and `util.GraphLoader` (file input) are not part of this
  model. The Girvan–Newman loop of `CapGraph.main` is modelled as
  `GirvanNewman`, without the loading and the printing.
- Doubles are modelled as reals: no rounding and no NaN. `mod - deltaQ` is
  therefore exactly the modularity before the step. With exact addition the
  order in which `edgeBetweenness` adds the shares to a score does not change
  the score, and `getMaxBW`'s `==` against the maximum is exact.
- The `Double.NEGATIVE_INFINITY` start of the selection is modelled by a `found`
  flag. With at least two leaders, the first pair met is always taken.
- Java int overflow is not modelled; only `Edge.hashCode` wraps.
- `Node.hashCode` is not modelled. Nodes are never hashed by the core.
- The order of iteration over hash sets and key sets is not modelled. It is an
  arbitrary choice where the result does not depend on the order. It is the
  ascending order for `merge`'s selection loops, so the tie-breaking pair is
  the first in ascending label order. It is also the ascending order for the
  vertex stack that `reverse` builds, and for the second loop of
  `EgoGraph.getEgonet` and of `CapGraph.getEgonet`, over the neighbour set;
  in `EgoGraph` that order decides the order of the ego graph's edge list.
- Integer keys compared with `==` on `Integer` objects in `merge` are compared
  as values. The keys of one key set that are compared are the same objects.
- The graph package's `Node` and `Edge` classes are not part of the sources
  read. Its node is modelled by `egonet.Node`. Its edge is modelled as
  undirected, with `equals` as `SameEdge` and the stored form `Key(e)`, as
  `isEdge`, `removeEdge` and `reverse` require.
- The reported modularity is the running sum of the chosen dQs, as in the
  source. Newman's Q is not modelled.
- EgoGraphs.EgoGraph.GetEgonet: requires every out-neighbour of center to be a
  vertex. The source throws (`NullPointerException`) otherwise.
- EgoGraphs.EgoGraph.GetSCCs: requires every edge to end at a vertex. The first
  pass and `reverse` throw otherwise.
- EgoGraphs.EgoGraph.Reverse: requires every edge to end at a vertex, because
  `addEdge` on the new graph throws otherwise.
- EgoGraphs.EgoGraph.AddEdge: requires `from` to be a vertex, because the
  source throws otherwise.
- CapGraphs.CapGraph.AddEdge: requires both ends to be vertices, because the
  source throws otherwise.
- CapGraphs.CapGraph.RemoveEdge: requires both ends to be vertices, because the
  source throws otherwise.
- CapGraphs.CapGraph.EdgeBetweenness: requires `Stored`: every list entry
  between two distinct vertices is a stored edge. This is exactly what keeps
  every score lookup of the pass from failing; a stale entry (an edge added
  three times and then removed once) breaks it, and the source then throws.
- CapGraphs.CapGraph.GirvanNewman: requires `Ready`: agreement, a counted edge
  set, and no list holding an edge more often than `removeEdge` takes it out.
  Otherwise the source's loop can leave list entries behind, or end early
  because of the unconditional `numEdges--`.
- CapGraphs.CapGraph.GetEgonet: `numEdges` of the new graph is not stated;
  only its vertices and its edge set are.
- CapGraphs.CapGraph.GetEgonet: states the corrected behaviour (see
  Findings): the other end of each entry, each neighbour added once. The
  code as written is modelled by `VerticesAsWritten`, `EdgesAsWritten`,
  `ThrowsAsWritten` and `SpokesAsWritten`.
- CapGraphs.NewSpokes: adds each neighbour once, where the source's first
  loop calls `addVertex` for every entry of center's list. As written, a
  repeated neighbour is pushed and counted again, and an entry leading back
  to center replaces center's node and empties its list (see Findings,
  `EgonetAsWrittenResetsCenter`).
- EgoGraphs.EgoGraph.GetEgonet: when center lists itself, the ego graph's
  list of center is not stated. The first loop's `addVertex(center)` then
  empties it, as `AddSpoke` models.
- FastNewmans.FastNewman.DQ: requires `numEdges > 0`. The source divides by
  zero there and yields NaN or infinity.
- FastNewmans.FastNewman.DQ: states the corrected cross-edge count (see
  Findings). The string-keyed count as written is `TrackKeys.CountAsWritten`.
- FastNewmanImpls.FastNewmanImpl.Merge: requires at least one edge when
  there is a step to make, because `dQ` divides by the edge count. With no
  step (zero or one vertex) the loop never runs and no edge is needed.
- FastNewmanImpls.FastNewmanImpl.Merge: requires `numSteps` to be below the
  number of communities at step 0. `numNodes` counts repeated `addVertex`
  calls. When it exceeds the number of labels, the source reaches a step with
  one community, finds no pair, and throws on `prevCommunity.get(-1)`.

## Findings

| source | as written | input that shows it | evidently intended | confidence | as-written member | corrected member |
|---|---|---|---|---|---|---|
| SocialNetworks/src/graph/CapGraph.java:244-256 | `getEgonet` takes `getToNode()` of each entry of center's list, and of each neighbour's list, as the other end | edges added as `addEdge(1, 2)` give the ego graph of 1 the self-loop (2, 2); `addEdge(2, 1)` loses neighbour 2; the triangle `addEdge(2,1)`, `addEdge(3,1)`, `addEdge(2,3)` makes the second loop call `addEdge` at a missing vertex and throw | the other end of each undirected entry, as `getNeighbors` takes it, giving the subgraph induced by center and its neighbours | high (not executed) | CapGraphs.EgonetAsWrittenAddsLoop | CapGraphs.EgonetInduced |
| SocialNetworks/src/graph/CapGraph.java:243-248 | the first loop of `getEgonet` calls `addVertex` for every entry of center's list, and `addVertex` puts a fresh empty node under the label | `addEdge(1, 2)`, `addEdge(1, 1)`, then `getEgonet(1)`: the loop's `addVertex(1)` empties center's list, so in the ego graph 1 no longer lists 2 while 2 lists 1, and 1 is pushed three times; `addEdge(1, 2)` twice pushes and counts 2 twice | each neighbour added once, keeping center's list, so that the lists agree with the edge set and numNodes counts the vertices | high (not executed) | CapGraphs.EgonetAsWrittenResetsCenter | CapGraphs.NewSpokes |
| SocialNetworks/src/graph/FastNewman.java:44-51 | `e_ij` skips a pair when the string `i + "" + j` or `j + "" + i` was already tracked | edges 1–23 and 3–12 with I = {1, 12} and J = {3, 23}: the key "123" of the pair (1, 23) also marks (12, 3), so `e_ij` counts 1 where 2 edges cross | a pair of labels as the key, so that each crossing edge counts once | high (not executed) | TrackKeys.CountAsWrittenMissesEdge | FastNewmans.CountCross |
