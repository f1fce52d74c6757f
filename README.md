# AddressePointCompressor core in Dafny

AddressePointCompressor shrinks a capacitated vehicle-routing instance before it goes to a
solver. The pipeline has four steps:

1. It reads a TSPLIB95-style instance file.
2. It builds a complete weighted digraph over the depot and the clients.
3. It finds a minimum spanning arborescence rooted at the depot, using Chu–Liu/Edmonds.
4. It folds the chains of that tree into aggregated services and recombines their distance
   matrix. This gives a smaller problem for the jsprit solver.

This project models the core of that pipeline and proves properties of the model.

| file | models |
|---|---|
| `outcomes.dfy`, `minimum.dfy`, `seqs.dfy` | `Option`/`Result` values; the "first strictly cheapest" scan used by every minimum search; sequence flattening |
| `digraph.dfy` | A weighted digraph as a vertex list plus an edge list in insertion order (the jgrapht `SimpleDirectedWeightedGraph` invariants are the predicate `Simple`). Reachability, cuts, topological numberings (`Ranked`) and spanning arborescences |
| `edmonds_selection.dfy` | `findPEdges`, `findIncomming`, `getArbitraryCycle` |
| `edmonds_contraction.dfy` | `shrinkCycle` of the integer finder, with the two out-parameter maps |
| `edmonds_expansion.dfy` | `markEdges` of the integer finder |
| `edmonds_ranking.dfy` | Why the result has no cycle: the P-edges of an acyclic P-graph can be numbered, and expansion keeps a numbering |
| `edmonds_finder.dfy` | `findMinimumSpanningArborescence` and the integer `getSpanningArborescence` |
| `edmonds_generic.dfy` | The generic wrapper: renumbering the vertices to `1..n`, then mapping the result back |
| `keeper_lists.dfy`, `keeper_cycles.dfy`, `keeper_contraction.dfy`, `graph_keeper.dfy` | The list-based `GraphKeeper` class, which works in place on its `vertices`/`edges` fields |
| `matrix_graph.dfy` | `SimpleMatrixGraph`: an n×n `array2` of optional edges, updated in place |
| `vrp_model.dfy` | The instance model: locations, clients, depot, and a distance matrix as a record of `setDistance` writes |
| `graph_converter.dfy` | `ProblemToGraphConverter` |
| `nonmap_converter.dfy` | `NonMapProblemToGraphConverter`, issuing calls to a `LocationGraph` object |
| `compression.dfy` | `ExplicitMetricCompressionVrpProblemToJSpritConverter`: `aggregateServices`, `compressMatrix`, `copyDistanceMatrix`, and the checks of `convertToJsprit` |
| `java_strings.dfy` | `String.split`, `startsWith` and `Integer.parseInt` (ASCII digits) as the parser uses them. The parser's blank-line test `line.trim() == ""` is not modelled as a `trim`: a blank line is skipped like any line without a keyword. |
| `vrp_headers.dfy`, `triangle_walk.dfy`, `matrix_sections.dfy`, `node_sections.dfy`, `vrp_parser.dfy` | `VrpProblemParser` over a sequence of lines: the header keywords of TSPLIB95 section 1.1, and the data sections of TSPLIB95 section 1.2 |

How the model represents the source:

- **Numbers.**
  - Weights, demands, distances and coordinates are Java `Double`, and only `+`, `-` and `<` are applied to them. They are modelled as `int`.
  - The parser's `Integer` arithmetic `dimensions*(dimensions-1)/2` is modelled with explicit 32-bit wrap-around.
- **Java exceptions** are `Err` values of a `Result`. This includes the `NullPointerException`s and `ArrayIndexOutOfBoundsException`s that a malformed input file provokes.
- **HashSets.**
  - A set that the source iterates in hash order is a Dafny `set`.
  - The order-dependent choices made over it are arbitrary (`:|`) choices in the methods.
  - The contracts hold for every such choice.
- **The reachability hypothesis.**
  - The arborescence theorems take as hypothesis that every vertex is reachable from the root.
  - `EveryCutEntered` restates this: every vertex set that does not contain the root is entered from outside.
  - `ReachableGivesCuts` proves that the first form gives the second.

## Model

| member | source | states |
|---|---|---|
| Minimum.FirstMinIsFirstMinimum | src/main/java/compression/graphnew/EdmondsMinimumSpanningArborescenceFinder.java:178-186 | The scan that replaces its candidate only on a strictly smaller weight keeps the first element of least weight. |
| Minimum.FirstMinIsLeast | src/main/java/compression/graphnew/EdmondsMinimumSpanningArborescenceFinder.java:178-186 | The scan's candidate weighs no more than any element of the list. |
| EdmondsSelection.CheapestIntoIsFirstCheapest | src/main/java/compression/graphnew/EdmondsMinimumSpanningArborescenceFinder.java:180-189 | There is no choice iff `v` has no incoming edge. Otherwise the choice is an edge into `v` of least weight, and the first such in edge order. |
| EdmondsSelection.FindPEdges | src/main/java/compression/graphnew/EdmondsMinimumSpanningArborescenceFinder.java:174-193 | An edge is a P-edge iff its target is a non-root vertex and it is the first cheapest edge into that target. |
| EdmondsSelection.PEdgesOnePerTarget | src/main/java/compression/graphnew/EdmondsMinimumSpanningArborescenceFinder.java:174-193 | No two P-edges share a target, so `findIncomming` never throws on them. |
| EdmondsSelection.FindIncoming | src/main/java/compression/graphnew/EdmondsMinimumSpanningArborescenceFinder.java:162-172 | It throws "Non unique incomming egde" iff two P-edges enter `v`. It returns null iff none does. Otherwise it returns the one P-edge into `v`. |
| EdmondsSelection.GetArbitraryCycle | src/main/java/compression/graphnew/EdmondsMinimumSpanningArborescenceFinder.java:195-216 | Null iff the P-graph is acyclic. Otherwise a cycle of the P-graph that is the first of maximal length in the enumerator's list. |
| EdmondsContraction.ShrinkCycle | src/main/java/compression/graphnew/EdmondsMinimumSpanningArborescenceFinder.java:112-160 | The result is `IsContraction`: the outside vertices followed by `maxVertex+1`; the unrelated edges; one edge `u→c` per key of `shortestIncomming`, weighing the reduced weight; and one edge `c→t` per key of `shortestOutcomming`. Each map holds the first minimum of its candidates. |
| EdmondsContraction.ContractionVertices | src/main/java/compression/graphnew/EdmondsMinimumSpanningArborescenceFinder.java:116-123 | `maxVertex+1` is fresh, and a vertex is in the reduced graph iff it is off the cycle or is `maxVertex+1`. |
| EdmondsContraction.ContractionShrinks | src/main/java/compression/graphnew/EdmondsMinimumSpanningArborescenceFinder.java:116-123 | Contracting a P-cycle strictly lowers the vertex count, which makes the recursion terminate. |
| EdmondsContraction.ContractionSimple | src/main/java/compression/graphnew/EdmondsMinimumSpanningArborescenceFinder.java:117-158 | The reduced graph of a simple graph is simple: no self-loop, and at most one edge per ordered pair. So every `addEdge` call succeeds. |
| EdmondsContraction.ContractionEntryWeight | src/main/java/compression/graphnew/EdmondsMinimumSpanningArborescenceFinder.java:125-136 | An edge `u→c` weighs `w(e) − w(P-edge into target(e))` for `e = shortestIncomming[u]`. No entering edge from `u` has a smaller reduced weight, and `e` is the first that reaches the minimum. |
| EdmondsContraction.ContractionExitWeight | src/main/java/compression/graphnew/EdmondsMinimumSpanningArborescenceFinder.java:137-141 | An edge `c→t` weighs as much as `shortestOutcomming[t]`, which is the first lightest edge from the cycle to `t`. |
| EdmondsContraction.ContractionKeepsOutsideEdges | src/main/java/compression/graphnew/EdmondsMinimumSpanningArborescenceFinder.java:143-146 | Every edge with both ends off the cycle is copied unchanged, and every reduced edge away from `maxVertex+1` is such an edge. |
| EdmondsContraction.ContractionKeepsCuts | src/main/java/compression/graphnew/EdmondsMinimumSpanningArborescenceFinder.java:61-71 | If every vertex of `g` is reachable from the root, so is every vertex of the reduced graph. |
| EdmondsExpansion.MarkEdges | src/main/java/compression/graphnew/EdmondsMinimumSpanningArborescenceFinder.java:74-110 | It throws "No cycle splittingVertex" iff no edge enters `c`, and "Non unique edge incomming to cycle" iff two do. Otherwise the result is `Expanded`: the edges away from `c` unchanged; `shortestOutcomming[t]` for each `c→t`; `shortestIncomming[u]` for the edge into `c`; and every cycle edge, including last→first, except the one into the splitting vertex. |
| EdmondsExpansion.ArborescenceEntersCycleOnce | src/main/java/compression/graphnew/EdmondsMinimumSpanningArborescenceFinder.java:80-93 | An arborescence of the reduced graph enters `c` by exactly one edge, so neither `markEdges` error occurs. |
| EdmondsExpansion.CycleEdgesInto | src/main/java/compression/graphnew/EdmondsMinimumSpanningArborescenceFinder.java:94-108 | The re-added cycle edges enter every cycle vertex except the splitting vertex, and each of those exactly once. |
| EdmondsExpansion.ExpansionEdgesInGraph | src/main/java/compression/graphnew/EdmondsMinimumSpanningArborescenceFinder.java:80-108 | Every expanded edge is an edge of the original graph, and none enters the root. |
| EdmondsExpansion.ExpansionOneEdgeIntoEach | src/main/java/compression/graphnew/EdmondsMinimumSpanningArborescenceFinder.java:74-110 | Expanding an arborescence of the reduced graph gives exactly one edge into each non-root vertex of `g`. |
| EdmondsRanking.AcyclicRanked | src/main/java/compression/graphnew/EdmondsMinimumSpanningArborescenceFinder.java:63-66 | When the P-graph has no cycle, the P-edges returned as the base case have a topological numbering. |
| EdmondsRanking.ExpansionRanked | src/main/java/compression/graphnew/EdmondsMinimumSpanningArborescenceFinder.java:94-108 | Breaking the cycle at the splitting vertex keeps a topological numbering: the expansion of numbered reduced edges is numbered. |
| EdmondsRanking.RankedAcyclic | src/main/java/compression/graphnew/EdmondsMinimumSpanningArborescenceFinder.java:195-206 | Numbered edges contain no cycle in the sense `getArbitraryCycle` looks for. |
| Digraph.RankedIsSpanning | src/main/java/compression/graphnew/EdmondsMinimumSpanningArborescenceFinder.java:53-57 | A numbered edge set with one edge into each non-root vertex of a simple graph is a spanning arborescence: every vertex is reached from the root along its edges. |
| Digraph.ReachableGivesCuts | src/main/java/compression/graphnew/EdmondsMinimumSpanningArborescenceFinder.java:53-57 | If every vertex is reachable from the root, every vertex set without the root is entered by an edge from outside. |
| EdmondsFinder.PEdgesOneEdgeIntoEach | src/main/java/compression/graphnew/EdmondsMinimumSpanningArborescenceFinder.java:174-193 | Under reachability, the P-edges enter every non-root vertex exactly once. |
| EdmondsFinder.FindMinimumSpanningArborescence | src/main/java/compression/graphnew/EdmondsMinimumSpanningArborescenceFinder.java:59-72 | The result's edges are edges of `g`, none enters the root, and they have a topological numbering. Under reachability it succeeds and is a spanning arborescence rooted at `root`. |
| EdmondsFinder.ExpandArborescence | src/main/java/compression/graphnew/EdmondsMinimumSpanningArborescenceFinder.java:69-71 | Expanding a numbered arborescence of the reduced graph gives numbered edges of `g`, none into the root. Under reachability it gives one edge into each non-root vertex. |
| EdmondsFinder.IntegerGetSpanningArborescence | src/main/java/compression/graphnew/EdmondsMinimumSpanningArborescenceFinder.java:53-57 | Started with `maxVertex = n`, the result is acyclic and contained in `g`. When all vertices are reachable from the root, it is a spanning arborescence. |
| EdmondsGeneric.NumberVertices | src/main/java/compression/graphnew/EdmondsMinimumSpanningArborescenceFinder.java:27-32 | The vertices are numbered `1..n` in vertex order, and both maps are filled. |
| EdmondsGeneric.NumberingInverse | src/main/java/compression/graphnew/EdmondsMinimumSpanningArborescenceFinder.java:27-32 | `vertexMap` and `reverseMap` are inverse bijections between the vertices and `1..n`. |
| EdmondsGeneric.RenameEdges | src/main/java/compression/graphnew/EdmondsMinimumSpanningArborescenceFinder.java:33-39 | Each edge is copied with its endpoints renamed and its weight kept, in edge order. |
| EdmondsGeneric.RestoreEdges | src/main/java/compression/graphnew/EdmondsMinimumSpanningArborescenceFinder.java:41-44 | Each result edge is mapped back to `graph.getEdge` of its renamed-back endpoints. |
| EdmondsGeneric.RestoredOneEdgeIntoEach | src/main/java/compression/graphnew/EdmondsMinimumSpanningArborescenceFinder.java:41-44 | Mapping back an arborescence of the renumbered copy gives exactly one edge of `graph` into each non-root vertex. |
| EdmondsGeneric.RestoredRanked | src/main/java/compression/graphnew/EdmondsMinimumSpanningArborescenceFinder.java:41-44 | Mapping back numbered edges of the renumbered copy gives numbered edges of `graph`. |
| EdmondsGeneric.GetSpanningArborescence | src/main/java/compression/graphnew/EdmondsMinimumSpanningArborescenceFinder.java:22-46 | The result's edges are acyclic edges of `graph`, none into the root. When every vertex is reachable from the root, it succeeds with a spanning arborescence. |
| GraphKeepers.GraphKeeper.constructor | src/main/java/compression/graph/mst/helpers/GraphKeeper.java:17-31 | There is one fresh keeper per item, in order, holding just that item, and `vertexMap` maps each item to its keeper. Edge `i` becomes a keeper edge between its endpoints' keepers, with the same weight and a link to the original edge. |
| GraphKeepers.GraphKeeper.FromParts | src/main/java/compression/graph/mst/helpers/GraphKeeper.java:33-41 | The private constructor keeps the given vertex list, map and edges. |
| GraphKeepers.GraphKeeper.RemoveDestinationEdges | src/main/java/compression/graph/mst/helpers/GraphKeeper.java:43-54 | Exactly the edges into `v`'s keeper are removed. The other edges keep their order, and the vertex list and map are unchanged. |
| KeeperLists.Without | src/main/java/compression/graph/mst/helpers/GraphKeeper.java:43-54 | The remaining edges are exactly the edges not into `v`. |
| KeeperLists.WithoutNone | src/main/java/compression/graph/mst/helpers/GraphKeeper.java:43-54 | On a list with no edge into `v`, the removal changes nothing. |
| GraphKeepers.GraphKeeper.GetEdgesTo | src/main/java/compression/graph/mst/helpers/GraphKeeper.java:56-64 | It returns the edges into `v`, in list order. |
| KeeperLists.EdgesTo | src/main/java/compression/graph/mst/helpers/GraphKeeper.java:56-64 | The listed edges are exactly the edges of the list that end at `v`. |
| GraphKeepers.GraphKeeper.GetEdgesFrom | src/main/java/compression/graph/mst/helpers/GraphKeeper.java:73-81 | It returns the edges out of `v`, in list order. |
| GraphKeepers.GraphKeeper.GetSingleInputEdge | src/main/java/compression/graph/mst/helpers/GraphKeeper.java:66-71 | It throws unless exactly one edge enters `v`. Otherwise it returns that edge. |
| GraphKeepers.GraphKeeper.TakeSmallestWeightEdgesForEachVertex | src/main/java/compression/graph/mst/helpers/GraphKeeper.java:83-98 | It returns a new graph with the same vertex list and map. Its edges are `CheapestEdges`: per vertex in order, the first strictly cheapest incoming edge. |
| KeeperLists.CheapestEdgesLeast | src/main/java/compression/graph/mst/helpers/GraphKeeper.java:83-98 | Each kept edge is an edge into a listed vertex, and it is the first of least weight among that vertex's incoming edges. |
| KeeperLists.CheapestEdgesComplete | src/main/java/compression/graph/mst/helpers/GraphKeeper.java:83-98 | Every listed vertex that has an incoming edge keeps one. |
| KeeperLists.CheapestEdgesOnePerVertex | src/main/java/compression/graph/mst/helpers/GraphKeeper.java:83-98 | No two kept edges share a target. |
| GraphKeepers.GraphKeeper.FindCycle | src/main/java/compression/graph/mst/helpers/GraphKeeper.java:100-114 | On success it appends to `potentialCycle` a cycle of the edge list. The cycle starts at the first listed vertex from which any cycle starts. On failure no cycle starts at a listed vertex, and the list is unchanged. |
| GraphKeepers.GraphKeeper.DfsFindCycle | src/main/java/compression/graph/mst/helpers/GraphKeeper.java:116-130 | The visited set grows by `current`. On success the path is extended by a walk from `current` that closes at `start`. On failure the path is unchanged, and the newly visited vertices cannot lead back to `start`. |
| KeeperCycles.ClosedRulesOutCycle | src/main/java/compression/graph/mst/helpers/GraphKeeper.java:116-130 | A visited set that cannot lead back to `start` rules out every cycle through `start`, which is why `findCycle` may report false. |
| GraphKeepers.GraphKeeper.ShrinkCycle | src/main/java/compression/graph/mst/helpers/GraphKeeper.java:133-187 | It throws iff an entering edge's target has not exactly one `p` edge. Otherwise the new vertex list is the non-cycle vertices in order, then one fresh composite whose members concatenate the cycle's members. The edges and `edgesMap` are those of the `ShrinkEdges` fold. |
| KeeperContraction.ShrinkEdgesFails | src/main/java/compression/graph/mst/helpers/GraphKeeper.java:152-165 | The loop throws exactly when some entering edge's target lacks a unique `p` edge. |
| KeeperContraction.ShrinkEdgesCovers | src/main/java/compression/graph/mst/helpers/GraphKeeper.java:152-184 | Each entering edge's source is joined to the composite, each leaving edge's target is joined from it, and each outside edge is copied. |
| KeeperContraction.ShrinkEdgesTraced | src/main/java/compression/graph/mst/helpers/GraphKeeper.java:152-184 | Each new edge stands for one original edge under the rules: the re-weighted `w − w(p-edge into x)` for entering edges, the same weight for leaving and outside edges, and `edgesMap` links it to that edge. |
| KeeperContraction.ShrinkEdgesOnePerNeighbour | src/main/java/compression/graph/mst/helpers/GraphKeeper.java:166-182 | The composite has at most one edge from each source and at most one edge to each target. |
| KeeperContraction.ShrinkEdgesFirstEntering | src/main/java/compression/graph/mst/helpers/GraphKeeper.java:166-174 | The edge kept from each source into the composite comes from that source's first entering edge. |
| GraphKeepers.GraphKeeper.MarkEdges | src/main/java/compression/graph/mst/helpers/GraphKeeper.java:189-207 | `edges` becomes the `recursiveMap` images of `recursiveResult.edges`, followed by `ClosingEdges`. The vertex list and map are unchanged. |
| GraphKeepers.GraphKeeper.ExpandedEdges | src/main/java/compression/graph/mst/helpers/GraphKeeper.java:191-205 | The two loops build the mapped edges in order, then the closing edges. |
| KeeperContraction.Images | src/main/java/compression/graph/mst/helpers/GraphKeeper.java:191-193 | Position `k` holds the image of edge `k`. |
| KeeperContraction.ClosingEdgesSound | src/main/java/compression/graph/mst/helpers/GraphKeeper.java:194-205 | Every closing edge is an edge into some listed vertex `cv ≠ v` from its predecessor in the list, where the cycle's last vertex is the first predecessor. |
| KeeperContraction.ClosingEdgesComplete | src/main/java/compression/graph/mst/helpers/GraphKeeper.java:194-205 | Every such edge is added. |
| MatrixGraphs.Numbering | src/main/java/compression/graph/simple/SimpleMatrixGraph.java:17-21 | The map's keys are exactly the items, and each maps to an index that holds it. |
| MatrixGraphs.SimpleMatrixGraph.constructor | src/main/java/compression/graph/simple/SimpleMatrixGraph.java:17-21 | `verticesCount` is the number of items, and the fresh n×n matrix has every cell empty. |
| MatrixGraphs.SimpleMatrixGraph.GetAllEdges | src/main/java/compression/graph/simple/SimpleMatrixGraph.java:24-34 | It returns the edges of the occupied cells, row by row and by column within a row. |
| MatrixGraphs.AllEdgesListed | src/main/java/compression/graph/simple/SimpleMatrixGraph.java:24-34 | The listed edges are exactly the occupied cells of the matrix, in row-major order, each once. |
| MatrixGraphs.SimpleMatrixGraph.AddEdge | src/main/java/compression/graph/simple/SimpleMatrixGraph.java:37-41 | Cell `[index(source)][index(target)]` now holds the edge, overwriting any earlier edge, and no other cell changes. |
| MatrixGraphs.SimpleMatrixGraph.EmptyGraph | src/main/java/compression/graph/simple/SimpleMatrixGraph.java:44-46 | It returns a fresh graph on the same items with no edges. |
| MatrixGraphs.SimpleMatrixGraph.GetEdgesFrom | src/main/java/compression/graph/simple/SimpleMatrixGraph.java:49-59 | It returns the occupied cells of `vertex`'s row, ordered by target index, and every one starts at `vertex`. |
| MatrixGraphs.RowEdgesListed | src/main/java/compression/graph/simple/SimpleMatrixGraph.java:49-59 | A row's listed edges are exactly its occupied cells, in column order. |
| MatrixGraphs.NoEdges | src/main/java/compression/graph/simple/SimpleMatrixGraph.java:44-46 | A matrix with every cell empty lists no edge. |
| Compression.TailDemandIsRest | src/main/java/compression/services/jsprit/conversion/ExplicitMetricCompressionVrpProblemToJSpritConverter.java:62-69 | The internal cost is the branch's total demand less its first vertex's demand. |
| Compression.ChainCost | src/main/java/compression/services/jsprit/conversion/ExplicitMetricCompressionVrpProblemToJSpritConverter.java:62-69 | The cost loop sums the demands of every vertex after the first. |
| Compression.ServiceOfChain | src/main/java/compression/services/jsprit/conversion/ExplicitMetricCompressionVrpProblemToJSpritConverter.java:62-71 | For a branch starting at its first vertex, the service has the remaining vertices, input at the second vertex, output at the end vertex, and cost equal to their demand sum. |
| Compression.Aggregate | src/main/java/compression/services/jsprit/conversion/ExplicitMetricCompressionVrpProblemToJSpritConverter.java:62-73 | One pass removes the start vertex from branch `k` only, and builds the service with id `k+2`. |
| Compression.AggregateServices | src/main/java/compression/services/jsprit/conversion/ExplicitMetricCompressionVrpProblemToJSpritConverter.java:58-76 | It builds one service per branch, in order, with ids 2, 3, …, and removes each branch's start vertex. It fails, with the branches up to the failing one shortened, iff some branch is left empty. |
| Compression.CompressMatrix | src/main/java/compression/services/jsprit/conversion/ExplicitMetricCompressionVrpProblemToJSpritConverter.java:78-95 | The matrix is the one the nested loops' `setDistance` writes produce, over a dimension of services + 1. |
| Compression.CompressedEntries | src/main/java/compression/services/jsprit/conversion/ExplicitMetricCompressionVrpProblemToJSpritConverter.java:82-92 | For distinct services, `(A,B) = dist(A.out, B.in) + B.cost`. Also `(depot,A) = dist(depot, A.in) + A.cost` and `(A,depot) = dist(A.out, depot)`. No other entry exists. |
| Compression.CopyDistanceMatrix | src/main/java/compression/services/jsprit/conversion/ExplicitMetricCompressionVrpProblemToJSpritConverter.java:97-105 | It emits the triples of the corrected copy, which compares ids by value. |
| Compression.CopyRowsMembers | src/main/java/compression/services/jsprit/conversion/ExplicitMetricCompressionVrpProblemToJSpritConverter.java:98-104 | The corrected copy emits a triple iff `1 ≤ from, to ≤ dimensions`, `from ≠ to`, and the distance is the matrix's. |
| Compression.CopyDistanceMatrixAsWritten | src/main/java/compression/services/jsprit/conversion/ExplicitMetricCompressionVrpProblemToJSpritConverter.java:97-105 | It emits the triples of the copy as written, where `from != to` compares `Long` boxes by identity. |
| Compression.CopyAgreesBelowCache | src/main/java/compression/services/jsprit/conversion/ExplicitMetricCompressionVrpProblemToJSpritConverter.java:98-104 | Up to dimension 127, every id is a cached box, so the copy as written equals the corrected one. |
| Compression.CopyAsWrittenEmitsDiagonal | src/main/java/compression/services/jsprit/conversion/ExplicitMetricCompressionVrpProblemToJSpritConverter.java:98-104 | From dimension 128 on, the copy as written also emits the diagonal triple (128, 128), which the corrected copy does not. |
| Compression.Jobs | src/main/java/compression/services/jsprit/conversion/ExplicitMetricCompressionVrpProblemToJSpritConverter.java:47-53 | There is one job per service, named by the service's id and sized by its internal cost. |
| Compression.ConvertToJsprit | src/main/java/compression/services/jsprit/conversion/ExplicitMetricCompressionVrpProblemToJSpritConverter.java:32-56 | A metric other than Explicit, or a null matrix, throws before any other work. Otherwise it gives the aggregated services, the compressed matrix, the corrected copy's costs and the jobs, and it fails iff a branch is left empty. |
| Compression.CostsAreCompressedDistances | src/main/java/compression/services/jsprit/conversion/ExplicitMetricCompressionVrpProblemToJSpritConverter.java:44-46 | With ids 2.. and the depot at 1, the copied costs are exactly the `(n+1)·n` off-diagonal entries of the compressed matrix. |
| GraphConversion.GenerateDistanceMatrix | src/main/java/compression/services/ProblemToGraphConverter.java:33-47 | It builds the symmetrical matrix of the dimension, written client pair by client pair, then client to depot. |
| GraphConversion.EuclideanMatrixEntries | src/main/java/compression/services/ProblemToGraphConverter.java:36-45 | With distinct ids, the matrix holds the Euclidean distance for client pairs, 0 on each client's diagonal, and the distance from each client to the depot. It holds no other entry. |
| GraphConversion.Vertices | src/main/java/compression/services/ProblemToGraphConverter.java:51-58 | The graph's vertices are the depot (demand 0), then the clients in order. |
| GraphConversion.PlacedClient | src/main/java/compression/services/ProblemToGraphConverter.java:54-58 | Slot `id − 1` holds the last client with that id. |
| GraphConversion.AddEdges | src/main/java/compression/services/ProblemToGraphConverter.java:63-73 | The edges are those of `EdgesOf`: one per ordered pair of different slots, row by row. A missing slot or a null matrix fails. |
| GraphConversion.EdgesOfPairs | src/main/java/compression/services/ProblemToGraphConverter.java:64-72 | There are `d·(d−1)` edges. The edge at pair `(i,j)` with `i ≠ j` joins the two slots and weighs the matrix distance of their ids. No edge is a self-loop, and no pair repeats. |
| GraphConversion.ConvertExplicit | src/main/java/compression/services/ProblemToGraphConverter.java:49-61 | It returns `ExplicitGraph`: the slots filled from the depot and the clients, then the complete edge set, rooted at slot 0. |
| GraphConversion.ExplicitGraphSucceeds | src/main/java/compression/services/ProblemToGraphConverter.java:49-61 | It succeeds iff the dimension is at least 1, every client id fits the array, and, unless `d = 1`, the matrix is present and every slot after the depot is claimed by a client. |
| GraphConversion.ExplicitGraphRoot | src/main/java/compression/services/ProblemToGraphConverter.java:52-60 | The root is the depot vertex with demand 0 and the depot's id. |
| GraphConversion.NumberedInstanceGraph | src/main/java/compression/services/ProblemToGraphConverter.java:49-61 | For a parsed instance (depot 1, clients 2..n) with a matrix, the conversion succeeds, is rooted at the depot and has `n·(n−1)` edges. |
| GraphConversion.Convert | src/main/java/compression/services/ProblemToGraphConverter.java:20-31 | An Unknown metric throws `IllegalArgumentException`. Explicit converts the stored matrix. Euclidean first stores the generated matrix in the problem, then converts. |
| NonMapConversion.LocationGraph.AddExplicitEdge | src/main/java/compression/services/compression/nonmap/NonMapProblemToGraphConverter.java:46-49 | It appends one explicit-edge request and leaves the locations unchanged. |
| NonMapConversion.LocationGraph.AddEuclideanEdge | src/main/java/compression/services/compression/nonmap/NonMapProblemToGraphConverter.java:34 | It appends one Euclidean-edge request and leaves the locations unchanged. |
| NonMapConversion.BuildLocations | src/main/java/compression/services/compression/nonmap/NonMapProblemToGraphConverter.java:15-19 | It returns the location list. |
| NonMapConversion.LocationListOrder | src/main/java/compression/services/compression/nonmap/NonMapProblemToGraphConverter.java:15-19 | The list holds the depot's location first, then client `p`'s location at position `p+1`. |
| NonMapConversion.AddClientEdges | src/main/java/compression/services/compression/nonmap/NonMapProblemToGraphConverter.java:44-50 | One pass of the outer loop appends the requests for one client as source. |
| NonMapConversion.AddDistancesFromDistanceMatrix | src/main/java/compression/services/compression/nonmap/NonMapProblemToGraphConverter.java:39-51 | It appends exactly `ExplicitRequests`, or fails with the null-pointer error that the matrix lookup raises. |
| NonMapConversion.ExplicitRequestsMembers | src/main/java/compression/services/compression/nonmap/NonMapProblemToGraphConverter.java:43-50 | A request is issued iff it is a client→client pair of different ids weighing `dm(from, to)`, or a client→depot or depot→client pair weighing the matrix entry. No request joins a location to itself. |
| NonMapConversion.ExplicitRequestsFail | src/main/java/compression/services/compression/nonmap/NonMapProblemToGraphConverter.java:40-50 | The explicit requests fail iff there is a client and no matrix. |
| NonMapConversion.ExplicitRequestsCount | src/main/java/compression/services/compression/nonmap/NonMapProblemToGraphConverter.java:43-50 | With `k` clients of distinct ids, `k·(k−1) + 2k` requests are issued. |
| NonMapConversion.AddEuclideanDistances | src/main/java/compression/services/compression/nonmap/NonMapProblemToGraphConverter.java:30-37 | It appends the Euclidean requests for all ordered pairs of the location list. |
| NonMapConversion.EuclideanRequests | src/main/java/compression/services/compression/nonmap/NonMapProblemToGraphConverter.java:30-37 | A Euclidean request is issued iff it joins two different list positions, and there are `n·(n−1)` of them. |
| NonMapConversion.OtherMetricNoEdges | src/main/java/compression/services/compression/nonmap/NonMapProblemToGraphConverter.java:21-27 | Under the Unknown metric, no edge is requested. |
| NonMapConversion.Convert | src/main/java/compression/services/compression/nonmap/NonMapProblemToGraphConverter.java:14-28 | It builds a fresh location graph over the location list, carrying the metric's requests. It fails iff those requests fail. |
| JavaStrings.PiecesJoin | src/main/java/compression/input/parsing/vrp/VrpProblemParser.java:116-118 | Joining the pieces of a split gives back the string. |
| JavaStrings.SplitOfJoin | src/main/java/compression/input/parsing/vrp/VrpProblemParser.java:207-237 | `split` reads back words joined by the separator when the last word is not empty. |
| JavaStrings.ParseIntRoundTrip | src/main/java/compression/input/parsing/vrp/VrpProblemParser.java:130-136 | `Integer.parseInt` reads back every 32-bit value that `Integer.toString` writes. |
| JavaStrings.SplitSpacesShape | src/main/java/compression/input/parsing/vrp/VrpProblemParser.java:162-166 | Splitting on whitespace runs and dropping empty items gives pieces with no whitespace, which concatenate to the line's visible characters. |
| VrpHeaders.HeaderValue | src/main/java/compression/input/parsing/vrp/VrpProblemParser.java:116-136 | NAME takes the text after " : ". DIMENSION and CAPACITY parse it as an integer, or throw `NumberFormatException`. |
| VrpHeaders.HeaderWithoutValue | src/main/java/compression/input/parsing/vrp/VrpProblemParser.java:116-139 | A header without text after " : " throws `ArrayIndexOutOfBoundsException`. |
| VrpHeaders.MetricsOf | src/main/java/compression/input/parsing/vrp/VrpProblemParser.java:138-147 | `EXPLICIT*` gives Explicit and `EUC_2D*` gives Euclidean. Anything else throws "Not supported problem metrics". |
| VrpHeaders.FormatOf | src/main/java/compression/input/parsing/vrp/VrpProblemParser.java:149-156 | FULL_MATRIX and LOWER_ROW map to themselves, and anything else to UNKNOWN. |
| VrpHeaders.BestKnownSolutionTotal | src/main/java/compression/input/parsing/vrp/VrpProblemParser.java:120-128 | Reading COMMENT never throws: a bad number gives 0. |
| TriangleWalk.TriangleCellsShape | src/main/java/compression/input/parsing/vrp/VrpProblemParser.java:175-205 | The walk's cells are exactly the pairs `i < j < d`, in row-by-row order and each once. There are `d(d−1)/2` of them. |
| TriangleWalk.WalksTriangle | src/main/java/compression/input/parsing/vrp/VrpProblemParser.java:189-201 | The `from`/`to` counter updates visit the triangle's cells in that order. |
| TriangleWalk.RemainingCount | src/main/java/compression/input/parsing/vrp/VrpProblemParser.java:176 | For `d ≤ 46341`, the 32-bit `dimensions*(dimensions-1)/2` is the number of cells. |
| TriangleWalk.RemainingWraps | src/main/java/compression/input/parsing/vrp/VrpProblemParser.java:176 | At `d = 65536`, the 32-bit product wraps, and the count is negative. |
| MatrixSections.ReadFullMatrix | src/main/java/compression/input/parsing/vrp/VrpProblemParser.java:158-173 | It consumes exactly `d` lines and stores the `j`-th non-empty token of line `i` at `(i,j)` of a non-symmetrical matrix. A missing line or a bad number fails. |
| MatrixSections.ReadRows | src/main/java/compression/input/parsing/vrp/VrpProblemParser.java:160-171 | The loop over the `n` lines stores exactly the rows `FullRows` reads from each line's items, and ends `n` lines further on. When a line is missing or a number is bad, it fails with that same error. |
| MatrixSections.FullRowsOk | src/main/java/compression/input/parsing/vrp/VrpProblemParser.java:160-171 | The rows are read iff the `d` lines are there and each line is a line of numbers. |
| MatrixSections.FullRowsValues | src/main/java/compression/input/parsing/vrp/VrpProblemParser.java:160-171 | Row `i` of the result is the numbers of line `pos+i`. |
| MatrixSections.ReadTriangleMatrix | src/main/java/compression/input/parsing/vrp/VrpProblemParser.java:175-205 | The result is the symmetrical matrix of the writes that the line-by-line walk makes, or that walk's error. |
| MatrixSections.TriangleSection | src/main/java/compression/input/parsing/vrp/VrpProblemParser.java:175-205 | When the read succeeds, the cells written are exactly `TriangleCells(d)`, in order. |
| MatrixSections.SurplusToken | src/main/java/compression/input/parsing/vrp/VrpProblemParser.java:185-201 | After the last cell, a line succeeds iff it holds no further token. A surplus number throws "Invalid distance matrix". |
| MatrixSections.TriangleLinesStop | src/main/java/compression/input/parsing/vrp/VrpProblemParser.java:181-184 | The loop stops once the count is reached. It fails at the end of the input, and it throws "Invalid distance matrix line" on an empty split. |
| MatrixSections.TriangleLineValues | src/main/java/compression/input/parsing/vrp/VrpProblemParser.java:185-201 | The numbers a line stores are its non-empty items, in order. |
| NodeSections.LocationLineErrors | src/main/java/compression/input/parsing/vrp/VrpProblemParser.java:209-219 | A location line is accepted iff it has 3 items, its id is the line number and both coordinates parse. Each other outcome ("Invalid location", a number error, "Invalid location id") has its exact condition. |
| NodeSections.DemandLineErrors | src/main/java/compression/input/parsing/vrp/VrpProblemParser.java:226-234 | A demand line is accepted iff it has 2 items, its id is the line number and the demand parses. Each error has its exact condition. |
| NodeSections.LocationLineRoundTrip | src/main/java/compression/input/parsing/vrp/VrpProblemParser.java:209-219 | The line `i x y`, written with single spaces, reads back as location `(x, y)`. |
| NodeSections.ReadLocations | src/main/java/compression/input/parsing/vrp/VrpProblemParser.java:207-222 | It returns `LocationsSection` and the position after its `n` lines. |
| NodeSections.LocationsSectionRead | src/main/java/compression/input/parsing/vrp/VrpProblemParser.java:207-222 | The section is read iff its `n` lines exist and each is a valid location line for its number. Entry `q` is line `q`'s location. |
| NodeSections.ReadDemands | src/main/java/compression/input/parsing/vrp/VrpProblemParser.java:224-237 | It returns `DemandsSection` and the position after its `n` lines. |
| NodeSections.DemandsSectionRead | src/main/java/compression/input/parsing/vrp/VrpProblemParser.java:224-237 | The section is read iff its `n` lines exist and each is a valid demand line. Entry `q` is line `q`'s demand. |
| NodeSections.ReadDepots | src/main/java/compression/input/parsing/vrp/VrpProblemParser.java:239-249 | It returns `DepotsFrom`. |
| NodeSections.DepotsFromIds | src/main/java/compression/input/parsing/vrp/VrpProblemParser.java:242-247 | The collected ids are the ids of the lines read, in order, and none is negative. |
| NodeSections.DepotsFromStop | src/main/java/compression/input/parsing/vrp/VrpProblemParser.java:242-247 | Reading stops at the end of the input, or just after the first negative id. |
| NodeSections.DepotsFromOk | src/main/java/compression/input/parsing/vrp/VrpProblemParser.java:242-247 | Reading succeeds iff every line up to such a stop is a number. |
| VrpParser.ReadHeader | src/main/java/compression/input/parsing/vrp/VrpProblemParser.java:45-62 | A header line updates the parse state as `HeaderLine` says. |
| VrpParser.ReadEdgeWeights | src/main/java/compression/input/parsing/vrp/VrpProblemParser.java:63-75 | It applies the guards, then the reader that the format chooses, as `EdgeWeightSection` says. |
| VrpParser.EdgeWeightGuards | src/main/java/compression/input/parsing/vrp/VrpProblemParser.java:63-68 | `EDGE_WEIGHT_SECTION` throws the explicit-only error iff the metric is not Explicit, and "Unknown edge weight format" iff the metric is Explicit with the format unknown. |
| VrpParser.DimensionsGuard | src/main/java/compression/input/parsing/vrp/VrpProblemParser.java:76-85 | The coordinate and demand sections throw "Invalid dimensions" iff DIMENSION is still 0. |
| VrpParser.OtherLineSkipped | src/main/java/compression/input/parsing/vrp/VrpProblemParser.java:44-95 | A line with no keyword changes nothing and moves to the next line. |
| VrpParser.EofSkipped | src/main/java/compression/input/parsing/vrp/VrpProblemParser.java:89-94 | The line `EOF` does not end the loop: the identity comparison never holds, so the line is skipped like any other. |
| VrpParser.ReadSection | src/main/java/compression/input/parsing/vrp/VrpProblemParser.java:63-94 | A section line, or a skipped line, is handled as `SectionLine` says. |
| VrpParser.OneDepotGuard | src/main/java/compression/input/parsing/vrp/VrpProblemParser.java:96-99 | It throws "Only one depot is supported" iff a depot section was read with a count other than 1. A missing depot section is a null-pointer error. |
| VrpParser.ConvertExplicit | src/main/java/compression/input/parsing/vrp/VrpProblemParser.java:102-108 | It builds the depot and the clients of the Explicit branch as `ExplicitPlaces`. |
| VrpParser.ExplicitNumbering | src/main/java/compression/input/parsing/vrp/VrpProblemParser.java:102-108 | It succeeds iff the arrays are present and long enough. The depot is `(1, locations[0])`, and client `k` is `(k+2, demands[k+1], locations[k+1])`. |
| VrpParser.ConvertDepot | src/main/java/compression/input/parsing/vrp/VrpProblemParser.java:258-260 | The depot gets id 1 and location `depotId−1`, or the index error. |
| VrpParser.ConvertClients | src/main/java/compression/input/parsing/vrp/VrpProblemParser.java:262-275 | It returns the clients `ConvertedClients` lists. |
| VrpParser.NumberedClients | src/main/java/compression/input/parsing/vrp/VrpProblemParser.java:258-275 | Success and every error condition are stated as iffs. A positive demand at the depot throws "Cannot set demand to depot". Otherwise every other index becomes a client, in order, with ids 2, 3, …. |
| VrpParser.Finish | src/main/java/compression/input/parsing/vrp/VrpProblemParser.java:96-113 | The end of the loop: the depot check, then the depot and clients, by metric. |
| VrpParser.AssembledNumbering | src/main/java/compression/input/parsing/vrp/VrpProblemParser.java:96-113 | The problem has one vehicle `(1, capacity)`, the depot has id 1, and the clients have ids 2, 3, …. |
| VrpParser.ParseReader | src/main/java/compression/input/parsing/vrp/VrpProblemParser.java:32-114 | The loop over the lines gives `ParseLines`: the fold of the line handlers, then `Finish`. |
| VrpParser.ParsedNumbering | src/main/java/compression/input/parsing/vrp/VrpProblemParser.java:32-114 | Every parsed problem has one vehicle with id 1, a depot with id 1 and clients numbered 2, 3, …. |

## Left out

- JavaStrings.ParseInt: accepts only the ASCII digits `0`-`9`. Java's `Integer.parseInt` reads digits with `Character.digit(c, 10)`, which also accepts other Unicode decimal digits (Arabic-Indic `١٢` reads as 12). The model gives the number error for those, because the Unicode digit tables are not part of this model.
- EdmondsFinder.FindMinimumSpanningArborescence: the least total weight of the result among all arborescences at the same root is not proved. The model proves that the result is a spanning arborescence (edges of `g`, one into each non-root vertex, a topological numbering, every vertex reached from the root), but not that it is minimum.
- EdmondsFinder.IntegerGetSpanningArborescence: minimality of weight is not proved, as above.
- EdmondsGeneric.GetSpanningArborescence: minimality of weight is not proved, as above.
- EdmondsContraction.IsContraction: the reduced graph's `u→c` and `c→t` edges are added in vertex-list order. The source iterates `shortestIncomming`/`shortestOutcomming` in `HashMap` entry order, which fixes the reduced graph's edge order.
- EdmondsSelection.GetArbitraryCycle: jgrapht's `TarjanSimpleCycles` is a function parameter. Its contract `CycleEnumerator` says that it lists only cycles of the P-graph, and lists none iff the P-graph is acyclic. Its own order is not modelled.
- GraphKeepers.GraphKeeper.constructor: it requires every edge endpoint to be among `items`. The source would store the null that `vertexMap.get` returns.
- GraphKeepers.GraphKeeper.MarkEdges: it requires every edge of `recursiveResult` to be a key of `recursiveMap`. The source would add null to the edge list.
- GraphKeepers.GraphKeeper.ExpandedEdges: same `recursiveMap` requirement as `MarkEdges`.
- GraphKeepers.GraphKeeper.ShrinkCycle: it returns the computed vertex list, edge list and `edgesMap`. The source returns them through a raw-typed `new GraphKeeper(newVertices, newEdges)`, which re-wraps keepers in keepers; that call is not modelled.
- KeeperLists.EdgesTo: `EdgeKeeper` is a datatype with value equality. The source compares keepers by object identity (`EdgeKeeper`'s own `equals` is not part of this model).
- MatrixGraphs.SimpleMatrixGraph.AddEdge: it requires both endpoints to be among the items. The source throws a `NullPointerException` when it unboxes the missing index.
- MatrixGraphs.SimpleMatrixGraph.GetEdgesFrom: it requires the vertex to be among the items, for the same reason.
- MatrixGraphs.Numbering: the source fills `verticesMap` from the item collection. When an item repeats, the model keeps its last index; this rule is not in the source.
- Compression.ConvertToJsprit: it requires the branches to be distinct objects, which the source does not check. It builds the costs with the corrected copy (`CopyDistanceMatrix`) rather than the one as written; see "## Findings". The jsprit builders (`Service.Builder`, `VehicleRoutingProblem.Builder`, `addVehicles`, `Location.newInstance`) are not modelled; the result lists the jobs, the matrix and the cost triples instead.
- Compression.AggregateServices: it requires the branches to be distinct objects, which the source does not check.
- Compression.Jobs: the job size `getInternalCost().intValue()` is the `int` cost itself, since doubles are modelled as `int`.
- Obtaining the branches (`NonMapCompressionService.getAggregatedClients`) is not part of this model. The branches are a parameter of `ConvertToJsprit`.
- The distance lookup `DistanceMatrix.getDistance` is a function parameter (`Lookup`), because `DistanceMatrix.java` is not part of this model. A matrix is the map its `setDistance` calls write.
- `DistanceService.getEuclideanDistance` and `LocationGraph.addEuclideanEdge` compute floating-point square roots. The distance is an `int`-valued function parameter, and only the pairs requested are modelled.
- `Double.parseDouble` is a function parameter (`NumberParser`). `Integer.parseInt` is modelled for an optional sign and ASCII digits, with 32-bit bounds.
- Doubles are modelled as `int`. No rounding, NaN or infinity is modelled.
- NonMapConversion.Convert: a `Location` is identified by its position in the location list. The source's `from != to` compares `Location` objects by identity, and each client's location is its own object.
- GraphConversion.GenerateDistanceMatrix: `c1.getId() != c2.getId()` compares boxed `Long`s by identity in the source, and the model compares values. The two differ only when two clients share an id above 127.
- NonMapConversion.AddDistancesFromDistanceMatrix: `cfrom.getId() != cto.getId()` is modelled as a value comparison. It differs from the identity comparison only when two clients share an id above 127.
- MatrixSections.ReadTriangleMatrix: for the `LOWER_ROW` format, the walk fills the pairs `i < j` row by row, that is the upper triangle. This is what the code does, and the model follows the code.
- Parser I/O: the model reads a sequence of lines. It leaves out the `InputStream`/`BufferedReader` handling and the wrapping of `IOException` into `ParsingException`.
- The debug `System.out.println` in `findMinimumSpanningArborescence` is left out.
- `CompressionApplication`, the jsprit solver and `VrpSolutionRouteNode` are orchestration or plain data and are left out.
- `AggregatedService` and `Vehicle` are datatypes without behaviour.

## Findings

| source | as written | input that shows it | evidently intended | confidence | as-written member | corrected member |
|---|---|---|---|---|---|---|
| src/main/java/compression/services/jsprit/conversion/ExplicitMetricCompressionVrpProblemToJSpritConverter.java:98-104 | `from` and `to` are boxed `Long`s, and `from != to` compares object identity. `Long.valueOf` caches only -128..127, so from 128 on two equal ids are different boxes. | 127 aggregated services, so dimension 128: the copy also emits the diagonal entry (128, 128), and so on for larger dimensions. | A cost triple for every ordered pair of different ids, and none on the diagonal. | not executed | Compression.CopyDistanceMatrixAsWritten | Compression.CopyDistanceMatrix |
