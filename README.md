# Inexact weighted subgraph monomorphism, modelled in Dafny

The library searches for an injective mapping of the vertices of a small
directed multigraph G1 into a larger one G2. A mapping costs the number
of edges it misses: over every ordered pair (u, v) of mapped G1 vertices,
the self pair u == v included, the amount by which the G1 multiplicity
w1(u, v) exceeds the G2 multiplicity w2(m(u), m(v)). This project models
the parts of the library that compute this:

- the graph (a dense n x n matrix of multiplicities with a running total);
- the mapping (a forward table, a reverse table and a mapped count) and the
  search state (a mapping plus a mask of the G2 vertices in use);
- the cost functions and the heuristic;
- the fail-first vertex picker;
- three searches over mappings: the exhaustive best-k branch and bound,
  the best-first A* search, and the beam search with its bounded sorted
  array and per-level queue;
- the missing-edge count and the mapping validity check used as oracles;
- the edge-extension report and the two public entry points;
- the deterministic graph builders.

Each source file is modelled in its own form:

- `graph.dfy` (module `Graphs`) is the `Graph` class. Its matrix is a flat
  `array<nat>` of n * n cells, and it is paired with the value `Digraph`
  that states what the array holds.
- `state.dfy` (module `Assignments`) holds the `Mapping` and `State`
  classes. Their tables are `seq` fields that the methods reassign. The
  value forms `Assignment` and `SearchState` are the ones the searches copy.
- `cost.dfy` (module `Costs`) defines the cost, the heuristic and their
  loops. `ordering.dfy` (module `Ordering`) is the vertex picker.
  `oracle.dfy` (module `Oracle`) holds the two oracle loops.
- `bruteforce.dfy`, `astar.dfy` and `beam.dfy` (modules `BruteForce`,
  `AStar` and `Beam`) are the three searches. `builders.dfy` (module
  `Builders`) holds the graph builders.
- `dispatch.dfy` (module `Dispatch`) holds the report and the entry points.
  `sums.dfy` (module `Sums`) holds finite sums over index ranges.

Every loop-based operation is a method proved against a specification
function. The specification functions are tied together by lemmas:

- the cost of a child is the parent's cost plus the assignment cost;
- the heuristic never overestimates the cost of any completion;
- the A* search returns a mapping of least cost;
- the brute force keeps the k cheapest full mappings, distinct and in order;
- the bounded array stays sorted and drops only its worst entry;
- each level of the beam search becomes exactly the table the bounded
  inserts of the seeds, or of the children of the free G2 vertices in
  ascending order, leave, so it keeps the best nodes offered;
- the beam search always terminates with a full mapping;
- the report's shortfalls add up to the missing-edge count.

## Model

| member | source | states |
|---|---|---|
| Assignments.Fresh | src/State.hpp:19-23 | the empty mapping is valid, has count 0, and maps and uses no vertex |
| Assignments.Set | src/State.hpp:44-68 | after mapping x to y, forward[x] = y and reverse[y] = x; x's old image and y's old preimage are cleared; the tables stay mutual inverses; the count rises by one exactly when neither x nor y had a partner |
| Assignments.SetKeepsValid | src/State.hpp:65-67 | when x and y do not both have other partners, the stored count stays the number of mapped vertices |
| Assignments.SetCountDrift | src/State.hpp:65-67 | when x and y both had other partners, the stored count ends one above the number of mapped vertices |
| Assignments.RemoveG1 | src/State.hpp:70-85 | removing an unmapped x returns false and changes nothing; removing a mapped x returns true, clears both directions and lowers the count by one |
| Assignments.RemoveKeepsValid | src/State.hpp:70-85 | removal keeps a valid mapping valid |
| Assignments.SetThenRemove | src/algos.cpp:83-98 | mapping an unmapped x to a free y and then removing x restores the mapping exactly, which is the backtracking step |
| Assignments.SameIsEquality | src/State.hpp:32-42 | on consistent mappings, comparing sizes, counts and forward tables (and not the reverse tables) is equality of values |
| Assignments.BalancedCounts | src/State.hpp:105-115 | in a consistent mapping, as many G2 vertices are in use as G1 vertices are mapped |
| Assignments.CountMappedFull | src/State.hpp:111-115 | the count of mapped entries is at most the table size; it equals the size exactly when every entry is mapped, and is below it exactly when some entry is unmapped |
| Assignments.FreeVertexExists | src/algos.cpp:249-270 | when G1 is no larger than G2 and some G1 vertex is unmapped, some G2 vertex is free |
| Assignments.FullMappingNeedsRoom | src/test_framework.cpp:88-101 | a mapping that maps every G1 vertex needs at least as many G2 vertices |
| Assignments.ExtensionUsesFreeVertices | src/algos.cpp:318-324 | a full mapping extending a sends each vertex that a leaves unmapped to a G2 vertex that a leaves free |
| Assignments.FreshState | src/State.hpp:132-135 | the empty search state is valid: no vertex is mapped and no mask bit is set |
| Assignments.SetState | src/State.hpp:142-151 | the state's mapping becomes Set(mapping, x, y); if the mask matched the reverse table before, it matches it after |
| Assignments.SetStateKeepsValid | src/State.hpp:142-151 | mapping an unmapped vertex to a free one keeps the state valid, raises the count by one and extends the old mapping |
| Assignments.Mapping.constructor | src/State.hpp:19-23 | the new object is the empty mapping |
| Assignments.Mapping.SetMapping | src/State.hpp:44-68 | the object's new value is Set of its old value |
| Assignments.Mapping.RemoveMappingG1 | src/State.hpp:70-85 | the result and the new value are those of RemoveG1 on the old value |
| Assignments.Mapping.GetMappingG1ToG2 | src/State.hpp:87-91 | the result is the sentinel exactly when x is unmapped, and otherwise a G2 vertex whose reverse entry points back to x |
| Assignments.Mapping.GetMappingG2ToG1 | src/State.hpp:93-97 | the result is the sentinel exactly when y is unused, and otherwise a G1 vertex whose forward entry points back to y |
| Assignments.Mapping.IsG1Mapped | src/State.hpp:99-103 | x is mapped exactly when some G2 vertex names it as preimage |
| Assignments.Mapping.IsG2Mapped | src/State.hpp:105-109 | y is in use exactly when some G1 vertex names it as image |
| Assignments.Mapping.GetMappedCount | src/State.hpp:111-115 | in a valid mapping the count is the number of mapped G1 vertices, so at most the size of G1 |
| Assignments.Mapping.Equals | src/State.hpp:32-42 | on consistent objects, the comparison holds exactly when their values are equal |
| Assignments.State.constructor | src/State.hpp:132-135 | the new object is the empty search state |
| Assignments.State.SetMapping | src/State.hpp:142-151 | the object's new value is SetState of its old value |
| Graphs.CellIsRowMajor | src/graph.hpp:125-141 | the cell of (u, v) is u * n + v |
| Graphs.CellInjective | src/graph.hpp:125-141 | distinct pairs of [0, n) x [0, n) have distinct cells |
| Graphs.Digraph.Add | src/graph.hpp:47-51 | adding k edges from u to v raises w(u, v) and the total by k, and no other pair changes |
| Graphs.Digraph.Remove | src/graph.hpp:53-59 | removing k of at least k edges lowers w(u, v) and the total by k, and no other pair changes |
| Graphs.EmptyDigraph | src/graph.hpp:14-17 | the new graph has n vertices, every weight 0 and total 0 |
| Graphs.Graph.constructor | src/graph.hpp:14-17 | the new graph has n vertices, no edges, and the running total equals the matrix sum |
| Graphs.Graph.AddEdges | src/graph.hpp:47-51 | the graph's new value is Add of its old value, and the running total still equals the matrix sum |
| Graphs.Graph.RemoveEdges | src/graph.hpp:53-59 | when at least k edges are present, the graph's new value is Remove of its old value, and the total still equals the matrix sum |
| Graphs.Graph.GetEdges | src/graph.hpp:61-64 | the result is the weight of (u, v), which never exceeds the total |
| Graphs.Graph.EdgeTotal | src/graph.hpp:68 | the running total is the sum of all cells |
| Graphs.Digraph.OutScanContents | src/graph.hpp:70-80 | the scan of row v reports every u with nonzero w(v, u) exactly once, with its weight, in ascending order |
| Graphs.Digraph.InScanContents | src/graph.hpp:82-92 | the scan of column v reports every u with nonzero w(u, v) exactly once, with its weight, in ascending order |
| Graphs.Graph.IterateOutEdges | src/graph.hpp:70-80 | the calls are the scan of row v: exactly the u with nonzero w(v, u), each once with its weight, in ascending order |
| Graphs.Graph.IterateInEdges | src/graph.hpp:82-92 | the calls are the scan of column v: exactly the u with nonzero w(u, v), each once with its weight, in ascending order |
| Graphs.Graph.IterateEdgesOf | src/graph.hpp:94-110 | the calls are the scan of row v, as (w, v, u), followed by the scan of column v, as (w, u, v), and nothing else; a self-loop is reported twice |
| Graphs.Graph.IterateEdges | src/graph.hpp:112-122 | the calls are exactly the nonzero ordered pairs, each once with its weight, in row-major order |
| Graphs.Graph.IterateNeighbours | src/algos.cpp:161-169 | the neighbours of v are exactly the u joined to v in either direction, each visited once |
| Graphs.Graph.GetNumOfNeighbours | src/algos.cpp:138 | the result is the number of distinct neighbours of v, at most n |
| Costs.SingleDirection | src/algos.cpp:185-198 | the result is the excess of the G1 weight over the G2 weight, so at most the G1 weight; the zero guard does not change it |
| Costs.EdgesAdditions | src/algos.cpp:200-206 | the result is the sum of the excesses in both directions |
| Costs.MissingEdges | src/test_framework.cpp:12-37 | the missing-edge count is never negative |
| Costs.MissingEdgesFresh | src/test_framework.cpp:17-26 | a mapping with no mapped vertex misses nothing, because unmapped vertices contribute nothing |
| Costs.IncrementalAdditivity | src/algos.cpp:21-54 | mapping an unmapped x to a free y raises the missing-edge count by exactly the incremental cost of x in the new mapping |
| Costs.AssignmentCostIsIncremental | src/algos.cpp:208-236 | the assignment cost of (v1, v2), computed on the old mapping, equals the incremental cost of v1 after mapping it to v2 |
| Costs.AssignmentCostAdditivity | src/algos.cpp:326-327 | the child's missing-edge count is the parent's plus the assignment cost |
| Costs.MissingEdgesMonotone | src/algos.cpp:61-65 | extending a mapping never lowers its missing-edge count, which makes the brute-force pruning sound |
| Costs.DeficitLowerBound | src/algos.cpp:238-273 | a full extension misses at least what the partial mapping misses, plus its deficit on the pairs crossing between mapped and unmapped vertices |
| Costs.CrossDeficitByVertex | src/algos.cpp:255-267 | that crossing deficit, grouped by the unmapped endpoint, is the sum of the candidate costs of the images |
| Costs.IncrementalCost | src/algos.cpp:21-54 | the incremental cost is never negative, and is zero while no vertex is mapped |
| Costs.AssignmentCost | src/algos.cpp:208-236 | the assignment cost is never negative, and is zero for a vertex without neighbours |
| Costs.CandidateCost | src/algos.cpp:254-267 | the candidate cost is never negative |
| Costs.Heuristic | src/algos.cpp:238-273 | the heuristic is never negative |
| Costs.MinCandidate | src/algos.cpp:249-268 | the running minimum is at most every free candidate's cost, and is either INT_MAX or one of those costs |
| Costs.HeuristicAdmissible | src/algos.cpp:238-273 | every full extension misses at least the state's missing edges plus the heuristic |
| Costs.HeuristicOfFullMapping | src/algos.cpp:245-248 | the heuristic of a full mapping is zero |
| Costs.HeuristicTermAttained | src/algos.cpp:249-270 | when G1 is no larger than G2, an unmapped vertex's term is the least free candidate cost (capped at INT_MAX), so the sentinel is never added on its own |
| Costs.CalculateSingleDirection | src/algos.cpp:185-198 | the method returns the excess of w1(v1, u1) over w2(v2, u2) |
| Costs.CalculateIncrementalCost | src/algos.cpp:21-54 | the loop over the G1 vertices returns the incremental cost of x |
| Costs.CalculateAssignmentCost | src/algos.cpp:208-236 | the loop over the neighbours of v1 returns the assignment cost |
| Costs.CalculateCandidateCost | src/algos.cpp:254-267 | the loop over v1's mapped neighbours returns the candidate cost of v2 |
| Costs.CalculateMinCandidate | src/algos.cpp:249-269 | the loop over the free G2 vertices returns the running minimum MinCandidate |
| Costs.CalculateHeuristic | src/algos.cpp:238-273 | the loop returns the heuristic: the sum, over unmapped G1 vertices, of their cheapest free candidate |
| Ordering.MappedNeighbourCount | src/algos.cpp:158-169 | the number of mapped neighbours is at most the number of neighbours |
| Ordering.CountNeighbours | src/algos.cpp:158-169 | the method counts v's neighbours and those of them already mapped; the mapped ones are at most all of them |
| Ordering.PickMostConnected | src/algos.cpp:133-146 | the result is the last vertex of maximal neighbour count |
| Ordering.PickMostConstrained | src/algos.cpp:149-182 | the result is the last unmapped vertex maximising (mapped neighbours, total neighbours), or the sentinel when every vertex is mapped |
| Ordering.PickNextVertex | src/algos.cpp:130-183 | with a stored count of 0, the last most connected vertex; otherwise the last most constrained unmapped vertex, or the sentinel |
| Oracle.CalculateMissingEdges | src/test_framework.cpp:12-37 | the double loop over mapped pairs returns the missing-edge count |
| Oracle.ForwardChecks | src/test_framework.cpp:45-58 | the pass succeeds exactly when every forward entry is the sentinel or an in-range G2 vertex pointing back |
| Oracle.ReverseChecks | src/test_framework.cpp:60-73 | the pass succeeds exactly when every reverse entry is the sentinel or an in-range G1 vertex pointing back |
| Oracle.CountForward | src/test_framework.cpp:75-81 | the pass returns the number of mapped G1 vertices |
| Oracle.VerifyMapping | src/test_framework.cpp:39-104 | the check accepts exactly the valid mappings whose count is n1 when n1 <= n2, and at most n2 otherwise |
| BruteForce.IsMappingPresent | src/algos.cpp:11-19 | the result holds exactly when some kept result equals m under the mapping equality |
| BruteForce.UpperBound | src/algos.cpp:72-79 | in a sorted list, the multimap's insertion point follows every entry of cost at most c and precedes the rest |
| BruteForce.InsertSorted | src/algos.cpp:72-79 | the insert adds exactly e to the kept entries |
| BruteForce.InsertPlaces | src/algos.cpp:72-79 | entries before the insertion point stay in place, and later ones move up by one |
| BruteForce.InsertKeepsOrder | src/algos.cpp:72-79 | the insert keeps ascending order; the costliest entry afterwards is the costlier of e and the old costliest |
| BruteForce.InsertKeepsDistinct | src/algos.cpp:68-70 | inserting a mapping that is not yet kept keeps the kept mappings distinct |
| BruteForce.FullExtensionIsEqual | src/algos.cpp:61-80 | a full mapping that extends a full mapping is that mapping |
| BruteForce.InsertKeepsFull | src/algos.cpp:72-79 | inserting, and evicting the last entry, keep every kept mapping full |
| BruteForce.InsertKeepsRanked | src/algos.cpp:72-79 | inserting a new mapping with its cost keeps the ranking |
| BruteForce.InsertImproves | src/algos.cpp:72-74 | while fewer than k are kept, inserting keeps the ranking and keeps every mapping accounted for, the new one included |
| BruteForce.ReplaceImproves | src/algos.cpp:75-79 | with k kept, replacing the costliest by a strictly cheaper mapping keeps the ranking and keeps every mapping accounted for |
| BruteForce.KeepMapping | src/algos.cpp:66-80 | a full mapping reaching the leaf is kept, or a kept copy is found; the ranking is preserved and the mapping is accounted for |
| BruteForce.DescendKeepsShape | src/algos.cpp:84-88 | mapping the next vertex to a free one gives a valid mapping of one more vertex, with that vertex in use |
| BruteForce.StepCovers | src/algos.cpp:83-98 | after the subtree of one candidate, every full extension sending depth up to that candidate is accounted for |
| BruteForce.UsedSkips | src/algos.cpp:83-86 | skipping a used candidate loses no full extension |
| BruteForce.BruteForceRecursive | src/algos.cpp:56-103 | the search keeps the ranking, accounts for every full extension of the current mapping, and leaves the mapping and the used mask as they were |
| BruteForce.TryCandidate | src/algos.cpp:83-98 | one candidate turn sets the pair, searches the subtree and undoes both, restoring the mapping and the mask |
| BruteForce.DominatedByMappings | src/algos.cpp:117-123 | every full mapping accounted for by the ranking is returned, or k are returned and none is cheaper than it |
| BruteForce.CollectMappings | src/algos.cpp:117-123 | the result lists the kept mappings in their order |
| BruteForce.FinalRanking | src/algos.cpp:105-128 | the final ranking holds 1 to k distinct full mappings, cheapest first, and no omitted full mapping is cheaper than the last of k |
| BruteForce.AccurateBruteForce | src/algos.cpp:105-128 | the search returns [] when n1 > n2; otherwise 1 to k distinct full mappings in ascending cost, and no omitted full mapping is cheaper than the last of k |
| BruteForce.RankAll | src/algos.cpp:110-115 | the search from the empty mapping ranks every full mapping |
| AStar.MinIndex | src/algos.cpp:307-309 | the chosen node has the least priority in the queue |
| AStar.PriorityIsLowerBound | src/algos.cpp:326-331 | a queued node's priority never exceeds the cost of any full mapping that extends it |
| AStar.FullNodePriority | src/algos.cpp:311-313 | a full node's priority is its missing-edge count |
| AStar.FullMinimumIsOptimal | src/algos.cpp:307-313 | a full node of least priority has a mapping of least missing-edge count |
| AStar.ChildNode | src/algos.cpp:319-333 | the child maps v1 to v2 on top of the parent's state; its g is the parent's g plus the assignment cost, and its f is g plus the heuristic; when the parent's g was its cost, the child's g is its cost |
| AStar.ExpandNode | src/algos.cpp:318-334 | the images of the children are exactly the free G2 vertices, strictly ascending; each child maps v1 to its image on top of the parent, is good with priority g + h, and weighs one step less than the parent |
| AStar.ExpansionCovers | src/algos.cpp:318-334 | replacing a node by its children keeps every full mapping covered by the queue |
| AStar.ExpansionKeepsGood | src/algos.cpp:318-334 | replacing a node by its good children leaves only good nodes |
| AStar.ExpansionLowersPotential | src/algos.cpp:306-335 | replacing a node by its children lowers the termination measure |
| AStar.QueueStep | src/algos.cpp:306-335 | one iteration keeps the invariant, leaves the queue non-empty and lowers the measure |
| AStar.UnmappedVertexExists | src/algos.cpp:315-316 | a mapping that is not full has an unmapped vertex for the picker to return |
| AStar.AccurateAStar | src/algos.cpp:293-338 | the search returns [] when n1 > n2; otherwise exactly one full mapping, whose missing-edge count is at most that of every full mapping |
| Beam.AscendingIsSorted | src/algos.cpp:368-395 | the entry-by-entry order of the table is its pairwise order |
| Beam.InsertPosition | src/algos.cpp:373-379 | the slot follows every entry of priority at most f, and precedes the first larger one |
| Beam.SortedInsertProperties | src/algos.cpp:368-395 | inserting at the slot keeps the order and adds exactly the new node |
| Beam.PrioInsert | src/algos.cpp:368-395 | the table grows by one while it has room and otherwise keeps R entries; when the new node is not kept the table is unchanged |
| Beam.PrioInsertIsBoundedInsert | src/algos.cpp:368-395 | the bounded insert keeps the first min(size + 1, R) entries of the unbounded insert |
| Beam.PrioInsertProperties | src/algos.cpp:368-395 | the bounded insert stays ascending and within R; it grows by one while there is room; it holds only old entries and the new node; at most one entry falls out, and it is no better than any kept entry |
| Beam.PrioInsertBest | src/algos.cpp:368-395 | the best entry afterwards is the better of the old best and the new node, and an earlier entry wins a tie |
| Beam.PrioInsertDrops | src/algos.cpp:370-390 | a node of the old table or the new node that the bounded insert leaves out is only left out of a full table, and is no better than any entry kept |
| Beam.PrioInsertBelow | src/algos.cpp:370-390 | when every entry of a full table is at most d's priority, every entry after the bounded insert still is |
| Beam.Offer | src/algos.cpp:368-395 | the table after bounded inserts of the nodes xs, one after another, holds min(old size + number of nodes offered, R) entries |
| Beam.OfferStep | src/algos.cpp:368-395 | offering one more node is one more bounded insert into the table the earlier offers left |
| Beam.OfferFrom | src/algos.cpp:368-395 | after a run of bounded inserts the table is still ascending and holds only old entries and offered nodes |
| Beam.OfferKeepsBest | src/algos.cpp:368-395 | an old entry or offered node that a run of bounded inserts leaves out is only left out of a full table, and is no better than any entry kept: the table keeps the R best |
| Beam.PrioArr.constructor | src/algos.cpp:393-395 | the new table is empty with capacity R |
| Beam.PrioArr.IsEmpty | src/algos.cpp:346 | the table is empty exactly when it holds no node |
| Beam.PrioArr.PeekBest | src/algos.cpp:348-352 | the first node is held and has the least priority |
| Beam.PrioArr.ShiftLeft | src/algos.cpp:360-362 | entries in the range move one place left, and nothing else moves |
| Beam.PrioArr.GetBest | src/algos.cpp:354-366 | the first node is returned and removed, the rest shift left, and the returned node has the least priority |
| Beam.PrioArr.FindSlot | src/algos.cpp:373-379 | the slot found is the ordered-insert position |
| Beam.PrioArr.ShiftRight | src/algos.cpp:385-387 | entries in the range move one place right, and nothing else moves |
| Beam.PrioArr.Insert | src/algos.cpp:368-395 | the table's new contents are the bounded insert of its old contents |
| Beam.PrioArr.Place | src/algos.cpp:373-392 | a node that is not dropped lands at its slot, with the table the bounded insert |
| Beam.MasterQueue.constructor | src/algos.cpp:414-421 | the queue has one empty level per G1 vertex and an empty heap |
| Beam.MasterQueue.IsEmpty | src/algos.cpp:472 | the heap is empty exactly when every level is empty |
| Beam.MasterQueue.Insert | src/algos.cpp:423-444 | level idx becomes the bounded insert of its old contents, and the heap keeps the best priority of each non-empty level |
| Beam.MasterQueue.PopMin | src/algos.cpp:446-470 | the best node of the level with the least key is removed and returned; its priority is least among all queued nodes |
| Beam.LevelPotentialUpdate | src/algos.cpp:501-531 | replacing a level moves the termination measure by the size change times the level's weight |
| Beam.PopLowersPotential | src/algos.cpp:503 | taking a level's best node lowers the measure by the level's weight |
| Beam.BeamStepLowers | src/algos.cpp:501-531 | taking a node and inserting at most n2 nodes into the next level lowers the measure |
| Beam.InsertRaisesPotential | src/algos.cpp:530 | a bounded insert into a level raises the measure by at most the level's weight |
| Beam.GoodLevelsInsert | src/algos.cpp:530 | inserting a node into the level of its mapped count keeps every node in its level |
| Beam.GoodLevelsPop | src/algos.cpp:503 | taking a level's best node keeps every node in its level |
| Beam.GatherContents | src/algos.cpp:511-515 | the nodes a loop over the G2 vertices gathers are those of admitted vertices, and every admitted vertex's node is among them |
| Beam.GatherEvery | src/algos.cpp:492 | when every vertex is admitted, one node per vertex is gathered, at the vertex's own index |
| Beam.ChildrenSkip | src/algos.cpp:511-515 | a used G2 vertex adds no child to those offered |
| Beam.ChildrenStep | src/algos.cpp:516-529 | a free G2 vertex adds its child after those of the vertices below it |
| Beam.ChildrenContents | src/algos.cpp:511-531 | the children offered below y are children of best, and the child of every free vertex below y is among them |
| Beam.BuiltChild | src/algos.cpp:516-526 | a node with best's state plus v1 mapped to y, cost best's g plus the assignment cost and priority g + h is the child of best for y |
| Beam.MakeChild | src/algos.cpp:516-526 | the node built is the child of best for the free vertex y and belongs one level below best |
| Beam.InsertChild | src/algos.cpp:515-530 | the child of best maps v1 to y, costs best's g plus the assignment cost and has priority g + h; level idx + 1 becomes the bounded insert of the child into its old contents, every other level is unchanged, and the beam invariants hold |
| Beam.InsertNode | src/algos.cpp:530 | level i becomes the bounded insert of the node into its old contents, every other level is unchanged, the beam invariants hold, and the measure grows by at most the level's weight |
| Beam.OfferChild | src/algos.cpp:515-530 | for a free candidate y, level idx + 1 becomes the table after the children of the free vertices up to y were offered, in order, the other levels are unchanged and the measure stays within bounds |
| Beam.ExpandCandidate | src/algos.cpp:512-531 | one candidate turn keeps the queue a beam and changes only level idx + 1, which becomes the table after the children of the free vertices up to y were offered, in order; the measure stays within bounds |
| Beam.ExpandAll | src/algos.cpp:512-531 | after the candidate loop, level idx + 1 is the table after the children of all free G2 vertices were offered, in ascending order of the vertex |
| Beam.ChildrenSpawned | src/algos.cpp:512-531 | the level the expansion leaves holds only its old nodes and children of best |
| Beam.ExpandBest | src/algos.cpp:509-531 | expanding a node leaves every level but idx + 1 unchanged; level idx + 1 becomes the table that held its old nodes after the child of every free G2 vertex was offered through the bounded insert, in ascending order of the vertex, so it ends non-empty and holds only its old nodes and children of best with v1 mapped to a free G2 vertex; the measure grows by at most n2 times that level's weight |
| Beam.SeedNode | src/algos.cpp:493-497 | the seed for v maps vStart to v on the fresh state, with g 0 and the heuristic as priority |
| Beam.SeedsStep | src/algos.cpp:492-498 | the seed for vertex v follows the seeds of the vertices below it |
| Beam.SeedsContents | src/algos.cpp:492-499 | the seeds offered below n are n, one per G2 vertex, in order |
| Beam.SeedsSeeded | src/algos.cpp:492-499 | the level seeding leaves holds only its old nodes and seeds, min(old size + n, width) of them |
| Beam.SeedCandidate | src/algos.cpp:492-499 | one seeding turn offers the seed for v to level 0, which becomes the table after the seeds of the vertices up to v were offered, in order, and leaves the other levels unchanged |
| Beam.SeedAll | src/algos.cpp:492-499 | after the seeding loop, level 0 is the table after the seeds of all G2 vertices were offered, in ascending order of the vertex |
| Beam.SeedFirstLevel | src/algos.cpp:488-499 | the start vertex is the last most connected G1 vertex; level 0 becomes the table that held its old nodes after the seed of every G2 vertex was offered through the bounded insert, in ascending order of the vertex, so it ends non-empty, holding its old nodes and seeds only (the start vertex mapped to some G2 vertex, g 0, priority the heuristic), min(old size + n2, width) of them; every other level is unchanged |
| Beam.ApproxAStar | src/algos.cpp:480-534 | the search returns [] when n1 > n2 or G1 is empty; otherwise it terminates and returns exactly one full mapping |
| Builders.BuildClique | src/curated_gen.cpp:12-23 | every ordered pair i != j has weight 1, the diagonal 0, and the total is n(n - 1) |
| Builders.CliqueShape | src/curated_gen.cpp:12-23 | every clique vertex has n - 1 neighbours, and the matrix is symmetric |
| Builders.BuildArithmeticClique | src/curated_gen.cpp:129-141 | every ordered pair i != j carries (i j + i + j) mod m + 1 edges, and the diagonal none |
| Builders.ArithmeticShape | src/curated_gen.cpp:129-141 | the arithmetic clique is symmetric, with every off-diagonal weight in [1, abs(m)] |
| Builders.Decode | src/curated_gen.cpp:30-31 | a vertex is the cell of its row and column |
| Builders.Encode | src/curated_gen.cpp:30-31 | the cell of (y, x) decodes back to row y and column x |
| Builders.InsideGrid | src/curated_gen.cpp:25-45 | a vertex lies inside the grid exactly when its row is below the height |
| Builders.GridOwned | src/curated_gen.cpp:31-42 | the grid pairs whose smaller endpoint is cell c are exactly those joining c to its right and lower neighbours |
| Builders.BuildGrid | src/curated_gen.cpp:25-45 | the weight is 1 both ways between horizontally or vertically adjacent cells, nothing else; the total is 2(h(w - 1) + w(h - 1)) |
| Builders.GridSymmetric | src/curated_gen.cpp:25-45 | the grid's matrix is symmetric |
| Builders.GridShape | src/curated_gen.cpp:31-42 | every cell is joined both ways to the cell on its right and to the cell below, when those exist |
| Builders.BuildLadder | src/curated_gen.cpp:47-64 | there are 2 len vertices with symmetric rungs and rails, and 6 len - 4 edges when len >= 1 |
| Builders.LadderRungs | src/curated_gen.cpp:47-64 | each rail vertex is joined both ways across its rung, and the matrix is symmetric |
| Builders.BuildPetersen | src/curated_gen.cpp:66-84 | there are 10 vertices: outer cycle, inner pentagram and spokes, with 30 directed edges |
| Builders.PetersenOuter | src/curated_gen.cpp:66-84 | an outer vertex is joined to exactly its two cycle neighbours and its spoke partner |
| Builders.PetersenInner | src/curated_gen.cpp:66-84 | an inner vertex is joined to exactly its two pentagram neighbours and its spoke partner |
| Builders.PetersenShape | src/curated_gen.cpp:66-84 | the Petersen graph is symmetric, and every vertex has exactly 3 neighbours |
| Builders.BuildBinaryTree | src/curated_gen.cpp:86-103 | there are 2^d - 1 vertices in heap layout, each joined both ways to its existing children, and 2(2^d - 2) edges when d >= 1 |
| Builders.TreeParent | src/curated_gen.cpp:86-103 | every non-root vertex c is joined both ways to (c - 1) / 2, its only earlier neighbour |
| Builders.RowsWeightClosed | src/curated_gen.cpp:145-158 | the first i rows hold ceil(i / 2) heavy rows and floor(i / 2) light ones |
| Builders.BuildHeavyBipartite | src/curated_gen.cpp:145-158 | this is K(n, n) with even rows of weight h both ways and odd rows of weight 1, nothing inside a side, and 2n(h ceil(n / 2) + floor(n / 2)) edges |
| Builders.BipartiteShape | src/curated_gen.cpp:145-158 | the bipartite graph is symmetric, has no edge inside a side, and each left-right pair carries its row's weight both ways |
| Dispatch.MinimalEdgeExtension | src/algos.hpp:9-20 | every record is a real deficit of a mapped pair (needed > found); a pair is reported exactly when it has a deficit; records are in strictly increasing row-major order; the shortfalls add up to the missing-edge count |
| Dispatch.TotalShortfallAppend | src/io.cpp:251-254 | shortfalls add up over concatenated reports, which the cost sums of both report paths (here and at src/io.cpp:290-293) rely on when they total the minimal extension |
| Dispatch.EmptyReportIffNothingMissing | src/algos.hpp:19-20 | the report is empty exactly when the mapping misses no edge |
| Dispatch.ShortfallsPositive | src/algos.hpp:9-17 | every record falls short by at least one edge |
| Dispatch.AtMostOneRecord | src/algos.hpp:19-20 | in an increasing report, no pair is reported twice |
| Dispatch.SingleEdgeReport | tests/algos_test.cpp:14-83 | against a single G1 edge 0 -> 1 under the identity, the pair is reported, with its weights, exactly when G2 has less weight there |
| Dispatch.DeficitIsReported | tests/algos_test.cpp:14-45 | weight 10 against 2 gives one record (0, 1) -> (0, 1), needed 10, found 2, short by 8 |
| Dispatch.SufficientWeightIsNotReported | tests/algos_test.cpp:47-63 | weight 5 against 10 gives no record |
| Dispatch.AbsentEdgeIsReported | tests/algos_test.cpp:66-83 | an edge that G2 lacks is reported with found weight 0 |
| Dispatch.Accurate | src/algos.hpp:28-31 | the exact entry point has the A* search's result: [] when n1 > n2, otherwise one mapping of least cost |
| Dispatch.Approximate | src/algos.hpp:33-36 | the approximate entry point is the beam search with width 5: one full mapping when 0 < n1 <= n2 |

## Left out

- Machine integers are not modelled. Weights, counts and costs are unbounded naturals, so `uint32` wrap-around and the `int` casts of weights are not modelled. The graph's `int32` vertex and edge totals are also unbounded.
- The `INT_MAX` sentinel in the heuristic is kept as the constant `IntMax`. Adding it to `h` could overflow in the source, but HeuristicTermAttained shows it is never added when n1 <= n2.
- Graphs.Graph.AddEdges: self-loops are allowed. The matrix accessors of graph.hpp assert `u != v` (src/graph.hpp:129, 139), while the cost functions handle the self pair, so the diagonal is an ordinary readable cell. A loopless graph is the optional predicate `Digraph.Loopless`.
- The Graph move constructor, move assignment and aligned allocation (src/graph.hpp:19-45) are not modelled. A graph is one object with a matrix array, and the searches read it through its value.
- The iteration methods return the sequence of callback arguments instead of calling a callback. `IterateNeighbours` and `GetNumOfNeighbours` are called from src/algos.cpp but do not exist in src/graph.hpp, so they are modelled from their uses. Graphs.Graph.IterateNeighbours: the visiting order is fixed to ascending, because callers only count or sum.
- Assignments.SetKeepsValid requires that x and y do not both already have other partners. Assignments.Set models the count rule as written, and SetCountDrift shows the one-too-high count when they do. No caller maps a mapped vertex.
- BruteForce.AccurateBruteForce requires k >= 1. With k == 0 the source reads the last element of an empty multimap, and a negative k becomes a huge unsigned size.
- The ranking in the brute force is a sorted sequence, standing for `std::multimap`. Kept results are compared with the mapping equality of src/State.hpp:32-42.
- AStar.MinIndex: the binary heap's order among equal priorities is not modelled. The model takes the first node of least priority, so which of several optimal mappings is returned is left open.
- `k` is ignored by both A* searches, as in the source.
- The A* open list and the beam levels are `seq` values; `std::priority_queue` and the boost pairing heap are not modelled internally.
- Beam.MasterQueue.Insert: the heap is modelled by its intended contract, a min-priority map from non-empty levels to their best priority. The source calls `heap_.decrease` when a level's best priority falls (src/algos.cpp:440). Under the inverted comparator of src/algos.cpp:406, boost documents that direction as `increase`, so the source relies on the heap tolerating the wrong call.
- Beam.ApproxAStar requires that an empty G1 comes with an empty G2. With n1 == 0 the picker finds no vertex and its own assertion fails (src/algos.cpp:145) before anything is mapped, whatever n2 is. Without that assertion, n2 == 0 seeds nothing and the empty queue gives [], which is what the model returns for n1 == n2 == 0. With n2 > 0 the source would go on to map the sentinel vertex, which is excluded. The search returns one full mapping but no cost bound, since the beam may discard the optimum.
- Dispatch.MinimalEdgeExtension: the body of `GetMinimalEdgeExtension` is not shown. It is specified from its declaration and its tests, in row-major order of G1 pairs, the self pair included. `GetMinimalExtension` (the extended graph) is not part of this model.
- The builders take `nat` sizes and weights. The C++ `int` parameters could be negative, which is not modelled. BuildArithmeticClique requires a non-zero modulus, since the source divides by it.
- BuildRandom, the random generator, test case 15 and the list of curated test cases are not part of this model: they depend on a random number generator and floating point.
- The Monte Carlo tree search (src/mcts.hpp) is not part of this model. It is a stochastic search over floating-point scores.
- File input and output, report printing (src/io.cpp), command-line parsing (src/app.cpp), and test timing and orchestration are not part of this model.
