# Graph reordering: Gorder and the cache-model reorderings

This project models three programs that renumber the vertices of a graph so that vertices used
together end up close together, and proves that their fast, lazily updated data structures compute
what a simple definition says.

**Gorder** (`gorder/Gorder_code`) keeps the vertices in a *unit heap*: a doubly linked list by
descending key, a run index with the first and last element of every key, and queued decrements. A
greedy loop extracts a vertex, takes the contribution of the oldest window vertex away, adds that of
the new one, and skips whatever both would do (`popvexist`). Before that the graph is relabelled by
a reverse Cuthill-McKee order.

**The cache-model reorderings** (`br/block_reordering` by blocks, `ph/pH` by vertices, and their
copies under `graphReordering`) place, one after the other, the node with the most parents in a
simulated cache. Nodes stand sorted by cost with a bucket index; a node whose parents enter the cache
gets cheaper at once, one whose parents leave it only gets a queued increase, settled when it reaches
the front.

**The pipeline** both rest on: renaming the vertices in use, counting-sort rows, transposition,
merging blocks into one row each, expanding a block order to a vertex order, writing out the graph in
the new order.

## How the model is laid out

- `Permutations`, `Csr`, `StdSort`, `RowSearch`, `Layout`: shared vocabulary. A `Csr` value stands for
  VI and EI (or outstart/outdegree/outedge, or instart/indegree/inedge) of one direction of a graph.
- `KeyedSort`, `EdgeLists`, `Transpose`, `Compaction`, `Expansion`, `ApplyOrder`: the pipeline.
- `CacheSpec` says what a greedy order is, without costs or indices; `Placement` sets up the tables;
  the class `CacheModel` is the placement loop over mutable arrays; `Reordering` composes the two
  programs from graph to graph.
- `UnitHeapSpec` is the heap as a list with keys and pending changes; `UnitHeapLinks` relates it to
  cells and run index; the class `UnitHeap` is the pointer code.
- `GorderSpec` defines window scores on the graph alone; `GorderHeap`, `GorderUpdate`, `GorderStep`,
  `GorderGreedy` are the greedy run over the heap; `GorderOutcome` says on the graph what a run promises
  and when it ends the program, and `GorderReplay` which heap every round starts from; `TwoHubs` and `ThreeHubs` are families of edge lists on which it does, in
  the first and in the second round; `Locality` is the objective and its agreement with the run; `Rcm`,
  `NetBuild` and the class `GorderGraph.Graph` are reading and relabelling; `GorderRun` composes it all
  from the list of edges to the score of the reordered graph.

Every imperative member is proved against these definitions; the lemmas beside them say what the
definitions are worth.

## Modelling decisions

- Block and vertex reordering are one class. The block program is the instance with threshold
  numVertex + 1 (no parent is ever ignored, proved in `Reordering.AllParentsLight`), guard constant 3
  and no tail; the vertex program has a degree threshold, guard constant 5, and fills its last two
  places without choosing.
- `minPtr-3` and `minPtr-5` are unsigned and wrap for small minPtr; the guard is modelled with that
  wrap. All other numbers are mathematical integers.
- nodeCost is computed before settling may change the node at the front, so the node that is placed need
  not have room. The node it is computed for is *foremost*: no unplaced node has more cached parents than
  that one once had (`CacheSpec.Foremost`). `CacheSpec.GreedyAt` says what a step does guarantee. The window
  is given up only because a foremost node had no room beside it, and later starts because a best node had
  none; it is kept only if the cache would have had room for a foremost node, with as many of its parents as
  it has held after a placement, since settling never lowers a cost; and when it has moved there is room for
  the new node, because the program recomputes nodeCost then. In both cases what the window holds fits the
  cache (`CacheSpec.WindowFits`). The exceptions are a new node that fits in no cache and a window that is
  down to `guard` nodes. When the first node had nothing queued, nodeCost was right, and the room
  is guaranteed either way; and in any case the first look is stated with the cost as it stood
  (`CacheModel.PlaceNext`).
- Which of several equally good nodes stands first is history: it depends on the order in which prices have
  fallen. `CacheModel.discounts` is a ghost record of that order; it is proved to be the one that the graph,
  the placing order and the window starts determine (`CacheSpec.DiscountedTo`), and every single move is
  stated as the exchange of two nodes. The heap of Gorder has a stronger account: `GorderReplay.Replays` says
  of every round, on a list with keys and pending changes, what the heap holds and which vertex it gives.
- `ExtractMax` is not an exact maximum. `UnitHeapSpec` gives the bound, the case in which it is exact
  (the top owes at most one), and for every larger debt a heap in which it is not.
- `DecreaseTop` reads the cell after the top even when there is none; the model takes that as "no
  move". `ReConstruct` reads two elements and needs a heap of at least two.
- `IncrementKey` ends the program when the run index has no slot for the new key. (The check is left
  out when `Release` is defined, as the makefile does; the model follows the code with the check.) This
  is an out-parameter `ok` that is false; nothing is promised about the heap afterwards. So
  "GorderGreedy returns a permutation" does not hold on all graphs: a rebuilt index has a slot for every
  in-degree but not always for the next number, and a vertex that shares the largest in-degree with the
  first one can run out of slots. What is proved of every graph: only a vertex of that kind that is still
  unplaced can end the program, and only when its window score reaches the length of the first index
  (`GorderOutcome.Outgrown`). So the run never quits if only one vertex has the largest in-degree or a new
  index is longer than that in-degree plus one (`GorderOutcome.SpaciousIff`), nor if no window can bring
  such a vertex that score (`GorderOutcome.Modest`, with a sufficient count of shared in-neighbours in
  `FewSharedIsModest`). The first placement quits, makes the index longer, or does neither, each under an
  exact condition on the graph (`Overflows`, `Relieved`). If it does neither, the later rounds end the
  program exactly when somebody outgrows the index, as long as they are calm (`EndsExactly`).
  `TwoHubs.GorderHubs` is a family of edge lists on which the first placement quits, `ThreeHubs.GorderHubs`
  one on which the second round does. In a round that is not calm, a vertex other than those at the top
  may come close enough to the end of the index to make it longer, and whether its key (and not only its
  score) does depends on which of several equal keys std::sort has put first.
- The comparators that use `<=` are not strict orders; they are modelled with `<`. std::sort is a
  method whose contract promises only what the C++ standard does, so ties may come out in any order.
- `IntersectionSize` reads the entry after the first row when every entry of it is at most u; the
  model skips that read, since the loop that follows does not run.
- `IncrementKey`, `Bump` and the row updates carry ghost parameters for the values they establish;
  they are erased from the program.
- Gorder needs a graph without repeated edges (`GorderSpec.Simple`; self-loops are dropped while
  reading). The window must be positive, as its main program demands, and a full window must not be able
  to bring a score to INT_MAX / 2, the mark of deleted vertices.
- `mergeSortWOkey` is the keyed sort with scratch keys: its comparisons never look at a key.
- The block program computes the last index of the first block as an unsigned number minus one, so
  `Compaction.Compact` requires that block to have an entry. The assignment to isPlaced[n-2] needs two
  nodes in `br` and `ph`; `CacheModel.FlagRest` carries the guard that the `graphReordering` copy of
  the block program has, and `Reordering.VertexReorder` requires two vertices.

## Model

| member | source | states |
|---|---|---|
| CacheModel.CacheModel.Reorder | br/block_reordering/main.cpp:202-277 | whole run: the loop ends, nodeMap and nodeId are inverse permutations, every node is placed, and at every step the node put at minPtr had, among all unplaced nodes, the most parents in the cache that the window of that step held (lazy equals eager). The window only moves forward: past its old start only if a foremost unplaced node (nobody has more cached parents than it once had) had no room beside it, past every later start only if a best node that some cache holds had none, and never into its last `guard` nodes. In a step in which it moved the cache has room for the new node; in one in which it did not it would have had room for a foremost node, had it kept as many of the parents of that node as it ever held after a placement, unless the new node fits in no cache or only `guard` nodes are left in the window. The unplaced rest stands by cost: none of its nodes has more cached parents than one further ahead once had. The first node is the one that stood first before the run, and prices fell in the order that graph and window starts say: parents in row order, cached and ignored ones passed over, each with its children in row order |
| CacheModel.CacheModel.PlaceNext | ph/pH/main.cpp:154-212 | one round keeps the whole state (tables inverse, suffix ranked, costs plus queued increases equal to the prices of the window, no cost below the lowest price its node has had just after a placement, presence counters equal to the loads of the window) and extends the greedy run by one node; the window is moved exactly if the node that stood first had no room by its cost before settling, with the exceptions of the guard and of a settled node that fits in no cache; when the node at the front had nothing queued, the cache has room for the node placed, or no cache has, or only `guard` nodes are left in the window, whether the window moved or not; the prices that fall are those of the children of the newly cached parents, in row order |
| CacheModel.CacheModel.ChooseNext | br/block_reordering/main.cpp:204-244 | settling and making room yield a settled front node that extends the greedy run, with the room guarantee of a step that moved the window and that of a step that did not; whether the first eviction happens is decided by the degree of the node that stood first and its cost before settling |
| CacheModel.CacheModel.MakeRoom | br/block_reordering/main.cpp:219-238 | the eviction loop with its wrapping unsigned guard never evicts an unplaced node, never goes into the last `guard` nodes, gives up a window start only when a node had no room beside that window, and ends with room for the front node, or at a node no cache can hold, or with `guard` nodes in the window; it leaves the window alone only if the first nodeCost fits beside it or only `guard` nodes are in it, and moves it only if the first nodeCost does not fit |
| CacheModel.CacheModel.MovesOn | br/block_reordering/main.cpp:219-219 | the guard of the eviction loop means that a node has no room beside the window: in the first round a foremost one, since nodeCost, computed before settling, only underestimates what that node misses; in later rounds the best one |
| CacheModel.CacheModel.EvictStep | br/block_reordering/main.cpp:221-232 | one eviction moves the window start by one, keeps the whole state, and recomputes nodeCost as the number of missing parents of whichever node is then settled at the front |
| CacheModel.CacheModel.EvictOldest | br/block_reordering/main.cpp:222-223 | the presence counters become those of the window without its oldest node and the window cost drops by the number of parents that left the cache |
| CacheModel.CacheModel.Settle | br/block_reordering/main.cpp:206-211 | settling ends with a first node without queued increases whose cost is exactly maxCost minus its cached parents, and changes neither the placed positions nor the window |
| CacheModel.CacheModel.SettleStep | br/block_reordering/main.cpp:208-210 | one queued increase is paid: the total queued goes down by one while cost plus queued stays the price of every node |
| CacheModel.CacheModel.FirstIsBest | br/block_reordering/main.cpp:245-250 | a first node without queued increases has at least as many cached parents as any unplaced node, queued increases of the others notwithstanding |
| CacheModel.CacheModel.PlaceLoaded | br/block_reordering/main.cpp:254-258 | placing a node extends window and order by it; counters, costs and window cost are again those of the new window, and the floor of the costs follows the prices of that window |
| CacheModel.CacheModel.PlaceUnloaded | br/block_reordering/main.cpp:212-218 | a node with more parents than the cache holds is placed without touching the window |
| CacheModel.CacheModel.MarkPlaced | br/block_reordering/main.cpp:255-255 | exactly the positions below minPtr + 1 hold placed nodes afterwards, and the suffix from there on is still ranked |
| CacheModel.CacheModel.FrontCost | br/block_reordering/main.cpp:205-205 | the initial nodeCost does not underflow, is the degree less what the cost is below maxCost, is at most the number of parents missing from the cache, exactly that number when nothing is queued, and at least the number missing when the cache held most of them |
| CacheModel.CacheModel.StayedWithRoom | br/block_reordering/main.cpp:219-219 | when the first nodeCost fits beside the window, the cache would have had room for the foremost node it was computed for, with as many of its parents as it ever held |
| CacheModel.CacheModel.StandsByCost | br/block_reordering/main.cpp:154-157 | between two rounds, of any two unplaced nodes the one behind has no more cached parents than the one ahead once had |
| CacheModel.CacheModel.FrontIsForemost | br/block_reordering/main.cpp:204-205 | the node that stands first before settling is foremost: no unplaced node has more cached parents than it once had |
| CacheModel.CacheModel.RestTrails | graphReordering/pH/main.cpp:167-167 | the positions that are filled without choosing stand by cost when the loop ends |
| CacheModel.CacheModel.FlagRest | br/block_reordering/main.cpp:260-263 | the two final assignments leave no node unplaced |
| CacheModel.CacheModel.MoveRight | br/block_reordering/cachefunc.cpp:3-14 | raises one cost by one by trading places with the last node of the same cost, keeps the suffix sorted, the bucket index exact and the tables inverse, and moves nothing below minPtr |
| CacheModel.CacheModel.MoveLeft | br/block_reordering/cachefunc.cpp:16-31 | lowers one cost by one by trading places with the first unplaced node of the same cost, with the same guarantees, past stale bucket starts that lie before the suffix |
| CacheModel.CacheModel.LoadParent | br/block_reordering/cachefunc.cpp:76-98 | one more presence; a parent that enters the cache lowers the price of each unplaced child once per edge, at once or against a queued increase, and no cost past the floor |
| CacheModel.CacheModel.LoadParents | ph/pH/cachefunc.cpp:72-108 | every parent under the threshold gains one presence per edge; costs, queued increases and prices agree again; the rows of the parents that were not cached are discounted, in row order; the result is the growth of the set of cached parents |
| CacheModel.CacheModel.EvictParent | br/block_reordering/cachefunc.cpp:44-61 | one presence less; a parent that leaves the cache queues one increase per edge for each unplaced child and changes no cost |
| CacheModel.CacheModel.EvictParents | ph/pH/cachefunc.cpp:36-69 | every parent under the threshold loses one presence per edge; the result is the shrinkage of the set of cached parents |
| CacheModel.CacheModel.DiscountChildren | br/block_reordering/cachefunc.cpp:83-96 | lowers cost plus queued of every unplaced child by its multiplicity in the row, one child after the other in row order, and no cost below the price it will have when the load is complete |
| CacheModel.CacheModel.QueueChildren | br/block_reordering/cachefunc.cpp:51-59 | raises cost plus queued of every unplaced child by its multiplicity in the row |
| CacheModel.CacheModel.constructor | br/block_reordering/main.cpp:125-198 | the state before the loop: all costs maxCost, nothing queued, loaded or placed, tables inverse, suffix ranked, the nodes by descending number of light parents |
| CacheModel.LowerKeepsRanked | br/block_reordering/cachefunc.cpp:20-30 | moving to the front of a bucket and shrinking it keeps costs sorted and the bucket index exact |
| CacheModel.RaiseKeepsRanked | br/block_reordering/cachefunc.cpp:7-13 | moving to the end of the first bucket and growing the next keeps costs sorted and the bucket index exact |
| CacheSpec.RankedFirst | br/block_reordering/main.cpp:154-157 | in a ranked suffix the costs ascend and max(CI[v], start) is the first position with cost at least v |
| CacheSpec.GreedyExtend | br/block_reordering/main.cpp:254-258 | appending a best node chosen for a later window start that the step may move to, or for the same start with room for a foremost node, extends a greedy run; earlier steps are not affected |
| CacheSpec.WindowFits | br/block_reordering/main.cpp:219-238 | in a greedy run, whenever a node that some cache can hold is placed and the window is not down to `guard` nodes, the parents held by the window fit into the cache |
| CacheSpec.PeakCachedSame | br/block_reordering/main.cpp:254-258 | later placements do not change what a node has had cached before |
| CacheSpec.HotOfWindow | br/block_reordering/cachefunc.cpp:75-81 | counters that equal the loads of a window are positive exactly on the parents that window loaded, and on none for an empty window |
| CacheSpec.HotSetMeans | ph/pH/cachefunc.cpp:72-108 | who counts as cached while a window is held: the parents with at most thresh children of those of its nodes that have at most cacheSize parents |
| CacheSpec.DiscountedNext | br/block_reordering/cachefunc.cpp:75-96 | the next parent in the row of a loaded node discounts its children exactly when it is under the threshold, was not cached before the load and has not come up earlier in the row |
| CacheSpec.PricesWithOneMore | br/block_reordering/cachefunc.cpp:83-96 | caching one more parent lowers every price by the multiplicity of the edge |
| CacheSpec.PricesWithMore | br/block_reordering/cachefunc.cpp:83-96 | no price is below the one that caching more parents leaves |
| CacheSpec.LoadsFront | br/block_reordering/main.cpp:222-232 | the loads of a window are those of its oldest node plus those of the rest |
| Placement.InitialCosts | ph/pH/main.cpp:66-78 | the cost of a node is the number of its parents under the threshold, with multiplicity, and maxCost is attained |
| Placement.InitialOrder | br/block_reordering/main.cpp:128-137 | sorting (cost, node) pairs yields a permutation of the nodes by descending cost |
| Placement.BuildIndex | br/block_reordering/main.cpp:158-169 | for every ascending cost array that ends in maxCost, CI[v] becomes the first position whose cost is at least v |
| Placement.InvertOrder | br/block_reordering/main.cpp:176-178 | nodeMap becomes the inverse of nodeId |
| Placement.Prepare | br/block_reordering/main.cpp:115-178 | all starting tables together: costs, ranked index, inverse tables, nodes by descending number of light parents |
| Placement.FirstHasMostParents | br/block_reordering/main.cpp:128-178 | in an order by descending number of light parents no node has more of them than the first |
| KeyedSort.MergeSort | br/block_reordering/sort.cpp:42-65 | sorts by descending value, stably, moving (value, key) pairs together, and touches nothing outside the range |
| KeyedSort.Merge | br/block_reordering/sort.cpp:3-40 | the merge of two runs, entry by entry |
| KeyedSort.MergeSorts | br/block_reordering/sort.cpp:10-32 | merging stable sorts of two halves is a stable descending sort of the whole |
| KeyedSort.MergedOnly | br/block_reordering/sort.cpp:12-21 | among equal values the left run comes first and no entry is lost or invented |
| KeyedSort.SortKeepsEntries | br/block_reordering/sort.cpp:42-65 | a stable sort has exactly the entries of its input |
| EdgeLists.Filter | br/block_reordering/graph.cpp:41-68 | every edge end is replaced by its rank among the vertices in use and the result is their number |
| EdgeLists.RankMonotone | br/block_reordering/graph.cpp:50-56 | the renaming is strictly monotone on the vertices in use |
| EdgeLists.RankOnto | br/block_reordering/graph.cpp:50-56 | the renaming reaches every number below the returned count |
| EdgeLists.CsrConvert | br/block_reordering/graph.cpp:70-92 | row s is the input-order list of the destinations with source s, and the rows cover EI |
| EdgeLists.ReadCsr | br/block_reordering/graph.cpp:94-112 | row s of the graph lists, under the new names and in input order, the destinations of the edges with source s; every name is the rank of the vertex among those in use |
| EdgeLists.TargetsInOrder | br/block_reordering/graph.cpp:85-89 | the target of an edge stands in the row of its source at the place whose number is the count of earlier edges with that source |
| EdgeLists.RowStarts | br/block_reordering/graph.cpp:79-80 | VI[v] is the number of edges with a smaller source |
| EdgeLists.ScatterStep | br/block_reordering/graph.cpp:85-89 | the place of the next edge is free, inside its row, and in no other row |
| EdgeLists.ScatterDone | br/block_reordering/graph.cpp:85-89 | after the pass every row lists its destinations in input order |
| Transpose.CreateReverseCsr | br/block_reordering/graph.cpp:156-187 | row p of the result is the ascending list, with multiplicity, of the rows that contain p |
| Transpose.ReverseStarts | br/block_reordering/graph.cpp:163-171 | counting one place to the right and summing up gives the row starts |
| Transpose.TransposeTwice | br/block_reordering/graph.cpp:156-187 | transposing twice keeps every multiplicity and sorts every row; sorted rows come back unchanged |
| Transpose.AscendingUnique | br/block_reordering/graph.cpp:176-185 | an ascending list is determined by its multiplicities |
| Compaction.Compact | br/block_reordering/main.cpp:56-86 | row b of the block graph is strictly descending and holds exactly the distinct targets of the vertices of block b |
| Compaction.CompactNext | br/block_reordering/main.cpp:63-86 | one block: its entries are sorted in place, its row is appended, the later entries are untouched |
| Compaction.CompactBlock | br/block_reordering/main.cpp:69-85 | copies a sorted list without repetitions and keeps the next row start at the write position |
| Compaction.DedupedMembers | br/block_reordering/main.cpp:77-85 | skipping equal neighbours of a descending list leaves a strictly descending list with the same members |
| Compaction.SortRange | br/block_reordering/main.cpp:67-67 | the range is sorted descending with the same values and the rest of EI is unchanged |
| Compaction.BlockTargets | br/block_reordering/main.cpp:65-66 | the entries between two block starts are the targets of the vertices of that block |
| Expansion.Expand | br/block_reordering/main.cpp:300-316 | newNodeId lists the vertices of the blocks in block order and newNodeMap is its inverse |
| Expansion.BlockOfIsQuotient | br/block_reordering/main.cpp:57-57 | the block of a vertex, stated by repeated subtraction, is its number divided by the block size |
| Expansion.ExpandedPermutes | br/block_reordering/main.cpp:304-312 | a permutation of the blocks, one of them short, expands to a permutation of all vertices |
| Expansion.BlockStaysTogether | br/block_reordering/main.cpp:307-311 | every block stays contiguous and in order, right behind the blocks before it |
| Expansion.MaintainZero | graphReordering/block_reordering/main.cpp:292-304 | the fix-up keeps the tables inverse, puts 0 at position 0 by trading it with whatever came first, changes nothing else, and its search stops inside the arrays although its bound is that of a larger graph |
| Expansion.SecondFixUpNeverFires | graphReordering/block_reordering/main.cpp:341-354 | once block 0 is first, newNodeMap[0] is 0: the second fix-up is dead code |
| Expansion.SecondFixUpWouldBreak | graphReordering/block_reordering/main.cpp:341-354 | if it ran, the second fix-up would leave inverse tables exactly when vertex 0 stands at the position whose number is the vertex that came first |
| ApplyOrder.Apply | ph/pH/main.cpp:238-262 | row i of the output is row nodeId[i] of the input mapped through nodeMap; the last row ends exactly at numEdges; the output is isomorphic to the input with every multiplicity |
| ApplyOrder.LengthOfAll | br/block_reordering/main.cpp:338-345 | in any order the rows add up to numEdges |
| ApplyOrder.RenamedIsIsomorphic | br/block_reordering/main.cpp:318-345 | renamed rows in permuted order are the same graph under new names |
| ApplyOrder.CopyNext | ph/pH/main.cpp:241-253 | copies one row behind the earlier ones and disturbs none of them |
| Reordering.BlockReorder | br/block_reordering/main.cpp:53-345 | end to end: for the problem of this program (the compacted graph and its transpose, out-degrees from the transpose, nobody ignored, guard 3, no tail, the given cache size) the block order is greedy, with the reasons for moving and for keeping the window that every step has to have, the last `guard` nodes never given up, and starts with a block of most distinct targets; every block stays together, and the output is the input under a permutation, row by row; with `maintain` block 0 has traded places with the first block and vertex 0 keeps number 0 |
| Reordering.VertexReorder | graphReordering/pH/main.cpp:247-275 | end to end: for the problem of this program (the graph and its transpose, out-degrees from the transpose, the given threshold and cache size, guard 5, two last places not chosen) the vertex order is greedy, as above, but for its last two places, which stand by cost: the last vertex has no more cached parents than the one before it once had; it starts with a vertex of most light parents; the output is the input with its rows in that order; with `maintain` vertex 0 has traded places with the first vertex and keeps number 0 |
| Reordering.AllParentsLight | br/block_reordering/main.cpp:53-53 | with threshold numVertex + 1 no parent is ignored and the initial cost of a block is its in-degree |
| Reordering.RowLengths | br/block_reordering/main.cpp:98-101 | the in-degrees, the last one from numEdges |
| UnitHeap.UnitHeap.ExtractMax | gorder/Gorder_code/UnitHeap.cpp:69-79 | settles tops until one stays (each move pays off half of the debt of the old top, rounded up, so this ends), then takes that top out; what is left is the settled heap without it |
| UnitHeap.UnitHeap.DecreaseTop | gorder/Gorder_code/UnitHeap.cpp:85-121 | the top moves exactly when it owes something and its key, less the half of the debt that is rounded up, falls below the next key; then that half is applied, the other half is still owed, the second element is the top and the old one goes behind the last element with at least its new key; otherwise nothing changes |
| UnitHeap.UnitHeap.FindSpot | gorder/Gorder_code/UnitHeap.cpp:93-99 | jumping from run to run ends at the last element whose key is at least newkey |
| UnitHeap.UnitHeap.IncrementKey | gorder/Gorder_code/UnitHeap.h:66-111 | moves the element to the front of its run and one key up, keeping the list sorted and the run index exact; fails exactly when the run index has no slot for the new key, makes the index half as long again, rounded down, exactly when the new key is within four slots of its end, and leaves room for one more increment |
| UnitHeap.UnitHeap.DeleteElement | gorder/Gorder_code/UnitHeap.cpp:45-67 | takes one element out of list, run index and top |
| UnitHeap.UnitHeap.ReConstruct | gorder/Gorder_code/UnitHeap.cpp:123-166 | from any non-negative keys: one doubly linked list of all elements by descending key with an exact run index, as long as before or just long enough for the largest key |
| UnitHeap.IncrementRebuilt | gorder/Gorder_code/UnitHeap.cpp:140-140 | rebuilding makes room for the largest key and not for the next one: on any heap, an element can be incremented right after a rebuild exactly when the index was long enough before, or some other key is larger |
| UnitHeap.UnitHeap.AppendCell | gorder/Gorder_code/UnitHeap.cpp:142-155 | one step of the rebuilding loop extends the list and the open run |
| UnitHeap.UnitHeap.CloseRuns | gorder/Gorder_code/UnitHeap.cpp:156-163 | the last element closes the open run or forms its own |
| UnitHeap.UnitHeap.constructor | gorder/Gorder_code/UnitHeap.cpp:18-38 | all elements in one run of key 0 with nothing pending |
| UnitHeap.UnitHeap.DecrementKey | gorder/Gorder_code/UnitHeap.cpp:81-83 | a decrement is only queued |
| UnitHeapLinks.IncrementRepresents | gorder/Gorder_code/UnitHeap.h:72-106 | relinked cells, updated run index and top represent the heap with one key raised |
| UnitHeapLinks.TopDownRepresents | gorder/Gorder_code/UnitHeap.cpp:98-118 | relinked cells, updated run index and new top represent the heap with the top moved down |
| UnitHeapLinks.DeleteRepresents | gorder/Gorder_code/UnitHeap.cpp:46-66 | unlinked cells, shrunk run and new top represent the heap without the element |
| UnitHeapLinks.IndexedAfterRemove | gorder/Gorder_code/UnitHeap.cpp:55-61 | the three-way update of one run keeps the whole run index exact |
| UnitHeapLinks.IndexedAfterPlace | gorder/Gorder_code/UnitHeap.h:99-102 | adding an element at the end of its run keeps the whole run index exact |
| UnitHeapSpec.TopDecreasedPays | gorder/Gorder_code/UnitHeap.cpp:85-121 | a move strictly lowers the total pending decrement and changes key plus pending of no element |
| UnitHeapSpec.SettledKeeps | gorder/Gorder_code/UnitHeap.cpp:71-75 | settling keeps the elements and every key plus pending change |
| UnitHeapSpec.SettleOnce | gorder/Gorder_code/UnitHeap.cpp:71-75 | one turn of the settling loop keeps every value and what settling will lead to, and pays off debt whenever the top moves |
| UnitHeapSpec.SettledTopNearMaximal | gorder/Gorder_code/UnitHeap.cpp:69-79 | no element exceeds the extracted one by more than half of what that one still owes |
| UnitHeapSpec.SettledTopMaximal | gorder/Gorder_code/UnitHeap.cpp:69-79 | the extracted element is a maximum when it owes at most one |
| UnitHeapSpec.SettledTopNotMaximal | gorder/Gorder_code/UnitHeap.cpp:90-92 | for every key and every debt of two or more up to the key there is a heap whose top owes that much, stays, and is not a maximum |
| UnitHeapSpec.RekeyedWellFormed | gorder/Gorder_code/UnitHeap.h:66-111 | taking an element out and putting it back with another key keeps the list sorted and complete |
| UnitHeapSpec.RekeyedPlaces | gorder/Gorder_code/UnitHeap.cpp:93-118 | an element with a new key stands behind everybody with at least that key and in front of all others; the others keep their order |
| UnitHeapSpec.DeletedPlaces | gorder/Gorder_code/UnitHeap.cpp:45-67 | taking an element out changes neither the order of the others nor any key or pending change |
| UnitHeapSpec.TopDecreasedHalves | gorder/Gorder_code/UnitHeap.cpp:88-116 | one decrease of the top in terms of key and debt: when it moves, half of what it owed, rounded down, is still owed |
| UnitHeapSpec.SettledByHalves | gorder/Gorder_code/UnitHeap.cpp:71-75 | settling goes on as long as applying the half that is rounded up costs the top its place |
| UnitHeapSpec.BumpedByBoth | gorder/Gorder_code/Graph.cpp:566-613 | raising one list of names after another is raising them in the order of the joined list |
| GorderSpec.ContributionMeaning | gorder/Gorder_code/Graph.cpp:566-613 | what a window vertex adds to another one: an edge each way and every common in-neighbour, sources above hugevertex left out |
| GorderSpec.SharedCancel | gorder/Gorder_code/Graph.cpp:546-611 | leaving out the rows shared by the popped and the new vertex on both sides changes no difference of scores: the popvexist shortcut is exact |
| GorderSpec.ScoreFront | gorder/Gorder_code/Graph.cpp:520-524 | a window score is the contribution of its oldest vertex plus the score of the rest |
| GorderSpec.ScoreWithin | gorder/Gorder_code/Graph.cpp:512-518 | a score is at most the window size times the most that one vertex of the window contributes |
| GorderSpec.ScoreBound | gorder/Gorder_code/Graph.cpp:512-518 | a score is at most the window size times the largest in-degree plus two |
| GorderHeap.Bump | gorder/Gorder_code/Graph.cpp:569-577 | one increment, queued or in the list, raises key plus pending of w by one and nothing else: at once if nothing is pending for w, and else in the pending change; it quits exactly when w owes nothing and its next key has no slot, so never when w is one of the vertices known to have a slot to spare, and all of those still have one; while w stays away from the end of the index, or is at its last key, the index is not made longer |
| GorderHeap.Drop | gorder/Gorder_code/Graph.cpp:529-534 | one queued decrement lowers key plus pending of w by one and never brings a deleted vertex to its sentinel |
| GorderHeap.BumpRow | gorder/Gorder_code/Graph.cpp:597-608 | every target of a row goes up by its multiplicity, one after the other in row order; it quits only if a live vertex without a slot to spare reaches the length of the run index; the others keep their slots, and the index its length as long as nobody but vertices at the last key gets near its end |
| GorderHeap.DropRow | gorder/Gorder_code/Graph.cpp:548-555 | every target of a row goes down by its multiplicity |
| GorderHeap.SlotsAfterIncrement | gorder/Gorder_code/UnitHeap.h:86-109 | the increment of an element with a slot to spare succeeds, and any that succeeds leaves all of them one |
| GorderHeap.FullAfterIncrement | gorder/Gorder_code/UnitHeap.h:86-109 | an element with the last key that there is a slot for cannot be incremented, and an increment away from the end of the index neither makes it longer nor moves those elements |
| GorderHeap.SlotsAfterExtract | gorder/Gorder_code/UnitHeap.cpp:69-79 | settling and taking out the top leave every element its slot for one more increment |
| GorderHeap.TrackIncrement | gorder/Gorder_code/UnitHeap.h:86-109 | one increment of the first placement: as long as no step was critical the index has its first length and a key is its start or its score; the first critical step either finds no slot, or makes the index longer and gives everybody a slot to spare |
| GorderHeap.EitherQuitsOrGrows | gorder/Gorder_code/UnitHeap.h:86-109 | of a list of increments, the first critical one alone decides: it has no slot, or it makes the index longer, never both, and neither if none is critical |
| GorderUpdate.PopVertex | gorder/Gorder_code/Graph.cpp:526-561 | the contribution of the oldest vertex is taken away except for the rows shared with the new one, and exactly those are marked |
| GorderUpdate.PushVertex | gorder/Gorder_code/Graph.cpp:566-613 | the contribution of the new vertex is added except for the marked rows, and no mark is left; it raises the targets of the vertex in row order, then each light in-neighbour and, if that one is not marked, its targets; it quits only if a live vertex comes to the end of the run index |
| GorderUpdate.DropParents | gorder/Gorder_code/Graph.cpp:538-560 | the in-neighbours of the popped vertex: everything but the shared rows is dropped |
| GorderUpdate.AddParents | gorder/Gorder_code/Graph.cpp:582-613 | the in-neighbours of the new vertex, in row order: everything but the marked rows is added |
| GorderUpdate.MarkedHere | gorder/Gorder_code/Graph.cpp:595-611 | giving up a mark when its vertex is reached does not change which rows are spared |
| GorderStep.Extract | gorder/Gorder_code/Graph.cpp:512-518 | the extracted vertex is the settled top, it is live, no live score exceeds its score by more than half of key minus score, its key is at most the most it has been worth, every other score is unchanged, and it is protected from then on |
| GorderStep.Slide | gorder/Gorder_code/Graph.cpp:520-613 | key plus pending of every vertex becomes its score against the next window (on top of the offset of a deleted one), by queued decrements for the vertex that leaves and then one raise after the other, in the order of the program, for the one that enters; it quits only if one of these scores reaches the length of the run index |
| GorderStep.SlideValues | gorder/Gorder_code/Graph.cpp:526-613 | popping and pushing with the shared rows left out gives exactly the scores of the next window |
| GorderStep.EasedStands | gorder/Gorder_code/Graph.cpp:526-561 | when the oldest vertex leaves the window, every pending change goes down by its contribution without the shared rows, and list and keys stay |
| GorderStep.PopProtected | gorder/Gorder_code/Graph.cpp:529-555 | while the window loses its oldest vertex, every deleted vertex keeps a positive pending change |
| GorderGreedy.GorderGreedy | gorder/Gorder_code/Graph.cpp:415-649 | whole run: an order that starts with the first vertex of largest in-degree, in which no vertex left beats the window score of the next one by more than half of what that one has lost since its peak (its in-degree or its best earlier window score), also of the part before the program quits; round by round the run is that of a plain sorted list with pending changes, so nothing but the order in which std::sort leaves equal in-degrees is open. If it does not quit, retorder is a permutation: a placed vertex but the last has its place in that order as its number, the last one n-1, and the j-th isolated one, in ascending order, the length of the order less one plus j. If it quits, an unplaced vertex whose in-degree plus one reaches the length of the first run index (the larger of FirstSlots and the largest in-degree plus one) has a window score that reaches it, too. So it never quits when no vertex but the first is such a vertex, nor when the window size times the most that any vertex contributes to such a vertex is below that length, nor when placing the first vertex makes the index longer. It quits when placing the first vertex uses the index up before it grows; and when that does neither, it quits exactly in the first round after which an unplaced score reaches that length, as long as in every round the unplaced vertices are at their peak one below that length or stay more than four below it |
| GorderReplay.ReplaysMore | gorder/Gorder_code/Graph.cpp:498-622 | one more round of the replay: the next vertex is the top of the settled list; it is taken out, the oldest vertex is eased, and the new one raises its names one by one |
| GorderGreedy.PlaceNext | gorder/Gorder_code/Graph.cpp:498-622 | the loop invariant: before and after each round key plus pending of every live vertex is its window score, popvexist is false everywhere, live are exactly the unplaced non-isolated vertices; the score at extraction is key plus update; a round quits only if an unplaced score reaches the length of the run index, and a calm round exactly then, without making the index longer; the vertex taken and the heap left behind are those of one round on a plain sorted list |
| GorderGreedy.TakeNext | gorder/Gorder_code/Graph.cpp:512-518 | extraction in terms of the specification: the vertex is the near-greedy choice, its key plus update is its window score, and it is protected from then on |
| GorderGreedy.PendingInRange | gorder/Gorder_code/Graph.cpp:518-518 | vertices in the heap have pending change at most 0, all others strictly between 0 and INT_MAX, so none is re-keyed or extracted twice and the debug resets never happen |
| GorderGreedy.ChooseFirst | gorder/Gorder_code/Graph.cpp:433-443 | finds the first vertex of largest in-degree and deletes exactly the isolated vertices other than vertex 0, in ascending order |
| GorderGreedy.BuildHeap | gorder/Gorder_code/Graph.cpp:425-429 | in-degrees as keys, all of it owed: every vertex has score 0; the run index is as long as a new one or has one slot more than the largest in-degree, whichever is longer |
| GorderGreedy.PlaceFirst | gorder/Gorder_code/Graph.cpp:445-491 | the loop invariant holds when the first vertex has entered the window; placing it ends the program exactly when the first critical increment finds no slot; the vertices with a slot to spare keep one, everybody has one if the index grew, and otherwise it has kept its length; the heap left is the sorted list without the vertex, raised by its in-neighbours and their targets and then by its own targets |
| GorderOutcome.SpaciousIff | gorder/Gorder_code/UnitHeap.h:86-91 | every vertex but the first has a slot to spare exactly when a new index is longer than the largest in-degree plus one or only one vertex has the largest in-degree |
| GorderOutcome.FewSharedIsModest | gorder/Gorder_code/Graph.cpp:566-613 | no window brings a vertex without a slot to the end of the first run index if such a vertex shares at most `shared` in-neighbours with any other and the window size times shared + 2 is below its length |
| GorderOutcome.FirstStepsCount | gorder/Gorder_code/Graph.cpp:455-491 | the increments of the first placement raise every vertex exactly as often as the first vertex contributes to its score |
| GorderOutcome.QuietWhenLow | gorder/Gorder_code/Graph.cpp:455-491 | the first placement neither ends the program nor makes the index longer if it brings no vertex more than its in-degree or to within four of the end of the index |
| GorderOutcome.EndsExactlyNext | gorder/Gorder_code/Graph.cpp:498-622 | a round that, if all were calm so far, quits exactly when an unplaced score reaches the length of the index keeps the account of where the run ends exact |
| GorderGreedy.FirstTracks | gorder/Gorder_code/Graph.cpp:425-449 | before the first vertex enters the window, keys, scores and index stand as the exact quit condition supposes, and every vertex it will raise is itself or still in the heap |
| TwoHubs.HubsQuit | gorder/Gorder_code/UnitHeap.h:86-91 | a graph of any names in which every vertex points to the two hubs other than itself: for every number d of in-neighbours, and hugevertex at least 2, placing the hub with the smaller number ends the program exactly when d is at least 5, and otherwise makes the index longer, so that the run never quits |
| TwoHubs.HubsCounted | gorder/Gorder_code/Graph.cpp:455-491 | in whatever order the in-neighbours come, the other hub is raised once by each of them, and every source once, by itself |
| TwoHubs.HubsNamed | gorder/Gorder_code/Graph.cpp:144-215 | every graph that has the listed edges under new names, such as the one the reverse Cuthill-McKee order makes, is such a graph |
| TwoHubs.GorderHubs | gorder/Gorder_code/main.cpp:61-73 | the whole program, started with the list of these edges and a positive window, quits exactly when d is at least 5 |
| ThreeHubs.FirstIsQuiet | gorder/Gorder_code/Graph.cpp:455-491 | with three hubs that share at least six sources and no edge, the first placement neither ends the program nor makes the index longer |
| ThreeHubs.SecondIsHub | gorder/Gorder_code/Graph.cpp:512-518 | the near-greedy choice after the first hub is another hub |
| ThreeHubs.SecondRound | gorder/Gorder_code/Graph.cpp:566-613 | with two hubs in the window every source is more than four below the length of the index and the third hub, which was one below it at its peak, is past it |
| ThreeHubs.HubsQuit | gorder/Gorder_code/UnitHeap.h:86-91 | a run on such a graph with a window of at least two quits, so the later rounds can end the program where the first placement does not |
| ThreeHubs.GorderHubs | gorder/Gorder_code/main.cpp:61-73 | the whole program, started with the list of these edges and a window of at least two, quits whatever order std::sort leaves equal keys in |
| GorderOutcome.SplicedPermutes | gorder/Gorder_code/Graph.cpp:623-623 | inserting the isolated vertices before the last placed one completes the permutation |
| GorderOutcome.SplicedNumbers | gorder/Gorder_code/Graph.cpp:623-649 | the numbers that the inverse of the spliced order gives: i to the i-th placed vertex, the last number to the last one, and those in between to the isolated ones in order |
| GorderGreedy.ExtractedIsChosen | gorder/Gorder_code/Graph.cpp:512-518 | the extracted vertex is the near-greedy choice in terms of the specification |
| Locality.IntersectionSize | gorder/Gorder_code/Util.h:50-68 | on strictly ascending rows the two-pointer loop counts exactly the common entries above u |
| Locality.LocalityScore | gorder/Gorder_code/Graph.cpp:728-740 | the sum, over all pairs at most w apart, of common in-neighbours and edges either way |
| Locality.PairScore | gorder/Gorder_code/Graph.cpp:732-736 | one pair: size of the true intersection plus the two edges |
| RowSearch.BinarySearch | gorder/Gorder_code/Graph.cpp:547-547 | finds an entry of an ascending row if and only if it is there |
| Locality.PairOfPositions | gorder/Gorder_code/Graph.cpp:732-736 | what two vertices contribute to each other is the pair score of their positions in the reordered graph |
| Locality.WindowOfPositions | gorder/Gorder_code/Graph.cpp:731-737 | a window score of the greedy run is the sum of the pair scores of its positions |
| Locality.GainsAreLocality | gorder/Gorder_code/Graph.cpp:728-740 | when no out-degree exceeds hugevertex and no vertex had to be spliced in, the scores at extraction add up to the locality score of the graph relabelled by the result |
| Locality.RunWithoutIsolated | gorder/Gorder_code/Graph.cpp:623-623 | when no vertex but possibly vertex 0 is isolated, nothing is spliced in: the result of a run is the inverse of the placing order |
| Rcm.RcmOrder | gorder/Gorder_code/Graph.cpp:652-725 | terminates with a permutation that reverses a breadth-first order: every vertex is discovered by the first position with an edge to it, discoverer positions never decrease, siblings come by ascending degree, each search starts at a vertex of least degree among those left |
| Rcm.Search | gorder/Gorder_code/Graph.cpp:677-709 | one search reaches everything the queue leads to and keeps the breadth-first order |
| Rcm.VisitTargets | gorder/Gorder_code/Graph.cpp:684-708 | one vertex from the queue: its unreached targets are appended by ascending degree |
| Rcm.AddTarget | gorder/Gorder_code/Graph.cpp:703-706 | appending an unreached target keeps discoverers first and positions non-decreasing |
| Rcm.AddRoot | gorder/Gorder_code/Graph.cpp:678-681 | starting a search at a sparsest unreached vertex keeps the breadth-first order |
| NetBuild.BuildNet | gorder/Gorder_code/Graph.cpp:93-141 | from any edge list: out-rows ascending with every multiplicity, in-edges the exact transpose with ascending rows |
| NetBuild.BuildOut | gorder/Gorder_code/Graph.cpp:185-202 | the second ends of the sorted edges are the rows laid out at the prefix sums of the out-degrees |
| NetBuild.ScatterIn | gorder/Gorder_code/Graph.cpp:204-214 | the inpos pass makes the transpose of the out-edges |
| NetBuild.SameCounts | gorder/Gorder_code/Graph.cpp:185-197 | sorting the edges changes no degree and no multiplicity |
| NetBuild.OnceIsSimple | gorder/Gorder_code/Graph.cpp:547-547 | without repeated edges all rows are strictly ascending, as the binary searches require |
| GorderGraph.Graph.Transform | gorder/Gorder_code/Graph.cpp:144-215 | the new graph is the old one renamed by the reverse breadth-first order, ascending both ways, and simple if the old one repeats no edge |
| GorderGraph.Rename | gorder/Gorder_code/Graph.cpp:155-214 | rebuilding a graph from its renamed edges gives the same graph under the new names, ascending both ways, and simple if no edge is repeated |
| GorderGraph.Graph.constructor | gorder/Gorder_code/Graph.cpp:92-141 | the graph of the edges that were read |
| GorderGraph.Graph.GorderGreedy | gorder/Gorder_code/Graph.cpp:415-649 | the method of the graph object, with the truncated square root of the number of vertices as hugevertex: result, numbers, order, replay, and conditions for quitting and not quitting, as in the run above |
| GorderGraph.Graph.LocalityScore | gorder/Gorder_code/Graph.cpp:728-740 | the method of the graph object |
| GorderGraph.Graph.Reordered | gorder/Gorder_code/Graph.cpp:228-255 | the graph written in the new order and read again is the old one under the names of that order |
| GorderGraph.RenamedMultiplicity | gorder/Gorder_code/Graph.cpp:159-162 | renaming the ends of the edges by a permutation keeps every multiplicity |
| GorderRun.Gorder | gorder/Gorder_code/main.cpp:61-73 | the whole program from a list of edges without repetitions: the relabelled graph has the listed edges under names that reverse a breadth-first order, its greedy order is near-greedy as far as it got and replays on a plain sorted list, hugevertex is the truncated square root of the number of vertices, and the run quits or not as stated for the greedy ordering of that graph; if it does not, every vertex has the number stated there, isolated ones included, the written graph has the listed edges under the composed names, the score measured on it is the sum over its close pairs and, when every vertex has an edge and none has more than hugevertex targets, the sum of the scores at extraction |
| GorderRun.RunAddsUp | gorder/Gorder_code/Graph.cpp:728-740 | for a recorded run without isolated and without huge vertices the gains add up to the locality score of the written graph |
| GorderRun.NamedDegrees | gorder/Gorder_code/Graph.cpp:93-96 | in any graph that has the listed edges under new names, the degrees are the numbers of distinct sources and targets in the list |
| StdSort.Sort | gorder/Gorder_code/UnitHeap.cpp:128-133 | what std::sort promises and no more: some rearrangement in which no element is less than an earlier one |

## Left out

- GorderGreedy.GorderGreedy: on quitting it is exact for the first placement and for runs whose rounds are all calm; a run with another round is only known not to quit before somebody outgrows the first index. There the keys decide, and they depend on the order in which std::sort leaves equal keys: an example outside the proofs are three hubs of in-degree 7 of which the first to be placed shares all sources with the second and four with the third; the program quits in the second round if the list has the second hub before the third, and not if it has it after.
- KeyedSort.MergeSort: the midpoint is computed without the 32-bit overflow of low + high, which needs more than two thousand million entries.
- Builds with `Release`: they index Header without the check, and what happens beyond its end is undefined.
- Reading and writing files, command-line parsing, timing and logging: the model starts from edge lists in memory.
- The debug-only checks of the Gorder loop (sorting the order and pausing on repetitions, resets of update): they follow from the permutation and from `GorderGreedy.PendingInRange`.
- `Graph::GapCount`, `GapCost`, `GraphAnalysis` and the PageRank examples: statistics and floating point.
- `VectorPreprocessing`, `VectorEq`, `IsIntersect`, `MyMin` and the comparator classes of `Util.h`: not used by the orderings.
- Edge weights of `graphReordering`: they are carried along by string keys and take no part in the order.
- The Python wrappers (`degree.py`, `hub.py`, `br.py`, `ph.py`, `rabbit.py`): counter assignments and subprocess calls.
- `omega/` and `OMEGA_API`: simulator configuration and register writes whose behaviour is not in the repository.
- 32-bit wrap-around other than in the loop guard of the cache model.
- Freeing and re-reading the input graph between the block order and its application: the model keeps the graph as a value.
