# Priority queue and Dijkstra's algorithm, in Dafny

This project models the core of a small C program that computes single-source
shortest paths over a dense cost matrix. The core has three layers, each of
which is proved correct here:

- **The growable array** (`dynarray.c`), module `DynArrays`: a class
  `DynArray` over a Dafny `array` with `size` and `capacity` fields. The
  capacity starts at 8 and doubles when an append finds the buffer full.
  Every method is specified by its effect on `Contents()`, the first `size`
  slots of the buffer.
- **The binary min-heap priority queue** (`pq.c`), modules `HeapSpec` and
  `PriorityQueue`.
  - `HeapSpec` writes sift-up, sift-down, push and pop as functions on the
    sequence of `(priority, value)` entries. It proves that they keep the
    heap order and permute the entries. It also proves that the root has
    the least priority, and that draining a heap returns its entries sorted.
  - `PriorityQueue.PQ` is a class over a `DynArray` whose methods do what
    the C functions do, through the array's get and set operations. Each
    state-changing method is proved to compute exactly the corresponding
    `HeapSpec` function.
- **The shortest-path engine** (`dijkstra.c`, lines 62-114), module
  `ShortestPaths`.
  - The method `Dijkstra` follows the C loop. It extracts the entry of
    least cost and finalizes that node's record if its cost is still the
    `INT_MAX` sentinel. It then relaxes every outgoing edge, lowering a
    neighbour's record and queueing a copy of it whenever it improves.
    Stale queue entries are tolerated (lazy deletion).
  - The loop is proved to terminate. The final table is proved to satisfy
    `Certificate`, from which `ShortestCosts` follows: every recorded cost
    is the least weight of a walk from the source, and unreached nodes keep
    the sentinel. `IsDistance` caps this at the sentinel: a node whose
    cheapest walk weighs `INT_MAX` or more also keeps `INT_MAX`, as the C
    table does as long as no sum at `dijkstra.c:97` exceeds `INT_MAX`.

The loops of the C code are split into helper methods: `DrainQueue` is the
`while`, `VisitNext` its body, `RelaxNeighbours` the `for` (its loop is
`RelaxEdges`) and `RelaxEdge` the `for`'s body. The invariants of these loops
are predicates on two values: the record table and the multiset of queued
entries. Each step of a loop is a lemma about those values.

The new state after the `for` loop is stated node by node. Record v becomes
`RelaxedRecord` of the table the loop started from: relaxing v against it
gives the same record as relaxing v in turn, because the loop touches each
record once. The queue holds each entry as many more times as `Gain`
counts: once for the new record of every node whose edge improved it.
`RelaxedPrefix` and `Queued` describe the same state after the first j
passes as a table and a multiset; `RelaxedPrefixAt` and `QueuedCount` tie
the two descriptions together.

The source node is a parameter `src`; the C program always uses node 0.

The comment at `dijkstra.c:87` reads as if a node's record were set when the
node is first extracted from the queue. In fact relaxation
(`dijkstra.c:100-102`) already writes the neighbour's cost and predecessor
into the table when it queues the neighbour. So the `cost == INT_MAX` branch
at `dijkstra.c:88-91` only ever fires for the source's seed entry
(`ShortestPaths.FinalizeOnlyAtSource`). The model follows the code, and the
result is still the table of shortest costs, as proved.

## Model

| member | source | states |
|---|---|---|
| DynArrays.DynArray.constructor | dynarray.c:28-38 | a new array is empty with capacity 8 |
| DynArrays.DynArray.Size | dynarray.c:58-61 | returns the number of elements held, not the capacity |
| DynArrays.DynArray.Resize | dynarray.c:68-90 | requires the new capacity to exceed the size; moves the elements unchanged into a fresh buffer of the new capacity |
| DynArrays.DynArray.Insert | dynarray.c:101-116 | contents become old contents plus the value at the end; capacity doubles exactly when the buffer was full |
| DynArrays.DynArray.Remove | dynarray.c:129-142 | for 0 <= idx < size, contents lose exactly the element at idx, later elements keep their order; capacity unchanged |
| DynArrays.DynArray.Get | dynarray.c:153-161 | for 0 <= idx < size returns the element at idx |
| DynArrays.DynArray.Set | dynarray.c:176-181 | for 0 <= idx < size replaces the element at idx and nothing else |
| DynArrays.DynArray.GetLast | dynarray.c:184-190 | None exactly on an empty array, otherwise the last element |
| DynArrays.DynArray.DecrementSize | dynarray.c:192-195 | drops the last element without touching the buffer or the capacity |
| HeapSpec.Swap | pq.c:121-123 | the two entries trade places, every other entry stays, the multiset of entries is unchanged |
| HeapSpec.SwapByWrites | pq.c:259-261 | writing each of the two entries into the other's slot, in either order, is the swap |
| HeapSpec.SiftUp | pq.c:119-131 | sifting up from k keeps the length and leaves every entry after k in place |
| HeapSpec.Push | pq.c:106-134 | insertion lengthens the heap by one and its entries are exactly the old ones plus the new one |
| HeapSpec.SiftUpPermutes | pq.c:119-131 | the sift-up loop keeps the length and the multiset of entries |
| HeapSpec.SiftUpStep | pq.c:121-128 | one swap with a strictly larger parent moves the single out-of-order spot one level up |
| HeapSpec.SiftUpRestoresHeap | pq.c:119-131 | sifting up the only out-of-order entry yields a heap |
| HeapSpec.PushIsHeap | pq.c:106-134 | inserting into a heap yields a heap holding exactly the old entries plus the new one |
| HeapSpec.Smallest | pq.c:226-253 | the index chosen is the node or one of its children present, of least priority among them; a child only when strictly smaller than the node, and the right child only when strictly smaller than the left |
| HeapSpec.SiftDown | pq.c:225-268 | the recursive sift-down keeps the length |
| HeapSpec.SiftDownPermutes | pq.c:225-268 | the sift-down keeps the multiset of entries |
| HeapSpec.SiftDownStep | pq.c:257-264 | one swap with the smallest child moves the single out-of-order spot one level down |
| HeapSpec.SiftDownRestoresHeap | pq.c:225-268 | sifting down the only out-of-order entry yields a heap |
| HeapSpec.Pop | pq.c:190-223 | removing the root shortens the heap by one |
| HeapSpec.Shrink | pq.c:205-214 | one entry shorter; the last entry now sits at the root and every other remaining slot is unchanged |
| HeapSpec.ShrinkRemovesRoot | pq.c:205-214 | moving the last entry to the root and shrinking removes exactly the root from the multiset |
| HeapSpec.PopIsHeap | pq.c:190-223 | removing the root of a heap yields a heap of exactly the other entries |
| HeapSpec.RootIsMin | pq.c:151-155 | in a heap, the root's priority is at most that of any entry, by induction along the parent chain |
| HeapSpec.HeapRootIsMin | pq.c:170-174 | the root of a heap has the least priority |
| HeapSpec.Drain | pq.c:190-223 | removing until empty returns as many entries as the heap held, the root first |
| HeapSpec.DrainPermutes | pq.c:190-223 | removing until empty returns every entry exactly once |
| HeapSpec.RootBelowRest | pq.c:190-223 | the root's priority is at most that of every entry removed after it |
| HeapSpec.DrainIsSorted | pq.c:190-223 | removing until empty returns the entries in non-decreasing priority |
| HeapSpec.BuildHeapIsHeap | pq.c:106-134 | any sequence of insertions into an empty queue yields a heap of exactly the inserted entries |
| HeapSpec.BuildHeap | pq.c:106-134 | inserting the entries of xs one after another into an empty queue gives a heap as long as xs |
| HeapSpec.InsertAllThenRemoveAll | pq.c:106-223 | inserting entries and then removing them all returns a permutation of them in non-decreasing priority |
| PriorityQueue.PQ.constructor | pq.c:36-40 | a new queue is empty and valid |
| PriorityQueue.PQ.IsEmpty | pq.c:81-86 | returns 1 exactly when the queue is empty and 0 exactly when it is not |
| PriorityQueue.PQ.Insert | pq.c:106-134 | the heap becomes Push of the old heap and the new entry, so it stays a heap and gains exactly that entry |
| PriorityQueue.PQ.SiftUpFrom | pq.c:114-131 | the swap loop computes SiftUp of the array from the new entry's index, stopping at the root |
| PriorityQueue.PQ.Exchange | pq.c:122-123 | the two writes swap the two entries |
| PriorityQueue.PQ.First | pq.c:151-155 | returns the root's value, whose priority is least; nothing changes |
| PriorityQueue.PQ.FirstPriority | pq.c:170-174 | returns the root's priority, which no entry's priority is below; nothing changes |
| PriorityQueue.PQ.RemoveFirst | pq.c:190-223 | returns the value of an entry of least priority; the heap becomes Pop of the old heap, a heap without exactly that entry |
| PriorityQueue.PQ.SmallestOfThree | pq.c:226-253 | the comparisons pick the index Smallest describes; nothing changes |
| PriorityQueue.PQ.PercDown2 | pq.c:225-268 | the recursive swaps compute SiftDown of the array from rootIdx |
| ShortestPaths.CostSumUpdate | dijkstra.c:100-102 | lowering one record lowers the sum of recorded costs by the difference |
| ShortestPaths.CostSumNonNegative | dijkstra.c:82 | non-negative costs have a non-negative sum |
| ShortestPaths.RecordsBoundCostSum | dijkstra.c:82 | under the record invariant the cost sum, the loop's termination measure, is bounded below by 0 |
| ShortestPaths.InitialPaths | dijkstra.c:63-68 | the initial table has one record per node, each at cost INF with prev -1 |
| ShortestPaths.NewPaths | dijkstra.c:63-68 | the loop fills a fresh array with that initial table |
| ShortestPaths.InitEstablishesInv | dijkstra.c:62-78 | the initial table with only the seed queued satisfies the loop invariant |
| ShortestPaths.Finalize | dijkstra.c:87-91 | the update on extraction gives the extracted node's record the extracted cost and predecessor exactly when that record is at INF, and changes no other record |
| ShortestPaths.Relax | dijkstra.c:95-103 | one neighbour's update changes only that neighbour's record, does so exactly when the edge exists and improves it, and raises no cost |
| ShortestPaths.RelaxedPrefixAt | dijkstra.c:93-111 | after the first j passes of the neighbour loop, each record below j is relaxed against the starting table and every other record is as it was; a node with no edge from the extracted node keeps its record |
| ShortestPaths.RelaxedPrefixStep | dijkstra.c:93-111 | the next pass of the neighbour loop is one application of Relax to the prefix table, and improves exactly when the edge improves the starting record |
| ShortestPaths.QueuedCount | dijkstra.c:104-109 | the multiset of entries queued by the first j passes holds each entry as many times as Gain counts it |
| ShortestPaths.FinalizeOnlyAtSource | dijkstra.c:87-91 | under the loop invariant an extracted entry finds its record at INF exactly when it is the seed and the source is still unvisited |
| ShortestPaths.ExtractStep | dijkstra.c:84-91 | extracting any queued entry and finalizing leads into the neighbour loop's invariant without raising the cost sum or any node's cost |
| ShortestPaths.RelaxSkipStep | dijkstra.c:94-100 | a non-edge or a non-improving edge keeps the neighbour loop's invariant |
| ShortestPaths.RelaxUpdateStep | dijkstra.c:100-110 | an improving edge keeps the neighbour loop's invariant and strictly lowers the cost sum |
| ShortestPaths.RelaxKeepsRecords | dijkstra.c:100-102 | lowering a neighbour's record keeps every record well formed with a valid predecessor hop |
| ShortestPaths.RelaxKeepsEntries | dijkstra.c:104-109 | queueing the lowered record keeps every queued entry consistent with the table |
| ShortestPaths.RelaxKeepsSettled | dijkstra.c:100-109 | after an improvement every edge out of a reached node is still relaxed or has its source's record queued |
| ShortestPaths.RelaxKeepsInnerInv | dijkstra.c:95-111 | one pass of the neighbour loop extends its invariant by one node, raises no cost, and strictly lowers the cost sum when the edge improves |
| ShortestPaths.RelaxedPrefixKeepsInv | dijkstra.c:93-111 | the first j passes keep the neighbour loop's invariant, raise no cost, and lower the cost sum whenever they queue an entry |
| ShortestPaths.NeighboursFinished | dijkstra.c:93-111 | a table and queue in the state the whole neighbour loop leaves satisfy the main invariant again, with every edge out of the extracted node relaxed, no cost raised, and a lower cost sum if the queue grew |
| ShortestPaths.NeighboursDone | dijkstra.c:94-112 | after the neighbour loop the main loop's invariant holds again |
| ShortestPaths.EmptyQueueGivesCertificate | dijkstra.c:82 | when the queue is empty the table satisfies the certificate |
| ShortestPaths.CertificateBelowEveryWalk | dijkstra.c:62-114 | no walk from the source is cheaper than the recorded cost of its end |
| ShortestPaths.CertificateCostIsAttained | dijkstra.c:62-114 | following recorded predecessors from a reached node gives a walk of exactly its recorded cost |
| ShortestPaths.CertificateGivesShortestCosts | dijkstra.c:62-114 | a table satisfying the certificate records the shortest-path cost of every node |
| ShortestPaths.UnreachedIffNoCheapWalk | dijkstra.c:64-68 | a node keeps cost INF and prev -1 exactly when no walk from the source weighs less than INF |
| ShortestPaths.CostsAreDetermined | dijkstra.c:62-114 | any two final tables for the same graph and source record the same costs |
| ShortestPaths.SampleGraphTable | dijkstra.c:62-114 | on the four-node sample graph from node 0 the final table is 0:(0,prev 0), 1:(2,prev 2), 2:(1,prev 0), 3:(3,prev 1) |
| ShortestPaths.DisconnectedGraphTable | dijkstra.c:95 | a node reachable only through a negative entry keeps cost INF and prev -1 |
| ShortestPaths.Dijkstra | dijkstra.c:62-114 | returns one record per node, satisfying the certificate, hence the shortest cost of every node from src |
| ShortestPaths.DrainQueue | dijkstra.c:82-114 | the main loop terminates with the queue empty, and the table then satisfies the certificate |
| ShortestPaths.VisitNext | dijkstra.c:82-113 | one iteration removes the least entry, finalizes its node, then sets every record to its relaxation against the finalized table and queues the entries Gain counts; it keeps the loop invariant, raises no node's cost, and lowers the cost sum or keeps it and shrinks the queue |
| ShortestPaths.ExtractNext | dijkstra.c:84-91 | removes an entry of least priority and applies Finalize with its record |
| ShortestPaths.RelaxNeighbours | dijkstra.c:93-111 | every record becomes its relaxation against the table before the loop, and the queue gains exactly the entries Gain counts; the main invariant holds again, every edge out of the extracted node is relaxed against its cost, no node's cost rises, and the cost sum drops whenever the queue grew |
| ShortestPaths.RelaxEdges | dijkstra.c:93-111 | the loop over all nodes sets every record to its relaxation against the starting table and adds to the queue exactly the entries Gain counts |
| ShortestPaths.RelaxEdge | dijkstra.c:95-111 | the table becomes Relax of the old table and the queue gains exactly the new record when the edge improves, nothing otherwise; no cost rises |
| ShortestPaths.ImproveEdge | dijkstra.c:100-110 | an improvement writes newCost and curr's node into j's cost and predecessor, leaves the rest of the table alone, and queues a new record (j, curr's node, newCost) keyed by newCost |
| ShortestPaths.SampleGraphRun | dijkstra.c:62-114 | running the engine on the sample graph from node 0 gives exactly the table of SampleGraphTable |
| ShortestPaths.DisconnectedGraphRun | dijkstra.c:62-114 | running the engine on the disconnected graph leaves node 2 unvisited |

## Left out

- Reading the graph from a file (`dijkstra.c:1-57`) and printing the table (`dijkstra.c:116-119`) are I/O; the matrix is a parameter of type `seq<seq<int>>`.
- The source node is a parameter instead of the constant 0, and the node count is a parameter checked against the matrix.
- `malloc`, `free`, `dynarray_free` and `pq_free` are memory management, which Dafny's garbage-collected heap does not need. `node_create` is the datatype constructor `Node`.
- The commented-out `perc_down` in `dynarray.c` is dead code.
- Checks for a NULL array or queue pointer (`dynarray.c:49`, `59`, `102`, `130`, `157`, `177`, `185`; `pq.c:191-193`) have no counterpart: Dafny references are non-null.
- DynArrays.DynArray.Get: requires the index in range. The C code reads the slot before its range assertion (`dynarray.c:154-158`) and returns NULL for a NULL slot. The queue relies on this once: when the last entry is removed, `perc_down2(pq, 0, 0)` (`pq.c:218`) reads slot 0 with size 0 (`pq.c:230`), and gets NULL only because `pq.c:211` stored NULL there, so the assertion is never reached.
- PriorityQueue.PQ.RemoveFirst: does not model the store of NULL into the vacated last slot (`pq.c:211`), which lies beyond the new size and is absent.
- PriorityQueue.PQ.RemoveFirst: skips the sift-down when the queue becomes empty. The C call `perc_down2(pq, 0, 0)` then finds no child and does nothing, but it reaches that point only through the NULL-slot quirk of `dynarray_get` described above.
- PriorityQueue.PQ.SiftUpFrom: stops at the root with an explicit `idx > 0` test. The C loop relies on `(0 - 1) / 2` truncating to 0, so that the root is its own parent and the strict comparison fails; the two behave the same.
- Integers are unbounded, so the model differs from the C code where a 32-bit `int` overflows. The sum `curr->cost + edgeCost` at `dijkstra.c:97` overflows once it exceeds `INT_MAX`; that is undefined behaviour, and with wrap-around the sum turns negative and passes the test at `dijkstra.c:100`. For example, with `matrix[0][1] = 2147483000` and `matrix[1][2] = 1000` the C table would record a negative cost for node 2, while the model leaves node 2 at `INT_MAX` with prev -1. The capacity doubling at `dynarray.c:108` is not bounded either.
- ShortestPaths.CostsAreDetermined: proves that the costs are unique, not the predecessors. Under ties several predecessor choices satisfy the certificate; the method itself is deterministic.
- Priorities are Dafny `int` and payloads are values, so the payload ownership transfer of `pq_remove_first` is not modelled.
