# Route search of SmartMap Navigation, modelled in Dafny

SmartMap Navigation (`map.c`) plans routes between locations of a city
graph. Each location pair has an entry in an n-by-n table of 32-bit ints,
and `INF` (INT_MAX) marks "no direct edge". The program derives integer
cost matrices from the raw tables. It then searches them:

- Dijkstra's algorithm for a cheapest route, with an A* mode whose
  heuristic is the constant 0.
- Breadth-first search for a route with the fewest stops.

It reads a route back from the predecessor array the search leaves behind,
and measures the route found.

This project models that core:

- The graph and its walks, and the optimality notions (`graph.dfy`).
- The predecessor arrays and `get_path` (`parents.dfy`).
- The base-distance and scenic cost models (`costs.dfy`).
- `find_min_node`, the relaxation loop and `shortest_path` (`dijkstra.dfy`).
- The ring-buffer queue (`ring_queue.dfy`) and `bfs_shortest` (`bfs.dfy`).
- `calc_total_dist` and `calc_scenic_score` (`metrics.dfy`).
- The three integer route choices of `main` (`routes.dfy`).

Modelling choices:

- The location count is a parameter `n = |m| >= 1`, not the constant 12.
  The BFS queue has `2 * n` slots, as `Q_SIZE = 2 * NUM_LOC` does.
- Matrices are `seq<seq<int>>`. The working arrays (`dist`, `visited`,
  `parent`, `hops`, the queue) are local values threaded through the
  operations instead of C arrays and globals.
- A walk is a non-empty sequence of locations whose consecutive entries are
  not `INF`. Its cost is the sum of those entries, accumulated first pair
  first, like the C loops.

## Model

| member | source | states |
|---|---|---|
| Dijkstra.HeuristicAdmissible | map.c:191-193 | the heuristic never exceeds the cost of any walk to the goal, for tables of non-negative costs |
| Dijkstra.FindMinNode | map.c:196-222 | returns -1 exactly when no unvisited location has a finite cost; otherwise an unvisited finite location of least cost, the lowest index among equals |
| Dijkstra.RelaxEdges | map.c:245-257 | exactly the unvisited locations improved through `u` take dist[u] + cost and `u` as predecessor; no distance grows; visited entries do not change; every finite edge out of `u` is relaxed |
| Dijkstra.UnvisitedLowerBound | map.c:238-243 | every walk from the source to an unvisited location costs at least the least open distance, which is why the selected location's distance is final |
| Dijkstra.SearchStep | map.c:237-258 | one round (select, mark visited, relax) preserves the search invariant: visited distances are final, predecessor links are exact, the frontier is relaxed |
| Dijkstra.SearchSettles | map.c:238-241 | the selected least candidate has its final distance, which covers the A* stop at the goal |
| Dijkstra.SearchExhausted | map.c:238-240 | when no unvisited location has a finite distance, every recorded distance is final |
| Dijkstra.ChainCost | map.c:246-254 | following predecessor links from a finite location walks back to the source, and that walk costs exactly the recorded distance |
| Dijkstra.ShortestPath | map.c:225-261 | dist[src] = 0 and parent[src] = -1; the result is true iff dist[goal] != INF iff some walk costs less than INF; dist[goal] is the least walk cost (every location's, in plain Dijkstra mode), which with the constant-0 heuristic covers A* mode; predecessor links are exact, acyclic and set only on locations of finite distance; each finite location's chain is a walk from the source at exactly its distance |
| Parents.GetPath | map.c:162-180 | the route ends at `dest`, starts at a location without predecessor, and each entry is the predecessor of the next; it is the unique sequence listing the chain of links, and repeats no location |
| Parents.ReverseInPlace | map.c:173-177 | the swap loop leaves the input reversed |
| Parents.ListsChainUnique | map.c:167-170 | the backward collection loop has exactly one possible result for a given array and destination |
| Parents.PathRoundTrip | map.c:162-180 | recording a route of distinct locations as predecessor links and reading it back with get_path returns the same route |
| Parents.ListsChainDistinct | map.c:162-180 | a route read back from an acyclic predecessor array never repeats a location |
| Parents.RankedRooted | map.c:167-170 | a predecessor array whose links strictly lower a bounded rank has no cycle, so get_path's loop ends |
| CostModels.UseBaseDist | map.c:118-122 | the base-distance model is the distance table itself, row for row |
| CostModels.CalcScenicCost | map.c:125-139 | the diagonal is 0; a missing edge stays INF; every other entry is the distance times 10 divided by rating + 1, or INF when that does not fit in an int; all entries lie in [0, INF] |
| CostModels.ScenicKeepsWalks | map.c:125-139 | when nothing saturates and the diagonal is 0, the scenic model admits exactly the walks of the distance table |
| CostModels.ScenicOverflowExample | map.c:135 | as written, the int product base_dist * 10 overflows for distance 300000000 (signed overflow, undefined in C); on the usual two's-complement targets it wraps, and with rating 0 gives the negative cost -1294967296 |
| CostModels.ScenicEntryAgrees | map.c:135 | wherever the product fits in an int, the as-written entry and the corrected one coincide |
| RingQueues.Enqueue | map.c:267-270 | with two or more free slots, the new entry joins the end of the contents; filling the last free slot makes the contents read empty |
| RingQueues.Dequeue | map.c:272-276 | on a non-empty queue, returns the oldest entry and leaves the rest in order |
| RingQueues.IsEmpty | map.c:278-280 | head == tail exactly when the queue has no contents |
| RingQueues.EnqueueFullLoses | map.c:267-280 | when the buffer is full but for one slot, another enqueue loses every entry, because the queue then reads as empty |
| RingQueues.FirstInFirstOut | map.c:267-276 | pushing x then y and popping once returns x and leaves y |
| Bfs.ExitHopBound | map.c:303-310 | if every visited location with an unvisited neighbour has at least `lo` hops, every walk to an unvisited location has more than `lo` edges |
| Bfs.DiscoverBound | map.c:304-306 | a newly discovered neighbour of `u` is no fewer than hops[u] + 1 edges from the start |
| Bfs.Discover | map.c:304-308 | discovering a neighbour keeps the scan invariant, and the queue holds fewer than 2n - 1 entries before the enqueue, so the 2n-slot buffer never overflows |
| Bfs.DiscoverQueue | map.c:308 | the queue keeps fewer than 2n - 1 entries before each enqueue; its entries stay distinct, visited and in non-decreasing hop order |
| Bfs.ClosedReach | map.c:296-313 | a walk from a visited location in a set closed under edges stays inside it, so an empty queue without the destination means no route |
| Bfs.HopChain | map.c:306-307 | the predecessor chain of a visited location is a walk from the start with hops + 1 locations |
| Bfs.ScanEdges | map.c:303-310 | after the scan, the visited locations are the old ones plus `u`'s neighbours; the new ones have hops[u] + 1 and predecessor `u`; old labels do not change |
| Bfs.BfsShortest | map.c:283-314 | returns -1 iff no walk joins start and end; otherwise the fewest edges of any such walk; 0 when start == end; the chain to end is a walk of that many edges; all predecessor chains are acyclic |
| Metrics.SumAlong | map.c:317-323 | the loop's sum over consecutive pairs equals the cost of the walk, and is 0 for a route of at most one location |
| Metrics.CalcTotalDist | map.c:317-323 | the total distance is the walk's cost in the distance table, 0 for a one-location route, never negative for non-negative tables |
| Metrics.CalcScenicScore | map.c:335-341 | the scenic score is the sum of the ratings along the route, 0 for a one-location route, never negative when the ratings are not |
| Metrics.WalkCostConcat | map.c:317-323 | the accumulated sum splits at any point into the two parts plus the joining step |
| Graph.ShortestDistanceUnique | map.c:225-261 | the least walk cost is determined by the graph and endpoints, so A* and plain Dijkstra agree on the goal |
| Graph.MinHopsSelf | map.c:294-301 | the fewest stops from a location to itself is 0 |
| Routes.ShortestRoute | map.c:415-426 | when a route is found, it is a cheapest walk in the distance table that repeats no location, and the reported distance is its cost; it is found iff some walk costs less than INF |
| Routes.FewestStopsRoute | map.c:428-439 | when the stops are not -1, the route read back is a walk with stops + 1 distinct locations and no walk has fewer stops; -1 iff no route |
| Routes.ScenicRoute | map.c:441-452 | when a route is found, it is a cheapest walk in the scenic model that repeats no location, and the score is the sum of ratings along it |

## Left out

- calc_eff_dist, calc_balanced_cost and calc_total_time, with the "Fastest Route" and "Balanced Route" choices: they compute in `float`, which this integer model does not represent.
- main's input handling and print_path: console I/O.
- The location and algorithm name tables and the literal data in base_dist, traf_fact and scenic_val: the model takes any square table.
- The global queue array and its head and tail: modelled as a value (`RingQueues.RingQueue`) local to one search.
- Dijkstra.ShortestPath: "reached" is stated against walks costing less than INF. A walk costing INF or more cannot be told from no walk, because sums are saturated at INF.
- Metrics.CalcTotalDist: returns the exact integer sum. The source accumulates in a `float`, which is exact only while the sum stays below 2^24.
- Metrics.CalcScenicScore: returns the exact integer sum, for the same reason as CalcTotalDist.
- Parents.GetPath: requires the chain of links from `dest` to end within |parent| steps. On a cyclic array the C loop never ends and writes past the path array.
- CostModels.CalcScenicCost: requires distances in [0, INF] and ratings in [0, INF). A rating of -1 would make the source divide by zero, and INT_MAX would overflow rating + 1.
- CostModels.CalcScenicCost: models the corrected entry, saturated at INF, rather than the overflowing product; see Findings.

## Findings

| source | as written | input that shows it | evidently intended | confidence | as-written member | corrected member |
|---|---|---|---|---|---|---|
| map.c:135 | `base_dist[i][j] * 10` is evaluated in 32-bit `int`, so a distance above 214748364 overflows before the division: signed overflow, undefined in C | base_dist = 300000000, scenic_val = 0; on the usual two's-complement targets the product wraps and gives the negative edge cost -1294967296 (the literal table's distances, at most 35, stay far below this) | the scaled cost, or INF when it does not fit | not executed | CostModels.ScenicOverflowExample | CostModels.CalcScenicCost |
