# City logistics and emergency-planning algorithms, modelled in Dafny

The repository is a set of standalone C++ demo programs for a "smart city":
traffic routing (`trafic.cpp`), a bus network (`acase1.cpp`), hospital
dispatch (`acase2.cpp`), flood monitoring (`acase3.cpp`), service counters
(`acase4.cpp`), a parking lot (`acase5.cpp`), threat detection
(`acase6.cpp`), emergency alerts (`acase7.cpp`), a dynamic-pricing shop
(`acase8.cpp`), a city resource planner (`acase9.cpp`) and freight
transport (`acase10.cpp`). Each program is a handful of textbook routines
driven by a console `main`. This project models those routines and proves
what each promises.

Shared cores:

- `WeightedGraphs` defines walks over adjacency lists and the "capped
  shortest distances" specification: a distance below the sentinel is the
  length of a walk, and no walk is shorter.
- `Dijkstra` is one priority-queue Dijkstra with two knobs. The first says
  whether a stale popped entry is skipped (never, when above the current
  distance, when unequal to it). The second says whether edges relax from
  the current or the popped distance. Each of the seven copies in the
  source is a wrapper that fixes the knobs and the sentinel.
- `Reachability` is the breadth-first traversal and early-exit search that
  the BFS routines share.
- `StringMatching` is the Knuth-Morris-Pratt table and search. It is written
  twice in the source, in `acase6.cpp` and `acase7.cpp`, as identical code.
- `Orderings`, `Sorting` and `PriorityQueues` hold the comparators, the
  sorts and the pop order of `std::priority_queue`.
- `SearchTrees` holds the BST and the AVL tree as datatypes, with a
  comparison key and a choice of how equal keys are treated.
- `DisjointSets` is the union-find class that `trafic.cpp` and `acase9.cpp`
  both implement.

Modelling choices:

- State that the source updates in place is a class with `modifies`
  clauses. Examples are the union-find arrays, the segment tree, the trie,
  the catalog, the order manager, the parking lot and the login table.
- Arrays that the source sorts or fills in place stay arrays: the merge sort
  and quicksort, the counters, the flood grid and the vehicles.
- Loops stay loops, proved against specification functions.
- Integers are unbounded. The source's sentinels are constants:
  `INF = 1e9`, `INT_MAX`, `INT_MAX / 4` and `1e18`.
- `Satish/Central(case-1).cpp` is not part of this model.

## Model

| member | source | states |
|---|---|---|
| WeightedGraphs.CappedShortestAt | trafic.cpp:23-47 | For capped shortest distances: a node no walk reaches keeps the sentinel; a node below it has a walk of exactly its distance, and no walk to it is shorter |
| WeightedGraphs.CappedShortestUnique | trafic.cpp:23-47 | Capped shortest distances are determined by the graph, so all Dijkstra variants agree on them |
| WeightedGraphs.RelaxedBoundsWalks | trafic.cpp:36-45 | Once every finite node is relaxed and the source is at 0, no walk is shorter than the distance recorded at its end |
| Dijkstra.ShortestFrom | trafic.cpp:23-47 | On non-negative weights, every knob setting gives: source at 0, every distance between 0 and the sentinel, a walk of that length for each distance below the sentinel, and no walk shorter |
| Dijkstra.DrainedIsShortest | trafic.cpp:31-46 | When the queue is empty, every finite node is relaxed, so the tentative distances are final |
| Dijkstra.ScanEdges | trafic.cpp:38-44 | Scanning the popped node relaxes every one of its edges. Each finite distance stays the length of a walk, each queued entry stays at or above its node's distance, and `Sum(dist) + |pq|` does not grow |
| TrafficPaths.ShortestTimes | trafic.cpp:23-47 | `dijkstra(src, graph)`: capped shortest distances with `INF = 1e9`, 0 at the source |
| TrafficPaths.BellmanFord | trafic.cpp:50-75 | Every distance below INF is a walk's length, none exceeds a walk of at most n-1 edges, and INF nodes are never relaxed. `warned` holds exactly when some edge from a reached node could still relax; without a warning, no finite walk is shorter than the distance |
| TrafficPaths.DetectNegativeCycle | trafic.cpp:68-73 | The final pass warns exactly when some edge from a finite node still relaxes |
| TrafficPaths.SettledBoundsWalks | trafic.cpp:50-75 | With no relaxable edge, every finite walk bounds the distance of its end, so the distances are the shortest |
| FloydWarshall.AllPairs | trafic.cpp:78-90 | No entry grows. Every entry is its input entry or the cost of a walk that avoids INF entries. With non-negative entries, no walk cheaper than INF beats the result |
| FloydWarshall.RelaxRow | trafic.cpp:83-86 | One row of a pivot round: every entry stays its input or a walk cost and does not grow, and each pair in the row is no worse than its route through the pivot |
| FloydWarshall.PivotBound | trafic.cpp:81-88 | With non-negative entries, the round through pivot `k` admits `k` as an inner node of the walks it bounds |
| DisjointSets.UnionFind.constructor | aditya/acase9.cpp:41-48 | `initUF` / `UF(n)`: every element is its own root with rank 0, giving n singleton sets |
| DisjointSets.UnionFind.Find | aditya/acase9.cpp:50-54 | `findUF` / `find`: returns the root of the element's set. Path compression repoints nodes only at their own root, so the partition and the ranks are unchanged |
| DisjointSets.UnionFind.Union | aditya/acase9.cpp:56-69 | `unionUF` / `unite`: afterwards both elements share a root, and only their two sets merge. A rank grows only on a tie. Merging two different sets removes exactly one root. The surviving root is the one of higher rank, and the first element's root on equal ranks (as `unite` at trafic.cpp:99-101 also keeps `x`'s root) |
| TrafficMst.KruskalMst | trafic.cpp:105-116 | The edges are sorted in place and keep their contents. The accepted edges are exactly those Kruskal's rule accepts over the sorted order: an edge is taken when its ends lie in different components, which then merge. The components are those of that rule, the cost is the weight of the accepted edges, and both ends of every edge end in one component. Each accepted edge removes one component, so at most n-1 are accepted |
| TrafficMst.JoinInOrder | trafic.cpp:109-114 | The loop over the sorted edges accepts what Kruskal's rule accepts, ends with its components, and costs the weight of the accepted edges |
| TrafficMst.FollowTake | trafic.cpp:110-113 | An edge across two components is accepted by both the loop and the rule, and `unite` merges the same two components as the rule |
| TrafficMst.MergedSame | trafic.cpp:110-111 | A union-find union and a relabelling merge of the same two components keep the two partitions equal |
| RouteTrie.InsertSpells | trafic.cpp:128-135 | After inserting `s`, a word is spelled exactly when it is `s` or was spelled before |
| RouteTrie.DescendSpells | trafic.cpp:146-152 | Descending a prefix and then spelling the rest spells the whole word |
| RouteTrie.CollectSpells | trafic.cpp:153-158 | The words collected below a node are exactly those spelled from it |
| RouteTrie.Trie.Insert | trafic.cpp:128-135 | `insert(s)`: the stored words gain exactly `s` |
| RouteTrie.Trie.Search | trafic.cpp:137-144 | `search(s)`: true exactly for inserted words, so a proper prefix is found only if it was inserted itself |
| RouteTrie.Trie.Autocomplete | trafic.cpp:146-160 | `autocomplete(prefix)`: exactly the inserted words that start with `prefix`; nothing when the prefix path is missing |
| BusNetwork.CityGraph.constructor | aditya/acase1.cpp:14-17 | `Graph(V)`: V nodes with no roads |
| BusNetwork.CityGraph.AddEdge | aditya/acase1.cpp:19-22 | `addEdge(u, v, w)`: the road is listed at u towards v and at v towards u. The graph stays symmetric, and stays non-negative for `w >= 0` |
| BusNetwork.SymmetricAdd | aditya/acase1.cpp:19-22 | Adding a road in both directions keeps every edge matched by its reverse |
| BusNetwork.PeakHourDistances | aditya/acase1.cpp:26-48 | `dijkstra(g, src)` without a stale-entry skip: still capped shortest distances with `INT_MAX`, 0 at the source |
| BusNetwork.Heuristic | aditya/acase1.cpp:51-53 | `abs(a - b)`: non-negative, and one of the two differences |
| BusNetwork.Astar | aditya/acase1.cpp:55-81 | The result is 0 when start is the goal. It is -1 exactly when no walk to the goal is shorter than `INT_MAX`. Otherwise it is the length of some walk from start to goal |
| BusNetwork.NearestStop | aditya/acase1.cpp:84-94 | -1 exactly when every stop is visited; otherwise the unvisited stop nearest to `current`, lowest-numbered on ties |
| BusNetwork.NearestUnique | aditya/acase1.cpp:84-94 | The nearest unvisited stop, with its tie rule, is unique |
| BusNetwork.GreedyRoute | aditya/acase1.cpp:96-112 | The route starts at stop 0 and visits every stop exactly once. Each next stop is the nearest one not yet on the route |
| HospitalDispatch.HospitalDistances | aditya/acase2.cpp:27-48 | `dijkstra(src, graph)` on the directed graph: capped shortest distances with `INF = 1e9`, 0 at the source |
| HospitalDispatch.TriageOrder | aditya/acase2.cpp:51-55 | The triage heap pops every patient once, in non-increasing severity |
| HospitalDispatch.DispatchNearest | aditya/acase2.cpp:100-111 | The available ambulance that is strictly nearest below INF, first listed on ties. -1, with distance INF, exactly when no available ambulance reaches the scene below INF |
| FloodMonitor.FloodFill | aditya/acase3.cpp:16-38 | On a grid of one or more rows, a dry cell becomes 1 exactly when water from the start reaches it in one or more steps over dry cells. Every other cell keeps its value, and the start is not flooded by being the start |
| FloodMonitor.FloodDone | aditya/acase3.cpp:24-37 | Once every queued cell is expanded, the flooded cells are exactly the cells the water reaches |
| FloodMonitor.SelectionSort | aditya/acase3.cpp:41-50 | The levels end ascending and are a permutation of the input |
| FloodMonitor.MinFrom | aditya/acase3.cpp:44-47 | The inner loop returns a position at or after `i` whose level is no larger than any level from `i` on |
| ServiceCounters.JoinAdds | aditya/acase4.cpp:33-44 | A customer joining one queue adds one waiting customer, and only that one |
| ServiceCounters.AssignCustomer | aditya/acase4.cpp:33-44 | `assignCustomer`: the customer joins the back of the shortest queue, lowest-numbered on ties; other counters are unchanged |
| ServiceCounters.ServedTotals | aditya/acase4.cpp:47-61 | A serving round removes one customer per busy counter and books 5 minutes for each |
| ServiceCounters.ServeCustomers | aditya/acase4.cpp:47-61 | `serveCustomers`: each non-empty counter loses its front customer and gains 5 minutes; empty counters are unchanged |
| ServiceCounters.WithoutKeeps | aditya/acase4.cpp:68-77 | The rebuilt queue keeps exactly the customers of other ids, in order, and is unchanged when the id is absent |
| ServiceCounters.Rebuild | aditya/acase4.cpp:66-77 | The rebuilt queue is the old queue without that id's entries, in order. `found` is true exactly when the id was queued there |
| ServiceCounters.RemoveCustomer | aditya/acase4.cpp:64-81 | `removeCustomer`: the first counter holding the id loses every entry with it and keeps the rest in order; every other counter is unchanged |
| ServiceCounters.AverageWaitingTime | aditya/acase4.cpp:84-97 | None exactly when nobody waits; otherwise the integer quotient of the service minutes over the waiting customers |
| ServiceCounters.RouteOf | aditya/acase4.cpp:126-132 | A customer goes to the bank side exactly when the service type is 0, and waits in the heap exactly when the priority is positive |
| ServiceCounters.LowerPriorityOrder | aditya/acase4.cpp:19-23 | `ComparePriority` is a strict weak order, so the heap pops higher priority first |
| ServiceCounters.LeastBusyAt | aditya/acase4.cpp:33-42 | The scan's pick: a shortest queue, with every earlier counter strictly longer |
| ServiceCounters.LeastBusyUnique | aditya/acase4.cpp:33-42 | Only one counter is the first shortest, so the scan's pick is determined |
| ServiceCounters.JoinAllQueued | aditya/acase4.cpp:137-146 | Joining a sequence of customers one by one adds exactly those customers, and that many waiting |
| ServiceCounters.AssignAll | aditya/acase4.cpp:137-141 | Each customer in turn joins the counter `assignCustomer` picks: the counters become `JoinAll` of the order, gaining exactly its customers |
| ServiceCounters.DrainIntoCounters | aditya/acase4.cpp:137-146 | The heap is popped in non-increasing priority, and the counters end up as each popped customer joining the first shortest queue in pop order (`JoinAll`), holding every customer of the heap |
| ParkingLots.SlotNumbersConsecutive | aditya/acase5.cpp:32-43 | Slot numbers start at 1 and run on without gaps: slot by slot, zone by zone, floor by floor |
| ParkingLots.SmartParking.constructor | aditya/acase5.cpp:32-43 | `initializeParking`: every slot free and non-priority, numbered consecutively, at distance `(f+1)*10 + (z+1)*5 + s`; no position has been used by a priority vehicle yet |
| ParkingLots.FindNearestSlot | aditya/acase5.cpp:46-61 | A slot is found exactly when an eligible one exists (free, and a priority slot if asked). It is one of the nearest, and the lot is only read |
| ParkingLots.NoPrioritySlot | aditya/acase5.cpp:39 | On a lot where no slot is a priority slot, as `initializeParking` leaves it, a priority request cannot succeed |
| ParkingLots.SetFlagsUse | aditya/acase5.cpp:78 | Writing a slot's flags keeps every priority slot at a position priority vehicles have used, when the write keeps the slot's priority flag or records its position |
| ParkingLots.SmartParking.PriorityOnlyWhereUsed | aditya/acase5.cpp:46-61 | On a lot kept by these operations, a slot eligible for a priority request lies at a position a priority vehicle has used; if none has, priority requests fail |
| ParkingLots.AsWrittenInBoundsOnlyFirstZone | aditya/acase5.cpp:77-78 | On a lot as created, the write at `slotNumber - 1` lands inside its zone exactly for the first zone of the first floor |
| ParkingLots.SixthVehicleOutOfBounds | aditya/acase5.cpp:77-78 | After the first five-slot zone fills, the nearest slot is number 6, and index 5 of its zone lies outside the zone |
| ParkingLots.SmartParking.ParkVehicle | aditya/acase5.cpp:64-86 | Parks exactly when an eligible slot exists. The chosen slot is one of the nearest, becomes occupied and takes the vehicle's priority, and is recorded for the vehicle. A priority vehicle's position joins the positions priority vehicles have used, and a priority request is only granted on a position already among them. Nothing changes otherwise |
| ParkingLots.SmartParking.RemoveVehicle | aditya/acase5.cpp:89-102 | A parked vehicle's slot is freed, keeping its priority flag, and its entry is erased. An unknown vehicle changes nothing, and the used priority positions are kept |
| ParkingLots.SmartParking.SearchVehicle | aditya/acase5.cpp:127-139 | A parked vehicle is found with its slot, which lies in the lot; an unknown vehicle is not found |
| ParkingLots.FreeLotHas | aditya/acase5.cpp:107-114 | The collected slots are exactly the unoccupied slots of the lot |
| ParkingLots.CollectFree | aditya/acase5.cpp:107-114 | The three nested loops collect the free slots floor by floor, zone by zone and slot by slot, in lot order |
| ParkingLots.DisplayAvailableSlots | aditya/acase5.cpp:105-118 | Every free slot once, in non-decreasing distance |
| ThreatDetection.ThreatMonitor.TrackLogin | aditya/acase6.cpp:14-17 | A failure adds one to the ip's count, starting from 0 when the ip is new. A success changes nothing and resets nothing |
| ThreatDetection.ThreatMonitor.LoadPriorityQueue | aditya/acase6.cpp:67-70 | One `(count, ip)` entry per table entry joins the queue on top of what it held, so a second call duplicates them |
| ThreatDetection.ThreatMonitor.TopSuspect | aditya/acase6.cpp:124 | `pq.top()`: an entry with the most attempts, ties going to the lexicographically largest ip |
| ThreatDetection.LoadedTop | aditya/acase6.cpp:122-124 | After loading into an empty queue, the top is a table entry with the most failed attempts |
| ThreatDetection.DetectLateralMovement | aditya/acase6.cpp:77-98 | True exactly when the target is reachable from the start, including when they are the same node |
| StringMatching.BuildLps | aditya/acase7.cpp:7-21 | `buildLPS`: a table as long as the pattern, with `lps[0] = 0` and `lps[i] <= i`; entry i is the longest proper border of `pat[..i+1]` |
| StringMatching.KmpSearch | aditya/acase7.cpp:23-36 | For a non-empty pattern: true exactly when it occurs contiguously in the text, and false on an empty text |
| StringMatching.ScanFallBack | aditya/acase7.cpp:31-33 | On a mismatch, falling back to `lps[j-1]` skips no occurrence |
| Reachability.ClosedReach | aditya/acase7.cpp:68-87 | A node set closed under the edges holds everything reachable from its members |
| Reachability.Traverse | aditya/acase9.cpp:231-251 | The BFS pop order starts at the start node and lists every reachable node exactly once and nothing else. Each later node was pushed by the first listed node that has it as a neighbour, at the first index holding it in that node's list; the pushing nodes come in queue order, and nodes pushed by one scan come in the order of their indices |
| Reachability.SlotPush | aditya/acase9.cpp:243-248 | A pushed neighbour's list index is its first in the scanned list, and the nodes of one scan stay in index order |
| Reachability.ListOrderExample | aditya/acase9.cpp:243-248 | The traversal's contract fixes sibling order: from node 0 with neighbours `[2, 1]`, the order is 0, 2, 1 |
| Reachability.Search | aditya/acase7.cpp:68-87 | The early-exit search is true exactly when the target is reachable, and at once when it is the start |
| EmergencyAlerts.Level | aditya/acase7.cpp:41-47 | The severity table, with 0 for a keyword the map does not hold |
| EmergencyAlerts.DetectEmergencies | aditya/acase7.cpp:128-132 | One alert per keyword found in the log text, in keyword order, at the keyword's level |
| EmergencyAlerts.RaisedSound | aditya/acase7.cpp:128-132 | Every raised alert names a keyword that occurs in the text |
| EmergencyAlerts.SafeZoneReachable | aditya/acase7.cpp:68-87 | `bfsSafeZone`: true exactly when the safe zone is reachable along directed edges, and at once when it is the start |
| EmergencyAlerts.EvacuationTimes | aditya/acase7.cpp:92-116 | `dijkstra` with a skip of entries above the current distance: capped shortest distances with `INT_MAX`, 0 at the source |
| EmergencyAlerts.ShowAlerts | aditya/acase7.cpp:159-162 | The alert heap is shown in full, in non-increasing severity |
| PriorityQueues.Top | aditya/acase7.cpp:57-61 | `top()` of a non-empty queue: an entry that no entry beats under the comparator |
| PriorityQueues.Drain | aditya/acase2.cpp:90-94 | Popping until empty yields every entry once, never one the comparator puts below a later one |
| Orderings.StringLessOrder | aditya/acase6.cpp:65 | Lexicographic string order is a strict weak order, as `priority_queue<pair<int,string>>` needs |
| Sorting.MergeRuns | aditya/acase8.cpp:82-96 | The merge loop yields a sorted permutation of the two sorted runs |
| Sorting.Merge | aditya/acase8.cpp:86-96 | Two adjacent sorted runs become one sorted permutation of the range. Cells outside it are untouched |
| Sorting.MergeSort | aditya/acase8.cpp:82-96 | `mergeSort(arr, l, r, comp)`: `arr[l..r]` ends sorted under `comp` and a permutation of itself; cells outside it are untouched |
| Sorting.Partition | aditya/acase8.cpp:98-109 | Returns `p` in `[low, high]` holding the old `arr[high]`. Everything before it is `comp`-before the pivot and nothing after it is. The range is permuted and the rest untouched |
| Sorting.QuickSort | aditya/acase8.cpp:111-117 | `quickSort`: the range ends sorted and permuted, the rest untouched |
| Sorting.BinarySearchIndex | aditya/acase8.cpp:139-149 | -1, or an index whose key is the target. On keys in ascending order, -1 means no element has the key |
| Sorting.SortArray | aditya/acase8.cpp:557 | `std::sort` with a strict weak order: a sorted permutation |
| SearchTrees.SeqInsertAdds | aditya/acase8.cpp:164-169 | An insertion with a new key, or any insertion when equal keys go right, adds the value exactly once |
| SearchTrees.SeqInsertReplaces | aditya/acase8.cpp:168 | When equal keys replace, a known key has its value replaced in place |
| SearchTrees.SeqInsertAscending | aditya/acase8.cpp:164-169 | Inserting into a key-ascending sequence keeps it key-ascending |
| SearchTrees.BstInsertInOrder | aditya/acase8.cpp:164-169 | BST insertion puts the value into the in-order sequence where sorted insertion does |
| SearchTrees.Insert | aditya/acase8.cpp:212-236 | AVL insertion yields an AVL tree with correct heights, at most one level taller. When it grows, the root leans towards the side the value went |
| SearchTrees.InsertInOrder | aditya/acase8.cpp:212-236 | Rotations do not reorder: AVL insertion puts the value where sorted insertion does |
| SearchTrees.RebalanceKeepsInOrder | aditya/acase8.cpp:194-210 | The four rotation cases keep the in-order sequence |
| DynamicPricing.NewItem | aditya/acase8.cpp:27-29 | The two-argument constructor: nothing sold or viewed, priced at base, updated at hour 12 |
| DynamicPricing.BstInsertItem | aditya/acase8.cpp:164-169 | In-order output stays strictly increasing by id. A new id adds one item; a known id has its item replaced without adding a node |
| DynamicPricing.AvlInsertItem | aditya/acase8.cpp:212-236 | The same in-order effect as the BST insertion, and the tree stays AVL with correct heights |
| DynamicPricing.BuildBst | aditya/acase8.cpp:453-458 | The BST that `main` builds from the seed items prints its items in strictly increasing id order |
| DynamicPricing.BuildAvl | aditya/acase8.cpp:453-458 | The AVL tree built from the same items is balanced with correct heights and prints in strictly increasing id order |
| DynamicPricing.SameInOrder | aditya/acase8.cpp:608-616 | Both trees built from the same items print the same in-order list |
| DynamicPricing.LookupId | aditya/acase8.cpp:285-288 | `getById`: the stored item exactly when the id is known |
| DynamicPricing.LookupName | aditya/acase8.cpp:289-293 | `getByName`: exactly when the name is known, the item stored under its latest id |
| DynamicPricing.AddThenLookup | aditya/acase8.cpp:279-293 | After `addOrUpdate(it)` the id is known and both lookups return `it`. Every other id returns what it did before |
| DynamicPricing.ItemCatalog.AddOrUpdate | aditya/acase8.cpp:279-282 | Both maps are updated for the item, and every name still refers to a stored id |
| DynamicPricing.ItemCatalog.ExistsId | aditya/acase8.cpp:283 | True exactly when the id is stored |
| DynamicPricing.ItemCatalog.ExistsName | aditya/acase8.cpp:284 | True exactly when the name is stored |
| DynamicPricing.ItemCatalog.GetById | aditya/acase8.cpp:285-288 | Agrees with `LookupId` |
| DynamicPricing.ItemCatalog.GetByName | aditya/acase8.cpp:289-293 | Agrees with `LookupName` |
| DynamicPricing.ItemCatalog.AllItems | aditya/acase8.cpp:294-298 | Every stored item exactly once, in some order |
| DynamicPricing.SimpleStack.Push | aditya/acase8.cpp:59 | The value becomes the top |
| DynamicPricing.SimpleStack.Pop | aditya/acase8.cpp:60 | Removes the top; popping an empty stack does nothing |
| DynamicPricing.SimpleStack.Top | aditya/acase8.cpp:61 | The last value pushed and not popped |
| DynamicPricing.SimpleQueue.Push | aditya/acase8.cpp:71 | The value joins the back |
| DynamicPricing.SimpleQueue.Pop | aditya/acase8.cpp:72 | Removes the front; popping an empty queue does nothing |
| DynamicPricing.SimpleQueue.Front | aditya/acase8.cpp:73 | The oldest value still queued |
| DynamicPricing.Sell | aditya/acase8.cpp:392-396 | Selling keeps id, name and stock plus sold count, and adds the quantity to the sold count |
| DynamicPricing.ProcessAccounts | aditya/acase8.cpp:383-404 | Processing keeps the ids, names and stock plus sold count of every item. An item sells exactly the quantity of its fulfilled orders |
| DynamicPricing.ProcessKeepsStock | aditya/acase8.cpp:392-396 | No order is fulfilled beyond its item's stock, so stock never goes negative |
| DynamicPricing.ProcessSplitsOrders | aditya/acase8.cpp:383-404 | Every order is fulfilled or failed. A fulfilled order names a known item, and it pushes one updated copy of that item |
| DynamicPricing.UnknownItemFails | aditya/acase8.cpp:386-390 | An order for an unknown item always fails |
| DynamicPricing.OrderManager.PlaceOrder | aditya/acase8.cpp:372-376 | Ids are handed out as 1, 2, 3, ... in call order, and each order joins the incoming queue |
| DynamicPricing.OrderManager.MoveOne | aditya/acase8.cpp:379-380 | One turn of `moveToProcessing`: the front incoming order moves to the back of processing |
| DynamicPricing.OrderManager.MoveToProcessing | aditya/acase8.cpp:377-382 | All incoming orders join processing in arrival order, and incoming ends empty |
| DynamicPricing.OrderManager.ProcessNext | aditya/acase8.cpp:385-402 | One round of `processOrders`: the front order leaves processing. When its item is known and in stock, the item is sold and a copy pushed on the demand heap; otherwise the order is pushed on the failed stack and nothing else changes |
| DynamicPricing.OrderManager.ProcessOrders | aditya/acase8.cpp:383-404 | Each order is either fulfilled against the catalog, with its item sold and a copy pushed on the demand heap, or pushed on the failed stack. Processing ends empty |
| DynamicPricing.DijkstraShortest | aditya/acase8.cpp:305-327 | With unequal entries skipped and relaxation from the popped distance: capped shortest times with `INT_MAX / 4`, 0 at the source |
| WaterUsage.FourTimesFits | aditya/acase9.cpp:293 | `segTree.resize(4*n)` leaves room for every node of `buildST(1, 0, n-1)` |
| WaterUsage.WaterTree.constructor | aditya/acase9.cpp:83-92 | Sizing and building leave every node holding the sum of its zones' water figures |
| WaterUsage.WaterTree.Build | aditya/acase9.cpp:83-92 | `buildST(idx, l, r)`: node `idx` and its subtree hold the sums over `[l, r]`, and nothing outside the subtree changes |
| WaterUsage.WaterTree.UpdateAt | aditya/acase9.cpp:94-106 | `updateST`: the leaf for `pos` gets the value and its ancestors hold sums again; nothing outside the subtree changes |
| WaterUsage.WaterTree.Update | aditya/acase9.cpp:94-106 | One zone's figure is replaced (an index outside the range reaches the nearest end leaf) and the tree holds the new sums |
| WaterUsage.QuerySums | aditya/acase9.cpp:108-114 | `queryST` over a tree that holds its sums: the sum over the intersection of `[ql, qr]` and `[l, r]`, 0 when they are disjoint |
| WaterUsage.WaterTree.Query | aditya/acase9.cpp:108-114 | `queryST(1, 0, n-1, ql, qr)`: the water used by the zones of `[ql, qr]` that exist |
| PollutionTree.InsertAsWrittenHeights | aditya/acase9.cpp:176 | Where the code does not crash, every stored height is one more than the taller child's |
| PollutionTree.InsertAsWrittenKeys | aditya/acase9.cpp:168-197 | Where the code does not crash, the in-order keys stay non-decreasing and gain exactly one copy of the key |
| PollutionTree.EqualKeysUnbalance | aditya/acase9.cpp:180-194 | Three equal keys trigger no rotation and leave an unbalanced chain of height 3 |
| PollutionTree.EqualKeysCrash | aditya/acase9.cpp:192-194 | Keys 1, 1, 1, 1, 0 make `rightRotate` read through a null left child |
| PollutionTree.EqualKeysSplitWrong | aditya/acase9.cpp:183-184 | Keys 5, 5, 6 leave an equal key in a left subtree, breaking "left keys are smaller" |
| PollutionTree.AddPollution | aditya/acase9.cpp:168-197 | Corrected insertion, where an equal key takes the right-side tests: an AVL tree with correct heights, sorted in order, with exactly one more copy of the key |
| CityResources.CityDistances | aditya/acase9.cpp:205-225 | `dijkstra` without a stale-entry skip: capped shortest distances with `INT_MAX`, 0 at the source |
| CityResources.FloodOrder | aditya/acase9.cpp:231-251 | `bfsFlood`: starts at `start`, lists each reachable zone exactly once and nothing else. Each later zone was found by the first listed zone that has it as a neighbour, at its first index in that list; the finders come in the printed order, and zones found by one scan in the order of their indices |
| CityResources.SortEnergy | aditya/acase9.cpp:257-265 | The zones in non-increasing energy use, a permutation of the input |
| TransportRoutes.ShortestDistances | aditya/acase10.cpp:54-73 | `dijkstra` with a skip of entries above the current distance and relaxation from the popped one: capped shortest distances with `1e18`, 0 at the source |
| TransportRoutes.AllPairsShortest | aditya/acase10.cpp:76-83 | Row i holds the capped shortest distances from node i, with 0 on the diagonal |
| TransportRoutes.RouteDistance | aditya/acase10.cpp:90-96 | The sum of `distMat` over consecutive route nodes, 0 for routes of at most one node |
| TransportRoutes.PathAppend | aditya/acase10.cpp:90-96 | Joining two routes adds the step from the end of one to the start of the other |
| TransportRoutes.PathReverse | aditya/acase10.cpp:119 | On a symmetric matrix, a route and its reverse have the same length |
| TransportRoutes.TwoOptKeeps | aditya/acase10.cpp:118-120 | A 2-opt move keeps the length, both end points and the multiset of nodes |
| TransportRoutes.TwoOptLength | aditya/acase10.cpp:105-119 | On a symmetric matrix, a 2-opt move shortens the route by exactly its gain |
| TransportRoutes.TwoOptImprove | aditya/acase10.cpp:99-122 | No move for routes of at most 3 nodes. Otherwise, when some move gains, the route takes the first move of largest gain; when none does, the route is unchanged and no move gains |
| TransportRoutes.TwoOptLoop | aditya/acase10.cpp:125-128 | At most `iterLimit` calls, stopping after the first that makes no move. The result is the end of the run of best moves from the input (`TwoOptResult`), which no move improves when the run stopped early. The route keeps its ends and nodes |
| TransportRoutes.BestMoveUnique | aditya/acase10.cpp:105-116 | At most one move is the first of largest gain, so each call's move is determined |
| TransportRoutes.TwoOptResultUnique | aditya/acase10.cpp:125-128 | The route `twoOptLoop` leaves is determined by the route, the matrix and the limit |
| TransportRoutes.RunShortens | aditya/acase10.cpp:105-119 | On a symmetric matrix, every move of the run makes the route strictly shorter |
| TransportAssignment.CollectStops | aditya/acase10.cpp:148-151 | The pickup and then the delivery of each shipment, in order |
| TransportAssignment.NearestUnused | aditya/acase10.cpp:160-166 | The first unused stop of least distance below `1e18`, or -1 when there is none |
| TransportAssignment.GreedyWalk | aditya/acase10.cpp:159-170 | Each step goes to the nearest unused stop, and every stop is used at most once |
| TransportAssignment.BuildRouteForVehicle | aditya/acase10.cpp:138-175 | The route starts and ends at the depot, with the greedy walk over the shipments' stops in between |
| TransportAssignment.RouteVisitsAll | aditya/acase10.cpp:146-174 | When every stop is reachable, the interior of the route is a permutation of all pickups and deliveries |
| TransportAssignment.ShCompOrder | aditya/acase10.cpp:190-195 | `SHComp` is a strict weak order, as the heap needs |
| TransportAssignment.ShCompTies | aditya/acase10.cpp:190-195 | Two entries tie under `SHComp` exactly when priority and weight are both equal |
| TransportAssignment.HeapOrder | aditya/acase10.cpp:224-227 | The heap pops one entry per shipment, higher priority first and then heavier, and so a permutation of the shipment ids |
| TransportAssignment.CatalogFiles | aditya/acase10.cpp:225-226 | After the first loop every shipment's id is filed under one of the shipments with that id |
| TransportAssignment.CatalogLastWins | aditya/acase10.cpp:225-226 | A later shipment with the same id replaces an earlier one in the map |
| TransportAssignment.FileShipments | aditya/acase10.cpp:224-227 | The map after the first loop is the old map with every shipment filed under its id |
| TransportAssignment.EstimatedMarginalCostAppend | aditya/acase10.cpp:200-212 | How much longer the closed tour from the depot gets when pickup and delivery are appended; for an empty route, the whole new tour |
| TransportAssignment.ChooseVehicle | aditya/acase10.cpp:244-254 | -1 exactly when no vehicle with room has a marginal cost below `1e18`; otherwise the first vehicle of least marginal cost among those with room |
| TransportAssignment.ResetVehicles | aditya/acase10.cpp:230-234 | Every vehicle loses its shipments, load and route, and nothing else changes |
| TransportAssignment.TakeStep | aditya/acase10.cpp:259-267 | Assigning a shipment to a vehicle with room keeps load equal to the assigned weight within capacity, and adds the id once |
| TransportAssignment.BestVehicleUnique | aditya/acase10.cpp:244-254 | Only one vehicle is the first cheapest with room, so the scan's pick is determined |
| TransportAssignment.ChosenUnique | aditya/acase10.cpp:244-267 | A round of the heap loop has one outcome: the pick and the new fleet are determined by the fleet and the shipment |
| TransportAssignment.PlacementUnique | aditya/acase10.cpp:236-268 | The whole heap loop has one outcome: the rounds' fleets and picks are determined by the starting fleet and the queue |
| TransportAssignment.PlaceOne | aditya/acase10.cpp:238-267 | One round: the shipment goes to the first cheapest vehicle with room and a marginal cost below `1e18`, which takes its id, weight and stops; every other vehicle is unchanged. With no such vehicle, nothing changes |
| TransportAssignment.PlaceAll | aditya/acase10.cpp:236-268 | The rounds follow that rule in pop order (`PlacedUpTo`): each popped shipment goes to the vehicle `ChooseVehicle` picks, or to the end of `unassigned` exactly when there is none. Each id lands in exactly one place |
| TransportAssignment.RebuildRoutes | aditya/acase10.cpp:271-276 | Every route becomes the greedy route of its vehicle's shipments, improved as `twoOptLoop(route, distMat, 200)` improves it (`TwoOptResult` with limit 200); nothing else changes |
| TransportAssignment.AssignShipmentsToVehicles | aditya/acase10.cpp:215-277 | The shipments are filed and popped in `SHComp` order. The vehicles are reset, and the heap loop follows the first-cheapest rule round by round from the reset fleet (`Placement`), with `unassigned` gaining exactly the ids of the rounds that found no vehicle. Each id goes to exactly one vehicle or to `unassigned`. Each vehicle's load is the weight of its shipments, within capacity, and each route is the greedy route improved by 2-opt |
| TransportAssignment.UsedCountBounds | aditya/acase10.cpp:293-311 | No more vehicles are used than exist, nor than shipments are delivered |
| TransportAssignment.EvaluateSolution | aditya/acase10.cpp:293-311 | One count of the vehicles with shipments, one count of the shipments they carry, and 0 unassigned |

## Left out

- Console input and output are not modelled: every `main`, the `cin` menus and the printing. The selection rules inside `main` are modelled: triage and ambulance dispatch in `acase2.cpp`, priority routing in `acase4.cpp`, the alert steps in `acase7.cpp` and the top suspect in `acase6.cpp`. The sample graphs, items, shipments and zones are demo data.
- Machine-integer overflow near `INT_MAX`, `INF` or `1e18` is not modelled: integers are unbounded.
- Dijkstra.ShortestFrom: requires non-negative weights. With a negative cycle, the lazy-deletion loop of the source need not terminate.
- BusNetwork.Astar: the result is not claimed to be the shortest, because `abs(a - b)` is not an admissible heuristic.
- TrafficPaths.BellmanFord: the result is stated as bounded by every walk of at most n-1 edges (and by every finite walk when there is no warning), not as "equal to the shortest distance", which needs the absence of negative cycles.
- StringMatching.KmpSearch: requires a non-empty pattern. For an empty one the source reads `pat[0]`, which `std::string` defines as the terminating `'\0'`. The source then returns true at once for every non-empty text that does not start with `'\0'`. That case is not modelled.
- FloodMonitor.FloodFill: the grid is a rectangular `array2`. The source's ragged `vector<vector<int>>` is read with row 0's width.
- FloodMonitor.SelectionSort: `float` levels are exact reals.
- TransportAssignment: the `double` distances of `acase10.cpp` are integers, because the code only adds and compares them. The `1e-9` gain threshold becomes "gain > 0". Weights and capacities are reals.
- The cost, fuel and CO2 totals of `evaluateSolution`, and `computeDynamicPrice` in `acase8.cpp`, are floating-point arithmetic and are not modelled.
- `heapSort` in `acase8.cpp` is not modelled: its comparator `!comp(a, b)` is not a strict weak order, so the library leaves the result undefined.
- `std::priority_queue` is modelled by its pop order: every entry once, never one beaten by a later one. Tied entries come out in an order the model leaves open, as the library does.
- ParkingLots.FindNearestSlot: the heap is replaced by a scan for a nearest slot. Which of several equally near slots the heap returns is left open.
- ParkingLots.DisplayAvailableSlots: the order of slots at equal distance is left open, as `std::sort` leaves it.
- The order of `unordered_map` iteration is arbitrary: in `allItems`, `autocomplete` and `loadPriorityQueue`. Results are stated as sets or multisets.
- `new` without `delete` in the BST, AVL tree and trie is not modelled: the trees are datatypes.
- RouteTrie.Trie.Search, RouteTrie.Trie.Autocomplete: modelled as read-only. In `search` and in the prefix loop of `autocomplete`, the map `operator[]` adds a null child entry on a miss, which a later `autocomplete` would dereference.
- DynamicPricing.ItemCatalog.GetByName: requires the catalog invariant that every name refers to a stored id. `addOrUpdate` keeps that invariant, so the default item that `idMap[id]` would create never arises.
- `SimpleStack::size`, `SimpleQueue::size` and the price min-heap are not modelled; nothing in the pipeline uses them.
- TransportAssignment.BuildRouteForVehicle: `shipMap.at` throws on a missing id. It is modelled as a requirement that every shipment is filed, which the first loop of `assignShipmentsToVehicles` guarantees.
- TransportRoutes.TwoOptImprove: the route passed by reference is returned as a new value.
- ServiceCounters.AverageWaitingTime: returns the value that is printed, as an `Option`.
- WaterUsage.WaterTree.constructor: requires at least one zone, as `main` supplies. `buildST(1, 0, -1)` is not modelled.
- ServiceCounters: the counters are an array of counter values, and the heap is modelled by its pop order.
- ParkingLots.SmartParking: the global lot and vehicle map are class fields of type `seq` and `map`.
- `Satish/Central(case-1).cpp` is not part of this model.

## Findings

| source | as written | input that shows it | evidently intended | confidence | as-written member | corrected member |
|---|---|---|---|---|---|---|
| aditya/acase9.cpp:180-194 | `insertAVL` sends an equal key right, but the rotation tests compare the key strictly with the child's key, so an equal key takes no test | keys 5, 5, 5 leave a chain of height 3; keys 1, 1, 1, 1, 0 make `rightRotate` read through a null child; keys 5, 5, 6 put an equal key in a left subtree | an equal key takes the right-side tests, keeping the tree balanced | not executed | PollutionTree.EqualKeysCrash | PollutionTree.AddPollution |
| aditya/acase5.cpp:77-78 | the chosen slot is written back (and freed again at line 96) at index `slotNumber - 1` of its zone, but slot numbers run across the whole lot | the 2×3×5 lot of `main`: after five parkings, the sixth vehicle's slot is number 6, and index 5 of a five-slot zone is out of bounds | write at the slot's position within its zone | not executed | ParkingLots.SixthVehicleOutOfBounds | ParkingLots.SmartParking.ParkVehicle |
