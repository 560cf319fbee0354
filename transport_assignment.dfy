/**
 * The shipment planner of the goods transport program (acase10.cpp):
 * shipments are taken most urgent first (`SHComp`), each goes to the
 * vehicle with spare capacity whose route it lengthens least
 * (`estimatedMarginalCostAppend`) or is left unassigned, and every
 * vehicle's route is then rebuilt by nearest-neighbour from its depot
 * (`buildRouteForVehicle`) and improved by 2-opt; `evaluateSolution`
 * counts the vehicles used and the shipments delivered. Weights and
 * capacities are real numbers; distances are whole numbers, as in
 * `TransportRoutes`.
 */
module TransportAssignment {
  import opened Orderings
  import opened TransportRoutes
  import PriorityQueues
  import Reachability

  datatype Shipment = Shipment(id: int, pickup: int, delivery: int, weight: real, priority: int, readyTime: real)

  datatype Vehicle = Vehicle(
    id: int, depot: int, capacity: real, costPerKm: real, fuelPerKm: real,
    route: seq<int>, loadAssigned: real, assignedShipments: seq<int>)

  /** Both ends of the shipment are nodes of the matrix. */
  ghost predicate Located(s: Shipment, m: Matrix)
  {
    0 <= s.pickup < |m| && 0 <= s.delivery < |m|
  }

  /** Every id is in the map, and its shipment is located. */
  ghost predicate Known(ids: seq<int>, shipMap: map<int, Shipment>, m: Matrix)
  {
    forall k :: 0 <= k < |ids| ==> ids[k] in shipMap && Located(shipMap[ids[k]], m)
  }

  /** The nodes `buildRouteForVehicle` visits: the pickup and then the delivery of each shipment, in order. */
  ghost function Stops(ids: seq<int>, shipMap: map<int, Shipment>): seq<int>
    requires forall k :: 0 <= k < |ids| ==> ids[k] in shipMap
  {
    if ids == [] then []
    else Stops(ids[..|ids| - 1], shipMap) + [shipMap[ids[|ids| - 1]].pickup, shipMap[ids[|ids| - 1]].delivery]
  }

  lemma {:induction false} StopsOnMatrix(ids: seq<int>, shipMap: map<int, Shipment>, m: Matrix)
    requires Known(ids, shipMap, m)
    ensures |Stops(ids, shipMap)| == 2 * |ids| && OnMatrix(Stops(ids, shipMap), m)
    decreases |ids|
  {
    if ids != [] {
      StopsOnMatrix(ids[..|ids| - 1], shipMap, m);
    }
  }

  /** Which stops the indices in `order` have used up. */
  ghost function UsedBy(order: seq<int>, n: int): seq<bool>
  {
    seq(if n < 0 then 0 else n, i => i in order)
  }

  /**
   * Stop `b` is the one the inner scan picks from `current`: unused, closer
   * than `1e18`, no unused stop closer, and every earlier unused stop
   * farther.
   */
  ghost predicate NearestStop(m: Matrix, nodes: seq<int>, used: seq<bool>, current: int, b: int)
    requires |used| == |nodes|
  {
    && 0 <= b < |nodes| && !used[b] && Dist(m, current, nodes[b]) < Inf
    && forall i :: 0 <= i < |nodes| && !used[i] ==>
         Dist(m, current, nodes[b]) <= Dist(m, current, nodes[i])
         && (i < b ==> Dist(m, current, nodes[b]) < Dist(m, current, nodes[i]))
  }

  /** The inner loop of `buildRouteForVehicle`: the first unused stop of least distance below `1e18`, or -1. */
  method NearestUnused(m: Matrix, nodes: seq<int>, used: seq<bool>, current: int) returns (bestIdx: int)
    requires IsMatrix(m) && OnMatrix(nodes, m) && 0 <= current < |m| && |used| == |nodes|
    ensures bestIdx == -1 <==> forall i :: 0 <= i < |nodes| && !used[i] ==> Dist(m, current, nodes[i]) >= Inf
    ensures bestIdx != -1 ==> NearestStop(m, nodes, used, current, bestIdx)
  {
    var bestD := Inf;
    bestIdx := -1;
    var i := 0;
    while i < |nodes|
      invariant 0 <= i <= |nodes|
      invariant bestIdx == -1 ==> bestD == Inf
      invariant bestIdx != -1 ==> 0 <= bestIdx < i && !used[bestIdx] && bestD == Dist(m, current, nodes[bestIdx]) < Inf
      invariant forall k :: 0 <= k < i && !used[k] ==>
        bestD <= Dist(m, current, nodes[k]) && (k < bestIdx ==> bestD < Dist(m, current, nodes[k]))
    {
      if !used[i] {
        var d := m[current][nodes[i]];
        if d < bestD {
          bestD, bestIdx := d, i;
        }
      }
      i := i + 1;
    }
  }

  /** The stops not yet used. */
  ghost function Unused(nodes: seq<int>, used: seq<bool>): multiset<int>
    requires |used| == |nodes|
  {
    if nodes == [] then multiset{}
    else Unused(nodes[..|nodes| - 1], used[..|used| - 1])
         + (if used[|used| - 1] then multiset{} else multiset{nodes[|nodes| - 1]})
  }

  lemma {:induction false} UnusedMark(nodes: seq<int>, used: seq<bool>, b: int)
    requires |used| == |nodes| && 0 <= b < |nodes| && !used[b]
    ensures Unused(nodes, used) == Unused(nodes, used[b := true]) + multiset{nodes[b]}
    decreases |nodes|
  {
    var n := |nodes|;
    var used' := used[b := true];
    var front, uFront, uFront' := nodes[..n - 1], used[..n - 1], used'[..n - 1];
    assert Unused(nodes, used) == Unused(front, uFront) + (if used[n - 1] then multiset{} else multiset{nodes[n - 1]});
    assert Unused(nodes, used') == Unused(front, uFront') + (if used'[n - 1] then multiset{} else multiset{nodes[n - 1]});
    if b < n - 1 {
      assert uFront' == uFront[b := true];
      UnusedMark(front, uFront, b);
      assert front[b] == nodes[b];
      BagShift(Unused(front, uFront), Unused(front, uFront'), if used[n - 1] then multiset{} else multiset{nodes[n - 1]}, nodes[b]);
    } else {
      assert uFront' == uFront;
    }
  }

  lemma BagShift(a: multiset<int>, a': multiset<int>, t: multiset<int>, x: int)
    requires a == a' + multiset{x}
    ensures a + t == (a' + t) + multiset{x}
  {
  }

  lemma {:induction false} UnusedFresh(nodes: seq<int>)
    ensures Unused(nodes, seq(|nodes|, i => false)) == multiset(nodes)
    decreases |nodes|
  {
    if nodes != [] {
      var n := |nodes|;
      assert seq(n, i => false)[..n - 1] == seq(n - 1, i => false);
      UnusedFresh(nodes[..n - 1]);
      assert nodes == nodes[..n - 1] + [nodes[n - 1]];
    }
  }

  lemma {:induction false} UnusedHas(nodes: seq<int>, used: seq<bool>)
    requires |used| == |nodes| && |Unused(nodes, used)| > 0
    ensures exists i :: 0 <= i < |nodes| && !used[i]
    decreases |nodes|
  {
    var n := |nodes|;
    if !used[n - 1] {
      assert !used[n - 1];
    } else {
      UnusedHas(nodes[..n - 1], used[..n - 1]);
      var i :| 0 <= i < n - 1 && !used[..n - 1][i];
      assert !used[i];
    }
  }

  /** What the outer loop of `buildRouteForVehicle` keeps. */
  ghost predicate Greedy(m: Matrix, nodes: seq<int>, depot: int, route: seq<int>, order: seq<int>)
  {
    && |route| == |order| + 1 && route[0] == depot
    && (forall k :: 0 <= k < |order| ==> 0 <= order[k] < |nodes| && route[k + 1] == nodes[order[k]])
    && (forall k, l :: 0 <= k < l < |order| ==> order[k] != order[l])
    && (forall k :: 0 <= k < |order| ==> NearestStop(m, nodes, UsedBy(order[..k], |nodes|), route[k], order[k]))
  }

  lemma GreedyStep(m: Matrix, nodes: seq<int>, depot: int, route: seq<int>, order: seq<int>, b: int)
    requires Greedy(m, nodes, depot, route, order)
    requires NearestStop(m, nodes, UsedBy(order, |nodes|), route[|route| - 1], b)
    ensures Greedy(m, nodes, depot, route + [nodes[b]], order + [b])
  {
    GreedyNearest(m, nodes, depot, route, order, b);
    GreedyDistinct(order, b);
    var order', route' := order + [b], route + [nodes[b]];
    forall k | 0 <= k < |order'| ensures 0 <= order'[k] < |nodes| && route'[k + 1] == nodes[order'[k]] {
      if k < |order| {
        assert order'[k] == order[k] && route'[k + 1] == route[k + 1];
      }
    }
  }

  lemma GreedyNearest(m: Matrix, nodes: seq<int>, depot: int, route: seq<int>, order: seq<int>, b: int)
    requires |route| == |order| + 1
    requires forall k :: 0 <= k < |order| ==> NearestStop(m, nodes, UsedBy(order[..k], |nodes|), route[k], order[k])
    requires NearestStop(m, nodes, UsedBy(order, |nodes|), route[|route| - 1], b)
    ensures forall k :: 0 <= k < |order| + 1 ==>
      NearestStop(m, nodes, UsedBy((order + [b])[..k], |nodes|), (route + [nodes[b]])[k], (order + [b])[k])
  {
    var order', route' := order + [b], route + [nodes[b]];
    forall k | 0 <= k < |order'| ensures NearestStop(m, nodes, UsedBy(order'[..k], |nodes|), route'[k], order'[k]) {
      if k < |order| {
        assert order'[..k] == order[..k] && route'[k] == route[k] && order'[k] == order[k];
      } else {
        assert order'[..k] == order && route'[k] == route[|route| - 1];
      }
    }
  }

  lemma GreedyDistinct(order: seq<int>, b: int)
    requires forall k, l :: 0 <= k < l < |order| ==> order[k] != order[l]
    requires b !in order
    ensures forall k, l :: 0 <= k < l < |order| + 1 ==> (order + [b])[k] != (order + [b])[l]
  {
    var order' := order + [b];
    forall k, l | 0 <= k < l < |order'| ensures order'[k] != order'[l] {
      if l == |order| {
        assert order[k] in order;
      } else {
        assert order'[k] == order[k] && order'[l] == order[l];
      }
    }
  }

  /** The first loop of `buildRouteForVehicle`: the pickup and delivery of each shipment. */
  method CollectStops(shipmentIds: seq<int>, shipMap: map<int, Shipment>) returns (nodes: seq<int>)
    requires forall k :: 0 <= k < |shipmentIds| ==> shipmentIds[k] in shipMap
    ensures nodes == Stops(shipmentIds, shipMap)
  {
    nodes := [];
    var k := 0;
    while k < |shipmentIds|
      invariant 0 <= k <= |shipmentIds| && nodes == Stops(shipmentIds[..k], shipMap)
    {
      assert shipmentIds[..k + 1][..k] == shipmentIds[..k];
      var s := shipMap[shipmentIds[k]];
      nodes := nodes + [s.pickup, s.delivery];
      k := k + 1;
    }
    assert shipmentIds[..k] == shipmentIds;
  }

  lemma {:induction false} UnusedNone(nodes: seq<int>, used: seq<bool>)
    requires |used| == |nodes| && forall i :: 0 <= i < |used| ==> used[i]
    ensures Unused(nodes, used) == multiset{}
    decreases |nodes|
  {
    if nodes != [] {
      UnusedNone(nodes[..|nodes| - 1], used[..|used| - 1]);
    }
  }

  /** With every distance below `1e18`, no stop is out of reach of the scan. */
  lemma NoneLeft(m: Matrix, nodes: seq<int>, used: seq<bool>, current: int)
    requires |used| == |nodes| && 0 <= current < |m| && OnMatrix(nodes, m) && IsMatrix(m)
    requires AllReachable(m)
    requires forall i :: 0 <= i < |nodes| && !used[i] ==> Dist(m, current, nodes[i]) >= Inf
    ensures Unused(nodes, used) == multiset{}
  {
    assert forall i :: 0 <= i < |nodes| ==> Dist(m, current, nodes[i]) < Inf;
    UnusedNone(nodes, used);
  }

  /** What the greedy loop of `buildRouteForVehicle` keeps. */
  ghost predicate WalkInv(m: Matrix, nodes: seq<int>, depot: int, route: seq<int>, order: seq<int>, used: seq<bool>)
  {
    && |order| <= |nodes| && used == UsedBy(order, |nodes|)
    && Greedy(m, nodes, depot, route, order) && OnMatrix(route, m)
    && multiset(route[1..]) + Unused(nodes, used) == multiset(nodes)
  }

  lemma UsedByAdd(order: seq<int>, n: int, b: int)
    requires 0 <= b < n
    ensures UsedBy(order, n)[b := true] == UsedBy(order + [b], n)
  {
  }

  lemma WalkTally(nodes: seq<int>, route: seq<int>, used: seq<bool>, b: int)
    requires |used| == |nodes| && 0 <= b < |nodes| && !used[b] && |route| >= 1
    requires multiset(route[1..]) + Unused(nodes, used) == multiset(nodes)
    ensures multiset((route + [nodes[b]])[1..]) + Unused(nodes, used[b := true]) == multiset(nodes)
  {
    UnusedMark(nodes, used, b);
    assert (route + [nodes[b]])[1..] == route[1..] + [nodes[b]];
  }

  lemma OnMatrixAppend(r: seq<int>, x: int, m: Matrix)
    requires OnMatrix(r, m) && 0 <= x < |m|
    ensures OnMatrix(r + [x], m)
  {
    forall k | 0 <= k < |r| + 1 ensures 0 <= (r + [x])[k] < |m| {
      if k < |r| {
        assert (r + [x])[k] == r[k];
      }
    }
  }

  lemma WalkStep(m: Matrix, nodes: seq<int>, depot: int, route: seq<int>, order: seq<int>, used: seq<bool>, b: int,
                  route': seq<int>, order': seq<int>, used': seq<bool>)
    requires IsMatrix(m) && OnMatrix(nodes, m) && WalkInv(m, nodes, depot, route, order, used)
    requires NearestStop(m, nodes, used, route[|route| - 1], b)
    requires route' == route + [nodes[b]] && order' == order + [b] && used' == used[b := true]
    ensures WalkInv(m, nodes, depot, route', order', used')
  {
    assert 0 <= nodes[b] < |m|;
    GreedyStep(m, nodes, depot, route, order, b);
    WalkTally(nodes, route, used, b);
    UsedByAdd(order, |nodes|, b);
    OnMatrixAppend(route, nodes[b], m);
    assert |order + [b]| <= |nodes| by {
      Reachability.DistinctCount(order + [b], |nodes|);
    }
  }

  /** Every distance is below `1e18`: every node reaches every other. */
  ghost predicate AllReachable(m: Matrix)
  {
    IsMatrix(m) && forall u, v :: 0 <= u < |m| && 0 <= v < |m| ==> m[u][v] < Inf
  }

  /**
   * `walk` is the greedy walk from `depot` over `nodes`: each step to the
   * first nearest unused stop, each stop at most once, stopping early only
   * with every unused stop `1e18` or more away, and so visiting every stop
   * when all distances are below `1e18`.
   */
  ghost predicate Walked(m: Matrix, nodes: seq<int>, depot: int, walk: seq<int>, order: seq<int>)
  {
    && Greedy(m, nodes, depot, walk, order) && OnMatrix(walk, m)
    && multiset(walk[1..]) <= multiset(nodes)
    && (|order| < |nodes| ==>
          forall i :: 0 <= i < |nodes| && i !in order ==> Dist(m, walk[|walk| - 1], nodes[i]) >= Inf)
    && (AllReachable(m) ==> multiset(walk[1..]) == multiset(nodes))
  }

  /** The greedy loop of `buildRouteForVehicle`, up to the return to the depot. */
  method GreedyWalk(m: Matrix, nodes: seq<int>, depot: int) returns (route: seq<int>, ghost order: seq<int>)
    requires IsMatrix(m) && 0 <= depot < |m| && OnMatrix(nodes, m)
    ensures Walked(m, nodes, depot, route, order)
  {
    route := [depot];
    var used := seq(|nodes|, i => false);
    var current := depot;
    order := [];
    assert used == UsedBy(order, |nodes|);
    UnusedFresh(nodes);
    var step := 0;
    while step < |nodes|
      invariant WalkInv(m, nodes, depot, route, order, used)
      invariant step == |order| && current == route[|route| - 1]
    {
      var b := NearestUnused(m, nodes, used, current);
      if b == -1 {
        WalkStopped(m, nodes, depot, route, order, used);
        return;
      }
      var route', used' := route + [nodes[b]], used[b := true];
      ghost var order' := order + [b];
      WalkStep(m, nodes, depot, route, order, used, b, route', order', used');
      used, route, order := used', route', order';
      current := nodes[b];
      step := step + 1;
    }
    WalkFinished(m, nodes, depot, route, order, used);
  }

  /** The scan found no stop below `1e18`: the walk so far is the greedy walk. */
  lemma WalkStopped(m: Matrix, nodes: seq<int>, depot: int, route: seq<int>, order: seq<int>, used: seq<bool>)
    requires IsMatrix(m) && OnMatrix(nodes, m) && WalkInv(m, nodes, depot, route, order, used)
    requires forall i :: 0 <= i < |nodes| && !used[i] ==> Dist(m, route[|route| - 1], nodes[i]) >= Inf
    ensures Walked(m, nodes, depot, route, order)
  {
    assert 0 <= route[|route| - 1] < |m|;
    if AllReachable(m) {
      NoneLeft(m, nodes, used, route[|route| - 1]);
    }
    forall i | 0 <= i < |nodes| && i !in order ensures Dist(m, route[|route| - 1], nodes[i]) >= Inf {
      assert !used[i];
    }
  }

  /** Every stop was visited: the walk is the greedy walk. */
  lemma WalkFinished(m: Matrix, nodes: seq<int>, depot: int, route: seq<int>, order: seq<int>, used: seq<bool>)
    requires WalkInv(m, nodes, depot, route, order, used) && |order| == |nodes|
    ensures Walked(m, nodes, depot, route, order)
  {
    assert |route[1..]| == |order|;
    BagFull(multiset(route[1..]), Unused(nodes, used), multiset(nodes));
  }

  lemma BagFull(x: multiset<int>, u: multiset<int>, n: multiset<int>)
    requires x + u == n && |x| == |n|
    ensures x == n
  {
    assert |u| == 0;
  }

  /**
   * `buildRouteForVehicle(veh, shipmentIds, shipMap, distMat)`: the route
   * starts and ends at the depot, and in between is the greedy walk from
   * the depot over the stops of the shipments (pickups and deliveries).
   */
  method BuildRouteForVehicle(veh: Vehicle, shipmentIds: seq<int>, shipMap: map<int, Shipment>, m: Matrix)
    returns (route: seq<int>, ghost order: seq<int>)
    requires IsMatrix(m) && 0 <= veh.depot < |m| && Known(shipmentIds, shipMap, m)
    ensures |route| >= 2 && route[0] == veh.depot && route[|route| - 1] == veh.depot && OnMatrix(route, m)
    ensures Walked(m, Stops(shipmentIds, shipMap), veh.depot, route[..|route| - 1], order)
  {
    var nodes := CollectStops(shipmentIds, shipMap);
    StopsOnMatrix(shipmentIds, shipMap, m);
    var walk;
    walk, order := GreedyWalk(m, nodes, veh.depot);
    route := walk + [veh.depot];
    assert route[..|route| - 1] == walk;
    OnMatrixAppend(walk, veh.depot, m);
  }

  /** In a route whose stops are all reachable, the stops between the depots are those of the shipments. */
  lemma RouteVisitsAll(veh: Vehicle, shipmentIds: seq<int>, shipMap: map<int, Shipment>, m: Matrix, route: seq<int>, order: seq<int>)
    requires forall k :: 0 <= k < |shipmentIds| ==> shipmentIds[k] in shipMap
    requires |route| >= 2 && Walked(m, Stops(shipmentIds, shipMap), veh.depot, route[..|route| - 1], order)
    requires AllReachable(m)
    ensures multiset(route[1..|route| - 1]) == multiset(Stops(shipmentIds, shipMap))
  {
    assert route[1..|route| - 1] == route[..|route| - 1][1..];
  }

  /* ---------------- the shipment heap ---------------- */

  /** An entry of the shipment heap. */
  datatype HeapItem = HeapItem(sid: int, priority: int, weight: real)

  /** `SHComp(a, b)`: `a` leaves the heap after `b` — lower priority, or the same priority and lighter. */
  predicate ShComp(a: HeapItem, b: HeapItem)
  {
    if a.priority != b.priority then a.priority < b.priority else a.weight < b.weight
  }

  /** `SHComp` is a strict weak ordering, as `std::priority_queue` needs. */
  lemma ShCompOrder()
    ensures StrictWeakOrder(ShComp)
  {
  }

  /** Two entries are tied under `SHComp` exactly when priority and weight are both equal. */
  lemma ShCompTies(a: HeapItem, b: HeapItem)
    ensures !ShComp(a, b) && !ShComp(b, a) <==> a.priority == b.priority && a.weight == b.weight
  {
  }

  /** The heap's contents after the first loop: one entry per shipment. */
  function Items(shipments: seq<Shipment>): (r: seq<HeapItem>)
    ensures |r| == |shipments|
    ensures forall k :: 0 <= k < |r| ==>
      r[k] == HeapItem(shipments[k].id, shipments[k].priority, shipments[k].weight)
  {
    seq(|shipments|, k requires 0 <= k < |shipments| => HeapItem(shipments[k].id, shipments[k].priority, shipments[k].weight))
  }

  /** The ids of the entries, in order. */
  function Sids(items: seq<HeapItem>): (r: seq<int>)
    ensures |r| == |items|
  {
    if items == [] then [] else Sids(items[..|items| - 1]) + [items[|items| - 1].sid]
  }

  lemma {:induction false} SidsAt(items: seq<HeapItem>)
    ensures forall k :: 0 <= k < |items| ==> Sids(items)[k] == items[k].sid
    decreases |items|
  {
    if items != [] {
      SidsAt(items[..|items| - 1]);
    }
  }

  lemma {:induction false} SidsAppend(p: seq<HeapItem>, q: seq<HeapItem>)
    ensures Sids(p + q) == Sids(p) + Sids(q)
    decreases |q|
  {
    if q != [] {
      var n := |q|;
      assert (p + q)[..|p + q| - 1] == p + q[..n - 1];
      SidsAppend(p, q[..n - 1]);
    } else {
      assert p + q == p;
    }
  }

  function Ids(shipments: seq<Shipment>): (r: seq<int>)
    ensures |r| == |shipments| && forall k :: 0 <= k < |shipments| ==> r[k] == shipments[k].id
  {
    seq(|shipments|, k requires 0 <= k < |shipments| => shipments[k].id)
  }

  lemma SidsSplit(b1: seq<HeapItem>, x: HeapItem, b2: seq<HeapItem>)
    ensures multiset(Sids(b1 + ([x] + b2))) == multiset(Sids(b1 + b2)) + multiset{x.sid}
  {
    SidsAppend(b1, [x] + b2);
    SidsAppend([x], b2);
    SidsAppend(b1, b2);
    assert Sids([x]) == [x.sid];
  }

  lemma RemoveAt(b: seq<HeapItem>, j: int)
    requires 0 <= j < |b|
    ensures b == b[..j] + ([b[j]] + b[j + 1..])
    ensures multiset(b[..j] + b[j + 1..]) == multiset(b) - multiset{b[j]}
  {
    assert b == b[..j] + ([b[j]] + b[j + 1..]);
  }

  /** Reordering the entries reorders their ids. */
  lemma {:induction false} SidsPerm(a: seq<HeapItem>, b: seq<HeapItem>)
    requires multiset(a) == multiset(b)
    ensures multiset(Sids(a)) == multiset(Sids(b))
    decreases |a|
  {
    if a != [] {
      var n := |a|;
      var x := a[n - 1];
      assert x in multiset(b);
      var j :| 0 <= j < |b| && b[j] == x;
      RemoveAt(b, j);
      var a' := a[..n - 1];
      assert a == a' + [x];
      assert multiset(a') == multiset(a) - multiset{x};
      SidsPerm(a', b[..j] + b[j + 1..]);
      SidsSplit(b[..j], x, b[j + 1..]);
      assert Sids(a) == Sids(a') + [x.sid];
    } else {
      assert |b| == |multiset(b)| == 0;
    }
  }

  /** In `order`, priorities never rise, and within a priority weights never rise. */
  ghost predicate UrgentFirst(order: seq<HeapItem>)
  {
    forall i, j :: 0 <= i < j < |order| ==>
      order[i].priority > order[j].priority
      || (order[i].priority == order[j].priority && order[i].weight >= order[j].weight)
  }

  /**
   * The pop order of the heap: the entries of all shipments, most urgent
   * first, heavier first within a priority (ties between equal entries in
   * an order the heap leaves open).
   */
  method HeapOrder(shipments: seq<Shipment>) returns (order: seq<HeapItem>)
    ensures multiset(order) == multiset(Items(shipments))
    ensures UrgentFirst(order)
    ensures multiset(Sids(order)) == multiset(Ids(shipments))
  {
    ShCompOrder();
    order := PriorityQueues.Drain(Items(shipments), ShComp);
    forall i, j | 0 <= i < j < |order|
      ensures order[i].priority > order[j].priority
        || (order[i].priority == order[j].priority && order[i].weight >= order[j].weight)
    {
      assert !ShComp(order[i], order[j]);
    }
    SidsPerm(order, Items(shipments));
    SidsAt(Items(shipments));
    assert Sids(Items(shipments)) == Ids(shipments);
  }

  /* ---------------- the shipment map ---------------- */

  /** `shipMap` after the first loop: every shipment filed under its id, a later one replacing an earlier. */
  ghost function Catalog(shipMap: map<int, Shipment>, shipments: seq<Shipment>): map<int, Shipment>
    decreases |shipments|
  {
    if shipments == [] then shipMap
    else
      var n := |shipments|;
      Catalog(shipMap, shipments[..n - 1])[shipments[n - 1].id := shipments[n - 1]]
  }

  /** Every shipment's id is filed, under one of the shipments. */
  lemma {:induction false} CatalogFiles(shipMap: map<int, Shipment>, shipments: seq<Shipment>)
    ensures forall k :: 0 <= k < |shipments| ==>
      shipments[k].id in Catalog(shipMap, shipments) && Catalog(shipMap, shipments)[shipments[k].id] in shipments
    decreases |shipments|
  {
    if shipments != [] {
      var n := |shipments|;
      var init := shipments[..n - 1];
      CatalogFiles(shipMap, init);
      var c, c' := Catalog(shipMap, init), Catalog(shipMap, shipments);
      forall k | 0 <= k < n ensures shipments[k].id in c' && c'[shipments[k].id] in shipments {
        if k < n - 1 && shipments[k].id != shipments[n - 1].id {
          assert init[k] == shipments[k];
          assert c'[shipments[k].id] == c[init[k].id];
          assert c[init[k].id] in init;
        }
      }
    }
  }

  /** A shipment whose id no later shipment has is the one filed under it. */
  lemma {:induction false} CatalogLastWins(shipMap: map<int, Shipment>, shipments: seq<Shipment>, k: int)
    requires 0 <= k < |shipments| && forall l :: k < l < |shipments| ==> shipments[l].id != shipments[k].id
    ensures shipments[k].id in Catalog(shipMap, shipments) && Catalog(shipMap, shipments)[shipments[k].id] == shipments[k]
    decreases |shipments|
  {
    var n := |shipments|;
    var init := shipments[..n - 1];
    if k < n - 1 {
      assert init[k] == shipments[k];
      assert forall l :: k < l < n - 1 ==> init[l].id != init[k].id;
      CatalogLastWins(shipMap, init, k);
    }
  }

  /** An id no shipment has keeps its old entry, or stays absent. */
  lemma {:induction false} CatalogElse(shipMap: map<int, Shipment>, shipments: seq<Shipment>, id: int)
    requires id !in Ids(shipments)
    ensures id in Catalog(shipMap, shipments) <==> id in shipMap
    ensures id in shipMap ==> Catalog(shipMap, shipments)[id] == shipMap[id]
    decreases |shipments|
  {
    if shipments != [] {
      var n := |shipments|;
      var init := shipments[..n - 1];
      assert id != Ids(shipments)[n - 1];
      assert Ids(init) == Ids(shipments)[..n - 1];
      CatalogElse(shipMap, init, id);
    }
  }

  /** After the first loop every popped id is filed, under a located shipment. */
  lemma OrderFiled(order: seq<HeapItem>, shipments: seq<Shipment>, shipMap: map<int, Shipment>, m: Matrix)
    requires multiset(order) == multiset(Items(shipments))
    requires forall k :: 0 <= k < |shipments| ==> Located(shipments[k], m)
    ensures forall k :: 0 <= k < |order| ==>
      order[k].sid in Catalog(shipMap, shipments) && Located(Catalog(shipMap, shipments)[order[k].sid], m)
  {
    forall k | 0 <= k < |order|
      ensures order[k].sid in Catalog(shipMap, shipments) && Located(Catalog(shipMap, shipments)[order[k].sid], m)
    {
      var items := Items(shipments);
      assert order[k] in multiset(order);
      assert order[k] in items;
      var j :| 0 <= j < |items| && items[j] == order[k];
      FiledLocated(shipMap, shipments, m, j);
    }
  }

  /** The shipment filed under the id of shipment `j` is located. */
  lemma FiledLocated(shipMap: map<int, Shipment>, shipments: seq<Shipment>, m: Matrix, j: int)
    requires 0 <= j < |shipments| && forall k :: 0 <= k < |shipments| ==> Located(shipments[k], m)
    ensures shipments[j].id in Catalog(shipMap, shipments) && Located(Catalog(shipMap, shipments)[shipments[j].id], m)
  {
    CatalogFiles(shipMap, shipments);
    var c := Catalog(shipMap, shipments)[shipments[j].id];
    var l :| 0 <= l < |shipments| && shipments[l] == c;
  }

  /* ---------------- choosing a vehicle ---------------- */

  /** The length of the closed tour from the depot through `route` and back. */
  ghost function Tour(depot: int, route: seq<int>, m: Matrix): int
  {
    PathLength([depot] + route + [depot], m)
  }

  /** The vehicle's depot and route are nodes of the matrix. */
  ghost predicate Placed(v: Vehicle, m: Matrix)
  {
    0 <= v.depot < |m| && OnMatrix(v.route, m)
  }

  /**
   * `estimatedMarginalCostAppend(veh, s, distMat)`: how much longer the
   * vehicle's closed tour gets when the pickup and delivery are appended to
   * its route; for an empty route, the whole tour to the pickup, the
   * delivery and back.
   */
  function EstimatedMarginalCostAppend(veh: Vehicle, s: Shipment, m: Matrix): (r: int)
    requires IsMatrix(m) && Placed(veh, m) && Located(s, m)
    ensures veh.route != [] ==> r == Tour(veh.depot, veh.route + [s.pickup, s.delivery], m) - Tour(veh.depot, veh.route, m)
    ensures veh.route == [] ==> r == Tour(veh.depot, [s.pickup, s.delivery], m)
  {
    var depot, p, d := veh.depot, s.pickup, s.delivery;
    var last := if veh.route == [] then depot else veh.route[|veh.route| - 1];
    MarginalTour(depot, veh.route, p, d, m);
    assert veh.route == [] ==> veh.route + [p, d] == [p, d];
    var lastToDepot := if veh.route == [] then 0 else m[last][depot];
    var costNew := m[last][p] + m[p][d] + m[d][depot];
    costNew - lastToDepot
  }

  lemma MarginalTour(depot: int, route: seq<int>, p: int, d: int, m: Matrix)
    requires IsMatrix(m) && 0 <= depot < |m| && OnMatrix(route, m) && 0 <= p < |m| && 0 <= d < |m|
    ensures var last := if route == [] then depot else route[|route| - 1];
      && Tour(depot, route + [p, d], m) == PathLength([depot] + route, m) + m[last][p] + m[p][d] + m[d][depot]
      && Tour(depot, route, m) == PathLength([depot] + route, m) + m[last][depot]
      && (route == [] ==> PathLength([depot] + route, m) == 0)
  {
    var a := [depot] + route;
    var last := if route == [] then depot else route[|route| - 1];
    assert a[|a| - 1] == last;
    assert 0 <= last < |m|;
    TourExtended(depot, route, p, d, m);
    TourClosed(depot, route, m);
    assert route == [] ==> a == [depot];
  }

  lemma TourExtended(depot: int, route: seq<int>, p: int, d: int, m: Matrix)
    ensures Tour(depot, route + [p, d], m) ==
      PathLength([depot] + route, m) + Dist(m, ([depot] + route)[|route|], p) + Dist(m, p, d) + Dist(m, d, depot)
  {
    var a := [depot] + route;
    assert [depot] + (route + [p, d]) + [depot] == a + [p, d, depot];
    PathAppend(a, [p, d, depot], m);
    PathThree(p, d, depot, m);
  }

  lemma PathThree(p: int, d: int, e: int, m: Matrix)
    ensures PathLength([p, d, e], m) == Dist(m, p, d) + Dist(m, d, e)
  {
    assert [p, d, e][..2] == [p, d] && [p, d][..1] == [p];
    assert PathLength([p], m) == 0;
    assert PathLength([p, d], m) == Dist(m, p, d);
  }

  lemma TourClosed(depot: int, route: seq<int>, m: Matrix)
    ensures Tour(depot, route, m) == PathLength([depot] + route, m) + Dist(m, ([depot] + route)[|route|], depot)
  {
    var a := [depot] + route;
    assert [depot] + route + [depot] == a + [depot];
    PathAppend(a, [depot], m);
  }

  /** The vehicle has room for the shipment. */
  predicate Fits(v: Vehicle, s: Shipment)
  {
    v.loadAssigned + s.weight <= v.capacity
  }

  ghost predicate AllPlaced(vs: seq<Vehicle>, m: Matrix)
  {
    forall i :: 0 <= i < |vs| ==> Placed(vs[i], m)
  }

  /**
   * Vehicle `vid` is the scan's pick: it has room, a marginal cost below
   * `1e18`, no vehicle with room is cheaper, and every earlier one with
   * room is dearer.
   */
  ghost predicate BestVehicle(vs: seq<Vehicle>, s: Shipment, m: Matrix, vid: int)
    requires IsMatrix(m) && AllPlaced(vs, m) && Located(s, m)
  {
    && 0 <= vid < |vs| && Fits(vs[vid], s) && EstimatedMarginalCostAppend(vs[vid], s, m) < Inf
    && forall i :: 0 <= i < |vs| && Fits(vs[i], s) ==>
         EstimatedMarginalCostAppend(vs[vid], s, m) <= EstimatedMarginalCostAppend(vs[i], s, m)
         && (i < vid ==> EstimatedMarginalCostAppend(vs[vid], s, m) < EstimatedMarginalCostAppend(vs[i], s, m))
  }

  /** The vehicle scan of `assignShipmentsToVehicles`: the first cheapest vehicle with room, or -1. */
  method ChooseVehicle(vs: seq<Vehicle>, s: Shipment, m: Matrix) returns (bestVid: int)
    requires IsMatrix(m) && AllPlaced(vs, m) && Located(s, m)
    ensures bestVid == -1 <==> forall i :: 0 <= i < |vs| && Fits(vs[i], s) ==> EstimatedMarginalCostAppend(vs[i], s, m) >= Inf
    ensures bestVid != -1 ==> BestVehicle(vs, s, m, bestVid)
  {
    var bestCost := Inf;
    bestVid := -1;
    var vid := 0;
    while vid < |vs|
      invariant Scanned(vs, s, m, vid, bestVid, bestCost)
    {
      if vs[vid].loadAssigned + s.weight <= vs[vid].capacity {
        var marginal := EstimatedMarginalCostAppend(vs[vid], s, m);
        if marginal < bestCost {
          ScanTake(vs, s, m, vid, bestVid, bestCost);
          bestCost, bestVid := marginal, vid;
        } else {
          ScanKeep(vs, s, m, vid, bestVid, bestCost);
        }
      } else {
        ScanKeep(vs, s, m, vid, bestVid, bestCost);
      }
      vid := vid + 1;
    }
    ScanDone(vs, s, m, bestVid, bestCost);
  }

  /**
   * What the vehicle scan keeps after `vid` vehicles: `bestVid` is -1 with
   * cost `1e18`, or an earlier vehicle with room at cost `bestCost`; no
   * vehicle seen is cheaper, and the ones before `bestVid` are dearer.
   */
  ghost predicate Scanned(vs: seq<Vehicle>, s: Shipment, m: Matrix, vid: int, bestVid: int, bestCost: int)
    requires IsMatrix(m) && AllPlaced(vs, m) && Located(s, m)
  {
    && 0 <= vid <= |vs|
    && (bestVid == -1 ==> bestCost == Inf)
    && (bestVid != -1 ==>
          0 <= bestVid < vid && Fits(vs[bestVid], s) && bestCost == EstimatedMarginalCostAppend(vs[bestVid], s, m) < Inf)
    && forall k :: 0 <= k < vid && Fits(vs[k], s) ==>
         bestCost <= EstimatedMarginalCostAppend(vs[k], s, m) && (k < bestVid ==> bestCost < EstimatedMarginalCostAppend(vs[k], s, m))
  }

  lemma ScanTake(vs: seq<Vehicle>, s: Shipment, m: Matrix, vid: int, bestVid: int, bestCost: int)
    requires IsMatrix(m) && AllPlaced(vs, m) && Located(s, m)
    requires Scanned(vs, s, m, vid, bestVid, bestCost) && vid < |vs|
    requires Fits(vs[vid], s) && EstimatedMarginalCostAppend(vs[vid], s, m) < bestCost
    ensures Scanned(vs, s, m, vid + 1, vid, EstimatedMarginalCostAppend(vs[vid], s, m))
  {
  }

  lemma ScanKeep(vs: seq<Vehicle>, s: Shipment, m: Matrix, vid: int, bestVid: int, bestCost: int)
    requires IsMatrix(m) && AllPlaced(vs, m) && Located(s, m)
    requires Scanned(vs, s, m, vid, bestVid, bestCost) && vid < |vs|
    requires Fits(vs[vid], s) ==> EstimatedMarginalCostAppend(vs[vid], s, m) >= bestCost
    ensures Scanned(vs, s, m, vid + 1, bestVid, bestCost)
  {
  }

  lemma ScanDone(vs: seq<Vehicle>, s: Shipment, m: Matrix, bestVid: int, bestCost: int)
    requires IsMatrix(m) && AllPlaced(vs, m) && Located(s, m)
    requires Scanned(vs, s, m, |vs|, bestVid, bestCost)
    ensures bestVid == -1 <==> forall i :: 0 <= i < |vs| && Fits(vs[i], s) ==> EstimatedMarginalCostAppend(vs[i], s, m) >= Inf
    ensures bestVid != -1 ==> BestVehicle(vs, s, m, bestVid)
  {
    if bestVid != -1 {
      assert Fits(vs[bestVid], s) && EstimatedMarginalCostAppend(vs[bestVid], s, m) < Inf;
    }
  }

  /** No vehicle with room for `s` has a marginal cost below `1e18`. */
  ghost predicate NoneCheap(vs: seq<Vehicle>, s: Shipment, m: Matrix)
    requires IsMatrix(m) && AllPlaced(vs, m) && Located(s, m)
  {
    forall i :: 0 <= i < |vs| && Fits(vs[i], s) ==> EstimatedMarginalCostAppend(vs[i], s, m) >= Inf
  }

  /**
   * One round of the heap loop on the vehicle states: `pick` is -1 when no
   * vehicle with room is cheap enough, and nothing changes; otherwise it is
   * the `BestVehicle`, which takes the shipment.
   */
  ghost predicate Chosen(vs: seq<Vehicle>, vs': seq<Vehicle>, sid: int, shipMap: map<int, Shipment>, m: Matrix, pick: int)
  {
    && IsMatrix(m) && AllPlaced(vs, m) && sid in shipMap && Located(shipMap[sid], m)
    && (pick == -1 ==> NoneCheap(vs, shipMap[sid], m) && vs' == vs)
    && (pick != -1 ==> BestVehicle(vs, shipMap[sid], m, pick) && vs' == vs[pick := Take(vs[pick], sid, shipMap[sid])])
  }

  /** The first cheapest vehicle with room is the only one. */
  lemma BestVehicleUnique(vs: seq<Vehicle>, s: Shipment, m: Matrix, a: int, b: int)
    requires IsMatrix(m) && AllPlaced(vs, m) && Located(s, m)
    requires BestVehicle(vs, s, m, a) && BestVehicle(vs, s, m, b)
    ensures a == b
  {
    var ca, cb := EstimatedMarginalCostAppend(vs[a], s, m), EstimatedMarginalCostAppend(vs[b], s, m);
    assert a < b ==> cb < ca && ca <= cb;
    assert b < a ==> ca < cb && cb <= ca;
  }

  /** A round of the heap loop has one outcome. */
  lemma ChosenUnique(vs: seq<Vehicle>, v1: seq<Vehicle>, v2: seq<Vehicle>, sid: int, shipMap: map<int, Shipment>, m: Matrix,
                     p1: int, p2: int)
    requires Chosen(vs, v1, sid, shipMap, m, p1) && Chosen(vs, v2, sid, shipMap, m, p2)
    ensures p1 == p2 && v1 == v2
  {
    var s := shipMap[sid];
    CheapOrNone(vs, s, m, p1);
    CheapOrNone(vs, s, m, p2);
    if p1 != -1 && p2 != -1 {
      BestVehicleUnique(vs, s, m, p1, p2);
    }
  }

  /** A best vehicle is one with room below `1e18`. */
  lemma CheapOrNone(vs: seq<Vehicle>, s: Shipment, m: Matrix, p: int)
    requires IsMatrix(m) && AllPlaced(vs, m) && Located(s, m)
    ensures BestVehicle(vs, s, m, p) ==> !NoneCheap(vs, s, m)
  {
    if BestVehicle(vs, s, m, p) {
      var c := EstimatedMarginalCostAppend(vs[p], s, m);
      assert Fits(vs[p], s) && c < Inf;
    }
  }

  /**
   * The heap loop's first `k` rounds as a trace of vehicle states:
   * `trace[j + 1]` is `trace[j]` after the round on `queue[j]`, whose pick
   * was `picks[j]`.
   */
  ghost predicate PlacedUpTo(vs0: seq<Vehicle>, queue: seq<HeapItem>, shipMap: map<int, Shipment>, m: Matrix,
                             trace: seq<seq<Vehicle>>, picks: seq<int>, k: int)
  {
    && 0 <= k <= |queue| && |trace| == k + 1 && |picks| == k && trace[0] == vs0
    && forall j :: 0 <= j < k ==> Chosen(trace[j], trace[j + 1], queue[j].sid, shipMap, m, picks[j])
  }

  /** The ids of the rounds that found no vehicle, in pop order. */
  ghost function Unplaced(queue: seq<HeapItem>, picks: seq<int>): seq<int>
    requires |picks| <= |queue|
  {
    if picks == [] then []
    else Unplaced(queue, picks[..|picks| - 1]) + (if picks[|picks| - 1] == -1 then [queue[|picks| - 1].sid] else [])
  }

  /** The heap loop has one outcome: its trace and picks are determined by the start and the queue. */
  lemma {:induction false} PlacementUnique(vs0: seq<Vehicle>, queue: seq<HeapItem>, shipMap: map<int, Shipment>, m: Matrix,
                                           t1: seq<seq<Vehicle>>, p1: seq<int>, t2: seq<seq<Vehicle>>, p2: seq<int>, k: int)
    requires PlacedUpTo(vs0, queue, shipMap, m, t1, p1, k) && PlacedUpTo(vs0, queue, shipMap, m, t2, p2, k)
    ensures t1 == t2 && p1 == p2
    decreases k
  {
    if k > 0 {
      PlacementUnique(vs0, queue, shipMap, m, t1[..k], p1[..k - 1], t2[..k], p2[..k - 1], k - 1);
      ChosenUnique(t1[k - 1], t1[k], t2[k], queue[k - 1].sid, shipMap, m, p1[k - 1], p2[k - 1]);
      assert t1 == t1[..k] + [t1[k]] && t2 == t2[..k] + [t2[k]];
      assert p1 == p1[..k - 1] + [p1[k - 1]] && p2 == p2[..k - 1] + [p2[k - 1]];
    }
  }

  /** One more round extends the trace. */
  lemma TraceStep(vs0: seq<Vehicle>, queue: seq<HeapItem>, shipMap: map<int, Shipment>, m: Matrix,
                  trace: seq<seq<Vehicle>>, picks: seq<int>, k: int, vs': seq<Vehicle>, pick: int)
    requires PlacedUpTo(vs0, queue, shipMap, m, trace, picks, k) && k < |queue|
    requires Chosen(trace[k], vs', queue[k].sid, shipMap, m, pick)
    ensures PlacedUpTo(vs0, queue, shipMap, m, trace + [vs'], picks + [pick], k + 1)
    ensures Unplaced(queue, picks + [pick]) == Unplaced(queue, picks) + (if pick == -1 then [queue[k].sid] else [])
  {
    var t', p' := trace + [vs'], picks + [pick];
    assert p'[..|p'| - 1] == picks;
    forall j | 0 <= j < k + 1 ensures Chosen(t'[j], t'[j + 1], queue[j].sid, shipMap, m, p'[j]) {
      if j < k {
        assert t'[j] == trace[j] && t'[j + 1] == trace[j + 1] && p'[j] == picks[j];
      }
    }
  }

  /* ---------------- assignment ---------------- */

  /** Every id, read from the assignments of the vehicles in turn. */
  ghost function AllAssigned(vs: seq<Vehicle>): seq<int>
  {
    if vs == [] then [] else AllAssigned(vs[..|vs| - 1]) + vs[|vs| - 1].assignedShipments
  }

  /** The total weight of the shipments with these ids. */
  ghost function WeightOf(ids: seq<int>, shipMap: map<int, Shipment>): real
    requires forall k :: 0 <= k < |ids| ==> ids[k] in shipMap
  {
    if ids == [] then 0.0 else WeightOf(ids[..|ids| - 1], shipMap) + shipMap[ids[|ids| - 1]].weight
  }

  /** The vehicle as the reset loop leaves it: no shipments, no load, no route. */
  function Reset(v: Vehicle): (r: Vehicle)
    ensures r.assignedShipments == [] && r.loadAssigned == 0.0 && r.route == []
    ensures r.id == v.id && r.depot == v.depot && r.capacity == v.capacity
    ensures r.costPerKm == v.costPerKm && r.fuelPerKm == v.fuelPerKm
  {
    v.(assignedShipments := [], loadAssigned := 0.0, route := [])
  }

  /** A shipment appended to the vehicle: its id, its weight and its two stops. */
  function Take(v: Vehicle, sid: int, s: Shipment): Vehicle
  {
    v.(assignedShipments := v.assignedShipments + [sid], loadAssigned := v.loadAssigned + s.weight,
       route := v.route + [s.pickup, s.delivery])
  }

  /**
   * The vehicle's shipments are filed and located, its load is their total
   * weight, and a vehicle with any shipment is within its capacity.
   */
  ghost predicate Packed(v: Vehicle, shipMap: map<int, Shipment>, m: Matrix)
  {
    && Known(v.assignedShipments, shipMap, m)
    && v.loadAssigned == WeightOf(v.assignedShipments, shipMap)
    && (|v.assignedShipments| > 0 ==> v.loadAssigned <= v.capacity)
  }

  /**
   * A vehicle as the heap loop keeps it: apart from its assignments, load
   * and route it is the vehicle it started as, it is packed, and its route
   * is the stops appended so far.
   */
  ghost predicate Loaded(v0: Vehicle, v: Vehicle, shipMap: map<int, Shipment>, m: Matrix)
  {
    && Reset(v) == Reset(v0) && 0 <= v.depot < |m|
    && Packed(v, shipMap, m)
    && v.route == Stops(v.assignedShipments, shipMap)
  }

  /** What the heap loop keeps, vehicle by vehicle. */
  ghost predicate Assigning(vs0: seq<Vehicle>, vs: seq<Vehicle>, shipMap: map<int, Shipment>, m: Matrix)
  {
    && |vs| == |vs0|
    && (forall i :: 0 <= i < |vs| ==> Loaded(vs0[i], vs[i], shipMap, m))
  }

  lemma AssigningPlaced(vs0: seq<Vehicle>, vs: seq<Vehicle>, shipMap: map<int, Shipment>, m: Matrix)
    requires Assigning(vs0, vs, shipMap, m)
    ensures AllPlaced(vs, m)
  {
    forall i | 0 <= i < |vs| ensures Placed(vs[i], m) {
      StopsOnMatrix(vs[i].assignedShipments, shipMap, m);
    }
  }

  lemma {:induction false} AllAssignedAdd(vs: seq<Vehicle>, vid: int, v: Vehicle, sid: int)
    requires 0 <= vid < |vs| && v.assignedShipments == vs[vid].assignedShipments + [sid]
    ensures multiset(AllAssigned(vs[vid := v])) == multiset(AllAssigned(vs)) + multiset{sid}
    decreases |vs|
  {
    var n := |vs|;
    var vs' := vs[vid := v];
    var front, front' := vs[..n - 1], vs'[..n - 1];
    assert AllAssigned(vs') == AllAssigned(front') + vs'[n - 1].assignedShipments;
    assert AllAssigned(vs) == AllAssigned(front) + vs[n - 1].assignedShipments;
    if vid < n - 1 {
      assert front' == front[vid := v];
      AllAssignedAdd(front, vid, v, sid);
      BagAppend(AllAssigned(front), AllAssigned(front'), vs[n - 1].assignedShipments, sid);
    } else {
      assert front' == front;
      assert vs'[n - 1].assignedShipments == vs[n - 1].assignedShipments + [sid];
      assert AllAssigned(front') + (vs[n - 1].assignedShipments + [sid]) == AllAssigned(vs) + [sid];
    }
  }

  lemma BagAppend(a: seq<int>, a': seq<int>, t: seq<int>, sid: int)
    requires multiset(a') == multiset(a) + multiset{sid}
    ensures multiset(a' + t) == multiset(a + t) + multiset{sid}
  {
  }

  lemma {:induction false} AllAssignedSame(a: seq<Vehicle>, b: seq<Vehicle>)
    requires |a| == |b| && forall i :: 0 <= i < |a| ==> a[i].assignedShipments == b[i].assignedShipments
    ensures AllAssigned(a) == AllAssigned(b)
    decreases |a|
  {
    if a != [] {
      AllAssignedSame(a[..|a| - 1], b[..|b| - 1]);
    }
  }

  lemma {:induction false} AllAssignedReset(vs: seq<Vehicle>)
    requires forall i :: 0 <= i < |vs| ==> vs[i].assignedShipments == []
    ensures AllAssigned(vs) == []
    decreases |vs|
  {
    if vs != [] {
      AllAssignedReset(vs[..|vs| - 1]);
    }
  }

  /** Assigning a shipment to a vehicle with room keeps the loop's invariant and adds its id once. */
  lemma TakeStep(vs0: seq<Vehicle>, vs: seq<Vehicle>, shipMap: map<int, Shipment>, m: Matrix, sid: int, vid: int)
    requires Assigning(vs0, vs, shipMap, m) && sid in shipMap && Located(shipMap[sid], m)
    requires 0 <= vid < |vs| && Fits(vs[vid], shipMap[sid])
    ensures Assigning(vs0, vs[vid := Take(vs[vid], sid, shipMap[sid])], shipMap, m)
    ensures multiset(AllAssigned(vs[vid := Take(vs[vid], sid, shipMap[sid])])) == multiset(AllAssigned(vs)) + multiset{sid}
  {
    var v := vs[vid];
    var v' := Take(v, sid, shipMap[sid]);
    var ids := v.assignedShipments;
    assert (ids + [sid])[..|ids|] == ids;
    assert Known(ids + [sid], shipMap, m);
    assert Packed(v', shipMap, m);
    assert v'.route == Stops(ids + [sid], shipMap);
    AllAssignedAdd(vs, vid, v', sid);
  }

  /**
   * The vehicle's route is the greedy walk `greedy` over the stops of its
   * shipments, closed at the depot, as `twoOptLoop(route, distMat, 200)`
   * leaves it: the end of a run of at most 200 best moves that stops early
   * only at a route no move improves (`TwoOptResultUnique` makes that one
   * route). It has the same length, ends and nodes as `greedy`, and is no
   * longer when the matrix is symmetric.
   */
  ghost predicate Routed(v: Vehicle, shipMap: map<int, Shipment>, m: Matrix, greedy: seq<int>, order: seq<int>)
    requires IsMatrix(m)
  {
    && (forall k :: 0 <= k < |v.assignedShipments| ==> v.assignedShipments[k] in shipMap)
    && |greedy| >= 2 && greedy[0] == v.depot && greedy[|greedy| - 1] == v.depot && OnMatrix(greedy, m)
    && Walked(m, Stops(v.assignedShipments, shipMap), v.depot, greedy[..|greedy| - 1], order)
    && SameTour(greedy, v.route, m)
    && exists steps, moves :: TwoOptResult(greedy, m, 200, v.route, steps, moves)
  }

  /** With every distance below `1e18`, a routed vehicle visits exactly its shipments' stops between the depots. */
  lemma RoutedVisitsAll(v: Vehicle, shipMap: map<int, Shipment>, m: Matrix, greedy: seq<int>, order: seq<int>)
    requires AllReachable(m) && Routed(v, shipMap, m, greedy, order)
    ensures |v.route| >= 2 && v.route[0] == v.depot && v.route[|v.route| - 1] == v.depot
    ensures multiset(v.route[1..|v.route| - 1]) == multiset(Stops(v.assignedShipments, shipMap))
  {
    RouteVisitsAll(v, v.assignedShipments, shipMap, m, greedy, order);
    assert multiset(v.route) == multiset(greedy) && |v.route| == |greedy|;
    assert v.route[0] == greedy[0] && v.route[|v.route| - 1] == greedy[|greedy| - 1];
    Interior(v.route);
    Interior(greedy);
    assert multiset(v.route[1..|v.route| - 1]) == multiset(greedy[1..|greedy| - 1]);
  }

  lemma Interior(r: seq<int>)
    requires |r| >= 2
    ensures multiset(r[1..|r| - 1]) == multiset(r) - multiset{r[0], r[|r| - 1]}
  {
    assert r == [r[0]] + r[1..|r| - 1] + [r[|r| - 1]];
    assert multiset(r) == multiset{r[0]} + multiset(r[1..|r| - 1]) + multiset{r[|r| - 1]};
  }

  /** The first loop of `assignShipmentsToVehicles`, on the map: each shipment filed under its id. */
  method FileShipments(shipments: seq<Shipment>, shipMap0: map<int, Shipment>) returns (shipMap: map<int, Shipment>)
    ensures shipMap == Catalog(shipMap0, shipments)
  {
    shipMap := shipMap0;
    var k := 0;
    while k < |shipments|
      invariant 0 <= k <= |shipments| && shipMap == Catalog(shipMap0, shipments[..k])
    {
      assert shipments[..k + 1][..k] == shipments[..k];
      shipMap := shipMap[shipments[k].id := shipments[k]];
      k := k + 1;
    }
    assert shipments[..k] == shipments;
  }

  /** The reset loop: every vehicle loses its shipments, its load and its route, and nothing else. */
  method ResetVehicles(vehicles: array<Vehicle>)
    modifies vehicles
    ensures forall j :: 0 <= j < vehicles.Length ==> vehicles[j] == Reset(old(vehicles[j]))
  {
    var i := 0;
    while i < vehicles.Length
      invariant 0 <= i <= vehicles.Length
      invariant forall j :: 0 <= j < i ==> vehicles[j] == Reset(old(vehicles[j]))
      invariant forall j :: i <= j < vehicles.Length ==> vehicles[j] == old(vehicles[j])
    {
      vehicles[i] := Reset(vehicles[i]);
      i := i + 1;
    }
  }

  /**
   * The heap loop: each popped shipment goes to the vehicle `ChooseVehicle`
   * picks, or onto the end of `unassigned` when it picks none; `trace` holds
   * the vehicle states round by round. Every popped id is then among the
   * vehicles' assignments or the new unassigned ids, once each.
   */
  method PlaceAll(queue: seq<HeapItem>, vehicles: array<Vehicle>, shipMap: map<int, Shipment>, m: Matrix,
                  unassigned0: seq<int>, ghost vs0: seq<Vehicle>)
    returns (unassigned: seq<int>, ghost trace: seq<seq<Vehicle>>, ghost picks: seq<int>)
    requires IsMatrix(m)
    requires forall k :: 0 <= k < |queue| ==> queue[k].sid in shipMap && Located(shipMap[queue[k].sid], m)
    requires Assigning(vs0, vehicles[..], shipMap, m) && AllAssigned(vehicles[..]) == []
    modifies vehicles
    ensures Assigning(vs0, vehicles[..], shipMap, m)
    ensures |unassigned| >= |unassigned0| && unassigned[..|unassigned0|] == unassigned0
    ensures multiset(AllAssigned(vehicles[..])) + multiset(unassigned[|unassigned0|..]) == multiset(Sids(queue))
    ensures PlacedUpTo(old(vehicles[..]), queue, shipMap, m, trace, picks, |queue|) && trace[|queue|] == vehicles[..]
    ensures unassigned == unassigned0 + Unplaced(queue, picks)
  {
    unassigned := unassigned0;
    ghost var extra: seq<int> := [];
    ghost var start := vehicles[..];
    trace, picks := [start], [];
    var k := 0;
    TallyStart(vehicles[..], Sids(queue));
    while k < |queue|
      invariant 0 <= k <= |queue| && Assigning(vs0, vehicles[..], shipMap, m)
      invariant Tallies(vehicles[..], extra, Sids(queue), k) && unassigned == unassigned0 + extra
      invariant PlacedUpTo(start, queue, shipMap, m, trace, picks, k) && trace[k] == vehicles[..] && extra == Unplaced(queue, picks)
    {
      var bestVid;
      unassigned, extra, bestVid, trace, picks :=
        PlaceNext(queue, k, vehicles, shipMap, m, unassigned, vs0, unassigned0, extra, start, trace, picks);
      k := k + 1;
    }
    PlacedAll(multiset(AllAssigned(vehicles[..])), Sids(queue), unassigned0, extra);
  }

  /** The ids the vehicles hold and the `extra` unassigned ids are the first `k` popped ids. */
  ghost predicate Tallies(vs: seq<Vehicle>, extra: seq<int>, popped: seq<int>, k: int)
  {
    0 <= k <= |popped| && multiset(AllAssigned(vs)) + multiset(extra) == multiset(popped[..k])
  }

  lemma TallyStart(vs: seq<Vehicle>, popped: seq<int>)
    requires AllAssigned(vs) == []
    ensures Tallies(vs, [], popped, 0)
  {
    assert popped[..0] == [];
  }

  lemma TallySkip(vs: seq<Vehicle>, vs': seq<Vehicle>, extra: seq<int>, popped: seq<int>, k: int)
    requires Tallies(vs, extra, popped, k) && k < |popped| && multiset(AllAssigned(vs')) == multiset(AllAssigned(vs))
    ensures Tallies(vs', extra + [popped[k]], popped, k + 1)
  {
    TallyUnassigned(popped, k, multiset(AllAssigned(vs)), extra);
  }

  lemma TallyTake(vs: seq<Vehicle>, vs': seq<Vehicle>, extra: seq<int>, popped: seq<int>, k: int)
    requires Tallies(vs, extra, popped, k) && k < |popped|
    requires multiset(AllAssigned(vs')) == multiset(AllAssigned(vs)) + multiset{popped[k]}
    ensures Tallies(vs', extra, popped, k + 1)
  {
    TallyAssigned(popped, k, multiset(AllAssigned(vs)), extra);
  }

  /** One round of the heap loop, with its bookkeeping: `PlaceOne` on the popped id, which goes on `unassigned` when no vehicle takes it. */
  method PlaceNext(queue: seq<HeapItem>, k: int, vehicles: array<Vehicle>, shipMap: map<int, Shipment>, m: Matrix,
                   unassigned: seq<int>, ghost vs0: seq<Vehicle>, ghost unassigned0: seq<int>, ghost extra: seq<int>,
                   ghost start: seq<Vehicle>, ghost trace: seq<seq<Vehicle>>, ghost picks: seq<int>)
    returns (unassigned': seq<int>, ghost extra': seq<int>, bestVid: int, ghost trace': seq<seq<Vehicle>>, ghost picks': seq<int>)
    requires IsMatrix(m) && 0 <= k < |queue| && queue[k].sid in shipMap && Located(shipMap[queue[k].sid], m)
    requires Assigning(vs0, vehicles[..], shipMap, m)
    requires Tallies(vehicles[..], extra, Sids(queue), k) && unassigned == unassigned0 + extra
    requires PlacedUpTo(start, queue, shipMap, m, trace, picks, k) && trace[k] == vehicles[..] && extra == Unplaced(queue, picks)
    modifies vehicles
    ensures Assigning(vs0, vehicles[..], shipMap, m)
    ensures Tallies(vehicles[..], extra', Sids(queue), k + 1) && unassigned' == unassigned0 + extra'
    ensures PlacedUpTo(start, queue, shipMap, m, trace', picks', k + 1) && trace'[k + 1] == vehicles[..]
    ensures extra' == Unplaced(queue, picks')
    ensures bestVid == -1 ==> vehicles[..] == old(vehicles[..]) && unassigned' == unassigned + [queue[k].sid]
    ensures bestVid != -1 ==>
      && 0 <= bestVid < vehicles.Length && unassigned' == unassigned
      && vehicles[..] == old(vehicles[..])[bestVid := Take(old(vehicles[bestVid]), queue[k].sid, shipMap[queue[k].sid])]
  {
    var sid := queue[k].sid;
    SidAt(queue, k);
    ghost var before := vehicles[..];
    bestVid := PlaceOne(sid, vehicles, shipMap, m, vs0);
    TraceStep(start, queue, shipMap, m, trace, picks, k, vehicles[..], bestVid);
    trace', picks' := trace + [vehicles[..]], picks + [bestVid];
    if bestVid == -1 {
      TallySkip(before, vehicles[..], extra, Sids(queue), k);
      unassigned', extra' := unassigned + [sid], extra + [sid];
    } else {
      TallyTake(before, vehicles[..], extra, Sids(queue), k);
      unassigned', extra' := unassigned, extra;
    }
  }

  lemma PlacedAll(a: multiset<int>, popped: seq<int>, unassigned0: seq<int>, extra: seq<int>)
    requires a + multiset(extra) == multiset(popped[..|popped|])
    ensures |unassigned0 + extra| >= |unassigned0| && (unassigned0 + extra)[..|unassigned0|] == unassigned0
    ensures a + multiset((unassigned0 + extra)[|unassigned0|..]) == multiset(popped)
  {
    assert popped[..|popped|] == popped;
    assert (unassigned0 + extra)[|unassigned0|..] == extra;
  }

  lemma SidAt(queue: seq<HeapItem>, k: int)
    requires 0 <= k < |queue|
    ensures Sids(queue)[k] == queue[k].sid
  {
    SidsAt(queue);
  }

  /** The popped id joins the unassigned ones. */
  lemma TallyUnassigned(popped: seq<int>, k: int, bag: multiset<int>, extra: seq<int>)
    requires 0 <= k < |popped| && bag + multiset(extra) == multiset(popped[..k])
    ensures bag + multiset(extra + [popped[k]]) == multiset(popped[..k + 1])
  {
    assert popped[..k + 1] == popped[..k] + [popped[k]];
  }

  /** The popped id joins a vehicle's assignments. */
  lemma TallyAssigned(popped: seq<int>, k: int, bag: multiset<int>, extra: seq<int>)
    requires 0 <= k < |popped| && bag + multiset(extra) == multiset(popped[..k])
    ensures bag + multiset{popped[k]} + multiset(extra) == multiset(popped[..k + 1])
  {
    assert popped[..k + 1] == popped[..k] + [popped[k]];
  }

  /**
   * One round of the heap loop: the shipment goes to the vehicle
   * `ChooseVehicle` picks, the first cheapest with room below `1e18`, and
   * every other vehicle is left alone; -1 when there is none (`Chosen`).
   */
  method PlaceOne(sid: int, vehicles: array<Vehicle>, shipMap: map<int, Shipment>, m: Matrix, ghost vs0: seq<Vehicle>)
    returns (bestVid: int)
    requires IsMatrix(m) && sid in shipMap && Located(shipMap[sid], m)
    requires Assigning(vs0, vehicles[..], shipMap, m)
    modifies vehicles
    ensures Assigning(vs0, vehicles[..], shipMap, m)
    ensures Chosen(old(vehicles[..]), vehicles[..], sid, shipMap, m, bestVid)
    ensures bestVid == -1 ==> vehicles[..] == old(vehicles[..])
    ensures bestVid == -1 ==> multiset(AllAssigned(vehicles[..])) == multiset(AllAssigned(old(vehicles[..])))
    ensures bestVid != -1 ==>
      && 0 <= bestVid < vehicles.Length
      && vehicles[..] == old(vehicles[..])[bestVid := Take(old(vehicles[bestVid]), sid, shipMap[sid])]
      && multiset(AllAssigned(vehicles[..])) == multiset(AllAssigned(old(vehicles[..]))) + multiset{sid}
  {
    var s := shipMap[sid];
    AssigningPlaced(vs0, vehicles[..], shipMap, m);
    bestVid := ChooseVehicle(vehicles[..], s, m);
    if bestVid != -1 {
      TakeStep(vs0, vehicles[..], shipMap, m, sid, bestVid);
      vehicles[bestVid] := Take(vehicles[bestVid], sid, s);
      assert vehicles[..] == old(vehicles[..])[bestVid := Take(old(vehicles[bestVid]), sid, s)];
    }
  }

  /** The last loop: every route rebuilt by `BuildRouteForVehicle` and improved by `TwoOptLoop(route, distMat, 200)`. */
  method RebuildRoutes(vehicles: array<Vehicle>, shipMap: map<int, Shipment>, m: Matrix)
    returns (ghost greedy: seq<seq<int>>, ghost orders: seq<seq<int>>)
    requires IsMatrix(m)
    requires forall j :: 0 <= j < vehicles.Length ==> 0 <= vehicles[j].depot < |m| && Packed(vehicles[j], shipMap, m)
    modifies vehicles
    ensures forall j :: 0 <= j < vehicles.Length ==> vehicles[j] == old(vehicles[j]).(route := vehicles[j].route)
    ensures |greedy| == |orders| == vehicles.Length
    ensures forall j :: 0 <= j < vehicles.Length ==> Routed(vehicles[j], shipMap, m, greedy[j], orders[j])
  {
    ghost var vs0 := vehicles[..];
    greedy, orders := [], [];
    var i := 0;
    while i < vehicles.Length
      invariant RoutedUpTo(vs0, vehicles[..], shipMap, m, greedy, orders, i)
    {
      greedy, orders := RouteNext(vehicles, i, shipMap, m, vs0, greedy, orders);
      i := i + 1;
    }
    RoutedAll(vs0, vehicles[..], shipMap, m, greedy, orders);
  }

  /**
   * What the route loop keeps after `i` vehicles: only routes have changed,
   * and the first `i` vehicles are `Routed` by the walks and orders recorded.
   */
  ghost predicate RoutedUpTo(vs0: seq<Vehicle>, vs: seq<Vehicle>, shipMap: map<int, Shipment>, m: Matrix,
                             greedy: seq<seq<int>>, orders: seq<seq<int>>, i: int)
  {
    && IsMatrix(m) && 0 <= i <= |vs| == |vs0| && |greedy| == |orders| == i
    && (forall j :: 0 <= j < |vs| ==> 0 <= vs0[j].depot < |m| && Packed(vs0[j], shipMap, m))
    && (forall j :: 0 <= j < |vs| ==> vs[j] == vs0[j].(route := vs[j].route))
    && (forall j :: 0 <= j < i ==> Routed(vs[j], shipMap, m, greedy[j], orders[j]))
  }

  lemma RoutedAll(vs0: seq<Vehicle>, vs: seq<Vehicle>, shipMap: map<int, Shipment>, m: Matrix,
                  greedy: seq<seq<int>>, orders: seq<seq<int>>)
    requires RoutedUpTo(vs0, vs, shipMap, m, greedy, orders, |vs|)
    ensures forall j :: 0 <= j < |vs| ==> vs[j] == vs0[j].(route := vs[j].route)
    ensures |greedy| == |orders| == |vs|
    ensures forall j :: 0 <= j < |vs| ==> Routed(vs[j], shipMap, m, greedy[j], orders[j])
  {
  }

  lemma RoutedStep(vs0: seq<Vehicle>, vs: seq<Vehicle>, shipMap: map<int, Shipment>, m: Matrix,
                   greedy: seq<seq<int>>, orders: seq<seq<int>>, i: int, improved: seq<int>, g: seq<int>, o: seq<int>)
    requires RoutedUpTo(vs0, vs, shipMap, m, greedy, orders, i) && i < |vs|
    requires Routed(vs[i].(route := improved), shipMap, m, g, o)
    ensures RoutedUpTo(vs0, vs[i := vs[i].(route := improved)], shipMap, m, greedy + [g], orders + [o], i + 1)
  {
    var vs' := vs[i := vs[i].(route := improved)];
    forall j | 0 <= j < |vs'| ensures vs'[j] == vs0[j].(route := vs'[j].route) {
      assert vs[j] == vs0[j].(route := vs[j].route);
    }
    forall j | 0 <= j < i + 1 ensures Routed(vs'[j], shipMap, m, (greedy + [g])[j], (orders + [o])[j]) {
      if j < i {
        assert vs'[j] == vs[j];
        assert Routed(vs[j], shipMap, m, greedy[j], orders[j]);
      }
    }
  }

  /** One round of the route loop: vehicle `i` gets the improved greedy route of its shipments. */
  method RouteNext(vehicles: array<Vehicle>, i: int, shipMap: map<int, Shipment>, m: Matrix, ghost vs0: seq<Vehicle>,
                   ghost greedy: seq<seq<int>>, ghost orders: seq<seq<int>>)
    returns (ghost greedy': seq<seq<int>>, ghost orders': seq<seq<int>>)
    requires RoutedUpTo(vs0, vehicles[..], shipMap, m, greedy, orders, i) && i < vehicles.Length
    modifies vehicles
    ensures RoutedUpTo(vs0, vehicles[..], shipMap, m, greedy', orders', i + 1)
  {
    assert vehicles[i] == vehicles[..][i] == vs0[i].(route := vehicles[i].route);
    assert Packed(vehicles[i], shipMap, m) by {
      assert Packed(vs0[i], shipMap, m);
    }
    var route, o := BuildRouteForVehicle(vehicles[i], vehicles[i].assignedShipments, shipMap, m);
    var improved, calls, converged, steps, moves := TwoOptLoop(route, m, 200);
    ghost var vs := vehicles[..];
    vehicles[i] := vehicles[i].(route := improved);
    RoutedStep(vs0, vs, shipMap, m, greedy, orders, i, improved, route, o);
    assert vehicles[..] == vs[i := vs[i].(route := improved)];
    greedy', orders' := greedy + [route], orders + [o];
  }

  /**
   * `assignShipmentsToVehicles(shipments, vehicles, distMat, shipMap,
   * unassigned)`: the shipments are filed and queued, the vehicles reset,
   * then each shipment in heap order goes to the vehicle `ChooseVehicle`
   * picks or onto `unassigned` (the rounds recorded in `trace` and
   * `picks`, which `PlacementUnique` shows are the only possible ones), and
   * finally every route is rebuilt and improved. Each shipment id ends up exactly once among the vehicles'
   * assignments and the newly unassigned ids, each vehicle's load is the
   * weight of its shipments and within its capacity, and each route is
   * `Routed`.
   */
  method AssignShipmentsToVehicles(shipments: seq<Shipment>, vehicles: array<Vehicle>, m: Matrix,
                                   shipMap0: map<int, Shipment>, unassigned0: seq<int>)
    returns (shipMap: map<int, Shipment>, unassigned: seq<int>,
             ghost order: seq<HeapItem>, ghost greedy: seq<seq<int>>, ghost orders: seq<seq<int>>,
             ghost trace: seq<seq<Vehicle>>, ghost picks: seq<int>)
    requires IsMatrix(m) && forall k :: 0 <= k < |shipments| ==> Located(shipments[k], m)
    requires forall i :: 0 <= i < vehicles.Length ==> 0 <= vehicles[i].depot < |m|
    modifies vehicles
    ensures shipMap == Catalog(shipMap0, shipments)
    ensures multiset(order) == multiset(Items(shipments)) && UrgentFirst(order)
    ensures |unassigned| >= |unassigned0| && unassigned[..|unassigned0|] == unassigned0
    ensures multiset(AllAssigned(vehicles[..])) + multiset(unassigned[|unassigned0|..]) == multiset(Ids(shipments))
    ensures |AllAssigned(vehicles[..])| + (|unassigned| - |unassigned0|) == |shipments|
    ensures forall i :: 0 <= i < vehicles.Length ==> Reset(vehicles[i]) == Reset(old(vehicles[i]))
    ensures forall i :: 0 <= i < vehicles.Length ==> Packed(vehicles[i], shipMap, m)
    ensures |greedy| == |orders| == vehicles.Length
    ensures forall i :: 0 <= i < vehicles.Length ==> Routed(vehicles[i], shipMap, m, greedy[i], orders[i])
    ensures Placement(old(vehicles[..]), vehicles[..], order, shipMap, m, trace, picks)
    ensures unassigned == unassigned0 + Unplaced(order, picks)
  {
    var queue := HeapOrder(shipments);
    order := queue;
    shipMap := FileShipments(shipments, shipMap0);
    OrderFiled(order, shipments, shipMap0, m);

    unassigned, greedy, orders, trace, picks := PlaceAndRoute(queue, vehicles, shipMap, m, unassigned0);
    Tally(AllAssigned(vehicles[..]), unassigned[|unassigned0|..], Ids(shipments));
  }

  /**
   * The reset loop, the heap loop and the route loop of
   * `assignShipmentsToVehicles`, over the queued shipments.
   */
  method PlaceAndRoute(queue: seq<HeapItem>, vehicles: array<Vehicle>, shipMap: map<int, Shipment>, m: Matrix,
                       unassigned0: seq<int>)
    returns (unassigned: seq<int>, ghost greedy: seq<seq<int>>, ghost orders: seq<seq<int>>,
             ghost trace: seq<seq<Vehicle>>, ghost picks: seq<int>)
    requires IsMatrix(m)
    requires forall k :: 0 <= k < |queue| ==> queue[k].sid in shipMap && Located(shipMap[queue[k].sid], m)
    requires forall i :: 0 <= i < vehicles.Length ==> 0 <= vehicles[i].depot < |m|
    modifies vehicles
    ensures |unassigned| >= |unassigned0| && unassigned[..|unassigned0|] == unassigned0
    ensures multiset(AllAssigned(vehicles[..])) + multiset(unassigned[|unassigned0|..]) == multiset(Sids(queue))
    ensures forall i :: 0 <= i < vehicles.Length ==> Reset(vehicles[i]) == Reset(old(vehicles[i]))
    ensures forall i :: 0 <= i < vehicles.Length ==> Packed(vehicles[i], shipMap, m)
    ensures |greedy| == |orders| == vehicles.Length
    ensures forall i :: 0 <= i < vehicles.Length ==> Routed(vehicles[i], shipMap, m, greedy[i], orders[i])
    ensures Placement(old(vehicles[..]), vehicles[..], queue, shipMap, m, trace, picks)
    ensures unassigned == unassigned0 + Unplaced(queue, picks)
  {
    ghost var vs0 := vehicles[..];
    ghost var vs1;
    unassigned, vs1, trace, picks := ResetAndPlace(queue, vehicles, shipMap, m, unassigned0);
    ghost var vs2 := vehicles[..];
    greedy, orders := RebuildRoutes(vehicles, shipMap, m);
    Rebuilt(vs0, vs1, vs2, vehicles[..], shipMap, m);
    TraceEnds(vs0, vs1, vs2, vehicles[..], queue, shipMap, m, trace, picks);
  }

  /** The reset loop and the heap loop of `assignShipmentsToVehicles`; `start` is the reset fleet. */
  method ResetAndPlace(queue: seq<HeapItem>, vehicles: array<Vehicle>, shipMap: map<int, Shipment>, m: Matrix,
                       unassigned0: seq<int>)
    returns (unassigned: seq<int>, ghost start: seq<Vehicle>, ghost trace: seq<seq<Vehicle>>, ghost picks: seq<int>)
    requires IsMatrix(m)
    requires forall k :: 0 <= k < |queue| ==> queue[k].sid in shipMap && Located(shipMap[queue[k].sid], m)
    requires forall i :: 0 <= i < vehicles.Length ==> 0 <= vehicles[i].depot < |m|
    modifies vehicles
    ensures |start| == vehicles.Length && forall j :: 0 <= j < vehicles.Length ==> start[j] == Reset(old(vehicles[j]))
    ensures Assigning(start, vehicles[..], shipMap, m)
    ensures |unassigned| >= |unassigned0| && unassigned[..|unassigned0|] == unassigned0
    ensures multiset(AllAssigned(vehicles[..])) + multiset(unassigned[|unassigned0|..]) == multiset(Sids(queue))
    ensures PlacedUpTo(start, queue, shipMap, m, trace, picks, |queue|) && trace[|queue|] == vehicles[..]
    ensures unassigned == unassigned0 + Unplaced(queue, picks)
  {
    ghost var vs0 := vehicles[..];
    ResetVehicles(vehicles);
    start := vehicles[..];
    ResetAssigning(vs0, start, shipMap, m);
    unassigned, trace, picks := PlaceAll(queue, vehicles, shipMap, m, unassigned0, start);
  }

  /**
   * The heap loop run from the reset vehicles `vs0`: `trace[0]` is `vs0`
   * reset, the rounds follow the greedy rule, and `vs` is the last round's
   * fleet with only the routes rebuilt.
   */
  ghost predicate Placement(vs0: seq<Vehicle>, vs: seq<Vehicle>, queue: seq<HeapItem>, shipMap: map<int, Shipment>, m: Matrix,
                            trace: seq<seq<Vehicle>>, picks: seq<int>)
  {
    && |trace| == |queue| + 1 && PlacedUpTo(trace[0], queue, shipMap, m, trace, picks, |queue|)
    && |trace[0]| == |vs0| && (forall i :: 0 <= i < |vs0| ==> trace[0][i] == Reset(vs0[i]))
    && |trace[|queue|]| == |vs| && forall i :: 0 <= i < |vs| ==> vs[i] == trace[|queue|][i].(route := vs[i].route)
  }

  lemma TraceEnds(vs0: seq<Vehicle>, vs1: seq<Vehicle>, vs2: seq<Vehicle>, vs3: seq<Vehicle>, queue: seq<HeapItem>,
                  shipMap: map<int, Shipment>, m: Matrix, trace: seq<seq<Vehicle>>, picks: seq<int>)
    requires |vs1| == |vs0| && forall j :: 0 <= j < |vs0| ==> vs1[j] == Reset(vs0[j])
    requires PlacedUpTo(vs1, queue, shipMap, m, trace, picks, |queue|) && trace[|queue|] == vs2
    requires |vs3| == |vs2| && forall j :: 0 <= j < |vs2| ==> vs3[j] == vs2[j].(route := vs3[j].route)
    ensures Placement(vs0, vs3, queue, shipMap, m, trace, picks)
  {
  }

  lemma ResetAssigning(vs0: seq<Vehicle>, vs1: seq<Vehicle>, shipMap: map<int, Shipment>, m: Matrix)
    requires |vs1| == |vs0| && forall j :: 0 <= j < |vs0| ==> vs1[j] == Reset(vs0[j]) && 0 <= vs0[j].depot < |m|
    ensures Assigning(vs1, vs1, shipMap, m) && AllAssigned(vs1) == []
  {
    AllAssignedReset(vs1);
    forall j | 0 <= j < |vs1|
      ensures Packed(vs1[j], shipMap, m) && vs1[j].route == Stops(vs1[j].assignedShipments, shipMap)
    {
      assert vs1[j].assignedShipments == [];
    }
  }

  lemma Rebuilt(vs0: seq<Vehicle>, vs1: seq<Vehicle>, vs2: seq<Vehicle>, vs3: seq<Vehicle>, shipMap: map<int, Shipment>, m: Matrix)
    requires |vs1| == |vs0| && forall j :: 0 <= j < |vs0| ==> vs1[j] == Reset(vs0[j])
    requires Assigning(vs1, vs2, shipMap, m)
    requires |vs3| == |vs2| && forall j :: 0 <= j < |vs2| ==> vs3[j] == vs2[j].(route := vs3[j].route)
    ensures forall j :: 0 <= j < |vs3| ==> Packed(vs3[j], shipMap, m) && Reset(vs3[j]) == Reset(vs0[j])
    ensures AllAssigned(vs3) == AllAssigned(vs2)
  {
    AllAssignedSame(vs3, vs2);
    forall j | 0 <= j < |vs3| ensures Packed(vs3[j], shipMap, m) && Reset(vs3[j]) == Reset(vs0[j]) {
      assert Packed(vs2[j], shipMap, m);
      assert Reset(vs2[j]) == Reset(vs1[j]);
    }
  }

  lemma Tally(a: seq<int>, b: seq<int>, c: seq<int>)
    requires multiset(a) + multiset(b) == multiset(c)
    ensures |a| + |b| == |c|
  {
    assert |multiset(a) + multiset(b)| == |multiset(c)|;
  }

  /* ---------------- evaluation ---------------- */

  /** The count fields of `Metrics`. */
  datatype Metrics = Metrics(vehiclesUsed: int, shipmentsDelivered: int, shipmentsUnassigned: int)

  /** How many vehicles have at least one shipment. */
  ghost function UsedCount(vs: seq<Vehicle>): int
  {
    if vs == [] then 0
    else UsedCount(vs[..|vs| - 1]) + (if vs[|vs| - 1].assignedShipments == [] then 0 else 1)
  }

  /** No more vehicles are used than there are, nor than there are shipments delivered. */
  lemma {:induction false} UsedCountBounds(vs: seq<Vehicle>)
    ensures 0 <= UsedCount(vs) <= |vs| && UsedCount(vs) <= |AllAssigned(vs)|
    decreases |vs|
  {
    if vs != [] {
      UsedCountBounds(vs[..|vs| - 1]);
    }
  }

  /**
   * `evaluateSolution(vehicles, shipMap, distMat)`, count fields only: the
   * vehicles with shipments, the shipments they carry, and 0 unassigned.
   */
  method EvaluateSolution(vehicles: seq<Vehicle>) returns (r: Metrics)
    ensures r.vehiclesUsed == UsedCount(vehicles) && r.shipmentsDelivered == |AllAssigned(vehicles)|
    ensures r.shipmentsUnassigned == 0
    ensures 0 <= r.vehiclesUsed <= |vehicles| && r.vehiclesUsed <= r.shipmentsDelivered
  {
    var used, delivered := 0, 0;
    var i := 0;
    while i < |vehicles|
      invariant 0 <= i <= |vehicles|
      invariant used == UsedCount(vehicles[..i]) && delivered == |AllAssigned(vehicles[..i])|
    {
      assert vehicles[..i + 1][..i] == vehicles[..i];
      if vehicles[i].assignedShipments != [] {
        used := used + 1;
        delivered := delivered + |vehicles[i].assignedShipments|;
      }
      i := i + 1;
    }
    assert vehicles[..i] == vehicles;
    UsedCountBounds(vehicles);
    r := Metrics(used, delivered, 0);
  }
}
