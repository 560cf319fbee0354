/**
 * The smart-city transport planner (acase1.cpp): an undirected weighted
 * road graph built by `addEdge`, peak-hour distances by Dijkstra, an
 * emergency route by A* with the heuristic `|v - goal|`, and a bus route
 * built greedily by always driving to the nearest stop not yet visited.
 */
module BusNetwork {
  import opened Wrappers
  import opened WeightedGraphs
  import Dijkstra
  import Reachability

  /** `INT_MAX`, the cost left on nodes not reached. */
  const IntMax := 2147483647

  /** Each undirected road appears once in each direction, with the same weight. */
  ghost predicate Symmetric(adj: Graph)
  {
    forall u, v, w :: 0 <= u < |adj| && 0 <= v < |adj| ==>
      multiset(adj[u])[Edge(v, w)] == multiset(adj[v])[Edge(u, w)]
  }

  /** `class Graph`: `V` nodes, one adjacency list of `(to, weight)` pairs per node. */
  class CityGraph {
    const V: nat
    var adj: Graph

    ghost predicate Valid()
      reads this
    {
      |adj| == V && WellFormed(adj) && Symmetric(adj)
    }

    /** `Graph(V)`: `V` nodes and no roads. */
    constructor(V: nat)
      ensures Valid() && this.V == V
      ensures adj == seq(V, _ => [])
    {
      this.V := V;
      adj := seq(V, _ => []);
    }

    /**
     * `addEdge(u, v, w)`: the road is listed at `u` towards `v` and at `v`
     * towards `u`; the graph stays symmetric, and non-negative when `w` is.
     */
    method AddEdge(u: int, v: int, w: int)
      requires Valid() && 0 <= u < V && 0 <= v < V
      modifies this
      ensures Valid()
      ensures var a := old(adj)[u := old(adj)[u] + [Edge(v, w)]]; adj == a[v := a[v] + [Edge(u, w)]]
      ensures w >= 0 && NonNegative(old(adj)) ==> NonNegative(adj)
    {
      ghost var a0 := adj;
      adj := adj[u := adj[u] + [Edge(v, w)]];
      ghost var a1 := adj;
      adj := adj[v := adj[v] + [Edge(u, w)]];
      SymmetricAdd(a0, a1, adj, u, v, w);
      WellFormedAdd(a0, a1, adj, u, v, w);
    }
  }

  /** How often `e` appears at `x` after listing `Edge(v, w)` at `u` and `Edge(u, w)` at `v`. */
  lemma CountAfterAdd(a0: Graph, a1: Graph, a2: Graph, u: int, v: int, w: int, x: int, e: Edge)
    requires 0 <= u < |a0| && 0 <= v < |a0| && 0 <= x < |a0|
    requires a1 == a0[u := a0[u] + [Edge(v, w)]] && a2 == a1[v := a1[v] + [Edge(u, w)]]
    ensures multiset(a2[x])[e] == multiset(a0[x])[e]
      + (if x == u && e == Edge(v, w) then 1 else 0) + (if x == v && e == Edge(u, w) then 1 else 0)
  {
    if x == u {
      assert multiset(a1[x]) == multiset(a0[x]) + multiset{Edge(v, w)};
    } else {
      assert a1[x] == a0[x];
    }
    if x == v {
      assert multiset(a2[x]) == multiset(a1[x]) + multiset{Edge(u, w)};
    } else {
      assert a2[x] == a1[x];
    }
  }

  lemma SymmetricAdd(a0: Graph, a1: Graph, a2: Graph, u: int, v: int, w: int)
    requires Symmetric(a0) && 0 <= u < |a0| && 0 <= v < |a0|
    requires a1 == a0[u := a0[u] + [Edge(v, w)]] && a2 == a1[v := a1[v] + [Edge(u, w)]]
    ensures Symmetric(a2)
  {
    forall x, y, c | 0 <= x < |a2| && 0 <= y < |a2|
      ensures multiset(a2[x])[Edge(y, c)] == multiset(a2[y])[Edge(x, c)]
    {
      CountAfterAdd(a0, a1, a2, u, v, w, x, Edge(y, c));
      CountAfterAdd(a0, a1, a2, u, v, w, y, Edge(x, c));
      assert multiset(a0[x])[Edge(y, c)] == multiset(a0[y])[Edge(x, c)];
    }
  }

  lemma WellFormedAdd(a0: Graph, a1: Graph, a2: Graph, u: int, v: int, w: int)
    requires WellFormed(a0) && 0 <= u < |a0| && 0 <= v < |a0|
    requires a1 == a0[u := a0[u] + [Edge(v, w)]] && a2 == a1[v := a1[v] + [Edge(u, w)]]
    ensures WellFormed(a2)
    ensures w >= 0 && NonNegative(a0) ==> NonNegative(a2)
  {
    forall x, i | 0 <= x < |a2| && 0 <= i < |a2[x]| ensures 0 <= a2[x][i].to < |a2| {
      if x != v || i < |a1[x]| {
        assert a2[x][i] == a1[x][i];
        if x != u || i < |a0[x]| {
          assert a1[x][i] == a0[x][i];
        }
      }
    }
    if w >= 0 && NonNegative(a0) {
      forall x, i | 0 <= x < |a2| && 0 <= i < |a2[x]| ensures a2[x][i].w >= 0 {
        if x != v || i < |a1[x]| {
          assert a2[x][i] == a1[x][i];
          if x != u || i < |a0[x]| {
            assert a1[x][i] == a0[x][i];
          }
        }
      }
    }
  }

  /** `dijkstra(g, src)`: popped entries are never skipped, edges relax from the current distance. */
  method PeakHourDistances(g: Graph, src: int) returns (dist: seq<int>)
    requires WellFormed(g) && NonNegative(g) && 0 <= src < |g|
    ensures CappedShortest(g, src, IntMax, dist) && dist[src] == 0
  {
    dist := Dijkstra.ShortestFrom(g, src, IntMax, Dijkstra.NoSkip, Dijkstra.FromCurrent);
  }

  /** `heuristic(a, b)`: the distance between the node numbers. */
  function Heuristic(a: int, b: int): (h: int)
    ensures h >= 0 && (h == a - b || h == b - a)
  {
    if a >= b then a - b else b - a
  }

  /** The open list and its ghost twin name the same nodes, entry by entry. */
  ghost predicate Paired(open: seq<(int, int)>, gq: seq<(int, int)>)
  {
    |open| == |gq| && forall k :: 0 <= k < |open| ==> open[k].1 == gq[k].1
  }

  /** Every queued cost is below the sentinel. */
  ghost predicate Finite(gq: seq<(int, int)>)
  {
    forall k :: 0 <= k < |gq| ==> gq[k].0 < IntMax
  }

  /** While the goal has not been popped, a finite goal cost is queued. */
  ghost predicate GoalQueued(cost: seq<int>, gq: seq<(int, int)>, goal: int)
  {
    0 <= goal < |cost| && cost[goal] < IntMax ==> (cost[goal], goal) in gq
  }

  lemma PopKeepsGoal(cost: seq<int>, gq: seq<(int, int)>, goal: int, k: int)
    requires 0 <= k < |gq| && gq[k].1 != goal && GoalQueued(cost, gq, goal)
    ensures GoalQueued(cost, gq[..k] + gq[k + 1..], goal)
  {
    assert gq == gq[..k] + [gq[k]] + gq[k + 1..];
  }

  lemma PopKeepsPaired(open: seq<(int, int)>, gq: seq<(int, int)>, k: int)
    requires 0 <= k < |gq| && Paired(open, gq) && Finite(gq)
    ensures Paired(open[..k] + open[k + 1..], gq[..k] + gq[k + 1..])
    ensures Finite(gq[..k] + gq[k + 1..])
  {
    var o, q := open[..k] + open[k + 1..], gq[..k] + gq[k + 1..];
    forall j | 0 <= j < |o| ensures o[j].1 == q[j].1 && q[j].0 < IntMax {
      if j >= k {
        assert o[j] == open[j + 1] && q[j] == gq[j + 1];
      }
    }
  }

  /** Queueing `(f, t)` with its twin `(x, t)` after lowering the cost of `t` to `x`. */
  lemma PushKeepsOpen(cost: seq<int>, open: seq<(int, int)>, gq: seq<(int, int)>, goal: int, t: int, x: int, f: int)
    requires 0 <= t < |cost| && x < IntMax
    requires Paired(open, gq) && Finite(gq) && GoalQueued(cost, gq, goal)
    ensures Paired(open + [(f, t)], gq + [(x, t)]) && Finite(gq + [(x, t)])
    ensures GoalQueued(cost[t := x], gq + [(x, t)], goal)
  {
    var q := gq + [(x, t)];
    assert q[|gq|] == (x, t);
    assert forall y :: y in gq ==> y in q;
  }

  /** What the edge scan of `Astar` keeps after the first `i` edges of `u`. */
  ghost predicate ScanInv(g: Graph, start: int, goal: int, u: int, i: int, cost: seq<int>,
                          open: seq<(int, int)>, gq: seq<(int, int)>)
  {
    && WellFormed(g) && NonNegative(g) && 0 <= start < |g| && 0 <= u < |g| && 0 <= i <= |g[u]|
    && Dijkstra.Sound(g, start, IntMax, cost) && Dijkstra.QueueOk(g, cost, gq)
    && Dijkstra.Pending(g, IntMax, cost, gq, u) && Dijkstra.RelaxedUpTo(g, cost, u, i)
    && Paired(open, gq) && Finite(gq) && GoalQueued(cost, gq, goal)
  }

  lemma ScanRelax(g: Graph, start: int, goal: int, u: int, i: int, cost: seq<int>,
                  open: seq<(int, int)>, gq: seq<(int, int)>, f: int,
                  cost': seq<int>, open': seq<(int, int)>, gq': seq<(int, int)>)
    requires ScanInv(g, start, goal, u, i, cost, open, gq) && i < |g[u]|
    requires cost[u] + g[u][i].w < cost[g[u][i].to]
    requires cost' == cost[g[u][i].to := cost[u] + g[u][i].w]
    requires open' == open + [(f, g[u][i].to)] && gq' == gq + [(cost[u] + g[u][i].w, g[u][i].to)]
    ensures ScanInv(g, start, goal, u, i + 1, cost', open', gq')
    ensures Dijkstra.Sum(cost') + |gq'| <= Dijkstra.Sum(cost) + |gq|
  {
    Dijkstra.RelaxStepKeeps(g, start, IntMax, u, i, cost, gq, Dijkstra.Sum(cost) + |gq|, cost', gq');
    PushKeepsOpen(cost, open, gq, goal, g[u][i].to, cost[u] + g[u][i].w, f);
  }

  lemma ScanKeep(g: Graph, start: int, goal: int, u: int, i: int, cost: seq<int>,
                 open: seq<(int, int)>, gq: seq<(int, int)>)
    requires ScanInv(g, start, goal, u, i, cost, open, gq) && i < |g[u]|
    requires cost[g[u][i].to] <= cost[u] + g[u][i].w
    ensures ScanInv(g, start, goal, u, i + 1, cost, open, gq)
  {
    Dijkstra.NoRelaxStepKeeps(g, start, IntMax, u, i, cost, gq, Dijkstra.Sum(cost) + |gq|);
  }

  /** The edge scan of `Astar`: the costs as in Dijkstra, the open list keyed by cost plus heuristic. */
  method AstarScan(g: Graph, start: int, goal: int, u: int, cost0: seq<int>,
                   open0: seq<(int, int)>, ghost gq0: seq<(int, int)>)
    returns (cost: seq<int>, open: seq<(int, int)>, ghost gq: seq<(int, int)>)
    requires ScanInv(g, start, goal, u, 0, cost0, open0, gq0)
    ensures ScanInv(g, start, goal, u, |g[u]|, cost, open, gq)
    ensures Dijkstra.Sum(cost) + |gq| <= Dijkstra.Sum(cost0) + |gq0|
  {
    cost, open, gq := cost0, open0, gq0;
    var i := 0;
    while i < |g[u]|
      invariant ScanInv(g, start, goal, u, i, cost, open, gq)
      invariant Dijkstra.Sum(cost) + |gq| <= Dijkstra.Sum(cost0) + |gq0|
    {
      cost, open, gq := ScanEdge(g, start, goal, u, i, cost, open, gq);
      i := i + 1;
    }
  }

  /** Edge `i` of `u` in the scan of `Astar`: relax it, and queue its target when the cost drops. */
  method ScanEdge(g: Graph, start: int, goal: int, u: int, i: int, cost0: seq<int>,
                  open0: seq<(int, int)>, ghost gq0: seq<(int, int)>)
    returns (cost: seq<int>, open: seq<(int, int)>, ghost gq: seq<(int, int)>)
    requires ScanInv(g, start, goal, u, i, cost0, open0, gq0) && i < |g[u]|
    ensures ScanInv(g, start, goal, u, i + 1, cost, open, gq)
    ensures Dijkstra.Sum(cost) + |gq| <= Dijkstra.Sum(cost0) + |gq0|
  {
    var e := g[u][i];
    var tentative := cost0[u] + e.w;
    if tentative < cost0[e.to] {
      var f := tentative + Heuristic(e.to, goal);
      cost := cost0[e.to := tentative];
      open := open0 + [(f, e.to)];
      gq := gq0 + [(tentative, e.to)];
      ScanRelax(g, start, goal, u, i, cost0, open0, gq0, f, cost, open, gq);
    } else {
      ScanKeep(g, start, goal, u, i, cost0, open0, gq0);
      cost, open, gq := cost0, open0, gq0;
    }
  }

  /**
   * `Astar(g, start, goal)`: the cost at which the goal leaves the open
   * list, which is the length of some walk from `start` to `goal` (0 when
   * they are the same node), or -1 exactly when no walk reaches the goal
   * below `INT_MAX`. The heuristic is not a lower bound on the remaining
   * distance, so the cost is not claimed to be the shortest.
   */
  method Astar(g: Graph, start: int, goal: int) returns (result: int)
    requires WellFormed(g) && NonNegative(g) && 0 <= start < |g|
    ensures result == -1 || (0 <= result < IntMax && Reached(g, start, goal, result))
    ensures result == -1 <==> forall p :: Follow(g, start, p) == Some(goal) ==> Len(g, start, p) >= IntMax
    ensures start == goal ==> result == 0
  {
    var n := |g|;
    var cost := seq(n, _ => IntMax)[start := 0];
    var open: seq<(int, int)> := [(0, start)];
    ghost var gq: seq<(int, int)> := [(0, start)];
    assert Follow(g, start, []) == Some(start) && Len(g, start, []) == 0;
    assert Reached(g, start, start, 0);
    while |open| > 0
      invariant AstarInv(g, start, goal, cost, open, gq)
      decreases Dijkstra.Sum(cost) + |gq|
    {
      Dijkstra.SumNonNegative(cost);
      var k := Dijkstra.MinIndex(open);
      var u := open[k].1;
      if u == goal {
        GoalPopped(g, start, goal, cost, open, gq, k);
        return cost[u];
      }
      cost, open, gq := AstarExpand(g, start, goal, cost, open, gq, k);
    }
    Drained(g, start, goal, cost, gq);
    result := -1;
  }

  /**
   * What the main loop of `Astar` keeps: the costs are lengths of walks,
   * every finite node is queued at its cost or relaxed, the open list
   * pairs with the queue of costs, and a finite goal cost is queued.
   */
  ghost predicate AstarInv(g: Graph, start: int, goal: int, cost: seq<int>, open: seq<(int, int)>, gq: seq<(int, int)>)
  {
    && WellFormed(g) && NonNegative(g) && 0 <= start < |g|
    && Dijkstra.Sound(g, start, IntMax, cost) && Dijkstra.QueueOk(g, cost, gq)
    && Dijkstra.Pending(g, IntMax, cost, gq, -1)
    && Paired(open, gq) && Finite(gq) && GoalQueued(cost, gq, goal)
  }

  /** Popping the goal: its cost is the length of a walk to it, below `INT_MAX`. */
  lemma GoalPopped(g: Graph, start: int, goal: int, cost: seq<int>, open: seq<(int, int)>, gq: seq<(int, int)>, k: int)
    requires AstarInv(g, start, goal, cost, open, gq) && 0 <= k < |open| && open[k].1 == goal
    ensures 0 <= cost[goal] < IntMax && Reached(g, start, goal, cost[goal])
    ensures !(forall p :: Follow(g, start, p) == Some(goal) ==> Len(g, start, p) >= IntMax)
    ensures start == goal ==> cost[goal] == 0
  {
    assert goal == gq[k].1 && cost[goal] <= gq[k].0 < IntMax;
    var p :| Follow(g, start, p) == Some(goal) && Len(g, start, p) == cost[goal];
  }

  /** The open list ran dry: the goal was never reached below `INT_MAX`. */
  lemma Drained(g: Graph, start: int, goal: int, cost: seq<int>, gq: seq<(int, int)>)
    requires AstarInv(g, start, goal, cost, [], gq)
    ensures forall p :: Follow(g, start, p) == Some(goal) ==> Len(g, start, p) >= IntMax
    ensures start != goal
  {
    Dijkstra.DrainedIsShortest(g, start, IntMax, cost, gq);
  }

  /** One round of the main loop of `Astar` for a node `u` other than the goal: pop it and scan its edges. */
  method AstarExpand(g: Graph, start: int, goal: int, cost0: seq<int>, open0: seq<(int, int)>,
                     ghost gq0: seq<(int, int)>, k: int)
    returns (cost: seq<int>, open: seq<(int, int)>, ghost gq: seq<(int, int)>)
    requires AstarInv(g, start, goal, cost0, open0, gq0) && 0 <= k < |open0| && open0[k].1 != goal
    ensures AstarInv(g, start, goal, cost, open, gq)
    ensures Dijkstra.Sum(cost) + |gq| < Dijkstra.Sum(cost0) + |gq0|
  {
    var u := open0[k].1;
    assert u == gq0[k].1;
    Dijkstra.PopKeepsPending(g, IntMax, cost0, gq0, k);
    PopKeepsGoal(cost0, gq0, goal, k);
    PopKeepsPaired(open0, gq0, k);
    open := open0[..k] + open0[k + 1..];
    gq := gq0[..k] + gq0[k + 1..];
    cost, open, gq := AstarScan(g, start, goal, u, cost0, open, gq);
    Dijkstra.ScannedPending(g, IntMax, cost, gq, u);
  }

  /** Stop `best` is unvisited and strictly nearer than every earlier unvisited stop, and no farther than any later one. */
  ghost predicate IsNearest(dist: seq<seq<int>>, current: int, visited: seq<bool>, best: int)
    requires 0 <= current < |dist| && |dist[current]| >= |dist| == |visited|
  {
    && 0 <= best < |dist| && !visited[best]
    && (forall i :: 0 <= i < best && !visited[i] ==> dist[current][best] < dist[current][i])
    && (forall i :: best < i < |dist| && !visited[i] ==> dist[current][best] <= dist[current][i])
  }

  /** There is only one nearest stop. */
  lemma NearestUnique(dist: seq<seq<int>>, current: int, visited: seq<bool>, a: int, b: int)
    requires 0 <= current < |dist| && |dist[current]| >= |dist| == |visited|
    requires IsNearest(dist, current, visited, a) && IsNearest(dist, current, visited, b)
    ensures a == b
  {
  }

  /**
   * `nearestStop(dist, current, visited)`: the unvisited stop nearest to
   * `current`, the lowest-numbered on ties, or -1 when every stop is visited.
   */
  method NearestStop(dist: seq<seq<int>>, current: int, visited: seq<bool>) returns (best: int)
    requires 0 <= current < |dist| && |dist[current]| >= |dist| == |visited|
    ensures best == -1 <==> forall i :: 0 <= i < |dist| ==> visited[i]
    ensures best != -1 ==> IsNearest(dist, current, visited, best)
  {
    best := -1;
    var i := 0;
    while i < |dist|
      invariant 0 <= i <= |dist| && -1 <= best < i
      invariant best == -1 <==> forall j :: 0 <= j < i ==> visited[j]
      invariant best != -1 ==> !visited[best]
      invariant best != -1 ==> forall j :: 0 <= j < best && !visited[j] ==> dist[current][best] < dist[current][j]
      invariant best != -1 ==> forall j :: best < j < i && !visited[j] ==> dist[current][best] <= dist[current][j]
    {
      if !visited[i] && (best == -1 || dist[current][i] < dist[current][best]) {
        best := i;
      }
      i := i + 1;
    }
  }

  /** The visited flags of `n` stops after visiting `path`. */
  ghost function Marks(path: seq<int>, n: nat): (m: seq<bool>)
    ensures |m| == n && forall v :: 0 <= v < n ==> (m[v] <==> v in path)
  {
    seq(n, v => v in path)
  }

  /** A square matrix of distances between `n >= 1` stops. */
  ghost predicate Square(dist: seq<seq<int>>)
  {
    forall i :: 0 <= i < |dist| ==> |dist[i]| == |dist|
  }

  /**
   * `greedyRoute(dist)`: starting at stop 0, visits every stop exactly once,
   * and each next stop is the stop nearest to the previous one among
   * those not yet on the route.
   */
  method GreedyRoute(dist: seq<seq<int>>) returns (path: seq<int>)
    requires |dist| >= 1 && Square(dist)
    ensures |path| == |dist| && path[0] == 0
    ensures forall k :: 0 <= k < |path| ==> 0 <= path[k] < |dist|
    ensures forall k, l :: 0 <= k < l < |path| ==> path[k] != path[l]
    ensures forall v :: 0 <= v < |dist| ==> v in path
    ensures forall k :: 0 < k < |path| ==> IsNearest(dist, path[k - 1], Marks(path[..k], |dist|), path[k])
  {
    var n := |dist|;
    var visited := seq(n, v => false)[0 := true];
    path := [0];
    var current := 0;
    var i := 1;
    while i < n
      invariant 1 <= i <= n && |path| == i && current == path[i - 1]
      invariant GreedyPrefix(dist, path) && visited == Marks(path, n)
    {
      Unvisited(path, n);
      var next := NearestStop(dist, current, visited);
      ghost var path0 := path;
      visited := visited[next := true];
      path := path + [next];
      GreedyExtend(dist, path0, next, path);
      current := next;
      i := i + 1;
    }
    Covers(path, n);
  }

  /**
   * What the loop of `greedyRoute` keeps: the route starts at stop 0, visits
   * distinct stops, and each next stop is the nearest unvisited one.
   */
  ghost predicate GreedyPrefix(dist: seq<seq<int>>, path: seq<int>)
    requires |dist| >= 1 && Square(dist)
  {
    && |path| >= 1 && path[0] == 0
    && (forall k :: 0 <= k < |path| ==> 0 <= path[k] < |dist|)
    && (forall k, l :: 0 <= k < l < |path| ==> path[k] != path[l])
    && (forall k :: 0 < k < |path| ==> IsNearest(dist, path[k - 1], Marks(path[..k], |dist|), path[k]))
  }

  /** Appending the nearest unvisited stop keeps `GreedyPrefix`. */
  lemma GreedyExtend(dist: seq<seq<int>>, path: seq<int>, next: int, path': seq<int>)
    requires |dist| >= 1 && Square(dist) && GreedyPrefix(dist, path) && |path| < |dist|
    requires IsNearest(dist, path[|path| - 1], Marks(path, |dist|), next) && path' == path + [next]
    ensures GreedyPrefix(dist, path') && Marks(path', |dist|) == Marks(path, |dist|)[next := true]
  {
    var n := |dist|;
    assert next !in path by {
      assert !Marks(path, n)[next];
    }
    assert path'[..|path|] == path;
    forall k | 0 < k < |path'| ensures IsNearest(dist, path'[k - 1], Marks(path'[..k], n), path'[k]) {
      if k < |path| {
        assert path'[..k] == path[..k];
      }
    }
    forall k, l | 0 <= k < l < |path'| ensures path'[k] != path'[l] {
      if l == |path| {
        assert path[k] in path;
      }
    }
  }

  /** Fewer than `n` distinct stops leave a stop out. */
  lemma Unvisited(path: seq<int>, n: nat)
    requires forall k :: 0 <= k < |path| ==> 0 <= path[k] < n
    requires forall k, l :: 0 <= k < l < |path| ==> path[k] != path[l]
    requires |path| < n
    ensures exists v :: 0 <= v < n && v !in path
  {
    if forall v :: 0 <= v < n ==> v in path {
      var S := set k | 0 <= k < |path| :: path[k];
      forall v | v in Reachability.Below(n) ensures v in S {
        assert 0 <= v < n;
        assert v in path;
        var k :| 0 <= k < |path| && path[k] == v;
      }
      Reachability.IndexSetSize(path);
      Reachability.SubsetSize(Reachability.Below(n), S);
      assert false;
    }
  }

  /** `n` distinct stops below `n` are all the stops. */
  lemma Covers(path: seq<int>, n: nat)
    requires forall k :: 0 <= k < |path| ==> 0 <= path[k] < n
    requires forall k, l :: 0 <= k < l < |path| ==> path[k] != path[l]
    requires |path| == n
    ensures forall v :: 0 <= v < n ==> v in path
  {
    var S := set k | 0 <= k < |path| :: path[k];
    Reachability.IndexSetSize(path);
    forall v | 0 <= v < n ensures v in path {
      if v !in path {
        assert S <= Reachability.Below(n) - {v};
        Reachability.SubsetSize(S, Reachability.Below(n) - {v});
        assert false;
      }
    }
  }
}
