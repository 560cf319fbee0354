/**
 * Single-source shortest paths of the traffic planner (trafic.cpp) over its
 * road graph: `dijkstra` (lazy deletion, skipping entries whose distance
 * exceeds the node's current one) and `bellmanFord` (`n - 1` rounds over
 * every edge, never relaxing from an unreached node, then one more pass that
 * only warns about a negative cycle). `INF` is `1e9`, stored in `int`
 * distance vectors.
 */
module TrafficPaths {
  import opened Wrappers
  import opened WeightedGraphs
  import Dijkstra

  const Inf := 1000000000

  /** `dijkstra(src, graph)`: capped shortest distances, 0 at the source. */
  method ShortestTimes(g: Graph, src: int) returns (dist: seq<int>)
    requires WellFormed(g) && NonNegative(g) && 0 <= src < |g|
    ensures CappedShortest(g, src, Inf, dist) && dist[src] == 0
  {
    dist := Dijkstra.ShortestFrom(g, src, Inf, Dijkstra.SkipIfGreater, Dijkstra.FromCurrent);
  }

  /**
   * A walk every proper prefix of which is shorter than `Inf`, so that
   * Bellman-Ford, which never relaxes from a node still at `Inf`, can follow
   * it edge by edge.
   */
  ghost predicate FiniteWalk(g: Graph, src: int, p: seq<nat>)
    requires WellFormed(g) && 0 <= src < |g|
    decreases |p|
  {
    p == [] ||
    (var q := p[..|p| - 1];
     FiniteWalk(g, src, q) && Follow(g, src, q).Some? && Len(g, src, q) < Inf)
  }

  /** Tentative distances: the source is at most 0 and each value below `Inf` is a walk's length. */
  ghost predicate Sound(g: Graph, src: int, dist: seq<int>)
    requires WellFormed(g) && 0 <= src < |g|
  {
    && |dist| == |g| && dist[src] <= 0
    && (forall v :: 0 <= v < |g| ==> dist[v] <= Inf)
    && (forall v :: 0 <= v < |g| && dist[v] < Inf ==> Reached(g, src, v, dist[v]))
  }

  /** No finite walk of at most `r` edges is shorter than the distance of its end. */
  ghost predicate BoundedBy(g: Graph, src: int, dist: seq<int>, r: int)
    requires WellFormed(g) && 0 <= src < |g| && |dist| == |g|
  {
    forall p :: Follow(g, src, p).Some? && |p| <= r && FiniteWalk(g, src, p) ==>
      dist[Follow(g, src, p).value] <= Len(g, src, p)
  }

  /** Edge `i` of `u` could still be relaxed: what the final pass warns about. */
  predicate Relaxable(g: Graph, dist: seq<int>, u: int, i: int)
    requires WellFormed(g) && |dist| == |g| && 0 <= u < |g| && 0 <= i < |g[u]|
  {
    dist[u] != Inf && dist[u] + g[u][i].w < dist[g[u][i].to]
  }

  /**
   * Every edge of a node before `u`, and the first `i` edges of `u`, has
   * been relaxed from its tail's distance at the start of the round.
   */
  ghost predicate DoneUpTo(g: Graph, d0: seq<int>, dist: seq<int>, u: int, i: int)
    requires WellFormed(g) && |d0| == |g| && |dist| == |g|
  {
    forall x, j :: 0 <= x < |g| && 0 <= j < |g[x]| && (x < u || (x == u && j < i)) && d0[x] < Inf ==>
      dist[g[x][j].to] <= d0[x] + g[x][j].w
  }

  ghost predicate NoLarger(dist: seq<int>, d0: seq<int>)
  {
    |dist| == |d0| && forall v :: 0 <= v < |dist| ==> dist[v] <= d0[v]
  }

  /** `dist[u] + w < dist[v]` with `dist[u]` finite: the new value is a walk's length. */
  lemma RelaxKeepsSound(g: Graph, src: int, dist: seq<int>, u: int, i: nat)
    requires WellFormed(g) && 0 <= src < |g| && 0 <= u < |g| && i < |g[u]|
    requires Sound(g, src, dist) && Relaxable(g, dist, u, i)
    ensures Sound(g, src, dist[g[u][i].to := dist[u] + g[u][i].w])
  {
    var p :| Follow(g, src, p) == Some(u) && Len(g, src, p) == dist[u];
    FollowExtend(g, src, p, i);
    assert Reached(g, src, g[u][i].to, dist[u] + g[u][i].w);
  }

  /** A round's relaxations extend the bound by one edge. */
  lemma RoundExtends(g: Graph, src: int, d0: seq<int>, dist: seq<int>, r: int)
    requires WellFormed(g) && 0 <= src < |g| && |d0| == |g| && NoLarger(dist, d0) && r >= 0
    requires BoundedBy(g, src, d0, r) && DoneUpTo(g, d0, dist, |g|, 0)
    ensures BoundedBy(g, src, dist, r + 1)
  {
    forall p | Follow(g, src, p).Some? && |p| <= r + 1 && FiniteWalk(g, src, p)
      ensures dist[Follow(g, src, p).value] <= Len(g, src, p)
    {
      if |p| <= r {
        assert d0[Follow(g, src, p).value] <= Len(g, src, p);
      } else {
        var q, i := p[..|p| - 1], p[|p| - 1];
        assert p == q + [i];
        FollowExtend(g, src, q, i);
        var u := Follow(g, src, q).value;
        assert d0[u] <= Len(g, src, q) < Inf;
      }
    }
  }

  /** Edge `i` of `u` relaxed once: the update the innermost loop makes. */
  function RelaxEdge(g: Graph, dist: seq<int>, u: int, i: int): (d: seq<int>)
    requires WellFormed(g) && |dist| == |g| && 0 <= u < |g| && 0 <= i < |g[u]|
    ensures |d| == |g| && d[g[u][i].to] <= dist[g[u][i].to]
    ensures forall v :: 0 <= v < |g| && v != g[u][i].to ==> d[v] == dist[v]
  {
    if Relaxable(g, dist, u, i) then dist[g[u][i].to := dist[u] + g[u][i].w] else dist
  }

  lemma RelaxEdgeNoLarger(g: Graph, d0: seq<int>, u: int, i: int, dist: seq<int>)
    requires WellFormed(g) && |d0| == |g| && 0 <= u < |g| && 0 <= i < |g[u]| && NoLarger(dist, d0)
    ensures NoLarger(RelaxEdge(g, dist, u, i), d0)
  {
    var d := RelaxEdge(g, dist, u, i);
    forall v | 0 <= v < |d| ensures d[v] <= d0[v] {
      assert d[v] <= dist[v];
    }
  }

  lemma RelaxEdgeDone(g: Graph, d0: seq<int>, u: int, i: int, dist: seq<int>)
    requires WellFormed(g) && |d0| == |g| && 0 <= u < |g| && 0 <= i < |g[u]|
    requires NoLarger(dist, d0) && DoneUpTo(g, d0, dist, u, i)
    ensures DoneUpTo(g, d0, RelaxEdge(g, dist, u, i), u, i + 1)
  {
    var d := RelaxEdge(g, dist, u, i);
    forall x, j | 0 <= x < |g| && 0 <= j < |g[x]| && (x < u || (x == u && j < i + 1)) && d0[x] < Inf
      ensures d[g[x][j].to] <= d0[x] + g[x][j].w
    {
      var t := g[x][j].to;
      assert d[t] <= dist[t];
      if x == u && j == i {
        assert dist[u] <= d0[u];
      }
    }
  }

  /** Relaxes the edges of `u` in order, as the innermost loop does. */
  method RelaxNode(g: Graph, src: int, d0: seq<int>, u: int, dist0: seq<int>) returns (dist: seq<int>)
    requires WellFormed(g) && 0 <= src < |g| && 0 <= u < |g| && |d0| == |g|
    requires Sound(g, src, dist0) && NoLarger(dist0, d0) && DoneUpTo(g, d0, dist0, u, 0)
    ensures Sound(g, src, dist) && NoLarger(dist, d0) && DoneUpTo(g, d0, dist, u + 1, 0)
  {
    dist := dist0;
    var i := 0;
    while i < |g[u]|
      invariant 0 <= i <= |g[u]|
      invariant Sound(g, src, dist) && NoLarger(dist, d0) && DoneUpTo(g, d0, dist, u, i)
    {
      var e := g[u][i];
      RelaxEdgeNoLarger(g, d0, u, i, dist);
      RelaxEdgeDone(g, d0, u, i, dist);
      if dist[u] != Inf && dist[u] + e.w < dist[e.to] {
        RelaxKeepsSound(g, src, dist, u, i);
      }
      dist := RelaxEdge(g, dist, u, i);
      i := i + 1;
    }
  }

  /** One round: every edge of every node, in node order. */
  method RelaxRound(g: Graph, src: int, d0: seq<int>) returns (dist: seq<int>)
    requires WellFormed(g) && 0 <= src < |g| && Sound(g, src, d0)
    ensures Sound(g, src, dist) && NoLarger(dist, d0) && DoneUpTo(g, d0, dist, |g|, 0)
  {
    dist := d0;
    var u := 0;
    while u < |g|
      invariant 0 <= u <= |g|
      invariant Sound(g, src, dist) && NoLarger(dist, d0) && DoneUpTo(g, d0, dist, u, 0)
    {
      dist := RelaxNode(g, src, d0, u, dist);
      u := u + 1;
    }
  }

  /**
   * `bellmanFord(src, graph)`. Each distance below `Inf` is the length of a
   * walk from `src`, and none exceeds any finite walk of at most `n - 1`
   * edges. `warned` is what the final pass prints: it holds exactly when an
   * edge from a reached node could still be relaxed; when it does not hold,
   * no finite walk of any length is shorter than the distance of its end.
   */
  method BellmanFord(g: Graph, src: int) returns (dist: seq<int>, warned: bool)
    requires WellFormed(g) && 0 <= src < |g|
    ensures Sound(g, src, dist) && BoundedBy(g, src, dist, |g| - 1)
    ensures !warned <==> forall u, i :: 0 <= u < |g| && 0 <= i < |g[u]| ==> !Relaxable(g, dist, u, i)
    ensures !warned ==> forall p :: Follow(g, src, p).Some? && FiniteWalk(g, src, p) ==>
              dist[Follow(g, src, p).value] <= Len(g, src, p)
  {
    var n := |g|;
    dist := seq(n, _ => Inf)[src := 0];
    assert Follow(g, src, []) == Some(src) && Len(g, src, []) == 0;
    assert Reached(g, src, src, 0);
    var r := 0;
    while r < n - 1
      invariant 0 <= r <= n - 1
      invariant Sound(g, src, dist) && BoundedBy(g, src, dist, r)
    {
      ghost var d0 := dist;
      dist := RelaxRound(g, src, dist);
      RoundExtends(g, src, d0, dist, r);
      r := r + 1;
    }
    warned := DetectNegativeCycle(g, dist);
    if !warned {
      forall p | Follow(g, src, p).Some? && FiniteWalk(g, src, p)
        ensures dist[Follow(g, src, p).value] <= Len(g, src, p)
      {
        SettledBoundsWalks(g, src, dist, p);
      }
    }
  }

  /** The final pass over every edge of every node. */
  method DetectNegativeCycle(g: Graph, dist: seq<int>) returns (warned: bool)
    requires WellFormed(g) && |dist| == |g|
    ensures !warned <==> forall u, i :: 0 <= u < |g| && 0 <= i < |g[u]| ==> !Relaxable(g, dist, u, i)
  {
    warned := false;
    var u := 0;
    while u < |g|
      invariant 0 <= u <= |g|
      invariant !warned <==> forall x, i :: 0 <= x < u && 0 <= i < |g[x]| ==> !Relaxable(g, dist, x, i)
    {
      var i := 0;
      while i < |g[u]|
        invariant 0 <= i <= |g[u]|
        invariant !warned <==> forall x, j :: 0 <= x < |g| && 0 <= j < |g[x]| && (x < u || (x == u && j < i)) ==> !Relaxable(g, dist, x, j)
      {
        var e := g[u][i];
        if dist[u] != Inf && dist[u] + e.w < dist[e.to] {
          assert Relaxable(g, dist, u, i);
          warned := true;
        }
        i := i + 1;
      }
      u := u + 1;
    }
  }

  /** With no edge relaxable, every finite walk bounds the distance of its end. */
  lemma {:induction false} SettledBoundsWalks(g: Graph, src: int, dist: seq<int>, p: seq<nat>)
    requires WellFormed(g) && 0 <= src < |g| && Sound(g, src, dist)
    requires forall u, i :: 0 <= u < |g| && 0 <= i < |g[u]| ==> !Relaxable(g, dist, u, i)
    requires Follow(g, src, p).Some? && FiniteWalk(g, src, p)
    ensures dist[Follow(g, src, p).value] <= Len(g, src, p)
    decreases |p|
  {
    if p != [] {
      var q, i := p[..|p| - 1], p[|p| - 1];
      assert p == q + [i];
      SettledBoundsWalks(g, src, dist, q);
      FollowExtend(g, src, q, i);
      var u := Follow(g, src, q).value;
      assert !Relaxable(g, dist, u, i);
    }
  }
}
