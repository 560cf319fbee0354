/**
 * Weighted adjacency-list graphs as the programs build them
 * (`vector<vector<Edge>>`), walks through them, and what it means for a
 * distance vector to hold capped shortest distances.
 *
 * A walk from `src` is the sequence of edge choices made at each node:
 * `p[k]` is the index, in the adjacency list of the k-th node reached, of the
 * edge taken next. This representation keeps parallel edges apart.
 */
module WeightedGraphs {
  import opened Wrappers

  datatype Edge = Edge(to: int, w: int)
  type Graph = seq<seq<Edge>>

  /** Every edge points at a node of the graph. */
  ghost predicate WellFormed(g: Graph)
  {
    forall u, i :: 0 <= u < |g| && 0 <= i < |g[u]| ==> 0 <= g[u][i].to < |g|
  }

  ghost predicate NonNegative(g: Graph)
  {
    forall u, i :: 0 <= u < |g| && 0 <= i < |g[u]| ==> g[u][i].w >= 0
  }

  /** The node a walk ends at, or None when some choice names no edge. */
  ghost function Follow(g: Graph, src: int, p: seq<nat>): (r: Option<int>)
    requires WellFormed(g) && 0 <= src < |g|
    ensures r.Some? ==> 0 <= r.value < |g|
    decreases |p|
  {
    if p == [] then Some(src)
    else
      match Follow(g, src, p[..|p| - 1])
      case None => None
      case Some(u) => if p[|p| - 1] < |g[u]| then Some(g[u][p[|p| - 1]].to) else None
  }

  /** Total weight of a walk. */
  ghost function Len(g: Graph, src: int, p: seq<nat>): int
    requires WellFormed(g) && 0 <= src < |g| && Follow(g, src, p).Some?
    decreases |p|
  {
    if p == [] then 0
    else
      var u := Follow(g, src, p[..|p| - 1]).value;
      Len(g, src, p[..|p| - 1]) + g[u][p[|p| - 1]].w
  }

  /** Some walk from `src` ends at `v` with length `d`. */
  ghost predicate Reached(g: Graph, src: int, v: int, d: int)
    requires WellFormed(g) && 0 <= src < |g|
  {
    exists p :: Follow(g, src, p) == Some(v) && Len(g, src, p) == d
  }

  /** Extending a walk by one edge of its last node. */
  lemma FollowExtend(g: Graph, src: int, p: seq<nat>, i: nat)
    requires WellFormed(g) && 0 <= src < |g| && Follow(g, src, p).Some?
    requires i < |g[Follow(g, src, p).value]|
    ensures Follow(g, src, p + [i]) == Some(g[Follow(g, src, p).value][i].to)
    ensures Len(g, src, p + [i]) == Len(g, src, p) + g[Follow(g, src, p).value][i].w
  {
    assert (p + [i])[..|p|] == p;
  }

  /** With non-negative weights a walk weighs at least nothing. */
  lemma {:induction false} LenNonNegative(g: Graph, src: int, p: seq<nat>)
    requires WellFormed(g) && NonNegative(g) && 0 <= src < |g| && Follow(g, src, p).Some?
    ensures Len(g, src, p) >= 0
    decreases |p|
  {
    if p != [] {
      LenNonNegative(g, src, p[..|p| - 1]);
    }
  }

  /** No edge of `u` can shorten the distance of its target. */
  ghost predicate Relaxed(g: Graph, dist: seq<int>, u: int)
    requires WellFormed(g) && |dist| == |g| && 0 <= u < |g|
  {
    forall i :: 0 <= i < |g[u]| ==> dist[g[u][i].to] <= dist[u] + g[u][i].w
  }

  /**
   * `dist` holds, for every node, the length of a shortest walk from `src`,
   * capped at `inf` (the value left for nodes no walk reaches below `inf`).
   */
  ghost predicate CappedShortest(g: Graph, src: int, inf: int, dist: seq<int>)
    requires WellFormed(g) && 0 <= src < |g|
  {
    && |dist| == |g|
    && (forall v :: 0 <= v < |g| ==> dist[v] <= inf)
    && (forall v :: 0 <= v < |g| && dist[v] < inf ==> Reached(g, src, v, dist[v]))
    && (forall p :: Follow(g, src, p).Some? ==> dist[Follow(g, src, p).value] <= Len(g, src, p))
  }

  /**
   * What capped shortest distances say about one node: a node no walk
   * reaches keeps the sentinel, and a node below the sentinel has a walk of
   * exactly its distance and none shorter.
   */
  lemma CappedShortestAt(g: Graph, src: int, inf: int, dist: seq<int>, v: int)
    requires WellFormed(g) && 0 <= src < |g| && CappedShortest(g, src, inf, dist) && 0 <= v < |g|
    ensures (forall p :: Follow(g, src, p) != Some(v)) ==> dist[v] == inf
    ensures dist[v] < inf ==> Reached(g, src, v, dist[v]) && forall p :: Follow(g, src, p) == Some(v) ==> dist[v] <= Len(g, src, p)
  {
    if dist[v] < inf {
      assert Reached(g, src, v, dist[v]);
      var p :| Follow(g, src, p) == Some(v) && Len(g, src, p) == dist[v];
    }
  }

  /** The capped shortest distances are determined by the graph. */
  lemma CappedShortestUnique(g: Graph, src: int, inf: int, d1: seq<int>, d2: seq<int>)
    requires WellFormed(g) && 0 <= src < |g|
    requires CappedShortest(g, src, inf, d1) && CappedShortest(g, src, inf, d2)
    ensures d1 == d2
  {
    forall v | 0 <= v < |g| ensures d1[v] == d2[v] {
      if d1[v] < inf {
        assert Reached(g, src, v, d1[v]);
        var p :| Follow(g, src, p) == Some(v) && Len(g, src, p) == d1[v];
        assert d2[v] <= d1[v];
      }
      if d2[v] < inf {
        assert Reached(g, src, v, d2[v]);
        var p :| Follow(g, src, p) == Some(v) && Len(g, src, p) == d2[v];
        assert d1[v] <= d2[v];
      }
    }
  }

  /**
   * If every finite node is relaxed and `src` sits at 0, no walk is shorter
   * than the distance recorded for its end.
   */
  lemma {:induction false} RelaxedBoundsWalks(g: Graph, src: int, inf: int, dist: seq<int>, p: seq<nat>)
    requires WellFormed(g) && NonNegative(g) && 0 <= src < |g| && |dist| == |g|
    requires dist[src] <= 0
    requires forall v :: 0 <= v < |g| ==> dist[v] <= inf
    requires forall v :: 0 <= v < |g| && dist[v] < inf ==> Relaxed(g, dist, v)
    requires Follow(g, src, p).Some?
    ensures dist[Follow(g, src, p).value] <= Len(g, src, p)
    decreases |p|
  {
    if p != [] {
      var q := p[..|p| - 1];
      var i := p[|p| - 1];
      assert p == q + [i];
      RelaxedBoundsWalks(g, src, inf, dist, q);
      var u := Follow(g, src, q).value;
      FollowExtend(g, src, q, i);
      if dist[u] >= inf {
        LenNonNegative(g, src, q);
      }
    }
  }
}
