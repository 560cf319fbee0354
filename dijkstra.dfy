/**
 * The lazy-deletion Dijkstra that every program of the collection carries
 * its own copy of. The copies differ in two details, which are parameters
 * here: whether a popped entry whose distance is out of date is skipped, and
 * whether an edge is relaxed from the popped distance or from the node's
 * current distance. The priority queue is `priority_queue<pair<int,int>>`
 * with `greater<>`, so the smallest (distance, node) pair leaves first.
 */
module Dijkstra {
  import opened Wrappers
  import opened WeightedGraphs

  /** Which popped entries are discarded before their edges are scanned. */
  datatype StaleCheck = NoSkip | SkipIfGreater | SkipIfUnequal

  /** The distance that the relaxation `base + w < dist[v]` starts from. */
  datatype RelaxBase = FromPopped | FromCurrent

  predicate PairLess(a: (int, int), b: (int, int))
  {
    a.0 < b.0 || (a.0 == b.0 && a.1 < b.1)
  }

  /** Position of the entry `priority_queue` with `greater<>` would pop. */
  function MinIndex(pq: seq<(int, int)>): (k: nat)
    requires |pq| > 0
    ensures k < |pq|
    ensures forall j :: 0 <= j < |pq| ==> !PairLess(pq[j], pq[k])
  {
    if |pq| == 1 then 0
    else
      var k := MinIndex(pq[..|pq| - 1]);
      if PairLess(pq[|pq| - 1], pq[k]) then |pq| - 1 else k
  }

  predicate Skips(check: StaleCheck, d: int, current: int)
  {
    match check
    case NoSkip => false
    case SkipIfGreater => d > current
    case SkipIfUnequal => d != current
  }

  function Sum(s: seq<int>): int
  {
    if s == [] then 0 else Sum(s[..|s| - 1]) + s[|s| - 1]
  }

  lemma {:induction false} SumUpdate(s: seq<int>, i: int, x: int)
    requires 0 <= i < |s|
    ensures Sum(s[i := x]) == Sum(s) - s[i] + x
    decreases |s|
  {
    var t := s[i := x];
    if i < |s| - 1 {
      assert t[..|t| - 1] == s[..|s| - 1][i := x];
      SumUpdate(s[..|s| - 1], i, x);
    } else {
      assert t[..|t| - 1] == s[..|s| - 1];
    }
  }

  lemma SumDecrease(s: seq<int>, i: int, x: int)
    requires 0 <= i < |s| && x < s[i]
    ensures Sum(s[i := x]) < Sum(s)
  {
    SumUpdate(s, i, x);
  }

  lemma {:induction false} SumNonNegative(s: seq<int>)
    requires forall k :: 0 <= k < |s| ==> s[k] >= 0
    ensures Sum(s) >= 0
    decreases |s|
  {
    if s != [] {
      SumNonNegative(s[..|s| - 1]);
    }
  }

  /** Bounds on the tentative distances; each finite one is the length of a walk. */
  ghost predicate Sound(g: Graph, src: int, inf: int, dist: seq<int>)
    requires WellFormed(g) && 0 <= src < |g|
  {
    && |dist| == |g| && dist[src] == 0
    && (forall v :: 0 <= v < |g| ==> 0 <= dist[v] <= inf)
    && (forall v :: 0 <= v < |g| && dist[v] < inf ==> Reached(g, src, v, dist[v]))
  }

  /** Every queued entry names a node and is no smaller than its distance. */
  ghost predicate QueueOk(g: Graph, dist: seq<int>, pq: seq<(int, int)>)
    requires |dist| == |g|
  {
    forall k :: 0 <= k < |pq| ==> 0 <= pq[k].1 < |g| && pq[k].0 >= dist[pq[k].1]
  }

  /** Every finite node other than `except` is queued at its distance or already relaxed. */
  ghost predicate Pending(g: Graph, inf: int, dist: seq<int>, pq: seq<(int, int)>, except: int)
    requires WellFormed(g) && |dist| == |g|
  {
    forall v {:trigger Relaxed(g, dist, v)} ::
      0 <= v < |g| && dist[v] < inf && v != except ==> (dist[v], v) in pq || Relaxed(g, dist, v)
  }

  /** One successful relaxation `dist[t] := dist[u] + w` over edge `i` of `u`. */
  lemma RelaxKeepsSound(g: Graph, src: int, inf: int, dist: seq<int>, u: int, i: nat, dist': seq<int>)
    requires WellFormed(g) && 0 <= src < |g| && 0 <= u < |g| && i < |g[u]|
    requires Sound(g, src, inf, dist)
    requires dist[u] + g[u][i].w < dist[g[u][i].to] && g[u][i].w >= 0
    requires dist' == dist[g[u][i].to := dist[u] + g[u][i].w]
    ensures Sound(g, src, inf, dist')
  {
    var p :| Follow(g, src, p) == Some(u) && Len(g, src, p) == dist[u];
    FollowExtend(g, src, p, i);
    assert Reached(g, src, g[u][i].to, dist[u] + g[u][i].w);
  }

  lemma RelaxKeepsQueue(g: Graph, dist: seq<int>, pq: seq<(int, int)>, t: int, x: int,
                         dist': seq<int>, pq': seq<(int, int)>)
    requires |dist| == |g| && 0 <= t < |g| && x < dist[t]
    requires QueueOk(g, dist, pq) && dist' == dist[t := x] && pq' == pq + [(x, t)]
    ensures QueueOk(g, dist', pq')
  {
  }

  lemma RelaxKeepsPending(g: Graph, inf: int, dist: seq<int>, pq: seq<(int, int)>, u: int, t: int, x: int,
                           d': seq<int>, pq': seq<(int, int)>)
    requires WellFormed(g) && |dist| == |g| && 0 <= t < |g| && t != u && x < dist[t]
    requires Pending(g, inf, dist, pq, u) && d' == dist[t := x] && pq' == pq + [(x, t)]
    ensures Pending(g, inf, d', pq', u)
  {
    forall v | 0 <= v < |g| && d'[v] < inf && v != u
      ensures (d'[v], v) in pq' || Relaxed(g, d', v)
    {
      if v == t {
        assert pq'[|pq|] == (d'[v], v);
      } else if (dist[v], v) in pq {
        assert (d'[v], v) in pq';
      } else {
        assert Relaxed(g, dist, v);
      }
    }
  }

  /** The first `i` edges of `u` are relaxed. */
  ghost predicate RelaxedUpTo(g: Graph, dist: seq<int>, u: int, i: int)
    requires WellFormed(g) && |dist| == |g| && 0 <= u < |g| && 0 <= i <= |g[u]|
  {
    forall j :: 0 <= j < i ==> dist[g[u][j].to] <= dist[u] + g[u][j].w
  }

  /**
   * What the scan over the edges of `u` keeps, with the first `i` edges
   * done and `budget` the bound on `Sum(dist) + |pq|` it started from.
   */
  ghost predicate EdgeScan(g: Graph, src: int, inf: int, u: int, i: int, dist: seq<int>,
                           pq: seq<(int, int)>, budget: int)
  {
    && WellFormed(g) && 0 <= src < |g| && 0 <= u < |g| && 0 <= i <= |g[u]|
    && Sound(g, src, inf, dist) && QueueOk(g, dist, pq)
    && Pending(g, inf, dist, pq, u) && RelaxedUpTo(g, dist, u, i)
    && Sum(dist) + |pq| <= budget
  }

  /** Relaxing edge `i` of `u` keeps every invariant of the scan. */
  lemma RelaxStepKeeps(g: Graph, src: int, inf: int, u: int, i: nat, dist: seq<int>,
                       pq: seq<(int, int)>, budget: int, dist': seq<int>, pq': seq<(int, int)>)
    requires NonNegative(g) && EdgeScan(g, src, inf, u, i, dist, pq, budget) && i < |g[u]|
    requires dist[u] + g[u][i].w < dist[g[u][i].to]
    requires dist' == dist[g[u][i].to := dist[u] + g[u][i].w]
    requires pq' == pq + [(dist[u] + g[u][i].w, g[u][i].to)]
    ensures EdgeScan(g, src, inf, u, i + 1, dist', pq', budget)
  {
    var e := g[u][i];
    assert e.w >= 0 && 0 <= e.to < |g|;
    assert e.to != u;
    var x := dist[u] + e.w;
    SumDecrease(dist, e.to, x);
    RelaxKeepsSound(g, src, inf, dist, u, i, dist');
    RelaxKeepsQueue(g, dist, pq, e.to, x, dist', pq');
    RelaxKeepsPending(g, inf, dist, pq, u, e.to, x, dist', pq');
    RelaxKeepsUpTo(g, dist, u, i, dist');
  }

  lemma RelaxKeepsUpTo(g: Graph, dist: seq<int>, u: int, i: nat, dist': seq<int>)
    requires WellFormed(g) && |dist| == |g| && 0 <= u < |g| && i < |g[u]| && g[u][i].to != u
    requires RelaxedUpTo(g, dist, u, i) && dist[u] + g[u][i].w < dist[g[u][i].to]
    requires dist' == dist[g[u][i].to := dist[u] + g[u][i].w]
    ensures RelaxedUpTo(g, dist', u, i + 1)
  {
    forall j | 0 <= j < i + 1 ensures dist'[g[u][j].to] <= dist'[u] + g[u][j].w {
      if j < i {
        assert dist[g[u][j].to] <= dist[u] + g[u][j].w;
      }
    }
  }

  lemma NoRelaxStepKeeps(g: Graph, src: int, inf: int, u: int, i: nat, dist: seq<int>,
                         pq: seq<(int, int)>, budget: int)
    requires EdgeScan(g, src, inf, u, i, dist, pq, budget) && i < |g[u]|
    requires dist[g[u][i].to] <= dist[u] + g[u][i].w
    ensures EdgeScan(g, src, inf, u, i + 1, dist, pq, budget)
  {
  }

  /** Relaxes every edge of `u` from `dist[u]`, queueing each improved target. */
  method ScanEdges(g: Graph, src: int, inf: int, u: int, dist0: seq<int>, pq0: seq<(int, int)>)
    returns (dist: seq<int>, pq: seq<(int, int)>)
    requires WellFormed(g) && NonNegative(g) && 0 <= src < |g| && 0 <= u < |g|
    requires Sound(g, src, inf, dist0) && QueueOk(g, dist0, pq0)
    requires Pending(g, inf, dist0, pq0, u)
    ensures Sound(g, src, inf, dist) && QueueOk(g, dist, pq)
    ensures Pending(g, inf, dist, pq, u) && Relaxed(g, dist, u)
    ensures Sum(dist) + |pq| <= Sum(dist0) + |pq0|
  {
    dist, pq := dist0, pq0;
    var i := 0;
    while i < |g[u]|
      invariant EdgeScan(g, src, inf, u, i, dist, pq, Sum(dist0) + |pq0|)
    {
      var e := g[u][i];
      if dist[u] + e.w < dist[e.to] {
        ghost var dist1, pq1 := dist, pq;
        dist := dist[e.to := dist[u] + e.w];
        pq := pq + [(dist[e.to], e.to)];
        RelaxStepKeeps(g, src, inf, u, i, dist1, pq1, Sum(dist0) + |pq0|, dist, pq);
      } else {
        NoRelaxStepKeeps(g, src, inf, u, i, dist, pq, Sum(dist0) + |pq0|);
      }
      i := i + 1;
    }
  }

  /** Removing the popped entry keeps every other node's queue entry. */
  lemma PopKeepsPending(g: Graph, inf: int, dist: seq<int>, pq: seq<(int, int)>, k: nat)
    requires WellFormed(g) && |dist| == |g| && k < |pq|
    requires Pending(g, inf, dist, pq, -1) && QueueOk(g, dist, pq)
    ensures QueueOk(g, dist, pq[..k] + pq[k + 1..])
    ensures Pending(g, inf, dist, pq[..k] + pq[k + 1..], pq[k].1)
    ensures pq[k] != (dist[pq[k].1], pq[k].1) ==> Pending(g, inf, dist, pq[..k] + pq[k + 1..], -1)
  {
    var rest := pq[..k] + pq[k + 1..];
    assert pq == pq[..k] + [pq[k]] + pq[k + 1..];
    assert forall x :: x in pq && x != pq[k] ==> x in rest;
  }

  /** Once relaxed, `u` needs no queue entry. */
  lemma ScannedPending(g: Graph, inf: int, dist: seq<int>, pq: seq<(int, int)>, u: int)
    requires WellFormed(g) && |dist| == |g| && 0 <= u < |g|
    requires Pending(g, inf, dist, pq, u) && Relaxed(g, dist, u)
    ensures Pending(g, inf, dist, pq, -1)
  {
  }

  /** With the queue empty every finite node is relaxed, so the tentative distances are final. */
  lemma DrainedIsShortest(g: Graph, src: int, inf: int, dist: seq<int>, pq: seq<(int, int)>)
    requires WellFormed(g) && NonNegative(g) && 0 <= src < |g|
    requires Sound(g, src, inf, dist) && Pending(g, inf, dist, pq, -1) && pq == []
    ensures forall v :: 0 <= v < |g| && dist[v] < inf ==> Reached(g, src, v, dist[v])
    ensures forall p :: Follow(g, src, p).Some? ==> dist[Follow(g, src, p).value] <= Len(g, src, p)
  {
    forall p | Follow(g, src, p).Some?
      ensures dist[Follow(g, src, p).value] <= Len(g, src, p)
    {
      RelaxedBoundsWalks(g, src, inf, dist, p);
    }
  }

  /**
   * Distances from `src` with `inf` for nodes not reached below `inf`.
   * Relaxing from a stale popped distance is never combined with keeping
   * stale entries in the sources, and is excluded here.
   */
  method ShortestFrom(g: Graph, src: int, inf: int, check: StaleCheck, base: RelaxBase)
    returns (dist: seq<int>)
    requires WellFormed(g) && NonNegative(g) && 0 <= src < |g| && inf >= 0
    requires check == NoSkip ==> base == FromCurrent
    ensures |dist| == |g| && dist[src] == 0
    ensures forall v :: 0 <= v < |g| ==> 0 <= dist[v] <= inf
    ensures forall v :: 0 <= v < |g| && dist[v] < inf ==> Reached(g, src, v, dist[v])
    ensures forall p :: Follow(g, src, p).Some? ==> dist[Follow(g, src, p).value] <= Len(g, src, p)
  {
    var n := |g|;
    dist := seq(n, _ => inf)[src := 0];
    var pq: seq<(int, int)> := [(0, src)];
    assert Follow(g, src, []) == Some(src) && Len(g, src, []) == 0;
    assert Reached(g, src, src, 0);
    while |pq| > 0
      invariant Sound(g, src, inf, dist) && QueueOk(g, dist, pq)
      invariant Pending(g, inf, dist, pq, -1)
      decreases Sum(dist) + |pq|
    {
      SumNonNegative(dist);
      var k := MinIndex(pq);
      var d, u := pq[k].0, pq[k].1;
      PopKeepsPending(g, inf, dist, pq, k);
      pq := pq[..k] + pq[k + 1..];
      if Skips(check, d, dist[u]) {
        continue;
      }
      // Both relaxation bases coincide once the stale check has passed.
      var from := if base == FromPopped then d else dist[u];
      assert from == dist[u];
      dist, pq := ScanEdges(g, src, inf, u, dist, pq);
      ScannedPending(g, inf, dist, pq, u);
    }
    DrainedIsShortest(g, src, inf, dist, pq);
  }
}
