/**
 * `floydWarshall` of the traffic planner (trafic.cpp): all-pairs distances
 * on an `n x n` matrix whose missing roads hold `INF`. The copy of the
 * matrix is improved in place, pivot by pivot, and a pair is only relaxed
 * through a pivot when neither half is `INF`.
 *
 * A walk is a sequence of nodes, at least two, each step taking a matrix
 * entry other than `INF`; its cost is the sum of those entries.
 */
module FloydWarshall {
  import TrafficPaths

  type Matrix = seq<seq<int>>

  ghost predicate Square(m: Matrix, n: int)
  {
    |m| == n && forall i :: 0 <= i < n ==> |m[i]| == n
  }

  ghost predicate NonNegativeMatrix(m: Matrix)
  {
    forall i, j :: 0 <= i < |m| && 0 <= j < |m[i]| ==> m[i][j] >= 0
  }

  /** The entries named by consecutive nodes of `w`. */
  ghost predicate OnMatrix(m: Matrix, w: seq<int>)
  {
    Square(m, |m|) && forall t :: 0 <= t < |w| ==> 0 <= w[t] < |m|
  }

  /** `w` goes from `i` to `j` in at least one step, never over an `INF` entry. */
  ghost predicate IsWalk(m: Matrix, w: seq<int>, i: int, j: int)
  {
    && OnMatrix(m, w) && |w| >= 2 && w[0] == i && w[|w| - 1] == j
    && forall t :: 0 <= t < |w| - 1 ==> m[w[t]][w[t + 1]] != TrafficPaths.Inf
  }

  ghost function Cost(m: Matrix, w: seq<int>): int
    requires OnMatrix(m, w)
    decreases |w|
  {
    if |w| < 2 then 0 else m[w[0]][w[1]] + Cost(m, w[1..])
  }

  /** The nodes strictly inside `w` are all below `k`. */
  ghost predicate Via(w: seq<int>, k: int)
  {
    forall t :: 0 < t < |w| - 1 ==> w[t] < k
  }

  /** Some walk from `i` to `j` costs exactly `d`. */
  ghost predicate Achieved(m: Matrix, i: int, j: int, d: int)
  {
    exists w :: IsWalk(m, w, i, j) && Cost(m, w) == d
  }

  lemma {:induction false} CostSplit(m: Matrix, w: seq<int>, a: int)
    requires OnMatrix(m, w) && 0 <= a < |w|
    ensures Cost(m, w) == Cost(m, w[..a + 1]) + Cost(m, w[a..])
    decreases a
  {
    if a > 0 {
      CostSplit(m, w[1..], a - 1);
      assert w[1..][..a] == w[..a + 1][1..];
      assert w[1..][a - 1..] == w[a..];
    } else {
      assert w[0..] == w;
    }
  }

  lemma {:induction false} CostNonNegative(m: Matrix, w: seq<int>)
    requires OnMatrix(m, w) && NonNegativeMatrix(m)
    ensures Cost(m, w) >= 0
    decreases |w|
  {
    if |w| >= 2 {
      CostNonNegative(m, w[1..]);
    }
  }

  /** The part of a walk up to, and the part from, an inner node are walks. */
  lemma SubWalks(m: Matrix, w: seq<int>, i: int, j: int, a: int)
    requires IsWalk(m, w, i, j) && 0 < a < |w| - 1
    ensures IsWalk(m, w[..a + 1], i, w[a]) && IsWalk(m, w[a..], w[a], j)
    ensures Cost(m, w) == Cost(m, w[..a + 1]) + Cost(m, w[a..])
  {
    CostSplit(m, w, a);
    var p, s := w[..a + 1], w[a..];
    forall t | 0 <= t < |p| - 1 ensures m[p[t]][p[t + 1]] != TrafficPaths.Inf {
      assert p[t] == w[t] && p[t + 1] == w[t + 1];
    }
    forall t | 0 <= t < |s| - 1 ensures m[s[t]][s[t + 1]] != TrafficPaths.Inf {
      assert s[t] == w[a + t] && s[t + 1] == w[a + t + 1];
    }
  }

  /** Two walks meeting at `k` join into one whose cost is the sum. */
  lemma Join(m: Matrix, u: seq<int>, v: seq<int>, i: int, k: int, j: int)
    requires IsWalk(m, u, i, k) && IsWalk(m, v, k, j)
    ensures IsWalk(m, u + v[1..], i, j) && Cost(m, u + v[1..]) == Cost(m, u) + Cost(m, v)
  {
    var w := u + v[1..];
    JoinPieces(u, v, w);
    JoinSteps(m, u, v, i, k, j, w);
    CostSplit(m, w, |u| - 1);
  }

  /** The joined walk starts with `u` and ends with `v`. */
  lemma JoinPieces(u: seq<int>, v: seq<int>, w: seq<int>)
    requires |u| >= 1 && |v| >= 1 && u[|u| - 1] == v[0] && w == u + v[1..]
    ensures |w| == |u| + |v| - 1 && w[..|u|] == u && w[|u| - 1..] == v
  {
    var s := w[|u| - 1..];
    forall t | 0 <= t < |v| ensures s[t] == v[t] {
      if t > 0 {
        assert s[t] == w[|u| - 1 + t] == v[1..][t - 1];
      }
    }
    assert w[..|u|] == u;
  }

  lemma JoinSteps(m: Matrix, u: seq<int>, v: seq<int>, i: int, k: int, j: int, w: seq<int>)
    requires IsWalk(m, u, i, k) && IsWalk(m, v, k, j) && w == u + v[1..]
    ensures IsWalk(m, w, i, j)
  {
    forall t | 0 <= t < |w| ensures 0 <= w[t] < |m| {
      if t >= |u| {
        assert w[t] == v[t - |u| + 1];
      }
    }
    forall t | 0 <= t < |w| - 1 ensures m[w[t]][w[t + 1]] != TrafficPaths.Inf {
      if t < |u| - 1 {
        assert w[t] == u[t] && w[t + 1] == u[t + 1];
      } else {
        assert w[t] == v[t - |u| + 1] && w[t + 1] == v[t - |u| + 2];
        assert m[v[t - |u| + 1]][v[t - |u| + 2]] != TrafficPaths.Inf;
      }
    }
  }

  /**
   * A walk from `k` that may pass through `k` again can be cut to its part
   * after the last visit, which avoids `k` inside and costs no more.
   */
  lemma {:induction false} DropLoopsFrom(m: Matrix, w: seq<int>, k: int, j: int) returns (r: seq<int>)
    requires NonNegativeMatrix(m) && IsWalk(m, w, k, j) && Via(w, k + 1)
    ensures IsWalk(m, r, k, j) && Via(r, k) && Cost(m, r) <= Cost(m, w)
    decreases |w|
  {
    if exists t :: 0 < t < |w| - 1 && w[t] == k {
      var t :| 0 < t < |w| - 1 && w[t] == k;
      SubWalks(m, w, k, j, t);
      CostNonNegative(m, w[..t + 1]);
      assert Via(w[t..], k + 1) by {
        assert forall x :: 0 < x < |w[t..]| - 1 ==> w[t..][x] == w[t + x];
      }
      r := DropLoopsFrom(m, w[t..], k, j);
    } else {
      r := w;
    }
  }

  /** Symmetrically, a walk to `k` can be cut at its first visit of `k`. */
  lemma {:induction false} DropLoopsTo(m: Matrix, w: seq<int>, i: int, k: int) returns (r: seq<int>)
    requires NonNegativeMatrix(m) && IsWalk(m, w, i, k) && Via(w, k + 1)
    ensures IsWalk(m, r, i, k) && Via(r, k) && Cost(m, r) <= Cost(m, w)
    decreases |w|
  {
    if exists t :: 0 < t < |w| - 1 && w[t] == k {
      var t :| 0 < t < |w| - 1 && w[t] == k;
      SubWalks(m, w, i, k, t);
      CostNonNegative(m, w[t..]);
      assert Via(w[..t + 1], k + 1) by {
        assert forall x :: 0 < x < t ==> w[..t + 1][x] == w[x];
      }
      r := DropLoopsTo(m, w[..t + 1], i, k);
    } else {
      r := w;
    }
  }

  /** Every entry is the input entry or the cost of a walk. */
  ghost predicate Sound(m: Matrix, d: Matrix)
  {
    && Square(m, |m|) && Square(d, |m|)
    && forall i, j :: 0 <= i < |m| && 0 <= j < |m| ==> d[i][j] == m[i][j] || Achieved(m, i, j, d[i][j])
  }

  ghost predicate NoLarger(d: Matrix, d0: Matrix)
    requires Square(d0, |d0|) && Square(d, |d0|)
  {
    forall i, j :: 0 <= i < |d0| && 0 <= j < |d0| ==> d[i][j] <= d0[i][j]
  }

  /** No finite walk with inner nodes below `k` costs less than the entry for its ends. */
  ghost predicate Bound(m: Matrix, d: Matrix, k: int)
    requires Square(m, |m|) && Square(d, |m|)
  {
    forall i, j, w :: 0 <= i < |m| && 0 <= j < |m| && IsWalk(m, w, i, j) && Via(w, k) && Cost(m, w) < TrafficPaths.Inf ==>
      d[i][j] <= Cost(m, w)
  }

  /** The pairs relaxed so far through pivot `k` are no worse than the pivot route at the round's start. */
  ghost predicate Through(d0: Matrix, d: Matrix, k: int, i: int, j: int)
    requires Square(d0, |d0|) && Square(d, |d0|) && 0 <= k < |d0|
  {
    forall x, y ::
      (0 <= x < |d0| && 0 <= y < |d0| && (x < i || (x == i && y < j)) &&
       d0[x][k] < TrafficPaths.Inf && d0[k][y] < TrafficPaths.Inf) ==> d[x][y] <= d0[x][k] + d0[k][y]
  }

  /** A finite entry of a sound matrix is the cost of a walk. */
  lemma WalkFor(m: Matrix, d: Matrix, i: int, j: int) returns (w: seq<int>)
    requires Sound(m, d) && 0 <= i < |m| && 0 <= j < |m| && d[i][j] != TrafficPaths.Inf
    ensures IsWalk(m, w, i, j) && Cost(m, w) == d[i][j]
  {
    if d[i][j] == m[i][j] {
      w := [i, j];
      assert Cost(m, w[1..]) == 0;
    } else {
      w :| IsWalk(m, w, i, j) && Cost(m, w) == d[i][j];
    }
  }

  /** Relaxing `(i, j)` through `k` with finite halves keeps every entry a walk cost. */
  lemma RelaxKeepsSound(m: Matrix, d: Matrix, i: int, j: int, k: int)
    requires Sound(m, d) && 0 <= i < |m| && 0 <= j < |m| && 0 <= k < |m|
    requires d[i][k] != TrafficPaths.Inf && d[k][j] != TrafficPaths.Inf
    ensures Sound(m, d[i := d[i][j := d[i][k] + d[k][j]]])
  {
    var u := WalkFor(m, d, i, k);
    var v := WalkFor(m, d, k, j);
    Join(m, u, v, i, k, j);
    assert Achieved(m, i, j, d[i][k] + d[k][j]);
  }

  /** What the inner loop of `floydWarshall` keeps, with the pairs before `(i, j)` done. */
  ghost predicate RowScan(m: Matrix, d0: Matrix, k: int, i: int, j: int, d: Matrix)
  {
    && Sound(m, d0) && Sound(m, d) && 0 <= k < |m| && 0 <= i < |m| && 0 <= j <= |m|
    && NoLarger(d, d0) && Through(d0, d, k, i, j)
  }

  /** The pair `(i, j)` improves through `k`. */
  lemma RowRelaxed(m: Matrix, d0: Matrix, k: int, i: int, j: int, d: Matrix, d': Matrix)
    requires RowScan(m, d0, k, i, j, d) && j < |m|
    requires d[i][k] != TrafficPaths.Inf && d[k][j] != TrafficPaths.Inf && d[i][k] + d[k][j] < d[i][j]
    requires d' == d[i := d[i][j := d[i][k] + d[k][j]]]
    ensures RowScan(m, d0, k, i, j + 1, d')
  {
    RelaxKeepsSound(m, d, i, j, k);
    assert d[i][k] <= d0[i][k] && d[k][j] <= d0[k][j];
    forall x, y | 0 <= x < |d0| && 0 <= y < |d0| ensures d'[x][y] <= d[x][y] {
    }
  }

  /** The pair `(i, j)` stays: a half is `INF`, or the pivot route is no shorter. */
  lemma RowKept(m: Matrix, d0: Matrix, k: int, i: int, j: int, d: Matrix)
    requires RowScan(m, d0, k, i, j, d) && j < |m|
    requires !(d[i][k] != TrafficPaths.Inf && d[k][j] != TrafficPaths.Inf && d[i][k] + d[k][j] < d[i][j])
    ensures RowScan(m, d0, k, i, j + 1, d)
  {
    assert d[i][k] <= d0[i][k] && d[k][j] <= d0[k][j];
  }

  /** The inner loop over `j` for the row `i` and the pivot `k`. */
  method RelaxRow(m: Matrix, d0: Matrix, k: int, i: int, d1: Matrix) returns (d: Matrix)
    requires Sound(m, d0) && Sound(m, d1) && 0 <= k < |m| && 0 <= i < |m|
    requires NoLarger(d1, d0) && Through(d0, d1, k, i, 0)
    ensures Sound(m, d) && NoLarger(d, d0) && Through(d0, d, k, i + 1, 0)
  {
    var n := |m|;
    d := d1;
    var j := 0;
    while j < n
      invariant RowScan(m, d0, k, i, j, d)
    {
      if d[i][k] != TrafficPaths.Inf && d[k][j] != TrafficPaths.Inf && d[i][k] + d[k][j] < d[i][j] {
        ghost var dOld := d;
        var via := d[i][k] + d[k][j];
        d := d[i := d[i][j := via]];
        RowRelaxed(m, d0, k, i, j, dOld, d);
      } else {
        RowKept(m, d0, k, i, j, d);
      }
      j := j + 1;
    }
    RowDone(m, d0, k, i, d);
  }

  lemma RowDone(m: Matrix, d0: Matrix, k: int, i: int, d: Matrix)
    requires RowScan(m, d0, k, i, |m|, d)
    ensures Through(d0, d, k, i + 1, 0)
  {
  }

  /** One pivot round over every pair. */
  method RelaxPivot(m: Matrix, d0: Matrix, k: int) returns (d: Matrix)
    requires Sound(m, d0) && 0 <= k < |m|
    ensures Sound(m, d) && NoLarger(d, d0) && Through(d0, d, k, |m|, 0)
  {
    d := d0;
    var i := 0;
    while i < |m|
      invariant 0 <= i <= |m|
      invariant Sound(m, d) && NoLarger(d, d0) && Through(d0, d, k, i, 0)
    {
      d := RelaxRow(m, d0, k, i, d);
      i := i + 1;
    }
  }

  /** With non-negative entries, a round through `k` admits `k` as an inner node. */
  lemma PivotBound(m: Matrix, d0: Matrix, d: Matrix, k: int)
    requires Sound(m, d0) && Sound(m, d) && NonNegativeMatrix(m) && 0 <= k < |m|
    requires Bound(m, d0, k) && NoLarger(d, d0) && Through(d0, d, k, |m|, 0)
    ensures Bound(m, d, k + 1)
  {
    forall i, j, w | 0 <= i < |m| && 0 <= j < |m| && IsWalk(m, w, i, j) && Via(w, k + 1) && Cost(m, w) < TrafficPaths.Inf
      ensures d[i][j] <= Cost(m, w)
    {
      if exists t :: 0 < t < |w| - 1 && w[t] == k {
        var t :| 0 < t < |w| - 1 && w[t] == k;
        PivotSplit(m, d0, k, i, j, w, t);
      } else {
        assert Via(w, k);
        assert d0[i][j] <= Cost(m, w);
      }
    }
  }

  /**
   * A walk through `k` is no cheaper than the best routes to `k` and from
   * `k` known at the start of the round, both of which are then finite.
   */
  lemma PivotSplit(m: Matrix, d0: Matrix, k: int, i: int, j: int, w: seq<int>, t: int)
    requires Sound(m, d0) && NonNegativeMatrix(m) && 0 <= k < |m| && Bound(m, d0, k)
    requires 0 <= i < |m| && 0 <= j < |m| && IsWalk(m, w, i, j) && Via(w, k + 1) && Cost(m, w) < TrafficPaths.Inf
    requires 0 < t < |w| - 1 && w[t] == k
    ensures d0[i][k] < TrafficPaths.Inf && d0[k][j] < TrafficPaths.Inf && d0[i][k] + d0[k][j] <= Cost(m, w)
  {
    SubWalks(m, w, i, j, t);
    var p, s := w[..t + 1], w[t..];
    assert Via(p, k + 1) by {
      assert forall x :: 0 < x < t ==> p[x] == w[x];
    }
    assert Via(s, k + 1) by {
      assert forall x :: 0 < x < |s| - 1 ==> s[x] == w[t + x];
    }
    CostNonNegative(m, p);
    CostNonNegative(m, s);
    var p' := DropLoopsTo(m, p, i, k);
    var s' := DropLoopsFrom(m, s, k, j);
    assert d0[i][k] <= Cost(m, p');
    assert d0[k][j] <= Cost(m, s');
  }

  /** With no inner node allowed, a walk is one matrix entry. */
  lemma DirectBound(m: Matrix)
    requires Square(m, |m|)
    ensures Bound(m, m, 0)
  {
    forall i, j, w | 0 <= i < |m| && 0 <= j < |m| && IsWalk(m, w, i, j) && Via(w, 0) && Cost(m, w) < TrafficPaths.Inf
      ensures m[i][j] <= Cost(m, w)
    {
      assert w == [i, j];
      assert Cost(m, w[1..]) == 0;
    }
  }

  /**
   * `floydWarshall(graphMatrix)`: no entry grows; every entry is its input
   * entry or the cost of a walk over non-`INF` entries; and with
   * non-negative entries no walk costing less than `INF` is cheaper than the
   * entry for its ends, so the result is the all-pairs shortest distance.
   */
  method AllPairs(m: Matrix) returns (dist: Matrix)
    requires Square(m, |m|)
    ensures Square(dist, |m|) && Sound(m, dist)
    ensures forall i, j :: 0 <= i < |m| && 0 <= j < |m| ==> dist[i][j] <= m[i][j]
    ensures NonNegativeMatrix(m) ==>
      forall i, j, w :: 0 <= i < |m| && 0 <= j < |m| && IsWalk(m, w, i, j) && Cost(m, w) < TrafficPaths.Inf ==>
        dist[i][j] <= Cost(m, w)
  {
    var n := |m|;
    dist := m;
    DirectBound(m);
    var k := 0;
    while k < n
      invariant 0 <= k <= n
      invariant Sound(m, dist) && NoLarger(dist, m)
      invariant NonNegativeMatrix(m) ==> Bound(m, dist, k)
    {
      ghost var d0 := dist;
      dist := RelaxPivot(m, dist, k);
      if NonNegativeMatrix(m) {
        PivotBound(m, d0, dist, k);
      }
      k := k + 1;
    }
    if NonNegativeMatrix(m) {
      forall i, j, w | 0 <= i < |m| && 0 <= j < |m| && IsWalk(m, w, i, j) && Cost(m, w) < TrafficPaths.Inf
        ensures dist[i][j] <= Cost(m, w)
      {
        assert Via(w, n);
      }
    }
  }
}
