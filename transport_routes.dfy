/**
 * The routing utilities of the goods transport planner (acase10.cpp):
 * shortest road distances from every node (`dijkstra`, with `1e18` for
 * nodes it does not reach, and `allPairsShortest`), the length of a route
 * over the distance matrix (`routeDistance`), and the 2-opt improvement
 * that reverses one segment of a route when that shortens it
 * (`twoOptImprove`, `twoOptLoop`). Distances are whole numbers here, as
 * the code only adds, subtracts and compares them.
 */
module TransportRoutes {
  import opened WeightedGraphs
  import Dijkstra

  /** `1e18`, the distance of a node the search does not reach. */
  const Inf := 1_000_000_000_000_000_000

  /** `dijkstra(g, src)`: it skips queue entries above the current distance and relaxes from the popped distance. */
  method ShortestDistances(g: Graph, src: int) returns (dist: seq<int>)
    requires WellFormed(g) && NonNegative(g) && 0 <= src < |g|
    ensures CappedShortest(g, src, Inf, dist) && dist[src] == 0
  {
    dist := Dijkstra.ShortestFrom(g, src, Inf, Dijkstra.SkipIfGreater, Dijkstra.FromPopped);
  }

  type Matrix = seq<seq<int>>

  ghost predicate IsMatrix(m: Matrix)
  {
    forall i :: 0 <= i < |m| ==> |m[i]| == |m|
  }

  /** `allPairsShortest(g)`: row `i` holds the shortest distances from node `i`. */
  method AllPairsShortest(g: Graph) returns (ap: Matrix)
    requires WellFormed(g) && NonNegative(g)
    ensures |ap| == |g| && IsMatrix(ap)
    ensures forall i :: 0 <= i < |g| ==> CappedShortest(g, i, Inf, ap[i]) && ap[i][i] == 0
  {
    ap := [];
    var i := 0;
    while i < |g|
      invariant 0 <= i <= |g| && |ap| == i
      invariant forall k :: 0 <= k < i ==> |ap[k]| == |g| && CappedShortest(g, k, Inf, ap[k]) && ap[k][k] == 0
    {
      var row := ShortestDistances(g, i);
      ap := ap + [row];
      i := i + 1;
    }
  }

  /** Every node of the route indexes the matrix. */
  ghost predicate OnMatrix(r: seq<int>, m: Matrix)
  {
    forall k :: 0 <= k < |r| ==> 0 <= r[k] < |m|
  }

  ghost predicate Symmetric(m: Matrix)
    requires IsMatrix(m)
  {
    forall i, j :: 0 <= i < |m| && 0 <= j < |m| ==> m[i][j] == m[j][i]
  }

  /** `distMat[u][v]`, and 0 off the matrix, where the code never reads. */
  function Dist(m: Matrix, u: int, v: int): int
  {
    if 0 <= u < |m| && 0 <= v < |m[u]| then m[u][v] else 0
  }

  /** The distance along a route: the sum over its consecutive pairs of nodes. */
  ghost function PathLength(r: seq<int>, m: Matrix): int
  {
    if |r| <= 1 then 0 else PathLength(r[..|r| - 1], m) + Dist(m, r[|r| - 2], r[|r| - 1])
  }

  /** `routeDistance(route, distMat)`: the length of the route, 0 when it has at most one node. */
  method RouteDistance(route: seq<int>, m: Matrix) returns (total: int)
    requires IsMatrix(m) && OnMatrix(route, m)
    ensures total == PathLength(route, m)
    ensures |route| <= 1 ==> total == 0
  {
    total := 0;
    var i := 1;
    while i < |route|
      invariant 1 <= i <= |route| || (|route| == 0 && i == 1)
      invariant total == PathLength(route[..if i <= |route| then i else 0], m)
    {
      assert route[..i + 1][..i] == route[..i];
      total := total + m[route[i - 1]][route[i]];
      i := i + 1;
    }
    if |route| > 0 {
      assert route[..i] == route;
    }
  }

  /** Joining two routes adds the step from the end of one to the start of the other. */
  lemma {:induction false} PathAppend(a: seq<int>, b: seq<int>, m: Matrix)
    requires |a| >= 1 && |b| >= 1
    ensures PathLength(a + b, m) == PathLength(a, m) + Dist(m, a[|a| - 1], b[0]) + PathLength(b, m)
    decreases |b|
  {
    var ab := a + b;
    assert ab[..|ab| - 1] == a + b[..|b| - 1];
    if |b| == 1 {
      assert ab[..|ab| - 1] == a;
    } else {
      PathAppend(a, b[..|b| - 1], m);
      assert b[..|b| - 1][0] == b[0];
    }
  }

  function Reverse(s: seq<int>): (r: seq<int>)
    ensures |r| == |s| && forall k :: 0 <= k < |s| ==> r[k] == s[|s| - 1 - k]
  {
    if s == [] then [] else Reverse(s[1..]) + [s[0]]
  }

  lemma {:induction false} ReverseSame(s: seq<int>)
    ensures multiset(Reverse(s)) == multiset(s)
    decreases |s|
  {
    if s != [] {
      ReverseSame(s[1..]);
      assert s == [s[0]] + s[1..];
    }
  }

  /** On a symmetric matrix a route and its reverse have the same length. */
  lemma {:induction false} PathReverse(s: seq<int>, m: Matrix)
    requires IsMatrix(m) && Symmetric(m) && OnMatrix(s, m)
    ensures PathLength(Reverse(s), m) == PathLength(s, m)
    decreases |s|
  {
    if |s| >= 2 {
      var t := s[1..];
      assert OnMatrix(t, m);
      PathReverse(t, m);
      var rt := Reverse(t);
      assert Reverse(s) == rt + [s[0]];
      PathAppend(rt, [s[0]], m);
      PathAppend([s[0]], t, m);
      assert [s[0]] + t == s;
      assert rt[|rt| - 1] == s[1] && t[0] == s[1];
      assert PathLength([s[0]], m) == 0;
      assert m[s[1]][s[0]] == m[s[0]][s[1]];
      assert Dist(m, s[1], s[0]) == Dist(m, s[0], s[1]);
    }
  }

  /** What reversing `route[i..j]` saves: the two edges it removes less the two it adds. */
  function Gain(route: seq<int>, m: Matrix, i: int, j: int): int
    requires IsMatrix(m) && OnMatrix(route, m) && 1 <= i < j <= |route| - 2
  {
    (m[route[i - 1]][route[i]] + m[route[j]][route[j + 1]]) - (m[route[i - 1]][route[j]] + m[route[i]][route[j + 1]])
  }

  /** `route` with `route[i..j]` reversed, as `std::reverse(route.begin() + i, route.begin() + j + 1)` leaves it. */
  function TwoOpt(route: seq<int>, i: int, j: int): seq<int>
    requires 0 <= i <= j < |route|
  {
    route[..i] + Reverse(route[i..j + 1]) + route[j + 1..]
  }

  lemma TwoOptAt(route: seq<int>, i: int, j: int)
    requires 0 <= i <= j < |route|
    ensures |TwoOpt(route, i, j)| == |route|
    ensures forall k :: 0 <= k < |route| ==>
      TwoOpt(route, i, j)[k] == if i <= k <= j then route[j - (k - i)] else route[k]
  {
    var a, rb, c := route[..i], Reverse(route[i..j + 1]), route[j + 1..];
    var t := a + rb + c;
    forall k | 0 <= k < |route| ensures t[k] == if i <= k <= j then route[j - (k - i)] else route[k] {
      if k < i {
        assert t[k] == a[k];
      } else if k <= j {
        assert t[k] == rb[k - i];
      } else {
        assert t[k] == c[k - j - 1];
      }
    }
  }

  /** A 2-opt move keeps the length, the end points and the nodes of the route. */
  lemma TwoOptKeeps(route: seq<int>, m: Matrix, i: int, j: int)
    requires OnMatrix(route, m) && 1 <= i < j <= |route| - 2
    ensures |TwoOpt(route, i, j)| == |route| && OnMatrix(TwoOpt(route, i, j), m)
    ensures TwoOpt(route, i, j)[0] == route[0] && TwoOpt(route, i, j)[|route| - 1] == route[|route| - 1]
    ensures multiset(TwoOpt(route, i, j)) == multiset(route)
  {
    TwoOptOnMatrix(route, m, i, j);
    TwoOptEnds(route, i, j);
    TwoOptBag(route, i, j);
  }

  lemma TwoOptOnMatrix(route: seq<int>, m: Matrix, i: int, j: int)
    requires OnMatrix(route, m) && 0 <= i <= j < |route|
    ensures |TwoOpt(route, i, j)| == |route| && OnMatrix(TwoOpt(route, i, j), m)
  {
    TwoOptAt(route, i, j);
    var t := TwoOpt(route, i, j);
    forall k | 0 <= k < |t| ensures 0 <= t[k] < |m| {
      if i <= k <= j {
        assert t[k] == route[j - (k - i)];
      } else {
        assert t[k] == route[k];
      }
    }
  }

  lemma TwoOptEnds(route: seq<int>, i: int, j: int)
    requires 1 <= i < j <= |route| - 2
    ensures |TwoOpt(route, i, j)| == |route|
    ensures TwoOpt(route, i, j)[0] == route[0] && TwoOpt(route, i, j)[|route| - 1] == route[|route| - 1]
  {
    TwoOptAt(route, i, j);
  }

  lemma TwoOptBag(route: seq<int>, i: int, j: int)
    requires 0 <= i <= j < |route|
    ensures multiset(TwoOpt(route, i, j)) == multiset(route)
  {
    var a, b, c := route[..i], route[i..j + 1], route[j + 1..];
    ReverseSame(b);
    MiddleSameBag(a, Reverse(b), b, c);
    SplitThree(route, i, j);
  }

  /** A route is its three pieces around `i .. j`, joined. */
  lemma SplitThree(s: seq<int>, i: int, j: int)
    requires 0 <= i <= j < |s|
    ensures s[..i] + s[i..j + 1] + s[j + 1..] == s
  {
    var t := s[..i] + s[i..j + 1] + s[j + 1..];
    forall k | 0 <= k < |s| ensures t[k] == s[k] {
      if k < i {
        assert t[k] == s[..i][k];
      } else if k <= j {
        assert t[k] == s[i..j + 1][k - i];
      } else {
        assert t[k] == s[j + 1..][k - j - 1];
      }
    }
  }

  lemma MiddleSameBag(a: seq<int>, x: seq<int>, y: seq<int>, c: seq<int>)
    requires multiset(x) == multiset(y)
    ensures multiset(a + x + c) == multiset(a + y + c)
  {
  }

  /** The length of a route cut into three non-empty pieces. */
  lemma PathSplit3(a: seq<int>, b: seq<int>, c: seq<int>, m: Matrix)
    requires |a| >= 1 && |b| >= 1 && |c| >= 1
    ensures PathLength(a + b + c, m)
         == PathLength(a, m) + Dist(m, a[|a| - 1], b[0]) + PathLength(b, m) + Dist(m, b[|b| - 1], c[0]) + PathLength(c, m)
  {
    PathAppend(a, b, m);
    var ab := a + b;
    assert ab[|ab| - 1] == b[|b| - 1];
    PathAppend(ab, c, m);
    assert ab + c == a + b + c;
  }

  /** Reversing the middle piece swaps its two joining edges for two new ones. */
  lemma ReverseMiddle(a: seq<int>, b: seq<int>, c: seq<int>, m: Matrix)
    requires IsMatrix(m) && Symmetric(m) && OnMatrix(b, m) && |a| >= 1 && |b| >= 1 && |c| >= 1
    ensures PathLength(a + Reverse(b) + c, m)
         == PathLength(a + b + c, m)
            - (Dist(m, a[|a| - 1], b[0]) + Dist(m, b[|b| - 1], c[0]))
            + (Dist(m, a[|a| - 1], b[|b| - 1]) + Dist(m, b[0], c[0]))
  {
    PathReverse(b, m);
    var rb := Reverse(b);
    PathSplit3(a, b, c, m);
    PathSplit3(a, rb, c, m);
    assert rb[0] == b[|b| - 1] && rb[|rb| - 1] == b[0];
  }

  /** On a symmetric matrix, a 2-opt move shortens the route by exactly its gain. */
  lemma TwoOptLength(route: seq<int>, m: Matrix, i: int, j: int)
    requires IsMatrix(m) && Symmetric(m) && OnMatrix(route, m) && 1 <= i < j <= |route| - 2
    ensures OnMatrix(TwoOpt(route, i, j), m)
    ensures PathLength(TwoOpt(route, i, j), m) == PathLength(route, m) - Gain(route, m, i, j)
  {
    var a, b, c := route[..i], route[i..j + 1], route[j + 1..];
    var u, x, y, v := route[i - 1], route[i], route[j], route[j + 1];
    assert b[0] == x && b[j - i] == y && c[0] == v && a[i - 1] == u;
    assert OnMatrix(b, m);
    SplitThree(route, i, j);
    ReverseMiddle(a, b, c, m);
    assert Dist(m, u, x) == m[u][x] && Dist(m, y, v) == m[y][v];
    assert Dist(m, u, y) == m[u][y] && Dist(m, x, v) == m[x][v];
    TwoOptOnMatrix(route, m, i, j);
  }

  /** The moves `i, j` that `twoOptImprove` tries: `1 <= i < j <= n - 2`. */
  predicate Move(n: int, i: int, j: int)
  {
    1 <= i < j <= n - 2
  }

  /** `(i, j)` comes before `(I, J)` in the order the two loops try moves. */
  predicate Earlier(i: int, j: int, I: int, J: int)
  {
    i < I || (i == I && j < J)
  }

  /** `(bi, bj)` is the move `twoOptImprove` makes: of positive gain, none larger, and none as large tried earlier. */
  ghost predicate BestMove(route: seq<int>, m: Matrix, bi: int, bj: int)
    requires IsMatrix(m) && OnMatrix(route, m)
  {
    && Move(|route|, bi, bj) && Gain(route, m, bi, bj) > 0
    && forall i, j :: Move(|route|, i, j) ==>
         Gain(route, m, i, j) <= Gain(route, m, bi, bj)
         && (Earlier(i, j, bi, bj) ==> Gain(route, m, i, j) < Gain(route, m, bi, bj))
  }

  /** No 2-opt move has positive gain. */
  ghost predicate TwoOptOptimal(route: seq<int>, m: Matrix)
    requires IsMatrix(m) && OnMatrix(route, m)
  {
    forall i, j :: Move(|route|, i, j) ==> Gain(route, m, i, j) <= 0
  }

  /** `1e-9`, the gain a move must exceed. */
  const Threshold: real := 0.000000001

  /** What the two loops of `twoOptImprove` know on reaching the move `(I, J)`. */
  ghost predicate GainScan(route: seq<int>, m: Matrix, I: int, J: int, improved: bool, bi: int, bj: int, bestGain: real)
    requires IsMatrix(m) && OnMatrix(route, m)
  {
    && (improved ==>
          && Move(|route|, bi, bj) && Earlier(bi, bj, I, J)
          && Gain(route, m, bi, bj) > 0 && bestGain == Gain(route, m, bi, bj) as real
          && forall i, j :: Move(|route|, i, j) && Earlier(i, j, I, J) ==>
               Gain(route, m, i, j) <= Gain(route, m, bi, bj)
               && (Earlier(i, j, bi, bj) ==> Gain(route, m, i, j) < Gain(route, m, bi, bj)))
    && (!improved ==>
          && bestGain == Threshold
          && forall i, j :: Move(|route|, i, j) && Earlier(i, j, I, J) ==> Gain(route, m, i, j) <= 0)
  }

  lemma GainScanStep(route: seq<int>, m: Matrix, I: int, J: int, improved: bool, bi: int, bj: int, bestGain: real)
    requires IsMatrix(m) && OnMatrix(route, m) && Move(|route|, I, J)
    requires GainScan(route, m, I, J, improved, bi, bj, bestGain)
    ensures Gain(route, m, I, J) as real > bestGain ==> GainScan(route, m, I, J + 1, true, I, J, Gain(route, m, I, J) as real)
    ensures !(Gain(route, m, I, J) as real > bestGain) ==> GainScan(route, m, I, J + 1, improved, bi, bj, bestGain)
  {
    var g := Gain(route, m, I, J);
    if g as real > bestGain {
      if improved {
        assert g > Gain(route, m, bi, bj);
      } else {
        assert g > 0;
      }
      forall i, j | Move(|route|, i, j) && Earlier(i, j, I, J + 1) && !(i == I && j == J)
        ensures Gain(route, m, i, j) < g
      {
        assert Earlier(i, j, I, J);
      }
    }
  }

  lemma GainScanRow(route: seq<int>, m: Matrix, I: int, improved: bool, bi: int, bj: int, bestGain: real)
    requires IsMatrix(m) && OnMatrix(route, m)
    requires GainScan(route, m, I, |route| - 1, improved, bi, bj, bestGain)
    ensures GainScan(route, m, I + 1, I + 2, improved, bi, bj, bestGain)
  {
    if improved {
      forall i, j | Move(|route|, i, j) && Earlier(i, j, I + 1, I + 2)
        ensures Gain(route, m, i, j) <= Gain(route, m, bi, bj)
        ensures Earlier(i, j, bi, bj) ==> Gain(route, m, i, j) < Gain(route, m, bi, bj)
      {
        assert Earlier(i, j, I, |route| - 1);
      }
    } else {
      forall i, j | Move(|route|, i, j) && Earlier(i, j, I + 1, I + 2) ensures Gain(route, m, i, j) <= 0 {
        assert Earlier(i, j, I, |route| - 1);
      }
    }
  }

  /**
   * `twoOptImprove(route, distMat)`: when some move gains, the route gets
   * the first move of largest gain; otherwise it is left as it is. Routes
   * of at most three nodes have no move.
   */
  method TwoOptImprove(route: seq<int>, m: Matrix) returns (improved: bool, r: seq<int>, bi: int, bj: int)
    requires IsMatrix(m) && OnMatrix(route, m)
    ensures |route| <= 3 ==> !improved
    ensures improved ==> BestMove(route, m, bi, bj) && r == TwoOpt(route, bi, bj)
    ensures !improved ==> r == route && TwoOptOptimal(route, m)
  {
    improved, r := false, route;
    var n := |route|;
    if n <= 3 {
      return false, route, -1, -1;
    }
    var bestGain := Threshold;
    bi, bj := -1, -1;
    var i := 1;
    while i < n - 2
      invariant 1 <= i <= n - 2 && GainScan(route, m, i, i + 1, improved, bi, bj, bestGain)
    {
      var j := i + 1;
      while j < n - 1
        invariant i + 1 <= j <= n - 1 && GainScan(route, m, i, j, improved, bi, bj, bestGain)
      {
        var before := m[route[i - 1]][route[i]] + m[route[j]][route[j + 1]];
        var after := m[route[i - 1]][route[j]] + m[route[i]][route[j + 1]];
        var gain := before - after;
        GainScanStep(route, m, i, j, improved, bi, bj, bestGain);
        if gain as real > bestGain {
          bestGain := gain as real;
          bi, bj := i, j;
          improved := true;
        }
        j := j + 1;
      }
      GainScanRow(route, m, i, improved, bi, bj, bestGain);
      i := i + 1;
    }
    if improved {
      r := TwoOpt(route, bi, bj);
    }
  }

  /** What a run of 2-opt moves keeps. */
  ghost predicate SameTour(route: seq<int>, r: seq<int>, m: Matrix)
    requires IsMatrix(m) && OnMatrix(route, m)
  {
    && |r| == |route| && OnMatrix(r, m) && multiset(r) == multiset(route)
    && (|route| >= 1 ==> r[0] == route[0] && r[|r| - 1] == route[|route| - 1])
    && (Symmetric(m) ==> PathLength(r, m) <= PathLength(route, m))
  }

  /** Two best moves on the same route are the same move. */
  lemma BestMoveUnique(route: seq<int>, m: Matrix, i: int, j: int, k: int, l: int)
    requires IsMatrix(m) && OnMatrix(route, m)
    requires BestMove(route, m, i, j) && BestMove(route, m, k, l)
    ensures i == k && j == l
  {
    var g, h := Gain(route, m, i, j), Gain(route, m, k, l);
    assert Earlier(i, j, k, l) ==> g < h && h <= g;
    assert Earlier(k, l, i, j) ==> h < g && g <= h;
  }

  /**
   * A run of `twoOptImprove` calls that each made a move: `steps[0]` is the
   * route, and each step is the one before with its best move applied.
   */
  ghost predicate TwoOptRun(route: seq<int>, m: Matrix, steps: seq<seq<int>>, moves: seq<(int, int)>)
  {
    && IsMatrix(m) && |steps| == |moves| + 1 && steps[0] == route
    && forall k :: 0 <= k < |moves| ==>
         && OnMatrix(steps[k], m) && BestMove(steps[k], m, moves[k].0, moves[k].1)
         && steps[k + 1] == TwoOpt(steps[k], moves[k].0, moves[k].1)
  }

  /**
   * What `twoOptLoop` leaves: `r` is the end of a run of at most `limit`
   * moves (none for a negative limit), and a run shorter than `limit`
   * stopped because no move gains any more.
   */
  ghost predicate TwoOptResult(route: seq<int>, m: Matrix, limit: int, r: seq<int>, steps: seq<seq<int>>, moves: seq<(int, int)>)
  {
    && TwoOptRun(route, m, steps, moves) && r == steps[|moves|] && OnMatrix(r, m)
    && |moves| <= (if limit > 0 then limit else 0)
    && (|moves| < limit ==> TwoOptOptimal(r, m))
  }

  /** Two runs from the same route agree as far as both go. */
  lemma {:induction false} RunsAgree(route: seq<int>, m: Matrix, s1: seq<seq<int>>, mv1: seq<(int, int)>,
                                     s2: seq<seq<int>>, mv2: seq<(int, int)>, k: int)
    requires TwoOptRun(route, m, s1, mv1) && TwoOptRun(route, m, s2, mv2)
    requires 0 <= k <= |mv1| && k <= |mv2|
    ensures s1[k] == s2[k]
    decreases k
  {
    if k > 0 {
      RunsAgree(route, m, s1, mv1, s2, mv2, k - 1);
      BestMoveUnique(s1[k - 1], m, mv1[k - 1].0, mv1[k - 1].1, mv2[k - 1].0, mv2[k - 1].1);
    }
  }

  /** A route no move improves ends every run through it. */
  lemma OptimalStops(route: seq<int>, m: Matrix, steps: seq<seq<int>>, moves: seq<(int, int)>, k: int)
    requires TwoOptRun(route, m, steps, moves) && 0 <= k < |moves|
    ensures !TwoOptOptimal(steps[k], m)
  {
    assert BestMove(steps[k], m, moves[k].0, moves[k].1);
  }

  /** The result of `twoOptLoop` is determined by the route, the matrix and the limit. */
  lemma TwoOptResultUnique(route: seq<int>, m: Matrix, limit: int, r1: seq<int>, s1: seq<seq<int>>, mv1: seq<(int, int)>,
                           r2: seq<int>, s2: seq<seq<int>>, mv2: seq<(int, int)>)
    requires TwoOptResult(route, m, limit, r1, s1, mv1) && TwoOptResult(route, m, limit, r2, s2, mv2)
    ensures r1 == r2
  {
    if |mv1| < |mv2| {
      RunsAgree(route, m, s1, mv1, s2, mv2, |mv1|);
      OptimalStops(route, m, s2, mv2, |mv1|);
    } else if |mv2| < |mv1| {
      RunsAgree(route, m, s1, mv1, s2, mv2, |mv2|);
      OptimalStops(route, m, s1, mv1, |mv2|);
    } else {
      RunsAgree(route, m, s1, mv1, s2, mv2, |mv1|);
    }
  }

  /** On a symmetric matrix every move of a run makes the route strictly shorter. */
  lemma RunShortens(route: seq<int>, m: Matrix, steps: seq<seq<int>>, moves: seq<(int, int)>, k: int)
    requires TwoOptRun(route, m, steps, moves) && Symmetric(m) && 0 <= k < |moves|
    ensures PathLength(steps[k + 1], m) < PathLength(steps[k], m)
  {
    TwoOptLength(steps[k], m, moves[k].0, moves[k].1);
  }

  /** One more move extends a run. */
  lemma RunStep(route: seq<int>, m: Matrix, steps: seq<seq<int>>, moves: seq<(int, int)>, bi: int, bj: int)
    requires TwoOptRun(route, m, steps, moves) && OnMatrix(steps[|moves|], m)
    requires BestMove(steps[|moves|], m, bi, bj)
    ensures TwoOptRun(route, m, steps + [TwoOpt(steps[|moves|], bi, bj)], moves + [(bi, bj)])
  {
    var s', mv' := steps + [TwoOpt(steps[|moves|], bi, bj)], moves + [(bi, bj)];
    forall k | 0 <= k < |mv'|
      ensures OnMatrix(s'[k], m) && BestMove(s'[k], m, mv'[k].0, mv'[k].1) && s'[k + 1] == TwoOpt(s'[k], mv'[k].0, mv'[k].1)
    {
      if k < |moves| {
        assert s'[k] == steps[k] && s'[k + 1] == steps[k + 1] && mv'[k] == moves[k];
      }
    }
  }

  /**
   * `twoOptLoop(route, distMat, iterLimit)`: at most `iterLimit` calls of
   * `twoOptImprove`, stopping after the first that makes no move, which
   * leaves a route no move improves: `r` is the `TwoOptResult` of the
   * best-move run over `steps`. The route keeps its end points and nodes,
   * and on a symmetric matrix it gets no longer.
   */
  method TwoOptLoop(route: seq<int>, m: Matrix, iterLimit: int)
    returns (r: seq<int>, ghost calls: int, ghost converged: bool, ghost steps: seq<seq<int>>, ghost moves: seq<(int, int)>)
    requires IsMatrix(m) && OnMatrix(route, m)
    ensures TwoOptResult(route, m, iterLimit, r, steps, moves)
    ensures calls == |moves| + (if converged then 1 else 0)
    ensures SameTour(route, r, m)
    ensures 0 <= calls && (iterLimit >= 0 ==> calls <= iterLimit) && (iterLimit < 0 ==> calls == 0)
    ensures converged ==> TwoOptOptimal(r, m)
    ensures !converged ==> calls == iterLimit || iterLimit < 0
  {
    r, calls, converged := route, 0, false;
    steps, moves := [route], [];
    var it := 0;
    while it < iterLimit
      invariant 0 <= it <= (if iterLimit > 0 then iterLimit else 0) && calls == it == |moves|
      invariant SameTour(route, r, m)
      invariant TwoOptRun(route, m, steps, moves) && r == steps[|moves|]
      decreases iterLimit - it
    {
      it := it + 1;
      calls := calls + 1;
      var improved, next, bi, bj := TwoOptImprove(r, m);
      if !improved {
        converged := true;
        return;
      }
      TwoOptKeeps(r, m, bi, bj);
      if Symmetric(m) {
        TwoOptLength(r, m, bi, bj);
      }
      RunStep(route, m, steps, moves, bi, bj);
      steps, moves := steps + [next], moves + [(bi, bj)];
      r := next;
    }
  }
}
