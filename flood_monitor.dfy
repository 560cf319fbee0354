/**
 * The flood monitoring system (acase3.cpp): `floodBFS` spreads water from a
 * cell over the grid, turning every dry cell (0) that the water can reach
 * through dry cells into a flooded one (1); `selectionSort` orders the
 * recorded water levels. Sensor levels are `float`s, modelled as `real`.
 */
module FloodMonitor {

  type Cell = (int, int)

  /** The `i`-th of the four moves `dx`, `dy`: down, up, right, left. */
  function Move(c: Cell, i: int): Cell
    requires 0 <= i < 4
  {
    var dx, dy := [1, -1, 0, 0], [0, 0, 1, -1];
    (c.0 + dx[i], c.1 + dy[i])
  }

  /** The grid as rows of values, read cell by cell. */
  ghost function Cells(grid: array2<int>): (s: seq<seq<int>>)
    reads grid
    ensures |s| == grid.Length0
    ensures forall i :: 0 <= i < |s| ==> |s[i]| == grid.Length1
    ensures forall i, j :: 0 <= i < grid.Length0 && 0 <= j < grid.Length1 ==> s[i][j] == grid[i, j]
  {
    seq(grid.Length0, i reads grid requires 0 <= i < grid.Length0 =>
      seq(grid.Length1, j reads grid requires 0 <= j < grid.Length1 => grid[i, j]))
  }

  /** Every row of `g` is `m` cells wide. */
  ghost predicate Rect(g: seq<seq<int>>, m: int)
  {
    forall i :: 0 <= i < |g| ==> |g[i]| == m
  }

  ghost predicate InGrid(g: seq<seq<int>>, c: Cell)
  {
    0 <= c.0 < |g| && 0 <= c.1 < |g[c.0]|
  }

  /** A dry cell of the original grid. */
  ghost predicate Dry(orig: seq<seq<int>>, c: Cell)
  {
    InGrid(orig, c) && orig[c.0][c.1] == 0
  }

  /** A dry cell the search has flooded. */
  ghost predicate Marked(orig: seq<seq<int>>, cur: seq<seq<int>>, c: Cell)
  {
    Dry(orig, c) && InGrid(cur, c) && cur[c.0][c.1] == 1
  }

  /** `w` leaves `s` and moves one step at a time, each step onto a dry cell. */
  ghost predicate FloodWalk(orig: seq<seq<int>>, s: Cell, w: seq<Cell>)
  {
    && |w| >= 2 && w[0] == s
    && (forall k :: 0 < k < |w| ==> Dry(orig, w[k]))
    && (forall k :: 0 <= k < |w| - 1 ==> Step(w[k], w[k + 1]))
  }

  /** `b` is one of the four neighbours of `a`. */
  ghost predicate Step(a: Cell, b: Cell)
  {
    exists i :: 0 <= i < 4 && b == Move(a, i)
  }

  /** Water from `s` reaches `c` in one or more steps. */
  ghost predicate Floods(orig: seq<seq<int>>, s: Cell, c: Cell)
  {
    exists w :: FloodWalk(orig, s, w) && w[|w| - 1] == c
  }

  /** Neighbour `i` of `c` is flooded if it was dry. */
  ghost predicate Hit(orig: seq<seq<int>>, cur: seq<seq<int>>, c: Cell, i: int)
    requires 0 <= i < 4
  {
    Dry(orig, Move(c, i)) ==> Marked(orig, cur, Move(c, i))
  }

  /** The first `upto` neighbours of `c` are done. */
  ghost predicate DoneUpTo(orig: seq<seq<int>>, cur: seq<seq<int>>, c: Cell, upto: int)
    requires 0 <= upto <= 4
  {
    forall i :: 0 <= i < upto ==> Hit(orig, cur, c, i)
  }

  /** `cur` has the shape of `orig`, and differs from it only by flooded dry cells. */
  ghost predicate Evolved(orig: seq<seq<int>>, cur: seq<seq<int>>)
  {
    && |cur| == |orig| && (forall i :: 0 <= i < |orig| ==> |cur[i]| == |orig[i]|)
    && (forall i, j :: 0 <= i < |orig| && 0 <= j < |orig[i]| ==>
          cur[i][j] == orig[i][j] || (orig[i][j] == 0 && cur[i][j] == 1))
  }

  /** Every queued cell after the start is flooded. */
  ghost predicate QueueMarked(orig: seq<seq<int>>, cur: seq<seq<int>>, q: seq<Cell>)
  {
    forall k :: 0 < k < |q| ==> Marked(orig, cur, q[k])
  }

  /** Every flooded cell is queued and reached by the water from `s`. */
  ghost predicate MarkedQueued(orig: seq<seq<int>>, cur: seq<seq<int>>, s: Cell, q: seq<Cell>)
  {
    forall c :: Marked(orig, cur, c) ==> c in q && Floods(orig, s, c)
  }

  /** The cells `q[..h]` have all four neighbours done. */
  ghost predicate AllDone(orig: seq<seq<int>>, cur: seq<seq<int>>, q: seq<Cell>, h: int)
    requires 0 <= h <= |q|
  {
    forall k :: 0 <= k < h ==> DoneUpTo(orig, cur, q[k], 4)
  }

  /** What the search keeps, with `q[..h]` popped and expanded. */
  ghost predicate FloodState(orig: seq<seq<int>>, cur: seq<seq<int>>, s: Cell, q: seq<Cell>, h: int)
  {
    && Evolved(orig, cur)
    && 1 <= |q| && q[0] == s && 0 <= h <= |q|
    && QueueMarked(orig, cur, q)
    && MarkedQueued(orig, cur, s, q)
    && AllDone(orig, cur, q, h)
  }

  /** Flooding cell `t` of `cur`. */
  ghost function Flood(cur: seq<seq<int>>, t: Cell): seq<seq<int>>
    requires InGrid(cur, t)
  {
    cur[t.0 := cur[t.0][t.1 := 1]]
  }

  lemma FloodOther(orig: seq<seq<int>>, cur: seq<seq<int>>, t: Cell, c: Cell)
    requires InGrid(cur, t) && c != t
    ensures Marked(orig, Flood(cur, t), c) <==> Marked(orig, cur, c)
  {
  }

  lemma FloodTarget(orig: seq<seq<int>>, cur: seq<seq<int>>, t: Cell)
    requires InGrid(cur, t) && Dry(orig, t)
    ensures Marked(orig, Flood(cur, t), t)
  {
  }

  /** Flooding one more dry cell keeps the neighbours already done. */
  lemma MarkKeepsDone(orig: seq<seq<int>>, cur: seq<seq<int>>, c: Cell, upto: int, t: Cell)
    requires 0 <= upto <= 4 && DoneUpTo(orig, cur, c, upto) && InGrid(cur, t)
    ensures DoneUpTo(orig, Flood(cur, t), c, upto)
  {
    forall i | 0 <= i < upto ensures Hit(orig, Flood(cur, t), c, i) {
      assert Hit(orig, cur, c, i);
      if Move(c, i) != t {
        FloodOther(orig, cur, t, Move(c, i));
      }
    }
  }

  lemma EvolvedStep(orig: seq<seq<int>>, cur: seq<seq<int>>, t: Cell)
    requires Evolved(orig, cur) && Dry(orig, t)
    ensures Evolved(orig, Flood(cur, t))
  {
  }

  lemma QueueMarkedStep(orig: seq<seq<int>>, cur: seq<seq<int>>, q: seq<Cell>, t: Cell)
    requires QueueMarked(orig, cur, q) && InGrid(cur, t) && Dry(orig, t)
    ensures QueueMarked(orig, Flood(cur, t), q + [t])
  {
    var q' := q + [t];
    forall k | 0 < k < |q'| ensures Marked(orig, Flood(cur, t), q'[k]) {
      if k < |q| {
        assert Marked(orig, cur, q[k]);
        if q[k] != t {
          FloodOther(orig, cur, t, q[k]);
        } else {
          FloodTarget(orig, cur, t);
        }
      } else {
        FloodTarget(orig, cur, t);
      }
    }
  }

  lemma AllDoneStep(orig: seq<seq<int>>, cur: seq<seq<int>>, q: seq<Cell>, h: int, t: Cell)
    requires 0 <= h <= |q| && AllDone(orig, cur, q, h) && InGrid(cur, t)
    ensures AllDone(orig, Flood(cur, t), q + [t], h)
  {
    forall k | 0 <= k < h ensures DoneUpTo(orig, Flood(cur, t), (q + [t])[k], 4) {
      assert (q + [t])[k] == q[k];
      MarkKeepsDone(orig, cur, q[k], 4, t);
    }
  }

  lemma WalkExtend(orig: seq<seq<int>>, s: Cell, w0: seq<Cell>, t: Cell)
    requires FloodWalk(orig, s, w0) && Dry(orig, t) && Step(w0[|w0| - 1], t)
    ensures FloodWalk(orig, s, w0 + [t])
  {
    var w := w0 + [t];
    forall k | 0 <= k < |w| - 1 ensures Step(w[k], w[k + 1]) {
      if k < |w0| - 1 {
        assert w[k] == w0[k] && w[k + 1] == w0[k + 1];
        assert Step(w0[k], w0[k + 1]);
      }
    }
    forall k | 0 < k < |w| ensures Dry(orig, w[k]) {
      if k < |w0| {
        assert w[k] == w0[k];
      }
    }
  }

  /** The water reaches a dry neighbour of the start or of a flooded cell. */
  lemma FloodsNext(orig: seq<seq<int>>, cur: seq<seq<int>>, s: Cell, a: Cell, i: int)
    requires 0 <= i < 4 && Dry(orig, Move(a, i))
    requires a == s || Floods(orig, s, a)
    ensures Floods(orig, s, Move(a, i))
  {
    var t := Move(a, i);
    assert Step(a, t);
    if a == s {
      var w := [s, t];
      assert Step(w[0], w[1]);
      assert FloodWalk(orig, s, w);
    } else {
      var w0 :| FloodWalk(orig, s, w0) && w0[|w0| - 1] == a;
      WalkExtend(orig, s, w0, t);
      assert (w0 + [t])[|w0|] == t;
    }
  }

  lemma MarkedQueuedStep(orig: seq<seq<int>>, cur: seq<seq<int>>, s: Cell, q: seq<Cell>, t: Cell)
    requires MarkedQueued(orig, cur, s, q) && InGrid(cur, t) && Floods(orig, s, t)
    ensures MarkedQueued(orig, Flood(cur, t), s, q + [t])
  {
    var q' := q + [t];
    forall c | Marked(orig, Flood(cur, t), c) ensures c in q' && Floods(orig, s, c) {
      if c != t {
        FloodOther(orig, cur, t, c);
        assert c in q;
      } else {
        assert q'[|q|] == t;
      }
    }
  }

  /** Flooding neighbour `i` of the popped cell `q[h]`. */
  lemma MarkStep(orig: seq<seq<int>>, cur: seq<seq<int>>, s: Cell, q: seq<Cell>, h: int, i: int)
    requires FloodState(orig, cur, s, q, h) && h < |q| && 0 <= i < 4 && DoneUpTo(orig, cur, q[h], i)
    requires Dry(orig, Move(q[h], i))
    ensures InGrid(cur, Move(q[h], i))
    ensures FloodState(orig, Flood(cur, Move(q[h], i)), s, q + [Move(q[h], i)], h)
    ensures DoneUpTo(orig, Flood(cur, Move(q[h], i)), q[h], i + 1)
  {
    var a, t := q[h], Move(q[h], i);
    assert h > 0 ==> Marked(orig, cur, a) && Floods(orig, s, a);
    FloodsNext(orig, cur, s, a, i);
    EvolvedStep(orig, cur, t);
    QueueMarkedStep(orig, cur, q, t);
    MarkedQueuedStep(orig, cur, s, q, t);
    AllDoneStep(orig, cur, q, h, t);
    MarkKeepsDone(orig, cur, a, i, t);
    FloodTarget(orig, cur, t);
    assert Hit(orig, Flood(cur, t), a, i);
  }

  /** With every queued cell expanded, the flooded cells are exactly those the water reaches. */
  lemma FloodDone(orig: seq<seq<int>>, cur: seq<seq<int>>, s: Cell, q: seq<Cell>)
    requires FloodState(orig, cur, s, q, |q|)
    ensures forall c :: Marked(orig, cur, c) <==> Floods(orig, s, c)
  {
    forall c | Floods(orig, s, c) ensures Marked(orig, cur, c) {
      var w :| FloodWalk(orig, s, w) && w[|w| - 1] == c;
      WalkMarked(orig, cur, s, q, w, |w| - 1);
    }
  }

  lemma {:induction false} WalkMarked(orig: seq<seq<int>>, cur: seq<seq<int>>, s: Cell, q: seq<Cell>,
                                      w: seq<Cell>, k: int)
    requires FloodState(orig, cur, s, q, |q|) && FloodWalk(orig, s, w) && 0 < k < |w|
    ensures Marked(orig, cur, w[k])
    decreases k
  {
    assert Step(w[k - 1], w[k]);
    var i :| 0 <= i < 4 && w[k] == Move(w[k - 1], i);
    assert Dry(orig, w[k]);
    if k == 1 {
      assert DoneUpTo(orig, cur, q[0], 4);
      assert Hit(orig, cur, q[0], i);
    } else {
      WalkMarked(orig, cur, s, q, w, k - 1);
      var j :| 0 <= j < |q| && q[j] == w[k - 1];
      assert DoneUpTo(orig, cur, q[j], 4);
      assert Hit(orig, cur, q[j], i);
    }
  }

  /** The dry cells of `g`. */
  ghost function DryCells(g: seq<seq<int>>): set<Cell>
  {
    set i, j | 0 <= i < |g| && 0 <= j < |g[i]| && g[i][j] == 0 :: (i, j)
  }

  lemma MarkShrinks(g: seq<seq<int>>, t: Cell)
    requires InGrid(g, t) && g[t.0][t.1] == 0
    ensures DryCells(g[t.0 := g[t.0][t.1 := 1]]) == DryCells(g) - {t}
  {
    var g' := g[t.0 := g[t.0][t.1 := 1]];
    forall c | c in DryCells(g') ensures c in DryCells(g) - {t} {
      var i, j :| 0 <= i < |g'| && 0 <= j < |g'[i]| && g'[i][j] == 0 && c == (i, j);
      assert g[i][j] == 0;
    }
    forall c | c in DryCells(g) - {t} ensures c in DryCells(g') {
      var i, j :| 0 <= i < |g| && 0 <= j < |g[i]| && g[i][j] == 0 && c == (i, j);
      assert g'[i][j] == 0;
    }
  }

  /** `cur` holds the values of `grid`, row by row. */
  ghost predicate Mirrors(grid: array2<int>, cur: seq<seq<int>>)
    reads grid
  {
    && |cur| == grid.Length0 && (forall i :: 0 <= i < |cur| ==> |cur[i]| == grid.Length1)
    && forall i, j :: 0 <= i < grid.Length0 && 0 <= j < grid.Length1 ==> grid[i, j] == cur[i][j]
  }

  /**
   * What the loop over the neighbours of `q0[h]` keeps: `q0` is a prefix
   * of the queue, the search state holds, the first `i` neighbours are
   * done, and every cell queued since removed one dry cell.
   */
  ghost predicate ExpandInv(orig: seq<seq<int>>, s: Cell, q0: seq<Cell>, h: int, cur0: seq<seq<int>>,
                            i: int, q: seq<Cell>, cur: seq<seq<int>>)
  {
    && 0 <= i <= 4 && 0 <= h < |q0| <= |q| && q[..|q0|] == q0
    && FloodState(orig, cur, s, q, h) && DoneUpTo(orig, cur, q0[h], i)
    && |DryCells(cur)| + (|q| - |q0|) <= |DryCells(cur0)|
    && (|q| == |q0| ==> cur == cur0)
  }

  /** Neighbour `i` is a dry cell: it is flooded and queued. */
  lemma ExpandMark(orig: seq<seq<int>>, s: Cell, q0: seq<Cell>, h: int, cur0: seq<seq<int>>,
                   i: int, q: seq<Cell>, cur: seq<seq<int>>, q': seq<Cell>, cur': seq<seq<int>>)
    requires ExpandInv(orig, s, q0, h, cur0, i, q, cur) && i < 4
    requires InGrid(cur, Move(q0[h], i)) && cur[Move(q0[h], i).0][Move(q0[h], i).1] == 0
    requires q' == q + [Move(q0[h], i)] && cur' == Flood(cur, Move(q0[h], i))
    ensures ExpandInv(orig, s, q0, h, cur0, i + 1, q', cur')
  {
    var nb := Move(q0[h], i);
    assert q[h] == q0[h];
    assert Dry(orig, nb);
    MarkStep(orig, cur, s, q, h, i);
    MarkShrinks(cur, nb);
    assert q'[..|q0|] == q[..|q0|];
  }

  /** Neighbour `i` is off the grid or not dry: nothing changes. */
  lemma ExpandSkip(orig: seq<seq<int>>, s: Cell, q0: seq<Cell>, h: int, cur0: seq<seq<int>>,
                   i: int, q: seq<Cell>, cur: seq<seq<int>>)
    requires ExpandInv(orig, s, q0, h, cur0, i, q, cur) && i < 4
    requires !(InGrid(cur, Move(q0[h], i)) && cur[Move(q0[h], i).0][Move(q0[h], i).1] == 0)
    ensures ExpandInv(orig, s, q0, h, cur0, i + 1, q, cur)
  {
    assert Hit(orig, cur, q0[h], i);
  }

  lemma ExpandDone(orig: seq<seq<int>>, s: Cell, q0: seq<Cell>, h: int, cur0: seq<seq<int>>,
                   q: seq<Cell>, cur: seq<seq<int>>)
    requires ExpandInv(orig, s, q0, h, cur0, 4, q, cur)
    ensures FloodState(orig, cur, s, q, h + 1)
  {
    assert q[h] == q0[h];
  }

  /** Floods cell `t` of the grid. */
  method FloodCell(grid: array2<int>, ghost cur: seq<seq<int>>, t: Cell) returns (ghost cur': seq<seq<int>>)
    requires Mirrors(grid, cur) && InGrid(cur, t)
    modifies grid
    ensures cur' == Flood(cur, t) && Mirrors(grid, cur')
  {
    grid[t.0, t.1] := 1;
    cur' := Flood(cur, t);
  }

  /** Expands the popped cell `q[h]`: marks its dry neighbours and queues them. */
  method Expand(grid: array2<int>, ghost orig: seq<seq<int>>, s: Cell, q0: seq<Cell>, h: int,
                ghost cur0: seq<seq<int>>)
    returns (q: seq<Cell>, ghost cur: seq<seq<int>>)
    requires Mirrors(grid, cur0) && FloodState(orig, cur0, s, q0, h) && h < |q0|
    modifies grid
    ensures Mirrors(grid, cur) && FloodState(orig, cur, s, q, h + 1)
    ensures |q| >= |q0| && (|q| == |q0| ==> cur == cur0)
    ensures |q| > |q0| ==> |DryCells(cur)| < |DryCells(cur0)|
  {
    q, cur := q0, cur0;
    var a := q0[h];
    var n, m := grid.Length0, grid.Length1;
    var i := 0;
    assert q[..|q0|] == q0;
    while i < 4
      invariant Mirrors(grid, cur) && ExpandInv(orig, s, q0, h, cur0, i, q, cur)
    {
      var nb := Move(a, i);
      var nx, ny := nb.0, nb.1;
      if nx >= 0 && ny >= 0 && nx < n && ny < m && grid[nx, ny] == 0 {
        ghost var q1, cur1 := q, cur;
        cur := FloodCell(grid, cur, nb);
        q := q + [nb];
        ExpandMark(orig, s, q0, h, cur0, i, q1, cur1, q, cur);
      } else {
        ExpandSkip(orig, s, q0, h, cur0, i, q, cur);
      }
      i := i + 1;
    }
    ExpandDone(orig, s, q0, h, cur0, q, cur);
  }

  /**
   * `floodBFS(grid, x, y)` on a grid of one or more rows: a dry cell
   * becomes flooded exactly when the water from `(x, y)` reaches it in one
   * or more steps over dry cells; every other cell keeps its value. The
   * start cell is not flooded by being the start.
   */
  method FloodFill(grid: array2<int>, x: int, y: int)
    requires grid.Length0 >= 1
    modifies grid
    ensures forall i, j :: 0 <= i < grid.Length0 && 0 <= j < grid.Length1 ==>
      grid[i, j] == (if Floods(old(Cells(grid)), (x, y), (i, j)) then 1 else old(grid[i, j]))
  {
    ghost var orig := Cells(grid);
    ghost var cur := orig;
    var q: seq<Cell> := [(x, y)];
    var h := 0;
    while h < |q|
      invariant Mirrors(grid, cur) && FloodState(orig, cur, (x, y), q, h)
      decreases |DryCells(cur)|, |q| - h
    {
      q, cur := Expand(grid, orig, (x, y), q, h, cur);
      h := h + 1;
    }
    FloodDone(orig, cur, (x, y), q);
    forall i, j | 0 <= i < grid.Length0 && 0 <= j < grid.Length1
      ensures grid[i, j] == (if Floods(orig, (x, y), (i, j)) then 1 else orig[i][j])
    {
      if !Floods(orig, (x, y), (i, j)) {
        assert !Marked(orig, cur, (i, j));
      }
    }
  }

  /**
   * `selectionSort(arr)`: the levels in ascending order, a permutation of
   * the input.
   */
  method SelectionSort(arr: array<real>)
    modifies arr
    ensures forall i, j :: 0 <= i < j < arr.Length ==> arr[i] <= arr[j]
    ensures multiset(arr[..]) == old(multiset(arr[..]))
  {
    ghost var s0 := arr[..];
    var n := arr.Length;
    var i := 0;
    while i < n
      invariant SelectedUpTo(arr[..], s0, i)
    {
      var minIndex := MinFrom(arr, i);
      ghost var s := arr[..];
      arr[i], arr[minIndex] := arr[minIndex], arr[i];
      SelectStep(s, s0, i, minIndex, arr[..]);
      i := i + 1;
    }
  }

  /**
   * What the outer loop of `selectionSort` keeps: `s[..i]` is sorted, no
   * later level is below it, and the levels are those of `s0`.
   */
  ghost predicate SelectedUpTo(s: seq<real>, s0: seq<real>, i: int)
  {
    && 0 <= i <= |s|
    && (forall k, l :: 0 <= k < l < i ==> s[k] <= s[l])
    && (forall k, l :: 0 <= k < i <= l < |s| ==> s[k] <= s[l])
    && multiset(s) == multiset(s0)
  }

  /** The inner loop of `selectionSort`: the position of a smallest level from `i` on. */
  method MinFrom(arr: array<real>, i: int) returns (minIndex: int)
    requires 0 <= i < arr.Length
    ensures i <= minIndex < arr.Length
    ensures forall l :: i <= l < arr.Length ==> arr[minIndex] <= arr[l]
  {
    minIndex := i;
    var j := i + 1;
    while j < arr.Length
      invariant i <= minIndex < arr.Length && i + 1 <= j <= arr.Length
      invariant forall l :: i <= l < j ==> arr[minIndex] <= arr[l]
    {
      if arr[j] < arr[minIndex] {
        minIndex := j;
      }
      j := j + 1;
    }
  }

  /** Swapping a smallest remaining level into position `i` extends the sorted prefix. */
  lemma SelectStep(s: seq<real>, s0: seq<real>, i: int, mi: int, t: seq<real>)
    requires SelectedUpTo(s, s0, i) && i <= mi < |s|
    requires forall l :: i <= l < |s| ==> s[mi] <= s[l]
    requires t == s[i := s[mi]][mi := s[i]]
    ensures SelectedUpTo(t, s0, i + 1)
  {
    assert multiset(t) == multiset(s);
    forall k, l | 0 <= k < i + 1 <= l < |t| ensures t[k] <= t[l] {
      if k < i {
        assert t[k] == s[k];
      }
    }
  }
}
