/**
 * The water-usage segment tree of the city resource planner (acase9.cpp).
 * `segTree` is a vector of `4 * n` ints in heap layout: node `idx` covers
 * the zones `l..r`, its children `2 * idx` and `2 * idx + 1` cover
 * `l..mid` and `mid + 1..r` with `mid = (l + r) / 2`, and a leaf (`l == r`)
 * holds one zone's water figure. `buildST` and `updateST` write the vector
 * in place; `queryST` only reads it.
 */
module WaterUsage {

  /** Sum of `vals[a..b]`, both ends included; 0 for an empty range. */
  function SumOver(vals: seq<int>, a: int, b: int): int
    requires a > b || (0 <= a && b < |vals|)
    decreases b - a
  {
    if a > b then 0 else SumOver(vals, a, b - 1) + vals[b]
  }

  lemma {:induction false} SumSplit(vals: seq<int>, a: int, m: int, b: int)
    requires 0 <= a <= m + 1 && m <= b < |vals|
    ensures SumOver(vals, a, b) == SumOver(vals, a, m) + SumOver(vals, m + 1, b)
    decreases b - m
  {
    if b > m {
      SumSplit(vals, a, m, b - 1);
    }
  }

  lemma {:induction false} SumSame(v1: seq<int>, v2: seq<int>, a: int, b: int)
    requires 0 <= a && b < |v1| && b < |v2|
    requires forall j :: a <= j <= b ==> v1[j] == v2[j]
    ensures SumOver(v1, a, b) == SumOver(v2, a, b)
    decreases b - a
  {
    if a <= b {
      SumSame(v1, v2, a, b - 1);
    }
  }

  function Mid(l: int, r: int): int
  {
    (l + r) / 2
  }

  function Min(a: int, b: int): int
  {
    if a < b then a else b
  }

  function Max(a: int, b: int): int
  {
    if a < b then b else a
  }

  /** The leaf `updateST` reaches for `pos` from the node covering `l..r`. */
  function Clamp(pos: int, l: int, r: int): int
  {
    if pos < l then l else if pos > r then r else pos
  }

  /** Every node below `idx` (itself included) is an index of a vector of length `len`. */
  ghost predicate Fits(idx: int, l: int, r: int, len: int)
    requires l <= r
    decreases r - l
  {
    && 0 <= idx < len
    && (l < r ==> Fits(2 * idx, l, Mid(l, r), len) && Fits(2 * idx + 1, Mid(l, r) + 1, r, len))
  }

  /** Node `idx` and every node below it hold the sum of the zones they cover. */
  ghost predicate Holds(t: seq<int>, vals: seq<int>, idx: int, l: int, r: int)
    requires 0 <= l <= r < |vals|
    decreases r - l
  {
    && 0 <= idx < |t| && t[idx] == SumOver(vals, l, r)
    && (l < r ==> Holds(t, vals, 2 * idx, l, Mid(l, r)) && Holds(t, vals, 2 * idx + 1, Mid(l, r) + 1, r))
  }

  lemma {:induction false} HoldsFits(t: seq<int>, vals: seq<int>, idx: int, l: int, r: int)
    requires 0 <= l <= r < |vals| && Holds(t, vals, idx, l, r)
    ensures Fits(idx, l, r, |t|)
    decreases r - l
  {
    if l < r {
      HoldsFits(t, vals, 2 * idx, l, Mid(l, r));
      HoldsFits(t, vals, 2 * idx + 1, Mid(l, r) + 1, r);
    }
  }

  // The nodes below a node, in heap numbering.

  /** `k` is `a` or lies below it: halving `k` reaches `a`. */
  ghost predicate Under(k: int, a: int)
    decreases k
  {
    k == a || (k > a && k > 0 && Under(k / 2, a))
  }

  lemma {:induction false} UnderChild(k: int, a: int)
    requires a >= 1 && (Under(k, 2 * a) || Under(k, 2 * a + 1))
    ensures Under(k, a)
    decreases k
  {
    if k != 2 * a && k != 2 * a + 1 {
      UnderChild(k / 2, a);
    } else {
      assert Under(k / 2, a);
    }
  }

  lemma {:induction false} UnderRight(k: int, a: int)
    requires a >= 1 && Under(k, 2 * a + 1)
    ensures !Under(k, 2 * a)
    decreases k
  {
    if k == 2 * a + 1 {
      assert !Under(a, 2 * a);
    } else {
      UnderRight(k / 2, a);
    }
  }

  /** The subtrees of two sibling nodes share no node. */
  lemma UnderApart(k: int, a: int)
    requires a >= 1
    ensures Under(k, 2 * a) ==> !Under(k, 2 * a + 1)
  {
    if Under(k, 2 * a + 1) {
      UnderRight(k, a);
    }
  }

  /** A node holds its sums whatever happens outside its subtree. */
  lemma {:induction false} HoldsFrame(t: seq<int>, t': seq<int>, vals: seq<int>, idx: int, l: int, r: int)
    requires 0 <= l <= r < |vals| && idx >= 1 && Holds(t, vals, idx, l, r) && |t'| == |t|
    requires forall k :: 0 <= k < |t| && Under(k, idx) ==> t'[k] == t[k]
    ensures Holds(t', vals, idx, l, r)
    decreases r - l
  {
    assert Under(idx, idx);
    if l < r {
      forall k | 0 <= k < |t| && Under(k, 2 * idx) ensures t'[k] == t[k] {
        UnderChild(k, idx);
      }
      forall k | 0 <= k < |t| && Under(k, 2 * idx + 1) ensures t'[k] == t[k] {
        UnderChild(k, idx);
      }
      HoldsFrame(t, t', vals, 2 * idx, l, Mid(l, r));
      HoldsFrame(t, t', vals, 2 * idx + 1, Mid(l, r) + 1, r);
    }
  }

  /** A node holds its sums whatever happens to zones it does not cover. */
  lemma {:induction false} HoldsValues(t: seq<int>, v1: seq<int>, v2: seq<int>, idx: int, l: int, r: int)
    requires 0 <= l <= r < |v1| && r < |v2| && Holds(t, v1, idx, l, r)
    requires forall j :: l <= j <= r ==> v1[j] == v2[j]
    ensures Holds(t, v2, idx, l, r)
    decreases r - l
  {
    SumSame(v1, v2, l, r);
    if l < r {
      HoldsValues(t, v1, v2, 2 * idx, l, Mid(l, r));
      HoldsValues(t, v1, v2, 2 * idx + 1, Mid(l, r) + 1, r);
    }
  }

  // Why `4 * n` entries suffice.

  /** Levels below a node covering `s` zones; the left half is the larger. */
  function Depth(s: int): nat
    decreases s
  {
    if s <= 1 then 0 else 1 + Depth((s + 1) / 2)
  }

  function Pow2(h: nat): (p: int)
    ensures p >= 1
  {
    if h == 0 then 1 else 2 * Pow2(h - 1)
  }

  lemma {:induction false} DepthMonotone(a: int, b: int)
    requires a <= b
    ensures Depth(a) <= Depth(b)
    decreases b
  {
    if a > 1 {
      DepthMonotone((a + 1) / 2, (b + 1) / 2);
    }
  }

  lemma {:induction false} Pow2Monotone(a: nat, b: nat)
    requires a <= b
    ensures Pow2(a) <= Pow2(b)
    decreases b
  {
    if a < b {
      Pow2Monotone(a, b - 1);
    }
  }

  /** `2 ^ ceil(log2 m) <= 2m - 2` for `m >= 2`. */
  lemma {:induction false} Pow2Depth(m: int)
    requires m >= 2
    ensures Pow2(Depth(m)) <= 2 * m - 2
    decreases m
  {
    var c := (m + 1) / 2;
    if c >= 2 {
      Pow2Depth(c);
    }
  }

  lemma MulMonotone(x: int, y: int, z: int)
    requires x >= 0 && y <= z
    ensures x * y <= x * z
  {
  }

  lemma Twice(x: int, q: int)
    ensures x * (2 * q) == (2 * x) * q
  {
  }

  lemma Pow2Step(s: int)
    requires s >= 2
    ensures Pow2(Depth(s)) == 2 * Pow2(Depth((s + 1) / 2))
  {
  }

  /** The room a node leaves is enough for both its children. */
  lemma ChildRoom(idx: int, P: int, Q: int, R: int, len: int)
    requires idx >= 1 && 1 <= R <= Q && P == 2 * Q && (idx + 1) * P <= len
    ensures (2 * idx + 1) * Q <= len && (2 * idx + 2) * R <= len
  {
    Twice(idx + 1, Q);
    MulMonotone(Q, 2 * idx + 1, 2 * idx + 2);
    MulMonotone(2 * idx + 2, R, Q);
  }

  lemma IndexRoom(idx: int, P: int, len: int)
    requires idx >= 1 && P >= 1 && (idx + 1) * P <= len
    ensures idx < len
  {
    MulMonotone(idx + 1, 1, P);
  }

  /** The subtree of `idx` over `s` zones uses indices below `(idx + 1) * 2 ^ Depth(s)`. */
  lemma {:induction false} FitsBelow(idx: int, l: int, r: int, len: int)
    requires 1 <= idx && 0 <= l <= r && (idx + 1) * Pow2(Depth(r - l + 1)) <= len
    ensures Fits(idx, l, r, len)
    decreases r - l
  {
    var s := r - l + 1;
    IndexRoom(idx, Pow2(Depth(s)), len);
    if l < r {
      var m := Mid(l, r);
      assert m - l + 1 == (s + 1) / 2 && r - m == s / 2;
      Pow2Step(s);
      DepthMonotone(s / 2, (s + 1) / 2);
      Pow2Monotone(Depth(s / 2), Depth((s + 1) / 2));
      ChildRoom(idx, Pow2(Depth(s)), Pow2(Depth((s + 1) / 2)), Pow2(Depth(s / 2)), len);
      FitsBelow(2 * idx, l, m, len);
      FitsBelow(2 * idx + 1, m + 1, r, len);
    }
  }

  /** `segTree.resize(4*n)` leaves room for every node of `buildST(1, 0, n - 1)`. */
  lemma FourTimesFits(n: int)
    requires n >= 1
    ensures Fits(1, 0, n - 1, 4 * n)
  {
    if n >= 2 {
      Pow2Depth(n);
      FitsBelow(1, 0, n - 1, 4 * n);
    } else {
      assert Fits(1, 0, 0, 4);
    }
  }

  /** `queryST(idx, l, r, ql, qr)`, over the vector's contents `t`. */
  function QueryST(t: seq<int>, idx: int, l: int, r: int, ql: int, qr: int): int
    requires 0 <= l <= r && Fits(idx, l, r, |t|)
    decreases r - l
  {
    if ql > r || qr < l then 0
    else if ql <= l && r <= qr then t[idx]
    else
      QueryST(t, 2 * idx, l, Mid(l, r), ql, qr) + QueryST(t, 2 * idx + 1, Mid(l, r) + 1, r, ql, qr)
  }

  /** Over a tree that holds its sums, a query is the sum over `[ql, qr]` intersected with `[l, r]`. */
  lemma {:induction false} QuerySums(t: seq<int>, vals: seq<int>, idx: int, l: int, r: int, ql: int, qr: int)
    requires 0 <= l <= r < |vals| && Holds(t, vals, idx, l, r)
    ensures Fits(idx, l, r, |t|)
    ensures QueryST(t, idx, l, r, ql, qr) == SumOver(vals, Max(l, ql), Min(r, qr))
    decreases r - l
  {
    HoldsFits(t, vals, idx, l, r);
    if !(ql > r || qr < l) && !(ql <= l && r <= qr) {
      var m := Mid(l, r);
      QuerySums(t, vals, 2 * idx, l, m, ql, qr);
      QuerySums(t, vals, 2 * idx + 1, m + 1, r, ql, qr);
      var a, b := Max(l, ql), Min(r, qr);
      if a <= m < b {
        SumSplit(vals, a, m, b);
      }
    }
  }

  class WaterTree {
    /** The number of zones. */
    const n: nat
    /** `segTree`. */
    const tree: array<int>
    /** The water figure of each zone, as the leaves hold it. */
    ghost var water: seq<int>

    ghost predicate Valid()
      reads this, tree
    {
      n >= 1 && tree.Length == 4 * n && |water| == n && Holds(tree[..], water, 1, 0, n - 1)
    }

    /** `segTree.resize(4*n)` followed by `buildST(1, 0, n - 1)`. */
    constructor (w: seq<int>)
      requires |w| >= 1
      ensures Valid() && n == |w| && water == w && fresh(tree)
    {
      n := |w|;
      water := w;
      tree := new int[4 * |w|];
      new;
      FourTimesFits(n);
      Build(w, 1, 0, n - 1);
    }

    /** `buildST(idx, l, r)` over the zones' water figures `w`: fills the subtree of `idx` and nothing else. */
    method Build(w: seq<int>, idx: int, l: int, r: int)
      requires |w| == n && 0 <= l <= r < n && idx >= 1 && Fits(idx, l, r, tree.Length)
      modifies tree
      ensures Holds(tree[..], w, idx, l, r)
      ensures forall k :: 0 <= k < tree.Length && !Under(k, idx) ==> tree[k] == old(tree[k])
      decreases r - l
    {
      if l == r {
        tree[idx] := w[l];
        return;
      }
      var mid := (l + r) / 2;
      Build(w, idx * 2, l, mid);
      ghost var t1 := tree[..];
      Build(w, idx * 2 + 1, mid + 1, r);
      ghost var t2 := tree[..];
      forall k | 0 <= k < tree.Length && Under(k, 2 * idx) ensures t2[k] == t1[k] {
        UnderApart(k, idx);
      }
      HoldsFrame(t1, t2, w, 2 * idx, l, mid);
      tree[idx] := tree[idx * 2] + tree[idx * 2 + 1];
      SettleParent(t2, tree[..], w, idx, l, r);
      forall k | 0 <= k < tree.Length && !Under(k, idx) ensures tree[k] == old(tree[k]) {
        if Under(k, 2 * idx) || Under(k, 2 * idx + 1) {
          UnderChild(k, idx);
        }
      }
    }

    /**
     * `updateST(1, 0, n - 1, pos, value)`: the zone at `pos` gets `value`;
     * a `pos` outside `0..n-1` reaches the nearest end leaf instead.
     */
    method Update(pos: int, value: int)
      requires Valid()
      modifies this, tree
      ensures Valid() && water == old(water)[Clamp(pos, 0, n - 1) := value]
    {
      ghost var w0 := water;
      water := water[Clamp(pos, 0, n - 1) := value];
      UpdateAt(1, 0, n - 1, pos, value, w0);
    }

    /** `updateST(idx, l, r, pos, value)` from a tree that held the sums of `w0`. */
    method UpdateAt(idx: int, l: int, r: int, pos: int, value: int, ghost w0: seq<int>)
      requires |water| == n == |w0| && 0 <= l <= r < n && idx >= 1 && |tree[..]| == tree.Length
      requires Holds(tree[..], w0, idx, l, r)
      requires forall j :: l <= j <= r ==> water[j] == (if j == Clamp(pos, l, r) then value else w0[j])
      modifies tree
      ensures Holds(tree[..], water, idx, l, r)
      ensures forall k :: 0 <= k < tree.Length && !Under(k, idx) ==> tree[k] == old(tree[k])
      decreases r - l
    {
      if l == r {
        tree[idx] := value;
        return;
      }
      var mid := (l + r) / 2;
      ghost var t0 := tree[..];
      if pos <= mid {
        UpdateAt(idx * 2, l, mid, pos, value, w0);
        ghost var t1 := tree[..];
        forall k | 0 <= k < tree.Length && Under(k, 2 * idx + 1) ensures t1[k] == t0[k] {
          UnderApart(k, idx);
        }
        HoldsFrame(t0, t1, w0, 2 * idx + 1, mid + 1, r);
        HoldsValues(t1, w0, water, 2 * idx + 1, mid + 1, r);
      } else {
        UpdateAt(idx * 2 + 1, mid + 1, r, pos, value, w0);
        ghost var t1 := tree[..];
        forall k | 0 <= k < tree.Length && Under(k, 2 * idx) ensures t1[k] == t0[k] {
          UnderApart(k, idx);
        }
        HoldsFrame(t0, t1, w0, 2 * idx, l, mid);
        HoldsValues(t1, w0, water, 2 * idx, l, mid);
      }
      ghost var t2 := tree[..];
      tree[idx] := tree[idx * 2] + tree[idx * 2 + 1];
      SettleParent(t2, tree[..], water, idx, l, r);
      forall k | 0 <= k < tree.Length && !Under(k, idx) ensures tree[k] == old(tree[k]) {
        if Under(k, 2 * idx) || Under(k, 2 * idx + 1) {
          UnderChild(k, idx);
        }
      }
    }

    /** `queryST(1, 0, n - 1, ql, qr)`: the water used by zones `ql..qr` that exist. */
    function Query(ql: int, qr: int): (s: int)
      reads this, tree
      requires Valid()
      ensures s == SumOver(water, Max(0, ql), Min(n - 1, qr))
    {
      QuerySums(tree[..], water, 1, 0, n - 1, ql, qr);
      QueryST(tree[..], 1, 0, n - 1, ql, qr)
    }
  }

  /** Writing the sum of the two children into their parent completes the parent. */
  lemma SettleParent(t: seq<int>, t': seq<int>, vals: seq<int>, idx: int, l: int, r: int)
    requires 0 <= l < r < |vals| && idx >= 1 && 0 <= idx < |t| == |t'|
    requires Holds(t, vals, 2 * idx, l, Mid(l, r)) && Holds(t, vals, 2 * idx + 1, Mid(l, r) + 1, r)
    requires t' == t[idx := t[2 * idx] + t[2 * idx + 1]]
    ensures Holds(t', vals, idx, l, r)
  {
    var m := Mid(l, r);
    forall k | 0 <= k < |t| && Under(k, 2 * idx) ensures t'[k] == t[k] {
      if k == idx {
        assert false;
      }
    }
    forall k | 0 <= k < |t| && Under(k, 2 * idx + 1) ensures t'[k] == t[k] {
      if k == idx {
        assert false;
      }
    }
    HoldsFrame(t, t', vals, 2 * idx, l, m);
    HoldsFrame(t, t', vals, 2 * idx + 1, m + 1, r);
    SumSplit(vals, l, m, r);
  }
}
