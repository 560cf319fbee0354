/**
 * `kruskalMST` of the traffic planner (trafic.cpp): the road segments
 * `(w, u, v)` are sorted in place by `std::sort` on tuples, then taken in
 * that order, and a segment whose ends are still in different components
 * is accepted, its weight added to the cost and its ends united.
 */
module TrafficMst {
  import opened Orderings
  import Sorting
  import opened DisjointSets

  /** A road segment: weight, then its two junctions. */
  type Segment = (int, int, int)

  /** `operator<` on `tuple<int, int, int>`: lexicographic. */
  predicate SegmentLess(x: Segment, y: Segment)
  {
    x.0 < y.0 || (x.0 == y.0 && (x.1 < y.1 || (x.1 == y.1 && x.2 < y.2)))
  }

  lemma SegmentLessOrder()
    ensures StrictWeakOrder(SegmentLess)
  {
    forall a: Segment, b: Segment, c: Segment | !SegmentLess(a, b) && !SegmentLess(b, c)
      ensures !SegmentLess(a, c)
    {
      assert !SegmentLess(a, b) ==> a == b || SegmentLess(b, a);
    }
  }

  /** Total weight of the segments at the listed positions. */
  function WeightOf(s: seq<Segment>, picked: seq<int>): int
    requires forall k :: 0 <= k < |picked| ==> 0 <= picked[k] < |s|
  {
    if picked == [] then 0 else WeightOf(s, picked[..|picked| - 1]) + s[picked[|picked| - 1]].0
  }

  /** Positions listed in increasing order, all below `bound`. */
  ghost predicate Increasing(picked: seq<int>, bound: int)
  {
    && (forall k :: 0 <= k < |picked| ==> 0 <= picked[k] < bound)
    && (forall k, l :: 0 <= k < l < |picked| ==> picked[k] < picked[l])
  }

  /** Every segment joins two junctions of the network `0..n-1`. */
  ghost predicate Junctions(s: seq<Segment>, n: int)
  {
    forall k :: 0 <= k < |s| ==> 0 <= s[k].1 < n && 0 <= s[k].2 < n
  }

  /** Quick-find merge: every junction labelled like `v` takes the label of `u`. */
  ghost function Merge(lab: seq<int>, u: int, v: int): (r: seq<int>)
    requires 0 <= u < |lab| && 0 <= v < |lab|
    ensures |r| == |lab|
    ensures forall x :: 0 <= x < |lab| ==> r[x] == (if lab[x] == lab[v] then lab[u] else lab[x])
  {
    seq(|lab|, x requires 0 <= x < |lab| => if lab[x] == lab[v] then lab[u] else lab[x])
  }

  /**
   * Kruskal's rule over the first `i` sorted segments, as a reference:
   * components are kept as labels, starting with every junction on its own;
   * a segment is accepted exactly when its ends carry different labels, and
   * then the two components are merged. The result is the accepted
   * positions and the final labels.
   */
  ghost function Kruskal(sorted: seq<Segment>, n: nat, i: int): (r: (seq<int>, seq<int>))
    requires Junctions(sorted, n) && 0 <= i <= |sorted|
    ensures |r.1| == n
    decreases i
  {
    if i == 0 then ([], seq(n, x => x))
    else
      var (acc, lab) := Kruskal(sorted, n, i - 1);
      var (_, u, v) := sorted[i - 1];
      if lab[u] != lab[v] then (acc + [i - 1], Merge(lab, u, v)) else (acc, lab)
  }

  /** Two labellings put the same junctions together. */
  ghost predicate SamePartition(rep: seq<int>, lab: seq<int>)
  {
    |rep| == |lab| && forall x, y :: 0 <= x < |rep| && 0 <= y < |rep| ==> (rep[x] == rep[y] <==> lab[x] == lab[y])
  }

  /**
   * The segments end up sorted and the same as before; the accepted
   * segments are those `Kruskal` accepts over the sorted order, and the
   * cost is their weight; every segment's ends end up in one
   * component of `comp`; and each accepted segment removed exactly one
   * component, so there are `n` minus the component count of them, which is
   * at most `n - 1`.
   */
  method KruskalMst(edges: array<Segment>, n: nat) returns (cost: int, ghost accepted: seq<int>, ghost comp: seq<int>)
    requires Junctions(edges[..], n)
    modifies edges
    ensures SortedBy(edges[..], SegmentLess) && multiset(edges[..]) == old(multiset(edges[..]))
    ensures Junctions(edges[..], n) && accepted == Kruskal(edges[..], n, edges.Length).0
    ensures Increasing(accepted, edges.Length) && cost == WeightOf(edges[..], accepted)
    ensures SamePartition(comp, Kruskal(edges[..], n, edges.Length).1)
    ensures |comp| == n && forall k :: 0 <= k < edges.Length ==> comp[edges[k].1] == comp[edges[k].2]
    ensures |accepted| + |Roots(comp)| == n
    ensures n > 0 ==> |accepted| <= n - 1
  {
    SegmentLessOrder();
    Sorting.SortArray(edges, SegmentLess);
    assert Junctions(edges[..], n) by {
      forall k | 0 <= k < edges.Length ensures 0 <= edges[k].1 < n && 0 <= edges[k].2 < n {
        assert edges[k] in multiset(edges[..]);
        assert edges[k] in old(edges[..]);
      }
    }
    cost, accepted, comp := JoinInOrder(edges[..], n);
  }

  /** The loop of `kruskalMST` over the already sorted segments. */
  method JoinInOrder(sorted: seq<Segment>, n: nat) returns (cost: int, ghost accepted: seq<int>, ghost comp: seq<int>)
    requires Junctions(sorted, n)
    ensures accepted == Kruskal(sorted, n, |sorted|).0 && SamePartition(comp, Kruskal(sorted, n, |sorted|).1)
    ensures Increasing(accepted, |sorted|) && cost == WeightOf(sorted, accepted)
    ensures |comp| == n && forall k :: 0 <= k < |sorted| ==> comp[sorted[k].1] == comp[sorted[k].2]
    ensures |accepted| + |Roots(comp)| == n
    ensures n > 0 ==> |accepted| <= n - 1
  {
    var uf := new UnionFind(n);
    cost, accepted := 0, [];
    FollowStart(sorted, n, uf.rep);
    var i := 0;
    while i < |sorted|
      invariant uf.Valid() && uf.n == n && JoinedUpTo(sorted, n, i, uf.rep, cost, accepted)
      invariant Follows(sorted, n, i, uf.rep, accepted)
    {
      cost, accepted := JoinStep(uf, sorted, n, i, cost, accepted);
      i := i + 1;
    }
    comp := uf.rep;
    JoinDone(sorted, n, uf.parent[..], uf.rank[..], comp, uf.rankBound, cost, accepted);
  }

  /** After the last segment, the loop's facts are the method's results. */
  lemma JoinDone(sorted: seq<Segment>, n: nat, parent: seq<int>, rank: seq<int>, comp: seq<int>, bound: int,
                 cost: int, accepted: seq<int>)
    requires Forest(parent, rank, comp, bound)
    requires JoinedUpTo(sorted, n, |sorted|, comp, cost, accepted) && Follows(sorted, n, |sorted|, comp, accepted)
    ensures accepted == Kruskal(sorted, n, |sorted|).0 && SamePartition(comp, Kruskal(sorted, n, |sorted|).1)
    ensures Increasing(accepted, |sorted|) && cost == WeightOf(sorted, accepted)
    ensures |comp| == n && forall k :: 0 <= k < |sorted| ==> comp[sorted[k].1] == comp[sorted[k].2]
    ensures |accepted| + |Roots(comp)| == n
    ensures n > 0 ==> |accepted| <= n - 1
  {
    if n > 0 {
      RootExists(parent, rank, comp, bound);
    }
  }

  /** One turn of the `kruskalMST` loop: segment `i` is accepted exactly when its ends have different roots. */
  method JoinStep(uf: UnionFind, sorted: seq<Segment>, n: nat, i: int, cost0: int, ghost accepted0: seq<int>)
    returns (cost: int, ghost accepted: seq<int>)
    requires uf.Valid() && uf.n == n && 0 <= i < |sorted|
    requires JoinedUpTo(sorted, n, i, uf.rep, cost0, accepted0) && Follows(sorted, n, i, uf.rep, accepted0)
    modifies uf, uf.parent, uf.rank
    ensures uf.Valid() && JoinedUpTo(sorted, n, i + 1, uf.rep, cost, accepted) && Follows(sorted, n, i + 1, uf.rep, accepted)
  {
    var (w, u, v) := sorted[i];
    ghost var rep0 := uf.rep;
    cost, accepted := cost0, accepted0;
    var ru := uf.Find(u);
    var rv := uf.Find(v);
    if ru != rv {
      uf.Union(u, v);
      FollowTake(sorted, n, i, rep0, uf.rep, accepted);
      JoinTake(sorted, n, i, rep0, uf.rep, cost, accepted);
      accepted := accepted + [i];
      cost := cost + w;
    } else {
      FollowSkip(sorted, n, i, rep0, accepted);
      JoinSkip(sorted, n, i, rep0, cost, accepted);
    }
  }

  /**
   * What the loop of `kruskalMST` keeps after `i` segments: the accepted
   * positions increase, the cost is their weight, every segment seen has
   * both ends in one component, and each accepted segment removed one.
   */
  ghost predicate JoinedUpTo(sorted: seq<Segment>, n: int, i: int, rep: seq<int>, cost: int, accepted: seq<int>)
  {
    && Junctions(sorted, n) && 0 <= i <= |sorted| && |rep| == n
    && Increasing(accepted, i) && cost == WeightOf(sorted, accepted)
    && (forall k :: 0 <= k < i ==> rep[sorted[k].1] == rep[sorted[k].2])
    && |accepted| + |Roots(rep)| == n
  }

  /** A segment whose ends already share a component is skipped. */
  lemma JoinSkip(sorted: seq<Segment>, n: int, i: int, rep: seq<int>, cost: int, accepted: seq<int>)
    requires JoinedUpTo(sorted, n, i, rep, cost, accepted) && i < |sorted|
    requires rep[sorted[i].1] == rep[sorted[i].2]
    ensures JoinedUpTo(sorted, n, i + 1, rep, cost, accepted)
  {
  }

  /** A segment joining two components is accepted: one component fewer, its weight added. */
  lemma JoinTake(sorted: seq<Segment>, n: int, i: int, rep: seq<int>, rep': seq<int>, cost: int, accepted: seq<int>)
    requires JoinedUpTo(sorted, n, i, rep, cost, accepted) && i < |sorted|
    requires rep[sorted[i].1] != rep[sorted[i].2] && Joined(rep, rep', sorted[i].1, sorted[i].2)
    requires |Roots(rep')| == |Roots(rep)| - 1
    ensures JoinedUpTo(sorted, n, i + 1, rep', cost + sorted[i].0, accepted + [i])
  {
    var picked := accepted + [i];
    assert picked[..|picked| - 1] == accepted;
    forall k | 0 <= k < i + 1 ensures rep'[sorted[k].1] == rep'[sorted[k].2] {
      if k < i {
        assert rep[sorted[k].1] == rep[sorted[k].2];
      }
    }
  }

  /** After `i` segments the loop has accepted what `Kruskal` accepts, and its components are `Kruskal`'s. */
  ghost predicate Follows(sorted: seq<Segment>, n: nat, i: int, rep: seq<int>, accepted: seq<int>)
  {
    && Junctions(sorted, n) && 0 <= i <= |sorted|
    && accepted == Kruskal(sorted, n, i).0 && SamePartition(rep, Kruskal(sorted, n, i).1)
  }

  lemma FollowStart(sorted: seq<Segment>, n: nat, rep: seq<int>)
    requires Junctions(sorted, n) && |rep| == n && forall x :: 0 <= x < n ==> rep[x] == x
    ensures Follows(sorted, n, 0, rep, [])
  {
  }

  /** A segment inside one component is skipped by both. */
  lemma FollowSkip(sorted: seq<Segment>, n: nat, i: int, rep: seq<int>, accepted: seq<int>)
    requires Follows(sorted, n, i, rep, accepted) && i < |sorted|
    requires rep[sorted[i].1] == rep[sorted[i].2]
    ensures Follows(sorted, n, i + 1, rep, accepted)
  {
    var lab := Kruskal(sorted, n, i).1;
    assert lab[sorted[i].1] == lab[sorted[i].2];
  }

  /** A segment across two components is accepted by both, and both merge the two components. */
  lemma FollowTake(sorted: seq<Segment>, n: nat, i: int, rep: seq<int>, rep': seq<int>, accepted: seq<int>)
    requires Follows(sorted, n, i, rep, accepted) && i < |sorted|
    requires rep[sorted[i].1] != rep[sorted[i].2] && Joined(rep, rep', sorted[i].1, sorted[i].2)
    ensures Follows(sorted, n, i + 1, rep', accepted + [i])
  {
    var (_, u, v) := sorted[i];
    var lab := Kruskal(sorted, n, i).1;
    assert lab[u] != lab[v];
    MergedSame(rep, rep', lab, u, v);
  }

  /** A union and a quick-find merge of the same two components keep the labellings in step. */
  lemma MergedSame(rep: seq<int>, rep': seq<int>, lab: seq<int>, u: int, v: int)
    requires SamePartition(rep, lab) && Joined(rep, rep', u, v) && rep[u] != rep[v]
    ensures SamePartition(rep', Merge(lab, u, v))
  {
    var lab' := Merge(lab, u, v);
    forall x, y | 0 <= x < |rep| && 0 <= y < |rep| ensures rep'[x] == rep'[y] <==> lab'[x] == lab'[y] {
      var inX := rep[x] == rep[u] || rep[x] == rep[v];
      var inY := rep[y] == rep[u] || rep[y] == rep[v];
      assert inX <==> lab[x] == lab[u] || lab[x] == lab[v];
      assert inY <==> lab[y] == lab[u] || lab[y] == lab[v];
    }
  }

  /** A non-empty forest has a root. */
  lemma RootExists(parent: seq<int>, rank: seq<int>, rep: seq<int>, bound: int)
    requires Forest(parent, rank, rep, bound) && |rep| > 0
    ensures rep[0] in Roots(rep)
  {
    assert NodeOk(parent, rank, rep, bound, 0);
    assert NodeOk(parent, rank, rep, bound, rep[0]);
  }
}
