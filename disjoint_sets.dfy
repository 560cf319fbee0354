/**
 * Union-find by rank with path compression over the elements 0..n-1, as in
 * the city zone connector (`initUF`/`findUF`/`unionUF`) and in the `UF`
 * struct behind the Kruskal route optimiser. Both versions behave the same:
 * the root of lower rank is hung under the other, and on equal ranks the
 * second root goes under the first, whose rank grows by one.
 *
 * The ghost sequence `rep` names each element's root: it is the partition
 * the arrays encode, and compression never changes it.
 */
module DisjointSets {

  /**
   * The forest is well formed: roots are exactly the self-parented
   * elements, every element has the same root as its parent, and ranks
   * strictly grow towards the root (which bounds the depth, so `Find`
   * terminates).
   */
  ghost predicate Forest(parent: seq<int>, rank: seq<int>, rep: seq<int>, bound: int)
  {
    && |parent| == |rank| == |rep|
    && forall x :: 0 <= x < |parent| ==> NodeOk(parent, rank, rep, bound, x)
  }

  /**
   * Element `x` points inside the forest, shares its root with its parent,
   * and, unless it is a root, ranks below its parent and below its root.
   */
  ghost predicate NodeOk(parent: seq<int>, rank: seq<int>, rep: seq<int>, bound: int, x: int)
    requires 0 <= x < |parent| == |rank| == |rep|
  {
    && 0 <= parent[x] < |parent| && 0 <= rank[x] <= bound && 0 <= rep[x] < |parent|
    && parent[rep[x]] == rep[x] && rep[parent[x]] == rep[x]
    && (parent[x] == x ==> rep[x] == x)
    && (parent[x] != x ==> rank[x] < rank[parent[x]] && rank[x] < rank[rep[x]])
  }

  /** Every element of the root `from` now belongs to the root `to`. */
  ghost function Relabel(rep: seq<int>, from: int, to: int): (r: seq<int>)
    ensures |r| == |rep|
    ensures forall x :: 0 <= x < |rep| ==> r[x] == (if rep[x] == from then to else rep[x])
  {
    seq(|rep|, x requires 0 <= x < |rep| => if rep[x] == from then to else rep[x])
  }

  /** The roots of the partition. */
  ghost function Roots(rep: seq<int>): set<int>
  {
    set x | 0 <= x < |rep| && rep[x] == x
  }

  /** Repointing a non-root straight at its root keeps the forest well formed. */
  lemma CompressKeeps(parent: seq<int>, rank: seq<int>, rep: seq<int>, bound: int, x: int)
    requires Forest(parent, rank, rep, bound) && 0 <= x < |parent| && rep[x] != x
    ensures Forest(parent[x := rep[x]], rank, rep, bound)
  {
    var p := parent[x := rep[x]];
    assert NodeOk(parent, rank, rep, bound, x);
    assert NodeOk(parent, rank, rep, bound, rep[x]);
    forall y | 0 <= y < |p|
      ensures NodeOk(p, rank, rep, bound, y)
    {
      assert NodeOk(parent, rank, rep, bound, y);
      assert NodeOk(parent, rank, rep, bound, rep[y]);
    }
  }

  /**
   * Hanging root `lo` under root `hi` (lower rank, or equal rank with
   * `hi`'s rank raised) keeps the forest well formed and removes `lo` from
   * the roots.
   */
  lemma LinkKeeps(parent: seq<int>, rank: seq<int>, rep: seq<int>, bound: int, lo: int, hi: int, bump: bool)
    requires Forest(parent, rank, rep, bound)
    requires 0 <= lo < |parent| && 0 <= hi < |parent| && lo != hi && rep[lo] == lo && rep[hi] == hi
    requires if bump then rank[lo] == rank[hi] else rank[lo] < rank[hi]
    ensures Forest(parent[lo := hi], if bump then rank[hi := rank[hi] + 1] else rank, Relabel(rep, lo, hi),
                   if bump && rank[hi] + 1 > bound then rank[hi] + 1 else bound)
    ensures Roots(Relabel(rep, lo, hi)) == Roots(rep) - {lo}
  {
    var p := parent[lo := hi];
    var r := if bump then rank[hi := rank[hi] + 1] else rank;
    var rp := Relabel(rep, lo, hi);
    var b := if bump && rank[hi] + 1 > bound then rank[hi] + 1 else bound;
    assert NodeOk(parent, rank, rep, bound, lo);
    assert NodeOk(parent, rank, rep, bound, hi);
    forall y | 0 <= y < |p|
      ensures NodeOk(p, r, rp, b, y)
    {
      assert NodeOk(parent, rank, rep, bound, y);
      assert NodeOk(parent, rank, rep, bound, parent[y]);
    }
    LinkRoots(rep, lo, hi);
  }

  lemma LinkRoots(rep: seq<int>, lo: int, hi: int)
    requires 0 <= lo < |rep| && 0 <= hi < |rep| && lo != hi && rep[lo] == lo && rep[hi] == hi
    ensures Roots(Relabel(rep, lo, hi)) == Roots(rep) - {lo}
  {
    var rp := Relabel(rep, lo, hi);
    forall x | 0 <= x < |rep| ensures (rp[x] == x) <==> (rep[x] == x && x != lo) {
      if rep[x] == lo {
        assert x != hi;
      }
    }
  }

  /** The elements 0..n-1. */
  ghost function Below(n: nat): (r: set<int>)
    ensures |r| == n
    ensures forall x :: x in r <==> 0 <= x < n
  {
    if n == 0 then {} else Below(n - 1) + {n - 1}
  }

  /** Path compression: every parent link is the old one or the node's root. */
  ghost predicate Compressed(before: seq<int>, after: seq<int>, rep: seq<int>)
  {
    |before| == |after| == |rep| && forall y :: 0 <= y < |after| ==> KeptOrRoot(before, after, rep, y)
  }

  ghost predicate KeptOrRoot(before: seq<int>, after: seq<int>, rep: seq<int>, y: int)
    requires 0 <= y < |before| == |after| == |rep|
  {
    after[y] == before[y] || after[y] == rep[y]
  }

  lemma CompressedStep(before: seq<int>, after: seq<int>, rep: seq<int>, x: int)
    requires Compressed(before, after, rep) && 0 <= x < |after|
    ensures Compressed(before, after[x := rep[x]], rep)
  {
    var next := after[x := rep[x]];
    forall y | 0 <= y < |after| ensures KeptOrRoot(before, next, rep, y) {
      if y != x {
        assert KeptOrRoot(before, after, rep, y);
      }
    }
  }

  /**
   * After a union of `a` and `b`, they share a root that is one of their
   * old roots; the members of both old sets have that root, and everyone
   * else keeps theirs.
   */
  ghost predicate Joined(before: seq<int>, after: seq<int>, a: int, b: int)
  {
    && |after| == |before| && 0 <= a < |before| && 0 <= b < |before|
    && after[a] == after[b] && (after[a] == before[a] || after[a] == before[b])
    && forall x :: 0 <= x < |before| ==>
         after[x] == (if before[x] == before[a] || before[x] == before[b] then after[a] else before[x])
  }

  /**
   * Only the surviving root's rank changes, by one exactly when two
   * different roots of equal rank were joined.
   */
  ghost predicate RanksAfterUnion(before: seq<int>, after: seq<int>, rep: seq<int>, root: int, a: int, b: int)
    requires 0 <= a < |rep| && 0 <= b < |rep|
  {
    && |after| == |before| && 0 <= root < |before|
    && 0 <= rep[a] < |before| && 0 <= rep[b] < |before|
    && (forall x :: 0 <= x < |before| && x != root ==> after[x] == before[x])
    && after[root] == before[root] + (if rep[a] != rep[b] && before[rep[a]] == before[rep[b]] then 1 else 0)
  }

  lemma RelabelJoins(rep: seq<int>, a: int, b: int, lo: int, hi: int)
    requires 0 <= a < |rep| && 0 <= b < |rep|
    requires (lo == rep[a] && hi == rep[b]) || (lo == rep[b] && hi == rep[a])
    ensures Joined(rep, Relabel(rep, lo, hi), a, b)
  {
  }

  lemma RootsShrink(rep: seq<int>, lo: int)
    requires 0 <= lo < |rep| && rep[lo] == lo
    ensures |Roots(rep) - {lo}| == |Roots(rep)| - 1
  {
  }

  class UnionFind {
    const n: nat
    const parent: array<int>
    const rank: array<int>
    /** The root of each element. */
    ghost var rep: seq<int>
    /** An upper bound of all ranks, the measure of `Find`. */
    ghost var rankBound: int

    ghost predicate Valid()
      reads this, parent, rank
    {
      && parent != rank && parent.Length == n && rank.Length == n
      && Forest(parent[..], rank[..], rep, rankBound)
    }

    /** `initUF(n)`: every element is its own root with rank 0. */
    constructor(size: nat)
      ensures Valid() && n == size && fresh(parent) && fresh(rank)
      ensures forall x :: 0 <= x < n ==> parent[x] == x && rank[x] == 0 && rep[x] == x
      ensures |Roots(rep)| == n
    {
      n := size;
      var p := new int[size];
      var r := new int[size];
      var i := 0;
      while i < size
        invariant 0 <= i <= size
        invariant forall x :: 0 <= x < i ==> p[x] == x && r[x] == 0
      {
        p[i], r[i] := i, 0;
        i := i + 1;
      }
      parent, rank := p, r;
      rep := seq(size, x => x);
      rankBound := 0;
      new;
      assert Roots(rep) == Below(size);
    }

    /**
     * `findUF`: the root of `x`. Path compression only repoints nodes at
     * their own root, so the partition `rep` and the ranks stay as they were.
     */
    method Find(x: int) returns (r: int)
      requires Valid() && 0 <= x < n
      modifies parent
      ensures Valid() && 0 <= r < n && r == rep[x] && parent[..][r] == r && rep[r] == r
      ensures Compressed(old(parent[..]), parent[..], rep)
      decreases rankBound - rank[x]
    {
      ghost var p0 := parent[..];
      assert NodeOk(p0, rank[..], rep, rankBound, x);
      assert NodeOk(p0, rank[..], rep, rankBound, rep[x]);
      if parent[x] != x {
        assert p0[x] == parent[x];
        r := Find(parent[x]);
        ghost var p1 := parent[..];
        CompressKeeps(p1, rank[..], rep, rankBound, x);
        CompressedStep(p0, p1, rep, x);
        parent[x] := r;
        assert parent[..] == p1[x := rep[x]];
      } else {
        assert p0[x] == parent[x];
        r := x;
      }
      assert parent[..][r] == r;
    }

    /**
     * `unionUF(a, b)` / `unite(x, y)`: afterwards `a` and `b` share a root,
     * the two old sets are merged and every other set is kept; joining two
     * different sets removes exactly one root. The surviving root is the
     * one of higher rank, and `a`'s root on a tie.
     */
    method Union(a: int, b: int)
      requires Valid() && 0 <= a < n && 0 <= b < n
      modifies this, parent, rank
      ensures Valid()
      ensures Joined(old(rep), rep, a, b)
      ensures RanksAfterUnion(old(rank[..]), rank[..], old(rep), rep[a], a, b)
      ensures |Roots(rep)| == |old(Roots(rep))| - (if old(rep[a]) == old(rep[b]) then 0 else 1)
      ensures old(rep[a]) != old(rep[b]) ==>
        rep[a] == (if old(rank[..])[old(rep)[a]] >= old(rank[..])[old(rep)[b]] then old(rep)[a] else old(rep)[b])
    {
      var ra := Find(a);
      var rb := Find(b);
      if ra == rb {
        RelabelJoins(rep, a, b, ra, rb);
        assert Relabel(rep, ra, rb) == rep;
        return;
      }
      ghost var rp := rep;
      ghost var rk := rank[..];
      var lo, hi := ra, rb;
      if rank[ra] < rank[rb] {
        Hang(ra, rb);
      } else if rank[ra] > rank[rb] {
        lo, hi := rb, ra;
        Hang(rb, ra);
      } else {
        lo, hi := rb, ra;
        HangAndRaise(rb, ra);
      }
      RelabelJoins(rp, a, b, lo, hi);
      LinkRoots(rp, lo, hi);
      RootsShrink(rp, lo);
    }

    /** Hangs root `lo` under the root `hi` of higher rank. */
    method Hang(lo: int, hi: int)
      requires Valid() && 0 <= lo < n && 0 <= hi < n && lo != hi && rep[lo] == lo && rep[hi] == hi
      requires rank[lo] < rank[hi]
      modifies this, parent
      ensures Valid() && rep == Relabel(old(rep), lo, hi) && rank[..] == old(rank[..])
    {
      ghost var p := parent[..];
      LinkKeeps(p, rank[..], rep, rankBound, lo, hi, false);
      parent[lo] := hi;
      assert parent[..] == p[lo := hi];
      rep := Relabel(rep, lo, hi);
    }

    /** Hangs root `lo` under the root `hi` of equal rank and raises `hi`'s rank. */
    method HangAndRaise(lo: int, hi: int)
      requires Valid() && 0 <= lo < n && 0 <= hi < n && lo != hi && rep[lo] == lo && rep[hi] == hi
      requires rank[lo] == rank[hi]
      modifies this, parent, rank
      ensures Valid() && rep == Relabel(old(rep), lo, hi) && rank[..] == old(rank[..])[hi := old(rank[hi]) + 1]
    {
      ghost var p := parent[..];
      ghost var rk := rank[..];
      ghost var rp := Relabel(rep, lo, hi);
      ghost var b := if rk[hi] + 1 > rankBound then rk[hi] + 1 else rankBound;
      LinkKeeps(p, rk, rep, rankBound, lo, hi, true);
      assert Forest(p[lo := hi], rk[hi := rk[hi] + 1], rp, b);
      parent[lo] := hi;
      rank[hi] := rank[hi] + 1;
      rep, rankBound := rp, b;
      assert parent[..] == p[lo := hi];
      assert rank[..] == rk[hi := rk[hi] + 1];
    }
  }
}
