/**
 * The catalogue's sorting and searching routines (acase8.cpp): a top-down
 * merge sort, a Lomuto quicksort and a binary search, all working in place
 * on a vector through a caller-supplied comparator.
 *
 * `mergeSort` and `quickSort` order a closed index range `[l, r]`; ranges
 * are written half-open, `a[l..r + 1]`, in the contracts.
 */
module Sorting {
  import opened Orderings

  lemma SuffixStep<T>(s: seq<T>, i: int)
    requires 0 <= i < |s|
    ensures multiset(s[i..]) == multiset{s[i]} + multiset(s[i + 1..])
  {
    assert s[i..] == [s[i]] + s[i + 1..];
  }

  /**
   * One of the two tail loops of the merge: copies what is left of a sorted
   * run, from `start` on, behind the buffer.
   */
  method AppendRest<T(!new)>(temp0: seq<T>, run: seq<T>, start: int, comp: (T, T) -> bool)
    returns (temp: seq<T>)
    requires StrictWeakOrder(comp) && SortedBy(temp0, comp) && SortedBy(run, comp)
    requires 0 <= start <= |run|
    requires temp0 != [] && start < |run| ==> !comp(run[start], temp0[|temp0| - 1])
    ensures multiset(temp) == multiset(temp0) + multiset(run[start..])
    ensures |temp| == |temp0| + |run| - start
    ensures SortedBy(temp, comp)
    ensures start == |run| ==> temp == temp0
  {
    temp := temp0;
    var i := start;
    while i < |run|
      invariant RestInv(temp0, run, start, i, temp, comp)
    {
      var temp' := temp + [run[i]];
      RestStep(temp0, run, start, i, temp, temp', comp);
      temp := temp';
      i := i + 1;
    }
    RestDone(temp0, run, start, temp, comp);
  }

  lemma RestDone<T(!new)>(temp0: seq<T>, run: seq<T>, start: int, temp: seq<T>, comp: (T, T) -> bool)
    requires RestInv(temp0, run, start, |run|, temp, comp)
    ensures multiset(temp) == multiset(temp0) + multiset(run[start..])
    ensures |temp| == |temp0| + |run| - start
    ensures SortedBy(temp, comp)
    ensures start == |run| ==> temp == temp0
  {
    assert run[|run|..] == [];
  }

  /** What the tail loop keeps: the buffer holds `temp0` and then `run[start..i]`, in order. */
  ghost predicate RestInv<T(!new)>(temp0: seq<T>, run: seq<T>, start: int, i: int, temp: seq<T>, comp: (T, T) -> bool)
  {
    && 0 <= start <= i <= |run|
    && multiset(temp) + multiset(run[i..]) == multiset(temp0) + multiset(run[start..])
    && |temp| == |temp0| + i - start
    && SortedBy(temp, comp)
    && (temp != [] && i < |run| ==> !comp(run[i], temp[|temp| - 1]))
    && (i == start ==> temp == temp0)
  }

  lemma RestStep<T(!new)>(temp0: seq<T>, run: seq<T>, start: int, i: int, temp: seq<T>, temp': seq<T>,
                          comp: (T, T) -> bool)
    requires StrictWeakOrder(comp) && SortedBy(run, comp)
    requires RestInv(temp0, run, start, i, temp, comp) && i < |run| && temp' == temp + [run[i]]
    ensures RestInv(temp0, run, start, i + 1, temp', comp)
  {
    SortedAppend(temp, run[i], comp);
    SuffixStep(run, i);
    if i + 1 < |run| {
      assert !comp(run[i + 1], run[i]);
    }
  }

  /** What the merge loop keeps: the buffer holds the consumed heads, in order. */
  ghost predicate MergeInv<T(!new)>(left: seq<T>, right: seq<T>, i: int, j: int, temp: seq<T>, comp: (T, T) -> bool)
  {
    && 0 <= i <= |left| && 0 <= j <= |right|
    && multiset(temp) + multiset(left[i..]) + multiset(right[j..]) == multiset(left) + multiset(right)
    && |temp| == i + j
    && SortedBy(temp, comp)
    && (temp != [] && i < |left| ==> !comp(left[i], temp[|temp| - 1]))
    && (temp != [] && j < |right| ==> !comp(right[j], temp[|temp| - 1]))
  }

  lemma TakeLeft<T(!new)>(left: seq<T>, right: seq<T>, i: int, j: int, temp: seq<T>, temp': seq<T>,
                          comp: (T, T) -> bool)
    requires StrictWeakOrder(comp) && SortedBy(left, comp) && SortedBy(right, comp)
    requires MergeInv(left, right, i, j, temp, comp) && i < |left| && j < |right|
    requires comp(left[i], right[j]) && temp' == temp + [left[i]]
    ensures MergeInv(left, right, i + 1, j, temp', comp)
  {
    SortedAppend(temp, left[i], comp);
    SuffixStep(left, i);
  }

  lemma TakeRight<T(!new)>(left: seq<T>, right: seq<T>, i: int, j: int, temp: seq<T>, temp': seq<T>,
                           comp: (T, T) -> bool)
    requires StrictWeakOrder(comp) && SortedBy(left, comp) && SortedBy(right, comp)
    requires MergeInv(left, right, i, j, temp, comp) && i < |left| && j < |right|
    requires !comp(left[i], right[j]) && temp' == temp + [right[j]]
    ensures MergeInv(left, right, i, j + 1, temp', comp)
  {
    SortedAppend(temp, right[j], comp);
    SuffixStep(right, j);
  }

  /**
   * The merge loop of `mergeSort`: repeatedly moves the smaller head of the
   * two sorted runs into the temporary buffer, then copies the rest of
   * whichever run is left. On a tie (`comp` false both ways) the element of
   * the right run is taken, so the merge is not stable.
   */
  method MergeRuns<T(!new)>(left: seq<T>, right: seq<T>, comp: (T, T) -> bool) returns (temp: seq<T>)
    requires StrictWeakOrder(comp) && SortedBy(left, comp) && SortedBy(right, comp)
    ensures SortedBy(temp, comp)
    ensures multiset(temp) == multiset(left) + multiset(right)
    ensures |temp| == |left| + |right|
  {
    var temp0, i, j := MergeHeads(left, right, comp);
    var temp1 := AppendRest(temp0, left, i, comp);
    temp := AppendRest(temp1, right, j, comp);
    BagChain(multiset(temp0), multiset(left[i..]), multiset(right[j..]), multiset(left) + multiset(right),
             multiset(temp1), multiset(temp));
  }

  /** The first loop of the merge: while both runs have elements, the smaller head moves to the buffer. */
  method MergeHeads<T(!new)>(left: seq<T>, right: seq<T>, comp: (T, T) -> bool) returns (temp: seq<T>, i: int, j: int)
    requires StrictWeakOrder(comp) && SortedBy(left, comp) && SortedBy(right, comp)
    ensures MergeInv(left, right, i, j, temp, comp) && (i == |left| || j == |right|)
  {
    temp := [];
    i, j := 0, 0;
    assert left[0..] == left && right[0..] == right;
    while i < |left| && j < |right|
      invariant MergeInv(left, right, i, j, temp, comp)
      decreases |left| - i + |right| - j
    {
      temp, i, j := TakeSmaller(left, right, i, j, temp, comp);
    }
  }

  /** One round of the merge loop: the left head moves when it is `comp`-before the right one, else the right head. */
  method TakeSmaller<T(!new)>(left: seq<T>, right: seq<T>, i0: int, j0: int, temp0: seq<T>, comp: (T, T) -> bool)
    returns (temp: seq<T>, i: int, j: int)
    requires StrictWeakOrder(comp) && SortedBy(left, comp) && SortedBy(right, comp)
    requires MergeInv(left, right, i0, j0, temp0, comp) && i0 < |left| && j0 < |right|
    ensures MergeInv(left, right, i, j, temp, comp)
    ensures (i, j) == (i0 + 1, j0) || (i, j) == (i0, j0 + 1)
  {
    if comp(left[i0], right[j0]) {
      temp, i, j := temp0 + [left[i0]], i0 + 1, j0;
      TakeLeft(left, right, i0, j0, temp0, temp, comp);
    } else {
      temp, i, j := temp0 + [right[j0]], i0, j0 + 1;
      TakeRight(left, right, i0, j0, temp0, temp, comp);
    }
  }

  lemma BagChain<T>(a: multiset<T>, l: multiset<T>, r: multiset<T>, x: multiset<T>, t1: multiset<T>, t2: multiset<T>)
    requires a + l + r == x && t1 == a + l && t2 == t1 + r
    ensures t2 == x
  {
  }

  /**
   * Merges the sorted runs `a[l..m + 1]` and `a[m + 1..r + 1]` into a
   * temporary buffer and copies the buffer back over the range.
   */
  method Merge<T(!new)>(a: array<T>, l: int, m: int, r: int, comp: (T, T) -> bool)
    requires StrictWeakOrder(comp)
    requires 0 <= l <= m < r < a.Length
    requires SortedBy(a[l..m + 1], comp) && SortedBy(a[m + 1..r + 1], comp)
    modifies a
    ensures SortedBy(a[l..r + 1], comp)
    ensures multiset(a[l..r + 1]) == old(multiset(a[l..r + 1]))
    ensures a[..l] == old(a[..l]) && a[r + 1..] == old(a[r + 1..])
  {
    ghost var s := a[..];
    var temp := MergeRuns(a[l..m + 1], a[m + 1..r + 1], comp);
    CopyBack(a, l, temp);
    MergedInto(s, temp, a[..], l, m, r, comp);
  }

  /** The buffer copied back over `l..r` leaves that range sorted and a permutation of what it held. */
  lemma MergedInto<T>(s: seq<T>, temp: seq<T>, t: seq<T>, l: int, m: int, r: int, comp: (T, T) -> bool)
    requires 0 <= l <= m < r < |s| == |t| && |temp| == r + 1 - l
    requires SortedBy(temp, comp) && multiset(temp) == multiset(s[l..m + 1]) + multiset(s[m + 1..r + 1])
    requires t[l..l + |temp|] == temp
    ensures SortedBy(t[l..r + 1], comp) && multiset(t[l..r + 1]) == multiset(s[l..r + 1])
  {
    SplitBag(s, l, m + 1, r + 1);
  }

  lemma SplitBag<T>(s: seq<T>, lo: int, mid: int, hi: int)
    requires 0 <= lo <= mid <= hi <= |s|
    ensures multiset(s[lo..hi]) == multiset(s[lo..mid]) + multiset(s[mid..hi])
  {
    assert s[lo..hi] == s[lo..mid] + s[mid..hi];
  }

  /** The copy-back loop of the merge: `temp` lands on `a[l..]`, and nothing else changes. */
  method CopyBack<T>(a: array<T>, l: int, temp: seq<T>)
    requires 0 <= l && l + |temp| <= a.Length
    modifies a
    ensures a[l..l + |temp|] == temp
    ensures a[..l] == old(a[..l]) && a[l + |temp|..] == old(a[l + |temp|..])
  {
    var k := l;
    while k < l + |temp|
      invariant l <= k <= l + |temp|
      invariant a[l..k] == temp[..k - l]
      invariant a[..l] == old(a[..l]) && a[l + |temp|..] == old(a[l + |temp|..])
    {
      a[k] := temp[k - l];
      k := k + 1;
    }
    assert temp[..k - l] == temp;
  }

  /** Sorts `a[l..r + 1]` so that no element is `comp`-before an earlier one. */
  method MergeSort<T(!new)>(a: array<T>, l: int, r: int, comp: (T, T) -> bool)
    requires StrictWeakOrder(comp)
    requires l < r ==> 0 <= l && r < a.Length
    modifies a
    decreases r - l
    ensures SortsRange(a[..], old(a[..]), l, r, comp)
  {
    if l >= r {
      return;
    }
    var m := (l + r) / 2;
    ghost var a0 := a[..];
    MergeSort(a, l, m, comp);
    ghost var a1 := a[..];
    MergeSort(a, m + 1, r, comp);
    ghost var a2 := a[..];
    HalvesSorted(a0, a1, a2, l, m, r, comp);
    Merge(a, l, m, r, comp);
    MergedRange(a0, a2, a[..], l, r, comp);
  }

  /** After the two recursive calls, both halves are sorted and the range is a permutation. */
  lemma HalvesSorted<T(!new)>(a0: seq<T>, a1: seq<T>, a2: seq<T>, l: int, m: int, r: int, comp: (T, T) -> bool)
    requires 0 <= l <= m < r < |a0| && SortsRange(a1, a0, l, m, comp) && SortsRange(a2, a1, m + 1, r, comp)
    ensures SortedBy(a2[l..m + 1], comp) && SortedBy(a2[m + 1..r + 1], comp)
    ensures multiset(a2[l..r + 1]) == multiset(a0[l..r + 1])
    ensures a2[..l] == a0[..l] && a2[r + 1..] == a0[r + 1..]
  {
    assert a2[..m + 1] == a1[..m + 1] && a2[r + 1..] == a1[r + 1..];
    assert a1[..l] == a0[..l] && a1[m + 1..] == a0[m + 1..];
    HalvesOrder(a1, a2, l, m, r, comp);
    HalvesBag(a0, a1, a2, l, m, r);
    PrefixSlices(a2, a1, m + 1, 0, l);
    SuffixSlices(a1, a0, m + 1, r + 1, |a0|);
  }

  lemma HalvesOrder<T>(a1: seq<T>, a2: seq<T>, l: int, m: int, r: int, comp: (T, T) -> bool)
    requires 0 <= l <= m < r < |a1| == |a2| && a2[..m + 1] == a1[..m + 1]
    requires l < m ==> SortedBy(a1[l..m + 1], comp)
    requires m + 1 < r ==> SortedBy(a2[m + 1..r + 1], comp)
    ensures SortedBy(a2[l..m + 1], comp) && SortedBy(a2[m + 1..r + 1], comp)
  {
    PrefixSlices(a2, a1, m + 1, l, m + 1);
  }

  lemma HalvesBag<T>(a0: seq<T>, a1: seq<T>, a2: seq<T>, l: int, m: int, r: int)
    requires 0 <= l <= m < r < |a0| == |a1| == |a2|
    requires multiset(a1[l..m + 1]) == multiset(a0[l..m + 1]) && a1[m + 1..] == a0[m + 1..]
    requires multiset(a2[m + 1..r + 1]) == multiset(a1[m + 1..r + 1]) && a2[..m + 1] == a1[..m + 1]
    ensures multiset(a2[l..r + 1]) == multiset(a0[l..r + 1])
  {
    PrefixSlices(a2, a1, m + 1, l, m + 1);
    SuffixSlices(a1, a0, m + 1, m + 1, r + 1);
    SplitBag(a0, l, m + 1, r + 1);
    SplitBag(a2, l, m + 1, r + 1);
    BagHalves(multiset(a2[l..r + 1]), multiset(a2[l..m + 1]), multiset(a2[m + 1..r + 1]),
              multiset(a0[l..r + 1]), multiset(a0[l..m + 1]), multiset(a0[m + 1..r + 1]), multiset(a1[m + 1..r + 1]));
  }

  lemma BagHalves<T>(w2: multiset<T>, x2: multiset<T>, y2: multiset<T>, w0: multiset<T>, x0: multiset<T>, y0: multiset<T>,
                     y1: multiset<T>)
    requires w2 == x2 + y2 && w0 == x0 + y0 && x2 == x0 && y2 == y1 && y1 == y0
    ensures w2 == w0
  {
  }

  /** The merge leaves the range sorted and a permutation of what the call began with. */
  lemma MergedRange<T(!new)>(a0: seq<T>, a2: seq<T>, a3: seq<T>, l: int, r: int, comp: (T, T) -> bool)
    requires 0 <= l < r < |a0| == |a2| == |a3|
    requires multiset(a2[l..r + 1]) == multiset(a0[l..r + 1]) && a2[..l] == a0[..l] && a2[r + 1..] == a0[r + 1..]
    requires SortedBy(a3[l..r + 1], comp) && multiset(a3[l..r + 1]) == multiset(a2[l..r + 1])
    requires a3[..l] == a2[..l] && a3[r + 1..] == a2[r + 1..]
    ensures SortsRange(a3, a0, l, r, comp)
  {
  }

  /** Equal prefixes of length `n` have equal slices below `n`. */
  lemma PrefixSlices<T>(s: seq<T>, t: seq<T>, n: int, lo: int, hi: int)
    requires 0 <= lo <= hi <= n <= |s| && n <= |t| && s[..n] == t[..n]
    ensures s[lo..hi] == t[lo..hi]
  {
    forall k | 0 <= k < hi - lo ensures s[lo..hi][k] == t[lo..hi][k] {
      assert s[..n][lo + k] == t[..n][lo + k];
    }
  }

  /** Equal suffixes from `n` on have equal slices above `n`. */
  lemma SuffixSlices<T>(s: seq<T>, t: seq<T>, n: int, lo: int, hi: int)
    requires 0 <= n <= lo <= hi <= |s| == |t| && s[n..] == t[n..]
    ensures s[lo..hi] == t[lo..hi]
  {
    forall k | 0 <= k < hi - lo ensures s[lo..hi][k] == t[lo..hi][k] {
      assert s[n..][lo + k - n] == t[n..][lo + k - n];
    }
  }

  function Swap<T>(s: seq<T>, i: int, j: int): (t: seq<T>)
    requires 0 <= i < |s| && 0 <= j < |s|
    ensures |t| == |s| && t[i] == s[j] && t[j] == s[i]
    ensures forall k :: 0 <= k < |s| && k != i && k != j ==> t[k] == s[k]
    ensures multiset(t) == multiset(s)
  {
    s[i := s[j]][j := s[i]]
  }

  /** A permutation of the whole array that fixes both ends permutes the middle. */
  lemma RangePermutation<T>(s0: seq<T>, s1: seq<T>, lo: int, hi: int)
    requires 0 <= lo <= hi <= |s0| == |s1|
    requires multiset(s0) == multiset(s1) && s0[..lo] == s1[..lo] && s0[hi..] == s1[hi..]
    ensures multiset(s0[lo..hi]) == multiset(s1[lo..hi])
  {
    assert s0 == s0[..lo] + s0[lo..hi] + s0[hi..];
    assert s1 == s1[..lo] + s1[lo..hi] + s1[hi..];
    BagCancel(multiset(s0[..lo]), multiset(s0[lo..hi]), multiset(s1[lo..hi]), multiset(s0[hi..]), multiset(s0));
  }

  lemma BagCancel<T>(a: multiset<T>, m0: multiset<T>, m1: multiset<T>, b: multiset<T>, x: multiset<T>)
    requires x == a + m0 + b && x == a + m1 + b
    ensures m0 == m1
  {
    forall e ensures m0[e] == m1[e] {
      assert x[e] == a[e] + m0[e] + b[e] == a[e] + m1[e] + b[e];
    }
  }

  /** What the partition loop keeps, for the array contents `s` that started as `s0`. */
  ghost predicate PartitionInv<T>(s: seq<T>, s0: seq<T>, low: int, high: int, i: int, j: int, pivot: T,
                                  comp: (T, T) -> bool)
  {
    && |s| == |s0| && 0 <= low && low - 1 <= i < j <= high < |s| && s[high] == pivot
    && (forall k :: low <= k <= i ==> comp(s[k], pivot))
    && (forall k :: i < k < j ==> !comp(s[k], pivot))
    && multiset(s) == multiset(s0)
    && (forall k :: 0 <= k < |s| && (k < low || high < k) ==> s[k] == s0[k])
  }

  lemma PartitionTake<T>(s: seq<T>, t: seq<T>, s0: seq<T>, low: int, high: int, i: int, j: int, pivot: T,
                         comp: (T, T) -> bool)
    requires PartitionInv(s, s0, low, high, i, j, pivot, comp) && j < high && comp(s[j], pivot)
    requires t == Swap(s, i + 1, j)
    ensures PartitionInv(t, s0, low, high, i + 1, j + 1, pivot, comp)
  {
  }

  lemma PartitionSkip<T>(s: seq<T>, s0: seq<T>, low: int, high: int, i: int, j: int, pivot: T,
                         comp: (T, T) -> bool)
    requires PartitionInv(s, s0, low, high, i, j, pivot, comp) && j < high && !comp(s[j], pivot)
    ensures PartitionInv(s, s0, low, high, i, j + 1, pivot, comp)
  {
  }

  /**
   * `t` is `s0` with the range `low..high` partitioned around position `p`:
   * the elements before `p` are `comp`-before `t[p]`, those after it are
   * not, the range holds the same elements and nothing outside it moved.
   */
  ghost predicate PartitionedAt<T>(t: seq<T>, s0: seq<T>, low: int, p: int, high: int, comp: (T, T) -> bool)
  {
    && 0 <= low <= p <= high < |t| == |s0|
    && (forall k :: low <= k < p ==> comp(t[k], t[p]))
    && (forall k :: p < k <= high ==> !comp(t[k], t[p]))
    && multiset(t[low..high + 1]) == multiset(s0[low..high + 1])
    && t[..low] == s0[..low] && t[high + 1..] == s0[high + 1..]
  }

  /** The final swap puts the pivot between the two sides. */
  lemma PartitionDone<T>(s: seq<T>, s0: seq<T>, t: seq<T>, low: int, high: int, i: int, pivot: T, comp: (T, T) -> bool)
    requires PartitionInv(s, s0, low, high, i, high, pivot, comp) && t == Swap(s, i + 1, high)
    ensures t[i + 1] == pivot && PartitionedAt(t, s0, low, i + 1, high, comp)
  {
    PartitionDoneOrder(s, t, low, high, i, pivot, comp);
    PartitionDoneFrame(s, s0, t, low, high, i);
  }

  lemma PartitionDoneOrder<T>(s: seq<T>, t: seq<T>, low: int, high: int, i: int, pivot: T, comp: (T, T) -> bool)
    requires 0 <= low && low - 1 <= i < high < |s| && s[high] == pivot
    requires forall k :: low <= k <= i ==> comp(s[k], pivot)
    requires forall k :: i < k < high ==> !comp(s[k], pivot)
    requires t == Swap(s, i + 1, high)
    ensures t[i + 1] == pivot
    ensures forall k :: low <= k < i + 1 ==> comp(t[k], t[i + 1])
    ensures forall k :: i + 1 < k <= high ==> !comp(t[k], t[i + 1])
  {
  }

  lemma PartitionDoneFrame<T>(s: seq<T>, s0: seq<T>, t: seq<T>, low: int, high: int, i: int)
    requires 0 <= low && low - 1 <= i < high < |s| == |s0| && multiset(s) == multiset(s0)
    requires forall k :: 0 <= k < |s| && (k < low || high < k) ==> s[k] == s0[k]
    requires t == Swap(s, i + 1, high)
    ensures multiset(t[low..high + 1]) == multiset(s0[low..high + 1])
    ensures t[..low] == s0[..low] && t[high + 1..] == s0[high + 1..]
  {
    assert multiset(t) == multiset(s0);
    forall k | 0 <= k < |t| && (k < low || high < k) ensures t[k] == s0[k] {
      assert t[k] == s[k];
    }
    OutsideEqual(t, s0, low, high);
    RangePermutation(s0, t, low, high + 1);
  }

  /** Sequences that agree outside `low..high` have the same prefix before it and suffix after it. */
  lemma OutsideEqual<T>(t: seq<T>, s0: seq<T>, low: int, high: int)
    requires 0 <= low <= high < |t| == |s0|
    requires forall k :: 0 <= k < |t| && (k < low || high < k) ==> t[k] == s0[k]
    ensures t[..low] == s0[..low] && t[high + 1..] == s0[high + 1..]
  {
    assert forall k :: 0 <= k < low ==> t[..low][k] == t[k];
    assert forall k :: high + 1 <= k < |t| ==> t[high + 1..][k - high - 1] == t[k] && s0[high + 1..][k - high - 1] == s0[k];
  }

  /**
   * Lomuto partition of `a[low..high + 1]` around the pivot `a[high]`:
   * the elements `comp`-before the pivot end up in front of it, the others
   * behind it, and the pivot's final position is returned.
   */
  method Partition<T>(a: array<T>, low: int, high: int, comp: (T, T) -> bool) returns (p: int)
    requires 0 <= low <= high < a.Length
    modifies a
    ensures PartitionedAt(a[..], old(a[..]), low, p, high, comp) && a[p] == old(a[high])
  {
    var pivot := a[high];
    ghost var s0 := a[..];
    var i := PartitionScan(a, low, high, pivot, comp);
    ghost var s := a[..];
    SwapElements(a, i + 1, high);
    PartitionDone(s, s0, a[..], low, high, i, pivot, comp);
    p := i + 1;
  }

  /** `std::swap` of two array elements. */
  method SwapElements<T>(a: array<T>, i: int, j: int)
    requires 0 <= i < a.Length && 0 <= j < a.Length
    modifies a
    ensures a[..] == Swap(old(a[..]), i, j)
  {
    a[i], a[j] := a[j], a[i];
  }

  /** The scanning loop of the partition: `a[low..i + 1]` collects the elements before the pivot. */
  method PartitionScan<T>(a: array<T>, low: int, high: int, pivot: T, comp: (T, T) -> bool) returns (i: int)
    requires 0 <= low <= high < a.Length && a[high] == pivot
    modifies a
    ensures PartitionInv(a[..], old(a[..]), low, high, i, high, pivot, comp)
  {
    ghost var s0 := a[..];
    i := low - 1;
    var j := low;
    while j < high
      invariant PartitionInv(a[..], s0, low, high, i, j, pivot, comp)
    {
      i := PartitionNext(a, low, high, i, j, pivot, comp, s0);
      j := j + 1;
    }
  }

  /** One round of the scanning loop: an element before the pivot is swapped to the front part. */
  method PartitionNext<T>(a: array<T>, low: int, high: int, i0: int, j: int, pivot: T, comp: (T, T) -> bool,
                          ghost s0: seq<T>) returns (i: int)
    requires PartitionInv(a[..], s0, low, high, i0, j, pivot, comp) && j < high
    modifies a
    ensures PartitionInv(a[..], s0, low, high, i, j + 1, pivot, comp)
  {
    i := i0;
    if comp(a[j], pivot) {
      ghost var s := a[..];
      SwapElements(a, i + 1, j);
      PartitionTake(s, a[..], s0, low, high, i, j, pivot, comp);
      i := i + 1;
    } else {
      PartitionSkip(a[..], s0, low, high, i, j, pivot, comp);
    }
  }

  /** Two sorted sides of a pivot that separates them form one sorted range. */
  lemma JoinAroundPivot<T(!new)>(s: seq<T>, p: int, comp: (T, T) -> bool)
    requires StrictWeakOrder(comp) && 0 <= p < |s|
    requires SortedBy(s[..p], comp) && SortedBy(s[p + 1..], comp)
    requires forall k :: 0 <= k < p ==> comp(s[k], s[p])
    requires forall k :: p < k < |s| ==> !comp(s[k], s[p])
    ensures SortedBy(s, comp)
  {
    forall i, j | 0 <= i < j < |s| ensures !comp(s[j], s[i]) {
      if j < p {
        assert s[..p][i] == s[i] && s[..p][j] == s[j];
      } else if i > p {
        assert s[p + 1..][i - p - 1] == s[i] && s[p + 1..][j - p - 1] == s[j];
      } else if i < p && p < j {
        assert comp(s[i], s[p]) && !comp(s[j], s[p]);
      }
    }
  }

  /** A property of every element survives a permutation. */
  lemma PermutationKeeps<T>(s: seq<T>, t: seq<T>, P: T -> bool)
    requires multiset(s) == multiset(t)
    requires forall k :: 0 <= k < |s| ==> P(s[k])
    ensures forall k :: 0 <= k < |t| ==> P(t[k])
  {
    forall k | 0 <= k < |t| ensures P(t[k]) {
      assert t[k] in multiset(t);
      var m :| 0 <= m < |s| && s[m] == t[k];
    }
  }

  /**
   * `s` is `s0` with the inclusive range `lo..hi` sorted by `comp` and
   * everything outside that range left alone; a range of at most one
   * element is left exactly as it was.
   */
  ghost predicate SortsRange<T>(s: seq<T>, s0: seq<T>, lo: int, hi: int, comp: (T, T) -> bool)
  {
    && |s| == |s0|
    && (lo < hi ==>
          (&& 0 <= lo && hi < |s|
           && SortedBy(s[lo..hi + 1], comp)
           && multiset(s[lo..hi + 1]) == multiset(s0[lo..hi + 1])
           && s[..lo] == s0[..lo] && s[hi + 1..] == s0[hi + 1..]))
    && (lo >= hi ==> s == s0)
  }

  /** Quicksort of `a[low..high + 1]` with the Lomuto partition. */
  method QuickSort<T(!new)>(a: array<T>, low: int, high: int, comp: (T, T) -> bool)
    requires StrictWeakOrder(comp)
    requires low < high ==> 0 <= low && high < a.Length
    modifies a
    decreases high - low
    ensures SortsRange(a[..], old(a[..]), low, high, comp)
  {
    if low < high {
      ghost var s := a[..];
      var pi := Partition(a, low, high, comp);
      ghost var a0 := a[..];
      QuickSort(a, low, pi - 1, comp);
      ghost var a1 := a[..];
      QuickSort(a, pi + 1, high, comp);
      QuickSortJoin(s, a0, a1, a[..], low, pi, high, comp);
    }
  }

  /** The two recursive calls around a partition sort the whole range. */
  lemma QuickSortJoin<T(!new)>(s: seq<T>, a0: seq<T>, a1: seq<T>, a2: seq<T>, low: int, pi: int, high: int,
                               comp: (T, T) -> bool)
    requires StrictWeakOrder(comp) && low < high && PartitionedAt(a0, s, low, pi, high, comp)
    requires SortsRange(a1, a0, low, pi - 1, comp) && SortsRange(a2, a1, pi + 1, high, comp)
    ensures SortsRange(a2, s, low, high, comp)
  {
    assert a1[pi..] == a0[pi..] by {
      if low < pi - 1 {
        assert a1[pi..] == a1[pi - 1 + 1..];
      }
    }
    SortedRight(a0, a1, a2, pi, high, comp);
    SortedLeft(a0, a1, a2, low, pi, comp);
    JoinSides(a0, a2, low, pi, high, comp);
  }

  /** After the first recursive call, the part in front of the pivot. */
  lemma SortedLeft<T(!new)>(a0: seq<T>, a1: seq<T>, a2: seq<T>, low: int, pi: int, comp: (T, T) -> bool)
    requires 0 <= low <= pi < |a0| == |a1| == |a2|
    requires forall k :: low <= k < pi ==> comp(a0[k], a0[pi])
    requires low < pi - 1 ==> SortedBy(a1[low..pi], comp)
    requires low < pi - 1 ==> multiset(a1[low..pi]) == multiset(a0[low..pi])
    requires low < pi - 1 ==> a1[..low] == a0[..low] && a1[pi..] == a0[pi..]
    requires low >= pi - 1 ==> a1 == a0
    requires a2[..pi + 1] == a1[..pi + 1]
    ensures a2[pi] == a0[pi] && a2[..low] == a0[..low]
    ensures SortedBy(a2[low..pi], comp)
    ensures multiset(a2[low..pi]) == multiset(a0[low..pi])
    ensures forall k :: low <= k < pi ==> comp(a2[k], a0[pi])
  {
    assert a1[pi] == a0[pi] by {
      if low < pi - 1 {
        assert a1[pi..][0] == a0[pi..][0];
      }
    }
    assert a2[pi] == a1[pi] && a2[..low] == a1[..low] by {
      assert a2[..pi + 1][pi] == a1[..pi + 1][pi];
      assert a2[..pi + 1][..low] == a1[..pi + 1][..low];
    }
    assert a2[low..pi] == a1[low..pi] by {
      assert a2[..pi + 1][low..pi] == a1[..pi + 1][low..pi];
    }
    var pivot := a0[pi];
    var left0, left2 := a0[low..pi], a2[low..pi];
    assert forall k :: 0 <= k < |left0| ==> comp(left0[k], pivot);
    PermutationKeeps(left0, left2, x => comp(x, pivot));
    forall k | low <= k < pi ensures comp(a2[k], pivot) {
      assert left2[k - low] == a2[k];
    }
  }

  /** After the second recursive call, the part behind the pivot. */
  lemma SortedRight<T(!new)>(a0: seq<T>, a1: seq<T>, a2: seq<T>, pi: int, high: int, comp: (T, T) -> bool)
    requires 0 <= pi <= high < |a0| == |a1| == |a2|
    requires forall k :: pi < k <= high ==> !comp(a0[k], a0[pi])
    requires a1[pi..] == a0[pi..]
    requires pi + 1 < high ==> SortedBy(a2[pi + 1..high + 1], comp)
    requires pi + 1 < high ==> multiset(a2[pi + 1..high + 1]) == multiset(a1[pi + 1..high + 1])
    requires pi + 1 < high ==> a2[..pi + 1] == a1[..pi + 1] && a2[high + 1..] == a1[high + 1..]
    requires pi + 1 >= high ==> a2 == a1
    ensures a2[..pi + 1] == a1[..pi + 1] && a2[high + 1..] == a0[high + 1..]
    ensures SortedBy(a2[pi + 1..high + 1], comp)
    ensures multiset(a2[pi + 1..high + 1]) == multiset(a0[pi + 1..high + 1])
    ensures forall k :: pi < k <= high ==> !comp(a2[k], a0[pi])
  {
    assert a1[pi + 1..high + 1] == a0[pi + 1..high + 1] by {
      assert a1[pi..][1..high + 1 - pi] == a0[pi..][1..high + 1 - pi];
    }
    assert a1[high + 1..] == a0[high + 1..] by {
      assert a1[pi..][high + 1 - pi..] == a0[pi..][high + 1 - pi..];
    }
    var pivot := a0[pi];
    var right0, right2 := a0[pi + 1..high + 1], a2[pi + 1..high + 1];
    assert forall k :: 0 <= k < |right0| ==> !comp(right0[k], pivot);
    PermutationKeeps(right0, right2, x => !comp(x, pivot));
    forall k | pi < k <= high ensures !comp(a2[k], pivot) {
      assert right2[k - pi - 1] == a2[k];
    }
  }

  /** Both sides together: the whole range is sorted and a permutation. */
  lemma JoinSides<T(!new)>(a0: seq<T>, a2: seq<T>, low: int, pi: int, high: int, comp: (T, T) -> bool)
    requires StrictWeakOrder(comp) && 0 <= low <= pi <= high < |a0| == |a2|
    requires a2[pi] == a0[pi]
    requires SortedBy(a2[low..pi], comp) && SortedBy(a2[pi + 1..high + 1], comp)
    requires multiset(a2[low..pi]) == multiset(a0[low..pi])
    requires multiset(a2[pi + 1..high + 1]) == multiset(a0[pi + 1..high + 1])
    requires forall k :: low <= k < pi ==> comp(a2[k], a0[pi])
    requires forall k :: pi < k <= high ==> !comp(a2[k], a0[pi])
    ensures SortedBy(a2[low..high + 1], comp)
    ensures multiset(a2[low..high + 1]) == multiset(a0[low..high + 1])
  {
    var s := a2[low..high + 1];
    assert s[..pi - low] == a2[low..pi];
    assert s[pi - low + 1..] == a2[pi + 1..high + 1];
    forall k | 0 <= k < pi - low ensures comp(s[k], s[pi - low]) {
      assert s[k] == a2[low + k];
    }
    forall k | pi - low < k < |s| ensures !comp(s[k], s[pi - low]) {
      assert s[k] == a2[low + k];
    }
    JoinAroundPivot(s, pi - low, comp);
    assert a0[low..high + 1] == a0[low..pi] + [a0[pi]] + a0[pi + 1..high + 1];
    assert s == a2[low..pi] + [a2[pi]] + a2[pi + 1..high + 1];
  }

  /** The keys of `arr` never decrease. */
  ghost predicate KeysAscending<T>(arr: seq<T>, key: T -> int)
  {
    forall i, j :: 0 <= i < j < |arr| ==> key(arr[i]) <= key(arr[j])
  }

  /**
   * Binary search for `target` among the keys of `arr`. A non-negative
   * result always holds the key; when the keys ascend, -1 means that no
   * element has it.
   */
  method BinarySearchIndex<T>(arr: seq<T>, key: T -> int, target: int) returns (r: int)
    ensures -1 <= r < |arr|
    ensures r >= 0 ==> key(arr[r]) == target
    ensures KeysAscending(arr, key) && r == -1 ==> forall k :: 0 <= k < |arr| ==> key(arr[k]) != target
  {
    ghost var ascending := KeysAscending(arr, key);
    var l, h := 0, |arr| - 1;
    while l <= h
      invariant 0 <= l <= h + 1 <= |arr|
      invariant ascending ==> forall k :: 0 <= k < l ==> key(arr[k]) < target
      invariant ascending ==> forall k :: h < k < |arr| ==> key(arr[k]) > target
    {
      var m := (l + h) / 2;
      var k := key(arr[m]);
      if k == target {
        return m;
      } else if k < target {
        l := m + 1;
      } else {
        h := m - 1;
      }
    }
    return -1;
  }

  /**
   * `std::sort(v.begin(), v.end(), less)`: the whole array ends up sorted and
   * holds the same elements. The library's algorithm is not modelled; the
   * merge sort above stands in for it, since callers rely only on this
   * contract.
   */
  method SortArray<T(!new)>(a: array<T>, less: (T, T) -> bool)
    requires StrictWeakOrder(less)
    modifies a
    ensures SortedBy(a[..], less) && multiset(a[..]) == old(multiset(a[..]))
  {
    if a.Length > 1 {
      MergeSort(a, 0, a.Length - 1, less);
      assert a[..][0..a.Length] == a[..];
      assert old(a[..])[0..a.Length] == old(a[..]);
    }
  }
}
