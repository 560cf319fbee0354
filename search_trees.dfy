/**
 * Binary search trees and AVL trees over values ordered by an integer key.
 * Both insertions are specified by what they do to the in-order sequence:
 * `SeqInsert` places the new value into a key-ascending sequence. With
 * `dupRight` false an equal key replaces the stored value; with `dupRight`
 * true the new value goes after every value whose key is not greater.
 */
module SearchTrees {

  /** The in-order sequence ascends by key: strictly when equal keys replace. */
  ghost predicate Ascending<T>(s: seq<T>, key: T -> int, dupRight: bool)
  {
    forall i, j :: 0 <= i < j < |s| ==> key(s[i]) < key(s[j]) || (dupRight && key(s[i]) == key(s[j]))
  }

  /** Insertion of `v` into a key-ascending sequence. */
  function SeqInsert<T>(s: seq<T>, v: T, key: T -> int, dupRight: bool): seq<T>
  {
    if s == [] then [v]
    else if key(v) < key(s[0]) then [v] + s
    else if key(v) == key(s[0]) && !dupRight then [v] + s[1..]
    else [s[0]] + SeqInsert(s[1..], v, key, dupRight)
  }

  /** `x` may stand in front of every element of `s`. */
  ghost predicate Precedes<T>(x: T, s: seq<T>, key: T -> int, dupRight: bool)
  {
    forall k :: 0 <= k < |s| ==> key(x) < key(s[k]) || (dupRight && key(x) == key(s[k]))
  }

  lemma AscendingCons<T>(x: T, s: seq<T>, key: T -> int, dupRight: bool)
    requires Ascending(s, key, dupRight) && Precedes(x, s, key, dupRight)
    ensures Ascending([x] + s, key, dupRight)
  {
    var r := [x] + s;
    forall i, j | 0 <= i < j < |r| ensures key(r[i]) < key(r[j]) || (dupRight && key(r[i]) == key(r[j])) {
      assert r[j] == s[j - 1];
      if i > 0 {
        assert r[i] == s[i - 1];
      }
    }
  }

  lemma AscendingTail<T>(s: seq<T>, key: T -> int, dupRight: bool)
    requires s != [] && Ascending(s, key, dupRight)
    ensures Ascending(s[1..], key, dupRight) && Precedes(s[0], s[1..], key, dupRight)
  {
    assert forall k :: 0 <= k < |s[1..]| ==> s[1..][k] == s[k + 1];
  }

  lemma {:induction false} SeqInsertAscending<T>(s: seq<T>, v: T, key: T -> int, dupRight: bool)
    requires Ascending(s, key, dupRight)
    ensures Ascending(SeqInsert(s, v, key, dupRight), key, dupRight)
    ensures forall k :: 0 <= k < |SeqInsert(s, v, key, dupRight)| ==>
      SeqInsert(s, v, key, dupRight)[k] == v || SeqInsert(s, v, key, dupRight)[k] in s
  {
    if s == [] {
    } else if key(v) < key(s[0]) {
      AscendingTail(s, key, dupRight);
      assert Precedes(v, s, key, dupRight) by {
        forall k | 0 < k < |s| ensures key(v) < key(s[k]) {
          assert s[1..][k - 1] == s[k];
        }
      }
      AscendingCons(v, s, key, dupRight);
    } else if key(v) == key(s[0]) && !dupRight {
      AscendingTail(s, key, dupRight);
      AscendingCons(v, s[1..], key, dupRight);
      forall k | 0 <= k < |s[1..]| ensures s[1..][k] in s {
        assert s[1..][k] == s[k + 1];
      }
    } else {
      AscendingTail(s, key, dupRight);
      var rest := SeqInsert(s[1..], v, key, dupRight);
      SeqInsertAscending(s[1..], v, key, dupRight);
      assert Precedes(s[0], rest, key, dupRight) by {
        forall k | 0 <= k < |rest| ensures key(s[0]) < key(rest[k]) || (dupRight && key(s[0]) == key(rest[k])) {
          if rest[k] != v {
            var m :| 0 <= m < |s[1..]| && s[1..][m] == rest[k];
          }
        }
      }
      AscendingCons(s[0], rest, key, dupRight);
      var r := [s[0]] + rest;
      forall k | 0 < k < |r| ensures r[k] == v || r[k] in s {
        assert r[k] == rest[k - 1];
        if rest[k - 1] != v {
          assert rest[k - 1] in s[1..];
        }
      }
    }
  }

  /** A value with a new key, or any value when equal keys go right, is added once. */
  lemma {:induction false} SeqInsertAdds<T>(s: seq<T>, v: T, key: T -> int, dupRight: bool)
    requires dupRight || forall k :: 0 <= k < |s| ==> key(s[k]) != key(v)
    ensures multiset(SeqInsert(s, v, key, dupRight)) == multiset(s) + multiset{v}
  {
    if s != [] && !(key(v) < key(s[0])) {
      assert !(key(v) == key(s[0]) && !dupRight);
      assert dupRight || forall k :: 0 <= k < |s[1..]| ==> key(s[1..][k]) != key(v) by {
        if !dupRight {
          forall k | 0 <= k < |s[1..]| ensures key(s[1..][k]) != key(v) {
            assert s[1..][k] == s[k + 1];
          }
        }
      }
      SeqInsertAdds(s[1..], v, key, dupRight);
      assert s == [s[0]] + s[1..];
    }
  }

  /** When equal keys replace, an existing key has its value replaced in place. */
  lemma {:induction false} SeqInsertReplaces<T>(s: seq<T>, v: T, key: T -> int, k: int)
    requires Ascending(s, key, false) && 0 <= k < |s| && key(s[k]) == key(v)
    ensures SeqInsert(s, v, key, false) == s[k := v]
  {
    if k > 0 {
      assert key(s[0]) < key(s[k]);
      assert Ascending(s[1..], key, false) by {
        forall i, j | 0 <= i < j < |s[1..]| ensures key(s[1..][i]) < key(s[1..][j]) {
          assert s[1..][i] == s[i + 1] && s[1..][j] == s[j + 1];
        }
      }
      assert s[1..][k - 1] == s[k];
      SeqInsertReplaces(s[1..], v, key, k - 1);
      assert s[k := v] == [s[0]] + s[1..][k - 1 := v];
    }
  }

  /** Inserting in front of a larger first element of `b` only touches `a`. */
  lemma {:induction false} SeqInsertFront<T>(a: seq<T>, b: seq<T>, v: T, key: T -> int, dupRight: bool)
    requires b != [] && key(v) < key(b[0])
    ensures SeqInsert(a + b, v, key, dupRight) == SeqInsert(a, v, key, dupRight) + b
  {
    if a != [] {
      assert (a + b)[0] == a[0] && (a + b)[1..] == a[1..] + b;
      SeqInsertFront(a[1..], b, v, key, dupRight);
    }
  }

  /** Values that `v` goes behind are passed over unchanged. */
  lemma {:induction false} SeqInsertSkip<T>(a: seq<T>, b: seq<T>, v: T, key: T -> int, dupRight: bool)
    requires forall k :: 0 <= k < |a| ==> key(a[k]) < key(v) || (dupRight && key(a[k]) == key(v))
    ensures SeqInsert(a + b, v, key, dupRight) == a + SeqInsert(b, v, key, dupRight)
  {
    if a != [] {
      assert (a + b)[0] == a[0] && (a + b)[1..] == a[1..] + b;
      assert key(a[0]) < key(v) || (dupRight && key(a[0]) == key(v));
      assert forall k :: 0 <= k < |a[1..]| ==> a[1..][k] == a[k + 1];
      SeqInsertSkip(a[1..], b, v, key, dupRight);
      assert a + b != [];
      assert SeqInsert(a + b, v, key, dupRight) == [a[0]] + SeqInsert(a[1..] + b, v, key, dupRight);
      assert a == [a[0]] + a[1..];
      assert [a[0]] + (a[1..] + SeqInsert(b, v, key, dupRight)) == a + SeqInsert(b, v, key, dupRight);
    } else {
      assert a + b == b;
    }
  }

  /** Splitting an ascending sequence around one element. */
  lemma AscendingSplit<T>(l: seq<T>, x: T, r: seq<T>, key: T -> int, dupRight: bool)
    requires Ascending(l + [x] + r, key, dupRight)
    ensures Ascending(l, key, dupRight) && Ascending(r, key, dupRight)
    ensures forall k :: 0 <= k < |l| ==> key(l[k]) < key(x) || (dupRight && key(l[k]) == key(x))
    ensures forall k :: 0 <= k < |r| ==> key(x) < key(r[k]) || (dupRight && key(x) == key(r[k]))
  {
    var s := l + [x] + r;
    assert forall k :: 0 <= k < |l| ==> s[k] == l[k];
    assert forall k :: 0 <= k < |r| ==> s[|l| + 1 + k] == r[k];
    assert s[|l|] == x;
  }

  // ---------------------------------------------------------------
  // Plain binary search tree (equal keys replace the stored value)
  // ---------------------------------------------------------------

  datatype Bst<T> = Leaf | Branch(left: Bst<T>, val: T, right: Bst<T>)

  function BstInOrder<T>(t: Bst<T>): seq<T>
  {
    match t
    case Leaf => []
    case Branch(l, x, r) => BstInOrder(l) + [x] + BstInOrder(r)
  }

  /** Descends by key and replaces the value stored under an equal key. */
  function BstInsert<T>(t: Bst<T>, v: T, key: T -> int): Bst<T>
  {
    match t
    case Leaf => Branch(Leaf, v, Leaf)
    case Branch(l, x, r) =>
      if key(v) < key(x) then Branch(BstInsert(l, v, key), x, r)
      else if key(v) > key(x) then Branch(l, x, BstInsert(r, v, key))
      else Branch(l, v, r)
  }

  lemma BstInsertLeft<T>(t: Bst<T>, v: T, key: T -> int)
    requires t.Branch? && key(v) < key(t.val)
    requires BstInOrder(BstInsert(t.left, v, key)) == SeqInsert(BstInOrder(t.left), v, key, false)
    ensures BstInOrder(BstInsert(t, v, key)) == SeqInsert(BstInOrder(t), v, key, false)
  {
    var L, x, R := BstInOrder(t.left), t.val, BstInOrder(t.right);
    assert BstInOrder(t) == L + ([x] + R);
    SeqInsertFront(L, [x] + R, v, key, false);
    assert BstInOrder(BstInsert(t, v, key)) == SeqInsert(L, v, key, false) + ([x] + R);
  }

  lemma BstInsertRight<T>(t: Bst<T>, v: T, key: T -> int)
    requires t.Branch? && key(v) > key(t.val)
    requires forall k :: 0 <= k < |BstInOrder(t.left)| ==> key(BstInOrder(t.left)[k]) < key(t.val)
    requires BstInOrder(BstInsert(t.right, v, key)) == SeqInsert(BstInOrder(t.right), v, key, false)
    ensures BstInOrder(BstInsert(t, v, key)) == SeqInsert(BstInOrder(t), v, key, false)
  {
    var L, x, R := BstInOrder(t.left), t.val, BstInOrder(t.right);
    var a := L + [x];
    assert forall k :: 0 <= k < |a| ==> key(a[k]) < key(v) by {
      forall k | 0 <= k < |a| ensures key(a[k]) < key(v) {
        if k < |L| {
          assert a[k] == L[k];
        }
      }
    }
    SeqInsertSkip(a, R, v, key, false);
    assert BstInOrder(t) == a + R;
  }

  lemma BstInsertHere<T>(t: Bst<T>, v: T, key: T -> int)
    requires t.Branch? && key(v) == key(t.val)
    requires forall k :: 0 <= k < |BstInOrder(t.left)| ==> key(BstInOrder(t.left)[k]) < key(t.val)
    ensures BstInOrder(BstInsert(t, v, key)) == SeqInsert(BstInOrder(t), v, key, false)
  {
    var L, x, R := BstInOrder(t.left), t.val, BstInOrder(t.right);
    SeqInsertSkip(L, [x] + R, v, key, false);
    assert SeqInsert([x] + R, v, key, false) == [v] + R;
    assert BstInOrder(t) == L + ([x] + R);
  }

  lemma {:induction false} BstInsertInOrder<T>(t: Bst<T>, v: T, key: T -> int)
    requires Ascending(BstInOrder(t), key, false)
    ensures BstInOrder(BstInsert(t, v, key)) == SeqInsert(BstInOrder(t), v, key, false)
  {
    if t.Branch? {
      AscendingSplit(BstInOrder(t.left), t.val, BstInOrder(t.right), key, false);
      if key(v) < key(t.val) {
        BstInsertInOrder(t.left, v, key);
        BstInsertLeft(t, v, key);
      } else if key(v) > key(t.val) {
        BstInsertInOrder(t.right, v, key);
        BstInsertRight(t, v, key);
      } else {
        BstInsertHere(t, v, key);
      }
    }
  }

  // ---------------------------------------------------------------
  // AVL tree
  // ---------------------------------------------------------------

  datatype Avl<T> = Nil | Node(left: Avl<T>, val: T, right: Avl<T>, height: int)

  function InOrder<T>(t: Avl<T>): seq<T>
  {
    match t
    case Nil => []
    case Node(l, x, r, _) => InOrder(l) + [x] + InOrder(r)
  }

  /** The cached height, 0 for the empty tree. */
  function Height<T>(t: Avl<T>): int
  {
    if t.Nil? then 0 else t.height
  }

  function BalanceOf<T>(t: Avl<T>): int
  {
    if t.Nil? then 0 else Height(t.left) - Height(t.right)
  }

  function Max(a: int, b: int): int
  {
    if a < b then b else a
  }

  /** A node whose height is recomputed from its children. */
  function Join<T>(l: Avl<T>, x: T, r: Avl<T>): Avl<T>
  {
    Node(l, x, r, 1 + Max(Height(l), Height(r)))
  }

  /** Every cached height is one more than the larger child height. */
  ghost predicate HeightsOk<T>(t: Avl<T>)
  {
    t.Nil? || (HeightsOk(t.left) && HeightsOk(t.right) && t.height == 1 + Max(Height(t.left), Height(t.right)))
  }

  /** Every balance factor lies in [-1, 1]. */
  ghost predicate Balanced<T>(t: Avl<T>)
  {
    t.Nil? || (Balanced(t.left) && Balanced(t.right) && -1 <= BalanceOf(t) <= 1)
  }

  ghost predicate IsAvl<T>(t: Avl<T>)
  {
    HeightsOk(t) && Balanced(t)
  }

  lemma {:induction false} HeightNonNegative<T>(t: Avl<T>)
    requires HeightsOk(t)
    ensures Height(t) >= 0 && (t.Node? ==> Height(t) >= 1)
  {
    if t.Node? {
      HeightNonNegative(t.left);
      HeightNonNegative(t.right);
    }
  }

  function RotateRight<T>(y: Avl<T>): Avl<T>
    requires y.Node? && y.left.Node?
  {
    Join(y.left.left, y.left.val, Join(y.left.right, y.val, y.right))
  }

  function RotateLeft<T>(x: Avl<T>): Avl<T>
    requires x.Node? && x.right.Node?
  {
    Join(Join(x.left, x.val, x.right.left), x.right.val, x.right.right)
  }

  predicate GoesLeft<T>(v: T, at: T, key: T -> int)
  {
    key(v) < key(at)
  }

  predicate GoesRight<T>(v: T, at: T, key: T -> int, dupRight: bool)
  {
    key(v) > key(at) || (dupRight && key(v) == key(at))
  }

  /** The four rotation cases, chosen by the side the new value `v` went. */
  function Rebalance<T>(n: Avl<T>, v: T, key: T -> int, dupRight: bool): Avl<T>
    requires RebalanceDefined(n, v, key, dupRight)
  {
    var b := BalanceOf(n);
    if b > 1 && GoesLeft(v, n.left.val, key) then RotateRight(n)
    else if b < -1 && GoesRight(v, n.right.val, key, dupRight) then RotateLeft(n)
    else if b > 1 && GoesRight(v, n.left.val, key, dupRight) then
      RotateRight(Node(RotateLeft(n.left), n.val, n.right, n.height))
    else if b < -1 && GoesLeft(v, n.right.val, key) then
      RotateLeft(Node(n.left, n.val, RotateRight(n.right), n.height))
    else n
  }

  /** A node over two AVL trees of heights differing by at most one. */
  lemma JoinAvl<T>(l: Avl<T>, x: T, r: Avl<T>)
    requires IsAvl(l) && IsAvl(r) && -1 <= Height(l) - Height(r) <= 1
    ensures IsAvl(Join(l, x, r)) && Height(Join(l, x, r)) == 1 + Max(Height(l), Height(r))
  {
  }

  lemma ChildrenAvl<T>(t: Avl<T>)
    requires t.Node? && IsAvl(t)
    ensures IsAvl(t.left) && IsAvl(t.right) && -1 <= Height(t.left) - Height(t.right) <= 1
    ensures Height(t) == 1 + Max(Height(t.left), Height(t.right))
  {
  }

  lemma SingleRight<T>(n: Avl<T>)
    requires n.Node? && n.left.Node? && IsAvl(n.left) && IsAvl(n.right)
    requires Height(n.left) == Height(n.right) + 2 && BalanceOf(n.left) == 1
    ensures IsAvl(RotateRight(n)) && Height(RotateRight(n)) == Height(n.right) + 2
  {
    ChildrenAvl(n.left);
    JoinAvl(n.left.right, n.val, n.right);
    JoinAvl(n.left.left, n.left.val, Join(n.left.right, n.val, n.right));
  }

  lemma SingleLeft<T>(n: Avl<T>)
    requires n.Node? && n.right.Node? && IsAvl(n.left) && IsAvl(n.right)
    requires Height(n.right) == Height(n.left) + 2 && BalanceOf(n.right) == -1
    ensures IsAvl(RotateLeft(n)) && Height(RotateLeft(n)) == Height(n.left) + 2
  {
    ChildrenAvl(n.right);
    JoinAvl(n.left, n.val, n.right.left);
    JoinAvl(Join(n.left, n.val, n.right.left), n.right.val, n.right.right);
  }

  lemma DoubleLeftRight<T>(n: Avl<T>)
    requires n.Node? && n.left.Node? && IsAvl(n.left) && IsAvl(n.right)
    requires Height(n.left) == Height(n.right) + 2 && BalanceOf(n.left) == -1
    ensures n.left.right.Node?
    ensures IsAvl(RotateRight(Node(RotateLeft(n.left), n.val, n.right, n.height)))
    ensures Height(RotateRight(Node(RotateLeft(n.left), n.val, n.right, n.height))) == Height(n.right) + 2
  {
    var L := n.left;
    ChildrenAvl(L);
    HeightNonNegative(L.left);
    var M := L.right;
    ChildrenAvl(M);
    var P := Join(L.left, L.val, M.left);
    var Q := Join(M.right, n.val, n.right);
    JoinAvl(L.left, L.val, M.left);
    JoinAvl(M.right, n.val, n.right);
    JoinAvl(P, M.val, Q);
    assert RotateLeft(L) == Join(P, M.val, M.right);
    assert RotateRight(Node(RotateLeft(L), n.val, n.right, n.height)) == Join(P, M.val, Q);
  }

  lemma DoubleRightLeft<T>(n: Avl<T>)
    requires n.Node? && n.right.Node? && IsAvl(n.left) && IsAvl(n.right)
    requires Height(n.right) == Height(n.left) + 2 && BalanceOf(n.right) == 1
    ensures n.right.left.Node?
    ensures IsAvl(RotateLeft(Node(n.left, n.val, RotateRight(n.right), n.height)))
    ensures Height(RotateLeft(Node(n.left, n.val, RotateRight(n.right), n.height))) == Height(n.left) + 2
  {
    var R := n.right;
    ChildrenAvl(R);
    HeightNonNegative(R.right);
    var M := R.left;
    ChildrenAvl(M);
    var P := Join(n.left, n.val, M.left);
    var Q := Join(M.right, R.val, R.right);
    JoinAvl(n.left, n.val, M.left);
    JoinAvl(M.right, R.val, R.right);
    JoinAvl(P, M.val, Q);
    assert RotateRight(R) == Join(M.left, M.val, Q);
    assert RotateLeft(Node(n.left, n.val, RotateRight(R), n.height)) == Join(P, M.val, Q);
  }

  /** Everything a recursive insertion promises its caller. */
  ghost predicate Inserted<T>(t: Avl<T>, v: T, key: T -> int, dupRight: bool, r: Avl<T>)
  {
    && r.Node? && IsAvl(r)
    && Height(t) <= Height(r) <= Height(t) + 1
    && (t.Node? && Height(r) == Height(t) + 1 ==>
          (GoesLeft(v, r.val, key) && BalanceOf(r) == 1) || (GoesRight(v, r.val, key, dupRight) && BalanceOf(r) == -1))
  }

  /** The rotations may be applied where `v` went left. */
  ghost predicate RebalanceDefined<T>(n: Avl<T>, v: T, key: T -> int, dupRight: bool)
  {
    && n.Node?
    && (BalanceOf(n) > 1 ==> n.left.Node? && (GoesRight(v, n.left.val, key, dupRight) ==> n.left.right.Node?))
    && (BalanceOf(n) < -1 ==> n.right.Node? && (GoesLeft(v, n.right.val, key) ==> n.right.left.Node?))
  }

  /** Rebalancing after inserting into the left subtree. */
  lemma LeftCase<T>(t: Avl<T>, v: T, key: T -> int, dupRight: bool, l: Avl<T>)
    requires t.Node? && IsAvl(t) && GoesLeft(v, t.val, key) && Inserted(t.left, v, key, dupRight, l)
    ensures RebalanceDefined(Join(l, t.val, t.right), v, key, dupRight)
    ensures Inserted(t, v, key, dupRight, Rebalance(Join(l, t.val, t.right), v, key, dupRight))
  {
    ChildrenAvl(t);
    HeightNonNegative(t.left);
    HeightNonNegative(t.right);
    var n := Join(l, t.val, t.right);
    if BalanceOf(n) > 1 {
      assert t.left.Node?;
      if GoesLeft(v, l.val, key) {
        SingleRight(n);
      } else {
        DoubleLeftRight(n);
      }
    } else {
      JoinAvl(l, t.val, t.right);
    }
  }

  /** Rebalancing after inserting into the right subtree. */
  lemma RightCase<T>(t: Avl<T>, v: T, key: T -> int, dupRight: bool, r: Avl<T>)
    requires t.Node? && IsAvl(t) && !GoesLeft(v, t.val, key) && GoesRight(v, t.val, key, dupRight)
    requires Inserted(t.right, v, key, dupRight, r)
    ensures RebalanceDefined(Join(t.left, t.val, r), v, key, dupRight)
    ensures Inserted(t, v, key, dupRight, Rebalance(Join(t.left, t.val, r), v, key, dupRight))
  {
    ChildrenAvl(t);
    HeightNonNegative(t.left);
    HeightNonNegative(t.right);
    var n := Join(t.left, t.val, r);
    if BalanceOf(n) < -1 {
      assert t.right.Node?;
      if GoesRight(v, r.val, key, dupRight) {
        SingleLeft(n);
      } else {
        DoubleRightLeft(n);
      }
    } else {
      JoinAvl(t.left, t.val, r);
    }
  }

  /**
   * AVL insertion. The result is again an AVL tree, one level taller at
   * most; when it did grow, its root leans towards the side the new value
   * went, which is what makes the parent's rotation choice correct.
   */
  function Insert<T>(t: Avl<T>, v: T, key: T -> int, dupRight: bool): (r: Avl<T>)
    requires IsAvl(t)
    ensures r.Node? && IsAvl(r)
    ensures Height(t) <= Height(r) <= Height(t) + 1
    ensures t.Node? && Height(r) == Height(t) + 1 ==>
      (GoesLeft(v, r.val, key) && BalanceOf(r) == 1) || (GoesRight(v, r.val, key, dupRight) && BalanceOf(r) == -1)
    decreases t
  {
    if t.Nil? then Node(Nil, v, Nil, 1)
    else if GoesLeft(v, t.val, key) then
      var l := Insert(t.left, v, key, dupRight);
      LeftCase(t, v, key, dupRight, l);
      Rebalance(Join(l, t.val, t.right), v, key, dupRight)
    else if GoesRight(v, t.val, key, dupRight) then
      var r := Insert(t.right, v, key, dupRight);
      RightCase(t, v, key, dupRight, r);
      Rebalance(Join(t.left, t.val, r), v, key, dupRight)
    else Node(t.left, v, t.right, t.height)
  }

  /** The in-order sequence of a rotated pair of nodes does not depend on which is on top. */
  lemma RegroupInOrder<T>(A: seq<T>, x: T, B: seq<T>, y: T, C: seq<T>)
    ensures (A + [x] + B) + [y] + C == A + [x] + (B + [y] + C)
  {
  }

  lemma RotateRightKeepsInOrder<T>(n: Avl<T>)
    requires n.Node? && n.left.Node?
    ensures InOrder(RotateRight(n)) == InOrder(n)
  {
    RegroupInOrder(InOrder(n.left.left), n.left.val, InOrder(n.left.right), n.val, InOrder(n.right));
  }

  lemma RotateLeftKeepsInOrder<T>(n: Avl<T>)
    requires n.Node? && n.right.Node?
    ensures InOrder(RotateLeft(n)) == InOrder(n)
  {
    RegroupInOrder(InOrder(n.left), n.val, InOrder(n.right.left), n.right.val, InOrder(n.right.right));
  }

  lemma RebalanceKeepsInOrder<T>(n: Avl<T>, v: T, key: T -> int, dupRight: bool)
    requires RebalanceDefined(n, v, key, dupRight)
    ensures InOrder(Rebalance(n, v, key, dupRight)) == InOrder(n)
  {
    var b := BalanceOf(n);
    if b > 1 && GoesLeft(v, n.left.val, key) {
      RotateRightKeepsInOrder(n);
    } else if b < -1 && GoesRight(v, n.right.val, key, dupRight) {
      RotateLeftKeepsInOrder(n);
    } else if b > 1 && GoesRight(v, n.left.val, key, dupRight) {
      RotateLeftKeepsInOrder(n.left);
      RotateRightKeepsInOrder(Node(RotateLeft(n.left), n.val, n.right, n.height));
    } else if b < -1 && GoesLeft(v, n.right.val, key) {
      RotateRightKeepsInOrder(n.right);
      RotateLeftKeepsInOrder(Node(n.left, n.val, RotateRight(n.right), n.height));
    }
  }

  /** AVL insertion puts the value where `SeqInsert` does: rotations do not reorder. */
  lemma {:induction false} InsertInOrder<T>(t: Avl<T>, v: T, key: T -> int, dupRight: bool)
    requires IsAvl(t) && Ascending(InOrder(t), key, dupRight)
    ensures InOrder(Insert(t, v, key, dupRight)) == SeqInsert(InOrder(t), v, key, dupRight)
  {
    if t.Node? {
      AscendingSplit(InOrder(t.left), t.val, InOrder(t.right), key, dupRight);
      ChildrenAvl(t);
      if GoesLeft(v, t.val, key) {
        InsertInOrder(t.left, v, key, dupRight);
        LeftInOrder(t, v, key, dupRight);
      } else if GoesRight(v, t.val, key, dupRight) {
        InsertInOrder(t.right, v, key, dupRight);
        RightInOrder(t, v, key, dupRight);
      } else {
        var L, R := InOrder(t.left), InOrder(t.right);
        assert InOrder(t) == L + ([t.val] + R);
        SeqInsertSkip(L, [t.val] + R, v, key, dupRight);
      }
    }
  }

  /** Inserting in front of `x` only touches the part left of it. */
  lemma InsertBefore<T>(L: seq<T>, x: T, R: seq<T>, v: T, key: T -> int, dupRight: bool)
    requires key(v) < key(x)
    ensures SeqInsert(L + [x] + R, v, key, dupRight) == SeqInsert(L, v, key, dupRight) + [x] + R
  {
    SeqInsertFront(L, [x] + R, v, key, dupRight);
    assert L + [x] + R == L + ([x] + R);
  }

  lemma LeftInOrder<T>(t: Avl<T>, v: T, key: T -> int, dupRight: bool)
    requires t.Node? && IsAvl(t) && GoesLeft(v, t.val, key) && IsAvl(t.left)
    requires InOrder(Insert(t.left, v, key, dupRight)) == SeqInsert(InOrder(t.left), v, key, dupRight)
    ensures InOrder(Insert(t, v, key, dupRight)) == SeqInsert(InOrder(t), v, key, dupRight)
  {
    var l := Insert(t.left, v, key, dupRight);
    var n := Join(l, t.val, t.right);
    LeftCase(t, v, key, dupRight, l);
    assert Insert(t, v, key, dupRight) == Rebalance(n, v, key, dupRight);
    RebalanceKeepsInOrder(n, v, key, dupRight);
    InsertBefore(InOrder(t.left), t.val, InOrder(t.right), v, key, dupRight);
  }

  lemma RightInOrder<T>(t: Avl<T>, v: T, key: T -> int, dupRight: bool)
    requires t.Node? && IsAvl(t) && !GoesLeft(v, t.val, key) && GoesRight(v, t.val, key, dupRight) && IsAvl(t.right)
    requires forall k :: 0 <= k < |InOrder(t.left)| ==>
      key(InOrder(t.left)[k]) < key(t.val) || (dupRight && key(InOrder(t.left)[k]) == key(t.val))
    requires InOrder(Insert(t.right, v, key, dupRight)) == SeqInsert(InOrder(t.right), v, key, dupRight)
    ensures InOrder(Insert(t, v, key, dupRight)) == SeqInsert(InOrder(t), v, key, dupRight)
  {
    var L, R := InOrder(t.left), InOrder(t.right);
    var r := Insert(t.right, v, key, dupRight);
    RightCase(t, v, key, dupRight, r);
    assert Insert(t, v, key, dupRight) == Rebalance(Join(t.left, t.val, r), v, key, dupRight);
    RebalanceKeepsInOrder(Join(t.left, t.val, r), v, key, dupRight);
    SeqInsertSkip(L + [t.val], R, v, key, dupRight);
  }
}
