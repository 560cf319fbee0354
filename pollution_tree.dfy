/**
 * The pollution AVL tree of the city resource planner (acase9.cpp):
 * `insertAVL` over int keys, where a key that is not smaller than a node's
 * goes right, followed by the four rotation tests of the textbook
 * algorithm. Those tests compare the new key strictly with the child's
 * key, so an equal key takes none of them; `InsertAsWritten` is the code
 * as it stands and `AddPollution` the insertion the tests were meant to
 * perform, where an equal key counts as having gone right.
 *
 * The linked tree is `SearchTrees.Avl`; `rightRotate` and `leftRotate`
 * are `SearchTrees.RotateRight` and `SearchTrees.RotateLeft`.
 */
module PollutionTree {
  import opened Wrappers
  import opened SearchTrees

  function Id(x: int): int
  {
    x
  }

  /**
   * The rotation tests of `insertAVL`, in their order; None where the code
   * would read through a null child link.
   */
  function RebalanceAsWritten(n: Avl<int>, key: int): Option<Avl<int>>
    requires n.Node?
  {
    var b := BalanceOf(n);
    if b > 1 && n.left.Nil? then None
    else if b > 1 && key < n.left.val then Some(RotateRight(n))
    else if b < -1 && n.right.Nil? then None
    else if b < -1 && key > n.right.val then Some(RotateLeft(n))
    else if b > 1 && key > n.left.val then
      if n.left.right.Nil? then None
      else Some(RotateRight(Node(RotateLeft(n.left), n.val, n.right, n.height)))
    else if b < -1 && key < n.right.val then
      if n.right.left.Nil? then None
      else Some(RotateLeft(Node(n.left, n.val, RotateRight(n.right), n.height)))
    else Some(n)
  }

  /** `insertAVL(node, key)` as written; None where it dereferences null. */
  function InsertAsWritten(t: Avl<int>, key: int): Option<Avl<int>>
    decreases t
  {
    if t.Nil? then Some(Node(Nil, key, Nil, 1))
    else if key < t.val then
      match InsertAsWritten(t.left, key)
      case None => None
      case Some(l) => RebalanceAsWritten(Join(l, t.val, t.right), key)
    else
      match InsertAsWritten(t.right, key)
      case None => None
      case Some(r) => RebalanceAsWritten(Join(t.left, t.val, r), key)
  }

  /** Inserting `keys` one after another into an empty tree, stopping at the first failure. */
  function BuildAsWritten(keys: seq<int>): Option<Avl<int>>
    decreases |keys|
  {
    if keys == [] then Some(Nil)
    else
      match BuildAsWritten(keys[..|keys| - 1])
      case None => None
      case Some(t) => InsertAsWritten(t, keys[|keys| - 1])
  }

  lemma RebalanceAsWrittenHeights(n: Avl<int>, key: int)
    requires n.Node? && HeightsOk(n)
    ensures RebalanceAsWritten(n, key).Some? ==> HeightsOk(RebalanceAsWritten(n, key).value)
  {
    var b := BalanceOf(n);
    if n.left.Node? && n.left.right.Node? {
      assert HeightsOk(n.left.right);
      assert HeightsOk(RotateLeft(n.left));
    }
    if n.right.Node? && n.right.left.Node? {
      assert HeightsOk(n.right.left);
      assert HeightsOk(RotateRight(n.right));
    }
  }

  /** Every height the code stores is one more than the taller child's, rotations or not. */
  lemma {:induction false} InsertAsWrittenHeights(t: Avl<int>, key: int)
    requires HeightsOk(t)
    ensures InsertAsWritten(t, key).Some? ==> HeightsOk(InsertAsWritten(t, key).value)
  {
    if t.Node? {
      if key < t.val {
        InsertAsWrittenHeights(t.left, key);
        if InsertAsWritten(t.left, key).Some? {
          RebalanceAsWrittenHeights(Join(InsertAsWritten(t.left, key).value, t.val, t.right), key);
        }
      } else {
        InsertAsWrittenHeights(t.right, key);
        if InsertAsWritten(t.right, key).Some? {
          RebalanceAsWrittenHeights(Join(t.left, t.val, InsertAsWritten(t.right, key).value), key);
        }
      }
    }
  }

  lemma RebalanceAsWrittenInOrder(n: Avl<int>, key: int)
    requires n.Node?
    ensures RebalanceAsWritten(n, key).Some? ==> InOrder(RebalanceAsWritten(n, key).value) == InOrder(n)
  {
    var b := BalanceOf(n);
    if b > 1 && n.left.Node? && key < n.left.val {
      RotateRightKeepsInOrder(n);
    } else if b < -1 && n.right.Node? && key > n.right.val && !(b > 1) {
      RotateLeftKeepsInOrder(n);
    } else if b > 1 && n.left.Node? && key > n.left.val && n.left.right.Node? {
      RotateLeftKeepsInOrder(n.left);
      RotateRightKeepsInOrder(Node(RotateLeft(n.left), n.val, n.right, n.height));
    } else if b < -1 && n.right.Node? && key < n.right.val && n.right.left.Node? {
      RotateRightKeepsInOrder(n.right);
      RotateLeftKeepsInOrder(Node(n.left, n.val, RotateRight(n.right), n.height));
    }
  }

  /**
   * Where the code does not crash, the key lands in the in-order sequence
   * after every key not greater than it: the sequence stays non-decreasing
   * and gains exactly one copy of the key.
   */
  lemma {:induction false} InsertAsWrittenInOrder(t: Avl<int>, key: int)
    requires Ascending(InOrder(t), Id, true)
    ensures InsertAsWritten(t, key).Some? ==>
      InOrder(InsertAsWritten(t, key).value) == SeqInsert(InOrder(t), key, Id, true)
  {
    if t.Node? {
      AscendingSplit(InOrder(t.left), t.val, InOrder(t.right), Id, true);
      assert forall k :: 0 <= k < |InOrder(t.left)| ==> InOrder(t.left)[k] <= t.val;
      if key < t.val {
        InsertAsWrittenInOrder(t.left, key);
        if InsertAsWritten(t.left, key).Some? {
          LeftInsertInOrder(t, key, InsertAsWritten(t.left, key).value);
        }
      } else {
        InsertAsWrittenInOrder(t.right, key);
        if InsertAsWritten(t.right, key).Some? {
          RightInsertInOrder(t, key, InsertAsWritten(t.right, key).value);
        }
      }
    }
  }

  /** The key went left: it lands before the node and everything right of it. */
  lemma LeftInsertInOrder(t: Avl<int>, key: int, l: Avl<int>)
    requires t.Node? && key < t.val
    requires InOrder(l) == SeqInsert(InOrder(t.left), key, Id, true)
    ensures RebalanceAsWritten(Join(l, t.val, t.right), key).Some? ==>
      InOrder(RebalanceAsWritten(Join(l, t.val, t.right), key).value) == SeqInsert(InOrder(t), key, Id, true)
  {
    var L, x, R := InOrder(t.left), t.val, InOrder(t.right);
    assert InOrder(t) == L + ([x] + R);
    RebalanceAsWrittenInOrder(Join(l, x, t.right), key);
    SeqInsertFront(L, [x] + R, key, Id, true);
    assert InOrder(Join(l, x, t.right)) == InOrder(l) + ([x] + R);
  }

  /** The key went right: it lands after the node and everything left of it. */
  lemma RightInsertInOrder(t: Avl<int>, key: int, r: Avl<int>)
    requires t.Node? && key >= t.val
    requires forall k :: 0 <= k < |InOrder(t.left)| ==> InOrder(t.left)[k] <= t.val
    requires InOrder(r) == SeqInsert(InOrder(t.right), key, Id, true)
    ensures RebalanceAsWritten(Join(t.left, t.val, r), key).Some? ==>
      InOrder(RebalanceAsWritten(Join(t.left, t.val, r), key).value) == SeqInsert(InOrder(t), key, Id, true)
  {
    var L, x, R := InOrder(t.left), t.val, InOrder(t.right);
    var a := L + [x];
    assert forall k :: 0 <= k < |a| ==> Id(a[k]) < Id(key) || Id(a[k]) == Id(key) by {
      forall k | 0 <= k < |a| ensures a[k] <= key {
        if k < |L| {
          assert a[k] == L[k];
        }
      }
    }
    assert InOrder(t) == a + R;
    RebalanceAsWrittenInOrder(Join(t.left, x, r), key);
    SeqInsertSkip(a, R, key, Id, true);
  }

  /** Consequences for the keys: sorted in order, one more copy of `key`. */
  lemma InsertAsWrittenKeys(t: Avl<int>, key: int)
    requires Ascending(InOrder(t), Id, true) && InsertAsWritten(t, key).Some?
    ensures Ascending(InOrder(InsertAsWritten(t, key).value), Id, true)
    ensures multiset(InOrder(InsertAsWritten(t, key).value)) == multiset(InOrder(t)) + multiset{key}
  {
    InsertAsWrittenInOrder(t, key);
    SeqInsertAscending(InOrder(t), key, Id, true);
    SeqInsertAdds(InOrder(t), key, Id, true);
  }

  /** Every key left of a node is smaller than it, every key right of it at least as large. */
  ghost predicate SplitByKey(t: Avl<int>)
  {
    t.Nil? ||
    (&& SplitByKey(t.left) && SplitByKey(t.right)
     && (forall k :: 0 <= k < |InOrder(t.left)| ==> InOrder(t.left)[k] < t.val)
     && (forall k :: 0 <= k < |InOrder(t.right)| ==> InOrder(t.right)[k] >= t.val))
  }

  /** Three equal keys: no rotation test fires, and the tree is a chain of height 3. */
  lemma EqualKeysUnbalance()
    ensures BuildAsWritten([5, 5, 5]).Some?
    ensures var t := BuildAsWritten([5, 5, 5]).value; HeightsOk(t) && Height(t) == 3 && !Balanced(t)
  {
    var a := Node(Nil, 5, Nil, 1);
    var b := Node(Nil, 5, a, 2);
    assert [5, 5, 5][..2] == [5, 5] && [5, 5][..1] == [5] && [5][..0] == [];
    assert BuildAsWritten([5]) == Some(a);
    assert BuildAsWritten([5, 5]) == Some(b);
    assert InsertAsWritten(a, 5) == Some(b);
    assert BuildAsWritten([5, 5, 5]) == Some(Node(Nil, 5, b, 3));
  }

  /**
   * Four equal keys and a smaller one: the fourth rotation test fires on a
   * right child whose left link is null, and `rightRotate` reads
   * through it.
   */
  lemma EqualKeysCrash()
    ensures BuildAsWritten([1, 1, 1, 1, 0]).None?
  {
    var a := Node(Nil, 1, Nil, 1);
    var b := Node(Nil, 1, a, 2);
    var c := Node(Nil, 1, b, 3);
    var d := Node(Nil, 1, c, 4);
    assert [1, 1, 1, 1, 0][..4] == [1, 1, 1, 1];
    assert [1, 1, 1, 1][..3] == [1, 1, 1] && [1, 1, 1][..2] == [1, 1] && [1, 1][..1] == [1] && [1][..0] == [];
    assert InsertAsWritten(a, 1) == Some(b);
    assert InsertAsWritten(b, 1) == Some(c);
    assert InsertAsWritten(c, 1) == Some(d);
    assert BuildAsWritten([1, 1, 1, 1]) == Some(d);
    assert InsertAsWritten(Nil, 0) == Some(Node(Nil, 0, Nil, 1));
    assert RebalanceAsWritten(Join(Node(Nil, 0, Nil, 1), 1, c), 0).None?;
  }

  /** `5, 5, 6`: the left rotation puts a 5 below the other 5 on its left. */
  lemma EqualKeysSplitWrong()
    ensures BuildAsWritten([5, 5, 6]).Some? && !SplitByKey(BuildAsWritten([5, 5, 6]).value)
  {
    var a := Node(Nil, 5, Nil, 1);
    var b := Node(Nil, 5, a, 2);
    var six := Node(Nil, 6, Nil, 1);
    assert [5, 5, 6][..2] == [5, 5] && [5, 5][..1] == [5] && [5][..0] == [];
    assert BuildAsWritten([5, 5]) == Some(b);
    assert InsertAsWritten(a, 6) == Some(Node(Nil, 5, six, 2));
    var r := Node(Node(Nil, 5, Nil, 1), 5, six, 2);
    assert BuildAsWritten([5, 5, 6]) == Some(r);
    assert InOrder(r.left)[0] == 5;
  }

  /**
   * The insertion the rotation tests were meant to perform: an equal key
   * has gone right, so it takes the tests for that side. The result is an
   * AVL tree with correct heights, and its in-order sequence is the old one
   * with `key` placed after every key not greater than it.
   */
  function AddPollution(t: Avl<int>, key: int): (r: Avl<int>)
    requires IsAvl(t) && Ascending(InOrder(t), Id, true)
    ensures IsAvl(r) && Height(t) <= Height(r) <= Height(t) + 1
    ensures InOrder(r) == SeqInsert(InOrder(t), key, Id, true)
    ensures Ascending(InOrder(r), Id, true)
    ensures multiset(InOrder(r)) == multiset(InOrder(t)) + multiset{key}
  {
    InsertInOrder(t, key, Id, true);
    SeqInsertAscending(InOrder(t), key, Id, true);
    SeqInsertAdds(InOrder(t), key, Id, true);
    Insert(t, key, Id, true)
  }
}
