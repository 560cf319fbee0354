/**
 * Breadth-first search over an unweighted adjacency list
 * (`vector<vector<int>>`), as the flood-spread, safe-zone and
 * lateral-movement routines run it: a FIFO queue, a `visited` vector
 * marked when a node is pushed, and the neighbours of each popped node
 * scanned in list order.
 *
 * The queue is kept as the sequence `q` of every node ever pushed, with
 * `h` the position of its front: `q[..h]` have been popped and `q[h..]`
 * are waiting. `parent[k]` is the position of the node whose scan pushed
 * `q[k]`.
 */
module Reachability {
  import opened Wrappers

  type Adjacency = seq<seq<int>>

  /** Every neighbour is a node of the graph. */
  ghost predicate Closed(adj: Adjacency)
  {
    forall u, m :: 0 <= u < |adj| && 0 <= m < |adj[u]| ==> 0 <= adj[u][m] < |adj|
  }

  /** A non-empty walk along directed edges. */
  ghost predicate IsPath(adj: Adjacency, p: seq<int>)
  {
    && |p| >= 1
    && (forall k :: 0 <= k < |p| ==> 0 <= p[k] < |adj|)
    && (forall k :: 0 <= k < |p| - 1 ==> p[k + 1] in adj[p[k]])
  }

  /** `t` can be reached from `s`, in zero or more steps. */
  ghost predicate Reachable(adj: Adjacency, s: int, t: int)
  {
    exists p :: IsPath(adj, p) && p[0] == s && p[|p| - 1] == t
  }

  lemma ReachSelf(adj: Adjacency, s: int)
    requires 0 <= s < |adj|
    ensures Reachable(adj, s, s)
  {
    assert IsPath(adj, [s]);
  }

  lemma ReachStep(adj: Adjacency, s: int, u: int, m: int)
    requires Closed(adj) && 0 <= u < |adj| && 0 <= m < |adj[u]| && Reachable(adj, s, u)
    ensures Reachable(adj, s, adj[u][m])
  {
    var p :| IsPath(adj, p) && p[0] == s && p[|p| - 1] == u;
    var p' := p + [adj[u][m]];
    assert p'[|p'| - 2] == u;
    assert IsPath(adj, p');
  }

  /** A set of nodes closed under the edges holds every node reachable from one of its members. */
  lemma {:induction false} ClosedReach(adj: Adjacency, S: set<int>, p: seq<int>)
    requires IsPath(adj, p) && p[0] in S
    requires forall v, m :: v in S && 0 <= v < |adj| && 0 <= m < |adj[v]| ==> adj[v][m] in S
    ensures p[|p| - 1] in S
    decreases |p|
  {
    if |p| > 1 {
      var q := p[..|p| - 1];
      assert IsPath(adj, q);
      ClosedReach(adj, S, q);
      var v := p[|p| - 2];
      assert q[|q| - 1] == v;
      assert p[|p| - 1] in adj[v];
      var m :| 0 <= m < |adj[v]| && adj[v][m] == p[|p| - 1];
    }
  }

  /** All neighbours of the popped node `q[k]` are marked. */
  ghost predicate Expanded(adj: Adjacency, q: seq<int>, visited: seq<bool>, k: int)
  {
    && 0 <= k < |q| && 0 <= q[k] < |adj|
    && forall m :: 0 <= m < |adj[q[k]]| ==> 0 <= adj[q[k]][m] < |visited| && visited[adj[q[k]][m]]
  }

  /** `q[k]` is a neighbour of the earlier node `q[parent[k]]`. */
  ghost predicate PushedBy(adj: Adjacency, q: seq<int>, parent: seq<int>, k: int)
    requires 0 <= k < |q| == |parent|
  {
    0 <= parent[k] < k && 0 <= q[parent[k]] < |adj| && q[k] in adj[q[parent[k]]]
  }

  /** No node popped before `q[parent[k]]` has `q[k]` as a neighbour. */
  ghost predicate FirstPusher(adj: Adjacency, q: seq<int>, parent: seq<int>, k: int)
    requires 0 <= k < |q| == |parent|
  {
    forall j, m :: 0 <= j < parent[k] && j < |q| && 0 <= q[j] < |adj| && 0 <= m < |adj[q[j]]| ==> adj[q[j]][m] != q[k]
  }

  /**
   * What holds each time the front of the queue is about to be popped:
   * `visited` marks exactly the pushed nodes, each pushed once and
   * reachable from `start`; every popped node has had all its neighbours
   * marked; each pushed node after `start` was pushed by the scan of the
   * first popped node that has it as a neighbour, and the pushing nodes
   * come in queue order.
   */
  ghost predicate BfsState(adj: Adjacency, start: int, q: seq<int>, h: int, visited: seq<bool>, parent: seq<int>)
  {
    && Closed(adj) && |visited| == |adj| && 0 <= h <= |q| && |q| >= 1 && q[0] == start && |parent| == |q|
    && (forall k :: 0 <= k < |q| ==> 0 <= q[k] < |adj|)
    && (forall v :: 0 <= v < |adj| ==> (visited[v] <==> v in q))
    && (forall k, l :: 0 <= k < l < |q| ==> q[k] != q[l])
    && (forall k :: 0 <= k < |q| ==> Reachable(adj, start, q[k]))
    && (forall k :: 0 <= k < h ==> Expanded(adj, q, visited, k))
    && (forall k :: 0 < k < |q| ==> PushedBy(adj, q, parent, k) && parent[k] < h)
    && (forall k :: 0 < k < |q| ==> FirstPusher(adj, q, parent, k))
    && (forall k, l :: 0 < k < l < |q| ==> parent[k] <= parent[l])
  }

  /** The queue holding only `start`, marked. */
  lemma BfsStart(adj: Adjacency, start: int)
    requires Closed(adj) && 0 <= start < |adj|
    ensures BfsState(adj, start, [start], 0, seq(|adj|, v => false)[start := true], [0])
  {
    ReachSelf(adj, start);
  }

  /** Once every pushed node has been popped, the pushed nodes are exactly the reachable ones. */
  lemma BfsDone(adj: Adjacency, start: int, q: seq<int>, visited: seq<bool>, parent: seq<int>)
    requires BfsState(adj, start, q, |q|, visited, parent)
    ensures forall v :: v in q <==> Reachable(adj, start, v)
  {
    var S := set k | 0 <= k < |q| :: q[k];
    forall v, m | v in S && 0 <= v < |adj| && 0 <= m < |adj[v]| ensures adj[v][m] in S {
      var k :| 0 <= k < |q| && q[k] == v;
      assert Expanded(adj, q, visited, k);
      assert visited[adj[v][m]];
      assert adj[v][m] in q;
    }
    forall v ensures v in q <==> Reachable(adj, start, v) {
      if Reachable(adj, start, v) {
        var p :| IsPath(adj, p) && p[0] == start && p[|p| - 1] == v;
        assert q[0] in S;
        ClosedReach(adj, S, p);
      }
      if v in q {
        var k :| 0 <= k < |q| && q[k] == v;
      }
    }
  }

  /**
   * Part way through the scan of the front `q[h]`: its first `i` neighbours
   * are marked, and the nodes pushed so far by this scan have `h` as parent.
   */
  ghost predicate Scanning(adj: Adjacency, start: int, q: seq<int>, h: int, i: int, visited: seq<bool>, parent: seq<int>)
  {
    && Closed(adj) && |visited| == |adj| && 0 <= h < |q| && q[0] == start && |parent| == |q|
    && (forall k :: 0 <= k < |q| ==> 0 <= q[k] < |adj|)
    && 0 <= i <= |adj[q[h]]|
    && (forall v :: 0 <= v < |adj| ==> (visited[v] <==> v in q))
    && (forall k, l :: 0 <= k < l < |q| ==> q[k] != q[l])
    && (forall k :: 0 <= k < |q| ==> Reachable(adj, start, q[k]))
    && (forall k :: 0 <= k < h ==> Expanded(adj, q, visited, k))
    && (forall m :: 0 <= m < i ==> visited[adj[q[h]][m]])
    && (forall k :: 0 < k < |q| ==> PushedBy(adj, q, parent, k) && parent[k] <= h)
    && (forall k :: 0 < k < |q| ==> FirstPusher(adj, q, parent, k))
    && (forall k, l :: 0 < k < l < |q| ==> parent[k] <= parent[l])
  }

  lemma ScanBegins(adj: Adjacency, start: int, q: seq<int>, h: int, visited: seq<bool>, parent: seq<int>)
    requires BfsState(adj, start, q, h, visited, parent) && h < |q|
    ensures Scanning(adj, start, q, h, 0, visited, parent)
  {
  }

  lemma ScanEnds(adj: Adjacency, start: int, q: seq<int>, h: int, visited: seq<bool>, parent: seq<int>)
    requires 0 <= h < |q| && 0 <= q[h] < |adj|
    requires Scanning(adj, start, q, h, |adj[q[h]]|, visited, parent)
    ensures BfsState(adj, start, q, h + 1, visited, parent)
  {
    assert Expanded(adj, q, visited, h);
  }

  /** A neighbour that is already marked is passed over. */
  lemma ScanSkips(adj: Adjacency, start: int, q: seq<int>, h: int, i: int, visited: seq<bool>, parent: seq<int>)
    requires Scanning(adj, start, q, h, i, visited, parent) && i < |adj[q[h]]| && visited[adj[q[h]][i]]
    ensures Scanning(adj, start, q, h, i + 1, visited, parent)
  {
  }

  /** An unmarked neighbour is marked and pushed, with the front as its parent. */
  lemma ScanPushes(adj: Adjacency, start: int, q: seq<int>, h: int, i: int, visited: seq<bool>, parent: seq<int>)
    requires Scanning(adj, start, q, h, i, visited, parent) && i < |adj[q[h]]| && !visited[adj[q[h]][i]]
    ensures Scanning(adj, start, q + [adj[q[h]][i]], h, i + 1, visited[adj[q[h]][i] := true], parent + [h])
  {
    var x := adj[q[h]][i];
    var q', visited', parent' := q + [x], visited[x := true], parent + [h];
    PushMarks(adj, start, q, h, i, visited, parent, q', visited');
    PushExpanded(adj, start, q, h, i, visited, parent, q', visited');
    PushParents(adj, start, q, h, i, visited, parent, q', parent');
  }

  /** The pushed neighbour is new, marked and reachable. */
  lemma PushMarks(adj: Adjacency, start: int, q: seq<int>, h: int, i: int, visited: seq<bool>, parent: seq<int>,
                  q': seq<int>, visited': seq<bool>)
    requires Scanning(adj, start, q, h, i, visited, parent) && i < |adj[q[h]]| && !visited[adj[q[h]][i]]
    requires q' == q + [adj[q[h]][i]] && visited' == visited[adj[q[h]][i] := true]
    ensures forall k :: 0 <= k < |q'| ==> 0 <= q'[k] < |adj|
    ensures forall v :: 0 <= v < |adj| ==> (visited'[v] <==> v in q')
    ensures forall k, l :: 0 <= k < l < |q'| ==> q'[k] != q'[l]
    ensures forall k :: 0 <= k < |q'| ==> Reachable(adj, start, q'[k])
  {
    var u, x := q[h], adj[q[h]][i];
    assert x !in q;
    ReachStep(adj, start, u, i);
    forall v | 0 <= v < |adj| ensures visited'[v] <==> v in q' {
      assert v in q' <==> v in q || v == x;
    }
  }

  /** Marking one more node keeps every expanded node expanded and the scanned neighbours marked. */
  lemma PushExpanded(adj: Adjacency, start: int, q: seq<int>, h: int, i: int, visited: seq<bool>, parent: seq<int>,
                     q': seq<int>, visited': seq<bool>)
    requires Scanning(adj, start, q, h, i, visited, parent) && i < |adj[q[h]]| && !visited[adj[q[h]][i]]
    requires q' == q + [adj[q[h]][i]] && visited' == visited[adj[q[h]][i] := true]
    ensures q'[h] == q[h]
    ensures forall k :: 0 <= k < h ==> Expanded(adj, q', visited', k)
    ensures forall m :: 0 <= m < i + 1 ==> visited'[adj[q'[h]][m]]
  {
    forall k | 0 <= k < h ensures Expanded(adj, q', visited', k) {
      assert Expanded(adj, q, visited, k);
    }
  }

  /** The pushed node's parent is the front, the first popped node to have it as a neighbour. */
  lemma PushParents(adj: Adjacency, start: int, q: seq<int>, h: int, i: int, visited: seq<bool>, parent: seq<int>,
                    q': seq<int>, parent': seq<int>)
    requires Scanning(adj, start, q, h, i, visited, parent) && i < |adj[q[h]]| && !visited[adj[q[h]][i]]
    requires q' == q + [adj[q[h]][i]] && parent' == parent + [h]
    ensures |parent'| == |q'|
    ensures forall k :: 0 < k < |q'| ==> PushedBy(adj, q', parent', k) && parent'[k] <= h
    ensures forall k :: 0 < k < |q'| ==> FirstPusher(adj, q', parent', k)
    ensures forall k, l :: 0 < k < l < |q'| ==> parent'[k] <= parent'[l]
  {
    var x := adj[q[h]][i];
    forall k | 0 < k < |q'| ensures PushedBy(adj, q', parent', k) && parent'[k] <= h {
      if k < |q| {
        assert PushedBy(adj, q, parent, k);
      }
    }
    forall k | 0 < k < |q'| ensures FirstPusher(adj, q', parent', k) {
      if k < |q| {
        assert FirstPusher(adj, q, parent, k);
      } else {
        forall j, m | 0 <= j < h && 0 <= m < |adj[q[j]]| ensures adj[q[j]][m] != x {
          assert Expanded(adj, q, visited, j);
        }
      }
    }
  }

  /**
   * `slot[k]` is the index in its parent's neighbour list at which `q[k]`
   * was pushed: the first index holding `q[k]`.
   */
  ghost predicate SlotOk(adj: Adjacency, q: seq<int>, parent: seq<int>, slot: seq<int>, k: int)
    requires 0 <= k < |q| == |parent| == |slot|
  {
    && 0 <= parent[k] < |q| && 0 <= q[parent[k]] < |adj|
    && 0 <= slot[k] < |adj[q[parent[k]]]| && adj[q[parent[k]]][slot[k]] == q[k]
    && forall m :: 0 <= m < slot[k] ==> adj[q[parent[k]]][m] != q[k]
  }

  /** Every pushed node has its slot, and nodes pushed by the same scan are queued in slot order. */
  ghost predicate Slotted(adj: Adjacency, q: seq<int>, parent: seq<int>, slot: seq<int>)
  {
    && |q| == |parent| == |slot|
    && (forall k :: 0 < k < |q| ==> SlotOk(adj, q, parent, slot, k))
    && (forall k, l :: 0 < k < l < |q| && parent[k] == parent[l] ==> slot[k] < slot[l])
  }

  /** The nodes pushed so far by the scan of `q[h]` sit at its first `i` neighbour indices. */
  ghost predicate SlotsBelow(parent: seq<int>, slot: seq<int>, h: int, i: int)
    requires |parent| == |slot|
  {
    forall k :: 0 < k < |parent| && parent[k] == h ==> slot[k] < i
  }

  /** A pushed neighbour takes the scan index as its slot: no earlier index can hold it, as that one was marked. */
  lemma SlotPush(adj: Adjacency, start: int, q: seq<int>, h: int, i: int, visited: seq<bool>, parent: seq<int>, slot: seq<int>,
                 q': seq<int>, parent': seq<int>, slot': seq<int>)
    requires Scanning(adj, start, q, h, i, visited, parent) && i < |adj[q[h]]| && !visited[adj[q[h]][i]]
    requires Slotted(adj, q, parent, slot) && SlotsBelow(parent, slot, h, i)
    requires q' == q + [adj[q[h]][i]] && parent' == parent + [h] && slot' == slot + [i]
    ensures Slotted(adj, q', parent', slot') && SlotsBelow(parent', slot', h, i + 1)
  {
    var u, x, n := q[h], adj[q[h]][i], |q|;
    forall m | 0 <= m < i ensures adj[u][m] != x {
      assert visited[adj[u][m]];
    }
    assert SlotOk(adj, q', parent', slot', n);
    forall k | 0 < k < |q'| ensures SlotOk(adj, q', parent', slot', k) {
      if k < n {
        assert SlotOk(adj, q, parent, slot, k);
        assert q'[parent'[k]] == q[parent[k]] && q'[k] == q[k];
      }
    }
  }

  /** Pops the front `q[h]` and pushes its unmarked neighbours in list order. */
  method Expand(adj: Adjacency, start: int, q0: seq<int>, h: int, visited0: seq<bool>,
                ghost parent0: seq<int>, ghost slot0: seq<int>)
    returns (q: seq<int>, visited: seq<bool>, ghost parent: seq<int>, ghost slot: seq<int>)
    requires BfsState(adj, start, q0, h, visited0, parent0) && h < |q0|
    requires Slotted(adj, q0, parent0, slot0)
    ensures BfsState(adj, start, q, h + 1, visited, parent) && q0 <= q
    ensures Slotted(adj, q, parent, slot)
  {
    var u := q0[h];
    q, visited, parent, slot := q0, visited0, parent0, slot0;
    ScanBegins(adj, start, q, h, visited, parent);
    var i := 0;
    while i < |adj[u]|
      invariant q0 <= q && q[h] == u
      invariant Scanning(adj, start, q, h, i, visited, parent)
      invariant Slotted(adj, q, parent, slot) && SlotsBelow(parent, slot, h, i)
    {
      var x := adj[u][i];
      if !visited[x] {
        ScanPushes(adj, start, q, h, i, visited, parent);
        SlotPush(adj, start, q, h, i, visited, parent, slot, q + [x], parent + [h], slot + [i]);
        visited := visited[x := true];
        q := q + [x];
        parent := parent + [h];
        slot := slot + [i];
      } else {
        ScanSkips(adj, start, q, h, i, visited, parent);
      }
      i := i + 1;
    }
    ScanEnds(adj, start, q, h, visited, parent);
  }

  /**
   * The whole traversal: `order` is the pop order, which is also the push
   * order. It starts at `start`, holds each reachable node exactly once and
   * nothing else, and lists the nodes of each scan after those of every
   * earlier scan. Each later node was pushed by the scan of
   * `order[parent[k]]`, the first listed node that has it as a neighbour, at
   * index `slot[k]`, its first index in that node's list; nodes pushed by
   * one scan come in the order of their indices.
   */
  method Traverse(adj: Adjacency, start: int) returns (order: seq<int>, ghost parent: seq<int>, ghost slot: seq<int>)
    requires Closed(adj) && 0 <= start < |adj|
    ensures |order| >= 1 && order[0] == start
    ensures forall k :: 0 <= k < |order| ==> 0 <= order[k] < |adj|
    ensures forall k, l :: 0 <= k < l < |order| ==> order[k] != order[l]
    ensures forall v :: v in order <==> Reachable(adj, start, v)
    ensures |parent| == |order| && |slot| == |order|
    ensures forall k :: 0 < k < |order| ==> 0 <= parent[k] < k && order[k] in adj[order[parent[k]]]
    ensures forall k, j, m :: 0 < k < |order| && 0 <= j < parent[k] && 0 <= m < |adj[order[j]]| ==>
              adj[order[j]][m] != order[k]
    ensures forall k, l :: 0 < k < l < |order| ==> parent[k] <= parent[l]
    ensures forall k :: 0 < k < |order| ==>
              0 <= slot[k] < |adj[order[parent[k]]]| && adj[order[parent[k]]][slot[k]] == order[k] &&
              forall m :: 0 <= m < slot[k] ==> adj[order[parent[k]]][m] != order[k]
    ensures forall k, l :: 0 < k < l < |order| && parent[k] == parent[l] ==> slot[k] < slot[l]
  {
    var q, visited;
    q, visited, parent, slot := Run(adj, start);
    BfsDone(adj, start, q, visited, parent);
    Finished(adj, start, q, visited, parent, slot);
    order := q;
  }

  /** The queue loop of the traversal, run until every pushed node has been popped. */
  method Run(adj: Adjacency, start: int) returns (q: seq<int>, visited: seq<bool>, ghost parent: seq<int>, ghost slot: seq<int>)
    requires Closed(adj) && 0 <= start < |adj|
    ensures BfsState(adj, start, q, |q|, visited, parent) && Slotted(adj, q, parent, slot)
  {
    visited := seq(|adj|, v => false)[start := true];
    q := [start];
    parent, slot := [0], [0];
    BfsStart(adj, start);
    var h := 0;
    while h < |q|
      invariant BfsState(adj, start, q, h, visited, parent) && Slotted(adj, q, parent, slot)
      decreases |adj| - h
    {
      BfsBound(adj, start, q, h, visited, parent);
      q, visited, parent, slot := Expand(adj, start, q, h, visited, parent, slot);
      h := h + 1;
    }
  }

  /** The parent and slot facts of a finished traversal, spelled out. */
  lemma Finished(adj: Adjacency, start: int, q: seq<int>, visited: seq<bool>, parent: seq<int>, slot: seq<int>)
    requires BfsState(adj, start, q, |q|, visited, parent) && Slotted(adj, q, parent, slot)
    ensures |q| >= 1 && q[0] == start && |parent| == |q| && |slot| == |q|
    ensures forall k :: 0 <= k < |q| ==> 0 <= q[k] < |adj|
    ensures forall k, l :: 0 <= k < l < |q| ==> q[k] != q[l]
    ensures forall k, l :: 0 < k < l < |q| ==> parent[k] <= parent[l]
    ensures forall k, l :: 0 < k < l < |q| && parent[k] == parent[l] ==> slot[k] < slot[l]
    ensures forall k :: 0 < k < |q| ==> 0 <= parent[k] < k && q[k] in adj[q[parent[k]]]
    ensures forall k, j, m :: 0 < k < |q| && 0 <= j < parent[k] && 0 <= m < |adj[q[j]]| ==> adj[q[j]][m] != q[k]
    ensures forall k :: 0 < k < |q| ==>
              0 <= slot[k] < |adj[q[parent[k]]]| && adj[q[parent[k]]][slot[k]] == q[k] &&
              forall m :: 0 <= m < slot[k] ==> adj[q[parent[k]]][m] != q[k]
  {
    forall k | 0 < k < |q| ensures 0 <= parent[k] < k && q[k] in adj[q[parent[k]]] {
      assert PushedBy(adj, q, parent, k);
    }
    forall k, j, m | 0 < k < |q| && 0 <= j < parent[k] && 0 <= m < |adj[q[j]]| ensures adj[q[j]][m] != q[k] {
      assert FirstPusher(adj, q, parent, k);
    }
    forall k | 0 < k < |q|
      ensures 0 <= slot[k] < |adj[q[parent[k]]]| && adj[q[parent[k]]][slot[k]] == q[k]
      ensures forall m :: 0 <= m < slot[k] ==> adj[q[parent[k]]][m] != q[k]
    {
      assert SlotOk(adj, q, parent, slot, k);
    }
  }

  /**
   * The traversal's contract fixes the order of siblings: from node 0 with
   * neighbour list `[2, 1]`, node 2 is listed before node 1.
   */
  lemma ListOrderExample(order: seq<int>, parent: seq<int>, slot: seq<int>)
    requires forall k :: 0 <= k < |order| ==> 0 <= order[k] < 3
    requires |order| >= 1 && order[0] == 0
    requires forall k, l :: 0 <= k < l < |order| ==> order[k] != order[l]
    requires forall v :: v in order <==> Reachable([[2, 1], [], []], 0, v)
    requires |parent| == |order| && |slot| == |order|
    requires forall k :: 0 < k < |order| ==> 0 <= parent[k] < k && order[k] in [[2, 1], [], []][order[parent[k]]]
    requires forall k :: 0 < k < |order| ==>
               0 <= slot[k] < |[[2, 1], [], []][order[parent[k]]]| && [[2, 1], [], []][order[parent[k]]][slot[k]] == order[k]
    requires forall k, l :: 0 < k < l < |order| && parent[k] == parent[l] ==> slot[k] < slot[l]
    ensures order == [0, 2, 1]
  {
    var adj := [[2, 1], [], []];
    assert IsPath(adj, [0, 1]) && IsPath(adj, [0, 2]);
    assert 1 in order && 2 in order;
    DistinctCount(order, 3);
    assert |order| == 3;
    assert order[1] != 0 && |adj[order[1]]| == 0;
    assert parent[1] == 0 && parent[2] == 0;
  }

  /** Distinct nodes of the graph: the queue never holds more than `|adj|` of them. */
  lemma BfsBound(adj: Adjacency, start: int, q: seq<int>, h: int, visited: seq<bool>, parent: seq<int>)
    requires BfsState(adj, start, q, h, visited, parent)
    ensures |q| <= |adj|
  {
    DistinctCount(q, |adj|);
  }

  lemma {:induction false} DistinctCount(q: seq<int>, n: nat)
    requires forall k :: 0 <= k < |q| ==> 0 <= q[k] < n
    requires forall k, l :: 0 <= k < l < |q| ==> q[k] != q[l]
    ensures |q| <= n
  {
    var S := set k | 0 <= k < |q| :: q[k];
    assert S <= Below(n);
    IndexSetSize(q);
    SubsetSize(S, Below(n));
  }

  /** The nodes `0..n-1`. */
  ghost function Below(n: nat): (r: set<int>)
    ensures |r| == n && forall v :: v in r <==> 0 <= v < n
  {
    if n == 0 then {} else Below(n - 1) + {n - 1}
  }

  lemma {:induction false} IndexSetSize(q: seq<int>)
    requires forall k, l :: 0 <= k < l < |q| ==> q[k] != q[l]
    ensures |set k | 0 <= k < |q| :: q[k]| == |q|
    decreases |q|
  {
    if q != [] {
      var p := q[..|q| - 1];
      IndexSetSize(p);
      var S := set k | 0 <= k < |q| :: q[k];
      var P := set k | 0 <= k < |p| :: p[k];
      assert S == P + {q[|q| - 1]};
      assert q[|q| - 1] !in P;
    }
  }

  lemma {:induction false} SubsetSize(S: set<int>, R: set<int>)
    requires S <= R
    ensures |S| <= |R|
    decreases R
  {
    if S != {} {
      var x := Pick(S);
      SubsetSize(S - {x}, R - {x});
    }
  }


  /**
   * The search with early exit (`bfsSafeZone`, `detectLateralMovement`):
   * true exactly when `target` is reachable from `start`, and at once when
   * they are the same node.
   */
  method Search(adj: Adjacency, start: int, target: int) returns (found: bool)
    requires Closed(adj) && 0 <= start < |adj|
    ensures found <==> Reachable(adj, start, target)
    ensures start == target ==> found
  {
    var visited := seq(|adj|, v => false)[start := true];
    var q := [start];
    ghost var parent, slot := [0], [0];
    BfsStart(adj, start);
    var h := 0;
    while h < |q|
      invariant BfsState(adj, start, q, h, visited, parent) && Slotted(adj, q, parent, slot)
      invariant forall k :: 0 <= k < h ==> q[k] != target
      decreases |adj| - h
    {
      if q[h] == target {
        return true;
      }
      BfsBound(adj, start, q, h, visited, parent);
      q, visited, parent, slot := Expand(adj, start, q, h, visited, parent, slot);
      h := h + 1;
    }
    BfsDone(adj, start, q, visited, parent);
    found := false;
  }
}
