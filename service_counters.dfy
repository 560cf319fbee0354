/**
 * The bank and government service counters (acase4.cpp): normal customers
 * join the counter with the shortest queue, customers with a priority wait
 * in a max-heap on priority until a serving round moves them to the
 * counters, each round serves the front customer of every counter (five
 * minutes each), and a customer who leaves is taken out of the first
 * counter that holds them.
 */
module ServiceCounters {
  import opened Wrappers
  import opened Orderings
  import PriorityQueues

  /** `priority`: 0 normal, 1 senior or pregnant, 2 VIP; `serviceType`: 0 bank, otherwise government. */
  datatype Customer = Customer(id: int, name: string, priority: int, serviceType: int, arrivalTime: int)

  /** A service counter: its id, its FIFO queue (front first) and the minutes it has served. */
  datatype Counter = Counter(id: int, q: seq<Customer>, totalServiceTime: int)

  /** Customers waiting at all counters. */
  function Waiting(cs: seq<Counter>): (n: int)
    ensures n >= 0
  {
    if cs == [] then 0 else Waiting(cs[..|cs| - 1]) + |cs[|cs| - 1].q|
  }

  /** Minutes served at all counters. */
  function ServiceTime(cs: seq<Counter>): int
  {
    if cs == [] then 0 else ServiceTime(cs[..|cs| - 1]) + cs[|cs| - 1].totalServiceTime
  }

  /** The customers waiting at all counters. */
  ghost function Queued(cs: seq<Counter>): multiset<Customer>
  {
    if cs == [] then multiset{} else Queued(cs[..|cs| - 1]) + multiset(cs[|cs| - 1].q)
  }

  /** Counter `k` has the shortest queue, and every earlier counter a longer one. */
  ghost predicate LeastBusy(cs: seq<Counter>, k: int)
  {
    && 0 <= k < |cs|
    && (forall j :: 0 <= j < k ==> |cs[j].q| > |cs[k].q|)
    && (forall j :: k < j < |cs| ==> |cs[j].q| >= |cs[k].q|)
  }

  /** Counter `k` of `cs` with `c` joining the back of its queue. */
  ghost function Join(cs: seq<Counter>, k: int, c: Customer): seq<Counter>
    requires 0 <= k < |cs|
  {
    cs[k := cs[k].(q := cs[k].q + [c])]
  }

  /** Joining a queue adds one waiting customer, and only that one. */
  lemma JoinAdds(cs: seq<Counter>, k: int, c: Customer)
    requires 0 <= k < |cs|
    ensures Queued(Join(cs, k, c)) == Queued(cs) + multiset{c}
    ensures Waiting(Join(cs, k, c)) == Waiting(cs) + 1
  {
    JoinQueued(cs, k, c);
    JoinWaiting(cs, k, c);
  }

  lemma {:induction false} JoinQueued(cs: seq<Counter>, k: int, c: Customer)
    requires 0 <= k < |cs|
    ensures Queued(Join(cs, k, c)) == Queued(cs) + multiset{c}
    decreases |cs|
  {
    var js := Join(cs, k, c);
    var last := |cs| - 1;
    if k < last {
      assert js[..last] == Join(cs[..last], k, c) && js[last] == cs[last];
      JoinQueued(cs[..last], k, c);
    } else {
      assert js[..last] == cs[..last];
      assert multiset(js[last].q) == multiset(cs[last].q) + multiset{c};
    }
  }

  lemma {:induction false} JoinWaiting(cs: seq<Counter>, k: int, c: Customer)
    requires 0 <= k < |cs|
    ensures Waiting(Join(cs, k, c)) == Waiting(cs) + 1
    decreases |cs|
  {
    var js := Join(cs, k, c);
    var last := |cs| - 1;
    if k < last {
      assert js[..last] == Join(cs[..last], k, c) && js[last] == cs[last];
      JoinWaiting(cs[..last], k, c);
    } else {
      assert js[..last] == cs[..last];
    }
  }

  /**
   * `assignCustomer(c, counters)`: `c` joins the back of the least busy
   * counter, the lowest-numbered on ties; the other counters are unchanged.
   */
  method AssignCustomer(c: Customer, counters: array<Counter>) returns (index: int)
    requires counters.Length >= 1
    modifies counters
    ensures LeastBusy(old(counters[..]), index)
    ensures counters[..] == Join(old(counters[..]), index, c)
  {
    var minSize := |counters[0].q|;
    index := 0;
    var i := 1;
    while i < counters.Length
      invariant 1 <= i <= counters.Length && 0 <= index < i && minSize == |counters[index].q|
      invariant forall j :: 0 <= j < index ==> |counters[j].q| > minSize
      invariant forall j :: index < j < i ==> |counters[j].q| >= minSize
    {
      if |counters[i].q| < minSize {
        minSize := |counters[i].q|;
        index := i;
      }
      i := i + 1;
    }
    counters[index] := counters[index].(q := counters[index].q + [c]);
  }

  /** One serving round at a counter: the front customer leaves and five minutes are booked. */
  function Served(c: Counter): (r: Counter)
    ensures r.id == c.id
    ensures |c.q| > 0 ==> r.q == c.q[1..] && r.totalServiceTime == c.totalServiceTime + 5
    ensures |c.q| == 0 ==> r == c
  {
    if |c.q| > 0 then c.(q := c.q[1..], totalServiceTime := c.totalServiceTime + 5) else c
  }

  /** Counters with someone waiting. */
  function Busy(cs: seq<Counter>): int
  {
    if cs == [] then 0 else Busy(cs[..|cs| - 1]) + (if |cs[|cs| - 1].q| > 0 then 1 else 0)
  }

  /** A round serves one customer at each busy counter and books five minutes for each. */
  lemma {:induction false} ServedTotals(cs: seq<Counter>, rs: seq<Counter>)
    requires |rs| == |cs| && forall i :: 0 <= i < |cs| ==> rs[i] == Served(cs[i])
    ensures Waiting(rs) == Waiting(cs) - Busy(cs)
    ensures ServiceTime(rs) == ServiceTime(cs) + 5 * Busy(cs)
    decreases |cs|
  {
    if cs != [] {
      ServedTotals(cs[..|cs| - 1], rs[..|rs| - 1]);
    }
  }

  /** `serveCustomers(counters)`: every counter with a queue serves its front customer. */
  method ServeCustomers(counters: array<Counter>)
    modifies counters
    ensures forall i :: 0 <= i < counters.Length ==> counters[i] == Served(old(counters[i]))
  {
    var i := 0;
    while i < counters.Length
      invariant 0 <= i <= counters.Length
      invariant forall j :: 0 <= j < i ==> counters[j] == Served(old(counters[j]))
      invariant forall j :: i <= j < counters.Length ==> counters[j] == old(counters[j])
    {
      counters[i] := Served(counters[i]);
      i := i + 1;
    }
  }

  /** `q` with every customer of this id taken out, the rest in order. */
  function Without(q: seq<Customer>, id: int): (r: seq<Customer>)
    ensures |r| <= |q|
  {
    if q == [] then [] else (if q[0].id == id then [] else [q[0]]) + Without(q[1..], id)
  }

  /** The customers kept are those of another id, and keep their order. */
  lemma {:induction false} WithoutKeeps(q: seq<Customer>, id: int)
    ensures forall x :: x in Without(q, id) <==> x in q && x.id != id
    ensures (forall k :: 0 <= k < |q| ==> q[k].id != id) ==> Without(q, id) == q
    decreases |q|
  {
    if q != [] {
      WithoutKeeps(q[1..], id);
      assert q == [q[0]] + q[1..];
    }
  }

  ghost predicate HasCustomer(q: seq<Customer>, id: int)
  {
    exists k :: 0 <= k < |q| && q[k].id == id
  }

  lemma WithoutStep(q: seq<Customer>, id: int)
    requires q != []
    ensures Without(q, id) == (if q[0].id == id then [] else [q[0]]) + Without(q[1..], id)
    ensures HasCustomer(q, id) <==> q[0].id == id || HasCustomer(q[1..], id)
  {
    if HasCustomer(q, id) {
      var k :| 0 <= k < |q| && q[k].id == id;
      if k > 0 {
        assert q[1..][k - 1].id == id;
      }
    }
    if q[0].id != id && HasCustomer(q[1..], id) {
      var k :| 0 <= k < |q[1..]| && q[1..][k].id == id;
      assert q[k + 1].id == id;
    }
  }

  /** What the rebuild loop keeps: `temp` and the rest of the queue make up the result. */
  ghost predicate RebuildInv(q0: seq<Customer>, id: int, q: seq<Customer>, temp: seq<Customer>, found: bool)
  {
    && temp + Without(q, id) == Without(q0, id)
    && ((found || HasCustomer(q, id)) <==> HasCustomer(q0, id))
  }

  /** One customer taken off the front: dropped if it has the id, kept otherwise. */
  lemma RebuildStep(q0: seq<Customer>, id: int, q: seq<Customer>, temp: seq<Customer>, found: bool,
                    q': seq<Customer>, temp': seq<Customer>, found': bool)
    requires RebuildInv(q0, id, q, temp, found) && q != [] && q' == q[1..]
    requires (temp', found') == (if q[0].id == id then (temp, true) else (temp + [q[0]], found))
    ensures RebuildInv(q0, id, q', temp', found')
  {
    WithoutStep(q, id);
    if q[0].id != id {
      assert temp' + Without(q', id) == temp + ([q[0]] + Without(q', id));
    }
  }

  /** The rebuild loop of `removeCustomer` on one counter's queue. */
  method Rebuild(q0: seq<Customer>, id: int) returns (temp: seq<Customer>, found: bool)
    ensures temp == Without(q0, id)
    ensures found <==> HasCustomer(q0, id)
  {
    var q := q0;
    temp, found := [], false;
    while |q| > 0
      invariant RebuildInv(q0, id, q, temp, found)
      decreases |q|
    {
      var c := q[0];
      ghost var q1, temp1, found1 := q, temp, found;
      q := q[1..];
      if c.id == id {
        found := true;
      } else {
        temp := temp + [c];
      }
      RebuildStep(q0, id, q1, temp1, found1, q, temp, found);
    }
  }

  /**
   * `removeCustomer(counters, customerId)`: the first counter holding the
   * customer loses every entry with that id, the others keeping their
   * order; every other counter is unchanged.
   */
  method RemoveCustomer(counters: array<Counter>, customerId: int)
    modifies counters
    ensures forall i :: 0 <= i < counters.Length ==>
      counters[i] == (if HasCustomer(old(counters[i].q), customerId)
                         && forall j :: 0 <= j < i ==> !HasCustomer(old(counters[j].q), customerId)
                      then old(counters[i]).(q := Without(old(counters[i].q), customerId))
                      else old(counters[i]))
  {
    var i := 0;
    while i < counters.Length
      invariant 0 <= i <= counters.Length
      invariant forall j :: 0 <= j < i ==> !HasCustomer(old(counters[j].q), customerId)
      invariant forall j :: 0 <= j < counters.Length ==> counters[j] == old(counters[j])
    {
      var temp, found := Rebuild(counters[i].q, customerId);
      WithoutKeeps(counters[i].q, customerId);
      counters[i] := counters[i].(q := temp);
      if found {
        return;
      }
      i := i + 1;
    }
  }

  /**
   * `calculateAverageWaitingTime(counters)`: minutes served over customers
   * waiting, as an integer quotient truncated toward zero; None when nobody
   * waits.
   */
  method AverageWaitingTime(counters: seq<Counter>) returns (avg: Option<int>)
    ensures avg.None? <==> Waiting(counters) == 0
    ensures avg.Some? && ServiceTime(counters) >= 0 ==>
      avg.value * Waiting(counters) <= ServiceTime(counters) < (avg.value + 1) * Waiting(counters)
  {
    var totalCustomers, totalTime := 0, 0;
    var i := 0;
    while i < |counters|
      invariant 0 <= i <= |counters|
      invariant totalCustomers == Waiting(counters[..i]) && totalTime == ServiceTime(counters[..i])
    {
      assert counters[..i + 1][..i] == counters[..i];
      totalCustomers := totalCustomers + |counters[i].q|;
      totalTime := totalTime + counters[i].totalServiceTime;
      i := i + 1;
    }
    assert counters[..i] == counters;
    if totalCustomers > 0 {
      var quotient := if totalTime >= 0 then totalTime / totalCustomers else -((-totalTime) / totalCustomers);
      avg := Some(quotient);
    } else {
      avg := None;
    }
  }

  /** Where the menu sends a new customer: the priority heap or a counter, of the bank or the government office. */
  datatype Route = Route(bank: bool, waitsInHeap: bool)

  function RouteOf(c: Customer): (r: Route)
    ensures r.bank <==> c.serviceType == 0
    ensures r.waitsInHeap <==> c.priority > 0
  {
    Route(c.serviceType == 0, c.priority > 0)
  }

  /** `ComparePriority`: `a` leaves the heap after `b` when its priority is lower. */
  predicate LowerPriority(a: Customer, b: Customer)
  {
    a.priority < b.priority
  }

  lemma LowerPriorityOrder()
    ensures StrictWeakOrder(LowerPriority)
  {
  }

  /** The least busy counter, the lowest-numbered on ties. */
  function LeastBusyAt(cs: seq<Counter>): (k: int)
    requires |cs| >= 1
    ensures LeastBusy(cs, k)
    decreases |cs|
  {
    if |cs| == 1 then 0
    else
      var k := LeastBusyAt(cs[..|cs| - 1]);
      assert LeastBusy(cs[..|cs| - 1], k);
      if |cs[|cs| - 1].q| < |cs[k].q| then |cs| - 1 else k
  }

  /** Only one counter is the least busy one. */
  lemma LeastBusyUnique(cs: seq<Counter>, k: int, l: int)
    requires LeastBusy(cs, k) && LeastBusy(cs, l)
    ensures k == l
  {
    var a, b := |cs[k].q|, |cs[l].q|;
    assert k < l ==> a > b && b >= a;
    assert l < k ==> b > a && a >= b;
  }

  /** The counters after each customer of `order`, front first, has joined the least busy one. */
  ghost function JoinAll(cs: seq<Counter>, order: seq<Customer>): (r: seq<Counter>)
    requires |cs| >= 1
    ensures |r| == |cs|
    ensures forall i :: 0 <= i < |cs| ==> r[i].id == cs[i].id && r[i].totalServiceTime == cs[i].totalServiceTime
    decreases |order|
  {
    if order == [] then cs
    else
      var front := JoinAll(cs, order[..|order| - 1]);
      Join(front, LeastBusyAt(front), order[|order| - 1])
  }

  /** Joining everyone of `order` adds exactly those customers to the queues. */
  lemma {:induction false} JoinAllQueued(cs: seq<Counter>, order: seq<Customer>)
    requires |cs| >= 1
    ensures Queued(JoinAll(cs, order)) == Queued(cs) + multiset(order)
    ensures Waiting(JoinAll(cs, order)) == Waiting(cs) + |order|
    decreases |order|
  {
    if order != [] {
      var init, c := order[..|order| - 1], order[|order| - 1];
      JoinAllQueued(cs, init);
      var front := JoinAll(cs, init);
      JoinAdds(front, LeastBusyAt(front), c);
      LastSplit(order);
    }
  }

  lemma LastSplit(order: seq<Customer>)
    requires order != []
    ensures multiset(order) == multiset(order[..|order| - 1]) + multiset{order[|order| - 1]}
  {
    assert order == order[..|order| - 1] + [order[|order| - 1]];
  }

  /** Each customer of `order`, front first, joins the least busy counter. */
  method AssignAll(order: seq<Customer>, counters: array<Counter>)
    requires counters.Length >= 1
    modifies counters
    ensures counters[..] == JoinAll(old(counters[..]), order)
    ensures Queued(counters[..]) == Queued(old(counters[..])) + multiset(order)
    ensures Waiting(counters[..]) == Waiting(old(counters[..])) + |order|
  {
    ghost var cs0 := counters[..];
    var k := 0;
    while k < |order|
      invariant 0 <= k <= |order| && counters.Length >= 1
      invariant counters[..] == JoinAll(cs0, order[..k])
    {
      ghost var before := counters[..];
      var index := AssignCustomer(order[k], counters);
      LeastBusyUnique(before, index, LeastBusyAt(before));
      assert order[..k + 1][..k] == order[..k];
      k := k + 1;
    }
    assert order[..k] == order;
    JoinAllQueued(cs0, order);
  }

  /**
   * The first half of a serving round in `main`: the heap is popped until
   * empty, highest priority first, each customer joining the least busy
   * counter as they come: the counters end up as `JoinAll` of the pop order.
   */
  method DrainIntoCounters(heap: seq<Customer>, counters: array<Counter>) returns (order: seq<Customer>)
    requires counters.Length >= 1
    modifies counters
    ensures multiset(order) == multiset(heap)
    ensures forall i, j :: 0 <= i < j < |order| ==> order[i].priority >= order[j].priority
    ensures counters[..] == JoinAll(old(counters[..]), order)
    ensures Queued(counters[..]) == Queued(old(counters[..])) + multiset(heap)
    ensures Waiting(counters[..]) == Waiting(old(counters[..])) + |heap|
  {
    LowerPriorityOrder();
    order := PriorityQueues.Drain(heap, LowerPriority);
    forall i, j | 0 <= i < j < |order| ensures order[i].priority >= order[j].priority {
      assert !LowerPriority(order[i], order[j]);
    }
    assert |heap| == |multiset(heap)| == |order|;
    AssignAll(order, counters);
  }
}
