/**
 * The shop and restaurant pricing system: the item catalog with its two
 * hash maps, the BST and AVL indexes by item id, the order pipeline
 * (incoming queue, processing queue, failed stack) and the supplier
 * routing by Dijkstra. Prices are `double` in the program and `real` here;
 * only the integer stock counters take part in the proofs.
 */
module DynamicPricing {
  import opened Wrappers
  import opened SearchTrees
  import WeightedGraphs
  import Dijkstra

  datatype Item = Item(id: int, name: string, basePrice: real, stock: int, soldToday: int, dailyViews: int,
                       expiryDays: int, perishable: bool, lastUpdateHour: int, currentPrice: real)

  datatype Order = Order(orderId: int, itemId: int, qty: int, timestampHour: int, customer: string)

  /** The two-argument `Item` constructor: nothing sold or viewed yet, priced at base, updated at noon. */
  function NewItem(id: int, name: string, base: real, stock: int, perishable: bool, expiry: int): (it: Item)
    ensures it.id == id && it.stock == stock && it.soldToday == 0 && it.dailyViews == 0
    ensures it.currentPrice == base && it.lastUpdateHour == 12
  {
    Item(id, name, base, stock, 0, 0, expiry, perishable, 12, base)
  }

  function ItemId(it: Item): int
  {
    it.id
  }

  // ---------------------------------------------------------------
  // BST and AVL indexes (equal ids replace the stored item)
  // ---------------------------------------------------------------

  /** The trees' in-order output: ids strictly increase. */
  ghost predicate IdsIncrease(s: seq<Item>)
  {
    Ascending(s, ItemId, false)
  }

  /**
   * Inserting into the BST keeps the in-order output strictly increasing by
   * id; a new id adds exactly one item, a known id has its item replaced in
   * place without adding a node.
   */
  lemma BstInsertItem(t: Bst<Item>, it: Item)
    requires IdsIncrease(BstInOrder(t))
    ensures IdsIncrease(BstInOrder(BstInsert(t, it, ItemId)))
    ensures (forall k :: 0 <= k < |BstInOrder(t)| ==> BstInOrder(t)[k].id != it.id) ==>
      multiset(BstInOrder(BstInsert(t, it, ItemId))) == multiset(BstInOrder(t)) + multiset{it}
    ensures forall k :: 0 <= k < |BstInOrder(t)| && BstInOrder(t)[k].id == it.id ==>
      BstInOrder(BstInsert(t, it, ItemId)) == BstInOrder(t)[k := it]
  {
    BstInsertInOrder(t, it, ItemId);
    SeqInsertAscending(BstInOrder(t), it, ItemId, false);
    if forall k :: 0 <= k < |BstInOrder(t)| ==> BstInOrder(t)[k].id != it.id {
      SeqInsertAdds(BstInOrder(t), it, ItemId, false);
    }
    forall k | 0 <= k < |BstInOrder(t)| && BstInOrder(t)[k].id == it.id
      ensures BstInOrder(BstInsert(t, it, ItemId)) == BstInOrder(t)[k := it]
    {
      SeqInsertReplaces(BstInOrder(t), it, ItemId, k);
    }
  }

  /**
   * `avlInsertNode`: the same in-order effect as the BST insertion, and the
   * tree stays an AVL tree with correct height fields.
   */
  lemma AvlInsertItem(t: Avl<Item>, it: Item)
    requires IsAvl(t) && IdsIncrease(InOrder(t))
    ensures IsAvl(Insert(t, it, ItemId, false))
    ensures IdsIncrease(InOrder(Insert(t, it, ItemId, false)))
    ensures (forall k :: 0 <= k < |InOrder(t)| ==> InOrder(t)[k].id != it.id) ==>
      multiset(InOrder(Insert(t, it, ItemId, false))) == multiset(InOrder(t)) + multiset{it}
    ensures forall k :: 0 <= k < |InOrder(t)| && InOrder(t)[k].id == it.id ==>
      InOrder(Insert(t, it, ItemId, false)) == InOrder(t)[k := it]
  {
    InsertInOrder(t, it, ItemId, false);
    SeqInsertAscending(InOrder(t), it, ItemId, false);
    if forall k :: 0 <= k < |InOrder(t)| ==> InOrder(t)[k].id != it.id {
      SeqInsertAdds(InOrder(t), it, ItemId, false);
    }
    forall k | 0 <= k < |InOrder(t)| && InOrder(t)[k].id == it.id
      ensures InOrder(Insert(t, it, ItemId, false)) == InOrder(t)[k := it]
    {
      SeqInsertReplaces(InOrder(t), it, ItemId, k);
    }
  }

  /** The class `BST`: a link to the root, grown by `insert`. */
  class ItemBst {
    var root: Bst<Item>

    ghost predicate Valid()
      reads this
    {
      IdsIncrease(BstInOrder(root))
    }

    constructor()
      ensures root == Leaf && Valid()
    {
      root := Leaf;
    }

    method Insert(it: Item)
      requires Valid()
      modifies this
      ensures Valid() && root == BstInsert(old(root), it, ItemId)
    {
      BstInsertItem(root, it);
      root := BstInsert(root, it, ItemId);
    }

    method InOrderItems() returns (out: seq<Item>)
      requires Valid()
      ensures out == BstInOrder(root) && IdsIncrease(out)
    {
      out := BstInOrder(root);
    }
  }

  /** The class `AVLTree`. */
  class ItemAvl {
    var root: Avl<Item>

    ghost predicate Valid()
      reads this
    {
      IsAvl(root) && IdsIncrease(InOrder(root))
    }

    constructor()
      ensures root == Nil && Valid()
    {
      root := Nil;
    }

    method Insert(it: Item)
      requires Valid()
      modifies this
      ensures Valid() && root == SearchTrees.Insert(old(root), it, ItemId, false)
    {
      AvlInsertItem(root, it);
      root := SearchTrees.Insert(root, it, ItemId, false);
    }

    method InOrderItems() returns (out: seq<Item>)
      requires Valid()
      ensures out == InOrder(root) && IdsIncrease(out)
    {
      out := InOrder(root);
    }
  }

  /** The BST that `main` builds by inserting the seed items in order. */
  function BuildBst(items: seq<Item>): (t: Bst<Item>)
    ensures IdsIncrease(BstInOrder(t))
  {
    if items == [] then Leaf
    else
      var t0 := BuildBst(items[..|items| - 1]);
      BstInsertItem(t0, items[|items| - 1]);
      BstInsert(t0, items[|items| - 1], ItemId)
  }

  /** The AVL tree built from the same items. */
  function BuildAvl(items: seq<Item>): (t: Avl<Item>)
    ensures IsAvl(t) && IdsIncrease(InOrder(t))
  {
    if items == [] then Nil
    else
      var t0 := BuildAvl(items[..|items| - 1]);
      AvlInsertItem(t0, items[|items| - 1]);
      SearchTrees.Insert(t0, items[|items| - 1], ItemId, false)
  }

  /** Menu option 8 prints the same list twice: both trees have the same in-order output. */
  lemma {:induction false} SameInOrder(items: seq<Item>)
    ensures InOrder(BuildAvl(items)) == BstInOrder(BuildBst(items))
  {
    if items != [] {
      var init := items[..|items| - 1];
      var it := items[|items| - 1];
      SameInOrder(init);
      BstInsertInOrder(BuildBst(init), it, ItemId);
      InsertInOrder(BuildAvl(init), it, ItemId, false);
    }
  }

  // ---------------------------------------------------------------
  // Item catalog
  // ---------------------------------------------------------------

  /** `getById`: the stored item, when the id is known. */
  function LookupId(idMap: map<int, Item>, id: int): (r: Option<Item>)
    ensures r.Some? <==> id in idMap
    ensures r.Some? ==> r.value == idMap[id]
  {
    if id in idMap then Some(idMap[id]) else None
  }

  /** Every name refers to a stored id, and every item is stored under its own id. */
  ghost predicate CatalogOk(idMap: map<int, Item>, nameToId: map<string, int>)
  {
    && (forall id :: id in idMap ==> idMap[id].id == id)
    && (forall name :: name in nameToId ==> nameToId[name] in idMap)
  }

  /** `getByName`: the item currently stored under the id the name was last added with. */
  function LookupName(idMap: map<int, Item>, nameToId: map<string, int>, name: string): (r: Option<Item>)
    requires CatalogOk(idMap, nameToId)
    ensures r.Some? <==> name in nameToId
    ensures r.Some? ==> r.value.id == nameToId[name] && r == LookupId(idMap, nameToId[name])
  {
    if name in nameToId then Some(idMap[nameToId[name]]) else None
  }

  /**
   * After `addOrUpdate(it)` the id is known, both lookups return `it`, and
   * every other id still returns what it returned before.
   */
  lemma AddThenLookup(idMap: map<int, Item>, nameToId: map<string, int>, it: Item)
    requires CatalogOk(idMap, nameToId)
    ensures CatalogOk(idMap[it.id := it], nameToId[it.name := it.id])
    ensures LookupId(idMap[it.id := it], it.id) == Some(it)
    ensures LookupName(idMap[it.id := it], nameToId[it.name := it.id], it.name) == Some(it)
    ensures forall id :: id != it.id ==> LookupId(idMap[it.id := it], id) == LookupId(idMap, id)
  {
  }

  class ItemCatalog {
    var idMap: map<int, Item>
    var nameToId: map<string, int>

    ghost predicate Valid()
      reads this
    {
      CatalogOk(idMap, nameToId)
    }

    constructor()
      ensures Valid() && idMap == map[] && nameToId == map[]
    {
      idMap, nameToId := map[], map[];
    }

    method AddOrUpdate(it: Item)
      requires Valid()
      modifies this
      ensures Valid()
      ensures idMap == old(idMap)[it.id := it] && nameToId == old(nameToId)[it.name := it.id]
    {
      idMap := idMap[it.id := it];
      nameToId := nameToId[it.name := it.id];
    }

    method ExistsId(id: int) returns (b: bool)
      ensures b <==> id in idMap
    {
      b := id in idMap;
    }

    method ExistsName(name: string) returns (b: bool)
      ensures b <==> name in nameToId
    {
      b := name in nameToId;
    }

    method GetById(id: int) returns (r: Option<Item>)
      ensures r == LookupId(idMap, id)
    {
      r := if id in idMap then Some(idMap[id]) else None;
    }

    method GetByName(name: string) returns (r: Option<Item>)
      requires Valid()
      ensures r == LookupName(idMap, nameToId, name)
    {
      if name !in nameToId {
        return None;
      }
      var id := nameToId[name];
      r := Some(idMap[id]);
    }

    /**
     * `allItems`: every stored item once. The hash map's iteration order is
     * unspecified, so the order here is an arbitrary one.
     */
    method AllItems() returns (out: seq<Item>)
      requires Valid()
      ensures |out| == |idMap|
      ensures forall it :: it in out <==> it in idMap.Values
      ensures forall i, j :: 0 <= i < j < |out| ==> out[i].id != out[j].id
    {
      out := [];
      var left := idMap.Keys;
      while left != {}
        invariant left <= idMap.Keys
        invariant |out| + |left| == |idMap|
        invariant forall k :: 0 <= k < |out| ==> out[k].id in idMap && out[k].id !in left && idMap[out[k].id] == out[k]
        invariant forall id :: id in idMap && id !in left ==> idMap[id] in out
        invariant forall i, j :: 0 <= i < j < |out| ==> out[i].id != out[j].id
        decreases |left|
      {
        ghost var some := Pick(left);
        var key :| key in left;
        out := out + [idMap[key]];
        left := left - {key};
      }
      forall it | it in idMap.Values ensures it in out {
        SomeKeyOf(idMap, it);
        var id :| id in idMap && idMap[id] == it;
      }
    }
  }

  lemma SomeKeyOf(m: map<int, Item>, it: Item)
    requires it in m.Values
    ensures exists id :: id in m && m[id] == it
  {
    if forall id :: id in m ==> m[id] != it {
      assert false;
    }
  }

  // ---------------------------------------------------------------
  // Order pipeline
  // ---------------------------------------------------------------

  /** `SimpleStack<T>`: the top is the last element. */
  class SimpleStack<T> {
    var data: seq<T>

    constructor()
      ensures data == []
    {
      data := [];
    }

    method Push(v: T)
      modifies this
      ensures data == old(data) + [v]
    {
      data := data + [v];
    }

    /** Popping an empty stack does nothing. */
    method Pop()
      modifies this
      ensures old(data) == [] ==> data == []
      ensures old(data) != [] ==> data == old(data)[..|old(data)| - 1]
    {
      if data != [] {
        data := data[..|data| - 1];
      }
    }

    method Top() returns (v: T)
      requires data != []
      ensures v == data[|data| - 1]
    {
      v := data[|data| - 1];
    }

    method Empty() returns (b: bool)
      ensures b <==> data == []
    {
      b := data == [];
    }
  }

  /** `SimpleQueue<T>`: the front is the first element. */
  class SimpleQueue<T> {
    var data: seq<T>

    constructor()
      ensures data == []
    {
      data := [];
    }

    method Push(v: T)
      modifies this
      ensures data == old(data) + [v]
    {
      data := data + [v];
    }

    /** Popping an empty queue does nothing. */
    method Pop()
      modifies this
      ensures old(data) == [] ==> data == []
      ensures old(data) != [] ==> data == old(data)[1..]
    {
      if data != [] {
        data := data[1..];
      }
    }

    method Front() returns (v: T)
      requires data != []
      ensures v == data[0]
    {
      v := data[0];
    }

    method Empty() returns (b: bool)
      ensures b <==> data == []
    {
      b := data == [];
    }
  }

  /** The demand heap, of which the pipeline only uses `push`. */
  class DemandHeap {
    var contents: multiset<Item>

    constructor()
      ensures contents == multiset{}
    {
      contents := multiset{};
    }

    method Push(it: Item)
      modifies this
      ensures contents == old(contents) + multiset{it}
    {
      contents := contents + multiset{it};
    }
  }

  /** What processing a list of orders does to the catalog and what it produces. */
  datatype Outcome = Outcome(items: map<int, Item>, fulfilled: seq<Order>, failed: seq<Order>, pushed: seq<Item>)

  /** The item after selling `qty` units of it. */
  function Sell(it: Item, qty: int): (r: Item)
    ensures r.stock + r.soldToday == it.stock + it.soldToday
    ensures r.id == it.id && r.name == it.name && r.soldToday == it.soldToday + qty
  {
    it.(stock := it.stock - qty, soldToday := it.soldToday + qty)
  }

  /** An order is fulfilled when its item is known and has at least the ordered quantity in stock. */
  predicate Fulfils(items: map<int, Item>, o: Order)
  {
    o.itemId in items && items[o.itemId].stock >= o.qty
  }

  /** Orders in turn: a known item with enough stock is sold, any other order fails. */
  function Process(items: map<int, Item>, orders: seq<Order>): Outcome
  {
    if orders == [] then Outcome(items, [], [], [])
    else
      var o := orders[0];
      if Fulfils(items, o) then
        var sold := Sell(items[o.itemId], o.qty);
        var rest := Process(items[o.itemId := sold], orders[1..]);
        Outcome(rest.items, [o] + rest.fulfilled, rest.failed, [sold] + rest.pushed)
      else
        var rest := Process(items, orders[1..]);
        Outcome(rest.items, rest.fulfilled, [o] + rest.failed, rest.pushed)
  }

  /** Total quantity of the orders for one item. */
  function QtyFor(orders: seq<Order>, id: int): int
  {
    if orders == [] then 0
    else (if orders[0].itemId == id then orders[0].qty else 0) + QtyFor(orders[1..], id)
  }

  /** The per-item effect of processing, stated for one catalog and its processed copy. */
  ghost predicate ItemsAccounted(before: map<int, Item>, after: map<int, Item>, fulfilled: seq<Order>)
  {
    && after.Keys == before.Keys
    && forall id :: id in before ==>
      && after[id].id == before[id].id
      && after[id].name == before[id].name
      && after[id].soldToday == before[id].soldToday + QtyFor(fulfilled, id)
      && after[id].stock + after[id].soldToday == before[id].stock + before[id].soldToday
  }

  /**
   * Processing keeps the set of ids and every item's id and name; each item
   * sells exactly the quantity of its fulfilled orders, which leaves its
   * stock plus sold count unchanged.
   */
  lemma {:induction false} ProcessAccounts(items: map<int, Item>, orders: seq<Order>)
    ensures ItemsAccounted(items, Process(items, orders).items, Process(items, orders).fulfilled)
    decreases |orders|
  {
    if orders != [] {
      var o := orders[0];
      if Fulfils(items, o) {
        var items1 := items[o.itemId := Sell(items[o.itemId], o.qty)];
        ProcessAccounts(items1, orders[1..]);
        var rest := Process(items1, orders[1..]);
        assert ([o] + rest.fulfilled)[1..] == rest.fulfilled;
        assert ([o] + rest.fulfilled)[0] == o;
      } else {
        ProcessAccounts(items, orders[1..]);
      }
    }
  }

  /** No order is fulfilled beyond the stock of its item, so no stock goes negative. */
  lemma {:induction false} ProcessKeepsStock(items: map<int, Item>, orders: seq<Order>)
    requires forall id :: id in items ==> items[id].stock >= 0
    ensures Process(items, orders).items.Keys == items.Keys
    ensures forall id :: id in items ==> Process(items, orders).items[id].stock >= 0
    decreases |orders|
  {
    if orders != [] {
      var o := orders[0];
      if Fulfils(items, o) {
        ProcessKeepsStock(items[o.itemId := Sell(items[o.itemId], o.qty)], orders[1..]);
      } else {
        ProcessKeepsStock(items, orders[1..]);
      }
    }
  }

  lemma {:induction false} ProcessPartitions(items: map<int, Item>, orders: seq<Order>)
    ensures multiset(Process(items, orders).fulfilled) + multiset(Process(items, orders).failed) == multiset(orders)
    decreases |orders|
  {
    if orders != [] {
      var o := orders[0];
      assert orders == [o] + orders[1..];
      if Fulfils(items, o) {
        ProcessPartitions(items[o.itemId := Sell(items[o.itemId], o.qty)], orders[1..]);
      } else {
        ProcessPartitions(items, orders[1..]);
      }
    }
  }

  lemma {:induction false} ProcessPushesPerOrder(items: map<int, Item>, orders: seq<Order>)
    ensures |Process(items, orders).pushed| == |Process(items, orders).fulfilled|
    decreases |orders|
  {
    if orders != [] {
      var o := orders[0];
      if Fulfils(items, o) {
        ProcessPushesPerOrder(items[o.itemId := Sell(items[o.itemId], o.qty)], orders[1..]);
      } else {
        ProcessPushesPerOrder(items, orders[1..]);
      }
    }
  }

  lemma {:induction false} ProcessFulfilledKnown(items: map<int, Item>, orders: seq<Order>)
    ensures forall k :: 0 <= k < |Process(items, orders).fulfilled| ==> Process(items, orders).fulfilled[k].itemId in items
    decreases |orders|
  {
    if orders != [] {
      var o := orders[0];
      if Fulfils(items, o) {
        var items1 := items[o.itemId := Sell(items[o.itemId], o.qty)];
        ProcessFulfilledKnown(items1, orders[1..]);
        assert items1.Keys == items.Keys;
        var f := Process(items, orders).fulfilled;
        assert f == [o] + Process(items1, orders[1..]).fulfilled;
        forall k | 0 <= k < |f| ensures f[k].itemId in items {
          if k > 0 {
            assert f[k] == Process(items1, orders[1..]).fulfilled[k - 1];
          }
        }
      } else {
        ProcessFulfilledKnown(items, orders[1..]);
      }
    }
  }

  /**
   * Every order is either fulfilled or failed, a fulfilled order names a
   * known item, and one updated copy is pushed per fulfilled order.
   */
  lemma ProcessSplitsOrders(items: map<int, Item>, orders: seq<Order>)
    ensures multiset(Process(items, orders).fulfilled) + multiset(Process(items, orders).failed) == multiset(orders)
    ensures |Process(items, orders).pushed| == |Process(items, orders).fulfilled|
    ensures forall k :: 0 <= k < |Process(items, orders).fulfilled| ==> Process(items, orders).fulfilled[k].itemId in items
  {
    ProcessPartitions(items, orders);
    ProcessPushesPerOrder(items, orders);
    ProcessFulfilledKnown(items, orders);
  }

  /** An order for an unknown item always fails. */
  lemma {:induction false} UnknownItemFails(items: map<int, Item>, orders: seq<Order>, o: Order)
    requires o in orders && o.itemId !in items
    ensures o in Process(items, orders).failed
    decreases |orders|
  {
    if orders[0] != o {
      var o0 := orders[0];
      assert o in orders[1..];
      if Fulfils(items, o0) {
        UnknownItemFails(items[o0.itemId := Sell(items[o0.itemId], o0.qty)], orders[1..], o);
      } else {
        UnknownItemFails(items, orders[1..], o);
      }
    }
  }

  /**
   * Loop invariant of `processOrders`: what has been failed and pushed so
   * far, followed by the outcome of the orders still queued, is the
   * outcome of all of them.
   */
  ghost predicate StillToProcess(total: Outcome, failedSoFar: seq<Order>, pushedSoFar: seq<Item>,
                                 items: map<int, Item>, orders: seq<Order>)
  {
    && Process(items, orders).items == total.items
    && failedSoFar + Process(items, orders).failed == total.failed
    && pushedSoFar + Process(items, orders).pushed == total.pushed
  }

  lemma FailStep(total: Outcome, failedSoFar: seq<Order>, pushedSoFar: seq<Item>, items: map<int, Item>, orders: seq<Order>)
    requires StillToProcess(total, failedSoFar, pushedSoFar, items, orders)
    requires orders != [] && !Fulfils(items, orders[0])
    ensures StillToProcess(total, failedSoFar + [orders[0]], pushedSoFar, items, orders[1..])
  {
    var rest := Process(items, orders[1..]);
    assert Process(items, orders).failed == [orders[0]] + rest.failed;
    assert failedSoFar + ([orders[0]] + rest.failed) == failedSoFar + [orders[0]] + rest.failed;
  }

  lemma SellStep(total: Outcome, failedSoFar: seq<Order>, pushedSoFar: seq<Item>, items: map<int, Item>, orders: seq<Order>)
    requires StillToProcess(total, failedSoFar, pushedSoFar, items, orders)
    requires orders != [] && Fulfils(items, orders[0])
    ensures StillToProcess(total, failedSoFar, pushedSoFar + [Sell(items[orders[0].itemId], orders[0].qty)],
                           items[orders[0].itemId := Sell(items[orders[0].itemId], orders[0].qty)], orders[1..])
  {
    var sold := Sell(items[orders[0].itemId], orders[0].qty);
    var rest := Process(items[orders[0].itemId := sold], orders[1..]);
    assert Process(items, orders).pushed == [sold] + rest.pushed;
    assert pushedSoFar + ([sold] + rest.pushed) == pushedSoFar + [sold] + rest.pushed;
  }

  /** A suffix without its first element is a shorter suffix. */
  lemma SuffixTail<T>(s: seq<T>, t: seq<T>)
    requires t != [] && |t| <= |s| && t == s[|s| - |t|..]
    ensures t[1..] == s[|s| - |t[1..]|..]
  {
  }

  /** Moving the front of `i` to the back of `p` keeps their concatenation. */
  lemma MoveFront<T>(p: seq<T>, i: seq<T>)
    requires i != []
    ensures (p + [i[0]]) + i[1..] == p + i
  {
    assert i == [i[0]] + i[1..];
  }

  class OrderManager {
    const incoming: SimpleQueue<Order>
    const processing: SimpleQueue<Order>
    const failed: SimpleStack<Order>
    var nextOrderId: int
    /** Every order placed so far, in call order. */
    ghost var placed: seq<Order>

    ghost predicate Valid()
      reads this, incoming
    {
      && incoming != processing
      && nextOrderId == |placed| + 1
      && (forall k :: 0 <= k < |placed| ==> placed[k].orderId == k + 1)
      && |incoming.data| <= |placed| && incoming.data == placed[|placed| - |incoming.data|..]
    }

    constructor()
      ensures Valid() && fresh(incoming) && fresh(processing) && fresh(failed)
      ensures incoming.data == [] && processing.data == [] && failed.data == [] && nextOrderId == 1
    {
      incoming := new SimpleQueue();
      processing := new SimpleQueue();
      failed := new SimpleStack();
      nextOrderId := 1;
      placed := [];
    }

    /** Order ids are handed out as 1, 2, 3, ... in call order. */
    method PlaceOrder(itemId: int, qty: int, hour: int, customer: string) returns (oid: int)
      requires Valid()
      modifies this, incoming
      ensures Valid()
      ensures oid == old(nextOrderId) && oid == |old(placed)| + 1
      ensures placed == old(placed) + [Order(oid, itemId, qty, hour, customer)]
      ensures incoming.data == old(incoming.data) + [Order(oid, itemId, qty, hour, customer)]
    {
      oid := nextOrderId;
      nextOrderId := nextOrderId + 1;
      var o := Order(oid, itemId, qty, hour, customer);
      incoming.Push(o);
      placed := placed + [o];
      assert incoming.data == placed[|placed| - |incoming.data|..];
    }

    /** One round of the `moveToProcessing` loop: the front incoming order moves to the processing queue. */
    method MoveOne()
      requires Valid() && incoming.data != []
      modifies incoming, processing
      ensures Valid()
      ensures processing.data == old(processing.data) + [old(incoming.data)[0]]
      ensures incoming.data == old(incoming.data)[1..]
    {
      ghost var i0 := incoming.data;
      var o := incoming.Front();
      processing.Push(o);
      incoming.Pop();
      SuffixTail(placed, i0);
    }

    /** All incoming orders join the processing queue in arrival order. */
    method MoveToProcessing()
      requires Valid()
      modifies incoming, processing
      ensures Valid()
      ensures processing.data == old(processing.data) + old(incoming.data) && incoming.data == []
    {
      var empty := incoming.Empty();
      while !empty
        invariant Valid() && (empty <==> incoming.data == [])
        invariant processing.data + incoming.data == old(processing.data) + old(incoming.data)
        decreases |incoming.data|
      {
        ghost var p0, i0 := processing.data, incoming.data;
        MoveOne();
        MoveFront(p0, i0);
        empty := incoming.Empty();
      }
    }

    /** One round of the `processOrders` loop: the front order is fulfilled or fails. */
    method ProcessNext(catalog: ItemCatalog, demandHeap: DemandHeap)
      requires Valid() && catalog.Valid() && processing.data != []
      modifies processing, failed, catalog, demandHeap
      ensures Valid() && catalog.Valid() && catalog.nameToId == old(catalog.nameToId)
      ensures processing.data == old(processing.data)[1..]
      ensures Fulfils(old(catalog.idMap), old(processing.data)[0]) ==>
        && catalog.idMap == old(catalog.idMap)[old(processing.data)[0].itemId :=
                                                 Sell(old(catalog.idMap)[old(processing.data)[0].itemId], old(processing.data)[0].qty)]
        && demandHeap.contents == old(demandHeap.contents) +
                                  multiset{Sell(old(catalog.idMap)[old(processing.data)[0].itemId], old(processing.data)[0].qty)}
        && failed.data == old(failed.data)
      ensures !Fulfils(old(catalog.idMap), old(processing.data)[0]) ==>
        && catalog.idMap == old(catalog.idMap) && demandHeap.contents == old(demandHeap.contents)
        && failed.data == old(failed.data) + [old(processing.data)[0]]
    {
      var o := processing.Front();
      processing.Pop();
      var found := catalog.GetById(o.itemId);
      if found.None? {
        failed.Push(o);
        return;
      }
      var it := found.value;
      if it.stock >= o.qty {
        var sold := Sell(it, o.qty);
        catalog.idMap := catalog.idMap[o.itemId := sold];
        demandHeap.Push(sold);
      } else {
        failed.Push(o);
      }
    }

    /**
     * Every processing order is fulfilled (stock and sold count of its item
     * updated, an updated copy pushed on the demand heap) or pushed on the
     * failed stack; the processing queue ends empty.
     */
    method ProcessOrders(catalog: ItemCatalog, demandHeap: DemandHeap)
      requires Valid() && catalog.Valid()
      modifies processing, failed, catalog, demandHeap
      ensures Valid() && catalog.Valid() && processing.data == []
      ensures catalog.idMap == Process(old(catalog.idMap), old(processing.data)).items
      ensures catalog.nameToId == old(catalog.nameToId)
      ensures failed.data == old(failed.data) + Process(old(catalog.idMap), old(processing.data)).failed
      ensures demandHeap.contents == old(demandHeap.contents) + multiset(Process(old(catalog.idMap), old(processing.data)).pushed)
    {
      ghost var total := Process(catalog.idMap, processing.data);
      ghost var failedSoFar: seq<Order> := [];
      ghost var pushedSoFar: seq<Item> := [];
      while true
        invariant Valid() && catalog.Valid()
        invariant catalog.nameToId == old(catalog.nameToId)
        invariant failed.data == old(failed.data) + failedSoFar
        invariant demandHeap.contents == old(demandHeap.contents) + multiset(pushedSoFar)
        invariant StillToProcess(total, failedSoFar, pushedSoFar, catalog.idMap, processing.data)
        decreases |processing.data|
      {
        var empty := processing.Empty();
        if empty {
          break;
        }
        ghost var orders := processing.data;
        if Fulfils(catalog.idMap, orders[0]) {
          SellStep(total, failedSoFar, pushedSoFar, catalog.idMap, orders);
          pushedSoFar := pushedSoFar + [Sell(catalog.idMap[orders[0].itemId], orders[0].qty)];
        } else {
          FailStep(total, failedSoFar, pushedSoFar, catalog.idMap, orders);
          failedSoFar := failedSoFar + [orders[0]];
        }
        ProcessNext(catalog, demandHeap);
      }
    }
  }

  // ---------------------------------------------------------------
  // Supplier routing
  // ---------------------------------------------------------------

  datatype SupplierEdge = SupplierEdge(to: int, timeCost: int, risk: int)

  /** `INT_MAX / 4` with a 32-bit `int`. */
  const SupplierInf: int := 536870911

  function Routing(g: seq<seq<SupplierEdge>>): (r: WeightedGraphs.Graph)
    ensures |r| == |g| && forall u :: 0 <= u < |g| ==> |r[u]| == |g[u]|
    ensures forall u, i :: 0 <= u < |g| && 0 <= i < |g[u]| ==> r[u][i] == WeightedGraphs.Edge(g[u][i].to, g[u][i].timeCost)
  {
    seq(|g|, u requires 0 <= u < |g| => seq(|g[u]|, i requires 0 <= i < |g[u]| => WeightedGraphs.Edge(g[u][i].to, g[u][i].timeCost)))
  }

  /**
   * `dijkstraShortest`: skips a popped entry whose distance differs from the
   * node's current one and relaxes from the popped distance.
   */
  method DijkstraShortest(g: seq<seq<SupplierEdge>>, src: int) returns (dist: seq<int>)
    requires WeightedGraphs.WellFormed(Routing(g)) && WeightedGraphs.NonNegative(Routing(g)) && 0 <= src < |g|
    ensures WeightedGraphs.CappedShortest(Routing(g), src, SupplierInf, dist) && dist[src] == 0
  {
    dist := Dijkstra.ShortestFrom(Routing(g), src, SupplierInf, Dijkstra.SkipIfUnequal, Dijkstra.FromPopped);
  }
}
