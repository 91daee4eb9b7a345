/** Resting orders and the FIFO queue of orders that share one price
    (the `Node` and `OrdersAtPrice` inner classes of OrderBookSide).
    The intrusive doubly-linked chain of a level is modelled by the sequence
    of its nodes in arrival order: head first, tail last. */
module PriceLevel {

  function Min(a: int, b: int): int { if a <= b then a else b }

  /** A resting order. `quantity` is the original size, `filled` how much of
      it has traded so far. */
  datatype Order = Order(id: int, quantity: int, filled: int) {
    /** Node.getQuantityRemaining */
    function Remaining(): int { quantity - filled }

    /** The bounds every resting order keeps. */
    predicate Bounded() { 0 <= filled <= quantity }
  }

  /** One execution against a resting order, as `new Match(...)` records it
      (the timestamp is left out). */
  datatype Match = Match(aggressor: int, resting: int, quantity: int, price: int)

  /** The orders resting at one price, oldest first. */
  datatype Level = Level(price: int, orders: seq<Order>)

  /** Ids of a queue of orders. */
  function OrderIds(os: seq<Order>): (ids: set<int>)
    ensures forall a :: 0 <= a < |os| ==> os[a].id in ids
  {
    if os == [] then {} else {os[0].id} + OrderIds(os[1..])
  }

  /** No two orders of the queue share an id. */
  predicate Distinct(os: seq<Order>) {
    os == [] || (os[0].id !in OrderIds(os[1..]) && Distinct(os[1..]))
  }

  /** Sum of remaining quantities over a queue. */
  function SumRemaining(os: seq<Order>): int {
    if os == [] then 0 else os[0].Remaining() + SumRemaining(os[1..])
  }

  /** A level as the book keeps it: non-empty, every order within its bounds,
      ids unique. */
  predicate LevelOk(l: Level) {
    |l.orders| > 0 && Distinct(l.orders) && forall a :: 0 <= a < |l.orders| ==> l.orders[a].Bounded()
  }

  /** The result of one call of OrderBookSide.trade: the quantity traded, the
      resting order after Node.trade, and the Match it constructs. */
  datatype TradeResult = TradeResult(quantity: int, order: Order, record: Match)

  /** OrderBookSide.trade: trade `min(need, remaining)` with `current`. */
  function Trade(aggressor: int, need: int, current: Order, price: int): TradeResult
  {
    var q := Min(need, current.Remaining());
    TradeResult(q, current.(filled := current.filled + q), Match(aggressor, current.id, q, price))
  }

  /** trade fills the resting order by the quantity it reports, at most what
      is still needed and at most what the order has left; the order is
      filled completely exactly when it had no more left than was needed,
      and otherwise the whole need was traded. */
  lemma TradeSpec(aggressor: int, need: int, current: Order, price: int)
    ensures var r := Trade(aggressor, need, current, price);
            && r.order.id == current.id && r.order.quantity == current.quantity
            && r.order.Remaining() == current.Remaining() - r.quantity
            && r.record == Match(aggressor, current.id, r.quantity, price)
            && (0 <= need && 0 <= current.Remaining() ==>
                  0 <= r.quantity <= need && r.quantity <= current.Remaining())
            && (r.order.Remaining() == 0 <==> current.Remaining() <= need)
            && (r.order.Remaining() != 0 ==> r.quantity == need)
            && (0 <= need && current.Bounded() ==> r.order.Bounded())
  {
  }

  /** OrdersAtPrice.add: append at the tail. */
  function Add(l: Level, o: Order): Level {
    Level(l.price, l.orders + [o])
  }

  /** OrdersAtPrice.removeNode together with Node.unlink, for the node at
      position `a` of the chain: its neighbours are joined, and head or tail
      move past it when it was at an end. The others keep their order. */
  function Unlink(l: Level, a: nat): Level
    requires a < |l.orders|
  {
    Level(l.price, l.orders[..a] + l.orders[a + 1..])
  }

  /** unlink keeps the price and the other nodes, in their order. */
  lemma UnlinkSpec(l: Level, a: nat)
    requires a < |l.orders|
    ensures var r := Unlink(l, a);
            && r.price == l.price && |r.orders| == |l.orders| - 1
            && forall x :: 0 <= x < |r.orders| ==> r.orders[x] == l.orders[if x < a then x else x + 1]
  {
  }

  /** removeOrder's use of removeNode: the node idToNode holds for this id
      leaves the chain and its neighbours are joined. */
  function RemoveNode(l: Level, id: int): Level {
    Level(l.price, Without(l.orders, id))
  }

  function Without(os: seq<Order>, id: int): seq<Order> {
    if os == [] then []
    else if os[0].id == id then Without(os[1..], id)
    else [os[0]] + Without(os[1..], id)
  }

  /** Position of the order with this id in the queue. */
  function IndexOf(os: seq<Order>, id: int): (a: nat)
    requires id in OrderIds(os)
    ensures a < |os| && os[a].id == id
  {
    if os[0].id == id then 0 else 1 + IndexOf(os[1..], id)
  }

  lemma {:induction false} OrderIdsConcat(a: seq<Order>, b: seq<Order>)
    ensures OrderIds(a + b) == OrderIds(a) + OrderIds(b)
  {
    if a != [] {
      assert (a + b)[1..] == a[1..] + b;
      OrderIdsConcat(a[1..], b);
    } else {
      assert a + b == b;
    }
  }

  lemma {:induction false} OrderIdsMember(os: seq<Order>, id: int)
    requires id in OrderIds(os)
    ensures exists a :: 0 <= a < |os| && os[a].id == id
  {
    var a := IndexOf(os, id);
  }

  lemma {:induction false} SumRemainingConcat(a: seq<Order>, b: seq<Order>)
    ensures SumRemaining(a + b) == SumRemaining(a) + SumRemaining(b)
  {
    if a != [] {
      assert (a + b)[1..] == a[1..] + b;
      SumRemainingConcat(a[1..], b);
    } else {
      assert a + b == b;
    }
  }

  /** A level's depth is never negative while its orders are within bounds. */
  lemma {:induction false} SumRemainingNonNegative(os: seq<Order>)
    requires forall a :: 0 <= a < |os| ==> os[a].Bounded()
    ensures SumRemaining(os) >= 0
  {
    if os != [] {
      SumRemainingNonNegative(os[1..]);
    }
  }

  /** Removing an id that is not in the queue changes nothing. */
  lemma {:induction false} WithoutAbsent(os: seq<Order>, id: int)
    requires id !in OrderIds(os)
    ensures Without(os, id) == os
  {
    if os != [] {
      WithoutAbsent(os[1..], id);
    }
  }

  /** removeNode deletes exactly the node at the id's position and keeps the
      arrival order of the others; its ids, distinctness and depth follow. */
  lemma RemoveNodeExact(l: Level, id: int)
    requires Distinct(l.orders) && id in OrderIds(l.orders)
    ensures var a := IndexOf(l.orders, id);
            RemoveNode(l, id) == Level(l.price, l.orders[..a] + l.orders[a + 1..])
    ensures OrderIds(RemoveNode(l, id).orders) == OrderIds(l.orders) - {id}
    ensures Distinct(RemoveNode(l, id).orders)
    ensures SumRemaining(RemoveNode(l, id).orders)
              == SumRemaining(l.orders) - l.orders[IndexOf(l.orders, id)].Remaining()
    ensures var a, r := IndexOf(l.orders, id), RemoveNode(l, id).orders;
            forall x :: 0 <= x < |r| ==> r[x] == l.orders[if x < a then x else x + 1]
    ensures LevelOk(l) && |l.orders| > 1 ==> LevelOk(RemoveNode(l, id))
  {
    WithoutSplices(l.orders, id);
    WithoutIds(l.orders, id);
    WithoutDistinct(l.orders, id);
    WithoutSum(l.orders, id);
    var a, r := IndexOf(l.orders, id), RemoveNode(l, id).orders;
    forall x | 0 <= x < |r| ensures r[x] == l.orders[if x < a then x else x + 1] {
    }
    if LevelOk(l) && |l.orders| > 1 {
      forall x | 0 <= x < |r| ensures r[x].Bounded() {
        assert r[x] == l.orders[if x < a then x else x + 1];
      }
    }
  }

  /** Without cuts the queue at the (unique) position of the id. */
  lemma {:induction false} WithoutSplices(os: seq<Order>, id: int)
    requires Distinct(os) && id in OrderIds(os)
    ensures var a := IndexOf(os, id);
            Without(os, id) == os[..a] + os[a + 1..]
  {
    if os[0].id == id {
      WithoutAbsent(os[1..], id);
      assert os[..0] + os[1..] == os[1..];
    } else {
      WithoutSplices(os[1..], id);
      var a := IndexOf(os[1..], id);
      assert os[..a + 1] + os[a + 2..] == [os[0]] + (os[1..][..a] + os[1..][a + 1..]);
    }
  }

  /** Without takes exactly that id out of the queue's ids. */
  lemma {:induction false} WithoutIds(os: seq<Order>, id: int)
    ensures OrderIds(Without(os, id)) == OrderIds(os) - {id}
  {
    if os != [] {
      WithoutIds(os[1..], id);
      if os[0].id != id {
        assert Without(os, id)[1..] == Without(os[1..], id);
      }
    }
  }

  /** Without keeps the ids of a queue distinct. */
  lemma {:induction false} WithoutDistinct(os: seq<Order>, id: int)
    requires Distinct(os)
    ensures Distinct(Without(os, id))
  {
    if os != [] {
      WithoutDistinct(os[1..], id);
      WithoutIds(os[1..], id);
      if os[0].id != id {
        assert Without(os, id)[1..] == Without(os[1..], id);
      }
    }
  }

  /** Without lowers the depth by the remaining quantity of the one order it
      takes out. */
  lemma {:induction false} WithoutSum(os: seq<Order>, id: int)
    requires Distinct(os) && id in OrderIds(os)
    ensures SumRemaining(Without(os, id)) == SumRemaining(os) - os[IndexOf(os, id)].Remaining()
  {
    if os[0].id == id {
      WithoutAbsent(os[1..], id);
    } else {
      WithoutSum(os[1..], id);
      assert Without(os, id)[1..] == Without(os[1..], id);
    }
  }

  /** add keeps the level's queue valid when the id is fresh, puts the new
      order last, and adds its remaining quantity to the level's depth. */
  lemma AddAppendsToTail(l: Level, o: Order)
    requires LevelOk(l) && o.Bounded() && o.id !in OrderIds(l.orders)
    ensures LevelOk(Add(l, o)) && Add(l, o).price == l.price
    ensures Add(l, o).orders[..|l.orders|] == l.orders && Add(l, o).orders[|l.orders|] == o
    ensures OrderIds(Add(l, o).orders) == OrderIds(l.orders) + {o.id}
    ensures SumRemaining(Add(l, o).orders) == SumRemaining(l.orders) + o.Remaining()
  {
    OrderIdsConcat(l.orders, [o]);
    SumRemainingConcat(l.orders, [o]);
    DistinctSnoc(l.orders, o);
  }

  lemma {:induction false} DistinctSnoc(os: seq<Order>, o: Order)
    requires Distinct(os) && o.id !in OrderIds(os)
    ensures Distinct(os + [o])
  {
    if os != [] {
      assert (os + [o])[1..] == os[1..] + [o];
      DistinctSnoc(os[1..], o);
      OrderIdsConcat(os[1..], [o]);
    } else {
      assert os + [o] == [o];
    }
  }

  /** OrdersAtPrice.getTotalBuyQuantity: walk the chain from the head and
      sum the remaining quantities. */
  method GetTotalBuyQuantity(l: Level) returns (total: int)
    ensures total == SumRemaining(l.orders)
    ensures (forall a :: 0 <= a < |l.orders| ==> l.orders[a].Bounded()) ==> total >= 0
  {
    total := 0;
    var k := 0;
    while k < |l.orders|
      invariant 0 <= k <= |l.orders|
      invariant total + SumRemaining(l.orders[k..]) == SumRemaining(l.orders)
    {
      assert l.orders[k..][1..] == l.orders[k + 1..];
      total := total + l.orders[k].Remaining();
      k := k + 1;
    }
    if forall a :: 0 <= a < |l.orders| ==> l.orders[a].Bounded() {
      SumRemainingNonNegative(l.orders);
    }
  }
}
