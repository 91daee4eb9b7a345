/** OrderBookSide itself: one side of one instrument's book, updated in
    place. `levels` stands for the linked list `ordersByPrice`, `index` for
    the map `idToNode` (each id mapped to the price of its node, which is
    all that removeOrder reads through it), and the ghost `matches` collects
    the Match objects the side constructs, which the class itself discards. */
module Book {
  import opened PriceLevel
  import opened Ladder

  datatype Option<T> = None | Some(value: T)

  class OrderBookSide {
    const side: Side
    var levels: seq<Level>
    var index: map<int, int>
    ghost var matches: seq<Match>

    ghost predicate Valid()
      reads this
    {
      Wf(side, levels, index)
    }

    /** A side with no orders, ordered by the given comparator. */
    constructor (side: Side)
      ensures Valid()
      ensures this.side == side && levels == [] && index == map[] && matches == []
    {
      this.side := side;
      levels := [];
      index := map[];
      matches := [];
    }

    /** hasOrder: the id rests on this side. */
    function HasOrder(id: int): (b: bool)
      reads this
      ensures Valid() ==> (b <==> id in Ids(levels))
    {
      id in index
    }

    /** addOrder: index the new order, then walk the levels best first; join
        the level at the same price at its tail, or open a level in front of
        the first level the comparator ranks worse, or at the end. */
    method AddOrder(id: int, quantity: int, quantityFilled: int, price: int)
      requires Valid() && !HasOrder(id) && 0 <= quantityFilled <= quantity
      modifies this
      ensures Valid()
      ensures levels == Insert(side, old(levels), Order(id, quantity, quantityFilled), price)
      ensures index == old(index)[id := price] && matches == old(matches)
      ensures Total(levels) == Total(old(levels)) + (quantity - quantityFilled)
    {
      var node := Order(id, quantity, quantityFilled);
      InsertWf(side, levels, index, node, price);
      index := index[id := price];
      ghost var before := levels;
      var i := 0;
      while i < |levels|
        invariant 0 <= i <= |levels| && levels == before
        invariant index == old(index)[id := price] && matches == old(matches)
        invariant Insert(side, before, node, price) == before[..i] + Insert(side, before[i..], node, price)
      {
        var current := levels[i];
        InsertScan(side, before, node, price, i);
        if current.price == price {
          levels := levels[i := Add(current, node)];
          return;
        } else if Compare(side, current.price, price) > 0 {
          levels := levels[..i] + [Level(price, [node])] + levels[i..];
          return;
        }
        i := i + 1;
      }
      InsertScanEnd(side, before, node, price);
      levels := levels + [Level(price, [node])];
    }

    /** removeOrder: take the id out of the index, find the level at the
        order's price, unlink the node, and drop the level once its chain is
        empty. The source asserts that the id is present. */
    method RemoveOrder(id: int) returns (removed: bool)
      requires Valid() && HasOrder(id)
      modifies this
      ensures Valid() && removed
      ensures levels == RemoveFrom(old(levels), id, old(index)[id])
      ensures index == old(index) - {id} && matches == old(matches)
    {
      var price := index[id];
      RemoveWf(side, levels, index, id);
      IdLocated(side, levels, index, id);
      index := index - {id};
      ghost var before := levels;
      var i := 0;
      while i < |levels|
        invariant 0 <= i <= |levels| && levels == before
        invariant index == old(index) - {id} && matches == old(matches)
        invariant forall x :: 0 <= x < i ==> before[x].price != price
        invariant RemoveFrom(before, id, price) == before[..i] + RemoveFrom(before[i..], id, price)
      {
        var current := levels[i];
        RemoveScan(before, id, price, i);
        if current.price == price {
          var shrunk := RemoveNode(current, id);
          if shrunk.orders == [] {
            levels := levels[..i] + levels[i + 1..];
          } else {
            levels := levels[i := shrunk];
          }
          return true;
        }
        i := i + 1;
      }
      assert false;
      return false;
    }

    /** matchOrder: walk the levels best first until one the comparator
        ranks worse than `price`, and walk the chain of each. Returns the
        quantity traded; the book stays well formed and loses exactly that
        much depth. */
    method MatchOrder(id: int, quantity: int, price: int) returns (traded: int)
      requires Valid() && quantity >= 0
      modifies this
      ensures var m := MatchLevels(side, old(levels), id, quantity, price);
              && levels == m.levels && traded == m.traded
              && index == old(index) - m.removed && matches == old(matches) + m.records
      ensures Valid()
      ensures 0 <= traded <= quantity && Total(levels) == Total(old(levels)) - traded
    {
      MatchOutcome(side, levels, index, id, quantity, price, MatchLevels(side, levels, id, quantity, price));
      traded := WalkLevels(id, quantity, price);
    }

    /** matchOrder's outer loop: from the best level, walk the chain of each
        level the comparator does not rank worse than `price`. */
    method WalkLevels(id: int, quantity: int, price: int) returns (traded: int)
      requires LevelsOk(levels)
      modifies this
      ensures var m := MatchLevels(side, old(levels), id, quantity, price);
              && levels == m.levels && traded == m.traded
              && index == old(index) - m.removed && matches == old(matches) + m.records
    {
      ghost var final := Sweep(side, Cursor([], levels, quantity, 0, index, matches), id, price);
      SweepFromStart(side, levels, index, matches, id, quantity, price);
      traded := 0;
      var i := 0;
      assert levels[..0] == [] && levels[0..] == levels;
      while i < |levels|
        invariant i <= |levels| && LevelsOk(levels[i..])
        invariant Sweep(side, Cursor(levels[..i], levels[i..], quantity - traded, traded, index, matches), id, price)
                  == final
        decreases |levels| - i
      {
        if Compare(side, levels[i].price, price) > 0 {
          break;
        }
        var dropped;
        traded, dropped := PassLevel(i, id, quantity, traded);
        if !dropped {
          i := i + 1;
        }
      }
      Reassemble(levels, i);
    }

    /** One pass of matchOrder's outer loop over the level at position i,
        with `tradedBefore` already traded: the cursor that splits the list
        before that level moves past it as Advance says. */
    method PassLevel(i: nat, id: int, quantity: int, tradedBefore: int) returns (traded: int, dropped: bool)
      requires i < |levels| && LevelsOk(levels[i..])
      modifies this
      ensures var next := if dropped then i else i + 1;
              && next <= |levels| && LevelsOk(levels[next..])
              && Cursor(levels[..next], levels[next..], quantity - traded, traded, index, matches)
                 == Advance(Cursor(old(levels)[..i], old(levels)[i..], quantity - tradedBefore, tradedBefore,
                                   old(index), old(matches)), id)
    {
      LevelsOkTail(levels[i..]);
      assert levels[i..][0] == levels[i] && levels[i..][1..] == levels[i + 1..];
      AdvanceSplices(levels, i, quantity - tradedBefore, tradedBefore, index, matches, id);
      traded, dropped := WalkChain(i, id, quantity, tradedBefore);
    }

    /** matchOrder's inner loop over the chain of the level at position i,
        from its head, with `tradedBefore` already traded. Each visit trades
        min(quantity still needed, node's remaining) with the node. A filled
        node leaves the index and its chain, and the level leaves the list
        once its chain is empty; unlinking clears the node's `next`, so the
        walk ends there. An unfilled node means the quantity is met, and the
        walk breaks. Either way it ends after the head, as StepLevel says. */
    method WalkChain(i: nat, id: int, quantity: int, tradedBefore: int) returns (traded: int, dropped: bool)
      requires i < |levels| && levels[i].orders != []
      modifies this
      ensures var step := StepLevel(old(levels)[i], id, quantity - tradedBefore);
              && levels == old(levels)[..i] + step.levels + old(levels)[i + 1..] && (dropped <==> step.levels == [])
              && traded == tradedBefore + step.traded
              && index == old(index) - step.removed && matches == old(matches) + step.records
    {
      ghost var step := StepLevel(levels[i], id, quantity - tradedBefore);
      ghost var before := levels;
      ChainStep(before[i], id, quantity - tradedBefore);
      traded, dropped := tradedBefore, false;
      var current: Option<nat> := Some(0);
      while current.Some?
        invariant current.Some? ==>
                    && current == Some(0) && !dropped && levels == before && traded == tradedBefore
                    && index == old(index) && matches == old(matches)
        invariant current.None? ==>
                    && levels == before[..i] + step.levels + before[i + 1..] && (dropped <==> step.levels == [])
                    && traded == tradedBefore + step.traded
                    && index == old(index) - step.removed && matches == old(matches) + step.records
        decreases if current.Some? then 1 else 0
      {
        var node := levels[i].orders[current.value];
        var q := TradeNode(i, current.value, id, quantity - traded);
        traded := traded + q;
        SpliceAt(before[..i], levels[i], before[i + 1..]);
        var next: Option<nat> := if current.value + 1 < |levels[i].orders| then Some(current.value + 1) else None;
        if levels[i].orders[current.value].Remaining() == 0 {
          index := index - {node.id};
          dropped := UnlinkNode(i, current.value);
          // unlink clears the node's next
          next := None;
        }
        if traded == quantity {
          break;
        }
        current := next;
      }
    }

    /** OrderBookSide.trade with Node.trade, on the node at position a of the
        chain at position i: the node is filled by the quantity trade works
        out (see TradeSpec), the Match is recorded, and that quantity is
        returned. */
    method TradeNode(i: nat, a: nat, id: int, need: int) returns (q: int)
      requires i < |levels| && a < |levels[i].orders|
      modifies this
      ensures var l := old(levels)[i];
              var tr := Trade(id, need, l.orders[a], l.price);
              && q == tr.quantity && index == old(index) && matches == old(matches) + [tr.record]
              && levels == old(levels)[..i] + [l.(orders := l.orders[a := tr.order])] + old(levels)[i + 1..]
    {
      var level := levels[i];
      var tr := Trade(id, need, level.orders[a], level.price);
      matches := matches + [tr.record];
      Spliced(levels, i, level.(orders := level.orders[a := tr.order]));
      levels := levels[i := level.(orders := level.orders[a := tr.order])];
      q := tr.quantity;
    }

    /** OrdersAtPrice.removeNode on the node at position a of the chain at
        position i, then matchOrder's iterator.remove of the level once its
        head is null. Reports whether the level went. */
    method UnlinkNode(i: nat, a: nat) returns (dropped: bool)
      requires i < |levels| && a < |levels[i].orders|
      modifies this
      ensures var l := Unlink(old(levels)[i], a);
              && (dropped <==> l.orders == []) && index == old(index) && matches == old(matches)
              && levels == old(levels)[..i] + (if dropped then [] else [l]) + old(levels)[i + 1..]
    {
      var level := Unlink(levels[i], a);
      if level.orders == [] {
        levels := levels[..i] + levels[i + 1..];
        dropped := true;
      } else {
        Spliced(levels, i, level);
        levels := levels[i := level];
        dropped := false;
      }
    }

    /** matchMustFillOrder: add up the remaining quantity of the levels the
        order may trade with, stopping at the first level ranked worse than
        `price` or once the sum reaches `quantity`; refuse the order when the
        sum falls short, otherwise run matchOrder and report success. */
    method MatchMustFillOrder(id: int, quantity: int, price: int) returns (ok: bool)
      requires Valid() && quantity >= 0
      modifies this
      ensures Valid()
      ensures ok <==> EligibleTotal(side, old(levels), price) >= quantity
      ensures !ok ==> levels == old(levels) && index == old(index) && matches == old(matches)
      ensures ok ==> var m := MatchLevels(side, old(levels), id, quantity, price);
                     && levels == m.levels && index == old(index) - m.removed && matches == old(matches) + m.records
    {
      var fillable := 0;
      var j := 0;
      assert levels[0..] == levels;
      while j < |levels|
        invariant 0 <= j <= |levels|
        invariant fillable + EligibleTotal(side, levels[j..], price) == EligibleTotal(side, levels, price)
      {
        var level := levels[j];
        if Compare(side, level.price, price) > 0 {
          break;
        }
        assert levels[j..][1..] == levels[j + 1..];
        var a := 0;
        ghost var start := fillable;
        while a < |level.orders|
          invariant 0 <= a <= |level.orders|
          invariant fillable + SumRemaining(level.orders[a..]) == start + SumRemaining(level.orders)
        {
          assert level.orders[a..][1..] == level.orders[a + 1..];
          fillable := fillable + level.orders[a].Remaining();
          a := a + 1;
        }
        j := j + 1;
        if fillable >= quantity {
          LevelsOkSuffix(levels, j);
          EligibleTotalNonNegative(side, levels[j..], price);
          break;
        }
      }
      if fillable < quantity {
        return false;
      }
      var traded := MatchOrder(id, quantity, price);
      return true;
    }

    /** getFiveBestOrdersAndQuantitiesList: the prices of the (at most) five
        best levels, best first, with the remaining quantity resting at
        each. */
    method GetFiveBestOrdersAndQuantitiesList() returns (prices: seq<int>, quantities: seq<int>)
      ensures |prices| == |quantities| == Min(|levels|, 5)
      ensures forall x :: 0 <= x < |prices| ==>
                prices[x] == levels[x].price && quantities[x] == SumRemaining(levels[x].orders)
      ensures Valid() ==> forall x, y :: 0 <= x < |prices| && x < y < |levels| ==>
                            Compare(side, prices[x], levels[y].price) < 0
      ensures Valid() ==> forall x :: 0 <= x < |quantities| ==> quantities[x] >= 0
    {
      prices, quantities := [], [];
      var i := 0;
      while i < Min(|levels|, 5)
        invariant 0 <= i <= Min(|levels|, 5) && |prices| == |quantities| == i
        invariant forall x :: 0 <= x < i ==>
                    prices[x] == levels[x].price && quantities[x] == SumRemaining(levels[x].orders)
      {
        var level := levels[i];
        var total := GetTotalBuyQuantity(level);
        prices := prices + [level.price];
        quantities := quantities + [total];
        i := i + 1;
      }
      if Valid() {
        SortedPairwise(side, levels);
        LevelsOkAt(levels);
        forall x | 0 <= x < |quantities| ensures quantities[x] >= 0 {
          assert LevelOk(levels[x]);
          SumRemainingNonNegative(levels[x].orders);
        }
      }
    }
  }

  /** Sequence bookkeeping for the loops above. */
  lemma Reassemble(ls: seq<Level>, i: nat)
    requires i <= |ls|
    ensures ls[..i] + ls[i..] == ls
  {
  }

  lemma Spliced(ls: seq<Level>, i: nat, l: Level)
    requires i < |ls|
    ensures ls[i := l] == ls[..i] + [l] + ls[i + 1..]
  {
  }

  lemma SpliceAt(a: seq<Level>, l: Level, c: seq<Level>)
    ensures var s := a + [l] + c;
            s[..|a|] == a && s[|a|] == l && s[|a| + 1..] == c
  {
  }

  lemma {:induction false} LevelsOkSuffix(ls: seq<Level>, j: nat)
    requires LevelsOk(ls) && j <= |ls|
    ensures LevelsOk(ls[j..])
  {
    if j > 0 {
      LevelsOkTail(ls);
      LevelsOkSuffix(ls[1..], j - 1);
      assert ls[1..][j - 1..] == ls[j..];
    }
  }
}
