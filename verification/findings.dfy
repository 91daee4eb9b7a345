/** Where matchOrder does not do what matchMustFillOrder counts on, and the
    draining match both of them evidently intend.

    As written, the inner loop of matchOrder reads `currentNode.getNext()`
    after removeNode has unlinked the node, and unlink has already cleared
    `next`: a filled head ends the walk of its level. So at most one order
    per level trades (MatchLevels in module Ladder), while
    matchMustFillOrder accepts the order on the depth of whole levels
    (EligibleTotal). Separately, once the need is met the outer loop goes
    on to the next eligible level and trades 0 with its head, constructing
    a Match of quantity 0. */
module Findings {
  import opened PriceLevel
  import opened Ladder

  // ---------------------------------------------------------------------
  // The code as written: counterexamples
  // ---------------------------------------------------------------------

  /** A level whose first two orders both have quantity left, and an
      order that wants all of it at the level's price: matchOrder as
      written trades only with the head, and the second order is never
      reached. (For instance two ask orders of 5 at price 10 and a buy for
      10 at 10: 5 is traded.) */
  lemma HeadOnlyCounterexample(side: Side, l: Level, aggressor: int, need: int, limit: int)
    requires |l.orders| >= 2 && l.orders[0].Remaining() > 0 && l.orders[1].Remaining() > 0
    requires Eligible(side, l.price, limit) && need >= SumRemaining(l.orders)
    requires forall a :: 0 <= a < |l.orders| ==> l.orders[a].Bounded()
    ensures EligibleTotal(side, [l], limit) == SumRemaining(l.orders) <= need
    ensures MatchLevels(side, [l], aggressor, need, limit).traded == l.orders[0].Remaining() < need
    ensures MatchLevels(side, [l], aggressor, need, limit).levels == [Level(l.price, l.orders[1..])]
  {
    var os := l.orders;
    assert [l][1..] == [];
    assert SumRemaining(os) == os[0].Remaining() + os[1].Remaining() + SumRemaining(os[1..][1..]) by {
      assert os[1..][0] == os[1];
    }
    assert forall a :: 0 <= a < |os[1..][1..]| ==> os[1..][1..][a].Bounded() by {
      forall a | 0 <= a < |os[1..][1..]| ensures os[1..][1..][a].Bounded() { assert os[1..][1..][a] == os[a + 2]; }
    }
    SumRemainingNonNegative(os[1..][1..]);
    FilledHeadStep(l, aggressor, need);
    MatchUnfold(side, [l], aggressor, need, limit);
  }

  /** The head of a level is filled: it goes, and only its trade is made. */
  lemma FilledHeadStep(l: Level, aggressor: int, need: int)
    requires |l.orders| >= 1 && 0 <= l.orders[0].Remaining() <= need
    ensures StepLevel(l, aggressor, need)
              == Outcome(if |l.orders| == 1 then [] else [Level(l.price, l.orders[1..])], l.orders[0].Remaining(),
                         {l.orders[0].id}, [Match(aggressor, l.orders[0].id, l.orders[0].Remaining(), l.price)])
  {
    TradeSpec(aggressor, need, l.orders[0], l.price);
  }

  /** matchMustFillOrder as written accepts such an order, since the
      eligible depth covers it, and then fills only part of it. */
  lemma MustFillPartial(side: Side, l: Level, aggressor: int, quantity: int, limit: int)
    requires |l.orders| >= 2 && l.orders[0].Remaining() > 0 && l.orders[1].Remaining() > 0
    requires Eligible(side, l.price, limit) && quantity == SumRemaining(l.orders)
    requires forall a :: 0 <= a < |l.orders| ==> l.orders[a].Bounded()
    ensures EligibleTotal(side, [l], limit) >= quantity
    ensures MatchLevels(side, [l], aggressor, quantity, limit).traded < quantity
  {
    HeadOnlyCounterexample(side, l, aggressor, quantity, limit);
  }

  /** Two eligible levels and an order that the head of the first fills
      exactly: matchOrder as written still visits the second level and
      records a Match of quantity 0 against its head. (For instance ask
      orders of 5 at 10 and at 11 and a buy for 5 at 11.) */
  lemma ZeroTradeRecord(side: Side, l1: Level, l2: Level, aggressor: int, limit: int)
    requires l1.orders != [] && l2.orders != [] && l1.orders[0].Remaining() > 0 && l2.orders[0].Bounded()
    requires Eligible(side, l1.price, limit) && Eligible(side, l2.price, limit)
    ensures var need := l1.orders[0].Remaining();
            MatchLevels(side, [l1, l2], aggressor, need, limit).records
              == [Match(aggressor, l1.orders[0].id, need, l1.price), Match(aggressor, l2.orders[0].id, 0, l2.price)]
  {
    var ls, need := [l1, l2], l1.orders[0].Remaining();
    assert ls[0] == l1 && ls[1..] == [l2] && [l2][0] == l2 && [l2][1..] == [];
    FilledHeadStep(l1, aggressor, need);
    TradeSpec(aggressor, 0, l2.orders[0], l2.price);
    assert StepLevel(l2, aggressor, 0).records == [Match(aggressor, l2.orders[0].id, 0, l2.price)];
    MatchUnfold(side, [l2], aggressor, 0, limit);
    MatchUnfold(side, ls, aggressor, need, limit);
  }

  // ---------------------------------------------------------------------
  // The evidently intended match
  // ---------------------------------------------------------------------

  /** What draining one level's chain leaves: the orders still resting, the
      quantity traded, the ids filled and the records constructed. */
  datatype Drained = Drained(kept: seq<Order>, traded: int, removed: set<int>, records: seq<Match>)

  /** The inner loop with the successor read before the node is unlinked:
      trade with the orders oldest first until the need is met. */
  function DrainOrders(os: seq<Order>, aggressor: int, need: int, price: int): Drained {
    if os == [] || need == 0 then Drained(os, 0, {}, [])
    else
      var tr := Trade(aggressor, need, os[0], price);
      if tr.order.Remaining() == 0 then
        var rest := DrainOrders(os[1..], aggressor, need - tr.quantity, price);
        Drained(rest.kept, tr.quantity + rest.traded, {os[0].id} + rest.removed, [tr.record] + rest.records)
      else
        Drained(os[0 := tr.order], tr.quantity, {}, [tr.record])
  }

  /** The outer loop, stopping at the first level ranked worse than the
      limit and once the need is met; an emptied level leaves the side. */
  function DrainLevels(side: Side, ls: seq<Level>, aggressor: int, need: int, limit: int): Outcome
    decreases |ls|
  {
    if ls == [] || !Eligible(side, ls[0].price, limit) || need == 0 then Outcome(ls, 0, {}, [])
    else
      var d := DrainOrders(ls[0].orders, aggressor, need, ls[0].price);
      var rest := DrainLevels(side, ls[1..], aggressor, need - d.traded, limit);
      Outcome((if d.kept == [] then [] else [Level(ls[0].price, d.kept)]) + rest.levels,
              d.traded + rest.traded, d.removed + rest.removed, d.records + rest.records)
  }

  /** Draining a chain trades as much as is wanted, or everything the chain
      holds when that is less. */
  lemma {:induction false} DrainOrdersTraded(os: seq<Order>, aggressor: int, need: int, price: int)
    requires need >= 0 && forall a :: 0 <= a < |os| ==> os[a].Bounded()
    ensures DrainOrders(os, aggressor, need, price).traded == Min(need, SumRemaining(os))
  {
    SumRemainingNonNegative(os);
    if os != [] && need != 0 {
      var tr := Trade(aggressor, need, os[0], price);
      TradeSpec(aggressor, need, os[0], price);
      assert forall a :: 0 <= a < |os[1..]| ==> os[1..][a].Bounded() by {
        forall a | 0 <= a < |os[1..]| ensures os[1..][a].Bounded() { assert os[1..][a] == os[a + 1]; }
      }
      SumRemainingNonNegative(os[1..]);
      if tr.order.Remaining() == 0 {
        DrainOrdersTraded(os[1..], aggressor, need - tr.quantity, price);
      }
    }
  }

  /** The draining match trades as much as is wanted, or everything resting
      at eligible prices when that is less. */
  lemma {:induction false} DrainLevelsTraded(side: Side, ls: seq<Level>, aggressor: int, need: int, limit: int)
    requires LevelsOk(ls) && need >= 0
    ensures DrainLevels(side, ls, aggressor, need, limit).traded == Min(need, EligibleTotal(side, ls, limit))
  {
    EligibleTotalNonNegative(side, ls, limit);
    if ls != [] && Eligible(side, ls[0].price, limit) && need != 0 {
      LevelsOkTail(ls);
      DrainOrdersTraded(ls[0].orders, aggressor, need, ls[0].price);
      EligibleTotalNonNegative(side, ls[1..], limit);
      var d := DrainOrders(ls[0].orders, aggressor, need, ls[0].price);
      DrainLevelsTraded(side, ls[1..], aggressor, need - d.traded, limit);
    }
  }

  /** matchMustFillOrder on top of the draining match: refuse and change
      nothing when the eligible depth is short, otherwise drain. */
  function MustFillDraining(side: Side, ls: seq<Level>, aggressor: int, quantity: int, limit: int): (bool, Outcome) {
    if EligibleTotal(side, ls, limit) < quantity then (false, Outcome(ls, 0, {}, []))
    else (true, DrainLevels(side, ls, aggressor, quantity, limit))
  }

  /** With the draining match an accepted must-fill order is filled in
      full, and a refused one trades nothing. */
  lemma MustFillDrainingFills(side: Side, ls: seq<Level>, aggressor: int, quantity: int, limit: int)
    requires LevelsOk(ls) && quantity >= 0
    ensures var (ok, m) := MustFillDraining(side, ls, aggressor, quantity, limit);
            && (ok <==> EligibleTotal(side, ls, limit) >= quantity)
            && (ok ==> m.traded == quantity)
            && (!ok ==> m.levels == ls && m.traded == 0 && m.records == [])
  {
    DrainLevelsTraded(side, ls, aggressor, quantity, limit);
  }

  /** Every record is of a positive quantity. */
  ghost predicate Positive(ms: seq<Match>) {
    forall k :: 0 <= k < |ms| ==> ms[k].quantity > 0
  }

  /** Every order on the side still has quantity left. */
  ghost predicate Live(ls: seq<Level>) {
    forall i, a :: 0 <= i < |ls| && 0 <= a < |ls[i].orders| ==> ls[i].orders[a].Remaining() > 0
  }

  /** Draining a chain of live orders records only trades of positive
      quantity. */
  lemma {:induction false} DrainOrdersPositive(os: seq<Order>, aggressor: int, need: int, price: int)
    requires need >= 0 && forall a :: 0 <= a < |os| ==> os[a].Remaining() > 0
    ensures Positive(DrainOrders(os, aggressor, need, price).records)
  {
    if os != [] && need != 0 {
      var tr := Trade(aggressor, need, os[0], price);
      TradeSpec(aggressor, need, os[0], price);
      if tr.order.Remaining() == 0 {
        assert forall a :: 0 <= a < |os[1..]| ==> os[1..][a].Remaining() > 0 by {
          forall a | 0 <= a < |os[1..]| ensures os[1..][a].Remaining() > 0 { assert os[1..][a] == os[a + 1]; }
        }
        DrainOrdersPositive(os[1..], aggressor, need - tr.quantity, price);
        var rest := DrainOrders(os[1..], aggressor, need - tr.quantity, price);
        PositiveConcat([tr.record], rest.records);
      }
    }
  }

  /** With the draining match no Match of quantity 0 is recorded while every
      resting order has quantity left. */
  lemma {:induction false} DrainLevelsPositive(side: Side, ls: seq<Level>, aggressor: int, need: int, limit: int)
    requires Live(ls) && need >= 0 && LevelsOk(ls)
    ensures Positive(DrainLevels(side, ls, aggressor, need, limit).records)
  {
    if ls != [] && Eligible(side, ls[0].price, limit) && need != 0 {
      LevelsOkTail(ls);
      assert forall a :: 0 <= a < |ls[0].orders| ==> ls[0].orders[a].Remaining() > 0;
      assert Live(ls[1..]) by {
        forall i, a | 0 <= i < |ls[1..]| && 0 <= a < |ls[1..][i].orders|
          ensures ls[1..][i].orders[a].Remaining() > 0
        {
          assert ls[1..][i] == ls[i + 1];
        }
      }
      DrainOrdersPositive(ls[0].orders, aggressor, need, ls[0].price);
      DrainOrdersTraded(ls[0].orders, aggressor, need, ls[0].price);
      var d := DrainOrders(ls[0].orders, aggressor, need, ls[0].price);
      DrainLevelsPositive(side, ls[1..], aggressor, need - d.traded, limit);
      PositiveConcat(d.records, DrainLevels(side, ls[1..], aggressor, need - d.traded, limit).records);
    }
  }

  lemma PositiveConcat(a: seq<Match>, b: seq<Match>)
    requires Positive(a) && Positive(b)
    ensures Positive(a + b)
  {
    forall k | 0 <= k < |a + b| ensures (a + b)[k].quantity > 0 {
      if k >= |a| { assert (a + b)[k] == b[k - |a|]; }
    }
  }
}
