/** One side of the book as a value: the sequence of price levels, best price
    first, and the functions that say what OrderBookSide's operations do to
    it. The class in module Book is proved against these functions; the
    lemmas here state what the operations promise. */
module Ladder {
  import opened PriceLevel

  /** The injected Comparator<Long>: natural order on the ask side (lowest
      price is best), reverse order on the bid side (highest price is best).
      Like Long.compare it answers -1, 0 or 1; a negative answer means the
      first price ranks better. */
  datatype Side = Bid | Ask

  function Compare(side: Side, a: int, b: int): (c: int)
    ensures -1 <= c <= 1
    ensures c == 0 <==> a == b
    ensures c < 0 <==> (if side == Ask then a < b else a > b)
  {
    match side
    case Ask => if a < b then -1 else if a == b then 0 else 1
    case Bid => if a > b then -1 else if a == b then 0 else 1
  }

  /** A level may trade against a limit price unless the comparator ranks it
      worse than the limit. */
  predicate Eligible(side: Side, levelPrice: int, limit: int) {
    Compare(side, levelPrice, limit) <= 0
  }

  // ---------------------------------------------------------------------
  // The invariant of a side
  // ---------------------------------------------------------------------

  /** Level prices strictly ordered by the comparator, hence unique: each
      level ranks better than every level after it. */
  ghost predicate Sorted(side: Side, ls: seq<Level>) {
    ls == [] || (BetterThanAll(side, ls[0].price, ls[1..]) && Sorted(side, ls[1..]))
  }

  /** Every level of `ls` ranks strictly worse than price `q`. */
  ghost predicate BetterThanAll(side: Side, q: int, ls: seq<Level>) {
    forall j :: 0 <= j < |ls| ==> Compare(side, q, ls[j].price) < 0
  }

  /** Every level non-empty, bounded and free of duplicate ids. */
  ghost predicate LevelsOk(ls: seq<Level>) {
    ls == [] || (LevelOk(ls[0]) && LevelsOk(ls[1..]))
  }

  /** Ids of all resting orders of the side. */
  function Ids(ls: seq<Level>): set<int> {
    if ls == [] then {} else OrderIds(ls[0].orders) + Ids(ls[1..])
  }

  /** No id rests twice on the side. */
  ghost predicate DistinctIds(ls: seq<Level>) {
    ls == [] || (OrderIds(ls[0].orders) !! Ids(ls[1..]) && DistinctIds(ls[1..]))
  }

  /** The index entry of every order names the price of the level it rests at. */
  ghost predicate LevelPriced(l: Level, index: map<int, int>) {
    forall a :: 0 <= a < |l.orders| ==> l.orders[a].id in index && index[l.orders[a].id] == l.price
  }

  ghost predicate Priced(ls: seq<Level>, index: map<int, int>) {
    ls == [] || (LevelPriced(ls[0], index) && Priced(ls[1..], index))
  }

  ghost predicate Shape(side: Side, ls: seq<Level>) {
    Sorted(side, ls) && LevelsOk(ls) && DistinctIds(ls)
  }

  /** The whole invariant of OrderBookSide: sorted unique non-empty levels,
      bounded orders, and an id index whose keys are exactly the resting ids,
      each mapped to the price of the level that holds it. */
  ghost predicate Wf(side: Side, ls: seq<Level>, index: map<int, int>) {
    Shape(side, ls) && Priced(ls, index) && index.Keys == Ids(ls)
  }

  /** Remaining quantity resting on the side. */
  function Total(ls: seq<Level>): int {
    if ls == [] then 0 else SumRemaining(ls[0].orders) + Total(ls[1..])
  }

  /** Position of the level with price `p`, or |ls| when there is none. */
  function LevelAt(ls: seq<Level>, p: int): (j: nat)
    ensures j <= |ls|
    ensures j < |ls| ==> ls[j].price == p
  {
    if ls == [] then 0 else if ls[0].price == p then 0 else 1 + LevelAt(ls[1..], p)
  }

  /** Position of the first level the comparator ranks worse than `p`, or |ls|. */
  function WorseAt(side: Side, ls: seq<Level>, p: int): (k: nat)
    ensures k <= |ls|
    ensures k < |ls| ==> Compare(side, ls[k].price, p) > 0
  {
    if ls == [] then 0
    else if Compare(side, ls[0].price, p) > 0 then 0
    else 1 + WorseAt(side, ls[1..], p)
  }

  // ---------------------------------------------------------------------
  // Facts about the invariant
  // ---------------------------------------------------------------------

  lemma SortedCons(side: Side, ls: seq<Level>)
    requires ls != []
    ensures Sorted(side, ls) <==> BetterThanAll(side, ls[0].price, ls[1..]) && Sorted(side, ls[1..])
  {
  }

  /** Sorted says of every pair of levels that the earlier one ranks better. */
  lemma {:induction false} SortedPairwise(side: Side, ls: seq<Level>)
    ensures Sorted(side, ls) <==> forall i, j :: 0 <= i < j < |ls| ==> Compare(side, ls[i].price, ls[j].price) < 0
  {
    if ls != [] {
      SortedPairwise(side, ls[1..]);
      if Sorted(side, ls) {
        forall i, j | 0 <= i < j < |ls| ensures Compare(side, ls[i].price, ls[j].price) < 0 {
          assert ls[j] == ls[1..][j - 1];
          if i > 0 {
            assert ls[i] == ls[1..][i - 1];
          }
        }
      }
      if forall i, j :: 0 <= i < j < |ls| ==> Compare(side, ls[i].price, ls[j].price) < 0 {
        forall j | 0 <= j < |ls[1..]| ensures Compare(side, ls[0].price, ls[1..][j].price) < 0 {
          assert ls[1..][j] == ls[j + 1];
        }
        forall i, j | 0 <= i < j < |ls[1..]| ensures Compare(side, ls[1..][i].price, ls[1..][j].price) < 0 {
          assert ls[1..][i] == ls[i + 1] && ls[1..][j] == ls[j + 1];
        }
      }
    }
  }

  lemma {:induction false} IdsConcat(a: seq<Level>, b: seq<Level>)
    ensures Ids(a + b) == Ids(a) + Ids(b)
  {
    if a != [] {
      assert (a + b)[1..] == a[1..] + b;
      IdsConcat(a[1..], b);
    } else {
      assert a + b == b;
    }
  }

  lemma {:induction false} TotalConcat(a: seq<Level>, b: seq<Level>)
    ensures Total(a + b) == Total(a) + Total(b)
  {
    if a != [] {
      assert (a + b)[1..] == a[1..] + b;
      TotalConcat(a[1..], b);
    } else {
      assert a + b == b;
    }
  }

  /** Every order of every level is among the side's ids. */
  lemma {:induction false} IdsContain(ls: seq<Level>, i: nat)
    requires i < |ls|
    ensures OrderIds(ls[i].orders) <= Ids(ls)
  {
    if i > 0 {
      IdsContain(ls[1..], i - 1);
    }
  }

  /** The index leads to the level that holds the order. */
  lemma {:induction false} IdLocated(side: Side, ls: seq<Level>, index: map<int, int>, id: int)
    requires Sorted(side, ls) && Priced(ls, index) && id in Ids(ls)
    ensures id in index
    ensures LevelAt(ls, index[id]) < |ls| && id in OrderIds(ls[LevelAt(ls, index[id])].orders)
  {
    SortedCons(side, ls);
    if id in OrderIds(ls[0].orders) {
      var a := IndexOf(ls[0].orders, id);
      assert LevelPriced(ls[0], index);
    } else {
      IdLocated(side, ls[1..], index, id);
      var j := LevelAt(ls[1..], index[id]);
      assert ls[0].price != index[id] by {
        assert Compare(side, ls[0].price, ls[1..][j].price) < 0;
      }
    }
  }

  /** Updating or dropping index entries of ids that do not rest on the side
      keeps the index consistent with the levels. */
  lemma {:induction false} PricedOutside(ls: seq<Level>, index: map<int, int>, index': map<int, int>)
    requires Priced(ls, index)
    requires forall id :: id in Ids(ls) ==> id in index && id in index' && index'[id] == index[id]
    ensures Priced(ls, index')
  {
    if ls != [] {
      PricedOutside(ls[1..], index, index');
    }
  }

  lemma LevelsOkTail(ls: seq<Level>)
    requires ls != [] && LevelsOk(ls)
    ensures LevelOk(ls[0]) && LevelsOk(ls[1..])
  {
  }

  lemma LevelsOkCons(ls: seq<Level>)
    requires ls != [] && LevelOk(ls[0]) && LevelsOk(ls[1..])
    ensures LevelsOk(ls)
  {
  }

  /** LevelsOk says of every level of the side that it is well formed. */
  lemma {:induction false} LevelsOkAt(ls: seq<Level>)
    ensures LevelsOk(ls) <==> forall i :: 0 <= i < |ls| ==> LevelOk(ls[i])
  {
    if ls != [] {
      LevelsOkAt(ls[1..]);
      if forall i :: 0 <= i < |ls| ==> LevelOk(ls[i]) {
        forall i | 0 <= i < |ls[1..]| ensures LevelOk(ls[1..][i]) { assert ls[1..][i] == ls[i + 1]; }
      }
      if LevelsOk(ls) {
        forall i | 0 < i < |ls| ensures LevelOk(ls[i]) { assert ls[i] == ls[1..][i - 1]; }
      }
    }
  }

  /** Priced says of every level that the index maps its ids to its price. */
  lemma {:induction false} PricedAt(ls: seq<Level>, index: map<int, int>)
    ensures Priced(ls, index) <==> forall i :: 0 <= i < |ls| ==> LevelPriced(ls[i], index)
  {
    if ls != [] {
      PricedAt(ls[1..], index);
      if forall i :: 0 <= i < |ls| ==> LevelPriced(ls[i], index) {
        forall i | 0 <= i < |ls[1..]| ensures LevelPriced(ls[1..][i], index) { assert ls[1..][i] == ls[i + 1]; }
      }
      if Priced(ls, index) {
        forall i | 0 < i < |ls| ensures LevelPriced(ls[i], index) { assert ls[i] == ls[1..][i - 1]; }
      }
    }
  }

  lemma PricedTail(ls: seq<Level>, index: map<int, int>)
    requires ls != [] && Priced(ls, index)
    ensures LevelPriced(ls[0], index) && Priced(ls[1..], index)
  {
  }

  lemma PricedCons(ls: seq<Level>, index: map<int, int>)
    requires ls != [] && LevelPriced(ls[0], index) && Priced(ls[1..], index)
    ensures Priced(ls, index)
  {
  }

  // ---------------------------------------------------------------------
  // addOrder
  // ---------------------------------------------------------------------

  /** addOrder's scan: join the level with the same price, or open a new
      level in front of the first level the comparator ranks worse, or at
      the end. */
  function Insert(side: Side, ls: seq<Level>, o: Order, p: int): seq<Level> {
    if ls == [] then [Level(p, [o])]
    else if ls[0].price == p then [Add(ls[0], o)] + ls[1..]
    else if Compare(side, ls[0].price, p) > 0 then [Level(p, [o])] + ls
    else [ls[0]] + Insert(side, ls[1..], o, p)
  }

  /** One step of addOrder's scan, stated on the sequence: with the levels
      before position i already passed, the level at i is joined, is
      preceded by the new level, or is passed too. */
  lemma InsertScan(side: Side, ls: seq<Level>, o: Order, p: int, i: nat)
    requires i < |ls|
    ensures ls[i].price == p ==>
              ls[..i] + Insert(side, ls[i..], o, p) == ls[i := Add(ls[i], o)]
    ensures ls[i].price != p && Compare(side, ls[i].price, p) > 0 ==>
              ls[..i] + Insert(side, ls[i..], o, p) == ls[..i] + [Level(p, [o])] + ls[i..]
    ensures ls[i].price != p && Compare(side, ls[i].price, p) <= 0 ==>
              ls[..i] + Insert(side, ls[i..], o, p) == ls[..i + 1] + Insert(side, ls[i + 1..], o, p)
  {
    assert ls[i..][0] == ls[i] && ls[i..][1..] == ls[i + 1..];
    assert ls[..i + 1] == ls[..i] + [ls[i]];
    if ls[i].price == p {
      assert ls[i := Add(ls[i], o)] == ls[..i] + [Add(ls[i], o)] + ls[i + 1..];
    }
  }

  /** addOrder's scan ends past the last level: the new level goes last. */
  lemma InsertScanEnd(side: Side, ls: seq<Level>, o: Order, p: int)
    ensures ls[..|ls|] + Insert(side, ls[|ls|..], o, p) == ls + [Level(p, [o])]
  {
    assert ls[..|ls|] == ls && ls[|ls|..] == [];
  }

  lemma {:induction false} InsertBetter(side: Side, q: int, ls: seq<Level>, o: Order, p: int)
    requires BetterThanAll(side, q, ls) && Compare(side, q, p) < 0
    ensures BetterThanAll(side, q, Insert(side, ls, o, p))
  {
    if ls != [] && ls[0].price != p && Compare(side, ls[0].price, p) <= 0 {
      InsertBetter(side, q, ls[1..], o, p);
    }
  }

  /** addOrder keeps the level prices strictly ordered and unique. */
  lemma {:induction false} InsertSorted(side: Side, ls: seq<Level>, o: Order, p: int)
    requires Sorted(side, ls)
    ensures Sorted(side, Insert(side, ls, o, p))
  {
    if ls != [] {
      SortedCons(side, ls);
      var r := Insert(side, ls, o, p);
      if ls[0].price == p {
        assert r[1..] == ls[1..];
      } else if Compare(side, ls[0].price, p) > 0 {
        assert r[1..] == ls;
        assert BetterThanAll(side, p, ls) by {
          forall j | 0 <= j < |ls| ensures Compare(side, p, ls[j].price) < 0 {
            if j > 0 { assert ls[j] == ls[1..][j - 1]; }
          }
        }
      } else {
        InsertSorted(side, ls[1..], o, p);
        InsertBetter(side, ls[0].price, ls[1..], o, p);
        assert r[1..] == Insert(side, ls[1..], o, p);
      }
      SortedCons(side, r);
    }
  }

  /** addOrder with a fresh id adds exactly that id to the side and keeps
      every level non-empty, bounded and free of duplicate ids. */
  lemma {:induction false} InsertIds(side: Side, ls: seq<Level>, o: Order, p: int)
    requires LevelsOk(ls) && DistinctIds(ls) && o.Bounded() && o.id !in Ids(ls)
    ensures LevelsOk(Insert(side, ls, o, p)) && DistinctIds(Insert(side, ls, o, p))
    ensures Ids(Insert(side, ls, o, p)) == Ids(ls) + {o.id}
  {
    if ls != [] && ls[0].price != p && Compare(side, ls[0].price, p) <= 0 {
      LevelsOkTail(ls);
      InsertIds(side, ls[1..], o, p);
      PassedInsertIds(ls[0], o, ls[1..], Insert(side, ls[1..], o, p));
    } else {
      InsertHereIds(side, ls, o, p);
    }
  }

  /** The cases of InsertIds where the scan stops: the order joins the
      first level or a new level opens in front of it. */
  lemma InsertHereIds(side: Side, ls: seq<Level>, o: Order, p: int)
    requires LevelsOk(ls) && DistinctIds(ls) && o.Bounded() && o.id !in Ids(ls)
    requires ls == [] || ls[0].price == p || Compare(side, ls[0].price, p) > 0
    ensures LevelsOk(Insert(side, ls, o, p)) && DistinctIds(Insert(side, ls, o, p))
    ensures Ids(Insert(side, ls, o, p)) == Ids(ls) + {o.id}
  {
    var r := Insert(side, ls, o, p);
    var single := Level(p, [o]);
    assert [o][1..] == [];
    assert OrderIds([o]) == {o.id} by { assert OrderIds([o][1..]) == {}; }
    assert Distinct([o]) by { assert Distinct([o][1..]); }
    assert LevelOk(single);
    if ls == [] {
      assert r[1..] == [];
    } else if ls[0].price == p {
      LevelsOkTail(ls);
      AddAppendsToTail(ls[0], o);
      assert r[1..] == ls[1..];
    } else {
      assert r[1..] == ls;
    }
    LevelsOkCons(r);
  }

  /** The step case of InsertIds: a level passed over stays in front. */
  lemma PassedInsertIds(l: Level, o: Order, tail: seq<Level>, rt: seq<Level>)
    requires LevelOk(l) && OrderIds(l.orders) !! Ids(tail) && o.id !in OrderIds(l.orders)
    requires LevelsOk(rt) && DistinctIds(rt) && Ids(rt) == Ids(tail) + {o.id}
    ensures var r := [l] + rt;
            LevelsOk(r) && DistinctIds(r) && Ids(r) == OrderIds(l.orders) + Ids(tail) + {o.id}
  {
    var r := [l] + rt;
    assert r[0] == l && r[1..] == rt;
    LevelsOkCons(r);
  }

  /** addOrder adds the new order's remaining quantity to the side. */
  lemma {:induction false} InsertTotal(side: Side, ls: seq<Level>, o: Order, p: int)
    ensures Total(Insert(side, ls, o, p)) == Total(ls) + o.Remaining()
  {
    var r := Insert(side, ls, o, p);
    assert [o][1..] == [];
    assert SumRemaining([o]) == o.Remaining() by { assert SumRemaining([o][1..]) == 0; }
    if ls == [] {
      assert r[1..] == [];
      assert Total(r) == SumRemaining([o]) + Total(r[1..]);
    } else if ls[0].price == p {
      SumRemainingConcat(ls[0].orders, [o]);
      assert r[1..] == ls[1..];
    } else if Compare(side, ls[0].price, p) > 0 {
      assert r[1..] == ls;
    } else {
      InsertTotal(side, ls[1..], o, p);
      assert r[1..] == Insert(side, ls[1..], o, p);
    }
  }

  lemma {:induction false} InsertPriced(side: Side, ls: seq<Level>, index: map<int, int>, o: Order, p: int)
    requires Priced(ls, index) && o.id in index && index[o.id] == p
    ensures Priced(Insert(side, ls, o, p), index)
  {
    var r := Insert(side, ls, o, p);
    if ls == [] {
      assert r[1..] == [];
      PricedCons(r, index);
    } else {
      PricedTail(ls, index);
      if ls[0].price == p {
        assert r[1..] == ls[1..];
      } else if Compare(side, ls[0].price, p) > 0 {
        assert r[1..] == ls;
      } else {
        InsertPriced(side, ls[1..], index, o, p);
        assert r[1..] == Insert(side, ls[1..], o, p);
      }
      PricedCons(r, index);
    }
  }

  /** After addOrder with a fresh id the whole invariant still holds, with
      the new id indexed at the order's price, and the side holds the new
      order's remaining quantity more. */
  lemma InsertWf(side: Side, ls: seq<Level>, index: map<int, int>, o: Order, p: int)
    requires Wf(side, ls, index) && o.Bounded() && o.id !in index
    ensures Wf(side, Insert(side, ls, o, p), index[o.id := p])
    ensures Total(Insert(side, ls, o, p)) == Total(ls) + o.Remaining()
  {
    InsertSorted(side, ls, o, p);
    InsertIds(side, ls, o, p);
    InsertTotal(side, ls, o, p);
    PricedOutside(ls, index, index[o.id := p]);
    InsertPriced(side, ls, index[o.id := p], o, p);
  }

  /** addOrder at a price that already has a level: the order goes to the
      tail of that level and every other level is unchanged. */
  lemma {:induction false} InsertJoins(side: Side, ls: seq<Level>, o: Order, p: int)
    requires Sorted(side, ls) && LevelAt(ls, p) < |ls|
    ensures Insert(side, ls, o, p) == ls[LevelAt(ls, p) := Add(ls[LevelAt(ls, p)], o)]
  {
    var j := LevelAt(ls, p);
    if ls[0].price != p {
      SortedCons(side, ls);
      assert ls[j] == ls[1..][j - 1];
      InsertJoins(side, ls[1..], o, p);
      assert ls[j := Add(ls[j], o)] == [ls[0]] + ls[1..][j - 1 := Add(ls[j], o)];
    }
  }

  /** addOrder at a price with no level: a one-order level goes in after
      every level the comparator ranks better and before every level it
      ranks worse; the other levels are unchanged. */
  lemma InsertOpens(side: Side, ls: seq<Level>, o: Order, p: int)
    requires Sorted(side, ls) && LevelAt(ls, p) == |ls|
    ensures var k := WorseAt(side, ls, p);
            && Insert(side, ls, o, p) == ls[..k] + [Level(p, [o])] + ls[k..]
            && (forall x :: 0 <= x < k ==> Compare(side, ls[x].price, p) < 0)
            && (forall x :: k <= x < |ls| ==> Compare(side, ls[x].price, p) > 0)
  {
    var k := WorseAt(side, ls, p);
    InsertOpensAt(side, ls, o, p);
    SortedPairwise(side, ls);
    forall x | k <= x < |ls| ensures Compare(side, ls[x].price, p) > 0 {
      if x > k { assert Compare(side, ls[k].price, ls[x].price) < 0; }
    }
  }

  lemma SpliceCons(x: Level, t: seq<Level>, k: nat, l: Level)
    requires 0 < k <= |t| + 1
    ensures [x] + (t[..k - 1] + [l] + t[k - 1..]) == ([x] + t)[..k] + [l] + ([x] + t)[k..]
  {
    assert ([x] + t)[..k] == [x] + t[..k - 1];
    assert ([x] + t)[k..] == t[k - 1..];
  }

  lemma {:induction false} InsertOpensAt(side: Side, ls: seq<Level>, o: Order, p: int)
    requires LevelAt(ls, p) == |ls|
    ensures var k := WorseAt(side, ls, p);
            Insert(side, ls, o, p) == ls[..k] + [Level(p, [o])] + ls[k..]
  {
    var single := Level(p, [o]);
    if ls != [] && Compare(side, ls[0].price, p) <= 0 {
      assert ls[0].price != p;
      var tail := ls[1..];
      InsertOpensAt(side, tail, o, p);
      var k := WorseAt(side, ls, p);
      assert Insert(side, ls, o, p) == [ls[0]] + Insert(side, tail, o, p);
      assert ls == [ls[0]] + tail;
      SpliceCons(ls[0], tail, k, single);
    } else {
      assert ls[..0] + [single] + ls[0..] == [single] + ls;
    }
  }

  // ---------------------------------------------------------------------
  // removeOrder
  // ---------------------------------------------------------------------

  /** removeOrder's scan: at the level with the order's price, unlink the
      node, and drop the level when its chain became empty. */
  function RemoveFrom(ls: seq<Level>, id: int, p: int): seq<Level> {
    if ls == [] then []
    else if ls[0].price == p then Shrunk(ls[0], id) + ls[1..]
    else [ls[0]] + RemoveFrom(ls[1..], id, p)
  }

  /** The level after removeNode, or nothing once its chain is empty. */
  function Shrunk(l: Level, id: int): seq<Level> {
    var r := RemoveNode(l, id);
    if r.orders == [] then [] else [r]
  }

  /** One step of removeOrder's scan, stated on the sequence: the level at
      position i either has the order's price, and loses the node (and goes
      when it is left empty), or is passed. */
  lemma RemoveScan(ls: seq<Level>, id: int, p: int, i: nat)
    requires i < |ls|
    ensures ls[i].price == p ==>
              ls[..i] + RemoveFrom(ls[i..], id, p)
                == if RemoveNode(ls[i], id).orders == [] then ls[..i] + ls[i + 1..]
                   else ls[i := RemoveNode(ls[i], id)]
    ensures ls[i].price != p ==>
              ls[..i] + RemoveFrom(ls[i..], id, p) == ls[..i + 1] + RemoveFrom(ls[i + 1..], id, p)
  {
    assert ls[i..][0] == ls[i] && ls[i..][1..] == ls[i + 1..];
    assert ls[..i + 1] == ls[..i] + [ls[i]];
    if ls[i].price == p {
      assert ls[i := RemoveNode(ls[i], id)] == ls[..i] + [RemoveNode(ls[i], id)] + ls[i + 1..];
    }
  }

  /** What removeOrder does, stated positionally: exactly the order's node
      leaves its level, the others keep their arrival order, every other
      level is unchanged, and the level goes away if and only if that node
      was its only one. */
  lemma RemovePlacement(side: Side, ls: seq<Level>, index: map<int, int>, id: int)
    requires Wf(side, ls, index) && id in index
    ensures LevelAt(ls, index[id]) < |ls| && id in OrderIds(ls[LevelAt(ls, index[id])].orders)
    ensures var j := LevelAt(ls, index[id]);
            var os := ls[j].orders;
            var a := IndexOf(os, id);
            RemoveFrom(ls, id, index[id])
              == ls[..j] + (if |os| == 1 then [] else [Level(ls[j].price, os[..a] + os[a + 1..])]) + ls[j + 1..]
  {
    IdLocated(side, ls, index, id);
    LevelsOkAt(ls);
    assert LevelOk(ls[LevelAt(ls, index[id])]);
    RemovePlacementAt(ls, id, index[id]);
  }

  lemma RemovePlacementAt(ls: seq<Level>, id: int, p: int)
    requires LevelAt(ls, p) < |ls|
    requires Distinct(ls[LevelAt(ls, p)].orders) && id in OrderIds(ls[LevelAt(ls, p)].orders)
    ensures var j := LevelAt(ls, p);
            var os := ls[j].orders;
            var a := IndexOf(os, id);
            RemoveFrom(ls, id, p)
              == ls[..j] + (if |os| == 1 then [] else [Level(ls[j].price, os[..a] + os[a + 1..])]) + ls[j + 1..]
  {
    var j := LevelAt(ls, p);
    var os := ls[j].orders;
    var a := IndexOf(os, id);
    RemoveSplit(ls, id, p);
    RemoveHere(ls[j], id);
    assert Shrunk(ls[j], id) == if |os| == 1 then [] else [Level(ls[j].price, os[..a] + os[a + 1..])];
  }

  /** removeOrder changes the side only at the level with the order's price. */
  lemma {:induction false} RemoveSplit(ls: seq<Level>, id: int, p: int)
    requires LevelAt(ls, p) < |ls|
    ensures var j := LevelAt(ls, p);
            RemoveFrom(ls, id, p) == ls[..j] + Shrunk(ls[j], id) + ls[j + 1..]
  {
    if ls[0].price == p {
      assert ls[..0] == [];
    } else {
      var j := LevelAt(ls, p);
      assert LevelAt(ls[1..], p) == j - 1 && ls[1..][j - 1] == ls[j];
      RemoveSplit(ls[1..], id, p);
      ConsSplice(ls, j, Shrunk(ls[j], id));
    }
  }

  /** removeOrder at the level holding the order: the node goes, and so
      does the level when it was the node's only one. */
  lemma RemoveHere(l: Level, id: int)
    requires Distinct(l.orders) && id in OrderIds(l.orders)
    ensures var os, a := l.orders, IndexOf(l.orders, id);
            Shrunk(l, id) == if |os| == 1 then [] else [Level(l.price, os[..a] + os[a + 1..])]
  {
    RemoveNodeExact(l, id);
    var os, a := l.orders, IndexOf(l.orders, id);
    assert |os[..a] + os[a + 1..]| == |os| - 1;
  }

  /** A level in front of a splice of the rest is a splice one further on. */
  lemma ConsSplice(ls: seq<Level>, j: nat, mid: seq<Level>)
    requires 0 < j < |ls|
    ensures [ls[0]] + (ls[1..][..j - 1] + mid + ls[1..][j..]) == ls[..j] + mid + ls[j + 1..]
  {
    assert ls[..j] == [ls[0]] + ls[1..][..j - 1];
    assert ls[j + 1..] == ls[1..][j..];
  }

  lemma {:induction false} RemoveBetter(side: Side, q: int, ls: seq<Level>, id: int, p: int)
    requires BetterThanAll(side, q, ls)
    ensures BetterThanAll(side, q, RemoveFrom(ls, id, p))
  {
    if ls != [] && ls[0].price != p {
      RemoveBetter(side, q, ls[1..], id, p);
    }
  }

  /** removeOrder keeps the level prices strictly ordered and unique. */
  lemma {:induction false} RemoveSorted(side: Side, ls: seq<Level>, id: int, p: int)
    requires Sorted(side, ls)
    ensures Sorted(side, RemoveFrom(ls, id, p))
  {
    if ls != [] {
      SortedCons(side, ls);
      if ls[0].price == p {
        ShrunkSorted(side, ls[0], id, ls[1..]);
      } else {
        RemoveSorted(side, ls[1..], id, p);
        RemoveBetter(side, ls[0].price, ls[1..], id, p);
        SortedCons(side, [ls[0]] + RemoveFrom(ls[1..], id, p));
      }
    }
  }

  lemma ShrunkSorted(side: Side, l: Level, id: int, tail: seq<Level>)
    requires BetterThanAll(side, l.price, tail) && Sorted(side, tail)
    ensures Sorted(side, Shrunk(l, id) + tail)
  {
    var r := Shrunk(l, id) + tail;
    if Shrunk(l, id) != [] {
      assert r[1..] == tail;
      SortedCons(side, r);
    } else {
      assert r == tail;
    }
  }

  /** removeOrder takes exactly the order's id off the side and leaves no
      empty level. */
  lemma {:induction false} RemoveIds(ls: seq<Level>, id: int, p: int)
    requires LevelsOk(ls) && DistinctIds(ls)
    requires LevelAt(ls, p) < |ls| && id in OrderIds(ls[LevelAt(ls, p)].orders)
    ensures var r := RemoveFrom(ls, id, p);
            LevelsOk(r) && DistinctIds(r) && Ids(r) == Ids(ls) - {id}
  {
    LevelsOkTail(ls);
    if ls[0].price == p {
      ShrunkIds(ls[0], id, ls[1..]);
    } else {
      var j := LevelAt(ls, p);
      assert LevelAt(ls[1..], p) == j - 1 && ls[1..][j - 1] == ls[j];
      IdsContain(ls[1..], j - 1);
      RemoveIds(ls[1..], id, p);
      PassedIds(ls[0], id, ls[1..], RemoveFrom(ls[1..], id, p));
    }
  }

  /** The head case of RemoveIds: the level holding the order shrinks. */
  lemma ShrunkIds(l: Level, id: int, tail: seq<Level>)
    requires LevelOk(l) && LevelsOk(tail) && DistinctIds(tail)
    requires OrderIds(l.orders) !! Ids(tail) && id in OrderIds(l.orders)
    ensures var r := Shrunk(l, id) + tail;
            LevelsOk(r) && DistinctIds(r) && Ids(r) == OrderIds(l.orders) + Ids(tail) - {id}
  {
    RemoveNodeExact(l, id);
    var os, a := l.orders, IndexOf(l.orders, id);
    assert |os[..a] + os[a + 1..]| == |os| - 1;
    var r := Shrunk(l, id) + tail;
    if Shrunk(l, id) != [] {
      assert r[0] == RemoveNode(l, id) && r[1..] == tail;
      LevelsOkCons(r);
    } else {
      assert r == tail;
    }
  }

  /** The step case of RemoveIds: a level passed over stays in front. */
  lemma PassedIds(l: Level, id: int, tail: seq<Level>, rt: seq<Level>)
    requires LevelOk(l) && OrderIds(l.orders) !! Ids(tail) && id in Ids(tail)
    requires LevelsOk(rt) && DistinctIds(rt) && Ids(rt) == Ids(tail) - {id}
    ensures var r := [l] + rt;
            LevelsOk(r) && DistinctIds(r) && Ids(r) == OrderIds(l.orders) + Ids(tail) - {id}
  {
    var r := [l] + rt;
    assert r[0] == l && r[1..] == rt;
    LevelsOkCons(r);
  }

  lemma {:induction false} RemovePriced(ls: seq<Level>, index: map<int, int>, id: int, p: int)
    requires Priced(ls, index) && LevelsOk(ls)
    requires LevelAt(ls, p) < |ls| && id in OrderIds(ls[LevelAt(ls, p)].orders)
    ensures Priced(RemoveFrom(ls, id, p), index)
  {
    PricedTail(ls, index);
    LevelsOkTail(ls);
    if ls[0].price == p {
      ShrunkPriced(ls[0], index, id, ls[1..]);
    } else {
      RemovePriced(ls[1..], index, id, p);
      PricedCons([ls[0]] + RemoveFrom(ls[1..], id, p), index);
    }
  }

  lemma ShrunkPriced(l: Level, index: map<int, int>, id: int, tail: seq<Level>)
    requires LevelPriced(l, index) && Priced(tail, index)
    requires Distinct(l.orders) && id in OrderIds(l.orders)
    ensures Priced(Shrunk(l, id) + tail, index)
  {
    RemoveNodeExact(l, id);
    var r := Shrunk(l, id) + tail;
    if Shrunk(l, id) != [] {
      assert LevelPriced(RemoveNode(l, id), index);
      assert r[0] == RemoveNode(l, id) && r[1..] == tail;
      PricedCons(r, index);
    } else {
      assert r == tail;
    }
  }

  /** After removeOrder the invariant holds with the id gone from both the
      index and the levels. */
  lemma RemoveWf(side: Side, ls: seq<Level>, index: map<int, int>, id: int)
    requires Wf(side, ls, index) && id in index
    ensures var r := RemoveFrom(ls, id, index[id]);
            Wf(side, r, index - {id}) && id !in Ids(r)
  {
    IdLocated(side, ls, index, id);
    var p := index[id];
    var r := RemoveFrom(ls, id, p);
    RemoveSorted(side, ls, id, p);
    RemoveIds(ls, id, p);
    RemovePriced(ls, index, id, p);
    PricedOutside(r, index, index - {id});
  }

  // ---------------------------------------------------------------------
  // matchOrder, as written
  // ---------------------------------------------------------------------

  /** What one call of matchOrder does to the side: the new levels, the
      quantity traded, the ids that left the index, and the Match records it
      constructed, in order. */
  datatype Outcome = Outcome(levels: seq<Level>, traded: int, removed: set<int>, records: seq<Match>)

  /** The effect of matchOrder's inner loop on one eligible level. The head
      trades `min(need, remaining)`; if that fills it, it is removed, and
      since unlink cleared its `next` the inner loop ends there; if not, the
      need is met and the loop breaks. Either way only the head is visited.
      A level without orders, which the side never holds, is passed over
      unchanged: the inner loop does not run. */
  function StepLevel(l: Level, aggressor: int, need: int): Outcome
  {
    if l.orders == [] then Outcome([l], 0, {}, []) else
    var tr := Trade(aggressor, need, l.orders[0], l.price);
    if tr.order.Remaining() == 0 then
      // removeNode(head), i.e. Unlink(l, 0): the head moves to the next node
      Outcome(if |l.orders| == 1 then [] else [Level(l.price, l.orders[1..])], tr.quantity, {l.orders[0].id}, [tr.record])
    else
      Outcome([l.(orders := l.orders[0 := tr.order])], tr.quantity, {}, [tr.record])
  }

  /** matchOrder over the levels, best first, stopping at the first level the
      comparator ranks worse than the limit. The call goes on visiting
      eligible levels after the need is met, trading 0 at each. */
  function MatchLevels(side: Side, ls: seq<Level>, aggressor: int, need: int, limit: int): Outcome
    decreases |ls|
  {
    if ls == [] || !Eligible(side, ls[0].price, limit) then Outcome(ls, 0, {}, [])
    else
      var step := StepLevel(ls[0], aggressor, need);
      var rest := MatchLevels(side, ls[1..], aggressor, need - step.traded, limit);
      Outcome(step.levels + rest.levels, step.traded + rest.traded,
              step.removed + rest.removed, step.records + rest.records)
  }

  /** Remaining quantity over the levels matchOrder may visit. */
  function EligibleTotal(side: Side, ls: seq<Level>, limit: int): int {
    if ls == [] || !Eligible(side, ls[0].price, limit) then 0
    else SumRemaining(ls[0].orders) + EligibleTotal(side, ls[1..], limit)
  }

  /** Number of leading levels matchOrder may visit. */
  function EligibleCount(side: Side, ls: seq<Level>, limit: int): (n: nat)
    ensures n <= |ls|
  {
    if ls == [] || !Eligible(side, ls[0].price, limit) then 0
    else 1 + EligibleCount(side, ls[1..], limit)
  }

  /** The levels matchOrder may visit are exactly the ones before the first
      level the comparator ranks worse than the limit. */
  lemma {:induction false} EligiblePrefix(side: Side, ls: seq<Level>, limit: int)
    ensures var n := EligibleCount(side, ls, limit);
            && (forall j :: 0 <= j < n ==> Eligible(side, ls[j].price, limit))
            && (n < |ls| ==> !Eligible(side, ls[n].price, limit))
  {
    if ls != [] && Eligible(side, ls[0].price, limit) {
      EligiblePrefix(side, ls[1..], limit);
      var n := EligibleCount(side, ls, limit);
      forall j | 0 <= j < n ensures Eligible(side, ls[j].price, limit) {
        if j > 0 {
          assert ls[j] == ls[1..][j - 1];
        }
      }
      if n < |ls| {
        assert ls[n] == ls[1..][n - 1];
      }
    }
  }

  function SumQuantity(ms: seq<Match>): int {
    if ms == [] then 0 else ms[0].quantity + SumQuantity(ms[1..])
  }

  /** The quantity matchMustFillOrder counts is never negative while every
      order is within its bounds. */
  lemma {:induction false} EligibleTotalNonNegative(side: Side, ls: seq<Level>, limit: int)
    requires LevelsOk(ls)
    ensures EligibleTotal(side, ls, limit) >= 0
  {
    if ls != [] && Eligible(side, ls[0].price, limit) {
      LevelsOkTail(ls);
      SumRemainingNonNegative(ls[0].orders);
      EligibleTotalNonNegative(side, ls[1..], limit);
    }
  }

  /** Where matchOrder's outer loop stands: the levels it has passed (as
      they now are) and the levels still ahead of it, the quantity still
      wanted, the quantity traded so far, and the side's id index and match
      log. The side's list of levels is `done + ahead`. */
  datatype Cursor = Cursor(done: seq<Level>, ahead: seq<Level>, need: int, traded: int,
                           index: map<int, int>, matches: seq<Match>)

  /** One pass of the outer loop over the first level ahead: the level
      becomes what StepLevel makes of it (possibly nothing) and the loop
      moves past it. */
  function Advance(c: Cursor, aggressor: int): Cursor
    requires c.ahead != []
  {
    var step := StepLevel(c.ahead[0], aggressor, c.need);
    Cursor(c.done + step.levels, c.ahead[1..], c.need - step.traded, c.traded + step.traded,
           c.index - step.removed, c.matches + step.records)
  }

  /** matchOrder's outer loop run from cursor c to where it stops: no level
      left, or the first level the comparator ranks worse than `limit`. */
  ghost function Sweep(side: Side, c: Cursor, aggressor: int, limit: int): Cursor
    decreases |c.ahead|
  {
    if c.ahead == [] || !Eligible(side, c.ahead[0].price, limit) then c
    else Sweep(side, Advance(c, aggressor), aggressor, limit)
  }

  /** The loop, run from any cursor, does to the levels ahead of it what
      MatchLevels says, and leaves the levels it has passed alone. */
  lemma {:induction false} SweepIsMatch(side: Side, c: Cursor, aggressor: int, limit: int)
    ensures var r, m := Sweep(side, c, aggressor, limit), MatchLevels(side, c.ahead, aggressor, c.need, limit);
            && r.done + r.ahead == c.done + m.levels && r.traded == c.traded + m.traded
            && r.need == c.need - m.traded && r.index == c.index - m.removed && r.matches == c.matches + m.records
    decreases |c.ahead|
  {
    if c.ahead == [] || !Eligible(side, c.ahead[0].price, limit) {
      assert c.index - {} == c.index;
      assert c.matches + [] == c.matches;
    } else {
      SweepIsMatch(side, Advance(c, aggressor), aggressor, limit);
      SweepAdvances(side, c, aggressor, limit, Sweep(side, Advance(c, aggressor), aggressor, limit));
    }
  }

  /** The inductive step of SweepIsMatch: if the loop, once past the first
      level ahead, ends in r as MatchLevels says for the levels after it,
      then r is also what MatchLevels says from the first level on. */
  lemma SweepAdvances(side: Side, c: Cursor, aggressor: int, limit: int, r: Cursor)
    requires c.ahead != [] && Eligible(side, c.ahead[0].price, limit)
    requires var n := Advance(c, aggressor);
             var m := MatchLevels(side, n.ahead, aggressor, n.need, limit);
             && r.done + r.ahead == n.done + m.levels && r.traded == n.traded + m.traded
             && r.need == n.need - m.traded && r.index == n.index - m.removed && r.matches == n.matches + m.records
    ensures var m := MatchLevels(side, c.ahead, aggressor, c.need, limit);
            && r.done + r.ahead == c.done + m.levels && r.traded == c.traded + m.traded
            && r.need == c.need - m.traded && r.index == c.index - m.removed && r.matches == c.matches + m.records
  {
    var step := StepLevel(c.ahead[0], aggressor, c.need);
    var n := Advance(c, aggressor);
    MatchUnfold(side, c.ahead, aggressor, c.need, limit);
    SweepCompose(c, step, n, r, MatchLevels(side, n.ahead, aggressor, n.need, limit),
                 MatchLevels(side, c.ahead, aggressor, c.need, limit));
  }

  /** The bookkeeping of SweepAdvances, on plain values. */
  lemma SweepCompose(c: Cursor, step: Outcome, n: Cursor, r: Cursor, m': Outcome, m: Outcome)
    requires n.done == c.done + step.levels && n.traded == c.traded + step.traded && n.need == c.need - step.traded
    requires n.index == c.index - step.removed && n.matches == c.matches + step.records
    requires && r.done + r.ahead == n.done + m'.levels && r.traded == n.traded + m'.traded
             && r.need == n.need - m'.traded && r.index == n.index - m'.removed && r.matches == n.matches + m'.records
    requires m.levels == step.levels + m'.levels && m.traded == step.traded + m'.traded
    requires m.removed == step.removed + m'.removed && m.records == step.records + m'.records
    ensures && r.done + r.ahead == c.done + m.levels && r.traded == c.traded + m.traded
            && r.need == c.need - m.traded && r.index == c.index - m.removed && r.matches == c.matches + m.records
  {
    assert c.done + step.levels + m'.levels == c.done + (step.levels + m'.levels);
    assert c.index - step.removed - m'.removed == c.index - (step.removed + m'.removed);
    assert c.matches + step.records + m'.records == c.matches + (step.records + m'.records);
  }

  /** A pass over the level at position i of the side's list, seen on the
      list itself: the level is replaced by what StepLevel leaves of it, and
      the cursor that splits the list before it moves to just after that. */
  lemma AdvanceSplices(ls: seq<Level>, i: nat, need: int, traded: int, index: map<int, int>, matches: seq<Match>,
                       aggressor: int)
    requires i < |ls| && LevelOk(ls[i]) && LevelsOk(ls[i + 1..])
    ensures var step := StepLevel(ls[i], aggressor, need);
            var ls', next := ls[..i] + step.levels + ls[i + 1..], if step.levels == [] then i else i + 1;
            && next <= |ls'| && LevelsOk(ls'[next..])
            && Cursor(ls'[..next], ls'[next..], need - step.traded, traded + step.traded,
                      index - step.removed, matches + step.records)
               == Advance(Cursor(ls[..i], ls[i..], need, traded, index, matches), aggressor)
  {
    var step := StepLevel(ls[i], aggressor, need);
    StepShape(ls[i], aggressor, need);
    SplitParts(ls[..i], step.levels, ls[i + 1..]);
    assert ls[i..][0] == ls[i] && ls[i..][1..] == ls[i + 1..];
  }

  lemma SplitParts(a: seq<Level>, b: seq<Level>, c: seq<Level>)
    ensures (a + b + c)[..|a| + |b|] == a + b && (a + b + c)[|a| + |b|..] == c
  {
  }

  /** One level of MatchLevels: the step at the head, then the rest. */
  lemma MatchUnfold(side: Side, ls: seq<Level>, aggressor: int, need: int, limit: int)
    requires ls != [] && Eligible(side, ls[0].price, limit)
    ensures var step := StepLevel(ls[0], aggressor, need);
            var rest := MatchLevels(side, ls[1..], aggressor, need - step.traded, limit);
            var m := MatchLevels(side, ls, aggressor, need, limit);
            && m.levels == step.levels + rest.levels && m.traded == step.traded + rest.traded
            && m.removed == step.removed + rest.removed && m.records == step.records + rest.records
  {
  }

  /** matchOrder's loop, started before the best level with nothing traded,
      ends where MatchLevels says. */
  lemma SweepFromStart(side: Side, ls: seq<Level>, index: map<int, int>, matches: seq<Match>,
                       aggressor: int, need: int, limit: int)
    ensures var r, m := Sweep(side, Cursor([], ls, need, 0, index, matches), aggressor, limit),
                        MatchLevels(side, ls, aggressor, need, limit);
            && r.done + r.ahead == m.levels && r.traded == m.traded && r.index == index - m.removed
            && r.matches == matches + m.records
  {
    SweepIsMatch(side, Cursor([], ls, need, 0, index, matches), aggressor, limit);
    var m := MatchLevels(side, ls, aggressor, need, limit);
    assert [] + m.levels == m.levels;
  }

  /** One level visit trades once, against the head, at the level's price. */
  lemma StepBasics(l: Level, aggressor: int, need: int)
    requires l.orders != []
    ensures var m := StepLevel(l, aggressor, need);
            var tr := Trade(aggressor, need, l.orders[0], l.price);
            m.traded == tr.quantity && m.records == [tr.record]
  {
  }

  /** One level visit as matchOrder's inner loop performs it on the head:
      trade with it; if that fills it, unlink it and drop the level when
      nothing is left, otherwise keep the traded head, in which case the
      whole need was traded. */
  lemma ChainStep(l: Level, aggressor: int, need: int)
    requires l.orders != []
    ensures var m := StepLevel(l, aggressor, need);
            var tr := Trade(aggressor, need, l.orders[0], l.price);
            var l' := l.(orders := l.orders[0 := tr.order]);
            && m.traded == tr.quantity && m.records == [tr.record]
            && (tr.order.Remaining() == 0 ==>
                  && m.removed == {l.orders[0].id}
                  && m.levels == (if Unlink(l', 0).orders == [] then [] else [Unlink(l', 0)]))
            && (tr.order.Remaining() != 0 ==> m.removed == {} && m.levels == [l'] && tr.quantity == need)
  {
    var tr := Trade(aggressor, need, l.orders[0], l.price);
    var l' := l.(orders := l.orders[0 := tr.order]);
    TradeSpec(aggressor, need, l.orders[0], l.price);
    assert Unlink(l', 0).orders == l.orders[1..];
  }

  /** One level visit leaves at most that level behind, at its price. */
  lemma StepShape(l: Level, aggressor: int, need: int)
    ensures var m := StepLevel(l, aggressor, need);
            |m.levels| <= 1 && forall j :: 0 <= j < |m.levels| ==> m.levels[j].price == l.price
  {
  }

  /** One level visit leaves the orders behind the head untouched, in their
      arrival order: the level afterwards is the traded head followed by
      them, or them alone once the head is filled, or gone when the head was
      its only order and is filled. */
  lemma StepKeepsQueue(l: Level, aggressor: int, need: int)
    requires l.orders != []
    ensures var m := StepLevel(l, aggressor, need);
            var tr := Trade(aggressor, need, l.orders[0], l.price);
            if tr.order.Remaining() == 0 then
              m.levels == (if |l.orders| == 1 then [] else [Level(l.price, l.orders[1..])])
            else
              m.levels == [Level(l.price, [tr.order] + l.orders[1..])]
  {
    var tr := Trade(aggressor, need, l.orders[0], l.price);
    assert l.orders[0 := tr.order] == [tr.order] + l.orders[1..];
  }

  /** One level visit trades no more than is needed. */
  lemma StepTraded(l: Level, aggressor: int, need: int)
    requires LevelOk(l) && need >= 0
    ensures 0 <= StepLevel(l, aggressor, need).traded <= need
  {
    TradeSpec(aggressor, need, l.orders[0], l.price);
  }

  /** One level visit takes from the level's depth exactly what it trades. */
  lemma StepTotal(l: Level, aggressor: int, need: int)
    ensures var m := StepLevel(l, aggressor, need);
            Total(m.levels) == SumRemaining(l.orders) - m.traded
  {
    if l.orders != [] {
      var os := l.orders;
      var tr := Trade(aggressor, need, os[0], l.price);
      StepKeepsQueue(l, aggressor, need);
      var m := StepLevel(l, aggressor, need);
      if tr.order.Remaining() == 0 {
        if |os| > 1 {
          assert m.levels[1..] == [];
        }
      } else {
        assert m.levels[1..] == [];
        assert ([tr.order] + os[1..])[1..] == os[1..];
      }
    } else {
      assert StepLevel(l, aggressor, need).levels[1..] == [];
    }
  }


  lemma StepIds(l: Level, index: map<int, int>, aggressor: int, need: int)
    requires LevelOk(l) && need >= 0
    ensures var m := StepLevel(l, aggressor, need);
            var head := l.orders[0];
            && LevelsOk(m.levels)
            && Ids(m.levels) == OrderIds(l.orders) - m.removed
            && m.removed == (if m.traded == head.Remaining() then {head.id} else {})
            && (LevelPriced(l, index) ==> Priced(m.levels, index))
  {
    var os := l.orders;
    var tr := Trade(aggressor, need, os[0], l.price);
    StepKeepsQueue(l, aggressor, need);
    var m := StepLevel(l, aggressor, need);
    if tr.order.Remaining() == 0 {
      if |os| > 1 {
        var k := Level(l.price, os[1..]);
        assert os[1..][0] == os[1];
        assert LevelOk(k);
        assert m.levels[1..] == [];
        LevelsOkCons(m.levels);
        if LevelPriced(l, index) {
          assert LevelPriced(k, index);
          PricedCons(m.levels, index);
        }
      }
    } else {
      var touched := [tr.order] + os[1..];
      var k := Level(l.price, touched);
      assert touched[1..] == os[1..];
      assert OrderIds(touched) == OrderIds(os);
      assert forall a :: 0 <= a < |touched| ==> touched[a] == (if a == 0 then tr.order else os[a]);
      assert LevelOk(k);
      assert m.levels[1..] == [];
      LevelsOkCons(m.levels);
      if LevelPriced(l, index) {
        assert LevelPriced(k, index);
        PricedCons(m.levels, index);
      }
    }
  }

  /** matchOrder's quantities: it trades between 0 and the quantity asked
      for, and the side's remaining quantity drops by exactly what it
      traded. */
  lemma {:induction false} MatchTraded(side: Side, ls: seq<Level>, aggressor: int, need: int, limit: int)
    requires LevelsOk(ls) && need >= 0
    ensures 0 <= MatchLevels(side, ls, aggressor, need, limit).traded <= need
  {
    if ls != [] && Eligible(side, ls[0].price, limit) {
      LevelsOkTail(ls);
      var need' := need - StepLevel(ls[0], aggressor, need).traded;
      StepTraded(ls[0], aggressor, need);
      MatchTraded(side, ls[1..], aggressor, need', limit);
      MatchUnfold(side, ls, aggressor, need, limit);
    }
  }

  /** matchOrder takes from the side's depth exactly what it trades. */
  lemma {:induction false} MatchTotal(side: Side, ls: seq<Level>, aggressor: int, need: int, limit: int)
    ensures var m := MatchLevels(side, ls, aggressor, need, limit);
            Total(m.levels) == Total(ls) - m.traded
  {
    if ls != [] && Eligible(side, ls[0].price, limit) {
      var need' := need - StepLevel(ls[0], aggressor, need).traded;
      MatchTotal(side, ls[1..], aggressor, need', limit);
      MatchUnfold(side, ls, aggressor, need, limit);
      TotalStep(ls[0], aggressor, need, MatchLevels(side, ls[1..], aggressor, need', limit),
                MatchLevels(side, ls, aggressor, need, limit));
    }
  }

  /** The inductive step of MatchTotal. */
  lemma TotalStep(l: Level, aggressor: int, need: int, rest: Outcome, m: Outcome)
    requires var step := StepLevel(l, aggressor, need);
             m.levels == step.levels + rest.levels && m.traded == step.traded + rest.traded
    ensures Total(m.levels) + m.traded == SumRemaining(l.orders) + (Total(rest.levels) + rest.traded)
  {
    var step := StepLevel(l, aggressor, need);
    StepTotal(l, aggressor, need);
    TotalConcat(step.levels, rest.levels);
  }

  /** matchOrder records one Match per eligible level, and the records add
      up to the quantity traded. */
  lemma {:induction false} MatchRecordsAddUp(side: Side, ls: seq<Level>, aggressor: int, need: int, limit: int)
    requires LevelsOk(ls)
    ensures var m := MatchLevels(side, ls, aggressor, need, limit);
            |m.records| == EligibleCount(side, ls, limit) && SumQuantity(m.records) == m.traded
  {
    if ls != [] && Eligible(side, ls[0].price, limit) {
      LevelsOkTail(ls);
      var need' := need - StepLevel(ls[0], aggressor, need).traded;
      MatchRecordsAddUp(side, ls[1..], aggressor, need', limit);
      MatchUnfold(side, ls, aggressor, need, limit);
      RecordsStep(ls[0], aggressor, need, MatchLevels(side, ls[1..], aggressor, need', limit),
                  MatchLevels(side, ls, aggressor, need, limit));
    }
  }

  /** The inductive step of MatchRecordsAddUp: the visit of a level adds
      one record, for the quantity it trades. */
  lemma RecordsStep(l: Level, aggressor: int, need: int, rest: Outcome, m: Outcome)
    requires l.orders != [] && SumQuantity(rest.records) == rest.traded
    requires var step := StepLevel(l, aggressor, need);
             m.records == step.records + rest.records && m.traded == step.traded + rest.traded
    ensures |m.records| == |rest.records| + 1 && SumQuantity(m.records) == m.traded
  {
    StepBasics(l, aggressor, need);
    assert m.records[1..] == rest.records;
  }

  /** The j-th Match record of matchOrder is against the head of the j-th
      level (the oldest order at that price), at the level's price. */
  lemma {:induction false} MatchRecordAt(side: Side, ls: seq<Level>, aggressor: int, need: int, limit: int, j: nat)
    requires forall i :: 0 <= i < |ls| ==> ls[i].orders != []
    requires j < |MatchLevels(side, ls, aggressor, need, limit).records|
    ensures var r := MatchLevels(side, ls, aggressor, need, limit).records[j];
            && j < |ls| && ls[j].orders != []
            && r.aggressor == aggressor && r.resting == ls[j].orders[0].id && r.price == ls[j].price
  {
    assert ls != [] && Eligible(side, ls[0].price, limit);
    var need' := need - StepLevel(ls[0], aggressor, need).traded;
    MatchUnfold(side, ls, aggressor, need, limit);
    StepBasics(ls[0], aggressor, need);
    RecordShift(MatchLevels(side, ls, aggressor, need, limit).records, StepLevel(ls[0], aggressor, need).records,
                MatchLevels(side, ls[1..], aggressor, need', limit).records, j);
    if j > 0 {
      NonEmptyTail(ls);
      MatchRecordAt(side, ls[1..], aggressor, need', limit, j - 1);
      assert ls[j] == ls[1..][j - 1];
    }
  }

  /** Position j of a record list made of one record and then the rest. */
  lemma RecordShift(whole: seq<Match>, first: seq<Match>, rest: seq<Match>, j: nat)
    requires whole == first + rest && |first| == 1 && j < |whole|
    ensures j == 0 ==> whole[0] == first[0]
    ensures j > 0 ==> j - 1 < |rest| && whole[j] == rest[j - 1]
  {
  }

  lemma NonEmptyTail(ls: seq<Level>)
    requires ls != [] && forall i :: 0 <= i < |ls| ==> ls[i].orders != []
    ensures forall i :: 0 <= i < |ls[1..]| ==> ls[1..][i].orders != []
  {
    forall i | 0 <= i < |ls[1..]| ensures ls[1..][i].orders != [] { assert ls[1..][i] == ls[i + 1]; }
  }

  /** The j-th Match record of matchOrder is for min(quantity still needed
      after the earlier records, remaining quantity of the j-th level's
      head). */
  lemma {:induction false} MatchRecordQuantity(side: Side, ls: seq<Level>, aggressor: int, need: int, limit: int, j: nat)
    requires forall i :: 0 <= i < |ls| ==> ls[i].orders != []
    requires j < |MatchLevels(side, ls, aggressor, need, limit).records|
    ensures var m := MatchLevels(side, ls, aggressor, need, limit);
            && j < |ls| && ls[j].orders != []
            && m.records[j].quantity == Min(need - SumQuantity(m.records[..j]), ls[j].orders[0].Remaining())
    decreases |ls|, 1
  {
    if j == 0 {
      MatchFirstQuantity(side, ls, aggressor, need, limit);
    } else {
      MatchLaterQuantity(side, ls, aggressor, need, limit, j);
    }
  }

  lemma {:induction false} MatchLaterQuantity(side: Side, ls: seq<Level>, aggressor: int, need: int, limit: int, j: nat)
    requires forall i :: 0 <= i < |ls| ==> ls[i].orders != []
    requires 0 < j < |MatchLevels(side, ls, aggressor, need, limit).records|
    ensures var m := MatchLevels(side, ls, aggressor, need, limit);
            && j < |ls| && ls[j].orders != []
            && m.records[j].quantity == Min(need - SumQuantity(m.records[..j]), ls[j].orders[0].Remaining())
    decreases |ls|, 0
  {
    assert ls != [] && Eligible(side, ls[0].price, limit);
    var need' := need - StepLevel(ls[0], aggressor, need).traded;
    var whole, first, rest := MatchLevels(side, ls, aggressor, need, limit).records,
                              StepLevel(ls[0], aggressor, need).records,
                              MatchLevels(side, ls[1..], aggressor, need', limit).records;
    MatchUnfold(side, ls, aggressor, need, limit);
    StepBasics(ls[0], aggressor, need);
    RecordShift(whole, first, rest, j);
    NonEmptyTail(ls);
    MatchRecordQuantity(side, ls[1..], aggressor, need', limit, j - 1);
    LaterStep(whole, first, rest, j, need, StepLevel(ls[0], aggressor, need).traded);
    assert ls[j] == ls[1..][j - 1];
  }

  /** The quantity still needed before record j, counted from the front or
      from after the first record. */
  lemma LaterStep(whole: seq<Match>, first: seq<Match>, rest: seq<Match>, j: nat, need: int, traded: int)
    requires whole == first + rest && |first| == 1 && 0 < j < |whole| && first[0].quantity == traded
    ensures need - SumQuantity(whole[..j]) == (need - traded) - SumQuantity(rest[..j - 1])
  {
    SumQuantityCons(first[0], rest, j);
    assert whole == [first[0]] + rest;
  }

  lemma MatchFirstQuantity(side: Side, ls: seq<Level>, aggressor: int, need: int, limit: int)
    requires |MatchLevels(side, ls, aggressor, need, limit).records| > 0
    requires ls != [] ==> ls[0].orders != []
    ensures var m := MatchLevels(side, ls, aggressor, need, limit);
            |m.records| > 0 && m.records[0].quantity == Min(need - SumQuantity(m.records[..0]), ls[0].orders[0].Remaining())
  {
    var m := MatchLevels(side, ls, aggressor, need, limit);
    StepBasics(ls[0], aggressor, need);
    assert m.records[..0] == [];
  }


  lemma SumQuantityCons(first: Match, rs: seq<Match>, j: nat)
    requires 0 < j <= |rs| + 1
    ensures SumQuantity(([first] + rs)[..j]) == first.quantity + SumQuantity(rs[..j - 1])
  {
    var pre := ([first] + rs)[..j];
    assert pre[0] == first && pre[1..] == rs[..j - 1];
  }



  lemma {:induction false} MatchBetter(side: Side, q: int, ls: seq<Level>, aggressor: int, need: int, limit: int)
    requires BetterThanAll(side, q, ls)
    ensures BetterThanAll(side, q, MatchLevels(side, ls, aggressor, need, limit).levels)
  {
    if ls != [] && Eligible(side, ls[0].price, limit) {
      StepShape(ls[0], aggressor, need);
      var step := StepLevel(ls[0], aggressor, need);
      MatchBetter(side, q, ls[1..], aggressor, need - step.traded, limit);
    }
  }

  /** matchOrder keeps the level prices strictly ordered and unique. */
  lemma {:induction false} MatchSorted(side: Side, ls: seq<Level>, aggressor: int, need: int, limit: int)
    requires Sorted(side, ls)
    ensures Sorted(side, MatchLevels(side, ls, aggressor, need, limit).levels)
  {
    if ls != [] && Eligible(side, ls[0].price, limit) {
      SortedCons(side, ls);
      var need' := need - StepLevel(ls[0], aggressor, need).traded;
      MatchSorted(side, ls[1..], aggressor, need', limit);
      MatchBetter(side, ls[0].price, ls[1..], aggressor, need', limit);
      MatchUnfold(side, ls, aggressor, need, limit);
      SortedStep(side, ls[0], aggressor, need, MatchLevels(side, ls[1..], aggressor, need', limit).levels, MatchLevels(side, ls, aggressor, need, limit).levels);
    }
  }

  /** The inductive step of MatchSorted: what is left of a level that ranks
      better than everything after it goes in front of a sorted list. */
  lemma SortedStep(side: Side, l: Level, aggressor: int, need: int, rest: seq<Level>, whole: seq<Level>)
    requires Sorted(side, rest) && BetterThanAll(side, l.price, rest)
    requires whole == StepLevel(l, aggressor, need).levels + rest
    ensures Sorted(side, whole)
  {
    var step := StepLevel(l, aggressor, need);
    StepShape(l, aggressor, need);
    if step.levels == [] {
      assert whole == rest;
    } else {
      assert whole[0].price == l.price && whole[1..] == rest;
      SortedCons(side, whole);
    }
  }

  /** matchOrder keeps every level non-empty, bounded and free of duplicate
      ids. */
  lemma {:induction false} MatchLevelsOk(side: Side, ls: seq<Level>, aggressor: int, need: int, limit: int)
    requires LevelsOk(ls) && need >= 0
    ensures LevelsOk(MatchLevels(side, ls, aggressor, need, limit).levels)
  {
    if ls != [] && Eligible(side, ls[0].price, limit) {
      LevelsOkTail(ls);
      StepTraded(ls[0], aggressor, need);
      var need' := need - StepLevel(ls[0], aggressor, need).traded;
      MatchLevelsOk(side, ls[1..], aggressor, need', limit);
      MatchUnfold(side, ls, aggressor, need, limit);
      LevelsOkStep(ls[0], map[], aggressor, need, MatchLevels(side, ls[1..], aggressor, need', limit).levels, MatchLevels(side, ls, aggressor, need, limit).levels);
    }
  }

  /** The inductive step of MatchLevelsOk and MatchPriced: what is left of a
      well-formed level goes in front of the rest. */
  lemma LevelsOkStep(l: Level, index: map<int, int>, aggressor: int, need: int, rest: seq<Level>, whole: seq<Level>)
    requires LevelOk(l) && need >= 0
    requires whole == StepLevel(l, aggressor, need).levels + rest
    ensures LevelsOk(rest) ==> LevelsOk(whole)
    ensures LevelPriced(l, index) && Priced(rest, index) ==> Priced(whole, index)
  {
    var step := StepLevel(l, aggressor, need);
    StepIds(l, index, aggressor, need);
    StepShape(l, aggressor, need);
    if step.levels == [] {
      assert whole == rest;
    } else {
      assert whole[0] == step.levels[0] && whole[1..] == rest;
      LevelsOkTail(step.levels);
      if LevelPriced(l, index) && Priced(rest, index) {
        PricedTail(step.levels, index);
        PricedCons(whole, index);
      }
    }
  }

  /** matchOrder removes from the levels exactly the ids it reports as
      removed, all of them resting ids. */
  lemma {:induction false} MatchIds(side: Side, ls: seq<Level>, aggressor: int, need: int, limit: int)
    requires LevelsOk(ls) && DistinctIds(ls) && need >= 0
    ensures var m := MatchLevels(side, ls, aggressor, need, limit);
            m.removed <= Ids(ls) && Ids(m.levels) == Ids(ls) - m.removed
  {
    if ls != [] && Eligible(side, ls[0].price, limit) {
      var step := StepLevel(ls[0], aggressor, need);
      LevelsOkTail(ls);
      StepTraded(ls[0], aggressor, need);
      MatchIds(side, ls[1..], aggressor, need - step.traded, limit);
      MatchUnfold(side, ls, aggressor, need, limit);
      IdsStep(ls[0], ls[1..], aggressor, need, MatchLevels(side, ls[1..], aggressor, need - step.traded, limit),
              MatchLevels(side, ls, aggressor, need, limit));
    }
  }

  /** The inductive step of MatchIds: the visit of the first level, then
      whatever happened to the rest. */
  lemma IdsStep(l: Level, tail: seq<Level>, aggressor: int, need: int, rest: Outcome, m: Outcome)
    requires LevelOk(l) && OrderIds(l.orders) !! Ids(tail) && need >= 0
    requires rest.removed <= Ids(tail) && Ids(rest.levels) == Ids(tail) - rest.removed
    requires var step := StepLevel(l, aggressor, need);
             m.levels == step.levels + rest.levels && m.removed == step.removed + rest.removed
    ensures m.removed <= OrderIds(l.orders) + Ids(tail)
    ensures Ids(m.levels) == (OrderIds(l.orders) + Ids(tail)) - m.removed
  {
    var step := StepLevel(l, aggressor, need);
    StepIds(l, map[], aggressor, need);
    IdsSplit(m.levels, step.levels, rest.levels);
    IdsCompose(OrderIds(l.orders), Ids(tail), step.removed, rest.removed, Ids(step.levels), Ids(rest.levels));
  }

  lemma IdsSplit(whole: seq<Level>, a: seq<Level>, b: seq<Level>)
    requires whole == a + b
    ensures Ids(whole) == Ids(a) + Ids(b)
  {
    IdsConcat(a, b);
  }

  /** The id bookkeeping of MatchIds, on plain sets. */
  lemma IdsCompose(front: set<int>, back: set<int>, r: set<int>, r': set<int>, kept: set<int>, kept': set<int>)
    requires front !! back && r <= front && r' <= back && kept == front - r && kept' == back - r'
    ensures r + r' <= front + back && kept + kept' == (front + back) - (r + r')
  {
  }

  lemma DisjointParts(a: set<int>, b: set<int>, a': set<int>, b': set<int>)
    requires a !! b && a' <= a && b' <= b
    ensures a' !! b'
  {
  }

  lemma IdsSingle(k: Level)
    ensures Ids([k]) == OrderIds(k.orders)
  {
    assert [k][1..] == [];
  }

  lemma DistinctIdsCons(k: Level, ls: seq<Level>)
    requires OrderIds(k.orders) !! Ids(ls) && DistinctIds(ls)
    ensures DistinctIds([k] + ls)
  {
    assert ([k] + ls)[1..] == ls;
  }

  /** matchOrder keeps every id resting at most once. */
  lemma {:induction false} MatchDistinct(side: Side, ls: seq<Level>, aggressor: int, need: int, limit: int)
    requires LevelsOk(ls) && DistinctIds(ls) && need >= 0
    ensures DistinctIds(MatchLevels(side, ls, aggressor, need, limit).levels)
  {
    if ls != [] && Eligible(side, ls[0].price, limit) {
      LevelsOkTail(ls);
      StepTraded(ls[0], aggressor, need);
      var need' := need - StepLevel(ls[0], aggressor, need).traded;
      MatchDistinct(side, ls[1..], aggressor, need', limit);
      MatchIds(side, ls[1..], aggressor, need', limit);
      MatchUnfold(side, ls, aggressor, need, limit);
      DistinctStep(ls[0], Ids(ls[1..]), MatchLevels(side, ls[1..], aggressor, need', limit).removed, aggressor, need,
                   MatchLevels(side, ls[1..], aggressor, need', limit).levels,
                   MatchLevels(side, ls, aggressor, need, limit).levels);
    }
  }

  /** The inductive step of MatchDistinct: what is left of a level whose ids
      rest nowhere else goes in front of a list without duplicates. */
  lemma DistinctStep(l: Level, others: set<int>, gone: set<int>, aggressor: int, need: int, rest: seq<Level>,
                     whole: seq<Level>)
    requires LevelOk(l) && need >= 0 && OrderIds(l.orders) !! others
    requires DistinctIds(rest) && Ids(rest) == others - gone
    requires whole == StepLevel(l, aggressor, need).levels + rest
    ensures DistinctIds(whole)
  {
    var step := StepLevel(l, aggressor, need);
    StepIds(l, map[], aggressor, need);
    StepShape(l, aggressor, need);
    if step.levels == [] {
      assert whole == rest;
    } else {
      var k := step.levels[0];
      assert step.levels == [k];
      IdsSingle(k);
      DisjointParts(OrderIds(l.orders), others, OrderIds(k.orders), Ids(rest));
      DistinctIdsCons(k, rest);
    }
  }

  /** matchOrder keeps every remaining index entry pointing at the price of
      the level that holds its order. */
  lemma {:induction false} MatchPriced(side: Side, ls: seq<Level>, index: map<int, int>, aggressor: int, need: int, limit: int)
    requires LevelsOk(ls) && Priced(ls, index) && need >= 0
    ensures Priced(MatchLevels(side, ls, aggressor, need, limit).levels, index)
  {
    if ls != [] && Eligible(side, ls[0].price, limit) {
      LevelsOkTail(ls);
      PricedTail(ls, index);
      StepTraded(ls[0], aggressor, need);
      var need' := need - StepLevel(ls[0], aggressor, need).traded;
      MatchPriced(side, ls[1..], index, aggressor, need', limit);
      MatchUnfold(side, ls, aggressor, need, limit);
      LevelsOkStep(ls[0], index, aggressor, need, MatchLevels(side, ls[1..], aggressor, need', limit).levels, MatchLevels(side, ls, aggressor, need, limit).levels);
    }
  }

  lemma MatchWf(side: Side, ls: seq<Level>, index: map<int, int>, aggressor: int, need: int, limit: int)
    requires Wf(side, ls, index) && need >= 0
    ensures var m := MatchLevels(side, ls, aggressor, need, limit);
            Wf(side, m.levels, index - m.removed)
  {
    MatchSorted(side, ls, aggressor, need, limit);
    MatchLevelsOk(side, ls, aggressor, need, limit);
    MatchIds(side, ls, aggressor, need, limit);
    MatchDistinct(side, ls, aggressor, need, limit);
    MatchPriced(side, ls, index, aggressor, need, limit);
    var m := MatchLevels(side, ls, aggressor, need, limit);
    PricedOutside(m.levels, index, index - m.removed);
  }

  /** Everything matchOrder promises, stated on the outcome it reached. */
  lemma MatchOutcome(side: Side, ls: seq<Level>, index: map<int, int>, aggressor: int, need: int, limit: int,
                     m: Outcome)
    requires Wf(side, ls, index) && need >= 0 && m == MatchLevels(side, ls, aggressor, need, limit)
    ensures Wf(side, m.levels, index - m.removed)
    ensures 0 <= m.traded <= need && Total(m.levels) == Total(ls) - m.traded
  {
    MatchWf(side, ls, index, aggressor, need, limit);
    MatchTraded(side, ls, aggressor, need, limit);
    MatchTotal(side, ls, aggressor, need, limit);
  }

  /** matchOrder leaves the levels from the first one the comparator ranks
      worse than the limit untouched, at the end of the side. */
  lemma {:induction false} MatchSuffix(side: Side, ls: seq<Level>, aggressor: int, need: int, limit: int)
    ensures var m := MatchLevels(side, ls, aggressor, need, limit);
            var untouched := ls[EligibleCount(side, ls, limit)..];
            |untouched| <= |m.levels| && m.levels[|m.levels| - |untouched|..] == untouched
  {
    var c := Cursor([], ls, need, 0, map[], []);
    SweepFromStart(side, ls, map[], [], aggressor, need, limit);
    SweepStops(side, c, aggressor, limit);
    var r := Sweep(side, c, aggressor, limit);
    SuffixOfConcat(r.done, r.ahead, r.ahead);
  }

  /** The loop stops in front of the first level the comparator ranks worse
      than the limit, and has not touched it or anything after it. */
  lemma {:induction false} SweepStops(side: Side, c: Cursor, aggressor: int, limit: int)
    ensures Sweep(side, c, aggressor, limit).ahead == c.ahead[EligibleCount(side, c.ahead, limit)..]
    decreases |c.ahead|
  {
    if c.ahead == [] || !Eligible(side, c.ahead[0].price, limit) {
      assert c.ahead[0..] == c.ahead;
    } else {
      var n := Advance(c, aggressor);
      assert n.ahead == c.ahead[1..];
      SweepStops(side, n, aggressor, limit);
      assert c.ahead[1..][EligibleCount(side, c.ahead[1..], limit)..] == c.ahead[EligibleCount(side, c.ahead, limit)..];
    }
  }

  lemma SuffixOfConcat(a: seq<Level>, b: seq<Level>, u: seq<Level>)
    requires |u| <= |b| && b[|b| - |u|..] == u
    ensures |u| <= |a + b| && (a + b)[|a + b| - |u|..] == u
  {
    assert (a + b)[|a + b| - |u|..] == b[|b| - |u|..];
  }

  /** matchOrder visits levels best first and never trades at a level the
      comparator ranks worse than the limit: every Match it records is at an
      eligible price, each at a strictly worse price than the one before. */
  lemma MatchRespectsLimit(side: Side, ls: seq<Level>, aggressor: int, need: int, limit: int)
    requires Sorted(side, ls) && LevelsOk(ls)
    ensures var m := MatchLevels(side, ls, aggressor, need, limit);
            && (forall j :: 0 <= j < |m.records| ==> Eligible(side, m.records[j].price, limit))
            && (forall i, j :: 0 <= i < j < |m.records| ==> Compare(side, m.records[i].price, m.records[j].price) < 0)
  {
    MatchRecordsAddUp(side, ls, aggressor, need, limit);
    EligiblePrefix(side, ls, limit);
    SortedPairwise(side, ls);
    LevelsOkAt(ls);
    var m := MatchLevels(side, ls, aggressor, need, limit);
    forall j | 0 <= j < |m.records|
      ensures m.records[j].price == ls[j].price
    {
      MatchRecordAt(side, ls, aggressor, need, limit, j);
    }
  }
}
