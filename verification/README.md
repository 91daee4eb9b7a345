# OrderBookSide in Dafny

This project models one side (bids or asks) of one instrument's order book in
the Stock-Exchange matching engine. It covers the class `OrderBookSide`
with its inner classes `OrdersAtPrice` and `Node`, and proves what its
operations do to the book.

The side keeps three structures:

- **Price levels.** A linked list `ordersByPrice` of levels, best price first.
  It is kept ordered by an injected `Comparator<Long>`, modelled as
  `Side = Bid | Ask` with a Java-style `Compare` that answers -1, 0 or 1.
- **A FIFO queue per level.** Each level (`OrdersAtPrice`) holds an
  intrusive doubly-linked chain of `Node`s in arrival order. It is modelled
  as a `Level(price, orders: seq<Order>)`, head first. An `Order` carries
  its id, original quantity and filled quantity.
- **An id index.** `idToNode` maps each id to its node. In the model it is a
  `map<int, int>` from id to the node's price, which is all that
  `removeOrder` reads through it.

The files:

- `price_level.dfy` (module `PriceLevel`): orders, levels, `trade`,
  `OrdersAtPrice.add`, `removeNode`/`unlink` and `getTotalBuyQuantity`.
- `ladder.dfy` (module `Ladder`): the side as a value. It holds the
  invariant `Wf`, which says:
  - level prices are strictly ordered by the comparator, hence unique;
  - no level is empty;
  - every order keeps `0 <= filled <= quantity`;
  - no id rests twice;
  - the index keys are exactly the resting ids, each mapped to the price of
    its level.

  It also holds the functions that say what `addOrder` (`Insert`),
  `removeOrder` (`RemoveFrom`) and `matchOrder` (`MatchLevels`) do, and the
  lemmas about them.
- `book.dfy` (module `Book`): the class `OrderBookSide`, whose fields
  `levels`, `index` and a ghost log `matches` are updated in place. Its
  methods have the source's loops and are proved against the `Ladder`
  functions. `matchOrder`'s loops are split into four methods:
  - `WalkLevels`: the outer loop;
  - `PassLevel`: one pass of it;
  - `WalkChain`: the inner loop;
  - `TradeNode` and `UnlinkNode`: `trade` and `removeNode` on one node.
- `findings.dfy` (module `Findings`): where the code does not do what
  `matchMustFillOrder` relies on, and the draining match that was evidently
  intended.

`matchOrder` is modelled as written. When a node is filled, `removeNode`
unlinks it, and `unlink` clears its `next`. The inner loop then reads that
`next` and ends. So only the head of each eligible level is visited:

- if the head is filled, it leaves the chain and the index, and the level
  goes once its chain is empty;
- if the head is not filled, the whole need was met and the loop breaks.

The outer loop goes on to every eligible level even after the need is met.
There it trades 0 with the head and constructs a `Match` of quantity 0.

All source paths below are relative to the repository root. Every line
number refers to `Server/src/main/java/org/jj/matchingEngine/OrderBookSide.java`.

## Model

| member | source | states |
|---|---|---|
| PriceLevel.TradeSpec | Server/src/main/java/org/jj/matchingEngine/OrderBookSide.java:145-151 | trade fills the resting order by exactly the quantity it returns, which is min(need, remaining): never more than needed nor than the order has left. The order is completely filled iff it had no more than was needed, and otherwise the whole need was traded. The Match records aggressor, resting id, quantity and price. Bounds 0 <= filled <= quantity are kept. |
| PriceLevel.UnlinkSpec | Server/src/main/java/org/jj/matchingEngine/OrderBookSide.java:218-226 | unlinking a node keeps the level's price and every other node, in arrival order, and the chain is one shorter |
| PriceLevel.RemoveNodeExact | Server/src/main/java/org/jj/matchingEngine/OrderBookSide.java:176-184 | removeNode deletes exactly the node with that id, at its position, and keeps the order of the rest. The level's ids lose exactly that id, stay distinct, and its depth drops by the node's remaining quantity. A level with more than one node stays well formed. |
| PriceLevel.AddAppendsToTail | Server/src/main/java/org/jj/matchingEngine/OrderBookSide.java:165-169 | add puts the new node last and leaves the earlier nodes as they were. The level gains exactly the new id and the new order's remaining quantity, and stays well formed when the id is fresh. |
| PriceLevel.GetTotalBuyQuantity | Server/src/main/java/org/jj/matchingEngine/OrderBookSide.java:190-200 | the loop returns the sum of remaining quantities over the chain, which is never negative for bounded orders |
| Ladder.Compare | Server/src/main/java/org/jj/matchingEngine/OrderBookSide.java:16 | the comparator answers -1, 0 or 1, 0 exactly for equal prices, and negative when the first price is better (lower on the ask side, higher on the bid side) |
| Ladder.SortedPairwise | Server/src/main/java/org/jj/matchingEngine/OrderBookSide.java:13 | the side's ordering says of every pair of levels that the earlier one ranks strictly better |
| Ladder.InsertScan | Server/src/main/java/org/jj/matchingEngine/OrderBookSide.java:30-40 | one step of addOrder's scan. At the level with the same price, the order joins it. In front of a worse level, a new level opens there. Otherwise the scan passes on. |
| Ladder.InsertSorted | Server/src/main/java/org/jj/matchingEngine/OrderBookSide.java:27-44 | addOrder keeps level prices strictly ordered by the comparator and unique |
| Ladder.InsertIds | Server/src/main/java/org/jj/matchingEngine/OrderBookSide.java:24-44 | addOrder with a fresh id adds exactly that id to the side's ids and keeps levels non-empty, bounded and duplicate-free |
| Ladder.InsertTotal | Server/src/main/java/org/jj/matchingEngine/OrderBookSide.java:27-44 | addOrder adds the new order's remaining quantity to the side's depth |
| Ladder.InsertPriced | Server/src/main/java/org/jj/matchingEngine/OrderBookSide.java:25-44 | the index entry of every order names the price of its level, the new order included |
| Ladder.InsertWf | Server/src/main/java/org/jj/matchingEngine/OrderBookSide.java:23-48 | after addOrder with a fresh id the whole invariant holds with the id indexed at its price, and the depth grows by its remaining quantity |
| Ladder.InsertJoins | Server/src/main/java/org/jj/matchingEngine/OrderBookSide.java:31-34 | at a price that has a level, the order goes to the tail of that level and every other level is unchanged |
| Ladder.InsertOpens | Server/src/main/java/org/jj/matchingEngine/OrderBookSide.java:35-44 | at a new price, a one-order level goes in after every better level and before every worse one, or at the end; the other levels are unchanged |
| Ladder.RemoveScan | Server/src/main/java/org/jj/matchingEngine/OrderBookSide.java:59-67 | one step of removeOrder's scan. At the level with the order's price, the node is unlinked and the level goes iff it became empty. Any other level is passed. |
| Ladder.RemovePlacement | Server/src/main/java/org/jj/matchingEngine/OrderBookSide.java:54-67 | removeOrder finds the order's level through the index. It deletes exactly that node and keeps the arrival order of the rest. Every other level is unchanged, and the level goes iff the node was its only one. |
| Ladder.RemoveSplit | Server/src/main/java/org/jj/matchingEngine/OrderBookSide.java:58-67 | removeOrder changes the side only at the level with the order's price |
| Ladder.RemoveHere | Server/src/main/java/org/jj/matchingEngine/OrderBookSide.java:62-65 | at that level the node goes, and so does the level iff the node was its last |
| Ladder.RemoveSorted | Server/src/main/java/org/jj/matchingEngine/OrderBookSide.java:54-67 | removeOrder keeps level prices strictly ordered and unique |
| Ladder.RemoveIds | Server/src/main/java/org/jj/matchingEngine/OrderBookSide.java:54-67 | removeOrder takes exactly that id off the side and leaves no empty level and no duplicate id |
| Ladder.RemovePriced | Server/src/main/java/org/jj/matchingEngine/OrderBookSide.java:54-67 | removeOrder keeps every index entry naming the price of its order's level |
| Ladder.RemoveWf | Server/src/main/java/org/jj/matchingEngine/OrderBookSide.java:54-67 | after removeOrder the invariant holds with the id gone from both the index and the levels |
| Ladder.IdLocated | Server/src/main/java/org/jj/matchingEngine/OrderBookSide.java:55-61 | under the invariant, the index entry of a resting id leads to the level that holds it |
| Ladder.StepBasics | Server/src/main/java/org/jj/matchingEngine/OrderBookSide.java:83-85 | visiting a level trades once, with its head, at the level's price |
| Ladder.ChainStep | Server/src/main/java/org/jj/matchingEngine/OrderBookSide.java:83-99 | the inner loop on one level trades with the head. If that fills it, the head is unlinked and leaves the index, and the level goes when empty. Otherwise the head keeps its new fill and the whole need was traded. |
| Ladder.StepShape | Server/src/main/java/org/jj/matchingEngine/OrderBookSide.java:86-93 | a visit leaves at most that level behind, at its price |
| Ladder.StepKeepsQueue | Server/src/main/java/org/jj/matchingEngine/OrderBookSide.java:86-93 | a visit leaves the orders behind the head untouched and in order |
| Ladder.StepTraded | Server/src/main/java/org/jj/matchingEngine/OrderBookSide.java:85 | a visit trades between 0 and the quantity still needed |
| Ladder.StepTotal | Server/src/main/java/org/jj/matchingEngine/OrderBookSide.java:85-93 | a visit takes from the level's depth exactly what it trades |
| Ladder.StepIds | Server/src/main/java/org/jj/matchingEngine/OrderBookSide.java:87-93 | a visit removes the head's id iff the head was filled, removes it from the level's ids, and keeps the level well formed and priced |
| Ladder.EligiblePrefix | Server/src/main/java/org/jj/matchingEngine/OrderBookSide.java:76-81 | the levels matchOrder may visit are exactly those before the first level the comparator ranks worse than the limit |
| Ladder.EligibleTotalNonNegative | Server/src/main/java/org/jj/matchingEngine/OrderBookSide.java:107-120 | the depth over eligible levels, which matchMustFillOrder counts, is never negative |
| Ladder.SweepIsMatch | Server/src/main/java/org/jj/matchingEngine/OrderBookSide.java:76-100 | the outer loop, run from any point, does to the levels ahead of it what MatchLevels says and leaves the passed levels alone |
| Ladder.SweepFromStart | Server/src/main/java/org/jj/matchingEngine/OrderBookSide.java:73-101 | matchOrder's loop, started with nothing traded, ends where MatchLevels says |
| Ladder.SweepStops | Server/src/main/java/org/jj/matchingEngine/OrderBookSide.java:79-81 | the loop stops in front of the first level ranked worse than the limit |
| Ladder.AdvanceSplices | Server/src/main/java/org/jj/matchingEngine/OrderBookSide.java:76-99 | one pass over the level at position i replaces it by what the visit leaves of it, and moves the loop just past it |
| Ladder.MatchTraded | Server/src/main/java/org/jj/matchingEngine/OrderBookSide.java:72-101 | matchOrder returns between 0 and the quantity asked |
| Ladder.MatchTotal | Server/src/main/java/org/jj/matchingEngine/OrderBookSide.java:72-101 | the side's total remaining quantity drops by exactly what matchOrder returns |
| Ladder.MatchRecordsAddUp | Server/src/main/java/org/jj/matchingEngine/OrderBookSide.java:76-99 | matchOrder constructs one Match per eligible level, and their quantities add up to what it returns |
| Ladder.MatchRecordAt | Server/src/main/java/org/jj/matchingEngine/OrderBookSide.java:83-85 | the j-th Match is against the head of the j-th level, at that level's price, for this aggressor |
| Ladder.MatchRecordQuantity | Server/src/main/java/org/jj/matchingEngine/OrderBookSide.java:85 | the j-th Match is for min(quantity still needed, the head's remaining quantity) |
| Ladder.MatchBetter | Server/src/main/java/org/jj/matchingEngine/OrderBookSide.java:72-101 | matchOrder keeps every level ranked worse than a price that was better than all of them |
| Ladder.MatchSorted | Server/src/main/java/org/jj/matchingEngine/OrderBookSide.java:72-101 | matchOrder keeps level prices strictly ordered and unique |
| Ladder.MatchLevelsOk | Server/src/main/java/org/jj/matchingEngine/OrderBookSide.java:87-93 | matchOrder leaves no empty level and keeps every order bounded |
| Ladder.MatchIds | Server/src/main/java/org/jj/matchingEngine/OrderBookSide.java:87-93 | the ids matchOrder takes off the index are ids that rested, and the levels lose exactly those |
| Ladder.MatchDistinct | Server/src/main/java/org/jj/matchingEngine/OrderBookSide.java:72-101 | matchOrder keeps every id resting at most once |
| Ladder.MatchPriced | Server/src/main/java/org/jj/matchingEngine/OrderBookSide.java:72-101 | matchOrder keeps every remaining index entry naming the price of its order's level |
| Ladder.MatchWf | Server/src/main/java/org/jj/matchingEngine/OrderBookSide.java:72-101 | after matchOrder the whole invariant holds with the filled ids gone from the index |
| Ladder.MatchOutcome | Server/src/main/java/org/jj/matchingEngine/OrderBookSide.java:72-101 | invariant kept, result within [0, quantity], depth conserved |
| Ladder.MatchSuffix | Server/src/main/java/org/jj/matchingEngine/OrderBookSide.java:79-81 | the levels from the first one ranked worse than the limit are left untouched, at the end of the side |
| Ladder.MatchRespectsLimit | Server/src/main/java/org/jj/matchingEngine/OrderBookSide.java:76-81 | every Match is at a price the limit allows, each at a strictly worse price than the one before (best first) |
| Book.OrderBookSide.constructor | Server/src/main/java/org/jj/matchingEngine/OrderBookSide.java:18-21 | a new side is empty and satisfies the invariant |
| Book.OrderBookSide.HasOrder | Server/src/main/java/org/jj/matchingEngine/OrderBookSide.java:50-52 | under the invariant, true iff the id rests on the side |
| Book.OrderBookSide.AddOrder | Server/src/main/java/org/jj/matchingEngine/OrderBookSide.java:23-48 | the loop leaves the levels as Insert says and indexes the id at its price; the invariant holds and the depth grows by the new order's remaining quantity |
| Book.OrderBookSide.RemoveOrder | Server/src/main/java/org/jj/matchingEngine/OrderBookSide.java:54-70 | returns true, leaves the levels as RemoveFrom says, and drops the id from the index; the invariant holds |
| Book.OrderBookSide.MatchOrder | Server/src/main/java/org/jj/matchingEngine/OrderBookSide.java:72-102 | the levels, index and Match log become what MatchLevels says. The result is MatchLevels' traded quantity, within [0, quantity]. The depth drops by exactly the result, and the invariant holds. |
| Book.OrderBookSide.WalkLevels | Server/src/main/java/org/jj/matchingEngine/OrderBookSide.java:74-101 | the outer loop over the levels reaches the state MatchLevels says |
| Book.OrderBookSide.PassLevel | Server/src/main/java/org/jj/matchingEngine/OrderBookSide.java:77-99 | one pass of the outer loop moves the loop's position exactly as Advance says |
| Book.OrderBookSide.WalkChain | Server/src/main/java/org/jj/matchingEngine/OrderBookSide.java:83-99 | the inner loop replaces the level by what StepLevel leaves of it, reports whether the level went, and adds the visit's trade, removed ids and records |
| Book.OrderBookSide.TradeNode | Server/src/main/java/org/jj/matchingEngine/OrderBookSide.java:145-151 | trade on one node: the node is filled as Trade says, its Match is logged, and the quantity is returned; nothing else changes |
| Book.OrderBookSide.UnlinkNode | Server/src/main/java/org/jj/matchingEngine/OrderBookSide.java:89-92 | removeNode on one node and iterator.remove of the level iff its chain became empty; nothing else changes |
| Book.OrderBookSide.MatchMustFillOrder | Server/src/main/java/org/jj/matchingEngine/OrderBookSide.java:104-130 | returns false exactly when the eligible depth is below the quantity, and then changes nothing; otherwise the side becomes what matchOrder makes of it |
| Book.OrderBookSide.GetFiveBestOrdersAndQuantitiesList | Server/src/main/java/org/jj/matchingEngine/OrderBookSide.java:132-143 | min(#levels, 5) parallel lists, best first: each level's price and its remaining depth. Prices are strictly ordered and depths non-negative under the invariant. |
| Findings.HeadOnlyCounterexample | Server/src/main/java/org/jj/matchingEngine/OrderBookSide.java:83-99 | with two live orders at one eligible level and a need covering both, matchOrder trades only the head's remaining quantity, less than the need and the eligible depth |
| Findings.MustFillPartial | Server/src/main/java/org/jj/matchingEngine/OrderBookSide.java:104-130 | matchMustFillOrder's count covers such an order, yet matchOrder fills only part of it |
| Findings.ZeroTradeRecord | Server/src/main/java/org/jj/matchingEngine/OrderBookSide.java:95-96 | after the need is met at one level, the next eligible level still gets a Match of quantity 0 |
| Findings.DrainOrdersTraded | Server/src/main/java/org/jj/matchingEngine/OrderBookSide.java:83-99 | the corrected inner loop trades min(need, the chain's depth) |
| Findings.DrainLevelsTraded | Server/src/main/java/org/jj/matchingEngine/OrderBookSide.java:72-101 | the corrected matchOrder trades min(need, eligible depth) |
| Findings.MustFillDrainingFills | Server/src/main/java/org/jj/matchingEngine/OrderBookSide.java:104-130 | with the corrected match, an accepted must-fill order is filled in full, and a refused one trades nothing and changes nothing |
| Findings.DrainLevelsPositive | Server/src/main/java/org/jj/matchingEngine/OrderBookSide.java:95-96 | with the corrected match, and every resting order having quantity left, every Match is of positive quantity |

## Left out

- Match objects and `TimestampProvider.getTimestamp()` (line 148): the
  `Match` is constructed and discarded. The model keeps a ghost log of
  (aggressor, resting id, quantity, price) instead and leaves out the
  timestamp.
- `Node.price`: it always equals the price of the node's level, so orders do
  not carry it.
- `Node.prev`/`next`, `OrdersAtPrice.head`/`tail` and the `Node` objects the
  index points to are modelled by sequence positions. So the model does not
  capture aliasing between the index and the chains. It also does not
  capture a stale `next` reference beyond its one effect: it ends the inner
  loop.
- Logging (lines 11 and 46), `Node.toString` and the unused `Node.fillOrder`.
- The unreachable `else` branch at lines 45-46, since `added` is never set.
- `long` overflow of the running sums (lines 85, 115, 195): integers are
  unbounded.
- Concurrency: one sequential owner of the side is assumed.
- MatchingEngineImpl and OrderStore are not part of this model.
- Book.OrderBookSide.AddOrder: requires a fresh id and
  `0 <= quantityFilled <= quantity`. The source silently overwrites the
  index entry of a duplicate id and does not check the bounds.
- Book.OrderBookSide.RemoveOrder: requires `hasOrder(id)`. With an unknown
  id the source fails its `assert` and then dereferences null, so that path
  is not modelled.
- Book.OrderBookSide.MatchOrder: requires `quantity >= 0`. With a negative
  quantity `trade` would un-fill resting orders, which the invariant rules
  out. `WalkLevels` carries no such requirement.
- Book.OrderBookSide.HasOrder: states its meaning only under the invariant,
  since the index alone is what the source reads.

## Findings

| source | as written | input that shows it | evidently intended | confidence | as-written member | corrected member |
|---|---|---|---|---|---|---|
| Server/src/main/java/org/jj/matchingEngine/OrderBookSide.java:89-98 | after a filled node is removed, `currentNode.getNext()` reads the `next` that `unlink` just cleared, so only the head of each level can trade | ask orders of 5 (id 1) and 5 (id 2) at price 10; matchOrder for 10 at limit 10 trades 5 | drain each level oldest first until the need is met | not executed | Findings.HeadOnlyCounterexample | Findings.DrainLevelsTraded |
| Server/src/main/java/org/jj/matchingEngine/OrderBookSide.java:104-130 | matchMustFillOrder counts whole levels, then ignores matchOrder's result and reports success | the same book and a must-fill buy for 10 at 10: returns true, fills 5 | an accepted must-fill order is filled in full | not executed | Findings.MustFillPartial | Findings.MustFillDrainingFills |
| Server/src/main/java/org/jj/matchingEngine/OrderBookSide.java:95-96 | the `break` leaves only the inner loop, so later eligible levels trade 0 with their heads and construct zero-quantity Matches | ask orders of 5 at 10 and 5 at 11; matchOrder for 5 at limit 11 records a Match of 0 at 11 | stop matching once the quantity is reached | not executed | Findings.ZeroTradeRecord | Findings.DrainLevelsPositive |

`Book.OrderBookSide` follows the code as written. The corrected match is
defined in module `Findings` (`DrainOrders`, `DrainLevels`,
`MustFillDraining`), and the corrected properties are proved there.
