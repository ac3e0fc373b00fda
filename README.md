# Market-making trader, modelled in Dafny

The `Trader` in `algo_v2.py` trades four products: Pearls, Bananas, Coconuts and
Pina Coladas. On every exchange tick, `Trader.run` takes the current order books,
fills and positions and goes through four steps:

1. it smooths each product's mid price with an exponential moving average;
2. it derives a fair value per product (Coconuts and Pina Coladas are priced off each other);
3. it books the fills reported for the previous tick into cash and traded-volume counters;
4. it emits, per product, a list of limit orders that cross the book when it is
   mispriced and otherwise quote passively around the fair value, within the position limits.

The model keeps that structure:

| file | module | what it holds |
|---|---|---|
| `products.dfy` | `Products` | the product enum, the per-product edges, limits and decay factors, the fixed constants |
| `book.dfy` | `Book` | order books, best bid, best ask, mid |
| `estimator.dfy` | `Estimator` | the smoothing step and the fair-value formula, with their properties |
| `tracker.dfy` | `Tracker` | which fills count, and their volume and cash effect |
| `quoting.dfy` | `Quoting` | order generation for one product, as a specification function and as the appending method |
| `trader.dfy` | `TraderModel` | the `Trader` class with its five per-product tables as map fields, and the tick `Run` with its per-product loops |

`Trader.Run` is the tick. It runs four loops over the four products, each
touching only products that have a book this tick:

- `SmoothMids` (phase 1);
- `UpdateFairsAndFills`, whose body `TickProduct` updates the fair value, then calls `RecordOwnTrades` and `RecordMarketTrades` (phase 2);
- `SendOrders`, which calls `GenerateOrders` (phase 3);
- `ReportPnl`, which returns the profit-and-loss figures the source prints.

Each method states its new state in terms of a specification function:

- `EwmaAfter` for the smoothed mids;
- `FairFor` for the fair values;
- `CashFlow`/`Volume` of the `Counted` fills for the counters;
- `Quotes` for the orders;
- `PnlReport` for the profit-and-loss figures.

The properties the trader relies on are proved about those functions.

## Model

| member | source | states |
|---|---|---|
| Products.AllProductsListed | algo_v2.py:5-29 | every product is one of the four configured ones, each listed exactly once |
| Products.ConfigurationSane | algo_v2.py:31-50 | every decay factor lies strictly between 0 and 1, every edge is non-negative, every position limit is positive |
| Book.BestBid | algo_v2.py:53-59 | no bid exactly when the bid side is empty; otherwise a level of the book whose price is the maximum bid price |
| Book.BestAsk | algo_v2.py:61-67 | no ask exactly when the ask side is empty; otherwise a level of the book whose price is the minimum ask price |
| Book.Mid | algo_v2.py:69-75 | defined exactly when both sides exist; then equidistant from best bid and best ask, and between them when the book is not crossed |
| Estimator.EwmaStep | algo_v2.py:81-89 | an absent mid leaves the average unchanged; a first observation is taken as is; a known average stays known |
| Estimator.EwmaStepBetween | algo_v2.py:87-89 | for a decay strictly inside (0,1), the new average lies between the old average and the mid, strictly inside when they differ |
| Estimator.EwmaAfter | algo_v2.py:79-89 | a product without a book keeps its average; a known average never becomes unknown |
| Estimator.SmoothedStep | algo_v2.py:87-89 | under a constant mid, each tick multiplies the distance from that mid by the decay factor |
| Estimator.SmoothedMonotone | algo_v2.py:87-89 | under a constant mid, the distance of the average from it never grows |
| Estimator.SmoothedGap | algo_v2.py:87-89 | after n ticks of a constant mid, the distance equals the initial distance shrunk n times by the decay |
| Estimator.ShrunkBound | algo_v2.py:87-89 | the shrunk distance stays between 0 and its start, and times 1 + n(1-d) it stays at most the start |
| Estimator.TicksFor | algo_v2.py:87-89 | a tick count large enough that n·eps·(1-d) exceeds a given distance |
| Estimator.SmoothedConverges | algo_v2.py:87-89 | under a constant mid, the average comes within any eps > 0 of it after finitely many ticks |
| Estimator.EwmaAfterTicks | algo_v2.py:79-89 | phase 1 repeated n times over the same books; a known average stays known through every repetition |
| Estimator.SteadyBookIsSmoothed | algo_v2.py:79-89 | over a book whose mid stays at c, n ticks of phase 1 give exactly the constant-mid smoothing with the product's configured decay factor |
| Estimator.SteadyBookConverges | algo_v2.py:79-89 | for every configured product, over a book whose mid stays put, the average comes within any eps > 0 of that mid after finitely many ticks |
| Estimator.LinkedFair | algo_v2.py:98-102 | the basis formula: the fair value equals the own average when the counterpart's mid equals its average or the weight is 0, and with weight 1 it scales the own average by the counterpart's mid over its average |
| Estimator.LinkedFairDirection | algo_v2.py:95-102 | the linked fair value lies above, at or below the own average exactly when the counterpart's live mid lies above, at or below the counterpart's average |
| Estimator.LinkedFairExample | algo_v2.py:98 | own average 50, weight 0.5, counterpart mid 110 over average 100 give fair value 52.5 |
| Estimator.FairFor | algo_v2.py:91-102 | Bananas and Pearls take their updated average; the linked pair uses the basis formula with its weight and the counterpart's updated average, and keeps the previous fair value when the counterpart mid or its own average is unknown |
| Estimator.MidSeenMeansEwmaKnown | algo_v2.py:83-85 | a product whose book has both sides has a known average after phase 1, so the counterpart average read in phase 2 is never missing |
| Tracker.Counted | algo_v2.py:107 | a fill counts exactly when it is in the report and stamped with the given time |
| Tracker.FillCash | algo_v2.py:109-112 | a fill moves cash by -price·quantity when only the buyer is this trader, by +price·quantity when only the seller is, and by 0 when it is on neither side or both |
| Tracker.VolumeNonNegative | algo_v2.py:108-116 | volume adds up quantities: with no negative quantity it is non-negative and at least each single fill's quantity |
| Tracker.ThirdPartyFillsMoveNoCash | algo_v2.py:109-112 | the cash effect of fills in which this trader is neither buyer nor seller is 0 |
| Tracker.CountedAppend | algo_v2.py:106-107 | counting fills distributes over concatenated reports and keeps their order |
| Tracker.VolumeAppend | algo_v2.py:108 | traded volume is additive over concatenated fill lists |
| Tracker.CashFlowAppend | algo_v2.py:109-112 | the cash effect is additive over concatenated fill lists |
| Tracker.StaleFillsIgnored | algo_v2.py:107 | a report with no fill stamped one tick ago moves neither volume nor cash |
| Tracker.OtherTimestampIgnored | algo_v2.py:107 | a fill with another timestamp changes nothing, wherever it sits in the report |
| Tracker.OwnFillCash | algo_v2.py:107-112 | a counted fill adds its quantity to the volume; it moves cash down by price·quantity when only the buyer is this trader, up when only the seller is, and not at all when neither is |
| Tracker.FillStep | algo_v2.py:105-112 | scanning one more fill moves volume and cash by that fill's amounts exactly when it is stamped one tick ago |
| Quoting.NonZero | algo_v2.py:168 | an order is kept exactly when it has a non-zero quantity; the result is no longer than the input |
| Quoting.NonZeroAppend | algo_v2.py:168 | filtering distributes over concatenation, so the kept orders stay in their original order |
| Quoting.NonZeroKeeps | algo_v2.py:168 | a list without zero-quantity orders is kept whole |
| Quoting.NonZeroVolumes | algo_v2.py:168 | dropping zero orders changes neither the bought nor the sold total |
| Quoting.VolumesAppend | algo_v2.py:120-165 | bought and sold totals are additive over the order list as it is appended to |
| Quoting.ClipSplit | algo_v2.py:145-146 | for capacity m > 0 the aggressive clip is between 1 and m, the passive rest is non-negative, both sum to m, and the clip is the integer part of 0.9·m unless that is 0 |
| Quoting.ClipSplitExample | algo_v2.py:145-146 | capacity 10 splits into 9 and 1 |
| Quoting.HitBid | algo_v2.py:133-136 | sells exactly when the best bid exists and lies above fair, at that bid and for the product; the net quantity sold is the smaller of the resting bid quantity and the sell capacity, and the capacity left plus it equals the starting sell capacity |
| Quoting.LiftAsk | algo_v2.py:138-141 | buys exactly when the best ask exists and lies below fair, at that ask and for the product; the net quantity bought is the smaller of the resting ask quantity (negated) and the buy capacity, and the capacity left plus it equals the starting buy capacity |
| Quoting.SellTaken | algo_v2.py:126-136 | products other than Bananas and Pearls, or an unknown fair value, take nothing and keep the whole sell capacity pos + L; in every case capacity is conserved |
| Quoting.BuyTaken | algo_v2.py:127-141 | products other than Bananas and Pearls, or an unknown fair value, take nothing and keep the whole buy capacity L - pos; in every case capacity is conserved |
| Quoting.RawQuotes | algo_v2.py:118-165 | the orders of one product before zero elimination: all for that product, at most six of them |
| Quoting.QuotesFacts | algo_v2.py:118-168 | the orders one product sends: exactly the raw orders with a non-zero quantity, all for the product, with the same bought and sold totals as the raw orders |
| Quoting.BidQuotes | algo_v2.py:143-153 | without a bid or a fair value, the whole buy capacity at price 1; when one tick above the bid is still below fair minus edge, a positive capacity splits into the ClipSplit clip at bid + 1 and the remainder at bid (nothing for a capacity of 0 or less); otherwise the whole capacity at bid when the bid is below fair minus edge, else nothing; hence every quote is below fair minus edge and the bought total equals the capacity whenever a quote is placed |
| Quoting.AskQuotes | algo_v2.py:155-165 | without an ask or a fair value, the whole sell capacity at price 99999; when one tick below the ask is still above fair plus edge, a positive capacity splits into the ClipSplit clip at ask - 1 and the remainder at ask (nothing for a capacity of 0 or less); otherwise the whole capacity at ask when the ask is above fair plus edge, else nothing; hence every quote is above fair plus edge and the sold total equals the capacity whenever a quote is placed |
| Quoting.SellTakenFacts | algo_v2.py:133-136 | the crossing step only sells; a crossing sell is for Bananas or Pearls only, at the best bid, when that bid is above fair; it sells the smaller of the resting bid quantity and the sell capacity, so never more than rests there and all of it unless the capacity runs out; the amount sold plus the capacity left equals pos + L, and the capacity left is non-negative |
| Quoting.BuyTakenFacts | algo_v2.py:138-141 | the crossing step only buys; a crossing buy is for Bananas or Pearls only, at the best ask, when that ask is below fair; it buys the smaller of the resting ask quantity and the buy capacity, so never more than rests there and all of it unless the capacity runs out; the amount bought plus the capacity left equals L - pos, and the capacity left is non-negative |
| Quoting.QuotesWithinLimits | algo_v2.py:125-168 | with the position within its limit and a sign-correct book, every order is for the product and non-zero, and filling all buys or all sells keeps the position within [-L, L] |
| Quoting.QuotePrices | algo_v2.py:132-163 | with a known fair value, every buy is a crossing buy at the best ask below fair, a passive quote below fair minus edge, or the fallback at 1; sells mirror this |
| Quoting.NoSelfCross | algo_v2.py:132-165 | with a known fair value and both sides of the book present, every buy price is below every sell price, at any position |
| Quoting.NoSellsWhenShort | algo_v2.py:126-165 | short beyond the limit, with both sides present and a known fair value, no order sells |
| Quoting.NoBuysWhenLong | algo_v2.py:127-165 | long beyond the limit, with both sides present and a known fair value, no order buys |
| Quoting.QuotesWithoutFair | algo_v2.py:143-165 | with no fair value, the orders are the two fallbacks (whole buy capacity at 1, whole sell capacity at 99999) with zero quantities dropped |
| Quoting.SplitExample | algo_v2.py:145-149 | best bid 9996, fair 10000, edge 0.5 and capacity 10 give 9 at 9997 and 1 at 9996 |
| Quoting.FallbackExample | algo_v2.py:138-165 | Pearls with no bids, an ask at fair value 10000, position 0 and limit 20: nothing crosses, the fallback buys 20 at price 1, and the ask side sends nothing |
| Quoting.QuoteBidSide | algo_v2.py:143-153 | appending the bid side to the orders so far gives exactly those orders followed by BidQuotes |
| Quoting.QuoteAskSide | algo_v2.py:155-165 | appending the ask side to the orders so far gives exactly those orders followed by AskQuotes |
| Quoting.GenerateOrders | algo_v2.py:118-171 | the imperative order loop body (crossing, capacity decrements, side quotes, zero filter) produces exactly Quotes |
| TraderModel.Trader.constructor | algo_v2.py:4-29 | cash and both volume counters start at 0; Pearls starts with average and fair value 10000, every other product with neither |
| TraderModel.PositionOf | algo_v2.py:125 | the reported position of p, or 0 when the exchange reports none |
| TraderModel.FillsOfTick | algo_v2.py:105-115 | the fills booked for p are exactly p's reported fills stamped one tick ago; none when p has no report |
| TraderModel.PhaseOneEwmas | algo_v2.py:79-89 | phase 1 on the whole table: same products, products without a book keep their average, a known average stays known |
| TraderModel.PnlReport | algo_v2.py:174-182 | the corrected profit-and-loss report: exactly the products with a book, a reported position and a known average; a flat position reports just its cash |
| TraderModel.PnlAsWritten | algo_v2.py:174-182 | the report as written fails exactly when a product with a book and a reported position has no average yet, and otherwise equals PnlReport |
| TraderModel.PnlCrashExample | algo_v2.py:175-179 | a fresh trader, a Bananas book with bids only and Bananas position 0 meet every requirement of a tick, yet the report as written fails there while the corrected one is empty |
| TraderModel.Trader.ReportPnl | algo_v2.py:174-182 | the report loop builds exactly PnlReport from the post-tick averages and cash |
| TraderModel.Trader.RecordOwnTrades | algo_v2.py:104-112 | cash and own volume of p move by the cash effect and volume of p's own fills stamped one tick ago; nothing else changes |
| TraderModel.Trader.RecordMarketTrades | algo_v2.py:113-116 | market volume of p moves by the volume of p's third-party fills stamped one tick ago; nothing else changes |
| TraderModel.Trader.SmoothMids | algo_v2.py:79-89 | every product's average becomes EwmaAfter of its old one; no other table changes |
| TraderModel.Trader.UpdateFair | algo_v2.py:91-102 | the fair value of p becomes FairFor from the updated averages; no other entry changes |
| TraderModel.Trader.TickProduct | algo_v2.py:91-116 | phase 2 for one product with a book: its fair value and counters as TickedAt says, every other product's entries unchanged |
| TraderModel.Trader.UpdateFairsAndFills | algo_v2.py:91-116 | every product with a book gets its fair value and its counted fills; every other product keeps its entries |
| TraderModel.Trader.SendOrders | algo_v2.py:118-171 | orders are sent for exactly the products with a book, each list being Quotes at the product's fair value and reported position (0 when unreported) |
| TraderModel.Trader.Run | algo_v2.py:53-184 | one tick: averages as EwmaAfter, a known average stays known, fair values as FairFor, cash only from own fills, volumes from the counted fills, products without a book untouched, orders as SendOrders, and the profit-and-loss report as PnlReport of the new state |

## Left out

- The `print` calls (algo_v2.py:130, 169-170, 176-182) are not modelled. The figures the profit-and-loss loop prints at lines 174-182 are `Run`'s second result instead.
- TraderModel.Trader.Run: does not model the `TypeError` at algo_v2.py:179. When a product has a book and a reported position but no average yet, the source fails there and `run` returns no orders. `Run` returns its orders and leaves that product out of the report (see Findings).
- The `datamodel` module (`OrderDepth`, `TradingState`, `Order`, `Trade`) is not part of this model. Its types are plain datatypes here.
- Each side of a book is a sequence of (price, quantity) levels rather than a dictionary. Best bid and best ask pick a level with the extreme price. Dictionary keys are distinct, and the model does not need that.
- Sell quantities are negative by exchange convention, which the source relies on when it negates the best-ask quantity. `SignCorrect` states this, and only the limit and price lemmas require it.
- Floating point is not modelled. The average and fair value are exact reals. The clip `int(max_bid_size * 0.9)` is the integer `(9*m)/10`, which can differ from the float computation only by rounding.
- Crash paths are preconditions of `Run` (through `LinkedDefined`), not error results. These are: a missing Coconuts or Pina Coladas book when the other one has a book (a `KeyError`), and a zero counterpart average (a `ZeroDivisionError`). A product outside the four configured ones (also a `KeyError`) cannot be expressed, because products are an enum.
- Dictionary iteration order is replaced by the fixed order Pearls, Bananas, Coconuts, Pina Coladas. Each loop updates only the current product's entries and reads nothing another iteration writes, so the result is the same in any order.
- `RecordOwnTrades` and `RecordMarketTrades` add the fills into local totals and write each table entry once, after the loop. The source adds into the dictionary entry fill by fill. Nothing reads the entry in between, so the final state is the same.
- Tracker.Volume, Tracker.CashFlow and Quoting.Quotes carry no contract of their own: `VolumeNonNegative`, `ThirdPartyFillsMoveNoCash`, the append lemmas and `QuotesFacts` state what they compute.
- The exchange framework that calls `run` every tick and submits the returned orders is outside the model. So is the simulator that produces each `TradingState`.

## Findings

| source | as written | input that shows it | evidently intended | confidence | as-written member | corrected member |
|---|---|---|---|---|---|---|
| algo_v2.py:175-179 | the guard only checks that the product has an entry in `mid_ewmas`, then multiplies the position by that entry, which is `None` until a two-sided book has been seen | a fresh trader, `order_depths = {BANANAS: bids {4990: 5}, no asks}`, `position = {BANANAS: 0}`: line 179 raises `TypeError`, so `run` returns no orders for any product | skip products whose smoothed mid is still unknown, as the guard on line 175 evidently means to | high (not executed) | TraderModel.PnlAsWritten, TraderModel.PnlCrashExample | TraderModel.PnlReport, TraderModel.Trader.ReportPnl |
