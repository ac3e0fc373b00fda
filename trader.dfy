/** The trader: per-product state kept across ticks, and the per-tick
    pipeline (smooth mids, derive fair values, book fills, quote). */
module TraderModel {
  import opened Products
  import opened Book
  import opened Estimator
  import opened Tracker
  import opened Quoting

  /** What the exchange hands the trader each tick. */
  datatype TradingState = TradingState(
    timestamp: int,
    orderDepths: map<Product, OrderDepth>,
    ownTrades: map<Product, seq<Trade>>,
    marketTrades: map<Product, seq<Trade>>,
    position: map<Product, int>)

  /** Current position of p; a product the exchange does not list has position 0. */
  function PositionOf(state: TradingState, p: Product): (r: int)
    ensures p in state.position ==> r == state.position[p]
    ensures p !in state.position ==> r == 0
  {
    if p in state.position then state.position[p] else 0
  }

  /** The trader's own fills of p that count this tick (stamped one tick ago). */
  function OwnFills(state: TradingState, p: Product): seq<Trade>
  {
    if p in state.ownTrades then Counted(state.ownTrades[p], state.timestamp - TickInterval) else []
  }

  /** Third-party fills of p that count this tick. */
  function MarketFills(state: TradingState, p: Product): seq<Trade>
  {
    if p in state.marketTrades then Counted(state.marketTrades[p], state.timestamp - TickInterval) else []
  }

  /** The fills booked for p this tick are exactly the reported fills of p
      stamped one tick ago; a product without a report has none. */
  lemma FillsOfTick(state: TradingState, p: Product)
    ensures p !in state.ownTrades ==> OwnFills(state, p) == []
    ensures forall tr :: tr in OwnFills(state, p) <==>
              p in state.ownTrades && tr in state.ownTrades[p] && tr.timestamp == state.timestamp - TickInterval
    ensures p !in state.marketTrades ==> MarketFills(state, p) == []
    ensures forall tr :: tr in MarketFills(state, p) <==>
              p in state.marketTrades && tr in state.marketTrades[p] && tr.timestamp == state.timestamp - TickInterval
  {
  }

  /** All smoothed mids after phase 1 of a tick with books od. */
  function PhaseOneEwmas(ewmas: map<Product, Option<real>>, od: map<Product, OrderDepth>): (r: map<Product, Option<real>>)
    ensures r.Keys == ewmas.Keys
    ensures forall p :: p in ewmas && p !in od ==> r[p] == ewmas[p]
    ensures forall p :: p in ewmas && ewmas[p].Some? ==> r[p].Some?
  {
    map p | p in ewmas :: EwmaAfter(p, ewmas[p], od)
  }

  /** The profit-and-loss report of a tick: for every product with a book,
      a reported position and a known smoothed mid, the position valued at
      that smoothed mid plus the product's cash.  Products whose smoothed
      mid is still unknown are skipped. */
  function PnlReport(ewmas: map<Product, Option<real>>, cash: map<Product, int>,
                     od: map<Product, OrderDepth>, position: map<Product, int>): (r: map<Product, real>)
    requires Total(ewmas) && Total(cash)
    ensures forall p :: p in r <==> p in od && p in position && ewmas[p].Some?
    ensures forall p :: p in r && position[p] == 0 ==> r[p] == cash[p] as real
  {
    map p | p in od && p in position && ewmas[p].Some? :: position[p] as real * ewmas[p].value + cash[p] as real
  }

  /** The report as algo_v2.py computes it: its guard only checks that the
      product has a smoothed-mid entry, so a product with a book and a
      reported position whose entry is still unknown makes the valuation
      fail (None here), and with it the whole tick. */
  function PnlAsWritten(ewmas: map<Product, Option<real>>, cash: map<Product, int>,
                        od: map<Product, OrderDepth>, position: map<Product, int>): (r: Option<map<Product, real>>)
    requires Total(ewmas) && Total(cash)
    ensures r.None? <==> exists p :: p in od && p in position && ewmas[p].None?
    ensures r.Some? ==> r.value == PnlReport(ewmas, cash, od, position)
  {
    if exists p :: p in od && p in position && ewmas[p].None? then None
    else Some(PnlReport(ewmas, cash, od, position))
  }

  /** The failure is reachable: a fresh trader given a Bananas book with
      bids only and a reported Bananas position of 0 meets every requirement
      of a tick, yet Bananas has no smoothed mid after phase 1, so the report
      as written fails where the corrected one just skips Bananas. */
  lemma PnlCrashExample()
    ensures var ewmas := map[Pearls := Some(10000.0), Bananas := None, Coconuts := None, PinaColadas := None];
            var cash := map[Pearls := 0, Bananas := 0, Coconuts := 0, PinaColadas := 0];
            var od := map[Bananas := OrderDepth([Level(4990, 5)], [])];
            var after := PhaseOneEwmas(ewmas, od);
            && Total(after) && Total(cash)
            && LinkedDefined(after, od)
            && after[Bananas] == None
            && PnlAsWritten(after, cash, od, map[Bananas := 0]) == None
            && PnlReport(after, cash, od, map[Bananas := 0]) == map[]
  {
    var ewmas := map[Pearls := Some(10000.0), Bananas := None, Coconuts := None, PinaColadas := None];
    var cash := map[Pearls := 0, Bananas := 0, Coconuts := 0, PinaColadas := 0];
    var od := map[Bananas := OrderDepth([Level(4990, 5)], [])];
    var after := PhaseOneEwmas(ewmas, od);
    assert Mid(od[Bananas]) == None;
    assert after[Bananas] == None;
    forall p: Product ensures p in after && p in cash { AllProductsListed(p); }
    var report := PnlReport(after, cash, od, map[Bananas := 0]);
    assert report.Keys == {};
  }

  /** A per-product table with an entry for every product. */
  ghost predicate Total<V>(m: map<Product, V>)
  {
    forall p: Product :: p in m
  }

  /** Adding nothing to an entry leaves the table as it was. */
  lemma UnmovedEntry(m: map<Product, int>, p: Product)
    requires p in m
    ensures m[p := m[p] + 0] == m
  {
  }

  /** Listed products at different positions are different products. */
  lemma ListedDistinct(i: nat)
    requires i < |AllProducts|
    ensures forall j :: 0 <= j < |AllProducts| && j != i ==> AllProducts[j] != AllProducts[i]
  {
    AllProductsListed(AllProducts[i]);
  }

  /** What phase 2 does to the four per-product tables, product by
      product: a product with a book gets its derived fair value and its
      counted fills, every other product keeps its entries. */
  ghost predicate TickedAt(q: Product, state: TradingState, ewmas: map<Product, Option<real>>,
                           fairs0: map<Product, Option<real>>, fairs: map<Product, Option<real>>,
                           cash0: map<Product, int>, cash: map<Product, int>,
                           own0: map<Product, int>, own: map<Product, int>,
                           market0: map<Product, int>, market: map<Product, int>)
    requires Total(ewmas) && LinkedDefined(ewmas, state.orderDepths)
    requires Total(fairs0) && Total(fairs) && Total(cash0) && Total(cash)
    requires Total(own0) && Total(own) && Total(market0) && Total(market)
  {
    var od := state.orderDepths;
    && fairs[q] == (if q in od then FairFor(q, fairs0[q], ewmas, od) else fairs0[q])
    && cash[q] == cash0[q] + (if q in od then CashFlow(OwnFills(state, q)) else 0)
    && own[q] == own0[q] + (if q in od then Volume(OwnFills(state, q)) else 0)
    && market[q] == market0[q] + (if q in od then Volume(MarketFills(state, q)) else 0)
  }

  /** Phase 2 done for every listed product is phase 2 done for every product. */
  lemma TickedEveryListed(state: TradingState, ewmas: map<Product, Option<real>>,
                          fairs0: map<Product, Option<real>>, fairs: map<Product, Option<real>>,
                          cash0: map<Product, int>, cash: map<Product, int>,
                          own0: map<Product, int>, own: map<Product, int>,
                          market0: map<Product, int>, market: map<Product, int>)
    requires Total(ewmas) && LinkedDefined(ewmas, state.orderDepths)
    requires Total(fairs0) && Total(fairs) && Total(cash0) && Total(cash)
    requires Total(own0) && Total(own) && Total(market0) && Total(market)
    requires forall j :: 0 <= j < |AllProducts| ==>
               TickedAt(AllProducts[j], state, ewmas, fairs0, fairs, cash0, cash, own0, own, market0, market)
    ensures forall q: Product ::
              TickedAt(q, state, ewmas, fairs0, fairs, cash0, cash, own0, own, market0, market)
  {
    forall q: Product
      ensures TickedAt(q, state, ewmas, fairs0, fairs, cash0, cash, own0, own, market0, market)
    {
      AllProductsListed(q);
    }
  }

  /** A table holding every listed product of another holds all its keys. */
  lemma SameKeys<V, W>(a: map<Product, V>, b: map<Product, W>)
    requires forall q :: q in a ==> q in b
    requires forall j :: 0 <= j < |AllProducts| && AllProducts[j] in b ==> AllProducts[j] in a
    ensures a.Keys == b.Keys
  {
    forall q | q in b
      ensures q in a
    {
      AllProductsListed(q);
    }
  }

  /** Smoothing every listed product is smoothing the whole table. */
  lemma SmoothedEveryListed(before: map<Product, Option<real>>, after: map<Product, Option<real>>, od: map<Product, OrderDepth>)
    requires Total(before) && Total(after)
    requires forall j :: 0 <= j < |AllProducts| ==>
               after[AllProducts[j]] == EwmaAfter(AllProducts[j], before[AllProducts[j]], od)
    ensures after == PhaseOneEwmas(before, od)
  {
    forall q: Product
      ensures after[q] == EwmaAfter(q, before[q], od)
    {
      AllProductsListed(q);
    }
  }

  class Trader {
    var cash: map<Product, int>
    var midEwmas: map<Product, Option<real>>
    var fairs: map<Product, Option<real>>
    var ownTradedQuantity: map<Product, int>
    var marketTradedQuantity: map<Product, int>

    /** Every per-product map has an entry for each of the four products. */
    ghost predicate Valid()
      reads this
    {
      && Total(cash) && Total(midEwmas) && Total(fairs)
      && Total(ownTradedQuantity) && Total(marketTradedQuantity)
    }

    /** Fresh state: no cash, no volume, nothing observed except the
        Pearls anchor of 10000 for both smoothed mid and fair value. */
    constructor ()
      ensures Valid()
      ensures forall p: Product :: cash[p] == 0 && ownTradedQuantity[p] == 0 && marketTradedQuantity[p] == 0
      ensures midEwmas[Pearls] == Some(10000.0) && fairs[Pearls] == Some(10000.0)
      ensures forall p: Product :: p != Pearls ==> midEwmas[p] == None && fairs[p] == None
    {
      cash := map[Pearls := 0, Bananas := 0, Coconuts := 0, PinaColadas := 0];
      midEwmas := map[Pearls := Some(10000.0), Bananas := None, Coconuts := None, PinaColadas := None];
      fairs := map[Pearls := Some(10000.0), Bananas := None, Coconuts := None, PinaColadas := None];
      ownTradedQuantity := map[Pearls := 0, Bananas := 0, Coconuts := 0, PinaColadas := 0];
      marketTradedQuantity := map[Pearls := 0, Bananas := 0, Coconuts := 0, PinaColadas := 0];
      new;
      forall p: Product
        ensures p in cash && p in midEwmas && p in fairs && p in ownTradedQuantity && p in marketTradedQuantity
      {
        AllProductsListed(p);
      }
    }

    /** Books the trader's own fills of p reported this tick: each one
        stamped one tick ago adds its quantity to the own volume and moves
        cash by price*quantity. */
    method RecordOwnTrades(p: Product, state: TradingState)
      requires Valid()
      modifies this
      ensures Valid()
      ensures cash == old(cash)[p := old(cash[p]) + CashFlow(OwnFills(state, p))]
      ensures ownTradedQuantity == old(ownTradedQuantity)[p := old(ownTradedQuantity[p]) + Volume(OwnFills(state, p))]
      ensures midEwmas == old(midEwmas) && fairs == old(fairs)
      ensures marketTradedQuantity == old(marketTradedQuantity)
    {
      if p in state.ownTrades {
        var trades := state.ownTrades[p];
        var t := state.timestamp - TickInterval;
        var balance := cash[p];
        var volume := ownTradedQuantity[p];
        for i := 0 to |trades|
          invariant unchanged(this)
          invariant balance == old(cash[p]) + CashFlow(Counted(trades[..i], t))
          invariant volume == old(ownTradedQuantity[p]) + Volume(Counted(trades[..i], t))
        {
          var trade := trades[i];
          FillStep(trades, i, t);
          if trade.timestamp == t {
            volume := volume + trade.quantity;
            if trade.buyer == Submission {
              balance := balance - trade.price * trade.quantity;
            }
            if trade.seller == Submission {
              balance := balance + trade.price * trade.quantity;
            }
          }
        }
        assert trades[..|trades|] == trades;
        assert Counted(trades, t) == OwnFills(state, p);
        cash := cash[p := balance];
        ownTradedQuantity := ownTradedQuantity[p := volume];
      } else {
        assert OwnFills(state, p) == [];
        assert CashFlow([]) == 0 && Volume([]) == 0;
        UnmovedEntry(cash, p);
        UnmovedEntry(ownTradedQuantity, p);
      }
    }

    /** Books third-party fills of p reported this tick: only the market
        volume moves, by the quantity of each fill stamped one tick ago. */
    method RecordMarketTrades(p: Product, state: TradingState)
      requires Valid()
      modifies this
      ensures Valid()
      ensures marketTradedQuantity == old(marketTradedQuantity)[p := old(marketTradedQuantity[p]) + Volume(MarketFills(state, p))]
      ensures cash == old(cash) && ownTradedQuantity == old(ownTradedQuantity)
      ensures midEwmas == old(midEwmas) && fairs == old(fairs)
    {
      if p in state.marketTrades {
        var trades := state.marketTrades[p];
        var t := state.timestamp - TickInterval;
        var volume := marketTradedQuantity[p];
        for i := 0 to |trades|
          invariant unchanged(this)
          invariant volume == old(marketTradedQuantity[p]) + Volume(Counted(trades[..i], t))
        {
          var trade := trades[i];
          FillStep(trades, i, t);
          if trade.timestamp == t {
            volume := volume + trade.quantity;
          }
        }
        assert trades[..|trades|] == trades;
        assert Counted(trades, t) == MarketFills(state, p);
        marketTradedQuantity := marketTradedQuantity[p := volume];
      } else {
        assert MarketFills(state, p) == [] && Volume([]) == 0;
        UnmovedEntry(marketTradedQuantity, p);
      }
    }

    /** Phase 1 of a tick: every product with a book folds that book's mid
        into its smoothed mid; the other tables are left alone. */
    method SmoothMids(od: map<Product, OrderDepth>)
      requires Valid()
      modifies this
      ensures Valid()
      ensures midEwmas == PhaseOneEwmas(old(midEwmas), od)
      ensures fairs == old(fairs) && cash == old(cash)
      ensures ownTradedQuantity == old(ownTradedQuantity) && marketTradedQuantity == old(marketTradedQuantity)
    {
      for i := 0 to |AllProducts|
        invariant Valid()
        invariant forall j :: 0 <= j < i ==>
                    midEwmas[AllProducts[j]] == EwmaAfter(AllProducts[j], old(midEwmas)[AllProducts[j]], od)
        invariant forall j :: i <= j < |AllProducts| ==> midEwmas[AllProducts[j]] == old(midEwmas)[AllProducts[j]]
        invariant fairs == old(fairs) && cash == old(cash)
        invariant ownTradedQuantity == old(ownTradedQuantity) && marketTradedQuantity == old(marketTradedQuantity)
      {
        var p := AllProducts[i];
        ListedDistinct(i);
        if p in od {
          var mid := Mid(od[p]);
          var decayFactor := DecayFactor(p);
          if mid.Some? {
            if midEwmas[p].None? {
              midEwmas := midEwmas[p := mid];
            } else {
              midEwmas := midEwmas[p := Some(decayFactor * midEwmas[p].value + (1.0 - decayFactor) * mid.value)];
              assert midEwmas[p].value == EwmaStep(old(midEwmas)[p], decayFactor, mid).value;
            }
          }
        }
      }
      SmoothedEveryListed(old(midEwmas), midEwmas, od);
    }

    /** The fair value of a product with a book, from the smoothed mids
        already updated this tick. */
    method UpdateFair(p: Product, od: map<Product, OrderDepth>)
      requires Valid() && p in od && LinkedDefined(midEwmas, od)
      modifies this
      ensures Valid()
      ensures midEwmas == old(midEwmas) && cash == old(cash)
      ensures fairs == old(fairs)[p := FairFor(p, old(fairs[p]), midEwmas, od)]
      ensures ownTradedQuantity == old(ownTradedQuantity) && marketTradedQuantity == old(marketTradedQuantity)
    {
      if p == Bananas || p == Pearls {
        fairs := fairs[p := midEwmas[p]];
      } else if p == Coconuts {
        var pinaColadaMid := Mid(od[PinaColadas]);
        if pinaColadaMid.Some? && midEwmas[p].Some? {
          fairs := fairs[p := Some(LinkedFair(midEwmas[p].value, 0.5, pinaColadaMid.value, midEwmas[PinaColadas].value))];
        }
      } else if p == PinaColadas {
        var coconutMid := Mid(od[Coconuts]);
        if coconutMid.Some? && midEwmas[p].Some? {
          fairs := fairs[p := Some(LinkedFair(midEwmas[p].value, 0.8, coconutMid.value, midEwmas[Coconuts].value))];
        }
      }
    }

    /** Phase 2 for one product with a book: its fair value, then its own
        and third-party fills.  No other product's entries move. */
    method TickProduct(p: Product, state: TradingState)
      requires Valid() && p in state.orderDepths && LinkedDefined(midEwmas, state.orderDepths)
      modifies this
      ensures Valid()
      ensures midEwmas == old(midEwmas)
      ensures TickedAt(p, state, midEwmas, old(fairs), fairs, old(cash), cash,
                       old(ownTradedQuantity), ownTradedQuantity, old(marketTradedQuantity), marketTradedQuantity)
      ensures forall q :: q != p ==>
                && fairs[q] == old(fairs[q]) && cash[q] == old(cash[q])
                && ownTradedQuantity[q] == old(ownTradedQuantity[q])
                && marketTradedQuantity[q] == old(marketTradedQuantity[q])
    {
      UpdateFair(p, state.orderDepths);
      RecordOwnTrades(p, state);
      RecordMarketTrades(p, state);
    }

    /** Phase 2 of a tick: fair value and fills for every product with a book. */
    method UpdateFairsAndFills(state: TradingState)
      requires Valid() && LinkedDefined(midEwmas, state.orderDepths)
      modifies this
      ensures Valid()
      ensures midEwmas == old(midEwmas)
      ensures forall q: Product ::
                TickedAt(q, state, midEwmas, old(fairs), fairs, old(cash), cash,
                         old(ownTradedQuantity), ownTradedQuantity, old(marketTradedQuantity), marketTradedQuantity)
    {
      var od := state.orderDepths;
      ghost var fairs0, cash0, own0, market0 := fairs, cash, ownTradedQuantity, marketTradedQuantity;
      for i := 0 to |AllProducts|
        invariant Valid()
        invariant midEwmas == old(midEwmas)
        invariant forall j :: 0 <= j < i ==>
                    TickedAt(AllProducts[j], state, midEwmas, fairs0, fairs, cash0, cash,
                             own0, ownTradedQuantity, market0, marketTradedQuantity)
        invariant forall j :: i <= j < |AllProducts| ==>
                    && fairs[AllProducts[j]] == fairs0[AllProducts[j]]
                    && cash[AllProducts[j]] == cash0[AllProducts[j]]
                    && ownTradedQuantity[AllProducts[j]] == own0[AllProducts[j]]
                    && marketTradedQuantity[AllProducts[j]] == market0[AllProducts[j]]
      {
        var p := AllProducts[i];
        ListedDistinct(i);
        if p in od {
          TickProduct(p, state);
        }
      }
      TickedEveryListed(state, midEwmas, fairs0, fairs, cash0, cash,
                        own0, ownTradedQuantity, market0, marketTradedQuantity);
    }

    /** Phase 3 of a tick: the quotes of every product with a book, sized
        by its reported position. */
    method SendOrders(state: TradingState) returns (result: map<Product, seq<Order>>)
      requires Valid()
      ensures result.Keys == state.orderDepths.Keys
      ensures forall p :: p in result ==>
                result[p] == Quotes(p, fairs[p], state.orderDepths[p], PositionOf(state, p))
    {
      var od := state.orderDepths;
      result := map[];
      for i := 0 to |AllProducts|
        invariant forall q :: q in result ==> q in od && result[q] == Quotes(q, fairs[q], od[q], PositionOf(state, q))
        invariant forall j :: 0 <= j < i && AllProducts[j] in od ==> AllProducts[j] in result
      {
        var p := AllProducts[i];
        if p in od {
          var currentPos := if p in state.position then state.position[p] else 0;
          assert currentPos == PositionOf(state, p);
          var orders := GenerateOrders(p, fairs[p], od[p], currentPos);
          result := result[p := orders];
        }
      }
      SameKeys(result, od);
    }

    /** The profit-and-loss report at the end of a tick, built product by product. */
    method ReportPnl(state: TradingState) returns (report: map<Product, real>)
      requires Valid()
      ensures report == PnlReport(midEwmas, cash, state.orderDepths, state.position)
    {
      var od := state.orderDepths;
      report := map[];
      for i := 0 to |AllProducts|
        invariant forall q :: q in report ==>
                    && q in od && q in state.position && midEwmas[q].Some?
                    && report[q] == state.position[q] as real * midEwmas[q].value + cash[q] as real
        invariant forall j :: (0 <= j < i && AllProducts[j] in od && AllProducts[j] in state.position
                    && midEwmas[AllProducts[j]].Some?) ==> AllProducts[j] in report
      {
        var p := AllProducts[i];
        if p in od && p in state.position && midEwmas[p].Some? {
          report := report[p := state.position[p] as real * midEwmas[p].value + cash[p] as real];
        }
      }
      ghost var want := PnlReport(midEwmas, cash, od, state.position);
      forall q | q in want
        ensures q in report
      {
        AllProductsListed(q);
      }
      assert report.Keys == want.Keys;
      assert forall q :: q in report ==> report[q] == want[q];
    }

    /** One tick: smooth the mids, derive fair values and book the fills
        stamped one tick ago, then quote every product with a book and
        report the profit and loss of every product with a known smoothed
        mid (skipping those without one, where algo_v2.py:179 fails).  The
        requirement is what keeps the fair-value step from failing: each
        product of the linked pair comes with its counterpart's book, and
        the counterpart's smoothed mid it divides by is set and non-zero. */
    method Run(state: TradingState) returns (result: map<Product, seq<Order>>, pnl: map<Product, real>)
      requires Valid()
      requires LinkedDefined(PhaseOneEwmas(midEwmas, state.orderDepths), state.orderDepths)
      modifies this
      ensures Valid()
      ensures midEwmas == PhaseOneEwmas(old(midEwmas), state.orderDepths)
      ensures forall p: Product :: old(midEwmas[p]).Some? ==> midEwmas[p].Some?
      ensures forall p: Product :: p !in state.orderDepths ==>
                midEwmas[p] == old(midEwmas[p]) && fairs[p] == old(fairs[p])
      ensures forall p: Product :: p in state.orderDepths ==>
                fairs[p] == FairFor(p, old(fairs[p]), midEwmas, state.orderDepths)
      ensures forall p: Product ::
                cash[p] == old(cash[p]) + (if p in state.orderDepths then CashFlow(OwnFills(state, p)) else 0)
      ensures forall p: Product ::
                ownTradedQuantity[p] == old(ownTradedQuantity[p])
                  + (if p in state.orderDepths then Volume(OwnFills(state, p)) else 0)
      ensures forall p: Product ::
                marketTradedQuantity[p] == old(marketTradedQuantity[p])
                  + (if p in state.orderDepths then Volume(MarketFills(state, p)) else 0)
      ensures result.Keys == state.orderDepths.Keys
      ensures forall p :: p in result ==>
                result[p] == Quotes(p, fairs[p], state.orderDepths[p], PositionOf(state, p))
      ensures pnl == PnlReport(midEwmas, cash, state.orderDepths, state.position)
    {
      SmoothMids(state.orderDepths);
      UpdateFairsAndFills(state);
      forall q: Product
        ensures q !in state.orderDepths ==> fairs[q] == old(fairs[q])
        ensures q in state.orderDepths ==> fairs[q] == FairFor(q, old(fairs[q]), midEwmas, state.orderDepths)
        ensures cash[q] == old(cash[q]) + (if q in state.orderDepths then CashFlow(OwnFills(state, q)) else 0)
        ensures ownTradedQuantity[q] == old(ownTradedQuantity[q])
                  + (if q in state.orderDepths then Volume(OwnFills(state, q)) else 0)
        ensures marketTradedQuantity[q] == old(marketTradedQuantity[q])
                  + (if q in state.orderDepths then Volume(MarketFills(state, q)) else 0)
      {
        assert TickedAt(q, state, midEwmas, old(fairs), fairs, old(cash), cash,
                        old(ownTradedQuantity), ownTradedQuantity, old(marketTradedQuantity), marketTradedQuantity);
      }
      result := SendOrders(state);
      pnl := ReportPnl(state);
    }
  }
}
