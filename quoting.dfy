/** The quoting engine: from a product's fair value, book and position to
    the list of orders sent for that product in one tick. */
module Quoting {
  import opened Products
  import opened Book

  /** An order: positive quantity buys, negative quantity sells. */
  datatype Order = Order(product: Product, price: int, quantity: int)

  function Min(a: int, b: int): int { if a <= b then a else b }
  function Max(a: int, b: int): int { if a >= b then a else b }

  // ---------------------------------------------------------------------
  // Order lists: zero elimination and side volumes

  /** The orders with a non-zero quantity, in their original order. */
  function NonZero(orders: seq<Order>): (r: seq<Order>)
    ensures forall o :: o in r <==> o in orders && o.quantity != 0
    ensures |r| <= |orders|
  {
    if orders == [] then []
    else (if orders[0].quantity != 0 then [orders[0]] else []) + NonZero(orders[1..])
  }

  /** Zero elimination keeps the relative order: it distributes over concatenation. */
  lemma {:induction false} NonZeroAppend(a: seq<Order>, b: seq<Order>)
    ensures NonZero(a + b) == NonZero(a) + NonZero(b)
  {
    if a == [] {
      assert a + b == b;
    } else {
      assert (a + b)[0] == a[0];
      assert (a + b)[1..] == a[1..] + b;
      NonZeroAppend(a[1..], b);
    }
  }

  /** A list without zero-quantity orders is left exactly as it is; in
      particular zero elimination is idempotent. */
  lemma {:induction false} NonZeroKeeps(orders: seq<Order>)
    requires forall i :: 0 <= i < |orders| ==> orders[i].quantity != 0
    ensures NonZero(orders) == orders
  {
    if orders != [] {
      NonZeroKeeps(orders[1..]);
    }
  }

  /** Total quantity bought by a list of orders. */
  function Bought(orders: seq<Order>): int
  {
    if orders == [] then 0
    else (if orders[0].quantity > 0 then orders[0].quantity else 0) + Bought(orders[1..])
  }

  /** Total quantity sold by a list of orders, as a non-negative number. */
  function Sold(orders: seq<Order>): int
  {
    if orders == [] then 0
    else (if orders[0].quantity < 0 then -orders[0].quantity else 0) + Sold(orders[1..])
  }

  lemma {:induction false} VolumesAppend(a: seq<Order>, b: seq<Order>)
    ensures Bought(a + b) == Bought(a) + Bought(b)
    ensures Sold(a + b) == Sold(a) + Sold(b)
  {
    if a == [] {
      assert a + b == b;
    } else {
      assert (a + b)[0] == a[0];
      assert (a + b)[1..] == a[1..] + b;
      VolumesAppend(a[1..], b);
    }
  }

  /** The volumes of a two-order list are the sums of the orders' volumes. */
  lemma VolumesPair(x: Order, y: Order)
    ensures Bought([x, y]) == Bought([x]) + Bought([y])
    ensures Sold([x, y]) == Sold([x]) + Sold([y])
  {
    assert [x, y][1..] == [y];
  }

  /** Dropping zero-quantity orders changes neither side's volume. */
  lemma {:induction false} NonZeroVolumes(orders: seq<Order>)
    ensures Bought(NonZero(orders)) == Bought(orders)
    ensures Sold(NonZero(orders)) == Sold(orders)
  {
    if orders != [] {
      NonZeroVolumes(orders[1..]);
      var head := if orders[0].quantity != 0 then [orders[0]] else [];
      VolumesAppend(head, NonZero(orders[1..]));
    }
  }

  // ---------------------------------------------------------------------
  // The pieces of a product's quote

  /** Size split of a positive capacity m: an aggressive clip of
      max(floor(0.9 m), 1) and the passive remainder. */
  function ClipSplit(m: int): (r: (int, int))
    requires m > 0
    ensures 1 <= r.0 <= m
    ensures r.1 >= 0 && r.0 + r.1 == m
    ensures r.0 == 1 || 10 * r.0 <= 9 * m
    ensures 9 * m < 10 * (r.0 + 1)
  {
    var agg := Max((9 * m) / 10, 1);
    (agg, m - agg)
  }

  /** Worked example: a capacity of 10 splits into 9 and 1. */
  lemma ClipSplitExample()
    ensures ClipSplit(10) == (9, 1)
  {
  }

  /** Orders taken from the book by crossing, and the capacity left after them. */
  datatype Taken = Taken(orders: seq<Order>, capLeft: int)

  /** Crossing on the sell side: sell into a best bid above fair value, as
      much as rests there and the sell capacity allows. */
  function HitBid(p: Product, f: real, bid: Option<Level>, sellCap: int): (r: Taken)
    ensures r.orders == [] <==> !(bid.Some? && bid.value.price as real > f)
    ensures forall o :: o in r.orders ==> o.product == p && bid.Some? && o.price == bid.value.price
    ensures r.capLeft + Sold(r.orders) - Bought(r.orders) == sellCap
    ensures bid.Some? && bid.value.price as real > f ==>
              Sold(r.orders) - Bought(r.orders) == Min(bid.value.quantity, sellCap)
  {
    if bid.Some? && bid.value.price as real > f then
      var size := Min(bid.value.quantity, sellCap);
      Taken([Order(p, bid.value.price, -size)], sellCap - size)
    else Taken([], sellCap)
  }

  /** Crossing on the buy side: buy a best ask below fair value, as much as
      rests there (ask quantities are negative) and the buy capacity allows. */
  function LiftAsk(p: Product, f: real, ask: Option<Level>, buyCap: int): (r: Taken)
    ensures r.orders == [] <==> !(ask.Some? && (ask.value.price as real) < f)
    ensures forall o :: o in r.orders ==> o.product == p && ask.Some? && o.price == ask.value.price
    ensures r.capLeft + Bought(r.orders) - Sold(r.orders) == buyCap
    ensures ask.Some? && (ask.value.price as real) < f ==>
              Bought(r.orders) - Sold(r.orders) == Min(-ask.value.quantity, buyCap)
  {
    if ask.Some? && (ask.value.price as real) < f then
      var size := Min(-ask.value.quantity, buyCap);
      Taken([Order(p, ask.value.price, size)], buyCap - size)
    else Taken([], buyCap)
  }

  /** Only anchored products with a known fair value cross the book. */
  predicate Crosses(p: Product, fair: Option<real>)
  {
    Anchored(p) && fair.Some?
  }

  /** The sell-side crossing of a tick, starting from the sell capacity pos + L. */
  function SellTaken(p: Product, fair: Option<real>, depth: OrderDepth, pos: int): (r: Taken)
    ensures !Crosses(p, fair) ==> r == Taken([], pos + PositionLimit(p))
    ensures r.capLeft + Sold(r.orders) - Bought(r.orders) == pos + PositionLimit(p)
  {
    if Crosses(p, fair) then HitBid(p, fair.value, BestBid(depth), pos + PositionLimit(p))
    else Taken([], pos + PositionLimit(p))
  }

  /** The buy-side crossing of a tick, starting from the buy capacity L - pos. */
  function BuyTaken(p: Product, fair: Option<real>, depth: OrderDepth, pos: int): (r: Taken)
    ensures !Crosses(p, fair) ==> r == Taken([], PositionLimit(p) - pos)
    ensures r.capLeft + Bought(r.orders) - Sold(r.orders) == PositionLimit(p) - pos
  {
    if Crosses(p, fair) then LiftAsk(p, fair.value, BestAsk(depth), PositionLimit(p) - pos)
    else Taken([], PositionLimit(p) - pos)
  }

  /** Passive buy quotes for the remaining buy capacity. */
  function BidQuotes(p: Product, fair: Option<real>, bid: Option<Level>, cap: int): (r: seq<Order>)
    ensures bid.None? || fair.None? ==> r == [Order(p, FallbackBidPrice, cap)]
    ensures forall o :: o in r ==> o.product == p
    ensures cap >= 0 ==> forall o :: o in r ==> o.quantity >= 0
    ensures bid.Some? && fair.Some? ==> forall o :: o in r ==> (o.price as real) < fair.value - Edge(p)
    ensures cap >= 0 ==> Bought(r) <= cap && Sold(r) == 0
    ensures cap >= 0 && (bid.None? || fair.None? || (bid.value.price as real) < fair.value - Edge(p)) ==>
              Bought(r) == cap
    ensures bid.Some? && fair.Some? && ((bid.value.price + 1) as real) < fair.value - Edge(p) ==>
              r == (if cap > 0
                    then [Order(p, bid.value.price + 1, ClipSplit(cap).0), Order(p, bid.value.price, ClipSplit(cap).1)]
                    else [])
    ensures bid.Some? && fair.Some? && !(((bid.value.price + 1) as real) < fair.value - Edge(p)) ==>
              r == (if (bid.value.price as real) < fair.value - Edge(p) then [Order(p, bid.value.price, cap)] else [])
  {
    if bid.Some? && fair.Some? then
      var b := bid.value.price;
      if ((b + 1) as real) < fair.value - Edge(p) then
        if cap > 0 then
          var (agg, pas) := ClipSplit(cap);
          VolumesPair(Order(p, b + 1, agg), Order(p, b, pas));
          [Order(p, b + 1, agg), Order(p, b, pas)]
        else []
      else if (b as real) < fair.value - Edge(p) then [Order(p, b, cap)]
      else []
    else [Order(p, FallbackBidPrice, cap)]
  }

  /** Passive sell quotes for the remaining sell capacity (negative quantities). */
  function AskQuotes(p: Product, fair: Option<real>, ask: Option<Level>, cap: int): (r: seq<Order>)
    ensures ask.None? || fair.None? ==> r == [Order(p, FallbackAskPrice, -cap)]
    ensures forall o :: o in r ==> o.product == p
    ensures cap >= 0 ==> forall o :: o in r ==> o.quantity <= 0
    ensures ask.Some? && fair.Some? ==> forall o :: o in r ==> (o.price as real) > fair.value + Edge(p)
    ensures cap >= 0 ==> Sold(r) <= cap && Bought(r) == 0
    ensures cap >= 0 && (ask.None? || fair.None? || (ask.value.price as real) > fair.value + Edge(p)) ==>
              Sold(r) == cap
    ensures ask.Some? && fair.Some? && ((ask.value.price - 1) as real) > fair.value + Edge(p) ==>
              r == (if cap > 0
                    then [Order(p, ask.value.price - 1, -ClipSplit(cap).0), Order(p, ask.value.price, -ClipSplit(cap).1)]
                    else [])
    ensures ask.Some? && fair.Some? && !(((ask.value.price - 1) as real) > fair.value + Edge(p)) ==>
              r == (if (ask.value.price as real) > fair.value + Edge(p) then [Order(p, ask.value.price, -cap)] else [])
  {
    if ask.Some? && fair.Some? then
      var a := ask.value.price;
      if ((a - 1) as real) > fair.value + Edge(p) then
        if cap > 0 then
          var (agg, pas) := ClipSplit(cap);
          VolumesPair(Order(p, a - 1, -agg), Order(p, a, -pas));
          [Order(p, a - 1, -agg), Order(p, a, -pas)]
        else []
      else if (a as real) > fair.value + Edge(p) then [Order(p, a, -cap)]
      else []
    else [Order(p, FallbackAskPrice, -cap)]
  }

  /** Everything a product quotes in one tick, before zero elimination:
      crossing orders (anchored products with a known fair value only),
      then buy quotes, then sell quotes, the crossing orders having used up
      part of the capacities L - pos (buy) and pos + L (sell). */
  function RawQuotes(p: Product, fair: Option<real>, depth: OrderDepth, pos: int): (r: seq<Order>)
    ensures forall o :: o in r ==> o.product == p
    ensures |r| <= 6
  {
    var sell := SellTaken(p, fair, depth, pos);
    var buy := BuyTaken(p, fair, depth, pos);
    sell.orders + buy.orders
      + BidQuotes(p, fair, BestBid(depth), buy.capLeft)
      + AskQuotes(p, fair, BestAsk(depth), sell.capLeft)
  }

  /** The orders a product sends in one tick: its quotes without zero-quantity orders. */
  function Quotes(p: Product, fair: Option<real>, depth: OrderDepth, pos: int): seq<Order>
  {
    NonZero(RawQuotes(p, fair, depth, pos))
  }

  /** The orders sent are exactly the raw quotes with a non-zero quantity,
      all for the product, with the same bought and sold totals. */
  lemma QuotesFacts(p: Product, fair: Option<real>, depth: OrderDepth, pos: int)
    ensures forall o :: o in Quotes(p, fair, depth, pos) <==> o in RawQuotes(p, fair, depth, pos) && o.quantity != 0
    ensures forall o :: o in Quotes(p, fair, depth, pos) ==> o.product == p
    ensures Bought(Quotes(p, fair, depth, pos)) == Bought(RawQuotes(p, fair, depth, pos))
    ensures Sold(Quotes(p, fair, depth, pos)) == Sold(RawQuotes(p, fair, depth, pos))
  {
    NonZeroVolumes(RawQuotes(p, fair, depth, pos));
  }

  // ---------------------------------------------------------------------
  // What the quotes promise

  /** The sell-side crossing never sells more than the sell capacity pos + L,
      and only sells, at a best bid above fair value. */
  lemma SellTakenFacts(p: Product, fair: Option<real>, depth: OrderDepth, pos: int)
    requires pos + PositionLimit(p) >= 0
    requires SignCorrect(depth)
    ensures var t := SellTaken(p, fair, depth, pos);
      && 0 <= t.capLeft
      && Sold(t.orders) + t.capLeft == pos + PositionLimit(p)
      && Bought(t.orders) == 0
      && (t.orders != [] ==>
            && BestBid(depth).Some?
            && Sold(t.orders) == Min(BestBid(depth).value.quantity, pos + PositionLimit(p))
            && Sold(t.orders) <= BestBid(depth).value.quantity
            && (Sold(t.orders) == BestBid(depth).value.quantity || t.capLeft == 0))
      && forall o :: o in t.orders ==>
           && o.product == p && o.quantity <= 0
           && Crosses(p, fair) && BestBid(depth).Some? && o.price == BestBid(depth).value.price
           && o.price as real > fair.value
  {
  }

  /** The buy-side crossing never buys more than the buy capacity L - pos,
      and only buys, at a best ask below fair value. */
  lemma BuyTakenFacts(p: Product, fair: Option<real>, depth: OrderDepth, pos: int)
    requires PositionLimit(p) - pos >= 0
    requires SignCorrect(depth)
    ensures var t := BuyTaken(p, fair, depth, pos);
      && 0 <= t.capLeft
      && Bought(t.orders) + t.capLeft == PositionLimit(p) - pos
      && Sold(t.orders) == 0
      && (t.orders != [] ==>
            && BestAsk(depth).Some?
            && Bought(t.orders) == Min(-BestAsk(depth).value.quantity, PositionLimit(p) - pos)
            && Bought(t.orders) <= -BestAsk(depth).value.quantity
            && (Bought(t.orders) == -BestAsk(depth).value.quantity || t.capLeft == 0))
      && forall o :: o in t.orders ==>
           && o.product == p && o.quantity >= 0
           && Crosses(p, fair) && BestAsk(depth).Some? && o.price == BestAsk(depth).value.price
           && (o.price as real) < fair.value
  {
  }

  /** Position limits: with a position inside [-L, L] and a book in the
      trader's sign convention, the orders are all non-zero and for product
      p, and even if every buy and no sell fills (or every sell and no buy)
      the position stays inside [-L, L]. */
  lemma QuotesWithinLimits(p: Product, fair: Option<real>, depth: OrderDepth, pos: int)
    requires -PositionLimit(p) <= pos <= PositionLimit(p)
    requires SignCorrect(depth)
    ensures forall o :: o in Quotes(p, fair, depth, pos) ==> o.product == p && o.quantity != 0
    ensures pos + Bought(Quotes(p, fair, depth, pos)) <= PositionLimit(p)
    ensures pos - Sold(Quotes(p, fair, depth, pos)) >= -PositionLimit(p)
  {
    var sell := SellTaken(p, fair, depth, pos);
    var buy := BuyTaken(p, fair, depth, pos);
    SellTakenFacts(p, fair, depth, pos);
    BuyTakenFacts(p, fair, depth, pos);
    var bids := BidQuotes(p, fair, BestBid(depth), buy.capLeft);
    var asks := AskQuotes(p, fair, BestAsk(depth), sell.capLeft);
    VolumesAppend(sell.orders, buy.orders);
    VolumesAppend(sell.orders + buy.orders, bids);
    VolumesAppend(sell.orders + buy.orders + bids, asks);
    NonZeroVolumes(RawQuotes(p, fair, depth, pos));
  }

  /** Where a buy order may be priced: at a best ask below fair value (a
      crossing order, anchored products only), strictly below fair - edge (a
      quote), or at the fallback price when there are no bids. */
  predicate BuyPriceOk(p: Product, f: real, depth: OrderDepth, price: int)
  {
    || (Anchored(p) && BestAsk(depth).Some? && price == BestAsk(depth).value.price && (price as real) < f)
    || (price as real) < f - Edge(p)
    || (BestBid(depth).None? && price == FallbackBidPrice)
  }

  /** Where a sell order may be priced: mirror image of BuyPriceOk. */
  predicate SellPriceOk(p: Product, f: real, depth: OrderDepth, price: int)
  {
    || (Anchored(p) && BestBid(depth).Some? && price == BestBid(depth).value.price && (price as real) > f)
    || (price as real) > f + Edge(p)
    || (BestAsk(depth).None? && price == FallbackAskPrice)
  }

  /** Price rules: with a known fair value f, every buy is a crossing order
      below f, a quote below f - edge, or the fallback bid; every sell is
      the mirror image. */
  lemma QuotePrices(p: Product, f: real, depth: OrderDepth, pos: int)
    requires -PositionLimit(p) <= pos <= PositionLimit(p)
    requires SignCorrect(depth)
    ensures forall o :: o in Quotes(p, Some(f), depth, pos) && o.quantity > 0 ==> BuyPriceOk(p, f, depth, o.price)
    ensures forall o :: o in Quotes(p, Some(f), depth, pos) && o.quantity < 0 ==> SellPriceOk(p, f, depth, o.price)
  {
    var fair := Some(f);
    var sell := SellTaken(p, fair, depth, pos);
    var buy := BuyTaken(p, fair, depth, pos);
    SellTakenFacts(p, fair, depth, pos);
    BuyTakenFacts(p, fair, depth, pos);
    var bids := BidQuotes(p, fair, BestBid(depth), buy.capLeft);
    var asks := AskQuotes(p, fair, BestAsk(depth), sell.capLeft);
    assert RawQuotes(p, fair, depth, pos) == sell.orders + buy.orders + bids + asks;
    forall o | o in Quotes(p, fair, depth, pos)
      ensures o.quantity > 0 ==> BuyPriceOk(p, f, depth, o.price)
      ensures o.quantity < 0 ==> SellPriceOk(p, f, depth, o.price)
    {
      assert o in sell.orders || o in buy.orders || o in bids || o in asks;
    }
  }

  /** Short beyond the limit, with both sides of the book present and a
      known fair value, a product sends no sell order: its sell capacity
      pos + L is negative, so nothing sells into the bid or on the ask side. */
  lemma NoSellsWhenShort(p: Product, f: real, depth: OrderDepth, pos: int)
    requires pos < -PositionLimit(p)
    requires SignCorrect(depth)
    requires BestBid(depth).Some? && BestAsk(depth).Some?
    ensures forall o :: o in Quotes(p, Some(f), depth, pos) ==> o.quantity >= 0
  {
    var fair := Some(f);
    var sell := SellTaken(p, fair, depth, pos);
    var buy := BuyTaken(p, fair, depth, pos);
    var bids := BidQuotes(p, fair, BestBid(depth), buy.capLeft);
    var asks := AskQuotes(p, fair, BestAsk(depth), sell.capLeft);
    assert RawQuotes(p, fair, depth, pos) == sell.orders + buy.orders + bids + asks;
    assert BestBid(depth).value in depth.buyOrders && BestAsk(depth).value in depth.sellOrders;
    assert sell.capLeft <= 0 && buy.capLeft >= 0;
    forall o | o in Quotes(p, fair, depth, pos)
      ensures o.quantity >= 0
    {
      assert o in sell.orders || o in buy.orders || o in bids || o in asks;
    }
  }

  /** Long beyond the limit, mirror image: no buy order is sent. */
  lemma NoBuysWhenLong(p: Product, f: real, depth: OrderDepth, pos: int)
    requires pos > PositionLimit(p)
    requires SignCorrect(depth)
    requires BestBid(depth).Some? && BestAsk(depth).Some?
    ensures forall o :: o in Quotes(p, Some(f), depth, pos) ==> o.quantity <= 0
  {
    var fair := Some(f);
    var sell := SellTaken(p, fair, depth, pos);
    var buy := BuyTaken(p, fair, depth, pos);
    var bids := BidQuotes(p, fair, BestBid(depth), buy.capLeft);
    var asks := AskQuotes(p, fair, BestAsk(depth), sell.capLeft);
    assert RawQuotes(p, fair, depth, pos) == sell.orders + buy.orders + bids + asks;
    assert BestBid(depth).value in depth.buyOrders && BestAsk(depth).value in depth.sellOrders;
    assert buy.capLeft <= 0 && sell.capLeft >= 0;
    forall o | o in Quotes(p, fair, depth, pos)
      ensures o.quantity <= 0
    {
      assert o in sell.orders || o in buy.orders || o in bids || o in asks;
    }
  }

  /** No self-crossing: with a known fair value and both sides of the book
      present, every buy is priced strictly below every sell, whatever the
      position. */
  lemma NoSelfCross(p: Product, f: real, depth: OrderDepth, pos: int)
    requires SignCorrect(depth)
    requires BestBid(depth).Some? && BestAsk(depth).Some?
    ensures var r := Quotes(p, Some(f), depth, pos);
      forall i, j :: 0 <= i < |r| && 0 <= j < |r| && r[i].quantity > 0 && r[j].quantity < 0 ==>
        r[i].price < r[j].price
  {
    var r := Quotes(p, Some(f), depth, pos);
    if pos < -PositionLimit(p) {
      NoSellsWhenShort(p, f, depth, pos);
    } else if pos > PositionLimit(p) {
      NoBuysWhenLong(p, f, depth, pos);
    } else {
      QuotePrices(p, f, depth, pos);
      forall i, j | 0 <= i < |r| && 0 <= j < |r| && r[i].quantity > 0 && r[j].quantity < 0
        ensures r[i].price < r[j].price
      {
        assert BuyPriceOk(p, f, depth, r[i].price);
        assert SellPriceOk(p, f, depth, r[j].price);
        assert (r[i].price as real) < f < (r[j].price as real);
      }
    }
  }

  /** Without a fair value nothing crosses and both sides fall back: the
      whole buy capacity bids at the fallback low price and the whole sell
      capacity offers at the fallback high price. */
  lemma QuotesWithoutFair(p: Product, depth: OrderDepth, pos: int)
    ensures Quotes(p, None, depth, pos) ==
      NonZero([Order(p, FallbackBidPrice, PositionLimit(p) - pos),
                Order(p, FallbackAskPrice, -(pos + PositionLimit(p)))])
  {
    assert RawQuotes(p, None, depth, pos) ==
      [Order(p, FallbackBidPrice, PositionLimit(p) - pos), Order(p, FallbackAskPrice, -(pos + PositionLimit(p)))];
  }

  /** Worked example: best bid 9996, fair 10000, edge 0.5 (Pearls), buy
      capacity 10 give 9 at 9997 and 1 at 9996. */
  lemma SplitExample()
    ensures BidQuotes(Pearls, Some(10000.0), Some(Level(9996, 3)), 10) ==
      [Order(Pearls, 9997, 9), Order(Pearls, 9996, 1)]
  {
  }

  /** Worked example: Pearls with no bids, an ask at fair value 10000,
      position 0 and limit 20 send a single buy of 20 at the fallback price. */
  lemma FallbackExample()
    ensures Quotes(Pearls, Some(10000.0), OrderDepth([], [Level(10000, -5)]), 0) == [Order(Pearls, 1, 20)]
  {
    var depth := OrderDepth([], [Level(10000, -5)]);
    assert BestAsk(depth) == Some(Level(10000, -5));
    assert RawQuotes(Pearls, Some(10000.0), depth, 0) == [Order(Pearls, 1, 20)];
  }

  // ---------------------------------------------------------------------
  // The order-generation loop body, as the trader runs it

  /** Appends the passive buy quotes for the remaining buy capacity. */
  method QuoteBidSide(p: Product, fair: Option<real>, bestBid: Option<Level>, maxBidSize: int, orders: seq<Order>)
    returns (out: seq<Order>)
    ensures out == orders + BidQuotes(p, fair, bestBid, maxBidSize)
  {
    out := orders;
    if bestBid.Some? && fair.Some? {
      var b := bestBid.value.price;
      if ((b + 1) as real) < fair.value - Edge(p) {
        if maxBidSize > 0 {
          var aggSize := Max((9 * maxBidSize) / 10, 1);
          var pasSize := maxBidSize - aggSize;
          out := out + [Order(p, b + 1, aggSize)];
          out := out + [Order(p, b, pasSize)];
        }
      } else if (b as real) < fair.value - Edge(p) {
        out := out + [Order(p, b, maxBidSize)];
      }
    } else {
      out := out + [Order(p, FallbackBidPrice, maxBidSize)];
    }
  }

  /** Appends the passive sell quotes for the remaining sell capacity. */
  method QuoteAskSide(p: Product, fair: Option<real>, bestAsk: Option<Level>, maxAskSize: int, orders: seq<Order>)
    returns (out: seq<Order>)
    ensures out == orders + AskQuotes(p, fair, bestAsk, maxAskSize)
  {
    out := orders;
    if bestAsk.Some? && fair.Some? {
      var a := bestAsk.value.price;
      if ((a - 1) as real) > fair.value + Edge(p) {
        if maxAskSize > 0 {
          var aggSize := Max((9 * maxAskSize) / 10, 1);
          var pasSize := maxAskSize - aggSize;
          out := out + [Order(p, a - 1, -aggSize)];
          out := out + [Order(p, a, -pasSize)];
        }
      } else if (a as real) > fair.value + Edge(p) {
        out := out + [Order(p, a, -maxAskSize)];
      }
    } else {
      out := out + [Order(p, FallbackAskPrice, -maxAskSize)];
    }
  }

  /** Builds the product's orders step by step, appending to a list and
      drawing down the two capacities, then drops zero-quantity orders. */
  method GenerateOrders(p: Product, fair: Option<real>, depth: OrderDepth, pos: int) returns (orders: seq<Order>)
    ensures orders == Quotes(p, fair, depth, pos)
  {
    orders := [];
    var bestBid := BestBid(depth);
    var bestAsk := BestAsk(depth);
    var maxAskSize := pos + PositionLimit(p);
    var maxBidSize := PositionLimit(p) - pos;

    if Anchored(p) {
      if bestBid.Some? && fair.Some? && bestBid.value.price as real > fair.value {
        var orderSize := Min(bestBid.value.quantity, maxAskSize);
        orders := orders + [Order(p, bestBid.value.price, -orderSize)];
        maxAskSize := maxAskSize - orderSize;
      }
      if bestAsk.Some? && fair.Some? && (bestAsk.value.price as real) < fair.value {
        var orderSize := Min(-bestAsk.value.quantity, maxBidSize);
        orders := orders + [Order(p, bestAsk.value.price, orderSize)];
        maxBidSize := maxBidSize - orderSize;
      }
    }
    ghost var sell := SellTaken(p, fair, depth, pos);
    ghost var buy := BuyTaken(p, fair, depth, pos);
    assert orders == sell.orders + buy.orders;
    assert maxAskSize == sell.capLeft && maxBidSize == buy.capLeft;

    orders := QuoteBidSide(p, fair, bestBid, maxBidSize, orders);
    orders := QuoteAskSide(p, fair, bestAsk, maxAskSize, orders);
    orders := NonZero(orders);
  }
}
