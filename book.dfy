/** Read-only queries over one product's order book snapshot. */
module Book {
  import opened Products

  /** One price level: a price and the quantity resting there.  Bid
      quantities are positive; ask quantities are stored negative, in the
      trader's signed convention (positive buys, negative sells). */
  datatype Level = Level(price: int, quantity: int)

  /** The bid side and the ask side, each a list of price levels in the
      exchange's insertion order (a dictionary keyed by price). */
  datatype OrderDepth = OrderDepth(buyOrders: seq<Level>, sellOrders: seq<Level>)

  /** The level with the highest price (the first one, among equal prices). */
  function Highest(side: seq<Level>): (r: Level)
    requires |side| > 0
    ensures r in side
    ensures forall l :: l in side ==> l.price <= r.price
  {
    if |side| == 1 then side[0]
    else
      var h := Highest(side[1..]);
      if side[0].price >= h.price then side[0] else h
  }

  /** The level with the lowest price (the first one, among equal prices). */
  function Lowest(side: seq<Level>): (r: Level)
    requires |side| > 0
    ensures r in side
    ensures forall l :: l in side ==> r.price <= l.price
  {
    if |side| == 1 then side[0]
    else
      var h := Lowest(side[1..]);
      if side[0].price <= h.price then side[0] else h
  }

  /** Best bid: the maximum bid price and its quantity, absent when there are no bids. */
  function BestBid(d: OrderDepth): (r: Option<Level>)
    ensures r.None? <==> |d.buyOrders| == 0
    ensures r.Some? ==> r.value in d.buyOrders
    ensures r.Some? ==> forall l :: l in d.buyOrders ==> l.price <= r.value.price
  {
    if |d.buyOrders| == 0 then None else Some(Highest(d.buyOrders))
  }

  /** Best ask: the minimum ask price and its (negative) quantity, absent when there are no asks. */
  function BestAsk(d: OrderDepth): (r: Option<Level>)
    ensures r.None? <==> |d.sellOrders| == 0
    ensures r.Some? ==> r.value in d.sellOrders
    ensures r.Some? ==> forall l :: l in d.sellOrders ==> r.value.price <= l.price
  {
    if |d.sellOrders| == 0 then None else Some(Lowest(d.sellOrders))
  }

  /** Mid price: defined only when both sides exist, and then it lies
      half-way between the best bid and the best ask. */
  function Mid(d: OrderDepth): (r: Option<real>)
    ensures r.Some? <==> BestBid(d).Some? && BestAsk(d).Some?
    ensures r.Some? ==> r.value - BestBid(d).value.price as real == BestAsk(d).value.price as real - r.value
    ensures r.Some? && BestBid(d).value.price <= BestAsk(d).value.price ==>
              BestBid(d).value.price as real <= r.value <= BestAsk(d).value.price as real
  {
    var bid := BestBid(d);
    var ask := BestAsk(d);
    if bid.Some? && ask.Some? then Some((bid.value.price + ask.value.price) as real / 2.0) else None
  }

  /** The trader's sign convention holds for this book: bid quantities are
      positive and ask quantities negative. */
  predicate SignCorrect(d: OrderDepth)
  {
    && (forall l :: l in d.buyOrders ==> l.quantity > 0)
    && (forall l :: l in d.sellOrders ==> l.quantity < 0)
  }
}
