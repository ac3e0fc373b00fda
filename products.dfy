/** The closed set of traded products and the per-product constants the
    trader is configured with (edges, position limits, decay factors). */
module Products {

  datatype Option<+T> = None | Some(value: T)

  /** The four products the trader knows; any other product is a configuration error. */
  datatype Product = Pearls | Bananas | Coconuts | PinaColadas

  /** Order in which the per-product loops visit the products. */
  const AllProducts: seq<Product> := [Pearls, Bananas, Coconuts, PinaColadas]

  /** Name the exchange uses for this trader in the buyer and seller fields of a fill. */
  const Submission: string := "SUBMISSION"

  /** Fills are reported one tick late; one tick is this many timestamp units. */
  const TickInterval: int := 100

  /** Prices of the bootstrap quotes used when a side of the book is empty or fair value is unknown. */
  const FallbackBidPrice: int := 1
  const FallbackAskPrice: int := 99999

  /** Minimum distance from fair value demanded by a passive quote. */
  function Edge(p: Product): real
  {
    match p
    case Pearls => 0.5
    case Bananas => 1.0
    case Coconuts => 1.0
    case PinaColadas => 1.0
  }

  /** Symmetric position limit: the position must stay within [-L, L]. */
  function PositionLimit(p: Product): int
  {
    match p
    case Pearls => 20
    case Bananas => 20
    case Coconuts => 600
    case PinaColadas => 300
  }

  /** Weight of the previous smoothed mid in the exponential moving average. */
  function DecayFactor(p: Product): real
  {
    match p
    case Pearls => 0.99
    case Bananas => 0.9
    case Coconuts => 0.9
    case PinaColadas => 0.9
  }

  /** Products whose fair value is anchored, and which therefore take mispriced liquidity. */
  predicate Anchored(p: Product)
  {
    p == Bananas || p == Pearls
  }

  /** Every product appears in the iteration order, exactly once. */
  lemma AllProductsListed(p: Product)
    ensures p in AllProducts
    ensures forall i, j :: 0 <= i < j < |AllProducts| ==> AllProducts[i] != AllProducts[j]
  {
  }

  /** The configuration is well formed: decays strictly inside (0, 1),
      edges non-negative, limits positive. */
  lemma ConfigurationSane(p: Product)
    ensures 0.0 < DecayFactor(p) < 1.0
    ensures Edge(p) >= 0.0
    ensures PositionLimit(p) > 0
  {
  }
}
