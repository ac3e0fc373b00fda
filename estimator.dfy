/** Fair-value estimation: an exponential moving average of each
    product's mid price (phase 1), then a fair value per product (phase 2),
    where Coconuts and Pina Coladas are coupled through a basis term. */
module Estimator {
  import opened Products
  import opened Book

  function Abs(x: real): real { if x < 0.0 then -x else x }

  // ---------------------------------------------------------------------
  // Phase 1: smoothing

  /** The sign of a product with a positive factor is the sign of the other factor. */
  lemma MulSigns(a: real, b: real)
    requires a > 0.0
    ensures b > 0.0 ==> a * b > 0.0
    ensures b == 0.0 ==> a * b == 0.0
    ensures b < 0.0 ==> a * b < 0.0
  {
  }

  /** One smoothing step with decay d: no mid leaves the average as it was,
      the first observed mid is taken as is, and otherwise the new value is
      d*prev + (1-d)*mid.  A known average never becomes unknown. */
  function EwmaStep(prev: Option<real>, d: real, mid: Option<real>): (r: Option<real>)
    ensures mid.None? ==> r == prev
    ensures prev.None? && mid.Some? ==> r == mid
    ensures prev.Some? ==> r.Some?
  {
    match mid
    case None => prev
    case Some(m) =>
      match prev
      case None => Some(m)
      case Some(e) => Some(d * e + (1.0 - d) * m)
  }

  /** For 0 < d < 1 the smoothed value moves strictly towards the new mid
      without overshooting it: it lies strictly between the previous average
      and the mid when they differ. */
  lemma EwmaStepBetween(e: real, d: real, m: real)
    requires 0.0 < d < 1.0
    ensures e <= m ==> e <= EwmaStep(Some(e), d, Some(m)).value <= m
    ensures m <= e ==> m <= EwmaStep(Some(e), d, Some(m)).value <= e
    ensures e != m ==> EwmaStep(Some(e), d, Some(m)).value != e && EwmaStep(Some(e), d, Some(m)).value != m
  {
    var r := EwmaStep(Some(e), d, Some(m)).value;
    var t := e - m;
    assert r - m == d * t;
    assert e - r == (1.0 - d) * t;
    MulSigns(d, t);
    MulSigns(1.0 - d, t);
  }

  /** The smoothed mid of product p after phase 1 of a tick with books od:
      updated when p has a book this tick, untouched otherwise. */
  function EwmaAfter(p: Product, prev: Option<real>, od: map<Product, OrderDepth>): (r: Option<real>)
    ensures p !in od ==> r == prev
    ensures prev.Some? ==> r.Some?
  {
    if p in od then EwmaStep(prev, DecayFactor(p), Mid(od[p])) else prev
  }

  /** Smoothed value after n ticks whose mid is the constant c, starting from e. */
  function Smoothed(e: real, d: real, c: real, n: nat): real
  {
    if n == 0 then e else EwmaStep(Some(Smoothed(e, d, c, n - 1)), d, Some(c)).value
  }

  lemma MulNonNeg(a: real, b: real)
    requires a >= 0.0 && b >= 0.0
    ensures a * b >= 0.0
  {
  }

  /** Each tick whose mid is c multiplies the gap to c by d. */
  lemma SmoothedStep(e: real, d: real, c: real, n: nat)
    requires 0.0 < d
    ensures Smoothed(e, d, c, n + 1) - c == d * (Smoothed(e, d, c, n) - c)
    ensures Abs(Smoothed(e, d, c, n + 1) - c) == d * Abs(Smoothed(e, d, c, n) - c)
  {
    var s := Smoothed(e, d, c, n);
    var t := s - c;
    assert Smoothed(e, d, c, n + 1) == d * s + (1.0 - d) * c;
    assert d * s + (1.0 - d) * c - c == d * t;
    MulSigns(d, t);
    if t < 0.0 {
      assert d * (-t) == -(d * t);
    }
  }

  /** Feeding a constant mid never moves the smoothed value away from it. */
  lemma SmoothedMonotone(e: real, d: real, c: real, n: nat)
    requires 0.0 < d < 1.0
    ensures Abs(Smoothed(e, d, c, n + 1) - c) <= Abs(Smoothed(e, d, c, n) - c)
  {
    SmoothedStep(e, d, c, n);
    var g := Abs(Smoothed(e, d, c, n) - c);
    assert g - d * g == (1.0 - d) * g;
    MulNonNeg(1.0 - d, g);
  }

  /** One tick of the bound proved by ShrunkBound, as plain arithmetic:
      if the gap gp after m ticks obeys the bound, so does g = d*gp after m+1. */
  lemma StepBound(d: real, g0: real, gp: real, g: real, m: nat, n: nat)
    requires 0.0 < d < 1.0 && n == m + 1
    requires 0.0 <= gp <= g0
    requires gp * (1.0 + m as real * (1.0 - d)) <= g0
    requires g == d * gp
    ensures 0.0 <= g <= g0
    ensures g * (1.0 + n as real * (1.0 - d)) <= g0
  {
    var k := m as real;
    var x := gp * (1.0 + k * (1.0 - d));
    assert gp - g == (1.0 - d) * gp;
    MulNonNeg(1.0 - d, gp);
    MulNonNeg(d, gp);
    assert n as real == k + 1.0;
    assert g * (1.0 + (k + 1.0) * (1.0 - d)) == d * x + (1.0 - d) * g;
    assert d * g0 - d * x == d * (g0 - x);
    MulNonNeg(d, g0 - x);
    assert (1.0 - d) * g0 - (1.0 - d) * g == (1.0 - d) * (g0 - g);
    MulNonNeg(1.0 - d, g0 - g);
  }

  /** The gap g0 scaled down by d on each of n ticks. */
  function Shrunk(g0: real, d: real, n: nat): real
  {
    if n == 0 then g0 else d * Shrunk(g0, d, n - 1)
  }

  /** After n ticks with constant mid c, the distance to c is the initial
      distance shrunk n times by the decay factor. */
  lemma {:induction false} SmoothedGap(e: real, d: real, c: real, n: nat)
    requires 0.0 < d
    ensures Abs(Smoothed(e, d, c, n) - c) == Shrunk(Abs(e - c), d, n)
  {
    if n == 0 {
      assert Smoothed(e, d, c, n) == e;
    } else {
      SmoothedGap(e, d, c, n - 1);
      SmoothedStep(e, d, c, n - 1);
    }
  }

  /** Rate of convergence: the shrunk gap after n ticks is at most the
      initial gap divided by 1 + n(1-d). */
  lemma {:induction false} ShrunkBound(g0: real, d: real, n: nat)
    requires 0.0 < d < 1.0 && g0 >= 0.0
    ensures 0.0 <= Shrunk(g0, d, n) <= g0
    ensures Shrunk(g0, d, n) * (1.0 + n as real * (1.0 - d)) <= g0
  {
    if n == 0 {
      assert Shrunk(g0, d, n) == g0;
    } else {
      ShrunkBound(g0, d, n - 1);
      StepBound(d, g0, Shrunk(g0, d, n - 1), Shrunk(g0, d, n), n - 1, n);
    }
  }

  /** A number of ticks after which the bound of ShrunkBound is below eps. */
  function TicksFor(g0: real, eps: real, d: real): (n: nat)
    requires g0 >= 0.0 && eps > 0.0 && 0.0 < d < 1.0
    ensures n as real * (eps * (1.0 - d)) > g0
  {
    var k := eps * (1.0 - d);
    MulSigns(eps, 1.0 - d);
    var q := g0 / k;
    assert q * k == g0;
    MulSigns(k, q);
    assert q >= 0.0;
    var n: nat := q.Floor + 1;
    assert n as real > q;
    MulSigns(k, n as real - q);
    assert k * (n as real - q) == n as real * k - q * k;
    n
  }

  lemma CloseEnough(g: real, g0: real, eps: real, d: real, n: nat)
    requires eps > 0.0 && 0.0 < d < 1.0 && g >= 0.0
    requires g * (1.0 + n as real * (1.0 - d)) <= g0
    requires n as real * (eps * (1.0 - d)) > g0
    ensures g < eps
  {
    var big := 1.0 + n as real * (1.0 - d);
    assert eps * big == eps + n as real * (eps * (1.0 - d));
    MulNonNeg(n as real, 1.0 - d);
    assert eps * big - g * big == big * (eps - g);
    MulSigns(big, eps - g);
  }

  /** Feeding a constant mid drives the smoothed value arbitrarily close to it. */
  lemma SmoothedConverges(e: real, d: real, c: real, eps: real)
    requires 0.0 < d < 1.0
    requires eps > 0.0
    ensures exists n: nat :: Abs(Smoothed(e, d, c, n) - c) < eps
  {
    var g0 := Abs(e - c);
    var n := TicksFor(g0, eps, d);
    ShrunkBound(g0, d, n);
    CloseEnough(Shrunk(g0, d, n), g0, eps, d, n);
    SmoothedGap(e, d, c, n);
    assert Abs(Smoothed(e, d, c, n) - c) < eps;
  }

  /** The smoothed mid of p after n ticks that all see the same books od. */
  function EwmaAfterTicks(p: Product, prev: Option<real>, od: map<Product, OrderDepth>, n: nat): (r: Option<real>)
    ensures prev.Some? ==> r.Some?
  {
    if n == 0 then prev else EwmaAfter(p, EwmaAfterTicks(p, prev, od, n - 1), od)
  }

  /** A book whose mid stays at c turns phase 1 into the constant-mid
      smoothing with p's configured decay factor. */
  lemma {:induction false} SteadyBookIsSmoothed(p: Product, e: real, od: map<Product, OrderDepth>, n: nat)
    requires p in od && Mid(od[p]).Some?
    ensures EwmaAfterTicks(p, Some(e), od, n) == Some(Smoothed(e, DecayFactor(p), Mid(od[p]).value, n))
  {
    if n > 0 {
      SteadyBookIsSmoothed(p, e, od, n - 1);
    }
  }

  /** For every configured product, the smoothed mid of a book whose mid
      stays put comes within any eps > 0 of that mid after finitely many ticks. */
  lemma SteadyBookConverges(p: Product, e: real, od: map<Product, OrderDepth>, eps: real)
    requires p in od && Mid(od[p]).Some?
    requires eps > 0.0
    ensures exists n: nat :: Abs(EwmaAfterTicks(p, Some(e), od, n).value - Mid(od[p]).value) < eps
  {
    var c := Mid(od[p]).value;
    ConfigurationSane(p);
    SmoothedConverges(e, DecayFactor(p), c, eps);
    var n: nat :| Abs(Smoothed(e, DecayFactor(p), c, n) - c) < eps;
    SteadyBookIsSmoothed(p, e, od, n);
  }

  // ---------------------------------------------------------------------
  // Phase 2: fair values

  /** Fair value of one product of the linked pair: its own smoothed mid
      scaled by a basis term that passes on the fraction w of the counterpart's
      deviation of live mid from its smoothed mid. */
  function LinkedFair(own: real, w: real, counterMid: real, counterEwma: real): (r: real)
    requires counterEwma != 0.0
    ensures counterMid == counterEwma ==> r == own
    ensures w == 0.0 ==> r == own
    ensures w == 1.0 ==> r * counterEwma == own * counterMid
  {
    own * (1.0 + w * (counterMid / counterEwma - 1.0))
  }

  /** Directionality: with positive prices and weight, the fair value is above,
      at or below the own smoothed mid exactly when the counterpart's live mid
      is above, at or below its own smoothed mid. */
  lemma LinkedFairDirection(own: real, w: real, counterMid: real, counterEwma: real)
    requires own > 0.0 && w > 0.0 && counterEwma > 0.0
    ensures LinkedFair(own, w, counterMid, counterEwma) > own <==> counterMid > counterEwma
    ensures LinkedFair(own, w, counterMid, counterEwma) == own <==> counterMid == counterEwma
    ensures LinkedFair(own, w, counterMid, counterEwma) < own <==> counterMid < counterEwma
  {
    var dev := counterMid / counterEwma - 1.0;
    assert LinkedFair(own, w, counterMid, counterEwma) - own == own * (w * dev);
    assert counterMid - counterEwma == counterEwma * dev;
    assert dev > 0.0 <==> own * (w * dev) > 0.0;
    assert dev < 0.0 <==> own * (w * dev) < 0.0;
  }

  /** Worked example: smoothed Pina Coladas 100, live Pina Coladas mid 110,
      smoothed Coconuts 50 give a Coconuts fair value of 52.5. */
  lemma LinkedFairExample()
    ensures LinkedFair(50.0, 0.5, 110.0, 100.0) == 52.5
  {
  }

  /** The counterpart of each product of the linked pair, and the weight of its basis. */
  function Counterpart(p: Product): Product
  {
    match p
    case Coconuts => PinaColadas
    case PinaColadas => Coconuts
    case _ => p
  }

  function BasisWeight(p: Product): real
  {
    if p == Coconuts then 0.5 else if p == PinaColadas then 0.8 else 0.0
  }

  /** Phase 2 can run without a missing key or a division by zero: each
      product of the pair has its counterpart's book, and when the fair value
      is computed the counterpart's (already updated) smoothed mid is non-zero. */
  predicate LinkedDefined(ewmas: map<Product, Option<real>>, od: map<Product, OrderDepth>)
  {
    forall p :: p in od && !Anchored(p) ==>
      && Counterpart(p) in od
      && p in ewmas
      && Counterpart(p) in ewmas
      && (Mid(od[Counterpart(p)]).Some? && ewmas[p].Some? ==>
            ewmas[Counterpart(p)].Some? && ewmas[Counterpart(p)].value != 0.0)
  }

  /** Fair value of p after phase 2, given the smoothed mids after phase 1.
      Anchored products take their smoothed mid; each product of the linked
      pair applies the basis term when the counterpart mid and its own smoothed
      mid are known, and keeps its previous fair value otherwise. */
  function FairFor(p: Product, prev: Option<real>, ewmas: map<Product, Option<real>>, od: map<Product, OrderDepth>): (r: Option<real>)
    requires p in od && p in ewmas
    requires LinkedDefined(ewmas, od)
    ensures Anchored(p) ==> r == ewmas[p]
    ensures !Anchored(p) && (Mid(od[Counterpart(p)]).None? || ewmas[p].None?) ==> r == prev
    ensures !Anchored(p) && Mid(od[Counterpart(p)]).Some? && ewmas[p].Some? ==>
              r == Some(LinkedFair(ewmas[p].value, BasisWeight(p), Mid(od[Counterpart(p)]).value, ewmas[Counterpart(p)].value))
  {
    if Anchored(p) then ewmas[p]
    else
      var counterMid := Mid(od[Counterpart(p)]);
      if counterMid.Some? && ewmas[p].Some? then
        Some(LinkedFair(ewmas[p].value, BasisWeight(p), counterMid.value, ewmas[Counterpart(p)].value))
      else prev
  }

  /** Once a product's book has both sides, its smoothed mid is known after
      phase 1: the counterpart smoothed mid read in phase 2 is never missing. */
  lemma MidSeenMeansEwmaKnown(p: Product, prev: Option<real>, od: map<Product, OrderDepth>)
    requires p in od && Mid(od[p]).Some?
    ensures EwmaAfter(p, prev, od).Some?
  {
  }
}
