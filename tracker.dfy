/** Cash and traded-volume bookkeeping from the fills reported for the
    previous tick. */
module Tracker {
  import opened Products

  /** An executed trade as reported by the exchange, one tick late. */
  datatype Trade = Trade(price: int, quantity: int, buyer: string, seller: string, timestamp: int)

  /** The fills that count at a tick: those stamped exactly t (one tick
      before the current timestamp), in the order they were reported. */
  function Counted(trades: seq<Trade>, t: int): (r: seq<Trade>)
    ensures forall tr :: tr in r <==> tr in trades && tr.timestamp == t
    ensures |r| <= |trades|
  {
    if trades == [] then []
    else
      var last := trades[|trades| - 1];
      Counted(trades[..|trades| - 1], t) + (if last.timestamp == t then [last] else [])
  }

  /** Total quantity of a list of fills. */
  function Volume(trades: seq<Trade>): int
  {
    if trades == [] then 0 else Volume(trades[..|trades| - 1]) + trades[|trades| - 1].quantity
  }

  /** Cash effect of one fill on this trader: paying price*quantity as buyer,
      receiving it as seller (both, netting to zero, if it was on both sides). */
  function FillCash(tr: Trade): (r: int)
    ensures tr.buyer == Submission && tr.seller != Submission ==> r == -(tr.price * tr.quantity)
    ensures tr.seller == Submission && tr.buyer != Submission ==> r == tr.price * tr.quantity
    ensures (tr.buyer == Submission) == (tr.seller == Submission) ==> r == 0
  {
    (if tr.seller == Submission then tr.price * tr.quantity else 0)
    - (if tr.buyer == Submission then tr.price * tr.quantity else 0)
  }

  /** Total cash effect of a list of fills. */
  function CashFlow(trades: seq<Trade>): int
  {
    if trades == [] then 0 else CashFlow(trades[..|trades| - 1]) + FillCash(trades[|trades| - 1])
  }

  /** Volume counts quantities: fills of non-negative quantity add up to a
      non-negative volume, and each fill's quantity is part of it. */
  lemma {:induction false} VolumeNonNegative(trades: seq<Trade>)
    requires forall i :: 0 <= i < |trades| ==> trades[i].quantity >= 0
    ensures Volume(trades) >= 0
    ensures forall i :: 0 <= i < |trades| ==> trades[i].quantity <= Volume(trades)
  {
    if trades != [] {
      var init := trades[..|trades| - 1];
      VolumeNonNegative(init);
      assert forall i :: 0 <= i < |init| ==> init[i] == trades[i];
    }
  }

  /** Fills in which this trader is neither buyer nor seller move no cash. */
  lemma {:induction false} ThirdPartyFillsMoveNoCash(trades: seq<Trade>)
    requires forall i :: 0 <= i < |trades| ==> trades[i].buyer != Submission && trades[i].seller != Submission
    ensures CashFlow(trades) == 0
  {
    if trades != [] {
      var init := trades[..|trades| - 1];
      assert forall i :: 0 <= i < |init| ==> init[i] == trades[i];
      ThirdPartyFillsMoveNoCash(init);
    }
  }

  /** Counting distributes over concatenation: the fills of a longer report
      are those of its parts, in order. */
  lemma {:induction false} CountedAppend(a: seq<Trade>, b: seq<Trade>, t: int)
    ensures Counted(a + b, t) == Counted(a, t) + Counted(b, t)
    decreases |b|
  {
    if b == [] {
      assert a + b == a;
    } else {
      var b' := b[..|b| - 1];
      assert (a + b)[..|a + b| - 1] == a + b';
      CountedAppend(a, b', t);
    }
  }

  lemma {:induction false} VolumeAppend(a: seq<Trade>, b: seq<Trade>)
    ensures Volume(a + b) == Volume(a) + Volume(b)
    decreases |b|
  {
    if b == [] {
      assert a + b == a;
    } else {
      var b' := b[..|b| - 1];
      assert (a + b)[..|a + b| - 1] == a + b';
      VolumeAppend(a, b');
    }
  }

  lemma {:induction false} CashFlowAppend(a: seq<Trade>, b: seq<Trade>)
    ensures CashFlow(a + b) == CashFlow(a) + CashFlow(b)
    decreases |b|
  {
    if b == [] {
      assert a + b == a;
    } else {
      var b' := b[..|b| - 1];
      assert (a + b)[..|a + b| - 1] == a + b';
      CashFlowAppend(a, b');
    }
  }

  /** A report with no fill stamped t changes neither volume nor cash. */
  lemma {:induction false} StaleFillsIgnored(trades: seq<Trade>, t: int)
    requires forall i :: 0 <= i < |trades| ==> trades[i].timestamp != t
    ensures Counted(trades, t) == []
    ensures Volume(Counted(trades, t)) == 0 && CashFlow(Counted(trades, t)) == 0
  {
    if trades != [] {
      StaleFillsIgnored(trades[..|trades| - 1], t);
    }
  }

  /** Prepending or appending a fill with another timestamp to a report
      changes nothing that is counted. */
  lemma OtherTimestampIgnored(trades: seq<Trade>, tr: Trade, t: int)
    requires tr.timestamp != t
    ensures Counted([tr] + trades, t) == Counted(trades, t)
    ensures Counted(trades + [tr], t) == Counted(trades, t)
  {
    CountedAppend([tr], trades, t);
    CountedAppend(trades, [tr], t);
    assert Counted([tr], t) == [] by {
      assert [tr][..0] == [];
    }
  }

  /** A counted own fill moves cash by exactly price*quantity: down when this
      trader bought, up when it sold. */
  lemma OwnFillCash(trades: seq<Trade>, tr: Trade, t: int)
    requires tr.timestamp == t
    ensures Volume(Counted(trades + [tr], t)) == Volume(Counted(trades, t)) + tr.quantity
    ensures tr.buyer == Submission && tr.seller != Submission ==>
              CashFlow(Counted(trades + [tr], t)) == CashFlow(Counted(trades, t)) - tr.price * tr.quantity
    ensures tr.seller == Submission && tr.buyer != Submission ==>
              CashFlow(Counted(trades + [tr], t)) == CashFlow(Counted(trades, t)) + tr.price * tr.quantity
    ensures tr.seller != Submission && tr.buyer != Submission ==>
              CashFlow(Counted(trades + [tr], t)) == CashFlow(Counted(trades, t))
  {
    assert (trades + [tr])[..|trades + [tr]| - 1] == trades;
  }

  /** Scanning one more report entry: the running volume and cash effect
      move by that entry's quantity and cash exactly when it is stamped t. */
  lemma FillStep(trades: seq<Trade>, i: nat, t: int)
    requires i < |trades|
    ensures Volume(Counted(trades[..i + 1], t))
            == Volume(Counted(trades[..i], t)) + (if trades[i].timestamp == t then trades[i].quantity else 0)
    ensures CashFlow(Counted(trades[..i + 1], t))
            == CashFlow(Counted(trades[..i], t)) + (if trades[i].timestamp == t then FillCash(trades[i]) else 0)
  {
    assert trades[..i + 1][..i] == trades[..i];
    var before := Counted(trades[..i], t);
    if trades[i].timestamp == t {
      assert Counted(trades[..i + 1], t) == before + [trades[i]];
      assert (before + [trades[i]])[..|before|] == before;
    } else {
      assert Counted(trades[..i + 1], t) == before;
    }
  }
}
