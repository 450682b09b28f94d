/**
 * `interpolate_pc` as a whole (implied_return.py, lines 47-97): the expiry
 * guard, then slice, grid, fill and bounds.
 */
module Slice {
  import opened Wrappers
  import opened Quotes
  import opened Strikes
  import opened Bounds

  /** Why no table comes back. */
  datatype SliceError =
    | ExpiryNotFound(valid: seq<string>) // the message listing the valid expiries is printed and `None` returned
    | NoExpiries                         // `exp_dates[-1]` on an empty list raises IndexError
    | TooFewStrikes                      // under two strikes the minimum gap is NaN and `int()` raises
    | ZeroStep                           // a repeated strike makes the step 0 and `range()` raises

  /**
   * Lines 51-55: without an expiry (`None` or the empty string) the last
   * listed one is used; an expiry that is not listed gives no table.
   */
  function SelectExpiry(expDates: seq<string>, expDate: Option<string>): (r: Result<string, SliceError>)
    ensures r.Success? ==> r.value in expDates
    ensures (expDate.None? || expDate.value == []) && expDates != [] ==> r == Success(expDates[|expDates| - 1])
    ensures (expDate.None? || expDate.value == []) && expDates == [] ==> r == Failure(NoExpiries)
    ensures expDate.Some? && expDate.value != [] ==>
      r == if expDate.value in expDates then Success(expDate.value) else Failure(ExpiryNotFound(expDates))
  {
    if expDate.None? || expDate.value == [] then
      if expDates == [] then Failure(NoExpiries) else Success(expDates[|expDates| - 1])
    else if expDate.value !in expDates then Failure(ExpiryNotFound(expDates))
    else Success(expDate.value)
  }

  /** Line 58: the rows of one expiry and type, sorted by strike. */
  function SortedSlice(quotes: seq<Row>, expiry: string, putCall: string): (s: seq<Row>)
    ensures SortedByStrike(s)
    ensures |s| == |SliceOf(quotes, expiry, putCall)|
    ensures multiset(s) == multiset(SliceOf(quotes, expiry, putCall))
  {
    SortByStrike(SliceOf(quotes, expiry, putCall))
  }

  /** The gaps of a strike-sorted sequence are never negative. */
  lemma SortedGaps(s: seq<Row>)
    requires SortedByStrike(s)
    ensures forall i :: 0 <= i < |s| - 1 ==> Gap(StrikesOf(s), i) >= 0
  {
    var xs := StrikesOf(s);
    forall i | 0 <= i < |s| - 1 ensures Gap(xs, i) >= 0 {
      assert xs[i] == s[i].strike && xs[i + 1] == s[i + 1].strike;
    }
  }

  /** Line 63: the step of a slice with at least two strikes; never negative. */
  function Step(s: seq<Row>): (step: int)
    requires |s| >= 2 && SortedByStrike(s)
    ensures step >= 0
    ensures step > 0 ==> StrictlyIncreasing(s)
    ensures step == 0 ==> exists i :: 0 <= i < |s| - 1 && s[i].strike == s[i + 1].strike
  {
    StepFacts(s);
    MinGap(StrikesOf(s))
  }

  /** The step is the smallest gap between neighbouring strikes of the sorted slice: no gap is below it. */
  lemma StepBelowGaps(s: seq<Row>, i: nat)
    requires |s| >= 2 && SortedByStrike(s) && i < |s| - 1
    ensures Step(s) <= s[i + 1].strike - s[i].strike
  {
    var xs := StrikesOf(s);
    assert Gap(xs, i) == s[i + 1].strike - s[i].strike;
  }

  /** A zero minimum gap is a repeated strike; a positive one leaves none. */
  lemma StepFacts(s: seq<Row>)
    requires |s| >= 2 && SortedByStrike(s)
    ensures MinGap(StrikesOf(s)) >= 0
    ensures MinGap(StrikesOf(s)) > 0 ==> StrictlyIncreasing(s)
    ensures MinGap(StrikesOf(s)) == 0 ==> exists i :: 0 <= i < |s| - 1 && s[i].strike == s[i + 1].strike
  {
    var xs := StrikesOf(s);
    SortedGaps(s);
    var step := MinGap(xs);
    if step > 0 {
      PositiveStepStrict(s);
    }
    var i :| 0 <= i < |s| - 1 && step == Gap(xs, i);
    assert xs[i] == s[i].strike && xs[i + 1] == s[i + 1].strike;
  }

  /** Lines 65-95 once the step is known: completed, filled and bounded. */
  function Table(s: seq<Row>, step: int, putCall: string): (tbl: SliceTable)
    requires |s| >= 1 && step > 0 && StrictlyIncreasing(s)
    ensures |tbl.rows| == |s| + |NewStrikes(s, step)|
    ensures tbl.hasLSpread <==> putCall == "P" || putCall == "C"
  {
    var t := Complete(s, step);
    FillKeepsOrder(t);
    WithBounds(FillPrices(t), putCall)
  }

  /** Lines 58-95 for an expiry already checked. */
  function BuildSlice(quotes: seq<Row>, expiry: string, putCall: string): (r: Result<SliceTable, SliceError>)
    ensures r == Failure(TooFewStrikes) <==> |SliceOf(quotes, expiry, putCall)| < 2
    ensures r == Failure(ZeroStep) <==>
      |SliceOf(quotes, expiry, putCall)| >= 2 && Step(SortedSlice(quotes, expiry, putCall)) == 0
    ensures |SliceOf(quotes, expiry, putCall)| >= 2 && Step(SortedSlice(quotes, expiry, putCall)) > 0 ==> r.Success?
    ensures r.Success? ==> |r.value.rows| >= 2
    ensures r.Success? ==> (r.value.hasLSpread <==> putCall == "P" || putCall == "C")
    ensures r.Success? ==>
      var s := SortedSlice(quotes, expiry, putCall);
      |s| >= 2 && Step(s) > 0 && r.value == Table(s, Step(s), putCall)
  {
    var s := SortedSlice(quotes, expiry, putCall);
    if |s| < 2 then Failure(TooFewStrikes)
    else
      var step := Step(s);
      if step == 0 then Failure(ZeroStep)
      else Success(Table(s, step, putCall))
  }

  /** The whole of `interpolate_pc`: the expiry guard, then the table. */
  function InterpolatePc(quotes: seq<Row>, expDates: seq<string>, expDate: Option<string> := None, putCall: string := "P")
    : (r: Result<SliceTable, SliceError>)
    ensures SelectExpiry(expDates, expDate).Failure? ==> r == Failure(SelectExpiry(expDates, expDate).error)
    ensures r.Success? ==> SelectExpiry(expDates, expDate).Success?
    ensures r.Failure? && r.error.ExpiryNotFound? ==> expDate.Some? && expDate.value !in expDates
    ensures SelectExpiry(expDates, expDate).Success? ==>
      r == BuildSlice(quotes, SelectExpiry(expDates, expDate).value, putCall)
  {
    match SelectExpiry(expDates, expDate)
    case Failure(e) => Failure(e)
    case Success(e) => BuildSlice(quotes, e, putCall)
  }

  /** A table row carries the quote `q`: same instrument, same flag, and its prices where `q` had them. */
  predicate Carries(tr: TableRow, q: Row) {
    tr.row.strike == q.strike && tr.row.isReal == q.isReal && tr.row.currency == q.currency
    && tr.row.expiry == q.expiry && tr.row.putCall == q.putCall
    && (q.ask.Some? ==> tr.row.ask == q.ask) && (q.bid.Some? ==> tr.row.bid == q.bid)
  }

  /** The strikes of a table strictly increase, so every Δ is positive. */
  lemma TableSorted(s: seq<Row>, step: int, putCall: string)
    requires |s| >= 1 && step > 0 && StrictlyIncreasing(s)
    ensures StrictlyIncreasing(TableRows(Table(s, step, putCall)))
  {
    var t := Complete(s, step);
    FillKeepsOrder(t);
  }

  /** Every quote of the slice is carried, unchanged where it had prices, by a row of the table. */
  lemma QuoteKept(s: seq<Row>, step: int, putCall: string, q: Row)
    requires |s| >= 1 && step > 0 && StrictlyIncreasing(s)
    requires q in s
    ensures exists k :: 0 <= k < |Table(s, step, putCall).rows| && Carries(Table(s, step, putCall).rows[k], q)
  {
    CompleteRows(s, step);
    var k := IndexOf(Complete(s, step), q);
    RowCarried(s, step, putCall, k);
  }

  /** A position holding `x`. */
  lemma IndexOf<T>(xs: seq<T>, x: T) returns (k: nat)
    requires x in xs
    ensures k < |xs| && xs[k] == x
  {
    k :| 0 <= k < |xs| && xs[k] == x;
  }

  /** Row `k` of the table carries row `k` of the completed slice. */
  lemma RowCarried(s: seq<Row>, step: int, putCall: string, k: nat)
    requires |s| >= 1 && step > 0 && StrictlyIncreasing(s)
    requires k < |Complete(s, step)|
    ensures k < |Table(s, step, putCall).rows| && Carries(Table(s, step, putCall).rows[k], Complete(s, step)[k])
  {
    var t := Complete(s, step);
    FillKeepsOrder(t);
    assert Table(s, step, putCall) == WithBounds(FillPrices(t), putCall);
  }

  /**
   * When every quote is real, a row of the table is synthetic exactly when
   * its strike is a grid point that no quote of the slice has.
   */
  lemma SyntheticExactlyNew(s: seq<Row>, step: int, putCall: string, k: nat)
    requires |s| >= 1 && step > 0 && StrictlyIncreasing(s)
    requires forall q :: q in s ==> q.isReal
    requires k < |Table(s, step, putCall).rows|
    ensures var tr := Table(s, step, putCall).rows[k];
      !tr.row.isReal <==> tr.row.strike in NewStrikes(s, step)
  {
    var t := Complete(s, step);
    CompleteRows(s, step);
    assert t[k] in t;
    if t[k] in s {
      var i := IndexOf(s, t[k]);
      assert StrikesOf(s)[i] == t[k].strike;
    }
  }

  /** Every grid point that no quote of the slice has gets one synthetic row. */
  lemma NewStrikeAdded(s: seq<Row>, step: int, putCall: string, x: int)
    requires |s| >= 1 && step > 0 && StrictlyIncreasing(s)
    requires x in NewStrikes(s, step)
    ensures var tbl := Table(s, step, putCall);
      exists k :: 0 <= k < |tbl.rows| && tbl.rows[k].row.strike == x && !tbl.rows[k].row.isReal
  {
    var t := Complete(s, step);
    var tbl := Table(s, step, putCall);
    CompleteRows(s, step);
    var k := IndexOf(t, Synthetic(s[0], x));
    RowCarried(s, step, putCall, k);
  }

  /** A put quote of the worked example: expiry "27DEC24", underlying 115. */
  function ExampleQuote(strike: int, ask: real, bid: real): Row {
    Row("BTC", "27DEC24", strike, "P", Some((ask + bid) / 2.0), Some(bid), Some(ask), true, Some(115.0))
  }

  lemma QuoteSteady(strike: int, ask: real, bid: real)
    ensures Steady(ExampleQuote(strike, ask, bid), 115.0)
  {
  }

  /** Puts at 100, 110 and 120 with asks 5, 3, 1.5 and bids 4, 2, 1. */
  function ExampleQuotes(): seq<Row> {
    [ExampleQuote(100, 5.0, 4.0), ExampleQuote(110, 3.0, 2.0), ExampleQuote(120, 1.5, 1.0)]
  }

  lemma ExampleSlice()
    ensures SortedSlice(ExampleQuotes(), "27DEC24", "P") == ExampleQuotes()
  {
    var q := ExampleQuotes();
    assert SliceOf(q[2..], "27DEC24", "P") == q[2..];
    assert SliceOf(q[1..], "27DEC24", "P") == q[1..];
    assert SliceOf(q, "27DEC24", "P") == q;
    ExampleOrdered();
    SortSorted(q);
  }

  lemma ExampleStrikes()
    ensures StrikesOf(ExampleQuotes()) == [100, 110, 120]
  {
    var q := ExampleQuotes();
    assert q[1..][1..] == [q[2]];
  }

  lemma ExampleOrdered()
    ensures SortedByStrike(ExampleQuotes()) && StrictlyIncreasing(ExampleQuotes())
  {
  }

  lemma ExampleStep()
    ensures SortedByStrike(ExampleQuotes()) && Step(ExampleQuotes()) == 10
  {
    ExampleOrdered();
    ExampleStrikes();
    var xs := [100, 110, 120];
    assert xs[1..] == [110, 120];
  }

  lemma ExampleGrid()
    ensures SortedByStrike(ExampleQuotes()) && NewStrikes(ExampleQuotes(), 10) == []
  {
    ExampleOrdered();
    ExampleStrikes();
    var xs := [100, 110, 120];
    assert Gap(xs, 0) == 10 && Gap(xs, 1) == 10;
    EvenlySpacedAddsNothing(xs, 10);
  }

  lemma ExampleComplete()
    ensures StrictlyIncreasing(ExampleQuotes()) && Complete(ExampleQuotes(), 10) == ExampleQuotes()
  {
    ExampleOrdered();
    ExampleGrid();
    CompleteNothingNew(ExampleQuotes(), 10);
  }

  lemma ExampleUnderlying()
    ensures Underlying(UPrices(ExampleQuotes())) == Some(115.0)
  {
    var us := UPrices(ExampleQuotes());
    assert us == [Some(115.0), Some(115.0), Some(115.0)];
    UnderlyingAgreeing(us, 115.0);
  }

  lemma ExampleFilled()
    ensures FillPrices(ExampleQuotes()) == ExampleQuotes()
  {
    ExampleUnderlying();
    ExampleSteady();
    FillSteady(ExampleQuotes(), 115.0);
  }

  lemma ExampleSteady()
    ensures forall k :: 0 <= k < |ExampleQuotes()| ==> Steady(ExampleQuotes()[k], 115.0)
  {
    QuoteSteady(100, 5.0, 4.0);
    QuoteSteady(110, 3.0, 2.0);
    QuoteSteady(120, 1.5, 1.0);
  }

  lemma ExampleBuild()
    ensures StrictlyIncreasing(ExampleQuotes())
    ensures BuildSlice(ExampleQuotes(), "27DEC24", "P") == Success(WithBounds(ExampleQuotes(), "P"))
  {
    ExampleSlice();
    ExampleStep();
    ExampleComplete();
    ExampleFilled();
  }

  lemma ExampleBounds()
    ensures StrictlyIncreasing(ExampleQuotes())
    ensures Butterfly(ExampleQuotes(), 1) == Some(28.75)
    ensures ShortButterfly(ExampleQuotes(), 1) == Some(11.5)
    ensures LongSpread(ExampleQuotes(), 1, "P") == Some(-11.5)
  {
    ExampleOrdered();
  }

  /**
   * The worked example: the step is 10, the grid is exactly the three strikes
   * (no synthetic 130, since `range` stops before max + step), and at strike
   * 110 the butterfly is (5 - 2*2 + 1.5) * 115 / 10 = 28.75, the short
   * butterfly (-4 + 2*3 - 1) * 115 / 10 = 11.5 and the put spread
   * (3 - 4) * 115 / 10 = -11.5, a negative bound flagging an arbitrage.
   */
  lemma WorkedExample()
    ensures var r := InterpolatePc(ExampleQuotes(), ["27DEC24"]);
      r.Success? && |r.value.rows| == 3
      && r.value.rows[1].butterfly == Some(28.75)
      && r.value.rows[1].sButterfly == Some(11.5)
      && r.value.rows[1].lSpread == Some(-11.5)
  {
    ExampleBuild();
    ExampleBounds();
    assert SelectExpiry(["27DEC24"], None) == Success("27DEC24");
    assert InterpolatePc(ExampleQuotes(), ["27DEC24"]) == Success(WithBounds(ExampleQuotes(), "P"));
  }
}
