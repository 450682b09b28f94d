/**
 * Price filling and no-arbitrage bounds of `interpolate_pc`
 * (implied_return.py, lines 82-95).
 */
module Bounds {
  import opened Wrappers
  import opened Seqs
  import opened Quotes
  import opened Strikes
  import opened Interpolation

  /** `(ask + bid) / 2`, missing when either side is: the point halfway between the two quotes. */
  function Mid(ask: Option<real>, bid: Option<real>): (r: Option<real>)
    ensures r.Some? <==> ask.Some? && bid.Some?
    ensures r.Some? ==> r.value - bid.value == ask.value - r.value
    ensures r.Some? && bid.value <= ask.value ==> bid.value <= r.value <= ask.value
  {
    if ask.Some? && bid.Some? then Some((ask.value + bid.value) / 2.0) else None
  }

  /** The present values of a column, in order (`values[~isnan(values)]`). */
  function Present(vs: seq<Option<real>>): (r: seq<real>)
    ensures forall x :: x in r <==> Some(x) in vs
  {
    if vs == [] then []
    else
      var rest := Present(vs[1..]);
      assert forall o :: o in vs <==> o == vs[0] || o in vs[1..];
      if vs[0].Some? then [vs[0].value] + rest else rest
  }

  /**
   * `u_price.unique()[~isnan(...)].mean()`: the mean of the distinct present
   * underlying prices. With none present numpy gives NaN, which is `None`.
   * The mean lies between the smallest and the largest of them.
   */
  function Underlying(us: seq<Option<real>>): (r: Option<real>)
    ensures r.Some? <==> exists x :: Some(x) in us
    ensures r.Some? ==> exists x :: Some(x) in us && x <= r.value
    ensures r.Some? ==> exists x :: Some(x) in us && r.value <= x
  {
    var d := Unique(Present(us));
    if d == [] then
      assert forall x :: Some(x) !in us by {
        forall x ensures Some(x) !in us {
          assert x !in d;
        }
      }
      None
    else
      assert d[0] in d;
      assert (exists x :: Some(x) in us && x <= Mean(d)) && (exists x :: Some(x) in us && Mean(d) <= x) by {
        var i :| 0 <= i < |d| && d[i] <= Mean(d);
        var j :| 0 <= j < |d| && Mean(d) <= d[j];
        assert d[i] in d && d[j] in d;
      }
      Some(Mean(d))
  }

  /**
   * The underlying is the mean of the distinct present prices, whatever
   * order they are listed in: for any duplicate-free `d` holding exactly
   * those prices, it is defined exactly when `d` is non-empty and it times
   * `|d|` is the sum of `d`.
   */
  lemma UnderlyingIsMean(us: seq<Option<real>>, d: seq<real>)
    requires NoDup(d) && forall x :: x in d <==> Some(x) in us
    ensures Underlying(us).Some? <==> d != []
    ensures d != [] ==> Underlying(us).value * |d| as real == Sum(d)
  {
    var u := Unique(Present(us));
    assert forall x :: x in u <==> x in d;
    SumOfSet(u, d);
    if d != [] {
      MeanOfSet(u, d);
      calc {
        Underlying(us).value * |d| as real;
        { assert Underlying(us) == Some(Mean(u)); }
        Mean(u) * |d| as real;
        Sum(d);
      }
    }
  }

  /** Underlying prices that all agree give that price back. */
  lemma UnderlyingAgreeing(us: seq<Option<real>>, c: real)
    requires Some(c) in us
    requires forall x :: Some(x) in us ==> x == c
    ensures Underlying(us) == Some(c)
  {
    var d := Unique(Present(us));
    assert c in d;
    assert forall i :: 0 <= i < |d| ==> d[i] == c by {
      forall i | 0 <= i < |d| ensures d[i] == c {
        assert d[i] in d;
      }
    }
    assert Mean(d) == d[0] == c;
    assert Underlying(us) == Some(Mean(d));
  }

  /** A price seen again does not weigh twice: only distinct prices enter the mean. */
  lemma UnderlyingRepeat(us: seq<Option<real>>, x: real)
    requires Some(x) in us
    ensures Underlying(us + [Some(x)]) == Underlying(us)
  {
    var vs := us + [Some(x)];
    assert vs[1..] == us[1..] + [Some(x)] by { assert |us| >= 1; }
    PresentAppend(us, x);
    var ps := Present(us);
    assert x in ps;
    assert (ps + [x])[..|ps|] == ps;
  }

  lemma {:induction false} PresentAppend(us: seq<Option<real>>, x: real)
    ensures Present(us + [Some(x)]) == Present(us) + [x]
  {
    if us != [] {
      PresentAppend(us[1..], x);
      assert (us + [Some(x)])[1..] == us[1..] + [Some(x)];
    } else {
      assert Present([Some(x)]) == [x] + Present([]);
    }
  }

  function Asks(t: seq<Row>): (r: seq<Option<real>>)
    ensures |r| == |t| && forall k :: 0 <= k < |t| ==> r[k] == t[k].ask
  {
    seq(|t|, k requires 0 <= k < |t| => t[k].ask)
  }

  function Bids(t: seq<Row>): (r: seq<Option<real>>)
    ensures |r| == |t| && forall k :: 0 <= k < |t| ==> r[k] == t[k].bid
  {
    seq(|t|, k requires 0 <= k < |t| => t[k].bid)
  }

  function UPrices(t: seq<Row>): (r: seq<Option<real>>)
    ensures |r| == |t| && forall k :: 0 <= k < |t| ==> r[k] == t[k].uPrice
  {
    seq(|t|, k requires 0 <= k < |t| => t[k].uPrice)
  }

  /**
   * Lines 82-87: ask and bid interpolated by position, mid recomputed on
   * every row, and one underlying price on every row. Strikes, flags and
   * names are untouched, and so are the prices already present.
   */
  function FillPrices(t: seq<Row>): (r: seq<Row>)
    ensures |r| == |t|
    ensures forall k :: 0 <= k < |t| ==>
      r[k].strike == t[k].strike && r[k].isReal == t[k].isReal && r[k].currency == t[k].currency
      && r[k].expiry == t[k].expiry && r[k].putCall == t[k].putCall
    ensures forall k :: 0 <= k < |t| ==> t[k].ask.Some? ==> r[k].ask == t[k].ask
    ensures forall k :: 0 <= k < |t| ==> t[k].bid.Some? ==> r[k].bid == t[k].bid
    ensures forall k :: 0 <= k < |t| ==> r[k].ask == Interpolate(Asks(t))[k] && r[k].bid == Interpolate(Bids(t))[k]
    ensures forall k :: 0 <= k < |t| ==> r[k].mid == Mid(r[k].ask, r[k].bid)
    ensures forall k :: 0 <= k < |t| ==> r[k].uPrice == Underlying(UPrices(t))
  {
    var asks := Interpolate(Asks(t));
    var bids := Interpolate(Bids(t));
    var u := Underlying(UPrices(t));
    forall k | 0 <= k < |t| ensures t[k].ask.Some? ==> asks[k] == t[k].ask {
      if t[k].ask.Some? { InterpolateKeeps(Asks(t), k); }
    }
    forall k | 0 <= k < |t| ensures t[k].bid.Some? ==> bids[k] == t[k].bid {
      if t[k].bid.Some? { InterpolateKeeps(Bids(t), k); }
    }
    seq(|t|, k requires 0 <= k < |t| =>
      t[k].(ask := asks[k], bid := bids[k], mid := Mid(asks[k], bids[k]), uPrice := u))
  }

  /** Filling prices leaves the strike order as it is. */
  lemma FillKeepsOrder(t: seq<Row>)
    requires StrictlyIncreasing(t)
    ensures StrictlyIncreasing(FillPrices(t))
  {
  }

  /** Both sides quoted, the mid their average, the underlying price `u`. */
  predicate Steady(q: Row, u: real) {
    q.ask.Some? && q.bid.Some? && q.mid == Mid(q.ask, q.bid) && q.uPrice == Some(u)
  }

  /** Rows whose prices are all present and consistent are left as they are. */
  lemma FillSteady(t: seq<Row>, u: real)
    requires Underlying(UPrices(t)) == Some(u)
    requires forall k :: 0 <= k < |t| ==> Steady(t[k], u)
    ensures FillPrices(t) == t
  {
    var r := FillPrices(t);
    forall k | 0 <= k < |t| ensures r[k] == t[k] {
      InterpolateKeeps(Asks(t), k);
      InterpolateKeeps(Bids(t), k);
    }
  }

  /** `strike - strike.shift(1)` at row k: positive in a strictly increasing table. */
  function Delta(t: seq<Row>, k: nat): (d: real)
    requires 1 <= k < |t| && StrictlyIncreasing(t)
    ensures d >= 1.0
  {
    (t[k].strike - t[k - 1].strike) as real
  }

  /** Line 89: `(ask[k-1] - 2 bid[k] + ask[k+1]) * U / Δ`, missing on the first and last rows. */
  function Butterfly(t: seq<Row>, k: nat): (r: Option<real>)
    requires k < |t| && StrictlyIncreasing(t)
    ensures r.Some? <==> 0 < k < |t| - 1 && t[k - 1].ask.Some? && t[k].bid.Some?
                         && t[k + 1].ask.Some? && t[k].uPrice.Some?
  {
    if 0 < k < |t| - 1 && t[k - 1].ask.Some? && t[k].bid.Some? && t[k + 1].ask.Some? && t[k].uPrice.Some? then
      Some((t[k - 1].ask.value - 2.0 * t[k].bid.value + t[k + 1].ask.value) * t[k].uPrice.value / Delta(t, k))
    else None
  }

  /** Line 90: `(-bid[k-1] + 2 ask[k] - bid[k+1]) * U / Δ`, missing on the first and last rows. */
  function ShortButterfly(t: seq<Row>, k: nat): (r: Option<real>)
    requires k < |t| && StrictlyIncreasing(t)
    ensures r.Some? <==> 0 < k < |t| - 1 && t[k - 1].bid.Some? && t[k].ask.Some?
                         && t[k + 1].bid.Some? && t[k].uPrice.Some?
  {
    if 0 < k < |t| - 1 && t[k - 1].bid.Some? && t[k].ask.Some? && t[k + 1].bid.Some? && t[k].uPrice.Some? then
      Some((-t[k - 1].bid.value + 2.0 * t[k].ask.value - t[k + 1].bid.value) * t[k].uPrice.value / Delta(t, k))
    else None
  }

  /**
   * Lines 91-95: the long spread, `(ask[k] - bid[k-1]) * U / Δ` for puts and
   * `(ask[k-1] - bid[k]) * U / Δ` for calls; missing on the first row only,
   * and for any other type code.
   */
  function LongSpread(t: seq<Row>, k: nat, putCall: string): (r: Option<real>)
    requires k < |t| && StrictlyIncreasing(t)
    ensures r.Some? ==> putCall == "P" || putCall == "C"
    ensures putCall == "P" ==> (r.Some? <==> 0 < k && t[k].ask.Some? && t[k - 1].bid.Some? && t[k].uPrice.Some?)
    ensures putCall == "C" ==> (r.Some? <==> 0 < k && t[k - 1].ask.Some? && t[k].bid.Some? && t[k].uPrice.Some?)
  {
    if 0 < k && putCall == "P" && t[k].ask.Some? && t[k - 1].bid.Some? && t[k].uPrice.Some? then
      Some((t[k].ask.value - t[k - 1].bid.value) * t[k].uPrice.value / Delta(t, k))
    else if 0 < k && putCall == "C" && t[k - 1].ask.Some? && t[k].bid.Some? && t[k].uPrice.Some? then
      Some((t[k - 1].ask.value - t[k].bid.value) * t[k].uPrice.value / Delta(t, k))
    else None
  }

  /** Scaling by a positive underlying price over a positive strike gap keeps the sign. */
  lemma ScaleKeepsSign(x: real, u: real, d: real)
    requires u > 0.0 && d > 0.0
    ensures x * u / d < 0.0 <==> x < 0.0
  {
    if x < 0.0 {
      assert x * u < 0.0;
    } else {
      assert x * u >= 0.0;
    }
  }

  /**
   * With a positive underlying price the butterfly is negative exactly when
   * the two wings can be bought for less than the body sells for twice.
   */
  lemma ButterflySign(t: seq<Row>, k: nat)
    requires k < |t| && StrictlyIncreasing(t)
    requires Butterfly(t, k).Some? && t[k].uPrice.value > 0.0
    ensures Butterfly(t, k).value < 0.0 <==> t[k - 1].ask.value + t[k + 1].ask.value < 2.0 * t[k].bid.value
  {
    ScaleKeepsSign(t[k - 1].ask.value - 2.0 * t[k].bid.value + t[k + 1].ask.value, t[k].uPrice.value, Delta(t, k));
  }

  /**
   * With a positive underlying price the short butterfly is negative exactly
   * when the wings sell for more than the body costs twice.
   */
  lemma ShortButterflySign(t: seq<Row>, k: nat)
    requires k < |t| && StrictlyIncreasing(t)
    requires ShortButterfly(t, k).Some? && t[k].uPrice.value > 0.0
    ensures ShortButterfly(t, k).value < 0.0 <==> t[k - 1].bid.value + t[k + 1].bid.value > 2.0 * t[k].ask.value
  {
    ScaleKeepsSign(-t[k - 1].bid.value + 2.0 * t[k].ask.value - t[k + 1].bid.value, t[k].uPrice.value, Delta(t, k));
  }

  /**
   * With a positive underlying price the long spread is negative exactly when
   * the option bought costs less than the adjacent one sold: for puts the
   * higher strike's ask under the lower strike's bid, for calls the lower
   * strike's ask under the higher strike's bid.
   */
  lemma LongSpreadSign(t: seq<Row>, k: nat, putCall: string)
    requires k < |t| && StrictlyIncreasing(t)
    requires LongSpread(t, k, putCall).Some? && t[k].uPrice.value > 0.0
    ensures putCall == "P" ==> (LongSpread(t, k, putCall).value < 0.0 <==> t[k].ask.value < t[k - 1].bid.value)
    ensures putCall == "C" ==> (LongSpread(t, k, putCall).value < 0.0 <==> t[k - 1].ask.value < t[k].bid.value)
  {
    if putCall == "P" {
      ScaleKeepsSign(t[k].ask.value - t[k - 1].bid.value, t[k].uPrice.value, Delta(t, k));
    } else {
      ScaleKeepsSign(t[k - 1].ask.value - t[k].bid.value, t[k].uPrice.value, Delta(t, k));
    }
  }

  /** One row of the result: the filled row and its three bounds. */
  datatype TableRow = TableRow(row: Row, butterfly: Option<real>, sButterfly: Option<real>, lSpread: Option<real>)

  /** The table `interpolate_pc` returns; `hasLSpread` says whether the `l_spread` column exists. */
  datatype SliceTable = SliceTable(rows: seq<TableRow>, hasLSpread: bool)

  /** The table without its bound columns. */
  function TableRows(tbl: SliceTable): (r: seq<Row>)
    ensures |r| == |tbl.rows| && forall k :: 0 <= k < |r| ==> r[k] == tbl.rows[k].row
  {
    seq(|tbl.rows|, k requires 0 <= k < |tbl.rows| => tbl.rows[k].row)
  }

  /**
   * Lines 89-95: the three bound columns over a filled, strictly increasing
   * table. No bound is defined on the first row, and neither butterfly on the
   * last; the long spread exists only for "P" and "C".
   */
  function WithBounds(t: seq<Row>, putCall: string): (r: SliceTable)
    requires StrictlyIncreasing(t)
    ensures |r.rows| == |t|
    ensures r.hasLSpread <==> putCall == "P" || putCall == "C"
    ensures forall k :: 0 <= k < |t| ==> r.rows[k].row == t[k]
    ensures forall k :: 0 <= k < |t| ==>
      r.rows[k].butterfly == Butterfly(t, k) && r.rows[k].sButterfly == ShortButterfly(t, k)
      && r.rows[k].lSpread == LongSpread(t, k, putCall)
    ensures |t| > 0 ==> r.rows[0].butterfly.None? && r.rows[0].sButterfly.None? && r.rows[0].lSpread.None?
    ensures |t| > 0 ==> r.rows[|t| - 1].butterfly.None? && r.rows[|t| - 1].sButterfly.None?
    ensures !r.hasLSpread ==> forall k :: 0 <= k < |t| ==> r.rows[k].lSpread.None?
    ensures TableRows(r) == t
  {
    var rows := seq(|t|, k requires 0 <= k < |t| =>
      TableRow(t[k], Butterfly(t, k), ShortButterfly(t, k), LongSpread(t, k, putCall)));
    SliceTable(rows, putCall == "P" || putCall == "C")
  }
}
