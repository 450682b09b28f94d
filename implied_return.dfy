/**
 * The `ImpliedReturn` object: the quote table and expiry list it reloads from
 * the exchange, and the put and call tables `interpolate` stores.
 */
module Client {
  import opened Wrappers
  import opened Seqs
  import opened Quotes
  import opened Bounds
  import opened Slice

  /** The book-summary request for one currency and instrument kind. */
  function ApiUrl(asset: string, kind: string): string {
    "https://www.deribit.com/api/v2/public/get_book_summary_by_currency?currency=" + asset + "&kind=" + kind
  }

  /**
   * Running the guard a second time on the expiry it chose selects that
   * expiry again, so `interpolate` passing its choice on to `interpolate_pc`
   * adds no failure of its own.
   */
  lemma GuardStable(expDates: seq<string>, expDate: Option<string>)
    requires SelectExpiry(expDates, expDate).Success?
    ensures SelectExpiry(expDates, Some(SelectExpiry(expDates, expDate).value)) == SelectExpiry(expDates, expDate)
  {
  }

  /** Re-guarding the chosen expiry, the whole of `interpolate_pc` is the table build. */
  lemma RecheckedSlice(quotes: seq<Row>, expDates: seq<string>, expDate: Option<string>, putCall: string)
    requires SelectExpiry(expDates, expDate).Success?
    ensures var e := SelectExpiry(expDates, expDate).value;
      InterpolatePc(quotes, expDates, Some(e), putCall) == BuildSlice(quotes, e, putCall)
  {
    GuardStable(expDates, expDate);
  }

  /**
   * What `interpolate` returns and stores once the put build `p` and the
   * call build `c` are known, the tables stored before being `dfp0`, `dfc0`.
   */
  predicate Stored(p: Result<SliceTable, SliceError>, c: Result<SliceTable, SliceError>,
                   r: Result<(SliceTable, SliceTable), SliceError>,
                   dfp0: Option<SliceTable>, dfc0: Option<SliceTable>, dfp: Option<SliceTable>, dfc: Option<SliceTable>)
  {
    if p.Failure? then r == Failure(p.error) && dfp == dfp0 && dfc == dfc0
    else if c.Failure? then r == Failure(c.error) && dfp == Some(p.value) && dfc == dfc0
    else r == Success((p.value, c.value)) && dfp == Some(p.value) && dfc == Some(c.value)
  }

  class ImpliedReturn {
    const asset: string
    const kind: string
    const apiReq: string
    /** The decoded quote table (`df_opt`). */
    var quotes: seq<Row>
    /** The distinct expiries in order of first appearance (`exp_dates`). */
    var expDates: seq<string>
    /** The last put and call tables `interpolate` stored. */
    var dfp: Option<SliceTable>
    var dfc: Option<SliceTable>

    /** Every quote came from the feed, and the expiry list is that of the quotes. */
    predicate Valid()
      reads this`quotes, this`expDates
    {
      (forall q :: q in quotes ==> q.isReal)
      && expDates == ExpiryList(quotes)
    }

    /** A fresh object before its first reload: no quotes, no expiries, no tables. */
    constructor(asset: string := "BTC")
      ensures Valid()
      ensures this.asset == asset && kind == "option"
      ensures apiReq == "https://www.deribit.com/api/v2/public/get_book_summary_by_currency?currency=" + asset + "&kind=option"
      ensures quotes == [] && expDates == [] && dfp.None? && dfc.None?
    {
      this.asset := asset;
      kind := "option";
      apiReq := ApiUrl(asset, "option");
      quotes := [];
      expDates := [];
      dfp := None;
      dfc := None;
    }

    /**
     * `reload` on the feed the request returned: on success the table is the
     * decoded feed and the expiry list is rebuilt; a quote that fails to
     * decode aborts it with nothing replaced.
     */
    method Reload(feed: seq<RawQuote>) returns (ok: bool)
      requires Valid()
      modifies this
      ensures Valid()
      ensures ok <==> DecodeAll(feed).Some?
      ensures ok ==> quotes == DecodeAll(feed).value && expDates == ExpiryList(DecodeAll(feed).value)
      ensures !ok ==> quotes == old(quotes) && expDates == old(expDates)
      ensures dfp == old(dfp) && dfc == old(dfc)
    {
      var decoded := DecodeAll(feed);
      if decoded.None? {
        return false;
      }
      quotes := decoded.value;
      expDates := ExpiryList(decoded.value);
      ok := true;
    }

    /** `get_expiry_date`: the distinct expiries of the loaded quotes, first-seen order. */
    method ExpiryDates() returns (r: seq<string>)
      requires Valid()
      ensures r == expDates
      ensures NoDup(r)
      ensures forall e :: e in r <==> exists i :: 0 <= i < |quotes| && quotes[i].expiry == e
    {
      r := expDates;
    }

    /**
     * `interpolate`: after the expiry guard, the put table is built and
     * stored, then the call table (each through `interpolate_pc`, which runs
     * its own guard again). A build that fails stops there: a failed put
     * table leaves both stored tables as they were, a failed call table
     * leaves the new put table stored beside the old call table.
     */
    method Interpolate(expDate: Option<string>) returns (r: Result<(SliceTable, SliceTable), SliceError>)
      modifies this`dfp, this`dfc
      ensures SelectExpiry(expDates, expDate).Failure? ==>
        r == Failure(SelectExpiry(expDates, expDate).error) && dfp == old(dfp) && dfc == old(dfc)
      ensures SelectExpiry(expDates, expDate).Success? ==>
        var e := SelectExpiry(expDates, expDate).value;
        Stored(old(InterpolatePc(quotes, expDates, Some(e), "P")), old(InterpolatePc(quotes, expDates, Some(e), "C")),
               r, old(dfp), old(dfc), dfp, dfc)
    {
      var guard := SelectExpiry(expDates, expDate);
      if guard.Failure? {
        return Failure(guard.error);
      }
      var p := InterpolatePc(quotes, expDates, Some(guard.value), "P");
      var c := InterpolatePc(quotes, expDates, Some(guard.value), "C");
      r := Store(p, c);
    }

    /**
     * Lines 106-108 once both builds are known: store the put table, then
     * the call table, stopping at the first build that failed.
     */
    method Store(p: Result<SliceTable, SliceError>, c: Result<SliceTable, SliceError>)
      returns (r: Result<(SliceTable, SliceTable), SliceError>)
      modifies this`dfp, this`dfc
      ensures Stored(p, c, r, old(dfp), old(dfc), dfp, dfc)
    {
      if p.Failure? {
        return Failure(p.error);
      }
      dfp := Some(p.value);
      if c.Failure? {
        return Failure(c.error);
      }
      dfc := Some(c.value);
      r := Success((p.value, c.value));
    }
  }
}
