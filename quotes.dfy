/**
 * Decoding of the exchange's book summaries into quote rows, and the list of
 * expiries (implied_return.py, `reload`).
 */
module Quotes {
  import opened Wrappers
  import opened Seqs

  /** One book-summary entry as the exchange returns it; null prices are `None`. */
  datatype RawQuote = RawQuote(
    instrumentName: string,
    midPrice: Option<real>,
    bidPrice: Option<real>,
    askPrice: Option<real>,
    underlyingPrice: Option<real>)

  /** The four dash-separated fields of an instrument name such as "BTC-27DEC24-60000-P". */
  datatype Instrument = Instrument(currency: string, expiry: string, strike: int, putCall: string)

  /** One row of the option table: a fetched quote (`isReal`) or a synthetic grid point. */
  datatype Row = Row(
    currency: string,
    expiry: string,
    strike: int,
    putCall: string,
    mid: Option<real>,
    bid: Option<real>,
    ask: Option<real>,
    isReal: bool,
    uPrice: Option<real>)

  const Dash: char := '-'

  /** Python's `str.split(sep)`: every occurrence of `sep` separates two fields. */
  function Split(s: string, sep: char): (r: seq<string>)
    ensures |r| >= 1
    ensures forall f :: f in r ==> sep !in f
  {
    if s == [] then [[]]
    else
      var rest := Split(s[1..], sep);
      if s[0] == sep then [[]] + rest
      else [[s[0]] + rest[0]] + rest[1..]
  }

  /** `sep.join(fields)`. */
  function Join(fields: seq<string>, sep: char): string
    requires |fields| >= 1
  {
    if |fields| == 1 then fields[0] else fields[0] + [sep] + Join(fields[1..], sep)
  }

  /** Splitting and joining again gives back the string. */
  lemma {:induction false} JoinSplit(s: string, sep: char)
    ensures Join(Split(s, sep), sep) == s
  {
    if s != [] {
      var rest := Split(s[1..], sep);
      JoinSplit(s[1..], sep);
      if s[0] == sep {
        assert Split(s, sep) == [[]] + rest;
      } else {
        var r := Split(s, sep);
        assert r == [[s[0]] + rest[0]] + rest[1..];
        if |rest| > 1 {
          assert r[1..] == rest[1..];
          assert Join(rest, sep) == rest[0] + [sep] + Join(rest[1..], sep);
        }
      }
    }
  }

  /** A string free of `sep` is a single field. */
  lemma {:induction false} SplitNoSep(a: string, sep: char)
    requires sep !in a
    ensures Split(a, sep) == [a]
  {
    if a != [] {
      SplitNoSep(a[1..], sep);
      assert [a[0]] + a[1..] == a;
    }
  }

  /** A separator after a `sep`-free prefix closes exactly that prefix as the first field. */
  lemma {:induction false} SplitAfterField(a: string, sep: char, b: string)
    requires sep !in a
    ensures Split(a + [sep] + b, sep) == [a] + Split(b, sep)
  {
    if a == [] {
      assert a + [sep] + b == [sep] + b;
    } else {
      SplitAfterField(a[1..], sep, b);
      var s := a + [sep] + b;
      assert s[0] == a[0] && s[1..] == a[1..] + [sep] + b;
      assert [a[0]] + a[1..] == a;
    }
  }

  /** Joining fields free of `sep` and splitting again gives back the fields. */
  lemma {:induction false} SplitJoin(fields: seq<string>, sep: char)
    requires |fields| >= 1
    requires forall i :: 0 <= i < |fields| ==> sep !in fields[i]
    ensures Split(Join(fields, sep), sep) == fields
  {
    if |fields| == 1 {
      SplitNoSep(fields[0], sep);
    } else {
      SplitJoin(fields[1..], sep);
      SplitAfterField(fields[0], sep, Join(fields[1..], sep));
      assert [fields[0]] + fields[1..] == fields;
    }
  }

  predicate IsDigit(c: char) {
    '0' <= c <= '9'
  }

  predicate AllDigits(s: string) {
    forall i :: 0 <= i < |s| ==> IsDigit(s[i])
  }

  /** The value of a string of decimal digits, most significant first. */
  function DigitsValue(s: string): nat
    requires AllDigits(s)
  {
    if s == [] then 0 else DigitsValue(s[..|s| - 1]) * 10 + (s[|s| - 1] as int - '0' as int)
  }

  /**
   * Python's `int(text)` on a decimal literal: an optional sign followed by at
   * least one digit; anything else raises, which is `None` here.
   */
  function ParseInt(s: string): (r: Option<int>)
    ensures r.Some? <==> (|s| >= 1 && AllDigits(s))
                         || (|s| >= 2 && (s[0] == '-' || s[0] == '+') && AllDigits(s[1..]))
    ensures r.Some? && r.value < 0 ==> s[0] == '-'
  {
    if |s| >= 2 && (s[0] == '-' || s[0] == '+') && AllDigits(s[1..]) then
      var n: int := DigitsValue(s[1..]);
      Some(if s[0] == '-' then -n else n)
    else if |s| >= 1 && AllDigits(s) then
      Some(DigitsValue(s))
    else
      None
  }

  /** Decimal digits of a natural number, without leading zeros. */
  function ShowNat(n: nat): (s: string)
    ensures |s| >= 1 && AllDigits(s) && Dash !in s
  {
    var d := [('0' as int + n % 10) as char];
    if n < 10 then d else ShowNat(n / 10) + d
  }

  lemma {:induction false} DigitsOfShow(n: nat)
    ensures DigitsValue(ShowNat(n)) == n
  {
    var s := ShowNat(n);
    if n >= 10 {
      DigitsOfShow(n / 10);
      assert s[..|s| - 1] == ShowNat(n / 10);
    }
  }

  /** Parsing the decimal form of a non-negative integer gives the integer back. */
  lemma ParseShow(n: nat)
    ensures ParseInt(ShowNat(n)) == Some(n)
  {
    DigitsOfShow(n);
  }

  /** A sign in front of the decimal form gives the signed value. */
  lemma ParseSigned(n: nat)
    ensures ParseInt("-" + ShowNat(n)) == Some(-(n as int))
    ensures ParseInt("+" + ShowNat(n)) == Some(n)
  {
    DigitsOfShow(n);
    assert ("-" + ShowNat(n))[1..] == ShowNat(n);
    assert ("+" + ShowNat(n))[1..] == ShowNat(n);
  }

  /** A leading zero does not change the value of a digit string. */
  lemma {:induction false} DigitsLeadingZero(s: string)
    requires AllDigits(s)
    ensures AllDigits("0" + s) && DigitsValue("0" + s) == DigitsValue(s)
  {
    var z := "0" + s;
    if s != [] {
      DigitsLeadingZero(s[..|s| - 1]);
      assert z[..|z| - 1] == "0" + s[..|s| - 1];
    }
  }

  /** `int` accepts leading zeros: a zero in front of the decimal form parses to the same value. */
  lemma ParseLeadingZero(n: nat)
    ensures ParseInt("0" + ShowNat(n)) == Some(n)
  {
    DigitsOfShow(n);
    DigitsLeadingZero(ShowNat(n));
  }

  /** `name.split('-')` read as currency, expiry, `int` strike and put/call code. */
  function DecodeName(name: string): (r: Option<Instrument>)
    ensures r.Some? <==> |Split(name, Dash)| >= 4 && ParseInt(Split(name, Dash)[2]).Some?
    ensures r.Some? ==> var fs := Split(name, Dash);
      r.value.currency == fs[0] && r.value.expiry == fs[1]
      && r.value.strike == ParseInt(fs[2]).value && r.value.putCall == fs[3]
    ensures r.Some? ==> Dash !in r.value.currency && Dash !in r.value.expiry && Dash !in r.value.putCall
  {
    var fields := Split(name, Dash);
    if |fields| < 4 then None
    else
      match ParseInt(fields[2])
      case None => None
      case Some(k) => Some(Instrument(fields[0], fields[1], k, fields[3]))
  }

  /** The exchange's naming scheme for an instrument. */
  function EncodeName(i: Instrument): string
    requires i.strike >= 0
  {
    i.currency + [Dash] + i.expiry + [Dash] + ShowNat(i.strike) + [Dash] + i.putCall
  }

  /** Decoding an instrument name built by the naming scheme gives back its four fields. */
  lemma DecodeEncode(i: Instrument)
    requires i.strike >= 0
    requires Dash !in i.currency && Dash !in i.expiry && Dash !in i.putCall
    ensures DecodeName(EncodeName(i)) == Some(i)
  {
    var fields := [i.currency, i.expiry, ShowNat(i.strike), i.putCall];
    assert Join(fields[3..], Dash) == i.putCall;
    assert Join(fields[2..], Dash) == ShowNat(i.strike) + [Dash] + i.putCall;
    assert Join(fields[1..], Dash) == i.expiry + [Dash] + (ShowNat(i.strike) + [Dash] + i.putCall);
    assert Join(fields, Dash) == EncodeName(i);
    SplitJoin(fields, Dash);
    ParseShow(i.strike);
  }

  /** One book-summary entry as a table row: a fetched quote is always `real`. */
  function DecodeQuote(q: RawQuote): (r: Option<Row>)
    ensures r.Some? <==> DecodeName(q.instrumentName).Some?
    ensures r.Some? ==> r.value.isReal
    ensures r.Some? ==> var i := DecodeName(q.instrumentName).value;
      r.value.currency == i.currency && r.value.expiry == i.expiry
      && r.value.strike == i.strike && r.value.putCall == i.putCall
    ensures r.Some? ==> r.value.bid == q.bidPrice && r.value.ask == q.askPrice
    ensures r.Some? ==> r.value.mid == q.midPrice && r.value.uPrice == q.underlyingPrice
  {
    match DecodeName(q.instrumentName)
    case None => None
    case Some(i) =>
      Some(Row(i.currency, i.expiry, i.strike, i.putCall,
               q.midPrice, q.bidPrice, q.askPrice, true, q.underlyingPrice))
  }

  /**
   * The whole response as rows, in order; one undecodable name makes the
   * comprehension raise, so nothing is produced.
   */
  function DecodeAll(feed: seq<RawQuote>): (r: Option<seq<Row>>)
    ensures r.Some? <==> forall i :: 0 <= i < |feed| ==> DecodeQuote(feed[i]).Some?
    ensures r.Some? ==> |r.value| == |feed|
    ensures r.Some? ==> forall i :: 0 <= i < |feed| ==> r.value[i] == DecodeQuote(feed[i]).value
    ensures r.Some? ==> forall q :: q in r.value ==> q.isReal
  {
    if feed == [] then Some([])
    else
      match DecodeQuote(feed[0])
      case None => None
      case Some(row) =>
        match DecodeAll(feed[1..])
        case None => None
        case Some(rows) => Some([row] + rows)
  }

  function Expiries(rows: seq<Row>): (r: seq<string>)
    ensures |r| == |rows| && forall i :: 0 <= i < |rows| ==> r[i] == rows[i].expiry
  {
    if rows == [] then [] else [rows[0].expiry] + Expiries(rows[1..])
  }

  /** `df_opt['expiry_date'].unique()`: each expiry of the table exactly once. */
  function ExpiryList(rows: seq<Row>): (r: seq<string>)
    ensures NoDup(r)
    ensures forall e :: e in r <==> exists i :: 0 <= i < |rows| && rows[i].expiry == e
    ensures rows != [] ==> r != [] && r[0] == rows[0].expiry
    ensures forall e :: e in r <==> e in Expiries(rows)
    ensures forall i, j :: 0 <= i < j < |r| ==> FirstIndex(Expiries(rows), r[i]) < FirstIndex(Expiries(rows), r[j])
  {
    var es := Expiries(rows);
    UniqueHead(es);
    assert forall e :: e in es <==> exists i :: 0 <= i < |rows| && rows[i].expiry == e;
    Unique(es)
  }
}
