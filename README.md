# implied_return: no-arbitrage bounds on an option chain

`implied_return.py` defines `ImpliedReturn`, a client for an options
exchange's book summaries. The model covers these parts:

- `reload` decodes every quote's instrument name (`BTC-27DEC24-60000-P`) into
  currency, expiry, integer strike and put/call code. It marks each quote as
  real and lists the distinct expiries.
- `interpolate_pc` chooses an expiry, which defaults to the last listed one,
  and takes that expiry's puts or calls sorted by strike.
- It completes their strikes to the grid `range(min, max + step, step)`,
  where `step` is the smallest gap between neighbouring strikes. Grid points
  that have no quote get synthetic rows.
- It fills missing asks and bids by pandas' linear interpolation over row
  positions. Then it recomputes every mid price and gives every row one
  underlying price: the mean of the distinct underlying prices present.
- From this it computes three bound columns: the butterfly, the short
  butterfly and the long spread. A negative value flags an arbitrage.
- `interpolate` builds the put table and then the call table, and stores
  them on the object.

The model has one module per stage:

| module | file | stage |
|---|---|---|
| `Seqs` | `seqs.dfy` | `unique()` and the mean |
| `Quotes` | `quotes.dfy` | `str.split`, `int()`, the name decode, the expiry list |
| `Strikes` | `strikes.dfy` | slice filter, sort by strike, minimum gap, `range`, missing strikes, completion |
| `Interpolation` | `interpolation.dfy` | `Series.interpolate(method='linear')` |
| `Bounds` | `bounds.dfy` | mid price, underlying mean, the three bounds |
| `Slice` | `slice.dfy` | the expiry guard and `interpolate_pc` end to end, with a worked example |
| `Client` | `implied_return.dfy` | the `ImpliedReturn` class: `reload`, `get_expiry_date`, `interpolate` |

Modelling choices:

- Prices are `real`, and NaN or a missing price is `None`.
- Each way `interpolate_pc` can fail is a `SliceError`:
  - `ExpiryNotFound`: the expiry is not listed. The source prints the valid
    expiries and returns `None`.
  - `NoExpiries`: there is no expiry to default to (`exp_dates[-1]` raises).
  - `TooFewStrikes`: the slice has fewer than two strikes, so `int()` of a NaN
    minimum raises.
  - `ZeroStep`: a repeated strike makes the step 0, and `range` raises.
- The pandas interpolation is a scan, `Interpolate`. It is proved equal to a
  pointwise reference, `InterpolatedAt`, which is read off the nearest
  values on either side.
- Sorting is an insertion sort, proved to give a strike-sorted permutation.
- The class keeps the quote table, the expiry list and the two stored tables
  as fields. `Reload` and `Interpolate` update those fields.

Facts about the code that the model pins down:

- The grid is `range(min, max + step, step)`, which stops before
  `max + step`. So strikes 100, 110, 120 get no synthetic 130.
- For that chain, the code gives a butterfly of 28.75 at strike 110, a short
  butterfly of 11.5 and a put long spread of -11.5 (`Slice.WorkedExample`).
- A slice with no underlying price is not an error. The mean is NaN, so
  every bound is undefined (`None`).
- A repeated strike makes the step 0, and the build fails at `range`
  (`ZeroStep`).
- The expiry list keeps the order of first appearance, as `unique()` does,
  and the default expiry is its last entry.

## Model

| member | source | states |
|---|---|---|
| Seqs.Unique | implied_return.py:28 | no element twice, the same elements as the input, no longer than it, and in order of first appearance in the input |
| Seqs.UniqueHead | implied_return.py:28 | the first element of a non-empty input stays first |
| Seqs.Mean | implied_return.py:87 | the mean lies between the smallest and the largest value, and equals the common value when all agree |
| Seqs.MeanValue | implied_return.py:87 | the mean times the count is the sum |
| Seqs.MeanOfSet | implied_return.py:87 | the mean of a duplicate-free list times the length of any other duplicate-free list with the same elements is that list's sum |
| Seqs.SumPermutation | implied_return.py:87 | the sum does not depend on the order of the values |
| Seqs.SumOfSet | implied_return.py:87 | two duplicate-free sequences with the same elements have the same length and sum |
| Quotes.Split | implied_return.py:18-21 | `split('-')` yields at least one field, and no field contains the separator |
| Quotes.JoinSplit | implied_return.py:18-21 | joining the fields again with the separator gives back the name |
| Quotes.SplitJoin | implied_return.py:18-21 | splitting a join of separator-free fields gives back those fields |
| Quotes.ParseInt | implied_return.py:20 | `int()` succeeds exactly on an optional `+` or `-` followed by at least one ASCII digit, and a negative value needs a leading `-` |
| Quotes.ParseSigned | implied_return.py:20 | a `-` or `+` in front of the decimal form of n parses to -n or n |
| Quotes.ParseLeadingZero | implied_return.py:20 | a leading zero is accepted and does not change the value |
| Quotes.ParseShow | implied_return.py:20 | parsing the decimal form of a natural number gives the number back |
| Quotes.DecodeName | implied_return.py:18-21 | a name decodes exactly when it has at least four fields and field 2 parses as an integer; currency, expiry and put/call are fields 0, 1 and 3 of the dash split and the strike is the integer value of field 2, for every name (extra fields, signed or zero-padded strikes included); the text fields hold no dash |
| Quotes.DecodeEncode | implied_return.py:18-21 | decoding a name built from currency, expiry, strike and type gives back those four |
| Quotes.DecodeQuote | implied_return.py:18-26 | a quote decodes exactly when its name does; the row is real, carries the name's currency, expiry, strike and put/call code, and copies bid, ask, mid and underlying |
| Quotes.DecodeAll | implied_return.py:18-27 | the table exists exactly when every quote decodes; then it has one row per quote, in order, all real |
| Quotes.ExpiryList | implied_return.py:28 | each expiry of the table exactly once and nothing else, in order of first appearance, so the first row's expiry is first |
| Strikes.SliceOf | implied_return.py:58 | a row is in the slice exactly when it is in the table with the chosen expiry and type |
| Strikes.SliceCount | implied_return.py:58 | a row of the chosen expiry and type is in the slice as many times as in the table, any other row not at all |
| Strikes.Insert | implied_return.py:80 | inserting into a sorted sequence keeps it sorted, adds exactly that row, and keeps strikes distinct when the new one is new |
| Strikes.SortByStrike | implied_return.py:58 | `sort_values('strike')` gives a strike-sorted permutation that keeps distinct strikes distinct |
| Strikes.SortSorted | implied_return.py:58 | sorting rows already in strike order changes nothing |
| Strikes.MinGap | implied_return.py:63 | the minimum is one of the neighbour gaps and no gap is smaller |
| Strikes.PositiveStepStrict | implied_return.py:63 | a positive minimum gap means strictly increasing strikes |
| Strikes.Range | implied_return.py:65 | `range(start, stop, step)` is empty exactly when start ≥ stop; it starts at start, steps by `step`, stays below stop and its last point is at least stop - step |
| Strikes.Grid | implied_return.py:62-65 | the grid starts at the smallest strike, steps by `step`, stays below max + step and reaches the largest strike |
| Strikes.Missing | implied_return.py:67 | a strike is missing exactly when it is on the grid and not in the slice, in grid order |
| Strikes.NewStrikes | implied_return.py:67 | the new strikes are increasing, and a strike is new exactly when it is on the grid and not in the slice |
| Strikes.EvenlySpacedAddsNothing | implied_return.py:62-67 | strikes already spaced by exactly `step` are their own grid, so no synthetic strike appears |
| Strikes.Synthetic | implied_return.py:69-76 | a synthetic row has the given strike, is not real, has no prices and copies currency, expiry and type from the first row |
| Strikes.Synthesize | implied_return.py:69-78 | one synthetic row per new strike, in order |
| Strikes.Complete | implied_return.py:80 | the completed slice has one row per real strike plus one per new strike, strictly increasing, and is a permutation of the real rows plus the synthetic ones |
| Strikes.CompleteRows | implied_return.py:67-80 | every real row is kept (also one off the grid), every new strike has its synthetic row, and no other row is there |
| Strikes.CompleteNothingNew | implied_return.py:67-80 | with no new strike, completion returns the slice unchanged |
| Interpolation.Interpolate | implied_return.py:82-83 | the filled column is as long as the column |
| Interpolation.ScanAgrees | implied_return.py:82-83 | the scan equals the pointwise reference at every position it covers |
| Interpolation.InterpolateAt | implied_return.py:82-83 | the filled column equals the pointwise reference at every position |
| Interpolation.InterpolateKeeps | implied_return.py:82-83 | present values are left unchanged |
| Interpolation.InterpolateBetween | implied_return.py:82-83 | a hole between positions i and j holds vi + (vj - vi)·(p - i)/(j - i) |
| Interpolation.InterpolateTrailing | implied_return.py:82-83 | holes after the last value take that value |
| Interpolation.InterpolateLeading | implied_return.py:82-83 | holes before the first value stay missing |
| Interpolation.InterpolateDefined | implied_return.py:82-83 | a position is filled exactly when a value lies at or before it |
| Interpolation.InterpolateEvenSteps | implied_return.py:82-83 | along one hole run between values vi at i and vj at j, neighbouring filled values differ by (vj - vi)/(j - i) |
| Bounds.Mid | implied_return.py:84 | the mid exists exactly when ask and bid do; it is equidistant from both, and between them when bid ≤ ask |
| Bounds.Present | implied_return.py:87 | the values kept are exactly the present ones |
| Bounds.Underlying | implied_return.py:87 | the underlying exists exactly when some price is present, and lies between the present prices |
| Bounds.UnderlyingIsMean | implied_return.py:87 | for any duplicate-free list of exactly the present prices, the underlying exists when that list is non-empty and times its length is its sum |
| Bounds.UnderlyingAgreeing | implied_return.py:87 | when all present prices agree, the underlying is that price |
| Bounds.UnderlyingRepeat | implied_return.py:87 | a price seen again does not change the mean, because only distinct prices count |
| Bounds.FillPrices | implied_return.py:82-87 | identity fields are untouched, present prices kept, ask and bid are the interpolated columns, every mid is `Mid` of its row, and every row has the one underlying |
| Bounds.FillKeepsOrder | implied_return.py:82-87 | filling keeps the strikes strictly increasing |
| Bounds.FillSteady | implied_return.py:82-87 | a table whose prices are all present and consistent is left unchanged |
| Bounds.Delta | implied_return.py:89-95 | the strike gap Δ at any row after the first is at least 1, so the bounds never divide by zero |
| Bounds.Butterfly | implied_return.py:89 | defined exactly on interior rows whose neighbour asks, own bid and underlying are present |
| Bounds.ShortButterfly | implied_return.py:90 | defined exactly on interior rows whose neighbour bids, own ask and underlying are present |
| Bounds.LongSpread | implied_return.py:91-95 | only for "P" and "C"; defined exactly from row 1 on, also on the last row, when the two prices and the underlying are present |
| Bounds.ButterflySign | implied_return.py:89 | with U > 0 the butterfly is negative exactly when ask[k-1] + ask[k+1] < 2·bid[k] |
| Bounds.ShortButterflySign | implied_return.py:90 | with U > 0 the short butterfly is negative exactly when bid[k-1] + bid[k+1] > 2·ask[k] |
| Bounds.LongSpreadSign | implied_return.py:91-95 | with U > 0 the put spread is negative exactly when ask[k] < bid[k-1]; the call spread exactly when ask[k-1] < bid[k] |
| Bounds.WithBounds | implied_return.py:89-95 | one result row per row holding its three bounds; none on the first row, no butterflies on the last, and no long spread unless the type is "P" or "C"; the rows themselves are the input rows |
| Slice.SelectExpiry | implied_return.py:51-55 | no expiry (or an empty one) picks the last listed; an unlisted one gives `ExpiryNotFound` with the list; an empty list gives `NoExpiries` |
| Slice.SortedSlice | implied_return.py:58 | the slice sorted by strike: sorted, and a permutation of the filtered rows |
| Slice.Step | implied_return.py:63 | the step is never negative; positive means strictly increasing strikes, and zero means a repeated strike |
| Slice.StepBelowGaps | implied_return.py:63 | no gap between neighbouring strikes is below the step |
| Slice.Table | implied_return.py:62-95 | the table has one row per real strike plus one per new strike, and the long-spread column exactly for "P" and "C" |
| Slice.BuildSlice | implied_return.py:58-97 | fewer than two strikes give `TooFewStrikes`, a zero step gives `ZeroStep`; two or more strikes and a positive step always give the completed, filled, bounded table of the sorted slice |
| Slice.InterpolatePc | implied_return.py:47-97 | a guard failure is returned as is; a selectable expiry gives the table build on it; the expiry defaults to none and the type to "P" as in the source |
| Slice.TableSorted | implied_return.py:80 | the table's strikes strictly increase, so every Δ is positive |
| Slice.QuoteKept | implied_return.py:58-83 | every quote of the slice is carried by a table row with the same strike, flags and names, and the prices it had |
| Slice.RowCarried | implied_return.py:80-95 | row k of the table carries row k of the completed slice |
| Slice.SyntheticExactlyNew | implied_return.py:67-80 | a table row is synthetic exactly when its strike is a new grid strike |
| Slice.NewStrikeAdded | implied_return.py:67-80 | every new grid strike has a synthetic row in the table |
| Slice.ExampleStep | implied_return.py:63 | strikes 100, 110, 120 have step 10 |
| Slice.ExampleGrid | implied_return.py:62-67 | strikes 100, 110, 120 at step 10 get no new strike (no 130) |
| Slice.WorkedExample | implied_return.py:58-95 | for puts at 100, 110 and 120 (asks 5, 3, 1.5; bids 4, 2, 1; underlying 115), the table has 3 rows, and row 1 has butterfly 28.75, short butterfly 11.5 and long spread -11.5 |
| Client.GuardStable | implied_return.py:99-104 | running the guard again on the expiry it chose selects the same expiry |
| Client.RecheckedSlice | implied_return.py:99-106 | once `interpolate` has chosen an expiry, `interpolate_pc`'s own guard passes and the result is the table build |
| Client.ImpliedReturn.constructor | implied_return.py:9-12 | asset (default "BTC"), kind "option" and the request URL are set; there are no quotes, expiries or tables yet |
| Client.ImpliedReturn.Reload | implied_return.py:15-28 | on a decodable response the table is the decoded rows and the expiry list is rebuilt; otherwise nothing changes; the stored tables stay as they were |
| Client.ImpliedReturn.ExpiryDates | implied_return.py:30-31 | returns the stored expiry list: each expiry of the quote table exactly once |
| Client.ImpliedReturn.Interpolate | implied_return.py:99-108 | a guard failure changes nothing; a failed put build stores nothing; a failed call build leaves the new put table stored; success stores and returns both tables |
| Client.ImpliedReturn.Store | implied_return.py:106-108 | stores the put table, then the call table, and stops at the first failed build |

## Left out

- The HTTP request and JSON extraction at lines 16-17 are network I/O. `Reload` takes the response's entries as a parameter.
- The messages printed at lines 40, 54, 103 and 117 are not modelled. The guard returns `ExpiryNotFound` carrying the valid expiries instead.
- Client.ImpliedReturn.constructor: it does not do the initial reload of line 13, because a fetch is I/O and a Dafny constructor cannot fail. A caller makes the first `Reload` call.
- `print_options` (lines 33-45), `butterflies` (lines 110-129), the plot style (line 6) and the `__main__` driver (lines 133-136) only plot and print.
- Floating point is not modelled. Prices are exact reals, NaN is `None`, and IEEE rounding and NaN propagation are not captured.
- Quotes.ParseInt: it accepts an optional sign and ASCII digits only. Python's `int()` also takes surrounding whitespace, `_` separators and non-ASCII digits, which instrument names do not contain.
- `sort_values` uses pandas' unstable default sort, so rows with equal strikes may come out in another order. The model's insertion sort keeps them in table order. A repeated strike always ends in `ZeroStep`, so no table depends on that order.
- The DataFrame machinery is not modelled: column dictionaries, `concat`, `reset_index` and the `unique()[0]` reads of the template fields. Only the row-sequence semantics are modelled.
- The `dfc = dfp` alias at line 94 only renames the table. The long spread is written to the same table.
