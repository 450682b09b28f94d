/**
 * Slice selection and strike-grid completion of `interpolate_pc`
 * (implied_return.py, lines 58-80).
 */
module Strikes {
  import opened Wrappers
  import opened Quotes

  predicate SortedByStrike(rows: seq<Row>) {
    forall i, j :: 0 <= i < j < |rows| ==> rows[i].strike <= rows[j].strike
  }

  predicate DistinctStrikes(rows: seq<Row>) {
    forall i, j :: 0 <= i < j < |rows| ==> rows[i].strike != rows[j].strike
  }

  /** Sorted by strike with no strike twice. */
  predicate StrictlyIncreasing(rows: seq<Row>) {
    forall i, j :: 0 <= i < j < |rows| ==> rows[i].strike < rows[j].strike
  }

  predicate Increasing(xs: seq<int>) {
    forall i, j :: 0 <= i < j < |xs| ==> xs[i] < xs[j]
  }

  /** The `strike` column. */
  function StrikesOf(rows: seq<Row>): (r: seq<int>)
    ensures |r| == |rows| && forall i :: 0 <= i < |rows| ==> r[i] == rows[i].strike
  {
    seq(|rows|, i requires 0 <= i < |rows| => rows[i].strike)
  }

  predicate InSlice(q: Row, expiry: string, putCall: string) {
    q.expiry == expiry && q.putCall == putCall
  }

  /** The rows of one expiry and one option type, in table order. */
  function SliceOf(quotes: seq<Row>, expiry: string, putCall: string): (r: seq<Row>)
    ensures forall q :: q in r <==> q in quotes && InSlice(q, expiry, putCall)
    ensures |r| <= |quotes|
  {
    if quotes == [] then []
    else
      var rest := SliceOf(quotes[1..], expiry, putCall);
      assert forall q :: q in quotes <==> q == quotes[0] || q in quotes[1..];
      if InSlice(quotes[0], expiry, putCall) then [quotes[0]] + rest else rest
  }

  /** The slice keeps every row of the chosen expiry and type as often as the table has it. */
  lemma {:induction false} SliceCount(quotes: seq<Row>, expiry: string, putCall: string, q: Row)
    ensures multiset(SliceOf(quotes, expiry, putCall))[q] == if InSlice(q, expiry, putCall) then multiset(quotes)[q] else 0
  {
    if quotes != [] {
      SliceCount(quotes[1..], expiry, putCall, q);
      assert quotes == [quotes[0]] + quotes[1..];
      assert multiset(quotes) == multiset{quotes[0]} + multiset(quotes[1..]);
      var rest := SliceOf(quotes[1..], expiry, putCall);
      if InSlice(quotes[0], expiry, putCall) {
        assert SliceOf(quotes, expiry, putCall) == [quotes[0]] + rest;
        assert multiset([quotes[0]] + rest) == multiset{quotes[0]} + multiset(rest);
      }
    }
  }

  /** Inserts a row into a strike-sorted sequence. */
  function Insert(x: Row, s: seq<Row>): (r: seq<Row>)
    requires SortedByStrike(s)
    ensures |r| == |s| + 1
    ensures SortedByStrike(r)
    ensures multiset(r) == multiset(s) + multiset{x}
    ensures DistinctStrikes(s) && (forall i :: 0 <= i < |s| ==> s[i].strike != x.strike)
            ==> DistinctStrikes(r)
  {
    if s == [] then [x]
    else if x.strike <= s[0].strike then
      PrependSorted(x, s);
      [x] + s
    else
      var rest := Insert(x, s[1..]);
      ConsSorted(s, x, rest);
      [s[0]] + rest
  }

  /** A row no later than the head of a sorted sequence can go in front of it. */
  lemma PrependSorted(x: Row, s: seq<Row>)
    requires s != [] && SortedByStrike(s) && x.strike <= s[0].strike
    ensures SortedByStrike([x] + s)
    ensures multiset([x] + s) == multiset(s) + multiset{x}
    ensures DistinctStrikes(s) && (forall i :: 0 <= i < |s| ==> s[i].strike != x.strike)
            ==> DistinctStrikes([x] + s)
  {
    var r := [x] + s;
    assert forall i :: 1 <= i < |r| ==> r[i] == s[i - 1];
  }

  /** The step case of `Insert`: the head of `s` goes before the insertion into its tail. */
  lemma ConsSorted(s: seq<Row>, x: Row, rest: seq<Row>)
    requires s != [] && SortedByStrike(s) && s[0].strike < x.strike
    requires SortedByStrike(rest)
    requires multiset(rest) == multiset(s[1..]) + multiset{x}
    requires DistinctStrikes(s) && (forall i :: 0 <= i < |s| ==> s[i].strike != x.strike)
             ==> DistinctStrikes(rest)
    ensures SortedByStrike([s[0]] + rest)
    ensures multiset([s[0]] + rest) == multiset(s) + multiset{x}
    ensures DistinctStrikes(s) && (forall i :: 0 <= i < |s| ==> s[i].strike != x.strike)
            ==> DistinctStrikes([s[0]] + rest)
  {
    assert s == [s[0]] + s[1..];
    forall i | 0 <= i < |rest| ensures s[0].strike <= rest[i].strike {
      assert rest[i] in multiset(rest);
      HeadBelowTail(s, x, rest[i]);
    }
    ConsOrder(s[0], rest);
    if DistinctStrikes(s) && (forall i :: 0 <= i < |s| ==> s[i].strike != x.strike) {
      forall i | 0 <= i < |rest| ensures s[0].strike != rest[i].strike {
        assert rest[i] in multiset(rest);
        HeadBelowTail(s, x, rest[i]);
      }
      ConsDistinct(s[0], rest);
    }
  }

  lemma ConsOrder(h: Row, rest: seq<Row>)
    requires SortedByStrike(rest) && forall i :: 0 <= i < |rest| ==> h.strike <= rest[i].strike
    ensures SortedByStrike([h] + rest)
  {
    var r := [h] + rest;
    assert forall i :: 1 <= i < |r| ==> r[i] == rest[i - 1];
  }

  lemma ConsDistinct(h: Row, rest: seq<Row>)
    requires DistinctStrikes(rest) && forall i :: 0 <= i < |rest| ==> h.strike != rest[i].strike
    ensures DistinctStrikes([h] + rest)
  {
    var r := [h] + rest;
    assert forall i :: 1 <= i < |r| ==> r[i] == rest[i - 1];
  }

  /** A row of the tail of `s`, or the inserted `x`, has a strike no lower than the head's. */
  lemma HeadBelowTail(s: seq<Row>, x: Row, y: Row)
    requires s != [] && SortedByStrike(s) && s[0].strike < x.strike
    requires y == x || y in s[1..]
    ensures s[0].strike <= y.strike
    ensures DistinctStrikes(s) && (forall i :: 0 <= i < |s| ==> s[i].strike != x.strike)
            ==> s[0].strike != y.strike
  {
    if y != x {
      var k :| 0 <= k < |s[1..]| && s[1..][k] == y;
      assert s[k + 1] == y;
    }
  }

  /** `sort_values('strike')`: a strike-sorted permutation of the rows. */
  function SortByStrike(s: seq<Row>): (r: seq<Row>)
    ensures |r| == |s|
    ensures SortedByStrike(r)
    ensures multiset(r) == multiset(s)
    ensures DistinctStrikes(s) ==> DistinctStrikes(r)
  {
    if s == [] then []
    else
      var rest := SortByStrike(s[1..]);
      SortStep(s, rest);
      Insert(s[0], rest)
  }

  /** The step case of `SortByStrike`: the head is inserted into the sorted tail. */
  lemma SortStep(s: seq<Row>, rest: seq<Row>)
    requires s != [] && multiset(rest) == multiset(s[1..])
    ensures multiset(s) == multiset(rest) + multiset{s[0]}
    ensures DistinctStrikes(s) ==> DistinctStrikes(s[1..])
    ensures DistinctStrikes(s) ==> forall i :: 0 <= i < |rest| ==> rest[i].strike != s[0].strike
  {
    assert s == [s[0]] + s[1..];
    if DistinctStrikes(s) {
      forall i | 0 <= i < |rest| ensures rest[i].strike != s[0].strike {
        assert rest[i] in multiset(rest);
        var k :| 0 <= k < |s[1..]| && s[1..][k] == rest[i];
        assert s[k + 1] == rest[i];
      }
    }
  }

  /** Sorting rows already in strike order leaves them as they are. */
  lemma {:induction false} SortSorted(s: seq<Row>)
    requires SortedByStrike(s)
    ensures SortByStrike(s) == s
  {
    if s != [] {
      SortSorted(s[1..]);
      assert s == [s[0]] + s[1..];
    }
  }

  /** A strike-sorted sequence with distinct strikes is strictly increasing. */
  lemma SortedDistinct(rows: seq<Row>)
    requires SortedByStrike(rows) && DistinctStrikes(rows)
    ensures StrictlyIncreasing(rows)
  {
  }

  /** Difference between consecutive entries `i` and `i + 1`. */
  function Gap(xs: seq<int>, i: int): int
    requires 0 <= i < |xs| - 1
  {
    xs[i + 1] - xs[i]
  }

  /** `(strike - strike.shift(1)).min()`: the smallest consecutive difference. */
  function MinGap(xs: seq<int>): (r: int)
    requires |xs| >= 2
    ensures exists i :: 0 <= i < |xs| - 1 && r == Gap(xs, i)
    ensures forall i :: 0 <= i < |xs| - 1 ==> r <= Gap(xs, i)
  {
    var g := Gap(xs, 0);
    if |xs| == 2 then g
    else
      var m := MinGap(xs[1..]);
      TailGaps(xs, m);
      if g <= m then g else m
  }

  /** The gaps of the tail are the gaps of the sequence from the second one on. */
  lemma TailGaps(xs: seq<int>, m: int)
    requires |xs| >= 3
    requires exists i :: 0 <= i < |xs| - 2 && m == Gap(xs[1..], i)
    ensures exists i :: 1 <= i < |xs| - 1 && m == Gap(xs, i)
    ensures forall i :: 1 <= i < |xs| - 1 ==> Gap(xs, i) == Gap(xs[1..], i - 1)
  {
    var i :| 0 <= i < |xs| - 2 && m == Gap(xs[1..], i);
    assert Gap(xs, i + 1) == m;
  }

  /** When the smallest gap of a sorted sequence is positive, every gap is, and no strike repeats. */
  lemma PositiveStepStrict(s: seq<Row>)
    requires |s| >= 2 && MinGap(StrikesOf(s)) > 0
    ensures StrictlyIncreasing(s)
  {
    forall i, j | 0 <= i < j < |s| ensures s[i].strike < s[j].strike {
      StrictPair(s, i, j);
    }
  }

  /** Chaining the neighbour steps from `i` up to `j`. */
  lemma {:induction false} StrictPair(s: seq<Row>, i: nat, j: nat)
    requires i < j < |s| && MinGap(StrikesOf(s)) > 0
    ensures s[i].strike < s[j].strike
    decreases j - i
  {
    NeighbourStrict(s, j);
    if i < j - 1 {
      StrictPair(s, i, j - 1);
    }
  }

  /** A positive smallest gap separates each strike from the one before it. */
  lemma NeighbourStrict(s: seq<Row>, j: nat)
    requires 1 <= j < |s| && MinGap(StrikesOf(s)) > 0
    ensures s[j - 1].strike < s[j].strike
  {
    var xs := StrikesOf(s);
    MinGapBelow(xs, j - 1);
    assert xs[j - 1] == s[j - 1].strike && xs[j] == s[j].strike;
  }

  lemma MinGapBelow(xs: seq<int>, k: nat)
    requires k < |xs| - 1
    ensures MinGap(xs) <= xs[k + 1] - xs[k]
  {
    assert MinGap(xs) <= Gap(xs, k);
  }

  /** Python's `range(start, stop, step)` for a positive step. */
  function Range(start: int, stop: int, step: int): (r: seq<int>)
    requires step > 0
    ensures r != [] <==> start < stop
    ensures r != [] ==> r[0] == start && r[|r| - 1] + step >= stop
    ensures forall k :: 0 <= k < |r| ==> start <= r[k] < stop
    ensures forall k :: 0 <= k < |r| - 1 ==> Gap(r, k) == step
    ensures Increasing(r)
    decreases stop - start
  {
    if start >= stop then []
    else
      var rest := Range(start + step, stop, step);
      ConsGaps(start, rest);
      [start] + rest
  }

  /** Putting `x` in front of `xs` keeps the gaps of `xs`, one place later. */
  lemma ConsGaps(x: int, xs: seq<int>)
    ensures forall k :: 1 <= k < |xs| ==> Gap([x] + xs, k) == Gap(xs, k - 1)
    ensures Increasing(xs) && (forall k :: 0 <= k < |xs| ==> x < xs[k]) ==> Increasing([x] + xs)
  {
    var r := [x] + xs;
    assert forall k :: 1 <= k < |r| ==> r[k] == xs[k - 1];
  }

  /**
   * `range(min, max + step, step)` over the sorted strikes `xs` of a slice:
   * it starts at the smallest strike, advances by `step`, stays below
   * `max + step` and reaches the largest strike.
   */
  function Grid(xs: seq<int>, step: int): (g: seq<int>)
    requires |xs| >= 1 && step > 0 && xs[0] <= xs[|xs| - 1]
    ensures g != [] && g[0] == xs[0]
    ensures forall k :: 0 <= k < |g| - 1 ==> Gap(g, k) == step
    ensures forall k :: 0 <= k < |g| ==> g[k] < xs[|xs| - 1] + step
    ensures g[|g| - 1] >= xs[|xs| - 1]
    ensures Increasing(g)
  {
    Range(xs[0], xs[|xs| - 1] + step, step)
  }

  /** A run already spaced by exactly `step` is its own grid. */
  lemma {:induction false} RangeOfRun(xs: seq<int>, step: int)
    requires |xs| >= 1 && step > 0
    requires forall i :: 0 <= i < |xs| - 1 ==> Gap(xs, i) == step
    ensures Range(xs[0], xs[|xs| - 1] + step, step) == xs
  {
    if |xs| > 1 {
      var tail := xs[1..];
      assert forall i :: 0 <= i < |tail| - 1 ==> Gap(tail, i) == Gap(xs, i + 1);
      RangeOfRun(tail, step);
      assert Gap(xs, 0) == step;
      assert xs == [xs[0]] + tail;
    }
  }

  /** `[x for x in grid if x not in present]`. */
  function Missing(grid: seq<int>, present: seq<int>): (r: seq<int>)
    ensures forall x :: x in r <==> x in grid && x !in present
    ensures Increasing(grid) ==> Increasing(r)
    ensures |r| <= |grid|
  {
    if grid == [] then []
    else
      var rest := Missing(grid[1..], present);
      assert forall x :: x in grid <==> x == grid[0] || x in grid[1..];
      if grid[0] in present then rest
      else
        HeadBelow(grid, rest);
        [grid[0]] + rest
  }

  /** The head of an increasing sequence is below everything drawn from its tail. */
  lemma HeadBelow(grid: seq<int>, rest: seq<int>)
    requires grid != [] && forall x :: x in rest ==> x in grid[1..]
    ensures Increasing(grid) ==> forall i :: 0 <= i < |rest| ==> grid[0] < rest[i]
  {
    if Increasing(grid) {
      forall i | 0 <= i < |rest| ensures grid[0] < rest[i] {
        assert rest[i] in rest;
        var k :| 0 <= k < |grid[1..]| && grid[1..][k] == rest[i];
        assert grid[k + 1] == rest[i];
      }
    }
  }

  /**
   * If the real strikes are already spaced by exactly `step`, the grid is
   * those strikes and adds none.
   */
  lemma EvenlySpacedAddsNothing(xs: seq<int>, step: int)
    requires |xs| >= 1 && step > 0
    requires forall i :: 0 <= i < |xs| - 1 ==> Gap(xs, i) == step
    ensures xs[0] <= xs[|xs| - 1]
    ensures Grid(xs, step) == xs
    ensures Missing(Grid(xs, step), xs) == []
  {
    RangeOfRun(xs, step);
    NothingMissing(xs, xs);
  }

  /** When every grid point is present, nothing is missing. */
  lemma {:induction false} NothingMissing(grid: seq<int>, present: seq<int>)
    requires forall i :: 0 <= i < |grid| ==> grid[i] in present
    ensures Missing(grid, present) == []
  {
    if grid != [] {
      NothingMissing(grid[1..], present);
    }
  }

  /** A grid point absent from the slice: same currency, expiry and type, no prices, not real. */
  function Synthetic(template: Row, strike: int): (r: Row)
    ensures r.strike == strike && !r.isReal
    ensures r.bid.None? && r.ask.None? && r.mid.None? && r.uPrice.None?
    ensures r.currency == template.currency && r.expiry == template.expiry
    ensures r.putCall == template.putCall
  {
    Row(template.currency, template.expiry, strike, template.putCall, None, None, None, false, None)
  }

  function Synthesize(template: Row, strikes: seq<int>): (r: seq<Row>)
    ensures |r| == |strikes|
    ensures forall i :: 0 <= i < |strikes| ==> r[i] == Synthetic(template, strikes[i])
  {
    if strikes == [] then [] else [Synthetic(template, strikes[0])] + Synthesize(template, strikes[1..])
  }

  /** The strikes the grid adds to a slice. */
  function NewStrikes(s: seq<Row>, step: int): (r: seq<int>)
    requires |s| >= 1 && step > 0 && SortedByStrike(s)
    ensures Increasing(r)
    ensures forall x :: x in r <==> x in Grid(StrikesOf(s), step) && x !in StrikesOf(s)
  {
    var xs := StrikesOf(s);
    assert xs[0] == s[0].strike <= s[|s| - 1].strike == xs[|xs| - 1];
    Missing(Grid(xs, step), xs)
  }

  /**
   * The slice concatenated with one synthetic row per new grid strike, sorted
   * by strike: every real row is kept (also one off the grid), every new grid
   * strike is added once, and the strikes strictly increase.
   */
  function Complete(s: seq<Row>, step: int): (r: seq<Row>)
    requires |s| >= 1 && step > 0 && StrictlyIncreasing(s)
    ensures |r| == |s| + |NewStrikes(s, step)|
    ensures StrictlyIncreasing(r)
    ensures multiset(r) == multiset(s) + multiset(Synthesize(s[0], NewStrikes(s, step)))
  {
    var newOnes := NewStrikes(s, step);
    var added := Synthesize(s[0], newOnes);
    UnionDistinct(s, newOnes, added);
    var r := SortByStrike(s + added);
    SortedDistinct(r);
    r
  }

  /**
   * The rows of the completed slice: every real row is kept, every new grid
   * strike has its synthetic row, and nothing else is there.
   */
  lemma CompleteRows(s: seq<Row>, step: int)
    requires |s| >= 1 && step > 0 && StrictlyIncreasing(s)
    ensures var r := Complete(s, step);
      (forall q :: q in s ==> q in r)
      && (forall x :: x in NewStrikes(s, step) ==> Synthetic(s[0], x) in r)
      && (forall q :: q in r ==> q in s || (q == Synthetic(s[0], q.strike) && q.strike in NewStrikes(s, step)))
  {
    var newOnes := NewStrikes(s, step);
    CompleteMembers(s, newOnes, Synthesize(s[0], newOnes), Complete(s, step));
  }

  /** Real strikes are distinct, new strikes are distinct and none of them is real. */
  lemma UnionDistinct(s: seq<Row>, newOnes: seq<int>, added: seq<Row>)
    requires StrictlyIncreasing(s) && Increasing(newOnes)
    requires forall x :: x in newOnes ==> x !in StrikesOf(s)
    requires |added| == |newOnes| && forall j :: 0 <= j < |added| ==> added[j].strike == newOnes[j]
    ensures DistinctStrikes(s + added)
  {
    var all := s + added;
    var xs := StrikesOf(s);
    forall i, j | 0 <= i < j < |all| ensures all[i].strike != all[j].strike {
      if j < |s| {
        assert all[i] == s[i] && all[j] == s[j];
      } else if i >= |s| {
        assert all[i] == added[i - |s|] && all[j] == added[j - |s|];
        assert newOnes[i - |s|] < newOnes[j - |s|];
      } else {
        assert all[i].strike == xs[i];
        assert all[j] == added[j - |s|];
        assert newOnes[j - |s|] in newOnes;
      }
    }
  }

  /** Which rows a permutation of the slice plus its synthetic rows holds. */
  lemma CompleteMembers(s: seq<Row>, newOnes: seq<int>, added: seq<Row>, r: seq<Row>)
    requires s != [] && added == Synthesize(s[0], newOnes)
    requires multiset(r) == multiset(s + added)
    ensures forall q :: q in s ==> q in r
    ensures forall x :: x in newOnes ==> Synthetic(s[0], x) in r
    ensures forall q :: q in r ==> q in s || (q == Synthetic(s[0], q.strike) && q.strike in newOnes)
  {
    assert forall q :: q in r <==> q in s + added by {
      forall q ensures q in r <==> q in s + added {
        assert q in r <==> q in multiset(r);
        assert q in s + added <==> q in multiset(s + added);
      }
    }
    forall x | x in newOnes ensures Synthetic(s[0], x) in r {
      var j :| 0 <= j < |newOnes| && newOnes[j] == x;
      assert added[j] == Synthetic(s[0], x);
      assert added[j] in s + added;
    }
    forall q | q in r && q !in s ensures q == Synthetic(s[0], q.strike) && q.strike in newOnes {
      assert q in s + added;
      var j :| 0 <= j < |added| && added[j] == q;
      assert newOnes[j] in newOnes;
    }
  }

  /** With no grid point to add, completion only sorts the slice. */
  lemma CompleteNothingNew(s: seq<Row>, step: int)
    requires |s| >= 1 && step > 0 && StrictlyIncreasing(s)
    requires NewStrikes(s, step) == []
    ensures Complete(s, step) == s
  {
    assert s + Synthesize(s[0], []) == s;
    SortSorted(s);
  }
}
