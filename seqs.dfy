/** Sequence helpers: de-duplication in order of first occurrence, sums and means. */
module Seqs {

  /** No element occurs twice. */
  predicate NoDup<T(==)>(s: seq<T>) {
    forall i, j :: 0 <= i < j < |s| ==> s[i] != s[j]
  }

  /**
   * The distinct elements of `s`, each kept at its first occurrence
   * (the behaviour of `Series.unique()`).
   */
  function Unique<T(==,!new)>(s: seq<T>): (r: seq<T>)
    ensures NoDup(r)
    ensures forall x :: x in r <==> x in s
    ensures |r| <= |s|
    ensures forall i, j :: 0 <= i < j < |r| ==> FirstIndex(s, r[i]) < FirstIndex(s, r[j])
  {
    if s == [] then []
    else
      var init, last := s[..|s| - 1], s[|s| - 1];
      assert s == init + [last];
      var r' := Unique(init);
      forall x | x in init ensures FirstIndex(s, x) == FirstIndex(init, x) {
        FirstIndexAppend(init, last, x);
      }
      if last in r' then r'
      else
        FirstIndexAppend(init, last, last);
        r' + [last]
  }

  /** The position of the first occurrence of `x` in `s`. */
  function FirstIndex<T(==)>(s: seq<T>, x: T): (k: nat)
    requires x in s
    ensures k < |s| && s[k] == x && forall i :: 0 <= i < k ==> s[i] != x
  {
    if s[0] == x then 0 else 1 + FirstIndex(s[1..], x)
  }

  /** Appending an element leaves first occurrences in front of it where they were. */
  lemma FirstIndexAppend<T>(s: seq<T>, y: T, x: T)
    requires x in s + [y]
    ensures x in s ==> FirstIndex(s + [y], x) == FirstIndex(s, x)
    ensures x !in s ==> FirstIndex(s + [y], x) == |s|
  {
    var k := FirstIndex(s + [y], x);
    if x in s {
      var k' := FirstIndex(s, x);
      assert (s + [y])[k'] == x;
    } else {
      assert forall i :: 0 <= i < |s| ==> (s + [y])[i] == s[i];
    }
  }

  /** `Unique` keeps the first element of a non-empty sequence at its head. */
  lemma {:induction false} UniqueHead<T(!new)>(s: seq<T>)
    ensures s != [] ==> Unique(s) != [] && Unique(s)[0] == s[0]
  {
    if |s| > 1 {
      var init := s[..|s| - 1];
      UniqueHead(init);
      assert init[0] == s[0];
    }
  }

  function Sum(xs: seq<real>): real {
    if xs == [] then 0.0 else Sum(xs[..|xs| - 1]) + xs[|xs| - 1]
  }

  /** Taking out the element at `k` takes its value off the sum. */
  lemma {:induction false} SumRemove(xs: seq<real>, k: nat)
    requires k < |xs|
    ensures Sum(xs) == Sum(xs[..k] + xs[k + 1..]) + xs[k]
    decreases |xs|
  {
    var n := |xs| - 1;
    if k < n {
      var init := xs[..n];
      var rest := xs[..k] + xs[k + 1..];
      SumRemove(init, k);
      assert rest[..|rest| - 1] == init[..k] + init[k + 1..];
      assert rest[|rest| - 1] == xs[n];
    } else {
      assert xs[..k] + xs[k + 1..] == xs[..n];
    }
  }

  /** The sum does not depend on the order of the values. */
  lemma {:induction false} SumPermutation(xs: seq<real>, ys: seq<real>)
    requires multiset(xs) == multiset(ys)
    ensures Sum(xs) == Sum(ys)
    decreases |xs|
  {
    if xs != [] {
      var n := |xs| - 1;
      var x := xs[n];
      assert xs == xs[..n] + [x];
      assert x in multiset(ys);
      var k :| 0 <= k < |ys| && ys[k] == x;
      var rest := ys[..k] + ys[k + 1..];
      assert ys == ys[..k] + [x] + ys[k + 1..];
      assert multiset(ys) == multiset(ys[..k]) + multiset{x} + multiset(ys[k + 1..]);
      assert multiset(rest) == multiset(ys[..k]) + multiset(ys[k + 1..]);
      assert multiset(xs) == multiset(xs[..n]) + multiset{x};
      calc {
        multiset(xs[..n]);
        multiset(xs) - multiset{x};
        multiset(ys) - multiset{x};
        multiset(rest);
      }
      SumPermutation(xs[..n], rest);
      SumRemove(ys, k);
    } else {
      assert |ys| == |multiset(ys)| == 0;
    }
  }

  /** Without repetitions, an element occurs once if it is there at all. */
  lemma {:induction false} NoDupCount<T>(s: seq<T>, x: T)
    requires NoDup(s)
    ensures multiset(s)[x] == if x in s then 1 else 0
  {
    if s != [] {
      assert s == [s[0]] + s[1..];
      NoDupCount(s[1..], x);
    }
  }

  /** Two duplicate-free sequences with the same elements have the same length and sum. */
  lemma SumOfSet(xs: seq<real>, ys: seq<real>)
    requires NoDup(xs) && NoDup(ys) && forall x :: x in xs <==> x in ys
    ensures |xs| == |ys| && Sum(xs) == Sum(ys)
  {
    forall x ensures multiset(xs)[x] == multiset(ys)[x] {
      NoDupCount(xs, x);
      NoDupCount(ys, x);
    }
    assert multiset(xs) == multiset(ys);
    assert |xs| == |multiset(xs)| == |multiset(ys)| == |ys|;
    SumPermutation(xs, ys);
  }

  /** A sum of values lying in [lo, hi] lies in [n*lo, n*hi]. */
  lemma {:induction false} SumBounds(xs: seq<real>, lo: real, hi: real)
    requires forall i :: 0 <= i < |xs| ==> lo <= xs[i] <= hi
    ensures |xs| as real * lo <= Sum(xs) <= |xs| as real * hi
  {
    if xs != [] {
      SumBounds(xs[..|xs| - 1], lo, hi);
    }
  }

  /** The arithmetic mean of a non-empty sequence. */
  function Mean(xs: seq<real>): (m: real)
    requires xs != []
    ensures exists i :: 0 <= i < |xs| && xs[i] <= m
    ensures exists j :: 0 <= j < |xs| && m <= xs[j]
    ensures (forall i :: 0 <= i < |xs| ==> xs[i] == xs[0]) ==> m == xs[0]
  {
    var lo, hi := MinIndex(xs), MaxIndex(xs);
    MeanBounds(xs, xs[lo], xs[hi]);
    Sum(xs) / |xs| as real
  }

  /** Values lying in [lo, hi] have their sum over their count in [lo, hi]. */
  lemma MeanBounds(xs: seq<real>, lo: real, hi: real)
    requires xs != [] && forall i :: 0 <= i < |xs| ==> lo <= xs[i] <= hi
    ensures lo <= Sum(xs) / |xs| as real <= hi
  {
    SumBounds(xs, lo, hi);
    MeanBetween(Sum(xs), |xs| as real, lo, hi);
  }

  /** The mean of a duplicate-free sequence is that of any other with the same elements. */
  lemma MeanOfSet(xs: seq<real>, ys: seq<real>)
    requires xs != [] && NoDup(xs) && NoDup(ys) && forall x :: x in xs <==> x in ys
    ensures Mean(xs) * |ys| as real == Sum(ys)
  {
    SumOfSet(xs, ys);
    MeanValue(xs);
  }

  /** The mean times the count is the sum. */
  lemma MeanValue(xs: seq<real>)
    requires xs != []
    ensures Mean(xs) * |xs| as real == Sum(xs)
  {
    var s, n := Sum(xs), |xs| as real;
    assert Mean(xs) == s / n;
    assert s / n * n == s;
  }

  /** Dividing a sum lying in [n*lo, n*hi] by n > 0 gives a value in [lo, hi]. */
  lemma MeanBetween(s: real, n: real, lo: real, hi: real)
    requires n > 0.0 && n * lo <= s <= n * hi
    ensures lo <= s / n <= hi
  {
    assert s / n * n == s;
  }

  /** Position of a smallest element. */
  function MinIndex(xs: seq<real>): (k: nat)
    requires xs != []
    ensures k < |xs| && forall i :: 0 <= i < |xs| ==> xs[k] <= xs[i]
  {
    if |xs| == 1 then 0
    else
      var k' := MinIndex(xs[1..]);
      if xs[0] <= xs[1..][k'] then 0 else k' + 1
  }

  /** Position of a largest element. */
  function MaxIndex(xs: seq<real>): (k: nat)
    requires xs != []
    ensures k < |xs| && forall i :: 0 <= i < |xs| ==> xs[i] <= xs[k]
  {
    if |xs| == 1 then 0
    else
      var k' := MaxIndex(xs[1..]);
      if xs[0] >= xs[1..][k'] then 0 else k' + 1
  }
}
