/**
 * pandas' `Series.interpolate(method='linear')` with its defaults
 * (implied_return.py, lines 82-83): holes are filled along the row
 * positions, not the strikes; holes after the last value repeat it; holes
 * before the first value stay missing.
 */
module Interpolation {
  import opened Wrappers

  /** The point at position `p` on the line through (i, vi) and (j, vj). */
  function Lerp(i: int, vi: real, j: int, vj: real, p: int): real
    requires i < j
  {
    vi + (vj - vi) * (p - i) as real / (j - i) as real
  }

  /** The last position before `n` holding a value. */
  function LastDefined(vs: seq<Option<real>>, n: nat): (r: Option<nat>)
    requires n <= |vs|
    ensures r.Some? ==> r.value < n && vs[r.value].Some?
    ensures r.Some? ==> forall q :: r.value < q < n ==> vs[q].None?
    ensures r.None? ==> forall q :: 0 <= q < n ==> vs[q].None?
  {
    if n == 0 then None
    else if vs[n - 1].Some? then Some(n - 1)
    else LastDefined(vs, n - 1)
  }

  /** The first position from `p` on holding a value. */
  function NextDefined(vs: seq<Option<real>>, p: nat): (r: Option<nat>)
    requires p <= |vs|
    ensures r.Some? ==> p <= r.value < |vs| && vs[r.value].Some?
    ensures r.Some? ==> forall q :: p <= q < r.value ==> vs[q].None?
    ensures r.None? ==> forall q :: p <= q < |vs| ==> vs[q].None?
    decreases |vs| - p
  {
    if p == |vs| then None
    else if vs[p].Some? then Some(p)
    else NextDefined(vs, p + 1)
  }

  /** The last value seen so far by the scan, with its position. */
  datatype Anchor = Anchor(pos: nat, val: real)

  /**
   * Scans `vs` from position `p`, `last` being the last value left behind:
   * a value is kept; a hole with no value behind stays missing; a hole with
   * no value ahead repeats `last`; any other hole lies on the line from
   * `last` to the next value.
   */
  function Scan(vs: seq<Option<real>>, p: nat, last: Option<Anchor>): (r: seq<Option<real>>)
    requires p <= |vs|
    requires last.Some? ==> last.value.pos < p
    ensures |r| == |vs| - p
    decreases |vs| - p
  {
    if p == |vs| then []
    else if vs[p].Some? then [vs[p]] + Scan(vs, p + 1, Some(Anchor(p, vs[p].value)))
    else
      var here :=
        match last
        case None => None
        case Some(a) =>
          match NextDefined(vs, p + 1)
          case None => Some(a.val)
          case Some(j) => Some(Lerp(a.pos, a.val, j, vs[j].value, p));
      [here] + Scan(vs, p + 1, last)
  }

  /** The filled column. */
  function Interpolate(vs: seq<Option<real>>): (r: seq<Option<real>>)
    ensures |r| == |vs|
  {
    Scan(vs, 0, None)
  }

  /** Reference value at one position, read off the nearest values on either side. */
  function InterpolatedAt(vs: seq<Option<real>>, p: nat): Option<real>
    requires p < |vs|
  {
    if vs[p].Some? then vs[p]
    else
      match LastDefined(vs, p)
      case None => None
      case Some(i) =>
        match NextDefined(vs, p + 1)
        case None => vs[i]
        case Some(j) => Some(Lerp(i, vs[i].value, j, vs[j].value, p))
  }

  /** What the scan carries when it reaches position `p`. */
  function AnchorAt(vs: seq<Option<real>>, p: nat): (a: Option<Anchor>)
    requires p <= |vs|
    ensures a.Some? ==> a.value.pos < p
  {
    match LastDefined(vs, p)
    case None => None
    case Some(i) => Some(Anchor(i, vs[i].value))
  }

  /** The scan agrees with the reference value at every position it covers. */
  lemma {:induction false} ScanAgrees(vs: seq<Option<real>>, p: nat, k: nat)
    requires p <= k < |vs|
    ensures Scan(vs, p, AnchorAt(vs, p))[k - p] == InterpolatedAt(vs, k)
    decreases k - p
  {
    if k == p {
      ScanHead(vs, p);
    } else {
      var here, next := Scan(vs, p, AnchorAt(vs, p)), Scan(vs, p + 1, AnchorAt(vs, p + 1));
      ScanTail(vs, p);
      assert here[k - p] == here[1..][k - p - 1] == next[k - (p + 1)];
      ScanAgrees(vs, p + 1, k);
    }
  }

  /** The first entry of the scan from `p` is the reference value at `p`. */
  lemma ScanHead(vs: seq<Option<real>>, p: nat)
    requires p < |vs|
    ensures Scan(vs, p, AnchorAt(vs, p))[0] == InterpolatedAt(vs, p)
  {
  }

  /** Past its first entry, the scan from `p` is the scan from `p + 1`. */
  lemma ScanTail(vs: seq<Option<real>>, p: nat)
    requires p < |vs|
    ensures Scan(vs, p, AnchorAt(vs, p))[1..] == Scan(vs, p + 1, AnchorAt(vs, p + 1))
  {
    assert AnchorAt(vs, p + 1) == if vs[p].Some? then Some(Anchor(p, vs[p].value)) else AnchorAt(vs, p);
  }

  /** `Interpolate` is the reference value at every position. */
  lemma InterpolateAt(vs: seq<Option<real>>, p: nat)
    requires p < |vs|
    ensures Interpolate(vs)[p] == InterpolatedAt(vs, p)
  {
    assert AnchorAt(vs, 0) == None;
    ScanAgrees(vs, 0, p);
  }

  /** Values already present are left as they are. */
  lemma InterpolateKeeps(vs: seq<Option<real>>, p: nat)
    requires p < |vs| && vs[p].Some?
    ensures Interpolate(vs)[p] == vs[p]
  {
    InterpolateAt(vs, p);
  }

  /** A hole between two values lies on the line joining them, by position. */
  lemma InterpolateBetween(vs: seq<Option<real>>, i: nat, p: nat, j: nat)
    requires i < p < j < |vs|
    requires vs[i].Some? && vs[j].Some?
    requires forall q :: i < q < j ==> vs[q].None?
    ensures Interpolate(vs)[p] == Some(Lerp(i, vs[i].value, j, vs[j].value, p))
  {
    InterpolateAt(vs, p);
    assert LastDefined(vs, p) == Some(i);
    assert NextDefined(vs, p + 1) == Some(j);
  }

  /** Holes after the last value take that value. */
  lemma InterpolateTrailing(vs: seq<Option<real>>, i: nat, p: nat)
    requires i < p < |vs| && vs[i].Some?
    requires forall q :: i < q < |vs| ==> vs[q].None?
    ensures Interpolate(vs)[p] == vs[i]
  {
    InterpolateAt(vs, p);
    assert LastDefined(vs, p) == Some(i);
    assert NextDefined(vs, p + 1) == None;
  }

  /** Holes before the first value stay missing. */
  lemma InterpolateLeading(vs: seq<Option<real>>, p: nat)
    requires p < |vs|
    requires forall q :: 0 <= q <= p ==> vs[q].None?
    ensures Interpolate(vs)[p] == None
  {
    InterpolateAt(vs, p);
  }

  /** A position is filled exactly when some value lies at or before it. */
  lemma InterpolateDefined(vs: seq<Option<real>>, p: nat)
    requires p < |vs|
    ensures Interpolate(vs)[p].Some? <==> exists q :: 0 <= q <= p && vs[q].Some?
  {
    InterpolateAt(vs, p);
    if vs[p].None? && LastDefined(vs, p).Some? {
      var i := LastDefined(vs, p).value;
      assert vs[i].Some?;
    }
  }

  /**
   * Along a run of holes between two values the filled column climbs in
   * equal steps: neighbouring positions differ by (vj - vi) / (j - i).
   */
  lemma InterpolateEvenSteps(vs: seq<Option<real>>, i: nat, p: nat, j: nat)
    requires i <= p < j < |vs|
    requires vs[i].Some? && vs[j].Some?
    requires forall q :: i < q < j ==> vs[q].None?
    ensures Interpolate(vs)[p].Some? && Interpolate(vs)[p + 1].Some?
    ensures Interpolate(vs)[p + 1].value - Interpolate(vs)[p].value == (vs[j].value - vs[i].value) / (j - i) as real
  {
    var vi, vj := vs[i].value, vs[j].value;
    if p == i {
      InterpolateKeeps(vs, p);
      LerpAt(i, vi, j, vj, i);
    } else {
      InterpolateBetween(vs, i, p, j);
    }
    if p + 1 == j {
      InterpolateKeeps(vs, p + 1);
      LerpAt(i, vi, j, vj, j);
    } else {
      InterpolateBetween(vs, i, p + 1, j);
    }
    LerpStep(i, vi, j, vj, p);
  }

  /** The line passes through both of its end points. */
  lemma LerpAt(i: int, vi: real, j: int, vj: real, p: int)
    requires i < j && (p == i || p == j)
    ensures Lerp(i, vi, j, vj, p) == if p == i then vi else vj
  {
    var d := (j - i) as real;
    assert (vj - vi) * d / d == vj - vi;
  }

  /** Consecutive points on the line differ by its slope. */
  lemma LerpStep(i: int, vi: real, j: int, vj: real, p: int)
    requires i < j
    ensures Lerp(i, vi, j, vj, p + 1) - Lerp(i, vi, j, vj, p) == (vj - vi) / (j - i) as real
  {
    var d := (j - i) as real;
    assert (vj - vi) * (p + 1 - i) as real / d - (vj - vi) * (p - i) as real / d
        == ((vj - vi) * (p + 1 - i) as real - (vj - vi) * (p - i) as real) / d;
  }
}
