/**
 * Piecewise-linear interpolation over a table of samples sorted by abscissa
 * (src/Tools/Math/interpolation.hxx). Values are `real`; the tolerant float
 * comparison `comp_equal` is exact equality here.
 */
module Interpolation {

  /** A sample of the table: abscissa `x`, ordinate `y`. */
  datatype Point = Point(x: real, y: real)

  /** Ascending order, repeated abscissas allowed: what std::lower_bound needs of the table. */
  predicate Sorted(xs: seq<real>)
  {
    forall i, j :: 0 <= i <= j < |xs| ==> xs[i] <= xs[j]
  }

  /** Reference definition: the first index whose sample is not below `v`, scanning left to right. */
  function FirstNotBelow(xs: seq<real>, v: real): (i: nat)
    ensures i <= |xs|
  {
    if |xs| == 0 || xs[0] >= v then 0 else 1 + FirstNotBelow(xs[1..], v)
  }

  /**
   * The bisection std::lower_bound performs over the window `[first, first + count)`:
   * probe the middle sample, keep the right half past it when the sample is below
   * `v`, the left half otherwise. Everything left of the window is below `v`,
   * everything right of it is not.
   */
  function LowerBoundIn(xs: seq<real>, v: real, first: nat, count: nat): (i: nat)
    requires first + count <= |xs|
    requires forall k :: 0 <= k < first ==> xs[k] < v
    requires forall k :: first + count <= k < |xs| ==> xs[k] >= v
    requires Sorted(xs)
    ensures first <= i <= first + count
    ensures forall k :: 0 <= k < i ==> xs[k] < v
    ensures forall k :: i <= k < |xs| ==> xs[k] >= v
    decreases count
  {
    if count == 0 then first
    else
      var step := count / 2;
      if xs[first + step] < v then LowerBoundIn(xs, v, first + step + 1, count - step - 1)
      else LowerBoundIn(xs, v, first, step)
  }

  /** std::lower_bound over the whole table. */
  function LowerBound(xs: seq<real>, v: real): (i: nat)
    requires Sorted(xs)
    ensures i <= |xs|
    ensures forall k :: 0 <= k < i ==> xs[k] < v
    ensures forall k :: i <= k < |xs| ==> xs[k] >= v
  {
    LowerBoundIn(xs, v, 0, |xs|)
  }

  /** Two indices that both split the table into "below v" and "not below v" are the same index. */
  lemma SplitPointUnique(xs: seq<real>, v: real, i: nat, j: nat)
    requires i <= |xs| && j <= |xs|
    requires forall k :: 0 <= k < i ==> xs[k] < v
    requires forall k :: i <= k < |xs| ==> xs[k] >= v
    requires forall k :: 0 <= k < j ==> xs[k] < v
    requires forall k :: j <= k < |xs| ==> xs[k] >= v
    ensures i == j
  {
    assert i < |xs| ==> xs[i] >= v;
    assert j < |xs| ==> xs[j] >= v;
  }

  /** The first index not below `v` splits a sorted table (and any table) the same way. */
  lemma {:induction false} FirstNotBelowSplits(xs: seq<real>, v: real)
    requires Sorted(xs)
    ensures forall k :: 0 <= k < FirstNotBelow(xs, v) ==> xs[k] < v
    ensures forall k :: FirstNotBelow(xs, v) <= k < |xs| ==> xs[k] >= v
  {
    if |xs| > 0 && xs[0] < v {
      FirstNotBelowSplits(xs[1..], v);
      var i := FirstNotBelow(xs, v);
      forall k | 0 <= k < i ensures xs[k] < v {
        if k > 0 { assert xs[k] == xs[1..][k - 1]; }
      }
      forall k | i <= k < |xs| ensures xs[k] >= v {
        assert xs[k] == xs[1..][k - 1];
      }
    }
  }

  /** The bisection finds exactly the first sample not below `v`. */
  lemma LowerBoundIsFirstNotBelow(xs: seq<real>, v: real)
    requires Sorted(xs)
    ensures LowerBound(xs, v) == FirstNotBelow(xs, v)
  {
    FirstNotBelowSplits(xs, v);
    SplitPointUnique(xs, v, LowerBound(xs, v), FirstNotBelow(xs, v));
  }

  /** `a + (b - a) * num / den` with `0 < num <= den` lies between `a` and `b`. */
  lemma BetweenEndpoints(a: real, b: real, num: real, den: real)
    ensures 0.0 < num <= den && a <= b ==> a <= a + (b - a) * num / den <= b
    ensures 0.0 < num <= den && b <= a ==> b <= a + (b - a) * num / den <= a
  {
    if 0.0 < num <= den {
      var t := num / den;
      assert 0.0 < t <= 1.0 by {
        assert t * den == num;
      }
      assert (b - a) * num / den == (b - a) * t;
      if a <= b {
        assert 0.0 <= (b - a) * t <= b - a;
      } else {
        assert b - a <= (b - a) * t <= 0.0;
      }
    }
  }

  /**
   * The value at `v` of the straight line through `(x0, y0)` and `(x1, y1)`:
   * `y0 + (y1 - y0) * (v - x0) / (x1 - x0)`.
   */
  function Lerp(x0: real, y0: real, x1: real, y1: real, v: real): (r: real)
    requires x0 < x1
    ensures v == x0 ==> r == y0
    ensures v == x1 ==> r == y1
    ensures x0 < v <= x1 && y0 <= y1 ==> y0 <= r <= y1
    ensures x0 < v <= x1 && y1 <= y0 ==> y1 <= r <= y0
  {
    BetweenEndpoints(y0, y1, v - x0, x1 - x0);
    y0 + (y1 - y0) * (v - x0) / (x1 - x0)
  }

  /**
   * linear_interpolation over parallel tables `xs` (abscissas) and `ys` (ordinates):
   * clamps to the first ordinate at or below the first abscissa, to the last ordinate
   * past the last abscissa, and interpolates on the segment that brackets `v` otherwise.
   */
  function Interpolate(xs: seq<real>, ys: seq<real>, v: real): (r: real)
    requires 0 < |xs| == |ys|
    requires Sorted(xs)
    ensures v <= xs[0] ==> r == ys[0]
    ensures v > xs[|xs| - 1] ==> r == ys[|xs| - 1]
  {
    var above := LowerBound(xs, v);
    if above == 0 then ys[0]
    else
      var below := above - 1;
      var yBelow := ys[below];
      if above == |xs| || v == xs[below] then yBelow
      else Lerp(xs[below], yBelow, xs[above], ys[above], v)
  }

  /**
   * Inside the table's range, the search brackets `v` between two consecutive
   * samples with `xs[i - 1] < v <= xs[i]` (so the slope's denominator is positive),
   * and the result is on the line through them, between their ordinates.
   */
  lemma InterpolateBracketed(xs: seq<real>, ys: seq<real>, v: real)
    requires 0 < |xs| == |ys| && Sorted(xs)
    requires xs[0] < v <= xs[|xs| - 1]
    ensures var i := LowerBound(xs, v);
      && 0 < i < |xs| && xs[i - 1] < v <= xs[i]
      && Interpolate(xs, ys, v) == Lerp(xs[i - 1], ys[i - 1], xs[i], ys[i], v)
      && (ys[i - 1] <= ys[i] ==> ys[i - 1] <= Interpolate(xs, ys, v) <= ys[i])
      && (ys[i] <= ys[i - 1] ==> ys[i] <= Interpolate(xs, ys, v) <= ys[i - 1])
  {
  }

  /** At the first sample with a given abscissa, the interpolation returns that sample's ordinate. */
  lemma InterpolateAtSample(xs: seq<real>, ys: seq<real>, j: nat)
    requires 0 < |xs| == |ys| && Sorted(xs)
    requires j < |xs| && (j == 0 || xs[j - 1] < xs[j])
    ensures Interpolate(xs, ys, xs[j]) == ys[j]
  {
    var v := xs[j];
    SplitPointUnique(xs, v, LowerBound(xs, v), j);
  }

  function Abscissas(points: seq<Point>): (xs: seq<real>)
    ensures |xs| == |points| && forall i :: 0 <= i < |points| ==> xs[i] == points[i].x
  {
    seq(|points|, i requires 0 <= i < |points| => points[i].x)
  }

  function Ordinates(points: seq<Point>): (ys: seq<real>)
    ensures |ys| == |points| && forall i :: 0 <= i < |points| ==> ys[i] == points[i].y
  {
    seq(|points|, i requires 0 <= i < |points| => points[i].y)
  }

  /**
   * linear_interpolation over a table of points; std::lower_bound compares
   * the points' abscissas with `v`.
   */
  function InterpolatePoints(data: seq<Point>, v: real): (r: real)
    requires 0 < |data| && Sorted(Abscissas(data))
    ensures v <= data[0].x ==> r == data[0].y
    ensures v > data[|data| - 1].x ==> r == data[|data| - 1].y
  {
    var above := LowerBound(Abscissas(data), v);
    if above == 0 then data[0].y
    else
      var below := above - 1;
      if above == |data| || v == data[below].x then data[below].y
      else Lerp(data[below].x, data[below].y, data[above].x, data[above].y, v)
  }

  /** The point overload agrees with the parallel-table overload on the same samples. */
  lemma InterpolatePointsAgrees(data: seq<Point>, v: real)
    requires 0 < |data| && Sorted(Abscissas(data))
    ensures InterpolatePoints(data, v) == Interpolate(Abscissas(data), Ordinates(data), v)
  {
  }

  /**
   * The pointer overload: `y_vals[j]` receives the interpolation of `x_vals[j]`
   * over the first `lData` samples, for every `j < lVals`. `yVals` may be
   * `xVals` itself; it may not be one of the tables.
   */
  method InterpolateBatch(xData: array<real>, yData: array<real>, lData: nat,
                          xVals: array<real>, yVals: array<real>, lVals: nat)
    requires lData <= xData.Length && lData <= yData.Length
    requires Sorted(xData[..lData]) && (lVals > 0 ==> lData > 0)
    requires lVals <= xVals.Length && lVals <= yVals.Length
    requires yVals != xData && yVals != yData
    modifies yVals
    ensures forall j :: 0 <= j < lVals ==>
      yVals[j] == Interpolate(xData[..lData], yData[..lData], old(xVals[j]))
    ensures forall j :: lVals <= j < yVals.Length ==> yVals[j] == old(yVals[j])
  {
    for j := 0 to lVals
      invariant forall k :: 0 <= k < j ==>
        yVals[k] == Interpolate(xData[..lData], yData[..lData], old(xVals[k]))
      invariant forall k :: j <= k < yVals.Length ==> yVals[k] == old(yVals[k])
      invariant forall k :: j <= k < xVals.Length ==> xVals[k] == old(xVals[k])
    {
      yVals[j] := Interpolate(xData[..lData], yData[..lData], xVals[j]);
    }
  }

  /**
   * The vector overload: the tables have one length, the queries and the
   * results another; every result is the interpolation of its query.
   */
  method InterpolateVectors(xData: array<real>, yData: array<real>,
                            xVals: array<real>, yVals: array<real>)
    requires xData.Length == yData.Length && xVals.Length == yVals.Length
    requires Sorted(xData[..]) && (xVals.Length > 0 ==> xData.Length > 0)
    requires yVals != xData && yVals != yData
    modifies yVals
    ensures forall j :: 0 <= j < yVals.Length ==>
      yVals[j] == Interpolate(xData[..], yData[..], old(xVals[j]))
  {
    for j := 0 to xVals.Length
      invariant forall k :: 0 <= k < j ==> yVals[k] == Interpolate(xData[..], yData[..], old(xVals[k]))
      invariant forall k :: j <= k < xVals.Length ==> xVals[k] == old(xVals[k])
    {
      yVals[j] := Interpolate(xData[..], yData[..], xVals[j]);
    }
  }

  /**
   * The point overload: each query point keeps its abscissa and receives the
   * interpolated ordinate.
   */
  method InterpolateInPlace(data: array<Point>, vals: array<Point>)
    requires Sorted(Abscissas(data[..])) && (vals.Length > 0 ==> data.Length > 0)
    requires data != vals
    modifies vals
    ensures forall j :: 0 <= j < vals.Length ==>
      vals[j].x == old(vals[j].x) && vals[j].y == InterpolatePoints(data[..], old(vals[j].x))
  {
    for j := 0 to vals.Length
      invariant forall k :: 0 <= k < j ==>
        vals[k].x == old(vals[k].x) && vals[k].y == InterpolatePoints(data[..], old(vals[k].x))
      invariant forall k :: j <= k < vals.Length ==> vals[k] == old(vals[k])
    {
      vals[j] := vals[j].(y := InterpolatePoints(data[..], vals[j].x));
    }
  }
}
