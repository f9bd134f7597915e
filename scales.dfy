/**
 * The linear scales the plot builds with `d3.scaleLinear()` (index.js lines
 * 150-194 for the axes, 94-99 for the point radius).
 */
module Scales {
  import opened Wrappers
  import opened Limits

  /** A position within a domain, 0 at its first end and 1 at its second. */
  type Fraction = t: real | 0.0 <= t <= 1.0

  /**
   * `d3.scaleLinear().domain([d0, d1]).range([r0, r1])`. d3 first normalises
   * the input against the domain and then interpolates the range; neither
   * step clamps. When d0 == d1 d3 does not divide but answers a constant
   * position `flat`, whose value depends on the d3 release.
   */
  datatype Scale = Scale(d0: real, d1: real, r0: real, r1: real, flat: Fraction) {

    function Normalize(v: real): (t: real)
      ensures d0 == d1 ==> t == flat
      ensures d0 != d1 ==> t * (d1 - d0) == v - d0
      ensures (d0 <= v <= d1 || d1 <= v <= d0) ==> 0.0 <= t <= 1.0
    {
      if d0 == d1 then flat
      else
        var t := (v - d0) / (d1 - d0);
        assert d0 < d1 && d0 <= v <= d1 ==> 0.0 <= t <= 1.0 by {
          if d0 < d1 && d0 <= v <= d1 { DivBetween(v - d0, d1 - d0); }
        }
        assert d1 < d0 && d1 <= v <= d0 ==> 0.0 <= t <= 1.0 by {
          if d1 < d0 && d1 <= v <= d0 {
            DivNegate(v - d0, d1 - d0);
            DivBetween(d0 - v, d0 - d1);
          }
        }
        t
    }

    /**
     * The scale applied to `v`: off a single-point domain the output divides
     * the range in the proportion in which `v` divides the domain.
     */
    function Apply(v: real): (y: real)
      ensures d0 == d1 ==> y == r0 + flat * (r1 - r0)
      ensures d0 != d1 ==> (y - r0) * (d1 - d0) == (v - d0) * (r1 - r0)
    {
      var t := Normalize(v);
      assert d0 != d1 ==> (t * (r1 - r0)) * (d1 - d0) == (v - d0) * (r1 - r0) by {
        if d0 != d1 { MulCross(t, d1 - d0, v - d0, r1 - r0); }
      }
      r0 + t * (r1 - r0)
    }
  }

  lemma MulCross(t: real, a: real, b: real, c: real)
    requires t * a == b
    ensures (t * c) * a == b * c
  {
    calc {
      (t * c) * a;
      (t * a) * c;
      b * c;
    }
  }

  lemma DivBetween(a: real, b: real)
    requires 0.0 < b && 0.0 <= a <= b
    ensures 0.0 <= a / b <= 1.0
  {
  }

  lemma DivNegate(a: real, b: real)
    requires b != 0.0
    ensures a / b == (-a) / (-b)
  {
  }

  lemma ScaleBetween(t: real, c: real)
    requires 0.0 <= t <= 1.0 && 0.0 <= c
    ensures 0.0 <= t * c <= c
  {
  }

  lemma MulMonotone(a: real, b: real, c: real)
    requires a <= b && 0.0 <= c
    ensures a * c <= b * c
  {
  }

  lemma DivSub(x: real, y: real, b: real)
    requires b != 0.0
    ensures x / b - y / b == (x - y) / b
  {
  }

  lemma DivSign(a: real, b: real)
    requires 0.0 <= a && b != 0.0
    ensures 0.0 < b ==> 0.0 <= a / b
    ensures b < 0.0 ==> a / b <= 0.0
  {
    if b < 0.0 {
      DivNegate(a, b);
    }
  }

  /** `s` sends larger inputs to larger or equal outputs. */
  ghost predicate Increasing(s: Scale) {
    forall v, w :: v <= w ==> s.Apply(v) <= s.Apply(w)
  }

  /** `s` sends larger inputs to smaller or equal outputs. */
  ghost predicate Decreasing(s: Scale) {
    forall v, w :: v <= w ==> s.Apply(w) <= s.Apply(v)
  }

  /** The two ends of the domain go to the two ends of the range. */
  lemma ScaleEndpoints(s: Scale)
    requires s.d0 != s.d1
    ensures s.Apply(s.d0) == s.r0 && s.Apply(s.d1) == s.r1
  {
    assert s.Normalize(s.d0) == 0.0;
    assert s.Normalize(s.d1) == 1.0;
  }

  /** An input within the domain comes out within the range. */
  lemma ScaleWithin(s: Scale, v: real)
    requires s.r0 <= s.r1
    requires s.d0 <= v <= s.d1 || s.d1 <= v <= s.d0
    ensures s.r0 <= s.Apply(v) <= s.r1
  {
    var t, c := s.Normalize(v), s.r1 - s.r0;
    ScaleBetween(t, c);
    assert s.Apply(v) == s.r0 + t * c;
  }

  /** The position within the domain grows with the input when d0 < d1 and shrinks when d1 < d0. */
  lemma NormalizeOrder(s: Scale, v: real, w: real)
    requires v <= w
    ensures s.d0 <= s.d1 ==> s.Normalize(v) <= s.Normalize(w)
    ensures s.d1 <= s.d0 ==> s.Normalize(w) <= s.Normalize(v)
  {
    if s.d0 != s.d1 {
      var b := s.d1 - s.d0;
      DivSub(w - s.d0, v - s.d0, b);
      DivSign(w - v, b);
    }
  }

  /** The order of two inputs carries over to their outputs, reversed when d1 < d0. */
  lemma ApplyOrder(s: Scale, v: real, w: real)
    requires s.r0 <= s.r1 && v <= w
    ensures s.d0 <= s.d1 ==> s.Apply(v) <= s.Apply(w)
    ensures s.d1 <= s.d0 ==> s.Apply(w) <= s.Apply(v)
  {
    NormalizeOrder(s, v, w);
    var tv, tw, c := s.Normalize(v), s.Normalize(w), s.r1 - s.r0;
    if s.d0 <= s.d1 { MulMonotone(tv, tw, c); }
    if s.d1 <= s.d0 { MulMonotone(tw, tv, c); }
  }

  lemma ScaleOrder(s: Scale)
    requires s.r0 <= s.r1
    ensures s.d0 <= s.d1 ==> Increasing(s)
    ensures s.d1 <= s.d0 ==> Decreasing(s)
  {
    forall v, w | v <= w
      ensures s.d0 <= s.d1 ==> s.Apply(v) <= s.Apply(w)
      ensures s.d1 <= s.d0 ==> s.Apply(w) <= s.Apply(v)
    {
      ApplyOrder(s, v, w);
    }
  }


  /** The two scales `drawAxes` returns (its `xScale` and `yScale`). */
  datatype Axes = Axes(x: Scale, y: Scale)

  /**
   * `drawAxes`: the x-scale maps [xMin, xMax] onto [rangeX.min, rangeX.max];
   * the y-scale's domain is given the other way round, [yMax, yMin], so that
   * larger values land nearer the top of the drawing. `None` stands for
   * limits that d3 left `undefined` (no rows).
   */
  function DrawAxes(limits: AxisLimits, rangeX: Interval, rangeY: Interval, flat: Fraction): (axes: Option<Axes>)
    ensures axes.Some? <==>
      limits.xMin.Some? && limits.xMax.Some? && limits.yMin.Some? && limits.yMax.Some?
    ensures axes.Some? && limits.xMin.value != limits.xMax.value ==>
      axes.value.x.Apply(limits.xMin.value) == rangeX.min && axes.value.x.Apply(limits.xMax.value) == rangeX.max
    ensures axes.Some? && limits.yMin.value != limits.yMax.value ==>
      axes.value.y.Apply(limits.yMax.value) == rangeY.min && axes.value.y.Apply(limits.yMin.value) == rangeY.max
    ensures axes.Some? && limits.xMin.value <= limits.xMax.value && rangeX.min <= rangeX.max ==>
      Increasing(axes.value.x)
    ensures axes.Some? && limits.yMin.value <= limits.yMax.value && rangeY.min <= rangeY.max ==>
      Decreasing(axes.value.y)
  {
    match limits
    case AxisLimits(Some(xMin), Some(xMax), Some(yMin), Some(yMax)) =>
      var x := Scale(xMin, xMax, rangeX.min, rangeX.max, flat);
      var y := Scale(yMax, yMin, rangeY.min, rangeY.max, flat);
      assert xMin != xMax ==> x.Apply(xMin) == rangeX.min && x.Apply(xMax) == rangeX.max by {
        if xMin != xMax { ScaleEndpoints(x); }
      }
      assert yMin != yMax ==> y.Apply(yMax) == rangeY.min && y.Apply(yMin) == rangeY.max by {
        if yMin != yMax { ScaleEndpoints(y); }
      }
      assert rangeX.min <= rangeX.max ==> (xMin <= xMax ==> Increasing(x)) by {
        if rangeX.min <= rangeX.max { ScaleOrder(x); }
      }
      assert rangeY.min <= rangeY.max ==> (yMin <= yMax ==> Decreasing(y)) by {
        if rangeY.min <= rangeY.max { ScaleOrder(y); }
      }
      Some(Axes(x, y))
    case _ => None
  }

  /** The pixel range of a point's radius (index.js line 99). */
  const RADIUS_RANGE := Interval(3.0, 20.0)

  /**
   * The population scale of `plotData`: the column's extent onto [3, 20]. An
   * input within the extent gets a radius within [3, 20], the smallest
   * population 3 and the largest 20.
   */
  function RadiusScale(extent: Option<Interval>, flat: Fraction): (s: Option<Scale>)
    ensures s.Some? <==> extent.Some?
    ensures s.Some? ==> forall v :: extent.value.min <= v <= extent.value.max ==>
      RADIUS_RANGE.min <= s.value.Apply(v) <= RADIUS_RANGE.max
    ensures s.Some? && extent.value.min != extent.value.max ==>
      s.value.Apply(extent.value.min) == RADIUS_RANGE.min && s.value.Apply(extent.value.max) == RADIUS_RANGE.max
    ensures s.Some? && extent.value.min <= extent.value.max ==> Increasing(s.value)
  {
    match extent
    case None => None
    case Some(e) =>
      var s := Scale(e.min, e.max, RADIUS_RANGE.min, RADIUS_RANGE.max, flat);
      assert forall v :: e.min <= v <= e.max ==> RADIUS_RANGE.min <= s.Apply(v) <= RADIUS_RANGE.max by {
        forall v | e.min <= v <= e.max ensures RADIUS_RANGE.min <= s.Apply(v) <= RADIUS_RANGE.max {
          ScaleWithin(s, v);
        }
      }
      assert e.min != e.max ==> s.Apply(e.min) == RADIUS_RANGE.min && s.Apply(e.max) == RADIUS_RANGE.max by {
        if e.min != e.max { ScaleEndpoints(s); }
      }
      ScaleOrder(s);
      Some(s)
  }
}
