/**
 * `makeScatterPlot` and `plotData` (index.js lines 49-68 and 92-117): the
 * rows of the chosen year become one point per row, placed by the axis
 * scales and sized by the population scale, on an 800 by 600 drawing with
 * a margin of 50 (index.js lines 8-12 and 61).
 */
module Plot {
  import opened Wrappers
  import opened Table
  import opened Years
  import opened Limits
  import opened Scales

  /**
   * What the file takes from the JavaScript runtime and from d3 without
   * defining it: `parseFloat` (line 54) and unary `+` (lines 94, 152, 170,
   * and inside d3's scale at line 117) as two separate conversions of a
   * cell, and the position d3 answers for a single-point domain.
   */
  datatype Host = Host(parseFloat: Cell -> real, plus: Cell -> real, flat: Fraction)

  const WIDTH: real := 800.0
  const HEIGHT: real := 600.0
  const MARGIN: real := 50.0

  /** The pixel ranges `makeScatterPlot` hands to `drawAxes` (line 61). */
  const RANGE_X := Interval(MARGIN, WIDTH - MARGIN)
  const RANGE_Y := Interval(MARGIN, HEIGHT - MARGIN)

  const FERTILITY := "fertility_rate"
  const LIFE := "life_expectancy"
  const POPULATION := "pop_mlns"

  /** The `cx`, `cy` and `r` attributes of one circle. */
  datatype Point = Point(cx: real, cy: real, r: real)

  /**
   * Lines 54-58: the axis limits of the rows on show, read with `parseFloat`:
   * the least and greatest fertility rate and life expectancy, all four
   * `undefined` when no row is on show.
   */
  function PlotLimits(rows: seq<Row>, host: Host): (limits: AxisLimits)
    ensures IsLeast(limits.xMin, Column(rows, FERTILITY, host.parseFloat))
    ensures IsGreatest(limits.xMax, Column(rows, FERTILITY, host.parseFloat))
    ensures IsLeast(limits.yMin, Column(rows, LIFE, host.parseFloat))
    ensures IsGreatest(limits.yMax, Column(rows, LIFE, host.parseFloat))
  {
    FindMinMax(Column(rows, FERTILITY, host.parseFloat), Column(rows, LIFE, host.parseFloat))
  }

  /**
   * Line 61: the axis scales, defined exactly when rows are on show; x runs
   * over pixels 50 to 750 and rises with the fertility rate, y over pixels
   * 50 to 550 and falls as the life expectancy rises.
   */
  function PlotAxes(rows: seq<Row>, host: Host): (axes: Option<Axes>)
    ensures axes.Some? <==> rows != []
    ensures axes.Some? ==> axes.value.x.r0 == 50.0 && axes.value.x.r1 == 750.0
    ensures axes.Some? ==> axes.value.y.r0 == 50.0 && axes.value.y.r1 == 550.0
    ensures axes.Some? ==> Increasing(axes.value.x) && Decreasing(axes.value.y)
  {
    var l := PlotLimits(rows, host);
    assert rows != [] ==> l.xMin.value <= l.xMax.value && l.yMin.value <= l.yMax.value by {
      if rows != [] {
        LeastBelowGreatest(l.xMin, l.xMax, Column(rows, FERTILITY, host.parseFloat));
        LeastBelowGreatest(l.yMin, l.yMax, Column(rows, LIFE, host.parseFloat));
      }
    }
    DrawAxes(l, RANGE_X, RANGE_Y, host.flat)
  }

  /** Lines 94-99: the population scale, over the rows on show. */
  function PlotRadius(rows: seq<Row>, host: Host): (radius: Option<Scale>)
    ensures radius.Some? <==> rows != []
    ensures radius.Some? ==> forall i :: 0 <= i < |rows| ==>
      3.0 <= radius.value.Apply(host.plus(Field(rows[i], POPULATION))) <= 20.0
    ensures radius.Some? ==> Increasing(radius.value)
  {
    var pop := Column(rows, POPULATION, host.plus);
    assert forall i :: 0 <= i < |rows| ==> host.plus(Field(rows[i], POPULATION)) in pop by {
      forall i | 0 <= i < |rows| ensures host.plus(Field(rows[i], POPULATION)) in pop {
        assert pop[i] == host.plus(Field(rows[i], POPULATION));
      }
    }
    RadiusScale(Extent(pop), host.flat)
  }

  /** Lines 111-117, with `xMap` and `yMap` of lines 152-178: one circle per row, in row order. */
  function PlotPoints(rows: seq<Row>, host: Host): (points: seq<Point>)
    ensures |points| == |rows|
  {
    var axes, radius := PlotAxes(rows, host), PlotRadius(rows, host);
    if axes.None? || radius.None? then []
    else
      seq(|rows|, i requires 0 <= i < |rows| =>
        Point(axes.value.x.Apply(host.plus(Field(rows[i], FERTILITY))),
              axes.value.y.Apply(host.plus(Field(rows[i], LIFE))),
              radius.value.Apply(host.plus(Field(rows[i], POPULATION)))))
  }

  /**
   * With rows on show, the x-axis runs from the least fertility rate at
   * pixel 50 to the greatest at 750, and the y-axis from the greatest life
   * expectancy at pixel 50 (the top) to the least at 550.
   */
  lemma AxesSpanPlot(rows: seq<Row>, host: Host)
    requires rows != []
    ensures PlotAxes(rows, host).Some?
    ensures var l, a := PlotLimits(rows, host), PlotAxes(rows, host).value;
      l.xMin.value < l.xMax.value ==>
        a.x.Apply(l.xMin.value) == 50.0 && a.x.Apply(l.xMax.value) == 750.0
    ensures var l, a := PlotLimits(rows, host), PlotAxes(rows, host).value;
      l.yMin.value < l.yMax.value ==>
        a.y.Apply(l.yMax.value) == 50.0 && a.y.Apply(l.yMin.value) == 550.0
  {
  }

  /**
   * Every circle lies inside the plot area and has a radius in [3, 20],
   * provided `parseFloat` and unary `+` read each axis cell alike (the
   * limits are taken with the first, the positions with the second).
   */
  lemma PointsInsidePlot(rows: seq<Row>, host: Host)
    requires forall i :: 0 <= i < |rows| ==>
      host.parseFloat(Field(rows[i], FERTILITY)) == host.plus(Field(rows[i], FERTILITY)) &&
      host.parseFloat(Field(rows[i], LIFE)) == host.plus(Field(rows[i], LIFE))
    ensures forall p :: p in PlotPoints(rows, host) ==>
      50.0 <= p.cx <= 750.0 && 50.0 <= p.cy <= 550.0 && 3.0 <= p.r <= 20.0
  {
    var points := PlotPoints(rows, host);
    if rows != [] {
      var fert, life := Column(rows, FERTILITY, host.parseFloat), Column(rows, LIFE, host.parseFloat);
      var pop := Column(rows, POPULATION, host.plus);
      var l, a, rad := PlotLimits(rows, host), PlotAxes(rows, host).value, PlotRadius(rows, host).value;
      forall k | 0 <= k < |points|
        ensures 50.0 <= points[k].cx <= 750.0 && 50.0 <= points[k].cy <= 550.0 && 3.0 <= points[k].r <= 20.0
      {
        assert fert[k] in fert && life[k] in life && pop[k] in pop;
        ScaleWithin(a.x, fert[k]);
        ScaleWithin(a.y, life[k]);
      }
    }
  }

  /**
   * Circles keep the order of their rows: a larger fertility rate is
   * further right, a larger life expectancy higher up (a smaller `cy`), a
   * larger population no smaller a circle.
   */
  lemma PointsOrdered(rows: seq<Row>, host: Host, i: nat, j: nat)
    requires i < |rows| && j < |rows|
    ensures var p, f := PlotPoints(rows, host), host.plus;
      f(Field(rows[i], FERTILITY)) <= f(Field(rows[j], FERTILITY)) ==> p[i].cx <= p[j].cx
    ensures var p, f := PlotPoints(rows, host), host.plus;
      f(Field(rows[i], LIFE)) <= f(Field(rows[j], LIFE)) ==> p[j].cy <= p[i].cy
    ensures var p, f := PlotPoints(rows, host), host.plus;
      f(Field(rows[i], POPULATION)) <= f(Field(rows[j], POPULATION)) ==> p[i].r <= p[j].r
  {
    var fert, life := Column(rows, FERTILITY, host.parseFloat), Column(rows, LIFE, host.parseFloat);
    var l := PlotLimits(rows, host);
    LeastBelowGreatest(l.xMin, l.xMax, fert);
    LeastBelowGreatest(l.yMin, l.yMax, life);
  }

  /**
   * The page's state: the module-level `data` (the rows on show) and
   * `allYearsData` (every loaded row).
   */
  class App {
    var data: seq<Row>
    var allYearsData: seq<Row>

    /** The CSV callback (lines 22-25): both variables receive the loaded rows. */
    constructor Load(csv: seq<Row>)
      ensures data == csv && allYearsData == csv
    {
      data := csv;
      allYearsData := csv;
    }

    /** The selector's options (line 27): each year once, in first-seen order. */
    function Years(): (years: seq<Cell>)
      reads this
      ensures NoDuplicates(years)
      ensures forall c :: c in years <==> c in Times(allYearsData)
      ensures forall i, j :: 0 <= i < j < |years| ==>
        FirstIndex(Times(allYearsData), years[i]) < FirstIndex(Times(allYearsData), years[j])
    {
      DistinctYears(allYearsData)
    }

    /** `filterByYear` (lines 196-198): only `data` is reassigned. */
    method FilterByYear(year: string)
      modifies this`data
      ensures data == ByYear(allYearsData, year)
      ensures allYearsData == old(allYearsData)
    {
      data := ByYear(allYearsData, year);
    }

    /** `makeScatterPlot` (lines 49-68): filter, then place one circle per row of the year. */
    method MakeScatterPlot(year: string, host: Host) returns (points: seq<Point>)
      modifies this`data
      ensures data == ByYear(allYearsData, year)
      ensures allYearsData == old(allYearsData)
      ensures points == PlotPoints(data, host)
      ensures forall k :: 0 <= k < |data| ==> InYear(data[k], year)
    {
      FilterByYear(year);
      points := PlotPoints(data, host);
    }
  }
}
