/**
 * The axis limits of `findMinMax` (index.js lines 200-216) and the population
 * extent of `plotData` (index.js lines 94-95), over columns that are already numbers.
 */
module Limits {
  import opened Wrappers

  /** A pair of endpoints, the `{min, max}` objects of the file. */
  datatype Interval = Interval(min: real, max: real)

  /** `m` is what `d3.min(s)` gives: `undefined` for an empty column, else its least element. */
  predicate IsLeast(m: Option<real>, s: seq<real>) {
    (m.None? <==> s == []) &&
    (m.Some? ==> m.value in s && forall v :: v in s ==> m.value <= v)
  }

  /** `m` is what `d3.max(s)` gives: `undefined` for an empty column, else its greatest element. */
  predicate IsGreatest(m: Option<real>, s: seq<real>) {
    (m.None? <==> s == []) &&
    (m.Some? ==> m.value in s && forall v :: v in s ==> v <= m.value)
  }

  function Min(s: seq<real>): (m: Option<real>)
    ensures IsLeast(m, s)
  {
    if s == [] then None
    else
      var last := s[|s| - 1];
      assert s == s[..|s| - 1] + [last];
      match Min(s[..|s| - 1])
      case None => Some(last)
      case Some(m) => Some(if last < m then last else m)
  }

  function Max(s: seq<real>): (m: Option<real>)
    ensures IsGreatest(m, s)
  {
    if s == [] then None
    else
      var last := s[|s| - 1];
      assert s == s[..|s| - 1] + [last];
      match Max(s[..|s| - 1])
      case None => Some(last)
      case Some(m) => Some(if m < last then last else m)
  }

  /** `d3.extent(s)`: `[undefined, undefined]` (here `None`) for an empty column, else `[least, greatest]`. */
  function Extent(s: seq<real>): (e: Option<Interval>)
    ensures e.None? <==> s == []
    ensures e.Some? ==> e.value.min in s && e.value.max in s
    ensures e.Some? ==> forall v :: v in s ==> e.value.min <= v <= e.value.max
  {
    match (Min(s), Max(s))
    case (Some(lo), Some(hi)) => Some(Interval(lo, hi))
    case _ => None
  }

  /** The object `findMinMax` returns; a field is `None` where d3 gives `undefined`. */
  datatype AxisLimits = AxisLimits(xMin: Option<real>, xMax: Option<real>, yMin: Option<real>, yMax: Option<real>)

  function FindMinMax(x: seq<real>, y: seq<real>): (limits: AxisLimits)
    ensures IsLeast(limits.xMin, x) && IsGreatest(limits.xMax, x)
    ensures IsLeast(limits.yMin, y) && IsGreatest(limits.yMax, y)
  {
    AxisLimits(Min(x), Max(x), Min(y), Max(y))
  }

  /** A non-empty column has its least element at or below its greatest one. */
  lemma LeastBelowGreatest(lo: Option<real>, hi: Option<real>, s: seq<real>)
    requires IsLeast(lo, s) && IsGreatest(hi, s) && s != []
    ensures lo.Some? && hi.Some? && lo.value <= hi.value
  {
    assert lo.value in s;
  }
}
