# Scatter plot of fertility rate against life expectancy: the data pipeline

The page (`index.js`) loads a CSV of countries by year, offers the distinct
years in a selector, and for the chosen year draws one circle per country:
fertility rate along x, life expectancy along y (inverted, larger values
higher up), population as the circle's radius, with a tooltip that prints
the population with thousands separators. This project models the part of
that file that computes values, not the part that draws them:

- `Years` — the selector's options, `[...new Set(rows.map(row => row["time"]))]`,
  and `filterByYear`'s `allYearsData.filter(row => row['time'] == year)`.
- `Limits` — `findMinMax` and the population `d3.extent`, over numeric columns,
  with `undefined` for an empty column kept as `None`.
- `Scales` — `d3.scaleLinear` as a value (normalise against the domain, then
  interpolate the range, no clamping), the axis scales of `drawAxes` with the
  y-domain given as `[yMax, yMin]`, and the radius scale onto `[3, 20]`.
- `Format` — `numberWithCommas`, modelled as the regular expression
  `/\B(?=(\d{3})+(?!\d))/g` acts on any text (a comma at every gap preceded by
  a word character and followed by a run of digits whose length is a positive
  multiple of three), with its behaviour on digit strings proved against a
  reference grouping from the right.
- `Plot` — the drawing size (800 by 600, margin 50), the circles' `cx`, `cy`,
  `r` for the rows on show, and class `App` holding the page's state: the
  module-level `data`, which `filterByYear` reassigns, and the implicit
  global `allYearsData` (assigned without a declaration, line 24).
- `Table` and `Wrappers` — a row as a map from column name to cell text, a
  cell as `Option<string>` (`None` is JavaScript's `undefined` for a column the
  row lacks).

Points about the code that shape the model:

- The radius scale's domain is the population extent of the rows on show
  (`data`, index.js line 94), so circle sizes are relative within one year.
- For a cell that does not parse, `parseFloat` (lines 54-55) gives `NaN`, and
  `d3.min`/`d3.max` (lines 202-207) skip `NaN`, so the code leaves such cells
  out of the axis limits while still drawing the point at `xScale(+cell)`
  (lines 152, 160). The model has no `NaN` (cells convert to reals), so it
  does not show this.
- A single-point domain gets no special treatment beyond d3's own, and the
  population is not rounded before grouping.

Parameters stand for what the file uses without defining: `Plot.Host` holds
JavaScript's `parseFloat` (used for the limits, line 54) and unary `+` (used
for the positions and the population, lines 94, 152, 170) as two separate
conversions of a cell, and the position d3 returns for a single-point domain.
d3 does not divide in that case but returns a constant position, 0 or one half
depending on its release, so the model takes it as a `Fraction` parameter.

## Model

| member | source | states |
|---|---|---|
| Years.Distinct | index.js:27 | the result has no duplicates, holds exactly the elements of the input, and lists them in the order of their first occurrence |
| Years.DistinctYears | index.js:27 | the selector's years: no year twice, a value is offered iff some row has it as its `time`, in first-seen order |
| Years.Times | index.js:27 | one `time` cell per row, in row order |
| Years.InYear | index.js:197 | a row is of the year exactly when it has a `time` cell equal to the year's text |
| Years.ByYear | index.js:196-198 | every kept row has `time` equal to the chosen year, and no more rows are kept than there were |
| Years.YearIndices | index.js:197 | reference for the filter: strictly increasing positions, each of a row of the year, covering every such row |
| Years.ByYearSelects | index.js:197 | the filter's k-th row is the row at the k-th position of the year, so the source order is kept |
| Years.ByYearComplete | index.js:197 | every row of the year is kept, and every kept row is a source row of the year |
| Years.ByYearPartition | index.js:197 | the kept rows and the rows of other years together are the source rows, as a multiset |
| Years.ByYearCount | index.js:197 | the kept rows and the rows of other years number the source rows |
| Years.ByYearIdempotent | index.js:196-198 | filtering the rows of a year by the same year again changes nothing |
| Limits.Min | index.js:202 | `undefined` exactly for an empty column; otherwise an element of the column at or below all of them |
| Limits.Max | index.js:203 | `undefined` exactly for an empty column; otherwise an element of the column at or above all of them |
| Limits.Extent | index.js:95 | `undefined` exactly for an empty column; otherwise two elements of it that bound every element |
| Limits.FindMinMax | index.js:200-216 | xMin/xMax are the least and greatest of x, yMin/yMax those of y, each `undefined` exactly when its column is empty |
| Limits.LeastBelowGreatest | index.js:200-215 | for a non-empty column the minimum is at or below the maximum |
| Scales.Scale.Normalize | index.js:155-157 | the input's position in the domain, the fixed `flat` for a single-point domain and otherwise: scaled by the domain's width it is the input's offset from the first end, and it lies in [0, 1] for an input between the ends |
| Scales.Scale.Apply | index.js:159-160 | off a single-point domain the output divides the range in the proportion in which the input divides the domain; on one it is the fixed position `flat` of the range; ends, bounds and order in ScaleEndpoints, ScaleWithin, ScaleOrder |
| Scales.ScaleEndpoints | index.js:155-157 | for a domain of two distinct ends, the first end maps to the first end of the range and the second to the second |
| Scales.ScaleWithin | index.js:97-99 | an input between the domain's ends, either way round, maps between the range's ends |
| Scales.ScaleOrder | index.js:173-175 | with an ascending range, an ascending domain gives a non-decreasing scale and a descending one a non-increasing scale |
| Scales.DrawAxes | index.js:150-194 | axes exist exactly when all four limits are defined; x sends xMin and xMax to the ends of rangeX, y sends yMax to rangeY.min and yMin to rangeY.max; x is non-decreasing and y non-increasing |
| Scales.RadiusScale | index.js:94-99 | a scale exists exactly when the extent is defined; populations within the extent get radii in [3, 20], the smallest 3 and the largest 20; it is non-decreasing |
| Format.NumberWithCommas | index.js:218-220 | the replace only inserts commas: stripping commas from the result and from the input gives the same text; grouping is stated in NumberWithCommasGroups, ThousandsShape and ThousandsLength |
| Format.NumberWithCommasStrips | index.js:218-220 | for a text without commas, removing the commas from the result gives the text back |
| Format.NumberWithCommasGroups | index.js:219 | on a digit string the regular expression inserts commas exactly as grouping by threes from the right does |
| Format.ThousandsShape | index.js:219 | grouping a non-empty digit string yields a first group of 1 to 3 digits, then groups of exactly 3 after each comma, and no leading or trailing comma |
| Format.ThousandsLength | index.js:219 | grouping adds one comma for every full three digits after the first |
| Format.NumberWithCommasShape | index.js:218-220 | for a non-empty digit string the result is well grouped, has length n + (n-1)/3, and loses nothing but its commas |
| Format.GroupsExample | index.js:219 | the text 1234500 becomes 1,234,500 |
| Table.Column | index.js:54-55 | one converted cell per row, in row order |
| Plot.PlotLimits | index.js:54-58 | the least and greatest fertility rate and life expectancy read with `parseFloat`, all `undefined` exactly when no row is on show |
| Plot.PlotAxes | index.js:61 | the axes exist exactly when rows are on show; x maps onto pixels 50 to 750 and is non-decreasing, y onto 50 to 550 and non-increasing |
| Plot.PlotRadius | index.js:94-99 | the radius scale exists exactly when rows are on show, gives every row on show a radius in [3, 20], and is non-decreasing |
| Plot.PlotPoints | index.js:92-117 | one circle per row on show |
| Plot.AxesSpanPlot | index.js:54-61 | with rows on show, the least fertility rate is drawn at x = 50 and the greatest at 750; the greatest life expectancy at y = 50 and the least at 550 |
| Plot.PointsInsidePlot | index.js:92-117 | every circle lies within [50, 750] by [50, 550] and has a radius in [3, 20], whenever `parseFloat` and unary `+` read the axis cells alike |
| Plot.PointsOrdered | index.js:111-117 | a larger fertility rate is never further left, a larger life expectancy never lower, a larger population never a smaller circle |
| Plot.App.Load | index.js:22-25 | both `data` and `allYearsData` hold the loaded rows |
| Plot.App.Years | index.js:27 | the selector's years from `allYearsData`: no duplicates, exactly the `time` values, first-seen order |
| Plot.App.FilterByYear | index.js:196-198 | `data` becomes the rows of `allYearsData` of the chosen year; `allYearsData` is unchanged |
| Plot.App.MakeScatterPlot | index.js:49-68 | filters as above, leaves `allYearsData` unchanged, and returns the circles of the new `data`, all of whose rows are of the chosen year |

## Left out

- Drawing through d3 and the DOM (svg creation, `svg.html("")`, axes, circles as elements, labels, title, the tooltip element and its fades, lines 15-18, 29-40, 51, 70-90, 106-143, 163-167, 181-185): rendering in a library whose code is not part of this model.
- The asynchronous `d3.csv(...).then(...)` load (lines 21-25): I/O; `App.Load` takes the parsed rows.
- The initial year `Math.min(years)` (line 42): JavaScript coerces the array to a number, which is that year for a one-year file and `NaN` (matching no row) otherwise; this rests on coercion rules and is not modelled.
- `parseFloat` and unary `+`: parameters of `Plot.Host`, not defined; `NaN`, and `d3.min`/`d3.max`/`d3.extent` skipping it, cannot arise since cells convert to reals.
- Floating-point arithmetic: the scales compute over exact reals.
- The loose `==` of the filter (line 197): the chosen year and the `time` cell are both compared as text.
- The tooltip text (lines 124-131), including `numberWithCommas(d["pop_mlns"]*1000000)`: the product is a float whose text may be fractional or in exponent form; `numberWithCommas` is modelled on texts, with its properties proved for digit strings.
- The tooltip position from `d3.event` (lines 132-133): UI state.
