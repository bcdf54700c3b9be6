# Punchcard heatmap of a listening history, in Dafny

The punchcard chart of the listening-statistics web app shows one calendar
year of scrobbles as a heatmap. The columns are weeks and the rows are
weekdays. This project models the chart adapter and proves its properties:

- how a day → count map is bucketed into `(week, weekday, count)` cells for
  the displayed year;
- the navigation state kept in the series' `custom` bag (`year`, `first`,
  `last`, `byUser`, the cached day map);
- the prev/next buttons and the year label derived from that state;
- the tooltip formula that rebuilds a cell's date.

Files, one module each:

- `wrappers.dfy` (`Wrappers`): `Option`.
- `calendar.dfy` (`Calendar`): day numbers, weekday, the Gregorian January 1,
  and the year of a day (`getDay`, `getFullYear`).
- `heatmap.dfy` (`Heatmap`): the pure part of the adapter, as functions and
  lemmas. This covers the aligned start, the cell of a day, the grid of a
  year, the tooltip date and the controls.
- `punchcard.dfy` (`Punchcard`): the class `PunchcardChart`. Its fields are
  the `custom` bag, the series last passed to `setData` and the control
  state. Its methods are `update`, `updateDays`, the two button callbacks and
  the tooltip. Client methods replay example scenarios.

A day is an integer day number: day 0 is 1970-01-01, a Thursday. The source's
keys are local-midnight timestamps in milliseconds. With day numbers,
`Math.round((key - start) / Constants.DAY)` is an exact integer difference.
This abstraction hides the source's daylight-saving and floating-point
rounding. `Weekday(d) = (d + 4) % 7`, with 0 = Sunday, matches `getDay()`.
`YearOf` is `getFullYear()` in the proleptic Gregorian calendar. It is
characterised by `Jan1(y) <= d < Jan1(y + 1)`.

The JavaScript `Date` constructor adds 1900 to a year from 0 to 99. The model
keeps this rule (`JsJan1`) where the source calls the constructor: in the
aligned start (punchcard-chart.ts:103) and in the tooltip (:40, :42).
`getFullYear` does not apply it.

Two consequences of the code, stated by the model:

- Navigation before the first snapshot fails. The callback sets `byUser`,
  steps `year`, then calls `updateDays(undefined)`, and `Object.entries`
  throws (punchcard-chart.ts:68-70, :100). `Prev`/`Next` model this as
  `ok == false`: the year has moved, while the series and the controls are
  unchanged.
- The tooltip counts from the raw January 1 weekday and the bucketing from
  the Sunday-aligned start. In exact day arithmetic the two agree:
  `TooltipInvertsCell` proves that the tooltip gives back the bucketed day for
  every day and every year, including years that start on a Sunday. Any
  disagreement in the running app can only come from the daylight-saving and
  rounding behaviour this model abstracts away.

## Model

| member | source | states |
|---|---|---|
| `Calendar.Weekday` | src/app/charts/punchcard-chart.ts:116 | the weekday of a day is in 0..6 (0 = Sunday) |
| `Calendar.YearOf` | src/app/charts/punchcard-chart.ts:110-112 | the year of a day is the year whose January 1 is on or before the day and whose successor's January 1 is after it |
| `Calendar.YearOfUnique` | src/app/charts/punchcard-chart.ts:112 | that year is the only year whose span contains the day, so `getFullYear() !== year` tests span membership |
| `Calendar.YearLength` | src/app/charts/punchcard-chart.ts:112 | a year has 366 days exactly when the Gregorian leap rule holds, otherwise 365 |
| `Heatmap.AlignedStart` | src/app/charts/punchcard-chart.ts:103-107 | week 0 starts on a Sunday 0 to 6 days before January 1, and no Sunday lies strictly between that start and January 1 |
| `Heatmap.GridMembership` | src/app/charts/punchcard-chart.ts:108-119 | a cell is plotted iff the date rebuilt from it is a day of the map in the displayed year, and that day buckets to exactly this cell |
| `Heatmap.GridContainsEveryDayOfYear` | src/app/charts/punchcard-chart.ts:108-119 | every entry of the displayed year yields its cell `(floor((key - start) / 7), weekday, count)`, carrying the entry's count |
| `Heatmap.GridSize` | src/app/charts/punchcard-chart.ts:108-119 | the grid has exactly as many cells as the map has entries in the displayed year: one per entry, none merged |
| `Heatmap.GridCellBounds` | src/app/charts/punchcard-chart.ts:103-118 | every cell's weekday is in 0..6; its week index is in 0..53 (for years the `Date` constructor reads literally) |
| `Heatmap.GridOfOtherYearsIsEmpty` | src/app/charts/punchcard-chart.ts:112-114 | a map with no entry in the displayed year plots nothing |
| `Heatmap.GridIgnoresOtherYears` | src/app/charts/punchcard-chart.ts:112-114 | two maps that agree on the displayed year's entries plot the same grid, whatever else they hold |
| `Heatmap.TooltipInvertsCell` | src/app/charts/punchcard-chart.ts:37-42 | the tooltip's date for the cell of any day, for any displayed year, is that day (round trip against :103-118) |
| `Heatmap.CellOfInjective` | src/app/charts/punchcard-chart.ts:116-118 | two different days never share a cell of the same year |
| `Heatmap.TooltipDayOfYearOfCell` | src/app/charts/punchcard-chart.ts:40-41 | for a plotted cell of a year the `Date` constructor reads literally (not 0..99), the tooltip's `days` is the 1-based day of the year of the bucketed day, in 1..366 |
| `Heatmap.JanuaryAndJune2024` | src/app/charts/punchcard-chart.ts:103-118 | `{2024-01-07: 5, 2024-06-15: 2}` in 2024 plots exactly `(1, 0, 5)` and `(23, 6, 2)`; the 2024 start is 2023-12-31 |
| `Heatmap.Only2023PlotsNothingIn2024` | src/app/charts/punchcard-chart.ts:112-114 | a map holding only a 2023 day plots nothing for 2024 |
| `Heatmap.LastDayOf2000IsInWeek53` | src/app/charts/punchcard-chart.ts:117 | in a leap year starting on a Saturday, December 31 has week index 53 |
| `Heatmap.ControlsGateHistory` | src/app/charts/punchcard-chart.ts:124-126 | inside [first, last], prev is hidden iff year == first and next iff year == last; a visible button's caption is a year inside [first, last]; the label is the year |
| `Heatmap.ControlsWithoutFirst` | src/app/charts/punchcard-chart.ts:89-125 | with no first scrobble (`first` undefined) the prev button is always shown |
| `Punchcard.PunchcardChart.constructor` | src/app/charts/punchcard-chart.ts:24-31 | initial navigation state: year 0, first 0, last 0, not chosen by the user, no cached map, nothing plotted |
| `Punchcard.PunchcardChart.Update` | src/app/charts/punchcard-chart.ts:83-95 | no field changes when unmounted or without a last scrobble; otherwise first/last become the years of the snapshot's first/last (first absent stays absent), the year becomes last unless the user navigated (then unchanged), and the snapshot's map is plotted |
| `Punchcard.PunchcardChart.UpdateDays` | src/app/charts/punchcard-chart.ts:97-127 | the series is replaced by exactly the grid of the given map for the unchanged year, the map is cached, and the controls are derived from year/first/last; the new state depends only on the inputs and the unchanged fields, so a repeated call changes nothing |
| `Punchcard.PunchcardChart.Prev` | src/app/charts/punchcard-chart.ts:67-71 | sets byUser, steps the year down by exactly 1 with no clamping, and re-plots the cached map (not new input); fails, leaving series and controls unchanged, when nothing is cached |
| `Punchcard.PunchcardChart.Next` | src/app/charts/punchcard-chart.ts:72-76 | as Prev, stepping the year up by exactly 1 |
| `Punchcard.PunchcardChart.Rebucket` | src/app/charts/punchcard-chart.ts:100-123 | re-plots the cached map for the current year, or fails before any change when no map is cached |
| `Punchcard.PunchcardChart.Tooltip` | src/app/charts/punchcard-chart.ts:37-44 | for a plotted point, the rebuilt date is a cached day of the displayed year whose count is the point's value and whose cell is the point |
| `Punchcard.AutoTracking` | src/app/charts/punchcard-chart.ts:89-93 | snapshots ending in 2022 and then 2023 move the displayed year to 2023 |
| `Punchcard.NavigationFreezesTracking` | src/app/charts/punchcard-chart.ts:72-76 | after one "next" click, a snapshot whose last year changes leaves the displayed year alone |
| `Punchcard.NavigationBeforeFirstSnapshot` | src/app/charts/punchcard-chart.ts:67-71 | "prev" before any snapshot moves the year to -1 but fails to re-plot, and nothing is plotted |
| `Punchcard.PrevClicksOverHistory2015To2024` | src/app/charts/punchcard-chart.ts:124-126 | with history 2015–2024 shown at 2024, n "prev" clicks give year 2024 - n (past 2015 when n > 9); prev is hidden iff year <= 2015, next iff year >= 2024 |

## Left out

- Highcharts rendering is not modelled: the SVG label and buttons, their lazy creation on first render (punchcard-chart.ts:61-78), `attr` styling, the axes and the color axis. The label, visibility and captions are the `Controls` value; `setData` is the assignment of `series`.
- Chart creation is not modelled. `this.chart` is set by the abstract chart base class, which is not part of this model. `Attach` stands in for it. The model assumes the buttons and the label exist once the chart exists.
- The x axis has 53 categories, `W0`..`W52` (:47), and the axis is not modelled. `LastDayOf2000IsInWeek53` shows that a point can fall at week index 53, one past the last category.
- JavaScript `Date` in local time is not modelled: daylight-saving shifts, `Math.round` of the floating division by `Constants.DAY` (:117), `parseInt` of the string keys (:109), `toLocaleDateString` (:43) and the `Date` range limit (about ±10^8 days). Days are exact integers.
- The series is a set of cells. `setData` receives an array in `Object.entries` order, which the chart does not depend on. `GridSize` shows that no two entries share a cell, so the set loses nothing but that order.
- `TempStats` is reduced to the first and last scrobble days and `specificDays`. `hours`, `days` and `months` are read only by other charts.
- `Heatmap.GridCellBounds`: the week bound 0..53 is stated only for years outside 0..99. For those years the `Date` constructor reads January 1 of 1900 + year, so in-year days get negative week indices.
- projects/shared/src/lib/charts/charts.component.ts is not modelled. It is framework wiring: the global theme options, the subscription and the username assignment. Its fan-out is a bare `forEach(c => c.update(stats))` (:91) with no per-adapter failure isolation. The username and the other chart adapters are not part of this model.
