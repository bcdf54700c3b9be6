/** The pure part of the punchcard chart: bucketing a day map into the
    (week, weekday, count) cells of one year, the date the tooltip shows for a
    cell, and the year label and prev/next controls derived from the
    navigation bounds. */
module Heatmap {
  import opened Wrappers
  import opened Calendar

  /** One heatmap point `[since, dow, count]`: the week index since the
      aligned start (x), the weekday (y) and the day's count (value). */
  datatype Cell = Cell(week: int, weekday: int, count: int)

  /** `new Date(year, 0, 1)`: the JavaScript constructor reads a year from 0
      to 99 as 1900 plus that year. */
  function JsJan1(year: int): int {
    Jan1(if 0 <= year <= 99 then 1900 + year else year)
  }

  /** The start of week 0: January 1 (as the `Date` constructor reads the
      year) moved back by its weekday, i.e. the Sunday on or before it. */
  function AlignedStart(year: int): (s: int)
    ensures Weekday(s) == 0
    ensures JsJan1(year) - 6 <= s <= JsJan1(year)
    ensures forall t :: s < t <= JsJan1(year) ==> Weekday(t) != 0
  {
    var fdoy := JsJan1(year);
    WeekdayBack(fdoy, Weekday(fdoy));
    assert forall t :: fdoy - Weekday(fdoy) < t <= fdoy ==> Weekday(t) != 0 by {
      forall t | fdoy - Weekday(fdoy) < t <= fdoy
        ensures Weekday(t) != 0
      {
        WeekdayBack(fdoy, fdoy - t);
      }
    }
    if Weekday(fdoy) != 0 then fdoy - Weekday(fdoy) else fdoy
  }

  /** The cell of day `key` with count `count` when `year` is plotted. */
  function CellOf(year: int, key: int, count: int): Cell {
    Cell((key - AlignedStart(year)) / 7, Weekday(key), count)
  }

  /** The days of `days` that fall in `year`: the entries the filter keeps. */
  function InYear(days: map<int, int>, year: int): set<int> {
    set key | key in days && YearOf(key) == year
  }

  /** The series handed to `setData` for `year`: one cell per kept entry. */
  function Grid(days: map<int, int>, year: int): set<Cell> {
    set key | key in InYear(days, year) :: CellOf(year, key, days[key])
  }

  /** The tooltip's 1-based day of the year for the point at (week, weekday),
      counted from January 1 as the `Date` constructor reads `year`. */
  function TooltipDayOfYear(year: int, week: int, weekday: int): int {
    var fdoy := Weekday(JsJan1(year));
    (1 + (week - 1) * 7) + weekday + (7 - fdoy)
  }

  /** `new Date(year, 0, days)`: the constructor rolls the day of the month
      over into later (or earlier) months and years. */
  function TooltipDate(year: int, week: int, weekday: int): int {
    JsJan1(year) + TooltipDayOfYear(year, week, weekday) - 1
  }

  /** The tooltip's date for a cell is the day the cell was bucketed from,
      for every day and every plotted year. */
  lemma TooltipInvertsCell(year: int, key: int, count: int)
    ensures TooltipDate(year, CellOf(year, key, count).week, CellOf(year, key, count).weekday) == key
  {
    var j := JsJan1(year);
    var s := AlignedStart(year);
    assert s == j - Weekday(j);
    SundayOffset(s, key);
    var c := CellOf(year, key, count);
    assert key - s == 7 * c.week + c.weekday;
  }

  /** Counting from a Sunday `s`, day `key` lies `Weekday(key)` days past a
      whole number of weeks. */
  lemma SundayOffset(s: int, key: int)
    requires Weekday(s) == 0
    ensures key - s == 7 * ((key - s) / 7) + Weekday(key)
  {
    var m := (s + 4) / 7;
    assert s + 4 == 7 * m;
    var q, r := (key - s) / 7, (key - s) % 7;
    assert key + 4 == 7 * (m + q) + r;
    assert (key + 4) % 7 == r;
  }

  /** Two days never share a cell: the grid has exactly one cell per day of
      the year. */
  lemma CellOfInjective(year: int, k1: int, c1: int, k2: int, c2: int)
    requires CellOf(year, k1, c1) == CellOf(year, k2, c2)
    ensures k1 == k2 && c1 == c2
  {
    TooltipInvertsCell(year, k1, c1);
    TooltipInvertsCell(year, k2, c2);
  }

  /** A cell is in the grid of `year` exactly when the tooltip's date for it
      is a day of `days` in `year`, bucketed to that cell. */
  lemma GridMembership(days: map<int, int>, year: int, c: Cell)
    ensures c in Grid(days, year) <==>
      var key := TooltipDate(year, c.week, c.weekday);
      key in days && YearOf(key) == year && CellOf(year, key, days[key]) == c
  {
    var key := TooltipDate(year, c.week, c.weekday);
    if c in Grid(days, year) {
      var k :| k in InYear(days, year) && c == CellOf(year, k, days[k]);
      TooltipInvertsCell(year, k, days[k]);
    }
    if key in days && YearOf(key) == year && CellOf(year, key, days[key]) == c {
      assert key in InYear(days, year);
    }
  }

  /** Every day of `days` in `year` contributes its cell, with its count. */
  lemma GridContainsEveryDayOfYear(days: map<int, int>, year: int, key: int)
    requires key in days && YearOf(key) == year
    ensures CellOf(year, key, days[key]) in Grid(days, year)
    ensures CellOf(year, key, days[key]).count == days[key]
  {
    assert key in InYear(days, year);
  }

  /** The grid has as many cells as `days` has entries in `year`. */
  lemma GridSize(days: map<int, int>, year: int)
    ensures |Grid(days, year)| == |InYear(days, year)|
  {
    ImageSize(days, year, InYear(days, year));
  }

  lemma {:induction false} ImageSize(days: map<int, int>, year: int, keys: set<int>)
    requires keys <= days.Keys
    ensures |(set key | key in keys :: CellOf(year, key, days[key]))| == |keys|
    decreases |keys|
  {
    var image := set key | key in keys :: CellOf(year, key, days[key]);
    if keys != {} {
      var k :| k in keys;
      var rest := keys - {k};
      var restImage := set key | key in rest :: CellOf(year, key, days[key]);
      ImageSize(days, year, rest);
      assert image == restImage + {CellOf(year, k, days[k])};
      if CellOf(year, k, days[k]) in restImage {
        var k' :| k' in rest && CellOf(year, k', days[k']) == CellOf(year, k, days[k]);
        CellOfInjective(year, k', days[k'], k, days[k]);
      }
    } else {
      assert image == {};
    }
  }

  /** Every cell of the grid has a weekday in 0..6 and, for years the `Date`
      constructor reads literally, a week index in 0..53. */
  lemma GridCellBounds(days: map<int, int>, year: int, c: Cell)
    requires c in Grid(days, year)
    ensures 0 <= c.weekday <= 6
    ensures !(0 <= year <= 99) ==> 0 <= c.week <= 53
  {
    var key :| key in InYear(days, year) && c == CellOf(year, key, days[key]);
    DayOfYearBounds(key);
  }

  /** No cell comes from a day outside the plotted year. */
  lemma GridOfOtherYearsIsEmpty(days: map<int, int>, year: int)
    requires forall key :: key in days ==> YearOf(key) != year
    ensures Grid(days, year) == {}
  {
    assert InYear(days, year) == {};
  }

  /** The grid depends only on the entries of the plotted year, so a map that
      also holds other years plots like its restriction to `year`. */
  lemma GridIgnoresOtherYears(days: map<int, int>, other: map<int, int>, year: int)
    requires InYear(days, year) == InYear(other, year)
    requires forall key :: key in InYear(days, year) ==> days[key] == other[key]
    ensures Grid(days, year) == Grid(other, year)
  {
  }

  /** For a cell of the grid of a year read literally by the `Date`
      constructor, the tooltip's day of the year is the 1-based position of
      the bucketed day in that year. */
  lemma TooltipDayOfYearOfCell(days: map<int, int>, year: int, c: Cell)
    requires c in Grid(days, year)
    requires !(0 <= year <= 99)
    ensures var key := TooltipDate(year, c.week, c.weekday);
      TooltipDayOfYear(year, c.week, c.weekday) == key - Jan1(year) + 1
    ensures 1 <= TooltipDayOfYear(year, c.week, c.weekday) <= 366
  {
    GridMembership(days, year, c);
    DayOfYearBounds(TooltipDate(year, c.week, c.weekday));
  }

  /** 2024-01-07 (a Sunday, count 5) lands in week 1 because week 0 starts
      on Sunday 2023-12-31; 2024-06-15 (a Saturday, count 2) lands in week 23. */
  lemma JanuaryAndJune2024()
    ensures Jan1(2024) == 19723 && AlignedStart(2024) == Jan1(2024) - 1
    ensures Grid(map[Jan1(2024) + 6 := 5, Jan1(2024) + 166 := 2], 2024)
         == {Cell(1, 0, 5), Cell(23, 6, 2)}
  {
    JanuaryAndJune2024Cells();
    var days := map[19729 := 5, 19889 := 2];
    assert days.Keys == {19729, 19889};
    assert InYear(days, 2024) == {19729, 19889};
    assert Grid(days, 2024) == {CellOf(2024, 19729, 5), CellOf(2024, 19889, 2)};
  }

  /** The days and cells of `JanuaryAndJune2024`, one fact at a time. */
  lemma JanuaryAndJune2024Cells()
    ensures Jan1(2024) == 19723 && AlignedStart(2024) == 19722
    ensures YearOf(19729) == 2024 && YearOf(19889) == 2024
    ensures CellOf(2024, 19729, 5) == Cell(1, 0, 5)
    ensures CellOf(2024, 19889, 2) == Cell(23, 6, 2)
  {
    assert Jan1(2024) == 19723 && Jan1(2025) == 20089;
    assert Weekday(19723) == 1;
    assert AlignedStart(2024) == 19722;
    assert Weekday(19729) == 0 && Weekday(19889) == 6;
    YearOfUnique(19729, 2024);
    YearOfUnique(19889, 2024);
  }

  /** A map holding only a 2023 day plots nothing for 2024. */
  lemma Only2023PlotsNothingIn2024(count: int)
    ensures Grid(map[Jan1(2023) + 100 := count], 2024) == {}
  {
    YearOfUnique(Jan1(2023) + 100, 2023);
    GridOfOtherYearsIsEmpty(map[Jan1(2023) + 100 := count], 2024);
  }

  /** In a leap year that starts on a Saturday the last day is in week 53:
      2000-12-31 is 371 days after the aligned start 1999-12-26. */
  lemma LastDayOf2000IsInWeek53(count: int)
    ensures var dec31 := Jan1(2001) - 1;
      YearOf(dec31) == 2000 && CellOf(2000, dec31, count) == Cell(53, 0, count)
  {
    assert Jan1(2000) == 10957 && Jan1(2001) == 11323;
    assert Weekday(10957) == 6;
    assert AlignedStart(2000) == 10951;
    assert Weekday(11322) == 0;
    YearOfUnique(11322, 2000);
  }

  /** The year label and the two navigation buttons after a re-bucketing. */
  datatype Controls = Controls(
    yearLabel: int,
    prevHidden: bool, prevCaption: int,
    nextHidden: bool, nextCaption: int)

  /** `year <= custom.first` is false when `first` is undefined. */
  function ControlsFor(year: int, first: Option<int>, last: int): Controls {
    Controls(
      year,
      first.Some? && year <= first.value, year - 1,
      year >= last, year + 1)
  }

  /** Within the history [first, last] a button is hidden exactly at its own
      bound, so a user who only clicks visible buttons stays inside it; the
      buttons are captioned with the year they lead to. */
  lemma ControlsGateHistory(year: int, f: int, last: int)
    requires f <= year <= last
    ensures var c := ControlsFor(year, Some(f), last);
      && c.yearLabel == year
      && (c.prevHidden <==> year == f)
      && (c.nextHidden <==> year == last)
      && (!c.prevHidden ==> f <= c.prevCaption <= last)
      && (!c.nextHidden ==> f <= c.nextCaption <= last)
  {
  }

  /** With no first scrobble the previous-year button is always shown. */
  lemma ControlsWithoutFirst(year: int, last: int)
    ensures !ControlsFor(year, None, last).prevHidden
  {
  }

}
