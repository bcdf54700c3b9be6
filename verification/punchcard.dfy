/** The punchcard chart adapter: its navigation state (the `custom` bag of
    the heatmap series), the series it hands to the chart, the year label and
    the prev/next buttons, and the four operations that change them. */
module Punchcard {
  import opened Wrappers
  import opened Calendar
  import opened Heatmap

  /** The part of a statistics snapshot the punchcard reads: the days of the
      first and last scrobble, when there are any, and the count per day. */
  datatype TempStats = TempStats(first: Option<int>, last: Option<int>, specificDays: map<int, int>)

  class PunchcardChart {
    /** Whether the chart instance (`this.chart`) exists. */
    var mounted: bool
    var year: int
    var first: Option<int>
    var last: int
    var byUser: bool
    /** The day map last bucketed, kept for the prev/next buttons. */
    var data: Option<map<int, int>>
    /** The points of the heatmap series, as last passed to `setData`. */
    var series: set<Cell>
    /** The year label and buttons, once a re-bucketing has set them. */
    var controls: Option<Controls>

    /** What is on screen always matches the navigation state: before the
        first re-bucketing nothing is plotted; after it, the series is the
        grid of the cached map for the displayed year and the controls are
        derived from that year and the bounds. */
    ghost predicate Valid()
      reads this
    {
      match data
      case None => series == {} && controls == None
      case Some(days) =>
        && mounted
        && series == Grid(days, year)
        && controls == Some(ControlsFor(year, first, last))
    }

    /** The initial `custom` values and an empty series. */
    constructor ()
      ensures Valid()
      ensures !mounted && year == 0 && first == Some(0) && last == 0 && !byUser
      ensures data == None && series == {} && controls == None
    {
      mounted := false;
      year, first, last := 0, Some(0), 0;
      byUser := false;
      data := None;
      series := {};
      controls := None;
    }

    /** The chart instance is created and attached to the adapter. */
    method Attach()
      requires Valid()
      modifies this
      ensures Valid() && mounted
      ensures year == old(year) && first == old(first) && last == old(last) && byUser == old(byUser)
      ensures data == old(data) && series == old(series) && controls == old(controls)
    {
      mounted := true;
    }

    /** A new snapshot: ignored until the chart exists and there is a last
        scrobble; otherwise the bounds are taken from it, the displayed year
        follows the last year unless the user has navigated, and the
        snapshot's day map is re-bucketed. */
    method Update(stats: TempStats)
      requires Valid()
      modifies this
      ensures Valid()
      ensures !old(mounted) || stats.last.None? ==> unchanged(this)
      ensures old(mounted) && stats.last.Some? ==>
        && mounted && byUser == old(byUser)
        && first == (if stats.first.Some? then Some(YearOf(stats.first.value)) else None)
        && last == YearOf(stats.last.value)
        && year == (if old(byUser) then old(year) else last)
        && data == Some(stats.specificDays)
        && series == Grid(stats.specificDays, year)
        && controls == Some(ControlsFor(year, first, last))
    {
      if !mounted || stats.last.None? {
        return;
      }
      first := if stats.first.Some? then Some(YearOf(stats.first.value)) else None;
      last := YearOf(stats.last.value);
      if !byUser && last != year {
        year := last;
      }
      UpdateDays(stats.specificDays);
    }

    /** Replaces the series with exactly the grid of `specificDays` for the
        displayed year, caches the map and refreshes the label and buttons;
        the year and the bounds stay as they are. */
    method UpdateDays(specificDays: map<int, int>)
      requires mounted
      modifies this
      ensures Valid()
      ensures mounted && year == old(year) && first == old(first) && last == old(last)
      ensures byUser == old(byUser)
      ensures data == Some(specificDays)
      ensures series == Grid(specificDays, year)
      ensures controls == Some(ControlsFor(year, first, last))
    {
      series := Grid(specificDays, year);
      data := Some(specificDays);
      controls := Some(ControlsFor(year, first, last));
    }

    /** The "prev" button: marks the year as chosen by the user, steps it
        back by one without clamping, and re-buckets the cached map. With no
        cached map the re-bucketing fails (`ok` is false) after the year has
        already changed, leaving the series and controls as they were. */
    method Prev() returns (ok: bool)
      requires Valid() && mounted
      modifies this
      ensures Valid()
      ensures byUser && year == old(year) - 1
      ensures mounted && first == old(first) && last == old(last) && data == old(data)
      ensures ok <==> old(data).Some?
      ensures ok ==> series == Grid(old(data).value, year) && controls == Some(ControlsFor(year, first, last))
      ensures !ok ==> series == old(series) && controls == old(controls)
    {
      byUser := true;
      year := year - 1;
      ok := Rebucket();
    }

    /** The "next" button: as `Prev`, stepping the year forward by one. */
    method Next() returns (ok: bool)
      requires Valid() && mounted
      modifies this
      ensures Valid()
      ensures byUser && year == old(year) + 1
      ensures mounted && first == old(first) && last == old(last) && data == old(data)
      ensures ok <==> old(data).Some?
      ensures ok ==> series == Grid(old(data).value, year) && controls == Some(ControlsFor(year, first, last))
      ensures !ok ==> series == old(series) && controls == old(controls)
    {
      byUser := true;
      year := year + 1;
      ok := Rebucket();
    }

    /** `updateDays(custom.data)`, which fails before changing anything when
        no map has been cached. */
    method Rebucket() returns (ok: bool)
      requires mounted
      requires data.None? ==> series == {} && controls == None
      modifies this
      ensures Valid()
      ensures mounted && year == old(year) && first == old(first) && last == old(last)
      ensures byUser == old(byUser) && data == old(data)
      ensures ok <==> old(data).Some?
      ensures ok ==> series == Grid(old(data).value, year) && controls == Some(ControlsFor(year, first, last))
      ensures !ok ==> series == old(series) && controls == old(controls)
    {
      match data
      case None =>
        ok := false;
      case Some(days) =>
        UpdateDays(days);
        ok := true;
    }

    /** The tooltip of a plotted point: the date rebuilt from the displayed
        year and the point's week and weekday, and the point's count. That
        date is the cached day the point was bucketed from. */
    method Tooltip(c: Cell) returns (date: int, count: int)
      requires Valid() && c in series
      ensures data.Some? && date in data.value && data.value[date] == count
      ensures YearOf(date) == year && CellOf(year, date, count) == c
      ensures count == c.count
    {
      date := TooltipDate(year, c.week, c.weekday);
      count := c.count;
      GridMembership(data.value, year, c);
    }
  }

  /** Two snapshots whose last scrobbles are in 2022 and then 2023: the
      displayed year follows them to 2023. */
  method AutoTracking() returns (shown: int)
    ensures shown == 2023
  {
    var chart := new PunchcardChart();
    chart.Attach();
    YearOfUnique(Jan1(2022) + 40, 2022);
    YearOfUnique(Jan1(2023) + 40, 2023);
    chart.Update(TempStats(None, Some(Jan1(2022) + 40), map[]));
    chart.Update(TempStats(None, Some(Jan1(2023) + 40), map[]));
    shown := chart.year;
  }

  /** After one click on "next" the displayed year no longer follows the
      snapshots: a later snapshot whose last year changes leaves it alone. */
  method NavigationFreezesTracking() returns (before: int, after: int)
    ensures before == after == 2023
  {
    var chart := new PunchcardChart();
    chart.Attach();
    YearOfUnique(Jan1(2022) + 40, 2022);
    YearOfUnique(Jan1(2024) + 40, 2024);
    chart.Update(TempStats(None, Some(Jan1(2022) + 40), map[]));
    var ok := chart.Next();
    before := chart.year;
    chart.Update(TempStats(None, Some(Jan1(2024) + 40), map[]));
    after := chart.year;
  }

  /** Buttons clicked before any snapshot arrived: the year still moves, but
      nothing can be re-bucketed and nothing is plotted. */
  method NavigationBeforeFirstSnapshot() returns (ok: bool, shown: int, plotted: set<Cell>)
    ensures !ok && shown == -1 && plotted == {}
  {
    var chart := new PunchcardChart();
    chart.Attach();
    ok := chart.Prev();
    shown := chart.year;
    plotted := chart.series;
  }

  /** History from 2015 to 2024, shown at 2024, then `clicks` presses of
      "prev": the year goes down one per press, past 2015 if pressed on; the
      previous-year button is hidden exactly when the year is at most 2015,
      the next-year button exactly when it is at least 2024. */
  method PrevClicksOverHistory2015To2024(clicks: nat) returns (shown: int, prevHidden: bool, nextHidden: bool)
    ensures shown == 2024 - clicks
    ensures prevHidden <==> shown <= 2015
    ensures nextHidden <==> shown >= 2024
  {
    var chart := new PunchcardChart();
    chart.Attach();
    YearOfUnique(Jan1(2015) + 10, 2015);
    YearOfUnique(Jan1(2024) + 10, 2024);
    chart.Update(TempStats(Some(Jan1(2015) + 10), Some(Jan1(2024) + 10), map[]));
    var i := 0;
    while i < clicks
      invariant 0 <= i <= clicks
      invariant chart.Valid() && chart.mounted && chart.data.Some?
      invariant chart.year == 2024 - i && chart.first == Some(2015) && chart.last == 2024
      modifies chart
    {
      var ok := chart.Prev();
      i := i + 1;
    }
    shown := chart.year;
    prevHidden := chart.controls.value.prevHidden;
    nextHidden := chart.controls.value.nextHidden;
  }

}
