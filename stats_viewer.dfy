/** The statistics viewer of env_src/aoc/stats_viewer.py: a table with one
    row per year and one column per visible day, scrolled left and right
    one day at a time.

    The app's terminal width is a parameter of the actions that depend on
    it; the widgets, styles and rendering are not part of the model, only
    the scroll position, the window of days and the cell symbols. */
module StatsViewer {
  import PyStr
  import StringOrder

  /** `progress_data`: year -> (day -> stars), keys as the JSON file holds
      them. */
  type Progress = map<string, map<string, int>>

  const LastDay: int := 25

  function Max(a: int, b: int): int {
    if a >= b then a else b
  }

  function Min(a: int, b: int): int {
    if a <= b then a else b
  }

  /** `(width - 8) // 5`: the number of day columns that fit next to the
      year column.  Python's floor division and Dafny's `/` agree for a
      positive divisor, also when `width < 8`. */
  function DaysShown(width: int): int {
    (width - 8) / 5
  }

  /** `max(1, 26 - num_days_to_show)`: the largest first day for which
      day 25 is still visible. */
  function MaxScroll(width: int): (m: int)
    ensures m >= 1
    ensures m == 1 || m + DaysShown(width) - 1 == LastDay
  {
    Max(1, LastDay + 1 - DaysShown(width))
  }

  /** `action_scroll_left`: one day back, never before day 1. */
  function ScrolledLeft(x: int): (r: int)
    ensures r >= 1 && r <= Max(1, x)
    ensures x > 1 ==> r == x - 1
    ensures x <= 1 ==> r == 1
  {
    Max(1, x - 1)
  }

  /** `action_scroll_right`: one day on, never past `MaxScroll(width)`. */
  function ScrolledRight(x: int, width: int): (r: int)
    ensures r <= MaxScroll(width)
    ensures x >= 1 ==> r >= 1
    ensures x < MaxScroll(width) ==> r == x + 1
    ensures x >= MaxScroll(width) ==> r == MaxScroll(width)
  {
    Min(MaxScroll(width), x + 1)
  }

  /** Scrolling right and then left comes back, while there was room. */
  lemma RightThenLeft(x: int, width: int)
    requires 1 <= x < MaxScroll(width)
    ensures ScrolledLeft(ScrolledRight(x, width)) == x
  {
  }

  /** Scrolling left and then right comes back, unless already at day 1 or
      past the right end. */
  lemma LeftThenRight(x: int, width: int)
    requires 1 < x <= MaxScroll(width)
    ensures ScrolledRight(ScrolledLeft(x), width) == x
  {
  }

  /** Both ends are fixed points. */
  lemma ScrollEnds(width: int)
    ensures ScrolledLeft(1) == 1
    ensures ScrolledRight(MaxScroll(width), width) == MaxScroll(width)
  {
  }

  /** After the terminal grows, a right scroll can move the table back to
      the new maximum: it never leaves a position past the end. */
  lemma RightAfterResize(x: int, width: int)
    requires x > MaxScroll(width)
    ensures ScrolledRight(x, width) < x
  {
  }

  /** `range(start_day, end_day + 1)` with `end_day = min(25, start_day +
      num_days_to_show - 1)`: the days that get a column. */
  function VisibleDays(scrollX: int, width: int): (days: seq<int>)
    ensures |days| == Max(0, Min(LastDay, scrollX + DaysShown(width) - 1) - scrollX + 1)
    ensures forall k :: 0 <= k < |days| ==> days[k] == scrollX + k
  {
    var endDay := Min(LastDay, scrollX + DaysShown(width) - 1);
    seq(Max(0, endDay - scrollX + 1), k => scrollX + k)
  }

  /** No column beyond day 25 nor before the first visible day; at most as
      many columns as fit. */
  lemma VisibleDaysBounds(scrollX: int, width: int)
    ensures var days := VisibleDays(scrollX, width);
      |days| <= Max(0, DaysShown(width)) &&
      forall k :: 0 <= k < |days| ==> scrollX <= days[k] <= LastDay
  {
  }

  /** Scrolled fully right on a terminal that shows 1 to 25 days, the last
      column is day 25. */
  lemma LastColumnAtMaxScroll(width: int)
    requires 1 <= DaysShown(width) <= LastDay
    ensures var days := VisibleDays(MaxScroll(width), width);
      |days| == DaysShown(width) && days[|days| - 1] == LastDay
  {
  }

  /** The cell of a day: two stars, one star and a space, or two spaces. */
  function Symbol(stars: int): (s: string)
    ensures |s| == 2
    ensures stars == 2 <==> s == "★★"
    ensures stars == 1 <==> s == "★ "
    ensures stars != 1 && stars != 2 <==> s == "  "
  {
    if stars == 2 then "★★" else if stars == 1 then "★ " else "  "
  }

  /** `year_progress.get(str(day), 0)`. */
  function StarsOn(yearProgress: map<string, int>, day: int): int {
    var key := PyStr.IntToStr(day);
    if key in yearProgress then yearProgress[key] else 0
  }

  /** A day missing from the record is shown blank. */
  lemma MissingDayBlank(yearProgress: map<string, int>, day: int)
    requires PyStr.IntToStr(day) !in yearProgress
    ensures Symbol(StarsOn(yearProgress, day)) == "  "
  {
  }

  /** The cells of a year's row, one per visible day. */
  function Cells(yearProgress: map<string, int>, days: seq<int>): (cells: seq<string>)
    ensures |cells| == |days|
    ensures forall k :: 0 <= k < |days| ==> cells[k] == Symbol(StarsOn(yearProgress, days[k]))
  {
    seq(|days|, k requires 0 <= k < |days| => Symbol(StarsOn(yearProgress, days[k])))
  }

  datatype Row = Row(year: string, cells: seq<string>)

  /** The table: the day of each column and the rows. */
  datatype Table = Table(days: seq<int>, rows: seq<Row>)

  class StatsApp {
    var progress: Progress
    var scrollX: int

    /** A new viewer starts at day 1. */
    constructor (progressData: Progress)
      ensures progress == progressData && scrollX == 1
      ensures Valid()
    {
      progress := progressData;
      scrollX := 1;
    }

    /** The first visible day is a day. */
    predicate Valid()
      reads this
    {
      scrollX >= 1
    }

    method ScrollLeft()
      modifies this
      ensures scrollX == ScrolledLeft(old(scrollX)) && progress == old(progress)
      ensures Valid()
    {
      scrollX := Max(1, scrollX - 1);
    }

    method ScrollRight(width: int)
      requires Valid()
      modifies this
      ensures scrollX == ScrolledRight(old(scrollX), width) && progress == old(progress)
      ensures scrollX <= MaxScroll(width)
      ensures Valid()
    {
      var numDaysToShow := (width - 8) / 5;
      var maxScrollX := Max(1, 26 - numDaysToShow);
      scrollX := Min(maxScrollX, scrollX + 1);
    }

    /** `build_table`: the visible days as columns and one row per year,
        newest year first. */
    method BuildTable(width: int) returns (t: Table)
      requires Valid()
      ensures t.days == VisibleDays(scrollX, width)
      ensures forall k :: 0 <= k < |t.days| ==> 1 <= t.days[k] <= LastDay
      ensures |t.rows| == |progress|
      ensures forall y :: y in progress <==> exists i :: 0 <= i < |t.rows| && t.rows[i].year == y
      ensures forall i, j :: 0 <= i < j < |t.rows| ==> StringOrder.Less(t.rows[j].year, t.rows[i].year)
      ensures forall i :: 0 <= i < |t.rows| ==>
        t.rows[i].year in progress && t.rows[i].cells == Cells(progress[t.rows[i].year], t.days)
    {
      var days := DayColumns(scrollX, width);
      var years := StringOrder.SortedDescending(progress.Keys);
      var rows: seq<Row> := [];
      for i := 0 to |years|
        invariant |rows| == i
        invariant forall k :: 0 <= k < i ==> rows[k] == Row(years[k], Cells(progress[years[k]], days))
      {
        assert years[i] in years;
        rows := rows + [Row(years[i], Cells(progress[years[i]], days))];
      }
      RowsOfYears(progress, years, days, rows);
      VisibleDaysBounds(scrollX, width);
      t := Table(days, rows);
    }
  }

  /** The column loop of `build_table`: `range(start_day, end_day + 1)`,
      empty when the terminal is too narrow for a single day. */
  method DayColumns(scrollX: int, width: int) returns (days: seq<int>)
    ensures days == VisibleDays(scrollX, width)
  {
    var numDaysToShow := (width - 8) / 5;
    var startDay := scrollX;
    var endDay := Min(25, startDay + numDaysToShow - 1);
    days := [];
    var day := startDay;
    while day <= endDay
      invariant startDay <= day <= Max(startDay, endDay + 1)
      invariant |days| == day - startDay
      invariant forall k :: 0 <= k < |days| ==> days[k] == startDay + k
      decreases endDay - day
    {
      days := days + [day];
      day := day + 1;
    }
  }

  /** One row per year, in the order of `years`, makes a row for every year
      of the record and for nothing else. */
  lemma RowsOfYears(progress: Progress, years: seq<string>, days: seq<int>, rows: seq<Row>)
    requires forall y :: y in years <==> y in progress
    requires forall i, j :: 0 <= i < j < |years| ==> StringOrder.Less(years[j], years[i])
    requires |rows| == |years|
    requires forall k :: 0 <= k < |years| ==> years[k] in progress && rows[k] == Row(years[k], Cells(progress[years[k]], days))
    ensures forall y :: y in progress <==> exists i :: 0 <= i < |rows| && rows[i].year == y
    ensures forall i, j :: 0 <= i < j < |rows| ==> StringOrder.Less(rows[j].year, rows[i].year)
    ensures forall i :: 0 <= i < |rows| ==>
      rows[i].year in progress && rows[i].cells == Cells(progress[rows[i].year], days)
  {
    forall y ensures y in progress <==> exists i :: 0 <= i < |rows| && rows[i].year == y {
      if y in progress {
        var i :| 0 <= i < |years| && years[i] == y;
        assert rows[i].year == y;
      }
    }
  }
}
