/**
 * `getCalendarDays`: the month grid of the calendar view. It starts on the Sunday on
 * or before the first of the month, gives each day a status from the habit's
 * entries, and stops at the first week boundary after the month's last day (never
 * more than six weeks). Dates are day numbers; "now" is the day number `today`.
 */
module CalendarGrid {
  import opened Optional
  import opened Sequences
  import opened Dates
  import opened Entries

  datatype Status = Completed | Missed | Pending | Future

  /** One cell; `day` is the cell's date as a day number, `dayNumber` its day of the month. */
  datatype CalendarDay = CalendarDay(day: int, dayNumber: int, isCurrentMonth: bool, isToday: bool, status: Status)

  /** `startOfMonth(date)` as a day number. */
  function MonthFirst(shown: Date): int
    requires ValidDate(shown)
  {
    Ordinal(Date(shown.year, shown.month, 1))
  }

  /** `endOfMonth(date)` as a day number. */
  function MonthLast(shown: Date): int
    requires ValidDate(shown)
  {
    Ordinal(Date(shown.year, shown.month, DaysInMonth(shown.year, shown.month)))
  }

  /** `startOfWeek(first)`: back from day `first` to the Sunday of its week. */
  function GridStart(first: int): int {
    first - DayOfWeek(first)
  }

  /** The number of cells: whole weeks from day `start` through the week holding day `last`. */
  function GridLength(start: int, last: int): int {
    7 * ((last - start) / 7 + 1)
  }

  /**
   * The status rule: an entry on that day gives completed or missed; without one, a
   * day after today is future and any other day pending.
   */
  function StatusOf(entries: seq<Entry>, d: int, today: int): Status {
    match FindOn(entries, d)
    case Some(e) => if e.completed then Completed else Missed
    case None => if d > today then Future else Pending
  }

  /** The cell the grid shows for day `d`. */
  function Cell(shown: Date, entries: seq<Entry>, today: int, d: int): CalendarDay {
    var date := DateOf(d);
    CalendarDay(d, date.day, date.year == shown.year && date.month == shown.month, d == today,
                StatusOf(entries, d, today))
  }

  // ----- the grid's shape -----

  /** The grid starts on a Sunday, at most six days before the first of the month. */
  lemma GridStartsOnSunday(first: int)
    ensures DayOfWeek(GridStart(first)) == 0
    ensures first - 6 <= GridStart(first) <= first
  {
    var x := first + 6;
    var q, r := x / 7, x % 7;
    assert x == 7 * q + r;
    assert GridStart(first) + 6 == 7 * q;
  }

  /** A month runs from its first to its last day, 28 to 31 days. */
  lemma MonthSpan(shown: Date)
    requires ValidDate(shown)
    ensures 27 <= MonthLast(shown) - MonthFirst(shown) == DaysInMonth(shown.year, shown.month) - 1 <= 30
  {
  }

  /**
   * For a month of 28 to 31 days, the grid is one to six whole weeks; it reaches the
   * month's last day, and so does its last week, so no week lies wholly after the month.
   */
  lemma GridShape(first: int, last: int)
    requires 27 <= last - first <= 30
    ensures var start, n := GridStart(first), GridLength(GridStart(first), last);
      && 7 <= n <= 42 && n % 7 == 0
      && start + n - 1 >= last
      && start + n - 7 <= last
  {
    GridStartsOnSunday(first);
    var start := GridStart(first);
    var e := last - start;
    assert 0 <= e <= 36;
    var q, r := e / 7, e % 7;
    assert e == 7 * q + r && 0 <= q <= 5;
    assert GridLength(start, last) == 7 * q + 7;
  }

  /** The loop's break test fires, for the first time, after exactly `GridLength` cells. */
  lemma BreaksAtGridLength(start: int, last: int, n: int)
    requires start <= last && 1 <= n <= GridLength(start, last)
    ensures (start + n > last && n % 7 == 0) <==> n == GridLength(start, last)
  {
    var e := last - start;
    var q, r := e / 7, e % 7;
    assert e == 7 * q + r;
    assert GridLength(start, last) == 7 * q + 7;
    if n % 7 == 0 && n < GridLength(start, last) {
      var k := n / 7;
      assert n == 7 * k;
      assert k <= q;
    }
  }

  // ----- getCalendarDays -----

  /** `days` are the cells of the consecutive days from `start` on. */
  ghost predicate CellsFrom(days: seq<CalendarDay>, shown: Date, entries: seq<Entry>, today: int, start: int) {
    forall k :: 0 <= k < |days| ==> days[k] == Cell(shown, entries, today, start + k)
  }

  /** Appending the next day's cell keeps the cells consecutive. */
  lemma CellsFromExtend(days: seq<CalendarDay>, shown: Date, entries: seq<Entry>, today: int, start: int, d: int, cell: CalendarDay)
    requires CellsFrom(days, shown, entries, today, start)
    requires d == start + |days| && cell == Cell(shown, entries, today, d)
    ensures CellsFrom(days + [cell], shown, entries, today, start)
  {
    var next := days + [cell];
    forall k | 0 <= k < |next| ensures next[k] == Cell(shown, entries, today, start + k) {
      if k < |days| {
        assert next[k] == days[k];
      } else {
        assert next[k] == cell;
      }
    }
  }

  /**
   * `getCalendarDays`: up to 42 cells from the grid start, one day apart, stopping
   * once the next day is past the month's end and the cells fill whole weeks.
   */
  method GetCalendarDays(shown: Date, entries: seq<Entry>, today: int) returns (days: seq<CalendarDay>)
    requires ValidDate(shown)
    ensures |days| == GridLength(GridStart(MonthFirst(shown)), MonthLast(shown))
    ensures CellsFrom(days, shown, entries, today, GridStart(MonthFirst(shown)))
  {
    var monthStart := MonthFirst(shown);
    var monthEnd := MonthLast(shown);
    MonthSpan(shown);
    var startDate := GridStart(monthStart);
    ghost var length := GridLength(startDate, monthEnd);
    GridShape(monthStart, monthEnd);
    days := [];
    var currentDate := startDate;
    for i := 0 to 42
      invariant |days| == i && currentDate == startDate + i
      invariant i < length || i == length == 42
      invariant CellsFrom(days, shown, entries, today, startDate)
    {
      var entry := FindOn(entries, currentDate);
      var status := Pending;
      if entry.Some? {
        status := if entry.value.completed then Completed else Missed;
      } else if currentDate > today {
        status := Future;
      }
      var date := DateOf(currentDate);
      var cell := CalendarDay(currentDate, date.day, date.year == shown.year && date.month == shown.month,
                              currentDate == today, status);
      assert cell == Cell(shown, entries, today, currentDate);
      CellsFromExtend(days, shown, entries, today, startDate, currentDate, cell);
      days := days + [cell];
      currentDate := currentDate + 1;
      BreaksAtGridLength(startDate, monthEnd, |days|);
      if currentDate > monthEnd && |days| % 7 == 0 {
        break;
      }
    }
  }

  // ----- what the cells say -----

  /** A cell belongs to the displayed month exactly when its day lies between the month's first and last day. */
  lemma CurrentMonthCells(shown: Date, entries: seq<Entry>, today: int, d: int)
    requires ValidDate(shown)
    ensures Cell(shown, entries, today, d).isCurrentMonth <==> MonthFirst(shown) <= d <= MonthLast(shown)
  {
    DateOfSpec(d);
    InMonthSpan(DateOf(d), shown.year, shown.month);
  }

  /** Every day of the displayed month has a cell in the grid. */
  lemma MonthDaysInGrid(shown: Date, d: int)
    requires ValidDate(shown)
    requires MonthFirst(shown) <= d <= MonthLast(shown)
    ensures var start := GridStart(MonthFirst(shown)); 0 <= d - start < GridLength(start, MonthLast(shown))
  {
    MonthSpan(shown);
    GridShape(MonthFirst(shown), MonthLast(shown));
  }

  /** A cell of the displayed month shows its day of the month. */
  lemma MonthCellDayNumber(shown: Date, entries: seq<Entry>, today: int, d: int)
    requires ValidDate(shown)
    requires MonthFirst(shown) <= d <= MonthLast(shown)
    ensures Cell(shown, entries, today, d).dayNumber == d - MonthFirst(shown) + 1
  {
    CurrentMonthCells(shown, entries, today, d);
    DateOfSpec(d);
    var date := DateOf(d);
    assert date.year == shown.year && date.month == shown.month;
    assert Ordinal(date) - MonthFirst(shown) == date.day - 1;
  }

  /**
   * With one entry per day, the status does not depend on the order of the entries:
   * completed exactly when the day has a completed entry, missed exactly when it has
   * an entry that is not, and pending or future exactly when it has none.
   */
  lemma StatusFromEntries(entries: seq<Entry>, d: int, today: int)
    requires OnePerDay(entries)
    ensures StatusOf(entries, d, today) == Completed <==>
              exists k :: 0 <= k < |entries| && entries[k].day == d && entries[k].completed
    ensures StatusOf(entries, d, today) == Missed <==>
              exists k :: 0 <= k < |entries| && entries[k].day == d && !entries[k].completed
    ensures StatusOf(entries, d, today) == Future <==>
              d > today && forall k :: 0 <= k < |entries| ==> entries[k].day != d
    ensures StatusOf(entries, d, today) == Pending <==>
              d <= today && forall k :: 0 <= k < |entries| ==> entries[k].day != d
    ensures StatusOf(entries, d, today) == Completed <==> CompletedOn(entries, d)
  {
    FindFirstSpec(entries, Day, d);
    forall k | 0 <= k < |entries| && entries[k].day == d ensures FindOn(entries, d) == Some(entries[k]) {
      FindUnique(entries, Day, k);
    }
  }
}
