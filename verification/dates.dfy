/**
 * Calendar dates of the proleptic Gregorian calendar, with the zero-based month
 * numbering JavaScript's Date uses. A date is the value stored in an entry's
 * `date` column (YYYY-MM-DD); `Ordinal` numbers days consecutively, so "one day
 * later" is "+ 1" and comparing two dates is comparing their ordinals.
 */
module Dates {

  /** `month` is zero-based (0 = January), `day` is the day of the month. */
  datatype Date = Date(year: int, month: int, day: int)

  predicate IsLeapYear(y: int) {
    y % 4 == 0 && (y % 100 != 0 || y % 400 == 0)
  }

  function DaysInYear(y: int): int {
    if IsLeapYear(y) then 366 else 365
  }

  function DaysInMonth(y: int, m: int): (n: int)
    requires 0 <= m < 12
    ensures 28 <= n <= 31
    ensures n == 29 <==> m == 1 && IsLeapYear(y)
    ensures n == 28 <==> m == 1 && !IsLeapYear(y)
  {
    if m == 1 then (if IsLeapYear(y) then 29 else 28)
    else if m == 3 || m == 5 || m == 8 || m == 10 then 30
    else 31
  }

  /** A date that names a real day: month 0..11 and day 1..length of that month. */
  predicate ValidDate(d: Date) {
    0 <= d.month < 12 && 1 <= d.day <= DaysInMonth(d.year, d.month)
  }

  /** Number of days from 0000-01-01 to the first day of year `y` (negative before year 0). */
  function DaysBeforeYear(y: int): int {
    365 * y + (y + 3) / 4 - (y + 99) / 100 + (y + 399) / 400
  }

  /** Number of days from the first of January of `y` to the first day of month `m`. */
  function DaysBeforeMonth(y: int, m: int): int
    requires 0 <= m < 12
  {
    var common := [0, 31, 59, 90, 120, 151, 181, 212, 243, 273, 304, 334];
    common[m] + if m >= 2 && IsLeapYear(y) then 1 else 0
  }

  /** Day number of a date: 0 is 0000-01-01. */
  function Ordinal(d: Date): int
    requires ValidDate(d)
  {
    DaysBeforeYear(d.year) + DaysBeforeMonth(d.year, d.month) + d.day - 1
  }

  /** Day of the week of a day number, 0 = Sunday .. 6 = Saturday (day 0, 0000-01-01, was a Saturday). */
  function DayOfWeek(n: int): (w: int)
    ensures 0 <= w < 7
  {
    (n + 6) % 7
  }

  /** JavaScript's `getDay()`: the day of the week of a date. */
  function Weekday(d: Date): (w: int)
    requires ValidDate(d)
    ensures 0 <= w < 7
  {
    DayOfWeek(Ordinal(d))
  }

  /** The chronological order on dates, which is the order of their YYYY-MM-DD texts. */
  predicate Precedes(a: Date, b: Date) {
    a.year < b.year
    || (a.year == b.year && a.month < b.month)
    || (a.year == b.year && a.month == b.month && a.day < b.day)
  }

  // ----- Year and month lengths agree with the day numbering -----

  /** One more year adds one to the count of multiples of 4 exactly when `y` is one. */
  lemma StepBy4(y: int)
    ensures (y + 4) / 4 == (y + 3) / 4 + (if y % 4 == 0 then 1 else 0)
  {
    var q, r := y / 4, y % 4;
    assert y == 4 * q + r && 0 <= r < 4;
    assert (y + 4) / 4 == q + 1;
    assert (y + 3) / 4 == if r == 0 then q else q + 1;
  }

  lemma StepBy100(y: int)
    ensures (y + 100) / 100 == (y + 99) / 100 + (if y % 100 == 0 then 1 else 0)
  {
    var q, r := y / 100, y % 100;
    assert y == 100 * q + r && 0 <= r < 100;
    assert (y + 100) / 100 == q + 1;
    assert (y + 99) / 100 == if r == 0 then q else q + 1;
  }

  lemma StepBy400(y: int)
    ensures (y + 400) / 400 == (y + 399) / 400 + (if y % 400 == 0 then 1 else 0)
  {
    var q, r := y / 400, y % 400;
    assert y == 400 * q + r && 0 <= r < 400;
    assert (y + 400) / 400 == q + 1;
    assert (y + 399) / 400 == if r == 0 then q else q + 1;
  }

  /** Every multiple of 400 is a multiple of 100. */
  lemma MultipleOf400(y: int)
    ensures y % 400 == 0 ==> y % 100 == 0
  {
    if y % 400 == 0 {
      var k := y / 400;
      assert y == 100 * (4 * k);
    }
  }

  /** Every multiple of 100 is a multiple of 4. */
  lemma MultipleOf100(y: int)
    ensures y % 100 == 0 ==> y % 4 == 0
  {
    if y % 100 == 0 {
      var k := y / 100;
      assert y == 4 * (25 * k);
    }
  }

  /** The leap day is counted by the three corrections of the closed form. */
  lemma LeapDayCount(y: int)
    ensures DaysInYear(y) - 365
            == (if y % 4 == 0 then 1 else 0) - (if y % 100 == 0 then 1 else 0) + (if y % 400 == 0 then 1 else 0)
  {
    MultipleOf400(y);
    MultipleOf100(y);
  }

  /** The first day of the next year comes one year length after the first day of this one. */
  lemma YearLength(y: int)
    ensures DaysBeforeYear(y + 1) == DaysBeforeYear(y) + DaysInYear(y)
  {
    StepBy4(y);
    StepBy100(y);
    StepBy400(y);
    LeapDayCount(y);
  }

  lemma {:induction false} YearsAreOrdered(y: int, z: int)
    requires y < z
    ensures DaysBeforeYear(y) + DaysInYear(y) <= DaysBeforeYear(z)
    decreases z - y
  {
    YearLength(y);
    if y + 1 < z {
      YearsAreOrdered(y + 1, z);
    }
  }

  lemma MonthsFillTheYear(y: int, m: int)
    requires 0 <= m < 12
    ensures m < 11 ==> DaysBeforeMonth(y, m + 1) == DaysBeforeMonth(y, m) + DaysInMonth(y, m)
    ensures m == 11 ==> DaysBeforeMonth(y, m) + DaysInMonth(y, m) == DaysInYear(y)
  {
  }

  lemma {:induction false} MonthsAreOrdered(y: int, m: int, n: int)
    requires 0 <= m < n < 12
    ensures DaysBeforeMonth(y, m) + DaysInMonth(y, m) <= DaysBeforeMonth(y, n)
    decreases n - m
  {
    MonthsFillTheYear(y, m);
    if m + 1 < n {
      MonthsAreOrdered(y, m + 1, n);
    }
  }

  /** A date's ordinal lies inside the span of its own year. */
  lemma OrdinalWithinYear(d: Date)
    requires ValidDate(d)
    ensures DaysBeforeYear(d.year) <= Ordinal(d) < DaysBeforeYear(d.year) + DaysInYear(d.year)
  {
    if d.month < 11 {
      MonthsAreOrdered(d.year, d.month, 11);
    }
    MonthsFillTheYear(d.year, 11);
  }

  /** Ordinals follow the calendar order: the numbering is strictly increasing. */
  lemma OrdinalMonotone(a: Date, b: Date)
    requires ValidDate(a) && ValidDate(b)
    ensures Precedes(a, b) <==> Ordinal(a) < Ordinal(b)
  {
    if a.year != b.year {
      OrdinalWithinYear(a);
      OrdinalWithinYear(b);
      if a.year < b.year {
        YearsAreOrdered(a.year, b.year);
      } else {
        YearsAreOrdered(b.year, a.year);
      }
    } else if a.month < b.month {
      MonthsAreOrdered(a.year, a.month, b.month);
    } else if b.month < a.month {
      MonthsAreOrdered(a.year, b.month, a.month);
    }
  }

  /** Two valid dates with the same day number are the same date. */
  lemma OrdinalInjective(a: Date, b: Date)
    requires ValidDate(a) && ValidDate(b)
    ensures Ordinal(a) == Ordinal(b) <==> a == b
  {
    OrdinalMonotone(a, b);
    OrdinalMonotone(b, a);
  }

  // ----- Moving by days -----

  /** The following calendar day. */
  function NextDay(d: Date): (r: Date)
    requires ValidDate(d)
    ensures ValidDate(r) && Ordinal(r) == Ordinal(d) + 1
  {
    MonthsFillTheYear(d.year, d.month);
    if d.day < DaysInMonth(d.year, d.month) then Date(d.year, d.month, d.day + 1)
    else if d.month < 11 then Date(d.year, d.month + 1, 1)
    else
      YearLength(d.year);
      Date(d.year + 1, 0, 1)
  }

  /** The preceding calendar day. */
  function PrevDay(d: Date): (r: Date)
    requires ValidDate(d)
    ensures ValidDate(r) && Ordinal(r) == Ordinal(d) - 1
  {
    if d.day > 1 then Date(d.year, d.month, d.day - 1)
    else if d.month > 0 then
      MonthsFillTheYear(d.year, d.month - 1);
      Date(d.year, d.month - 1, DaysInMonth(d.year, d.month - 1))
    else
      YearLength(d.year - 1);
      MonthsFillTheYear(d.year - 1, 11);
      Date(d.year - 1, 11, 31)
  }

  /** The date `k` days after `d` (before it when `k` is negative). */
  function AddDays(d: Date, k: int): Date
    requires ValidDate(d)
    decreases if k < 0 then -k else k
  {
    if k == 0 then d
    else if k > 0 then AddDays(NextDay(d), k - 1)
    else AddDays(PrevDay(d), k + 1)
  }

  /** Adding `k` days gives a valid date `k` day numbers on. */
  lemma {:induction false} AddDaysSpec(d: Date, k: int)
    requires ValidDate(d)
    ensures ValidDate(AddDays(d, k)) && Ordinal(AddDays(d, k)) == Ordinal(d) + k
    decreases if k < 0 then -k else k
  {
    if k > 0 {
      AddDaysSpec(NextDay(d), k - 1);
    } else if k < 0 {
      AddDaysSpec(PrevDay(d), k + 1);
    }
  }

  /** The calendar date of a day number; day 0 is 0000-01-01. */
  function DateOf(n: int): Date {
    AddDays(Date(0, 0, 1), n)
  }

  /** Day 0 is 0000-01-01. */
  lemma EpochOrdinal()
    ensures ValidDate(Date(0, 0, 1)) && Ordinal(Date(0, 0, 1)) == 0
  {
  }

  /** Moving `n` days from day 0 reaches day `n`. */
  lemma AddDaysFromDayZero(d: Date, n: int)
    requires ValidDate(d) && Ordinal(d) == 0
    ensures ValidDate(AddDays(d, n)) && Ordinal(AddDays(d, n)) == n
  {
    AddDaysSpec(d, n);
  }

  /** `DateOf` gives a valid date with that day number. */
  lemma DateOfSpec(n: int)
    ensures ValidDate(DateOf(n)) && Ordinal(DateOf(n)) == n
  {
    EpochOrdinal();
    AddDaysFromDayZero(Date(0, 0, 1), n);
  }

  /** Day numbers and valid dates correspond one to one. */
  lemma DateOfOrdinal(d: Date)
    requires ValidDate(d)
    ensures DateOf(Ordinal(d)) == d
  {
    DateOfSpec(Ordinal(d));
    OrdinalInjective(DateOf(Ordinal(d)), d);
  }

  /**
   * The year `new Date(year, month, day)` uses: a year argument from 0 to 99 means
   * 1900 to 1999 (the MakeFullYear step of the Date constructor, section 21.4.2.1 of
   * ECMA-262).
   */
  function FullYear(year: int): int {
    if 0 <= year <= 99 then 1900 + year else year
  }

  /**
   * JavaScript's `new Date(year, month, day)`: the year argument is widened first,
   * then a month outside 0..11 carries into the year, and the day counts from the
   * first of that month, so day 0 is the last day of the month before.
   */
  function MakeDate(year: int, month: int, day: int): (r: Date)
    ensures ValidDate(r)
    ensures Ordinal(r) == Ordinal(Date(FullYear(year) + month / 12, month % 12, 1)) + day - 1
  {
    var first := Date(FullYear(year) + month / 12, month % 12, 1);
    AddDaysSpec(first, day - 1);
    AddDays(first, day - 1)
  }

  /** First day of a month: `new Date(year, month, 1)`. */
  function MonthStart(year: int, month: int): Date {
    MakeDate(year, month, 1)
  }

  /** Last day of a month, written as "day 0 of the next month": `new Date(year, month + 1, 0)`. */
  function MonthEnd(year: int, month: int): Date {
    MakeDate(year, month + 1, 0)
  }

  /** For a month in 0..11, `new Date(year, month, 1)` is the first of that month of the widened year. */
  lemma FirstOfMonth(year: int, month: int)
    requires 0 <= month < 12
    ensures MonthStart(year, month) == Date(FullYear(year), month, 1)
  {
    assert month / 12 == 0 && month % 12 == month;
    OrdinalInjective(MonthStart(year, month), Date(FullYear(year), month, 1));
  }

  /** The day before the first of the next month is the last day of this month. */
  lemma DayBeforeNextMonth(year: int, month: int)
    requires 0 <= month < 12
    ensures var next := if month < 11 then Date(year, month + 1, 1) else Date(year + 1, 0, 1);
            ValidDate(next) && Ordinal(next) - 1 == Ordinal(Date(year, month, DaysInMonth(year, month)))
  {
    if month < 11 {
      MonthsFillTheYear(year, month);
    } else {
      MonthsFillTheYear(year, 11);
      YearLength(year);
    }
  }

  /** For a month in 0..11, `new Date(year, month + 1, 0)` is the last day of that month of the widened year. */
  lemma LastOfMonth(year: int, month: int)
    requires 0 <= month < 12
    ensures var y := FullYear(year); MonthEnd(year, month) == Date(y, month, DaysInMonth(y, month))
  {
    var y := FullYear(year);
    var last := Date(y, month, DaysInMonth(y, month));
    if month < 11 {
      assert (month + 1) / 12 == 0 && (month + 1) % 12 == month + 1;
    } else {
      assert (month + 1) / 12 == 1 && (month + 1) % 12 == 0;
    }
    DayBeforeNextMonth(y, month);
    OrdinalInjective(MonthEnd(year, month), last);
  }

  /** For a month in 0..11 the range is exactly the first and the last day of that month of the widened year. */
  lemma MonthBounds(year: int, month: int)
    requires 0 <= month < 12
    ensures var y := FullYear(year);
      MonthStart(year, month) == Date(y, month, 1) && MonthEnd(year, month) == Date(y, month, DaysInMonth(y, month))
  {
    FirstOfMonth(year, month);
    LastOfMonth(year, month);
  }

  /** A month number outside 0..11 names the month it carries into, counted from the widened year. */
  lemma MonthBoundsNormalise(year: int, month: int)
    ensures var y, m := FullYear(year) + month / 12, month % 12;
      MonthStart(year, month) == Date(y, m, 1) && MonthEnd(year, month) == Date(y, m, DaysInMonth(y, m))
  {
    var y, m := FullYear(year) + month / 12, month % 12;
    OrdinalInjective(MonthStart(year, month), Date(y, m, 1));
    if m < 11 {
      assert (month + 1) / 12 == month / 12 && (month + 1) % 12 == m + 1;
    } else {
      assert (month + 1) / 12 == month / 12 + 1 && (month + 1) % 12 == 0;
    }
    DayBeforeNextMonth(y, m);
    OrdinalInjective(MonthEnd(year, month), Date(y, m, DaysInMonth(y, m)));
  }

  /** The days from the first to the last of a month are exactly the dates of that year and month. */
  lemma InMonthSpan(d: Date, year: int, month: int)
    requires ValidDate(d) && 0 <= month < 12
    ensures Ordinal(Date(year, month, 1)) <= Ordinal(d) <= Ordinal(Date(year, month, DaysInMonth(year, month)))
            <==> d.year == year && d.month == month
  {
    OrdinalMonotone(d, Date(year, month, 1));
    OrdinalMonotone(Date(year, month, DaysInMonth(year, month)), d);
  }

  /**
   * The inclusive range [MonthStart, MonthEnd] holds exactly the dates whose month
   * is the given one and whose year is the widened year.
   */
  lemma InMonthRange(d: Date, year: int, month: int)
    requires ValidDate(d) && 0 <= month < 12
    ensures Ordinal(MonthStart(year, month)) <= Ordinal(d) <= Ordinal(MonthEnd(year, month))
            <==> d.year == FullYear(year) && d.month == month
  {
    MonthBounds(year, month);
    InMonthSpan(d, FullYear(year), month);
  }

  /** The day-of-week numbering agrees with the calendar: 1970-01-01 was a Thursday. */
  lemma EpochIsThursday()
    ensures Weekday(Date(1970, 0, 1)) == 4
    ensures Ordinal(Date(1970, 0, 1)) == 719528
  {
  }

  /** One day number on is one step on in the week. */
  lemma DayOfWeekStep(n: int)
    ensures DayOfWeek(n + 1) == (DayOfWeek(n) + 1) % 7
  {
    var x := n + 6;
    var q, r := x / 7, x % 7;
    assert x == 7 * q + r;
    if r < 6 {
      assert (x + 1) / 7 == q && (x + 1) % 7 == r + 1;
    } else {
      assert (x + 1) / 7 == q + 1 && (x + 1) % 7 == 0;
    }
  }

  /** Each next day moves one step on in the week. */
  lemma WeekdayAdvances(d: Date)
    requires ValidDate(d)
    ensures Weekday(NextDay(d)) == (Weekday(d) + 1) % 7
  {
    DayOfWeekStep(Ordinal(d));
  }
}
