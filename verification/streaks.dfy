/**
 * Habit entries: one row of `habit_entries` (id, habitId, date, completed), and
 * the views of a habit's entries that both storage classes and the streak engine
 * use. An entry's date is held as its day number (see `Dates.Ordinal`), so "the
 * next day" is `+ 1` and date order is integer order; `Dates.DateOf` recovers the
 * year, month and day of the month.
 */
module Entries {
  import opened Optional
  import opened Dates
  import opened Sequences

  /** `completed == false` is an explicit miss, which is different from having no entry. */
  datatype Entry = Entry(id: int, habitId: int, day: int, completed: bool)

  /** Sort key of the oldest-first order: the entry's day number. */
  function Day(e: Entry): int {
    e.day
  }

  /** Sort key of the newest-first order. */
  function DayDescending(e: Entry): int {
    -e.day
  }

  predicate IsCompleted(e: Entry) {
    e.completed
  }

  /** At most one entry per calendar day. */
  ghost predicate OnePerDay(s: seq<Entry>) {
    DistinctKeys(s, Day)
  }

  /** The first entry of `s` dated day `d`: `entries.find(e => sameDay(e.date, d))`. */
  function FindOn(s: seq<Entry>, d: int): Option<Entry> {
    FindFirst(s, Day, d)
  }

  /** Day `d` has an entry, and the entry the lookup finds is marked completed. */
  predicate CompletedOn(s: seq<Entry>, d: int) {
    var r := FindOn(s, d);
    r.Some? && r.value.completed
  }

  /** The entries sorted by date, oldest first: `sort((a, b) => a.date - b.date)`. */
  function OldestFirst(s: seq<Entry>): seq<Entry> {
    SortBy(s, Day)
  }

  /** The entries sorted by date, newest first: `sort((a, b) => b.date - a.date)`. */
  function NewestFirst(s: seq<Entry>): seq<Entry> {
    SortBy(s, DayDescending)
  }

  /** `entries.filter(entry => entry.completed).length` */
  function CountCompleted(s: seq<Entry>): nat {
    |Filter(s, IsCompleted)|
  }

  /** The count is zero exactly when no entry is completed. */
  lemma NoCompletedEntries(s: seq<Entry>)
    ensures CountCompleted(s) == 0 <==> forall k :: 0 <= k < |s| ==> !s[k].completed
  {
    var completed := Filter(s, IsCompleted);
    if completed != [] {
      FilterSpec(s, IsCompleted, completed[0]);
    }
    forall k | 0 <= k < |s| && s[k].completed ensures completed != [] {
      FilterSpec(s, IsCompleted, s[k]);
    }
  }

  /** Both sorted views keep one entry per day. */
  lemma SortedViewsOnePerDay(s: seq<Entry>)
    requires OnePerDay(s)
    ensures OnePerDay(OldestFirst(s)) && OnePerDay(NewestFirst(s))
  {
    SortKeepsDistinct(s, Day);
    assert DistinctKeys(s, DayDescending);
    SortKeepsDistinct(s, DayDescending);
    var t := NewestFirst(s);
    assert forall i :: 0 <= i < |t| ==> DayDescending(t[i]) == -Day(t[i]);
  }

  /**
   * With one entry per day, whether a day is completed does not depend on the
   * order in which the entries are searched.
   */
  lemma CompletedOnAnyOrder(s: seq<Entry>, d: int)
    requires OnePerDay(s)
    ensures CompletedOn(NewestFirst(s), d) == CompletedOn(s, d) == CompletedOn(OldestFirst(s), d)
  {
    SortedViewsOnePerDay(s);
    SortBySpec(s, Day);
    SortBySpec(s, DayDescending);
    FindPermutation(s, NewestFirst(s), Day, d);
    FindPermutation(s, OldestFirst(s), Day, d);
  }

  /** In the oldest-first view with one entry per day, day numbers strictly increase. */
  lemma StrictlyIncreasing(s: seq<Entry>, i: int, j: int)
    requires SortedBy(s, Day) && OnePerDay(s)
    requires 0 <= i < j < |s|
    ensures Day(s[i]) < Day(s[j])
  {
  }

  /** `new Date(e.date)` falls in the given year and zero-based month. */
  predicate InMonth(e: Entry, year: int, month: int) {
    var d := DateOf(e.day);
    d.year == year && d.month == month
  }

  /** `e.date >= lo && e.date <= hi` on YYYY-MM-DD dates, both ends inclusive. */
  predicate InRange(e: Entry, lo: Date, hi: Date)
    requires ValidDate(lo) && ValidDate(hi)
  {
    Ordinal(lo) <= e.day <= Ordinal(hi)
  }

  /**
   * For a month in 0..11, the inclusive range from `new Date(year, month, 1)` to
   * `new Date(year, month + 1, 0)` selects the entries of that month of the widened year.
   */
  lemma RangeIsMonth(e: Entry, year: int, month: int)
    requires 0 <= month < 12
    ensures InRange(e, MonthStart(year, month), MonthEnd(year, month)) <==> InMonth(e, FullYear(year), month)
  {
    DateOfSpec(e.day);
    InMonthRange(DateOf(e.day), year, month);
  }
}

/**
 * The streak engine: current streak, longest streak and monthly completions of one
 * habit, computed from that habit's entries. Every storage class calls these with
 * the entries of one habit; "today" is a parameter instead of the system clock.
 */
module Streaks {
  import opened Optional
  import opened Sequences
  import opened Entries

  // ----- Current streak -----

  /**
   * Where the backward walk starts: today if today's entry is completed; yesterday if
   * today has no entry or an explicit miss, so an unmarked today keeps a live streak.
   */
  function Anchor(newest: seq<Entry>, today: int): (a: int)
    ensures CompletedOn(newest, today) ==> a == today
    ensures !CompletedOn(newest, today) ==> a == today - 1
  {
    var todayEntry := FindOn(newest, today);
    if todayEntry.None? || !todayEntry.value.completed then today - 1 else today
  }

  /**
   * `n` is the current streak: the days anchor, anchor - 1, ..., anchor - n + 1 all
   * carry a completed entry, and the day before them does not.
   */
  ghost predicate IsCurrentStreak(entries: seq<Entry>, today: int, n: nat) {
    var s := NewestFirst(entries);
    var a := Anchor(s, today);
    (forall d :: a - n < d <= a ==> CompletedOn(s, d)) && !CompletedOn(s, a - n)
  }

  /** Smallest day number among the entries. */
  function LowestDay(s: seq<Entry>): (low: int)
    requires s != []
    ensures forall k :: 0 <= k < |s| ==> low <= Day(s[k])
  {
    if |s| == 1 then Day(s[0])
    else
      var rest := LowestDay(s[1..]);
      assert forall k :: 1 <= k < |s| ==> s[k] == s[1..][k - 1];
      if Day(s[0]) <= rest then Day(s[0]) else rest
  }

  /** Every day strictly after `lo` up to and including `hi` is completed. */
  ghost predicate CompletedBetween(s: seq<Entry>, lo: int, hi: int) {
    forall d :: lo < d <= hi ==> CompletedOn(s, d)
  }

  /** A completed day just below a completed stretch extends the stretch. */
  lemma CompletedBetweenExtends(s: seq<Entry>, lo: int, hi: int)
    requires CompletedBetween(s, lo, hi) && CompletedOn(s, lo)
    ensures CompletedBetween(s, lo - 1, hi)
  {
  }

  /** No entries, no completed day, so the streak is 0. */
  lemma NoEntriesNoStreak(entries: seq<Entry>, today: int)
    requires entries == []
    ensures IsCurrentStreak(entries, today, 0)
  {
    assert NewestFirst(entries) == [];
  }

  /** A day the search finds an entry for lies at or above the lowest day. */
  lemma FoundDayAboveLowest(s: seq<Entry>, d: int)
    requires s != [] && FindOn(s, d).Some?
    ensures LowestDay(s) <= d
  {
    FindFirstSpec(s, Day, d);
    var k :| 0 <= k < |s| && s[k] == FindOn(s, d).value;
  }

  /** The loop's exit state is the current streak. */
  lemma StreakEstablished(entries: seq<Entry>, today: int, anchor: int, streak: nat)
    requires anchor == Anchor(NewestFirst(entries), today)
    requires CompletedBetween(NewestFirst(entries), anchor - streak, anchor)
    requires !CompletedOn(NewestFirst(entries), anchor - streak)
    ensures IsCurrentStreak(entries, today, streak)
  {
  }

  /** `getCurrentStreak`: walk back one day at a time from the anchor while the day is completed. */
  method CurrentStreak(entries: seq<Entry>, today: int) returns (streak: nat)
    ensures entries == [] ==> streak == 0
    ensures IsCurrentStreak(entries, today, streak)
  {
    if |entries| == 0 {
      NoEntriesNoStreak(entries, today);
      return 0;
    }
    var sorted := NewestFirst(entries);
    // start today when today's entry is completed, otherwise yesterday
    var currentDay := Anchor(sorted, today);
    ghost var anchor := currentDay;
    var low := LowestDay(sorted);
    streak := 0;
    while true
      invariant currentDay == anchor - streak
      invariant CompletedBetween(sorted, currentDay, anchor)
      decreases currentDay - low + 1
    {
      var entry := FindOn(sorted, currentDay);
      if entry.None? || !entry.value.completed {
        assert !CompletedOn(sorted, currentDay);
        break;
      }
      FoundDayAboveLowest(sorted, currentDay);
      CompletedBetweenExtends(sorted, currentDay, anchor);
      streak := streak + 1;
      currentDay := currentDay - 1;
    }
    StreakEstablished(entries, today, anchor, streak);
  }

  // ----- Longest streak -----

  /**
   * Positions i .. j-1 of the oldest-first list form a run: every entry is completed
   * and each is dated exactly one day after the one before it.
   */
  ghost predicate IsRun(s: seq<Entry>, i: int, j: int) {
    && 0 <= i < j <= |s|
    && (forall k :: i <= k < j ==> s[k].completed)
    && (forall k :: i <= k < j - 1 ==> Day(s[k + 1]) == Day(s[k]) + 1)
  }

  /** `n` is the length of the longest run of the oldest-first list (0 when there is none). */
  ghost predicate IsLongestStreak(entries: seq<Entry>, n: nat) {
    var s := OldestFirst(entries);
    (forall i, j :: IsRun(s, i, j) ==> j - i <= n)
    && (n > 0 ==> exists i, j :: IsRun(s, i, j) && j - i == n)
  }

  /** The run ending at `n` (exclusive) that starts at `i` extends by the entry at `n`. */
  lemma RunExtends(s: seq<Entry>, i: int, n: int)
    requires IsRun(s, i, n) && n < |s| && s[n].completed && Day(s[n]) == Day(s[n - 1]) + 1
    ensures IsRun(s, i, n + 1)
  {
  }

  /** A run of two or more entries ending at `n + 1` is a run ending at `n`, one day before. */
  lemma RunShrinks(s: seq<Entry>, i: int, n: int)
    requires IsRun(s, i, n + 1) && i < n
    ensures IsRun(s, i, n) && s[n - 1].completed && Day(s[n]) == Day(s[n - 1]) + 1
  {
  }

  /**
   * The state of the longest-streak pass after the first `n` entries: `current` is
   * the length of the longest run ending just before position `n`, and `longest` is
   * the length of the longest run among the first `n` entries.
   */
  ghost predicate LongestSoFar(s: seq<Entry>, n: int, current: nat, longest: nat) {
    && 0 <= n <= |s|
    && current <= longest && current <= n
    && (current > 0 <==> n > 0 && s[n - 1].completed)
    && (current > 0 ==> IsRun(s, n - current, n))
    && (forall i :: 0 <= i < n && IsRun(s, i, n) ==> n - i <= current)
    && (forall i, j :: 0 <= i < j <= n && IsRun(s, i, j) ==> j - i <= longest)
    && (longest > 0 ==> exists i, j :: j <= n && IsRun(s, i, j) && j - i == longest)
  }

  /** The longest run ending at `n + 1` is one longer than the longest run ending at `n`. */
  lemma RunsEndingAt(s: seq<Entry>, n: int, current: nat, longest: nat, next: nat)
    requires LongestSoFar(s, n, current, longest) && n < |s| && s[n].completed
    requires next == if current > 0 && Day(s[n]) == Day(s[n - 1]) + 1 then current + 1 else 1
    ensures var m := n + 1; IsRun(s, m - next, m) && forall i :: 0 <= i < m && IsRun(s, i, m) ==> m - i <= next
  {
    if next > 1 {
      RunExtends(s, n - current, n);
    }
    var m := n + 1;
    forall i | 0 <= i < m && IsRun(s, i, m) ensures m - i <= next {
      if i < n {
        RunShrinks(s, i, n);
      }
    }
  }

  /** A completed entry continues or restarts the current run. */
  lemma CompletedStep(s: seq<Entry>, n: int, current: nat, longest: nat, next: nat)
    requires LongestSoFar(s, n, current, longest) && n < |s| && s[n].completed
    requires next == if current > 0 && Day(s[n]) == Day(s[n - 1]) + 1 then current + 1 else 1
    ensures LongestSoFar(s, n + 1, next, if longest < next then next else longest)
  {
    RunsEndingAt(s, n, current, longest, next);
    var m, best := n + 1, if longest < next then next else longest;
    forall i, j | 0 <= i < j <= m && IsRun(s, i, j) ensures j - i <= best {
    }
    if longest < next {
      assert IsRun(s, m - next, m);
    } else {
      var i, j :| j <= n && IsRun(s, i, j) && j - i == longest;
    }
  }

  /** An explicit miss ends every run. */
  lemma MissedStep(s: seq<Entry>, n: int, current: nat, longest: nat)
    requires LongestSoFar(s, n, current, longest) && n < |s| && !s[n].completed
    ensures LongestSoFar(s, n + 1, 0, longest)
  {
    if longest > 0 {
      var i, j :| j <= n && IsRun(s, i, j) && j - i == longest;
    }
  }

  /** After the whole list, the pass holds the longest streak. */
  lemma LongestEstablished(entries: seq<Entry>, current: nat, longest: nat)
    requires LongestSoFar(OldestFirst(entries), |entries|, current, longest)
    ensures IsLongestStreak(entries, longest)
  {
    var s := OldestFirst(entries);
    forall i, j | IsRun(s, i, j) ensures j - i <= longest {
    }
  }

  /**
   * `getLongestStreak`: one pass over the entries oldest first. A completed entry one
   * day after the previous completed entry extends the run, after any other gap it
   * starts a new run of 1; an explicit miss resets the run to 0 and forgets the
   * previous date.
   */
  method LongestStreak(entries: seq<Entry>) returns (longest: nat)
    ensures entries == [] ==> longest == 0
    ensures IsLongestStreak(entries, longest)
  {
    var s := OldestFirst(entries);
    if |entries| == 0 {
      LongestEstablished(entries, 0, 0);
      return 0;
    }
    longest := 0;
    var current: nat := 0;
    var previous: Option<int> := None;
    for n := 0 to |s|
      invariant LongestSoFar(s, n, current, longest)
      invariant previous == if n > 0 && s[n - 1].completed then Some(s[n - 1].day) else None
    {
      var entry := s[n];
      if entry.completed {
        ghost var before := current;
        if previous.Some? {
          var dayDiff := entry.day - previous.value;
          if dayDiff == 1 {
            current := current + 1;
          } else {
            current := 1;
          }
        } else {
          current := 1;
        }
        CompletedStep(s, n, before, longest, current);
        previous := Some(entry.day);
        longest := if longest < current then current else longest;
      } else {
        MissedStep(s, n, current, longest);
        current := 0;
        previous := None;
      }
    }
    LongestEstablished(entries, current, longest);
  }

  // ----- Properties of the two streaks -----

  /** The current-streak specification admits exactly one value. */
  lemma CurrentStreakUnique(entries: seq<Entry>, today: int, n: nat, m: nat)
    requires IsCurrentStreak(entries, today, n) && IsCurrentStreak(entries, today, m)
    ensures n == m
  {
  }

  /** The longest-streak specification admits exactly one value. */
  lemma LongestStreakUnique(entries: seq<Entry>, n: nat, m: nat)
    requires IsLongestStreak(entries, n) && IsLongestStreak(entries, m)
    ensures n == m
  {
  }

  /**
   * When today is not (yet) marked completed, the current streak is alive exactly
   * when yesterday is completed: an unmarked today never zeroes a streak.
   */
  lemma UnmarkedTodayKeepsStreak(entries: seq<Entry>, today: int, n: nat)
    requires !CompletedOn(NewestFirst(entries), today)
    requires IsCurrentStreak(entries, today, n)
    ensures n > 0 <==> CompletedOn(NewestFirst(entries), today - 1)
  {
  }

  /**
   * A streak that ends with a completed today is still the current streak tomorrow,
   * as long as tomorrow has not been marked completed.
   */
  lemma StreakSurvivesUnmarkedTomorrow(entries: seq<Entry>, today: int, n: nat)
    requires CompletedOn(NewestFirst(entries), today)
    requires !CompletedOn(NewestFirst(entries), today + 1)
    ensures IsCurrentStreak(entries, today, n) <==> IsCurrentStreak(entries, today + 1, n)
  {
    var s := NewestFirst(entries);
    assert Anchor(s, today + 1) == Anchor(s, today);
  }

  /** The longest streak is at least 1 exactly when some entry is completed. */
  lemma LongestPositive(entries: seq<Entry>, n: nat)
    requires IsLongestStreak(entries, n)
    ensures n > 0 <==> exists k :: 0 <= k < |entries| && entries[k].completed
  {
    var s := OldestFirst(entries);
    SortBySpec(entries, Day);
    if n > 0 {
      var i, j :| IsRun(s, i, j) && j - i == n;
      assert s[i] in multiset(entries);
      var k :| 0 <= k < |entries| && entries[k] == s[i];
    }
    if k :| 0 <= k < |entries| && entries[k].completed {
      assert entries[k] in multiset(s);
      var j :| 0 <= j < |s| && s[j] == entries[k];
      assert IsRun(s, j, j + 1);
    }
  }

  /** The longest streak never exceeds the number of completed entries. */
  lemma LongestAtMostCompleted(entries: seq<Entry>, n: nat)
    requires IsLongestStreak(entries, n)
    ensures n <= CountCompleted(entries)
  {
    var s := OldestFirst(entries);
    FilterCountSort(entries, Day, IsCompleted);
    if n > 0 {
      var i, j :| IsRun(s, i, j) && j - i == n;
      assert s == s[..i] + s[i..j] + s[j..];
      FilterAppend(s[..i] + s[i..j], s[j..], IsCompleted);
      FilterAppend(s[..i], s[i..j], IsCompleted);
      assert forall k :: 0 <= k < j - i ==> s[i..j][k] == s[i + k];
      FilterAllPass(s[i..j], IsCompleted);
    }
  }

  /** A completed day has a completed entry at some position of the list. */
  lemma CompletedEntry(s: seq<Entry>, d: int) returns (k: int)
    requires CompletedOn(s, d)
    ensures 0 <= k < |s| && Day(s[k]) == d && s[k].completed
  {
    FindFirstSpec(s, Day, d);
    k :| 0 <= k < |s| && s[k] == FindOn(s, d).value;
  }

  /**
   * In the oldest-first list with one entry per day, the entry dated one day after the
   * entry at position `p - 1` can only be at position `p`.
   */
  lemma NextDayNextPosition(s: seq<Entry>, p: int, k: int)
    requires SortedBy(s, Day) && OnePerDay(s)
    requires 0 < p <= |s| && 0 <= k < |s| && Day(s[k]) == Day(s[p - 1]) + 1
    ensures k == p
  {
    if k > p {
      StrictlyIncreasing(s, p - 1, p);
      StrictlyIncreasing(s, p, k);
    }
  }

  /**
   * In the oldest-first list with one entry per day, `n` consecutive completed days
   * starting at day `lo` sit at `n` consecutive positions and form a run.
   */
  lemma {:induction false} RunOfDays(s: seq<Entry>, lo: int, n: nat) returns (i: int)
    requires SortedBy(s, Day) && OnePerDay(s) && n >= 1
    requires forall d :: lo <= d < lo + n ==> CompletedOn(s, d)
    ensures 0 <= i && i + n <= |s| && IsRun(s, i, i + n) && Day(s[i + n - 1]) == lo + n - 1
  {
    var k := CompletedEntry(s, lo + n - 1);
    if n == 1 {
      i := k;
      assert IsRun(s, k, k + 1);
    } else {
      i := RunOfDays(s, lo, n - 1);
      NextDayNextPosition(s, i + n - 1, k);
      RunExtends(s, i, i + n - 1);
    }
  }

  /** With one entry per day, the current streak is never longer than the longest streak. */
  lemma CurrentAtMostLongest(entries: seq<Entry>, today: int, c: nat, l: nat)
    requires OnePerDay(entries)
    requires IsCurrentStreak(entries, today, c) && IsLongestStreak(entries, l)
    ensures c <= l
  {
    if c > 0 {
      var a := Anchor(NewestFirst(entries), today);
      var s := OldestFirst(entries);
      forall d | a - c + 1 <= d < a - c + 1 + c ensures CompletedOn(s, d) {
        CompletedOnAnyOrder(entries, d);
      }
      SortBySpec(entries, Day);
      SortedViewsOnePerDay(entries);
      var i := RunOfDays(s, a - c + 1, c);
    }
  }

  // ----- Monthly completions -----

  /**
   * `getMonthlyCompletions`: the completed entries among one month's entries (as the
   * storage layer selects them).
   */
  function MonthlyCompletions(monthEntries: seq<Entry>): (count: nat)
    ensures count <= |monthEntries|
    ensures count == 0 <==> forall k :: 0 <= k < |monthEntries| ==> !monthEntries[k].completed
  {
    NoCompletedEntries(monthEntries);
    CountCompleted(monthEntries)
  }
}
