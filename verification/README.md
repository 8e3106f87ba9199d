# DailyTrackerPro — the habit store and its streak engine, in Dafny

DailyTrackerPro tracks one daily habit. Each day the user marks the habit done or
not done, and this creates a habit entry: an id, the habit's id, a date and a
`completed` flag. The server keeps habits and entries in one of two stores:

- `MemStorage`, an in-memory store of `Map`s with id counters;
- `DatabaseStorage`, over two SQL tables. This is the store the server uses.

From a habit's entries both stores compute three numbers:

- the **current streak**, counted back from today, or from yesterday while today is not yet marked;
- the **longest streak**, the longest run of consecutive completed days;
- the **monthly completions**, completed entries in one month.

The client draws a month grid of the entries, shows reminder times on a 12-hour
clock, and checks the habit name before saving it.

The model covers the following:

- **Dates** (`Dates`). Proleptic Gregorian dates `Date(year, month, day)` with a zero-based month, as in JavaScript. Each date has a day number (`Ordinal`). Covered:
  - the leap-year rule and the days in each month;
  - JavaScript's normalising `new Date(y, m, d)` (`MakeDate`), which reads a year from 0 to 99 as 1900 to 1999;
  - the first of a month, and "day 0 of the next month", which is the month's last day;
  - the weekday.
- **Entries and the streak engine** (`Entries`, `Streaks`). An entry's date is its day number. Covered:
  - the date-sorted views of a habit's entries;
  - `getCurrentStreak` and `getLongestStreak` as methods with their loops;
  - `getMonthlyCompletions`.

  Each streak method is proved against a declarative definition: `IsCurrentStreak`, or `IsLongestStreak` (the longest run).
- **The entries table** (`EntryTable`). The table is a sequence of rows in insertion order. Covered:
  - the upsert that `createHabitEntry` performs;
  - the cascade delete of a habit's entries;
  - the habit and month queries. For the years JavaScript writes with four digits (0 to 9999), the database's month range and the in-memory month test select the same entries, except for the year reading above, which `EntryTable.ShortYearsDiffer` exhibits.

  Every operation keeps the invariant "ids increase and are below the counter, one entry per habit and day".
- **The two stores** (`InMemoryStore.MemStorage`, `DatabaseStore.DatabaseStorage`). These are classes whose methods update their fields as the source does. `MemStorage.deleteHabit` keeps its loop over a snapshot of the entries.
- **The calendar grid** (`CalendarGrid`). `getCalendarDays` is a method with its loop and early `break`. It is proved against the cell each day should get and the grid length.
- **The time formatter** (`TimeFormat`). `formatTime`, with `split`, `parseInt`, JavaScript's `%` and the falsy `|| 12` written out.
- **The habit form** (`HabitForm`). The state of the definition form, `handleSubmit`'s validation decision, and the two input handlers. JavaScript's `trim` and UTF-16 `length` are written out.

Some things the source gets from its environment become parameters:

- "today" is a day-number parameter;
- a habit's creation date is a parameter of `CreateHabit`.

The model uses one calendar throughout. It does not reproduce the gap between local midnight and the UTC date string that the source mixes (see "## Left out").

## Model

| member | source | states |
|---|---|---|
| Dates.DaysInMonth | DailyTrackerPro/server/dbStorage.ts:87 | a month has 28 to 31 days; February has 29 exactly in a leap year and 28 otherwise |
| Dates.OrdinalMonotone | DailyTrackerPro/server/dbStorage.ts:95-96 | comparing dates as YYYY-MM-DD text agrees with comparing their day numbers |
| Dates.OrdinalInjective | DailyTrackerPro/server/dbStorage.ts:95-96 | two valid dates are equal exactly when their day numbers are |
| Dates.NextDay | DailyTrackerPro/client/src/lib/dateUtils.ts:58 | `addDays(d, 1)` gives a valid date whose day number is one more |
| Dates.PrevDay | DailyTrackerPro/server/storage.ts:200 | `setDate(getDate() - 1)` gives a valid date whose day number is one less |
| Dates.AddDaysSpec | DailyTrackerPro/client/src/lib/dateUtils.ts:58 | moving k days gives a valid date whose day number is k more |
| Dates.DateOfSpec | DailyTrackerPro/client/src/lib/dateUtils.ts:51-53 | every day number is the day number of a valid date |
| Dates.DateOfOrdinal | DailyTrackerPro/client/src/lib/dateUtils.ts:51-53 | converting a date to its day number and back gives the date |
| Dates.MakeDate | DailyTrackerPro/server/dbStorage.ts:86-87 | `new Date(y, m, d)` is a valid date `d - 1` days after the first of month `m`, counted from the year `y` (read as 1900 + y for y in 0..99) with the month carried into it |
| Dates.FirstOfMonth | DailyTrackerPro/server/dbStorage.ts:86 | for a month in 0..11, `new Date(year, month, 1)` is the 1st of that month, in year 1900 + year when year is in 0..99 and in `year` otherwise |
| Dates.LastOfMonth | DailyTrackerPro/server/dbStorage.ts:87 | for a month in 0..11, `new Date(year, month + 1, 0)` is the last day of that month of the same widened year |
| Dates.MonthBounds | DailyTrackerPro/server/dbStorage.ts:86-87 | for a month in 0..11, the range runs from the 1st to the last day of that month of the widened year |
| Dates.DayBeforeNextMonth | DailyTrackerPro/server/dbStorage.ts:87 | "day 0 of month + 1" is the day just before the 1st of the next month, including December to January |
| Dates.MonthBoundsNormalise | DailyTrackerPro/server/dbStorage.ts:86-87 | for any month number, the range is the first and last day of month `month mod 12` of the widened year plus `month div 12` |
| Dates.InMonthSpan | DailyTrackerPro/client/src/lib/dateUtils.ts:24-25 | a date lies between a month's first and last day exactly when it has that year and month |
| Dates.InMonthRange | DailyTrackerPro/server/dbStorage.ts:95-96 | a date lies inside the database's month range exactly when it has that month and the widened year |
| Dates.EpochIsThursday | DailyTrackerPro/client/src/lib/dateUtils.ts:26 | the weekday count puts 1 January 1970 on a Thursday |
| Dates.WeekdayAdvances | DailyTrackerPro/client/src/lib/dateUtils.ts:58 | the next day's weekday is the following weekday, modulo 7 |
| Sequences.SortBySpec | DailyTrackerPro/server/storage.ts:123 | the sort returns the same entries, reordered, in ascending key order |
| Sequences.SortIsIdentityOnSorted | DailyTrackerPro/server/storage.ts:226-228 | sorting an already sorted list changes nothing |
| Sequences.FilterSpec | DailyTrackerPro/server/storage.ts:122 | `filter` keeps exactly the elements that pass |
| Sequences.FindFirstSpec | DailyTrackerPro/server/storage.ts:192-196 | `find` fails exactly when no element has the key, and otherwise returns an element with it |
| Sequences.FindIsFirst | DailyTrackerPro/server/storage.ts:207-210 | `find` returns the first element with the key |
| Sequences.FindPermutation | DailyTrackerPro/server/storage.ts:180-182 | with distinct keys, reordering a list does not change what `find` returns |
| Entries.NoCompletedEntries | DailyTrackerPro/server/storage.ts:269 | the completed count is 0 exactly when no entry is completed |
| Entries.CompletedOnAnyOrder | DailyTrackerPro/server/storage.ts:180-182 | with one entry per day, whether a day is completed does not depend on the sort order searched |
| Entries.SortedViewsOnePerDay | DailyTrackerPro/server/storage.ts:180-182 | both sorted views keep one entry per day |
| Entries.StrictlyIncreasing | DailyTrackerPro/server/storage.ts:226-228 | in the oldest-first view with one entry per day, dates strictly increase |
| Entries.RangeIsMonth | DailyTrackerPro/server/dbStorage.ts:85-99 | for a month in 0..11, the inclusive date range selects exactly the entries dated in that month of the widened year |
| Streaks.Anchor | DailyTrackerPro/server/storage.ts:192-201 | counting starts today if today's entry is completed; otherwise yesterday, whether today has no entry or a false one |
| Streaks.LowestDay | DailyTrackerPro/server/storage.ts:204-216 | the walk's lower bound: no entry is dated before it |
| Streaks.NoEntriesNoStreak | DailyTrackerPro/server/storage.ts:177 | with no entries the current streak is 0 |
| Streaks.CompletedBetweenExtends | DailyTrackerPro/server/storage.ts:212-215 | a completed day just below a completed stretch extends it |
| Streaks.StreakEstablished | DailyTrackerPro/server/storage.ts:204-216 | the walk stops at the first day that is missing or false, and its count is the current streak |
| Streaks.CurrentStreak | DailyTrackerPro/server/storage.ts:175-219 | `getCurrentStreak` returns 0 for no entries, and otherwise the number of consecutive completed days ending at the anchor |
| Streaks.RunExtends | DailyTrackerPro/server/storage.ts:243-245 | a completed entry one day after the run's last entry extends the run |
| Streaks.RunShrinks | DailyTrackerPro/server/storage.ts:243-245 | a run of two or more ends with a consecutive pair of completed entries |
| Streaks.RunsEndingAt | DailyTrackerPro/server/storage.ts:235-256 | after a completed entry the running count is the longest run ending at that entry |
| Streaks.CompletedStep | DailyTrackerPro/server/storage.ts:235-256 | a completed entry one day after the previous completed one extends the run; after any other gap it restarts at 1; the best count becomes the maximum |
| Streaks.MissedStep | DailyTrackerPro/server/storage.ts:257-261 | a false entry resets the run to 0 and forgets the previous date, keeping the best count |
| Streaks.LongestEstablished | DailyTrackerPro/server/storage.ts:234-264 | after the whole pass the best count is the longest run |
| Streaks.LongestStreak | DailyTrackerPro/server/storage.ts:221-265 | `getLongestStreak` returns 0 for no entries, and otherwise the length of the longest run of completed entries on consecutive days |
| Streaks.CurrentStreakUnique | DailyTrackerPro/server/storage.ts:175-219 | the current-streak definition admits exactly one value |
| Streaks.LongestStreakUnique | DailyTrackerPro/server/storage.ts:221-265 | the longest-streak definition admits exactly one value |
| Streaks.UnmarkedTodayKeepsStreak | DailyTrackerPro/server/storage.ts:198-201 | when today is not marked completed, the streak is positive exactly when yesterday is completed |
| Streaks.StreakSurvivesUnmarkedTomorrow | DailyTrackerPro/server/storage.ts:198-201 | a streak ending on a completed today is still the current streak tomorrow while tomorrow is unmarked |
| Streaks.LongestPositive | DailyTrackerPro/server/storage.ts:234-262 | the longest streak is at least 1 exactly when some entry is completed |
| Streaks.LongestAtMostCompleted | DailyTrackerPro/server/storage.ts:234-262 | the longest streak never exceeds the number of completed entries |
| Streaks.CompletedEntry | DailyTrackerPro/server/storage.ts:207-212 | a completed day has a completed entry at some position |
| Streaks.NextDayNextPosition | DailyTrackerPro/server/storage.ts:226-228 | in the sorted list, the entry one day after position p - 1 can only be at position p |
| Streaks.RunOfDays | DailyTrackerPro/server/storage.ts:234-262 | n consecutive completed days sit at n consecutive positions of the sorted list and form a run |
| Streaks.CurrentAtMostLongest | DailyTrackerPro/server/storage.ts:204-216 | with one entry per day, the current streak never exceeds the longest streak |
| Streaks.MonthlyCompletions | DailyTrackerPro/server/storage.ts:267-270 | the month's count is at most the number of the month's entries, and 0 exactly when none is completed |
| EntryTable.Replace | DailyTrackerPro/server/storage.ts:154 | `Map.set` on an existing id keeps the number of rows |
| EntryTable.HabitRowsSpec | DailyTrackerPro/server/storage.ts:122 | a habit's rows are exactly the table's rows with that habit id |
| EntryTable.HabitRowsOnePerDay | DailyTrackerPro/server/storage.ts:120-124 | in a well-formed table a habit's rows have one entry per day |
| EntryTable.SelectedOldestFirst | DailyTrackerPro/server/storage.ts:121-123 | filtering then sorting by date returns the rows that pass, each as often as stored, in ascending date order |
| EntryTable.HabitEntriesSpec | DailyTrackerPro/server/storage.ts:120-124 | `getHabitEntries` returns exactly the habit's rows, each as often as stored, in ascending date order |
| EntryTable.HabitEntriesOnePerDay | DailyTrackerPro/server/storage.ts:120-124 | in a well-formed table `getHabitEntries` has one entry per day |
| EntryTable.LookupSpec | DailyTrackerPro/server/storage.ts:137-145 | `getHabitEntry` finds an entry exactly when the habit has one on that day, and then it is that habit's entry for that day |
| EntryTable.LookupPosition | DailyTrackerPro/server/storage.ts:137-145 | the entry found sits at one position of the table, and no other row has its id |
| EntryTable.LookupUnique | DailyTrackerPro/server/storage.ts:137-145 | in a well-formed table, looking up a row's habit and day finds that row |
| EntryTable.UpsertExisting | DailyTrackerPro/server/storage.ts:151-156 | an existing (habit, day) keeps its id, position and the row count; only `completed` changes, no id is consumed |
| EntryTable.UpsertNew | DailyTrackerPro/server/storage.ts:158-162 | a new (habit, day) appends one row with the next id, and the counter goes up by one |
| EntryTable.UpsertWellFormed | DailyTrackerPro/server/storage.ts:147-163 | the upsert keeps ids increasing and below the counter, and one entry per habit and day |
| EntryTable.UpsertThenLookup | DailyTrackerPro/server/storage.ts:147-163 | after the upsert, looking up that habit and day returns the upserted entry with the new flag |
| EntryTable.SecondUpsertOverwrites | DailyTrackerPro/server/dbStorage.ts:118-130 | a second upsert of the same habit and day adds no row and keeps the entry's id |
| EntryTable.WithoutHabitSpec | DailyTrackerPro/server/dbStorage.ts:63-65 | the cascade keeps exactly the rows of other habits |
| EntryTable.DeletedHabitHasNoEntries | DailyTrackerPro/server/dbStorage.ts:61-74 | after the cascade the deleted habit has no entries |
| EntryTable.DeleteKeepsOtherHabits | DailyTrackerPro/server/dbStorage.ts:61-74 | the cascade leaves every other habit's rows unchanged and in order |
| EntryTable.WithoutHabitWellFormed | DailyTrackerPro/server/dbStorage.ts:63-65 | the cascade keeps the table well formed |
| EntryTable.FilterKeepsWellFormed | DailyTrackerPro/server/storage.ts:112 | removing any rows keeps the table well formed |
| EntryTable.IdsBelow | DailyTrackerPro/server/storage.ts:110-113 | every row kept from those already visited has an id below the current row's, so deleting the current id leaves them all |
| EntryTable.RemoveFirstOfRest | DailyTrackerPro/server/storage.ts:112 | deleting the current row's id from the unvisited rows removes exactly that row |
| EntryTable.DeleteStart | DailyTrackerPro/server/storage.ts:109 | before the loop the snapshot is the table and nothing is filtered |
| EntryTable.DeleteStep | DailyTrackerPro/server/storage.ts:110-113 | deleting a row of the habit by id, or skipping another habit's row, filters one more snapshot row |
| EntryTable.DeleteDone | DailyTrackerPro/server/storage.ts:108-114 | after the loop the table is the snapshot without the habit's rows |
| EntryTable.MonthRangeSelectsMonth | DailyTrackerPro/server/dbStorage.ts:85-99 | for a month in 0..11 the database's inclusive range selects the same rows as the in-memory year-and-month test applied to the widened year |
| EntryTable.ShortYearsDiffer | DailyTrackerPro/server/dbStorage.ts:86-87 | for a year from 0 to 99, an entry of that habit, year and month is in the in-memory month but outside the database's range |
| EntryTable.MonthEntriesSpec | DailyTrackerPro/server/storage.ts:126-135 | the in-memory month query returns exactly the habit's entries of that year and month, in ascending date order |
| EntryTable.RangeEntriesSpec | DailyTrackerPro/server/dbStorage.ts:85-100 | the database month query returns exactly the habit's entries inside the range, in ascending date order; for a month in 0..11 it equals the in-memory query for the widened year |
| EntryTable.MonthEntriesOfHabitEntries | DailyTrackerPro/server/storage.ts:120-135 | in a well-formed table a month's entries are one per day and are `getHabitEntries` with the other months filtered out |
| EntryTable.MonthEntriesAtMostDays | DailyTrackerPro/server/storage.ts:126-135 | in a well-formed table a habit has at most as many entries, and completions, in a month as the month has days |
| EntryTable.MonthOutOfRangeSelectsNothing | DailyTrackerPro/server/storage.ts:126-133 | the in-memory month test selects nothing for a month outside 0..11 |
| EntryTable.StoredCurrentAtMostLongest | DailyTrackerPro/server/storage.ts:175-265 | for any habit of a well-formed table, current streak ≤ longest streak |
| EntryTable.MonthCountInTableOrder | DailyTrackerPro/server/storage.ts:267-270 | counting the month's completions on the sorted list equals counting them in table order |
| Habits.Merge | DailyTrackerPro/server/storage.ts:99 | the merge keeps id and creation date, takes each given field, and keeps every field not given |
| InMemoryStore.KeyedByIdRemove | DailyTrackerPro/server/storage.ts:106 | deleting a key keeps every habit stored under its own id |
| InMemoryStore.MemStorage.constructor | DailyTrackerPro/server/storage.ts:46-53 | a fresh store is empty, with both counters at 1 |
| InMemoryStore.MemStorage.CreateHabit | DailyTrackerPro/server/storage.ts:82-93 | the new habit gets the counter's id, not yet in use, which then goes up by one; nothing else changes |
| InMemoryStore.MemStorage.UpdateHabit | DailyTrackerPro/server/storage.ts:95-102 | an unknown id returns nothing and changes nothing; a known id stores and returns the merged habit |
| InMemoryStore.MemStorage.DeleteHabit | DailyTrackerPro/server/storage.ts:104-117 | removes the habit and all of its entries, keeps all else, and returns whether the habit existed |
| InMemoryStore.MemStorage.DeleteEntriesOf | DailyTrackerPro/server/storage.ts:108-114 | the loop over the snapshot leaves exactly the entries of other habits, in order |
| InMemoryStore.MemStorage.CreateHabitEntry | DailyTrackerPro/server/storage.ts:147-163 | the table, counter and returned entry are the upsert's, and the habits are unchanged |
| InMemoryStore.MemStorage.GetCurrentStreak | DailyTrackerPro/server/storage.ts:175-219 | the result is the current streak of the habit's entries |
| InMemoryStore.MemStorage.GetLongestStreak | DailyTrackerPro/server/storage.ts:221-265 | the result is the longest streak of the habit's entries |
| InMemoryStore.MemStorage.GetHabitEntries | DailyTrackerPro/server/storage.ts:120-124 | the result is in ascending date order and holds exactly the habit's entries |
| InMemoryStore.MemStorage.GetHabitEntriesByMonth | DailyTrackerPro/server/storage.ts:126-135 | the result is in ascending date order and holds exactly the habit's entries dated in that year and month |
| InMemoryStore.MemStorage.GetHabitEntry | DailyTrackerPro/server/storage.ts:137-145 | nothing exactly when the habit has no entry that day; otherwise a stored entry of that habit and day |
| InMemoryStore.MemStorage.GetMonthlyCompletions | DailyTrackerPro/server/storage.ts:267-270 | the count of the habit's completed entries in that year and month, at most that month's entry count |
| DatabaseStore.DatabaseStorage.constructor | DailyTrackerPro/server/dbStorage.ts:16 | a fresh store has empty tables and the entry serial at 1 |
| DatabaseStore.DatabaseStorage.DeleteHabit | DailyTrackerPro/server/dbStorage.ts:61-74 | deletes the habit's entries and habit rows, and returns true exactly when a habit row was deleted |
| DatabaseStore.DatabaseStorage.GetHabitEntries | DailyTrackerPro/server/dbStorage.ts:77-83 | the result is in ascending date order and holds exactly the habit's entries |
| DatabaseStore.DatabaseStorage.GetHabitEntriesByMonth | DailyTrackerPro/server/dbStorage.ts:85-100 | the result is in ascending date order and holds exactly the habit's entries from the month's first to last day; for a month in 0..11 it is the in-memory query's result for the widened year |
| DatabaseStore.DatabaseStorage.GetHabitEntry | DailyTrackerPro/server/dbStorage.ts:102-116 | nothing exactly when the habit has no row that day; otherwise a stored row of that habit and day |
| DatabaseStore.DatabaseStorage.CreateHabitEntry | DailyTrackerPro/server/dbStorage.ts:118-139 | the same upsert as the in-memory store: an update of `completed` by id, or an insert with the next serial id |
| DatabaseStore.DatabaseStorage.GetCurrentStreak | DailyTrackerPro/server/dbStorage.ts:152-196 | the result is the current streak of the habit's entries |
| DatabaseStore.DatabaseStorage.GetLongestStreak | DailyTrackerPro/server/dbStorage.ts:198-242 | the result is the longest streak of the habit's entries |
| DatabaseStore.DatabaseStorage.GetMonthlyCompletions | DailyTrackerPro/server/dbStorage.ts:244-247 | for every month, the count of the habit's completed entries dated from the month's first to its last day (the range `getHabitEntriesByMonth` queries); for a month in 0..11, the in-memory year-and-month count for the widened year (1900 + year for a year in 0..99); always at most that range's entry count |
| CalendarGrid.GridStartsOnSunday | DailyTrackerPro/client/src/lib/dateUtils.ts:26 | the grid starts on a Sunday, 0 to 6 days before the 1st |
| CalendarGrid.MonthSpan | DailyTrackerPro/client/src/lib/dateUtils.ts:24-25 | a month runs 28 to 31 days from its first to its last day |
| CalendarGrid.GridShape | DailyTrackerPro/client/src/lib/dateUtils.ts:32 | the grid is one to six whole weeks, reaches the month's last day, and its last week does not lie wholly after it |
| CalendarGrid.BreaksAtGridLength | DailyTrackerPro/client/src/lib/dateUtils.ts:60-63 | the break first fires after exactly the grid's length of cells |
| CalendarGrid.CellsFromExtend | DailyTrackerPro/client/src/lib/dateUtils.ts:50-58 | pushing the next day's cell keeps the cells consecutive days |
| CalendarGrid.GetCalendarDays | DailyTrackerPro/client/src/lib/dateUtils.ts:23-67 | the cells are the consecutive days from the Sunday on or before the 1st, as many as the grid length |
| CalendarGrid.CurrentMonthCells | DailyTrackerPro/client/src/lib/dateUtils.ts:53 | `isCurrentMonth` holds exactly for the days of the displayed month |
| CalendarGrid.MonthDaysInGrid | DailyTrackerPro/client/src/lib/dateUtils.ts:32 | every day of the displayed month has a cell |
| CalendarGrid.MonthCellDayNumber | DailyTrackerPro/client/src/lib/dateUtils.ts:52 | a cell of the displayed month shows its day of the month |
| CalendarGrid.StatusFromEntries | DailyTrackerPro/client/src/lib/dateUtils.ts:34-48 | completed exactly for a completed entry that day, missed for a false one, future for no entry after today, pending otherwise |
| TimeFormat.Split | DailyTrackerPro/client/src/lib/dateUtils.ts:7 | `split` returns at least one piece |
| TimeFormat.SplitJoin | DailyTrackerPro/client/src/lib/dateUtils.ts:7 | joining the pieces with the separator gives the string back |
| TimeFormat.SplitPiecesFree | DailyTrackerPro/client/src/lib/dateUtils.ts:7 | no piece holds the separator |
| TimeFormat.SplitWithoutSeparator | DailyTrackerPro/client/src/lib/dateUtils.ts:7 | a string without ':' is one piece, so the minutes are `undefined` |
| TimeFormat.SplitAfterPrefix | DailyTrackerPro/client/src/lib/dateUtils.ts:7 | a prefix without the separator lengthens the first piece only |
| TimeFormat.SplitPair | DailyTrackerPro/client/src/lib/dateUtils.ts:7 | "a:b" splits into a and b |
| TimeFormat.DigitRun | DailyTrackerPro/client/src/lib/dateUtils.ts:8 | `parseInt` reads the longest run of leading digits |
| TimeFormat.ParseInt | DailyTrackerPro/client/src/lib/dateUtils.ts:8 | `parseInt` gives `NaN` exactly when no digit follows the optional sign |
| TimeFormat.ParseIntNoDigits | DailyTrackerPro/client/src/lib/dateUtils.ts:8 | a text starting with neither a digit nor a sign reads as `NaN` |
| TimeFormat.ShowNat | DailyTrackerPro/client/src/lib/dateUtils.ts:12 | a number's text is nonempty digits, one digit exactly below 10 |
| TimeFormat.ShowNatValue | DailyTrackerPro/client/src/lib/dateUtils.ts:12 | the digits shown read back as the number |
| TimeFormat.ParseShowNat | DailyTrackerPro/client/src/lib/dateUtils.ts:8 | `parseInt` of a number's text is the number |
| TimeFormat.Remainder12 | DailyTrackerPro/client/src/lib/dateUtils.ts:10 | `% 12` keeps the dividend's sign, lies strictly between -12 and 12, and is Euclidean for non-negative hours |
| TimeFormat.Hour12 | DailyTrackerPro/client/src/lib/dateUtils.ts:10 | `hour % 12 \|\| 12` is never 0; it is 1..12 and congruent to the hour for hours ≥ 0; it is 12 for `NaN` |
| TimeFormat.FormatTime | DailyTrackerPro/client/src/lib/dateUtils.ts:4-13 | the text is empty exactly for null or empty input |
| TimeFormat.ClockHour | DailyTrackerPro/client/src/lib/dateUtils.ts:9-10 | hours 0..23: 0 shows 12, 13..23 lose 12; AM before 12, PM from 12 |
| TimeFormat.FormatWellFormed | DailyTrackerPro/client/src/lib/dateUtils.ts:4-13 | "HH:MM" gives the 12-hour hour, ':', the minutes unchanged, and AM or PM |
| TimeFormat.SplitLeadingSeparator | DailyTrackerPro/client/src/lib/dateUtils.ts:7 | a leading ':' splits off an empty first piece |
| TimeFormat.SplitTriple | DailyTrackerPro/client/src/lib/dateUtils.ts:7 | "a:b:d" splits into a, b and d |
| TimeFormat.SecondsDropped | DailyTrackerPro/client/src/lib/dateUtils.ts:4-13 | "HH:MM:SS", the form a `time` column reads back in, gives the same text as "HH:MM": the seconds are dropped |
| TimeFormat.HourNotANumber | DailyTrackerPro/client/src/lib/dateUtils.ts:8-10 | an hour part without digits shows "12:… AM" |
| TimeFormat.NoMinutes | DailyTrackerPro/client/src/lib/dateUtils.ts:7-12 | a time without ':' shows "undefined" for the minutes |
| HabitForm.TrimStartSpec | DailyTrackerPro/client/src/components/HabitDefinition.tsx:19 | trimming the front leaves a suffix that is empty exactly for a blank string |
| HabitForm.TrimEndSpec | DailyTrackerPro/client/src/components/HabitDefinition.tsx:19 | trimming the back leaves a prefix that is empty exactly for a blank string |
| HabitForm.TrimSpec | DailyTrackerPro/client/src/components/HabitDefinition.tsx:19 | `!name.trim()` holds exactly for a blank name; otherwise the trimmed text is a piece of the name with no white space at either end |
| HabitForm.Utf16Length | DailyTrackerPro/client/src/components/HabitDefinition.tsx:24 | `length` counts code units: at least one and at most two per character |
| HabitForm.HandleSubmit | DailyTrackerPro/client/src/components/HabitDefinition.tsx:16-30 | saves exactly when the name has a non-white character and is at most 50 code units; a save passes the name untrimmed with the reminder time; a rejection names emptiness for a blank name, otherwise the length |
| HabitForm.AfterSubmit | DailyTrackerPro/client/src/components/HabitDefinition.tsx:19-27 | a submit never changes name or time; a message is shown after a rejection |
| HabitForm.OnNameChange | DailyTrackerPro/client/src/components/HabitDefinition.tsx:50-53 | editing the name takes the new text and clears the message |
| HabitForm.OnTimeChange | DailyTrackerPro/client/src/components/HabitDefinition.tsx:71 | an emptied time input stores null; any other value is stored as given |
| HabitForm.HandlersKeepNoEmptyTime | DailyTrackerPro/client/src/components/HabitDefinition.tsx:13 | the form starts, and stays, without an empty stored time |
| HabitForm.TimeInputRoundTrip | DailyTrackerPro/client/src/components/HabitDefinition.tsx:70-71 | feeding the shown time back through the handler changes nothing |
| HabitForm.SavedNameIsValid | DailyTrackerPro/client/src/components/HabitDefinition.tsx:29 | a saved name is not blank and at most 50 code units |
| HabitForm.BlankBeforeLength | DailyTrackerPro/client/src/components/HabitDefinition.tsx:19-27 | a blank name over 50 code units gets the emptiness message: that check comes first |
| HabitForm.LengthCountsPadding | DailyTrackerPro/client/src/components/HabitDefinition.tsx:24 | every non-blank name longer than 50 code units is rejected as too long |
| HabitForm.PaddedShortNameRejected | DailyTrackerPro/client/src/components/HabitDefinition.tsx:24 | the length is measured untrimmed: "a" plus 50 spaces trims to at most 50 code units and is still rejected as too long |
| HabitForm.EditClearsRejection | DailyTrackerPro/client/src/components/HabitDefinition.tsx:50-53 | after a rejection a message is shown, and editing the name clears it |

## Left out

- HTTP layer (`server/routes.ts`), React components other than the habit form, React Query, toasts: presentation and plumbing around the storage calls.
- SQL and the database driver. `DatabaseStorage` works on its tables as sequences of rows. `ORDER BY date` is modelled as a stable sort of the rows in insertion order; the order SQL gives entries with equal dates is unspecified, and with one entry per habit and day no two of a habit's entries share a date.
- No unique constraint on (habitId, date) exists in the schema. The one-entry-per-day invariant holds because the model's only writer is the upsert.
- The clock. "today" is a day-number parameter (`today`) of the current streak and of the grid, and a habit's `createdAt` is a parameter of `CreateHabit`.
- Time zones and daylight saving. The model uses one calendar, so every date below agrees with day-number arithmetic. The source mixes local and UTC time in these places:
  - it finds today's entry by local midnight but walks by UTC date strings;
  - it takes day differences as `Math.round` of milliseconds;
  - the database month range (`server/dbStorage.ts:86-87`) is `toISOString` of local midnight, which east of UTC is the day before, so the range is one day early;
  - the in-memory month test (`server/storage.ts:128-132`) reads `getFullYear` and `getMonth` in local time from a date string parsed as UTC midnight, which west of UTC puts the 1st of a month in the month before;
  - the calendar grid (`client/src/lib/dateUtils.ts:34-37`) matches an entry to a cell with `isSameDay(new Date(e.date), currentDate)`, which compares a date string parsed as UTC midnight in local time, so west of UTC an entry shows on the cell of the day before.
- JavaScript `Date` objects. A date is a day number. `CalendarDay.day` holds the cell's day number where the source holds a `Date`.
- `date-fns` formatting helpers (`formatCurrentDate`, `formatMonthYear`, `nextMonth`, `previousMonth`, `getTodayFormattedDate`): thin library calls plus the clock.
- `updateHabitEntry`, `getAllHabits`, `getHabit` and the user methods (`getUser`, `getUserByUsername`, `createUser`): not part of the modelled core. The database store's `createHabit` and `updateHabit` are SQL pass-throughs and are left out too.
- Async: every storage method is an ordinary sequential call.
- The `maxLength={50}` attribute of the name input: browser behaviour. The model keeps `handleSubmit`'s own length check, which does not depend on it.
- HabitForm.Utf16Length: assumes Dafny's `char` is a Unicode scalar value and that the browser hands over well-formed text, so lone surrogates are not modelled.
- TimeFormat.ParseInt: `parseInt`'s leading white space, `0x` prefix and loss of precision past 2^53 are not modelled. None of them can change a time input's "HH:MM".
- Dates.MakeDate: gives a valid date for every integer year. A JavaScript `Date` holds only about the years -271821 to 275760; outside them `new Date(year, month, 1)` is an Invalid Date and its `toISOString` throws a `RangeError`. Outside the years 0 to 9999, `toISOString` writes a six-digit signed year such as "+010000-01-01", whose comparison with the `date` column is not modelled.
- DatabaseStore.DatabaseStorage.GetHabitEntriesByMonth: for a year past that bound the source's query rejects with the `RangeError` (`server/dbStorage.ts:86-87`), while the model returns the rows in the range.
- DatabaseStore.DatabaseStorage.GetMonthlyCompletions: for a year past that bound the source rejects with the same `RangeError`, while the model returns a count. Its equality with the year-and-month count is stated only for months 0..11. For other months the database normalises the range, for example month 12 becomes January of the next year (`Dates.MonthBoundsNormalise`), while the in-memory test selects nothing (`EntryTable.MonthOutOfRangeSelectsNothing`).
- Entries of a habit that does not exist: both stores accept them as the source does, and the model does not restrict them.
- `MemStorage`'s entry `Map` is modelled as the sequence of its values in insertion order. This is the order `Array.from(map.values())` gives, since `set` on an existing key keeps its position.
