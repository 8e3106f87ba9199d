/**
 * `DatabaseStorage`: the store the server actually uses. Each table is the list of
 * its rows; `nextEntryId` is the serial sequence behind `habit_entries.id`. Queries
 * become filters over the rows, `ORDER BY date` becomes the oldest-first sort.
 */
module DatabaseStore {
  import opened Optional
  import opened Sequences
  import opened Dates
  import opened Entries
  import opened Streaks
  import opened EntryTable
  import opened Habits

  class DatabaseStorage {
    var habits: seq<Habit>
    var habitEntries: seq<Entry>
    var nextEntryId: int

    /** The entries table is well formed. */
    ghost predicate Valid()
      reads this
    {
      WellFormed(habitEntries, nextEntryId)
    }

    constructor ()
      ensures Valid()
      ensures habits == [] && habitEntries == [] && nextEntryId == 1
    {
      habits := [];
      habitEntries := [];
      nextEntryId := 1;
    }

    /**
     * `deleteHabit`: delete the habit's entries, then the habit rows with that id;
     * the result says whether the second delete returned a row.
     */
    method DeleteHabit(id: int) returns (deleted: bool)
      requires Valid()
      modifies this
      ensures Valid()
      ensures deleted <==> exists k :: 0 <= k < |old(habits)| && old(habits)[k].id == id
      ensures habits == Filter(old(habits), OtherHabitId(id))
      ensures habitEntries == WithoutHabit(old(habitEntries), id)
      ensures nextEntryId == old(nextEntryId)
    {
      WithoutHabitWellFormed(habitEntries, nextEntryId, id);
      habitEntries := WithoutHabit(habitEntries, id);
      var result := Filter(habits, HasId(id));
      if result != [] {
        FilterSpec(habits, HasId(id), result[0]);
      }
      forall k | 0 <= k < |habits| && habits[k].id == id ensures result != [] {
        FilterSpec(habits, HasId(id), habits[k]);
      }
      habits := Filter(habits, OtherHabitId(id));
      deleted := |result| > 0;
    }

    /** `getHabitEntries`: `where habitId = ? order by date asc`. */
    function GetHabitEntries(habitId: int): (r: seq<Entry>)
      reads this
      ensures SortedBy(r, Day)
      ensures forall x :: x in r <==> x in habitEntries && x.habitId == habitId
    {
      HabitEntriesSpec(habitEntries, habitId);
      HabitEntries(habitEntries, habitId)
    }

    /**
     * `getHabitEntriesByMonth`: the habit's entries dated from `new Date(year, month, 1)`
     * to `new Date(year, month + 1, 0)`, both inclusive, oldest first.
     */
    function GetHabitEntriesByMonth(habitId: int, year: int, month: int): (r: seq<Entry>)
      reads this
      ensures SortedBy(r, Day)
      ensures forall x :: x in r <==> x in habitEntries && x.habitId == habitId
                                      && InRange(x, MonthStart(year, month), MonthEnd(year, month))
      ensures 0 <= month < 12 ==> r == MonthEntries(habitEntries, habitId, FullYear(year), month)
    {
      RangeEntriesSpec(habitEntries, habitId, year, month);
      RangeEntries(habitEntries, habitId, year, month)
    }

    /** `getHabitEntry`: `where habitId = ? and date = ?`, the first row. */
    function GetHabitEntry(habitId: int, day: int): (r: Option<Entry>)
      reads this
      ensures r.None? <==> forall k :: 0 <= k < |habitEntries| ==>
                             habitEntries[k].habitId != habitId || habitEntries[k].day != day
      ensures r.Some? ==> r.value in habitEntries && r.value.habitId == habitId && r.value.day == day
    {
      LookupSpec(habitEntries, habitId, day);
      Lookup(habitEntries, habitId, day)
    }

    /**
     * `createHabitEntry`: if the habit has an entry on that day, update its
     * `completed` column by id; otherwise insert a row with the next serial id.
     */
    method CreateHabitEntry(habitId: int, day: int, completed: bool) returns (entry: Entry)
      requires Valid()
      modifies this
      ensures Valid()
      ensures var r := Upsert(old(habitEntries), old(nextEntryId), habitId, day, completed);
        habitEntries == r.table && nextEntryId == r.nextId && entry == r.entry
      ensures habits == old(habits)
    {
      UpsertWellFormed(habitEntries, nextEntryId, habitId, day, completed);
      var existingEntry := GetHabitEntry(habitId, day);
      if existingEntry.Some? {
        entry := existingEntry.value.(completed := completed);
        habitEntries := Replace(habitEntries, entry);
        return;
      }
      entry := Entry(nextEntryId, habitId, day, completed);
      nextEntryId := nextEntryId + 1;
      habitEntries := habitEntries + [entry];
    }

    /** `getCurrentStreak` of a habit, with the reference day passed in. */
    method GetCurrentStreak(habitId: int, today: int) returns (streak: nat)
      ensures IsCurrentStreak(GetHabitEntries(habitId), today, streak)
    {
      var entries := GetHabitEntries(habitId);
      streak := CurrentStreak(entries, today);
    }

    /** `getLongestStreak` of a habit. */
    method GetLongestStreak(habitId: int) returns (longest: nat)
      ensures IsLongestStreak(GetHabitEntries(habitId), longest)
    {
      var entries := GetHabitEntries(habitId);
      longest := LongestStreak(entries);
    }

    /**
     * `getMonthlyCompletions`: the habit's completed entries dated in the month's
     * range; for a month in 0..11, those dated in that month of the widened year (a
     * year from 0 to 99 means 1900 + year), the count the in-memory store gives for
     * the widened year.
     */
    method GetMonthlyCompletions(habitId: int, year: int, month: int) returns (count: nat)
      ensures count == CountCompleted(Filter(habitEntries, InHabitRange(habitId, MonthStart(year, month), MonthEnd(year, month))))
      ensures 0 <= month < 12 ==>
                count == CountCompleted(Filter(habitEntries, InHabitMonth(habitId, FullYear(year), month)))
      ensures count <= |GetHabitEntriesByMonth(habitId, year, month)|
    {
      var entries := GetHabitEntriesByMonth(habitId, year, month);
      count := MonthlyCompletions(entries);
      var startDate, endDate := MonthStart(year, month), MonthEnd(year, month);
      MonthCountInTableOrder(Filter(habitEntries, InHabitRange(habitId, startDate, endDate)));
      if 0 <= month < 12 {
        MonthRangeSelectsMonth(habitEntries, habitId, year, month);
      }
    }
  }
}
