/**
 * `MemStorage`: the in-memory store. Habits live in a map keyed by id; entries live
 * in a JavaScript `Map` keyed by entry id, whose values iterate in insertion order,
 * modelled as the list of its values in that order. Ids come from counters that
 * start at 1.
 */
module InMemoryStore {
  import opened Optional
  import opened Sequences
  import opened Entries
  import opened Streaks
  import opened EntryTable
  import opened Habits

  /** Every habit is stored under its own id, and ids are below the counter. */
  ghost predicate KeyedById(habits: map<int, Habit>, counter: int) {
    forall id :: id in habits ==> habits[id].id == id && 1 <= id < counter
  }

  /** Removing a habit keeps the rest keyed by id. */
  lemma KeyedByIdRemove(habits: map<int, Habit>, counter: int, id: int)
    requires KeyedById(habits, counter)
    ensures KeyedById(habits - {id}, counter)
  {
  }

  class MemStorage {
    var habits: map<int, Habit>
    var habitEntries: seq<Entry>
    var habitIdCounter: int
    var entryIdCounter: int

    /** Habits are stored under their own id, ids are below the counters, and the entries table is well formed. */
    ghost predicate Valid()
      reads this
    {
      && 1 <= habitIdCounter
      && KeyedById(habits, habitIdCounter)
      && WellFormed(habitEntries, entryIdCounter)
    }

    constructor ()
      ensures Valid()
      ensures habits == map[] && habitEntries == []
      ensures habitIdCounter == 1 && entryIdCounter == 1
    {
      habits := map[];
      habitEntries := [];
      habitIdCounter := 1;
      entryIdCounter := 1;
    }

    /** `createHabit`: the next id, the given fields and the creation day `today`. */
    method CreateHabit(input: NewHabit, today: int) returns (habit: Habit)
      requires Valid()
      modifies this
      ensures Valid()
      ensures habit == Habit(old(habitIdCounter), input.name, input.reminderTime, today)
      ensures habit.id !in old(habits)
      ensures habits == old(habits)[habit.id := habit]
      ensures habitIdCounter == old(habitIdCounter) + 1
      ensures habitEntries == old(habitEntries) && entryIdCounter == old(entryIdCounter)
    {
      var id := habitIdCounter;
      habitIdCounter := habitIdCounter + 1;
      habit := Habit(id, input.name, input.reminderTime, today);
      habits := habits[id := habit];
    }

    /** `updateHabit`: merge the changes into an existing habit; nothing for an unknown id. */
    method UpdateHabit(id: int, changes: HabitChanges) returns (updated: Option<Habit>)
      requires Valid()
      modifies this
      ensures Valid()
      ensures id !in old(habits) ==> updated == None && habits == old(habits)
      ensures id in old(habits) ==>
                updated == Some(Merge(old(habits)[id], changes)) && habits == old(habits)[id := updated.value]
      ensures habitEntries == old(habitEntries)
      ensures habitIdCounter == old(habitIdCounter) && entryIdCounter == old(entryIdCounter)
    {
      if id !in habits {
        return None;
      }
      var habit := Merge(habits[id], changes);
      habits := habits[id := habit];
      updated := Some(habit);
    }

    /**
     * `deleteHabit`: delete the habit, then delete its entries. Returns whether the
     * habit existed.
     */
    method DeleteHabit(id: int) returns (deleted: bool)
      requires Valid()
      modifies this
      ensures Valid()
      ensures deleted <==> id in old(habits)
      ensures habits == old(habits) - {id}
      ensures habitEntries == WithoutHabit(old(habitEntries), id)
      ensures habitIdCounter == old(habitIdCounter) && entryIdCounter == old(entryIdCounter)
    {
      KeyedByIdRemove(habits, habitIdCounter, id);
      WithoutHabitWellFormed(habitEntries, entryIdCounter, id);
      deleted := id in habits;
      habits := habits - {id};
      DeleteEntriesOf(id);
    }

    /**
     * The second half of `deleteHabit`: walk a snapshot of the entries and delete
     * every entry of the habit by its id.
     */
    method DeleteEntriesOf(id: int)
      requires IdsIncreasing(habitEntries)
      modifies this`habitEntries
      ensures habitEntries == WithoutHabit(old(habitEntries), id)
    {
      var entriesArray := habitEntries;
      DeleteStart(entriesArray, id);
      for i := 0 to |entriesArray|
        invariant DeletedUpTo(habitEntries, entriesArray, id, i)
      {
        var entry := entriesArray[i];
        DeleteStep(habitEntries, entriesArray, id, i);
        if entry.habitId == id {
          habitEntries := RemoveId(habitEntries, entry.id);
        }
      }
      DeleteDone(habitEntries, entriesArray, id);
    }

    /** `getHabitEntries`: the habit's entries sorted by date, oldest first. */
    function GetHabitEntries(habitId: int): (r: seq<Entry>)
      reads this
      ensures SortedBy(r, Day)
      ensures forall x :: x in r <==> x in habitEntries && x.habitId == habitId
    {
      HabitEntriesSpec(habitEntries, habitId);
      HabitEntries(habitEntries, habitId)
    }

    /** `getHabitEntriesByMonth`: the habit's entries of that year and month, oldest first. */
    function GetHabitEntriesByMonth(habitId: int, year: int, month: int): (r: seq<Entry>)
      reads this
      ensures SortedBy(r, Day)
      ensures forall x :: x in r <==> x in habitEntries && x.habitId == habitId && InMonth(x, year, month)
    {
      MonthEntriesSpec(habitEntries, habitId, year, month);
      MonthEntries(habitEntries, habitId, year, month)
    }

    /** `getHabitEntry`: the habit's entry on that day, if any. */
    function GetHabitEntry(habitId: int, day: int): (r: Option<Entry>)
      reads this
      ensures r.None? <==> forall k :: 0 <= k < |habitEntries| ==>
                             habitEntries[k].habitId != habitId || habitEntries[k].day != day
      ensures r.Some? ==> r.value in habitEntries && r.value.habitId == habitId && r.value.day == day
    {
      LookupSpec(habitEntries, habitId, day);
      Lookup(habitEntries, habitId, day)
    }

    /**
     * `createHabitEntry`: if the habit has an entry on that day, set its `completed`
     * flag in place and return it; otherwise store a new entry under the next id.
     */
    method CreateHabitEntry(habitId: int, day: int, completed: bool) returns (entry: Entry)
      requires Valid()
      modifies this
      ensures Valid()
      ensures var r := Upsert(old(habitEntries), old(entryIdCounter), habitId, day, completed);
        habitEntries == r.table && entryIdCounter == r.nextId && entry == r.entry
      ensures habits == old(habits) && habitIdCounter == old(habitIdCounter)
    {
      UpsertWellFormed(habitEntries, entryIdCounter, habitId, day, completed);
      var existingEntry := GetHabitEntry(habitId, day);
      if existingEntry.Some? {
        entry := existingEntry.value.(completed := completed);
        habitEntries := Replace(habitEntries, entry);
        return;
      }
      var id := entryIdCounter;
      entryIdCounter := entryIdCounter + 1;
      entry := Entry(id, habitId, day, completed);
      habitEntries := habitEntries + [entry];
    }

    /** `getCurrentStreak` of a habit, with the reference day passed in. */
    method GetCurrentStreak(habitId: int, today: int) returns (streak: nat)
      ensures IsCurrentStreak(GetHabitEntries(habitId), today, streak)
    {
      var entries := GetHabitEntries(habitId);
      streak := CurrentStreak(entries, today);
    }

    /** `getLongestStreak` of a habit. */
    method GetLongestStreak(habitId: int) returns (longest: nat)
      ensures IsLongestStreak(GetHabitEntries(habitId), longest)
    {
      var entries := GetHabitEntries(habitId);
      longest := LongestStreak(entries);
    }

    /**
     * `getMonthlyCompletions`: the habit's completed entries dated in that year and
     * month, which is at most the number of that month's entries.
     */
    method GetMonthlyCompletions(habitId: int, year: int, month: int) returns (count: nat)
      ensures count == CountCompleted(Filter(habitEntries, InHabitMonth(habitId, year, month)))
      ensures count <= |GetHabitEntriesByMonth(habitId, year, month)|
    {
      var entries := GetHabitEntriesByMonth(habitId, year, month);
      count := MonthlyCompletions(entries);
      MonthCountInTableOrder(Filter(habitEntries, InHabitMonth(habitId, year, month)));
    }
  }
}
