/**
 * The `habit_entries` table as both storage classes keep it: a list of rows in
 * insertion order, ids handed out by a counter that only grows. The operations
 * here are the pure parts of the entry methods of `MemStorage` and
 * `DatabaseStorage`; the classes apply them to their own fields.
 */
module EntryTable {
  import opened Optional
  import opened Sequences
  import opened Dates
  import opened Entries
  import opened Streaks

  /**
   * The invariant the store keeps: ids start at 1, are below the next id and increase
   * along the table, and no habit has two entries on the same day.
   */
  ghost predicate WellFormed(t: seq<Entry>, nextId: int) {
    && 1 <= nextId
    && (forall k :: 0 <= k < |t| ==> 1 <= t[k].id < nextId)
    && IdsIncreasing(t)
    && (forall i, j :: 0 <= i < j < |t| && t[i].habitId == t[j].habitId ==> t[i].day != t[j].day)
  }

  /** Ids increase along the table, in insertion order. */
  ghost predicate IdsIncreasing(t: seq<Entry>) {
    forall i, j :: 0 <= i < j < |t| ==> t[i].id < t[j].id
  }

  /** `entry => entry.habitId === habitId` */
  function OfHabit(habitId: int): Entry -> bool {
    (e: Entry) => e.habitId == habitId
  }

  /** The rows a cascade delete of `habitId` keeps. */
  function OtherHabit(habitId: int): Entry -> bool {
    (e: Entry) => e.habitId != habitId
  }

  /** The rows `Map.delete(id)` keeps. */
  function OtherId(id: int): Entry -> bool {
    (e: Entry) => e.id != id
  }

  /** The in-memory month test: the habit's entries whose date has this year and month. */
  function InHabitMonth(habitId: int, year: int, month: int): Entry -> bool {
    (e: Entry) => e.habitId == habitId && InMonth(e, year, month)
  }

  /** The database month test: the habit's entries dated from `lo` to `hi` inclusive. */
  function InHabitRange(habitId: int, lo: Date, hi: Date): Entry -> bool
    requires ValidDate(lo) && ValidDate(hi)
  {
    (e: Entry) => e.habitId == habitId && InRange(e, lo, hi)
  }

  /** The habit's rows, in table order. */
  function HabitRows(t: seq<Entry>, habitId: int): seq<Entry> {
    Filter(t, OfHabit(habitId))
  }

  /** `getHabitEntries`: the habit's rows sorted by date, oldest first. */
  function HabitEntries(t: seq<Entry>, habitId: int): seq<Entry> {
    OldestFirst(HabitRows(t, habitId))
  }

  /** `getHabitEntry`: the habit's entry dated `day`, if there is one. */
  function Lookup(t: seq<Entry>, habitId: int, day: int): Option<Entry> {
    FindOn(HabitRows(t, habitId), day)
  }

  /** `entry => new Date(entry.date)` falls in that year and zero-based month. */
  function InMonthOf(year: int, month: int): Entry -> bool {
    (e: Entry) => InMonth(e, year, month)
  }

  /** The in-memory `getHabitEntriesByMonth`: the habit's entries of that year and month, oldest first. */
  function MonthEntries(t: seq<Entry>, habitId: int, year: int, month: int): seq<Entry> {
    OldestFirst(Filter(t, InHabitMonth(habitId, year, month)))
  }

  /**
   * The database `getHabitEntriesByMonth`: the habit's entries dated from
   * `new Date(year, month, 1)` to `new Date(year, month + 1, 0)`, oldest first.
   */
  function RangeEntries(t: seq<Entry>, habitId: int, year: int, month: int): seq<Entry> {
    OldestFirst(Filter(t, InHabitRange(habitId, MonthStart(year, month), MonthEnd(year, month))))
  }

  /** `Map.set(e.id, e)` on an existing key: the row with that id is replaced in place. */
  function Replace(t: seq<Entry>, e: Entry): (r: seq<Entry>)
    ensures |r| == |t|
  {
    seq(|t|, k requires 0 <= k < |t| => if t[k].id == e.id then e else t[k])
  }

  /** A table after an upsert, with the next id and the entry the call returns. */
  datatype Upserted = Upserted(table: seq<Entry>, nextId: int, entry: Entry)

  /**
   * `createHabitEntry`: if the habit already has an entry on that day, only its
   * `completed` flag changes; otherwise a new row with the next id is appended.
   */
  function Upsert(t: seq<Entry>, nextId: int, habitId: int, day: int, completed: bool): Upserted {
    match Lookup(t, habitId, day)
    case Some(existing) =>
      var e := existing.(completed := completed);
      Upserted(Replace(t, e), nextId, e)
    case None =>
      var e := Entry(nextId, habitId, day, completed);
      Upserted(t + [e], nextId + 1, e)
  }

  /** `delete ... where habitId = id`: every row of the habit goes, the rest keep their order. */
  function WithoutHabit(t: seq<Entry>, habitId: int): seq<Entry> {
    Filter(t, OtherHabit(habitId))
  }

  /** `Map.delete(id)`: the row with that id goes, the rest keep their order. */
  function RemoveId(t: seq<Entry>, id: int): seq<Entry> {
    Filter(t, OtherId(id))
  }

  // ----- the habit's entries -----

  lemma HabitRowsSpec(t: seq<Entry>, habitId: int, x: Entry)
    ensures x in HabitRows(t, habitId) <==> x in t && x.habitId == habitId
  {
    FilterSpec(t, OfHabit(habitId), x);
  }

  /** In a well-formed table, a habit's rows have one entry per day. */
  lemma HabitRowsOnePerDay(t: seq<Entry>, nextId: int, habitId: int)
    requires WellFormed(t, nextId)
    ensures OnePerDay(HabitRows(t, habitId))
  {
    FilterKeepsDistinct(t, Day, OfHabit(habitId));
  }

  /** The rows a test selects, sorted oldest first, are in date order and are exactly the rows that pass. */
  lemma SelectedOldestFirst(t: seq<Entry>, p: Entry -> bool)
    ensures SortedBy(OldestFirst(Filter(t, p)), Day)
    ensures multiset(OldestFirst(Filter(t, p))) == multiset(Filter(t, p))
    ensures forall x :: x in OldestFirst(Filter(t, p)) <==> x in t && p(x)
  {
    var rows := Filter(t, p);
    SortBySpec(rows, Day);
    forall x ensures x in OldestFirst(rows) <==> x in t && p(x) {
      FilterSpec(t, p, x);
      assert x in OldestFirst(rows) <==> x in multiset(OldestFirst(rows));
    }
  }

  /**
   * `getHabitEntries` returns exactly the habit's rows, each as often as it is
   * stored, in ascending date order.
   */
  lemma HabitEntriesSpec(t: seq<Entry>, habitId: int)
    ensures SortedBy(HabitEntries(t, habitId), Day)
    ensures multiset(HabitEntries(t, habitId)) == multiset(HabitRows(t, habitId))
    ensures forall x :: x in HabitEntries(t, habitId) <==> x in t && x.habitId == habitId
  {
    SelectedOldestFirst(t, OfHabit(habitId));
  }

  /** In a well-formed table, `getHabitEntries` returns one entry per day. */
  lemma HabitEntriesOnePerDay(t: seq<Entry>, nextId: int, habitId: int)
    requires WellFormed(t, nextId)
    ensures OnePerDay(HabitEntries(t, habitId))
  {
    HabitRowsOnePerDay(t, nextId, habitId);
    SortKeepsDistinct(HabitRows(t, habitId), Day);
  }

  /**
   * The in-memory month query returns, in ascending date order, exactly the habit's
   * rows whose date has that year and month.
   */
  lemma MonthEntriesSpec(t: seq<Entry>, habitId: int, year: int, month: int)
    ensures SortedBy(MonthEntries(t, habitId, year, month), Day)
    ensures forall x :: x in MonthEntries(t, habitId, year, month) <==>
              x in t && x.habitId == habitId && InMonth(x, year, month)
  {
    SelectedOldestFirst(t, InHabitMonth(habitId, year, month));
  }

  /**
   * The database month query returns, in ascending date order, exactly the habit's
   * rows dated inside the month's range; for a month in 0..11 that is the in-memory
   * query's answer for the widened year.
   */
  lemma RangeEntriesSpec(t: seq<Entry>, habitId: int, year: int, month: int)
    ensures SortedBy(RangeEntries(t, habitId, year, month), Day)
    ensures forall x :: x in RangeEntries(t, habitId, year, month) <==>
              x in t && x.habitId == habitId && InRange(x, MonthStart(year, month), MonthEnd(year, month))
    ensures 0 <= month < 12 ==> RangeEntries(t, habitId, year, month) == MonthEntries(t, habitId, FullYear(year), month)
  {
    SelectedOldestFirst(t, InHabitRange(habitId, MonthStart(year, month), MonthEnd(year, month)));
    if 0 <= month < 12 {
      MonthRangeSelectsMonth(t, habitId, year, month);
    }
  }

  /**
   * In a well-formed table, a month's entries are one per day, and are the habit's
   * full oldest-first list with the other months left out.
   */
  lemma MonthEntriesOfHabitEntries(t: seq<Entry>, nextId: int, habitId: int, year: int, month: int)
    requires WellFormed(t, nextId)
    ensures OnePerDay(MonthEntries(t, habitId, year, month))
    ensures MonthEntries(t, habitId, year, month) == Filter(HabitEntries(t, habitId), InMonthOf(year, month))
  {
    var all := HabitEntries(t, habitId);
    var a := MonthEntries(t, habitId, year, month);
    var b := Filter(all, InMonthOf(year, month));
    MonthEntriesSpec(t, habitId, year, month);
    FilterKeepsDistinct(t, Day, InHabitMonth(habitId, year, month));
    SortKeepsDistinct(Filter(t, InHabitMonth(habitId, year, month)), Day);
    HabitEntriesSpec(t, habitId);
    HabitEntriesOnePerDay(t, nextId, habitId);
    FilterKeepsSorted(all, InMonthOf(year, month), Day);
    FilterKeepsDistinct(all, Day, InMonthOf(year, month));
    forall x ensures x in a <==> x in b {
      FilterSpec(all, InMonthOf(year, month), x);
    }
    SortedUnique(a, b, Day);
  }

  /**
   * In a well-formed table, a habit has no more entries in a month, and so no more
   * completions, than the month has days.
   */
  lemma MonthEntriesAtMostDays(t: seq<Entry>, nextId: int, habitId: int, year: int, month: int)
    requires WellFormed(t, nextId) && 0 <= month < 12
    ensures |MonthEntries(t, habitId, year, month)| <= DaysInMonth(year, month)
    ensures CountCompleted(MonthEntries(t, habitId, year, month)) <= DaysInMonth(year, month)
  {
    var a := MonthEntries(t, habitId, year, month);
    var lo, hi := Ordinal(Date(year, month, 1)), Ordinal(Date(year, month, DaysInMonth(year, month)));
    MonthEntriesOfHabitEntries(t, nextId, habitId, year, month);
    MonthEntriesSpec(t, habitId, year, month);
    forall k | 0 <= k < |a| ensures lo <= Day(a[k]) <= hi {
      assert a[k] in a;
      DateOfSpec(a[k].day);
      InMonthSpan(DateOf(a[k].day), year, month);
    }
    DistinctKeysBound(a, Day, lo, hi);
    var count := MonthlyCompletions(a);
  }

  /** The lookup finds an entry exactly when the habit has one on that day, and then it is that entry. */
  lemma LookupSpec(t: seq<Entry>, habitId: int, day: int)
    ensures Lookup(t, habitId, day).None? <==>
              forall k :: 0 <= k < |t| ==> t[k].habitId != habitId || t[k].day != day
    ensures Lookup(t, habitId, day).Some? ==>
              var e := Lookup(t, habitId, day).value;
              e in t && e.habitId == habitId && e.day == day
  {
    var rows := HabitRows(t, habitId);
    FindFirstSpec(rows, Day, day);
    if r :| r in rows && r.day == day {
      HabitRowsSpec(t, habitId, r);
    }
    forall k | 0 <= k < |t| && t[k].habitId == habitId && t[k].day == day
      ensures Lookup(t, habitId, day).Some?
    {
      HabitRowsSpec(t, habitId, t[k]);
      var m :| 0 <= m < |rows| && rows[m] == t[k];
    }
    if Lookup(t, habitId, day).Some? {
      HabitRowsSpec(t, habitId, Lookup(t, habitId, day).value);
    }
  }

  // ----- createHabitEntry -----

  /** An entry the lookup finds sits at one position of a well-formed table. */
  lemma LookupPosition(t: seq<Entry>, nextId: int, habitId: int, day: int) returns (p: int)
    requires WellFormed(t, nextId) && Lookup(t, habitId, day).Some?
    ensures 0 <= p < |t| && t[p] == Lookup(t, habitId, day).value
    ensures forall k :: 0 <= k < |t| && k != p ==> t[k].id != t[p].id
  {
    LookupSpec(t, habitId, day);
    p :| 0 <= p < |t| && t[p] == Lookup(t, habitId, day).value;
  }

  /**
   * Upserting a (habit, day) that already has an entry keeps its id, position and the
   * table's length, and changes nothing but that entry's `completed` flag.
   */
  lemma UpsertExisting(t: seq<Entry>, nextId: int, habitId: int, day: int, completed: bool) returns (p: int)
    requires WellFormed(t, nextId) && Lookup(t, habitId, day).Some?
    ensures var r := Upsert(t, nextId, habitId, day, completed);
      && 0 <= p < |t| && |r.table| == |t| && r.nextId == nextId
      && r.entry == t[p].(completed := completed)
      && r.table == t[p := r.entry]
  {
    p := LookupPosition(t, nextId, habitId, day);
    var r := Upsert(t, nextId, habitId, day, completed);
    assert r.table == t[p := r.entry];
  }

  /**
   * Upserting a (habit, day) without an entry appends one row, whose id is the next
   * id, and advances the counter.
   */
  lemma UpsertNew(t: seq<Entry>, nextId: int, habitId: int, day: int, completed: bool)
    requires Lookup(t, habitId, day).None?
    ensures var r := Upsert(t, nextId, habitId, day, completed);
      && r.table == t + [r.entry] && |r.table| == |t| + 1
      && r.entry == Entry(nextId, habitId, day, completed) && r.nextId == nextId + 1
  {
  }

  /** Upserting keeps the table well formed. */
  lemma UpsertWellFormed(t: seq<Entry>, nextId: int, habitId: int, day: int, completed: bool)
    requires WellFormed(t, nextId)
    ensures var r := Upsert(t, nextId, habitId, day, completed); WellFormed(r.table, r.nextId)
  {
    var r := Upsert(t, nextId, habitId, day, completed);
    LookupSpec(t, habitId, day);
    if Lookup(t, habitId, day).Some? {
      var p := UpsertExisting(t, nextId, habitId, day, completed);
      assert forall k :: 0 <= k < |t| ==> r.table[k].id == t[k].id && r.table[k].habitId == t[k].habitId
                                          && r.table[k].day == t[k].day;
    } else {
      assert forall k :: 0 <= k < |t| ==> r.table[k] == t[k];
    }
  }

  /** After an upsert, the lookup of that habit and day returns the upserted entry, with the new flag. */
  lemma UpsertThenLookup(t: seq<Entry>, nextId: int, habitId: int, day: int, completed: bool)
    requires WellFormed(t, nextId)
    ensures var r := Upsert(t, nextId, habitId, day, completed);
      && Lookup(r.table, habitId, day) == Some(r.entry)
      && r.entry.habitId == habitId && r.entry.day == day && r.entry.completed == completed
  {
    var r := Upsert(t, nextId, habitId, day, completed);
    UpsertWellFormed(t, nextId, habitId, day, completed);
    LookupSpec(t, habitId, day);
    var p: int;
    if Lookup(t, habitId, day).Some? {
      p := UpsertExisting(t, nextId, habitId, day, completed);
    } else {
      p := |t|;
      assert r.table[p] == r.entry;
    }
    LookupUnique(r.table, r.nextId, p);
  }

  /** In a well-formed table, the lookup for a row's habit and day finds that row. */
  lemma LookupUnique(t: seq<Entry>, nextId: int, p: int)
    requires WellFormed(t, nextId) && 0 <= p < |t|
    ensures Lookup(t, t[p].habitId, t[p].day) == Some(t[p])
  {
    var habitId, day := t[p].habitId, t[p].day;
    LookupSpec(t, habitId, day);
    var k :| 0 <= k < |t| && t[k] == Lookup(t, habitId, day).value;
    assert k == p by {
      if k < p || p < k { }
    }
  }

  /**
   * A second upsert of the same habit and day overwrites the flag of the entry the
   * first one wrote: same id, same number of rows, no id consumed.
   */
  lemma SecondUpsertOverwrites(t: seq<Entry>, nextId: int, habitId: int, day: int, first: bool, second: bool)
    requires WellFormed(t, nextId)
    ensures var r1 := Upsert(t, nextId, habitId, day, first);
      var r2 := Upsert(r1.table, r1.nextId, habitId, day, second);
      && |r2.table| == |r1.table| && r2.nextId == r1.nextId
      && r2.entry == r1.entry.(completed := second)
  {
    var r1 := Upsert(t, nextId, habitId, day, first);
    UpsertThenLookup(t, nextId, habitId, day, first);
  }

  // ----- deleteHabit -----

  lemma WithoutHabitSpec(t: seq<Entry>, habitId: int, x: Entry)
    ensures x in WithoutHabit(t, habitId) <==> x in t && x.habitId != habitId
  {
    FilterSpec(t, OtherHabit(habitId), x);
  }

  /** After the cascade the habit has no entries: `getHabitEntries` returns `[]`. */
  lemma DeletedHabitHasNoEntries(t: seq<Entry>, habitId: int)
    ensures HabitEntries(WithoutHabit(t, habitId), habitId) == []
  {
    var rest := WithoutHabit(t, habitId);
    forall k | 0 <= k < |rest| ensures !OfHabit(habitId)(rest[k]) {
      WithoutHabitSpec(t, habitId, rest[k]);
    }
    FilterNonePass(rest, OfHabit(habitId));
  }

  /** The cascade leaves every other habit's rows exactly as they were. */
  lemma DeleteKeepsOtherHabits(t: seq<Entry>, habitId: int, other: int)
    requires other != habitId
    ensures HabitRows(WithoutHabit(t, habitId), other) == HabitRows(t, other)
  {
    FilterNarrower(t, OtherHabit(habitId), OfHabit(other));
  }

  /** Removing rows keeps the table well formed. */
  lemma WithoutHabitWellFormed(t: seq<Entry>, nextId: int, habitId: int)
    requires WellFormed(t, nextId)
    ensures WellFormed(WithoutHabit(t, habitId), nextId)
  {
    FilterKeepsWellFormed(t, nextId, OtherHabit(habitId));
  }

  /** Any filter of a well-formed table is well formed. */
  lemma FilterKeepsWellFormed(t: seq<Entry>, nextId: int, p: Entry -> bool)
    requires WellFormed(t, nextId)
    ensures WellFormed(Filter(t, p), nextId)
  {
    var f := Filter(t, p);
    var idx := FilterIndices(t, p);
    forall k | 0 <= k < |f| ensures 1 <= f[k].id < nextId {
      assert f[k] == t[idx[k]];
    }
    forall i, j | 0 <= i < j < |f|
      ensures f[i].id < f[j].id && (f[i].habitId == f[j].habitId ==> f[i].day != f[j].day)
    {
      assert f[i] == t[idx[i]] && f[j] == t[idx[j]];
    }
  }

  /**
   * Every row kept from the rows before row `i` has an id below row `i`'s, so
   * deleting row `i`'s id leaves the kept rows alone.
   */
  lemma IdsBelow(a: seq<Entry>, i: int, p: Entry -> bool)
    requires IdsIncreasing(a) && 0 <= i < |a|
    ensures forall k :: 0 <= k < |Filter(a[..i], p)| ==> Filter(a[..i], p)[k].id < a[i].id
    ensures forall k :: 0 <= k < |Filter(a[..i], p)| ==> OtherId(a[i].id)(Filter(a[..i], p)[k])
  {
    var f := Filter(a[..i], p);
    forall k | 0 <= k < |f| ensures f[k].id < a[i].id {
      FilterSpec(a[..i], p, f[k]);
      var m :| 0 <= m < i && a[..i][m] == f[k];
    }
  }

  /** Deleting the id of row `i` from the unvisited rows `a[i..]` leaves `a[i + 1..]`. */
  lemma RemoveFirstOfRest(a: seq<Entry>, i: int)
    requires IdsIncreasing(a) && 0 <= i < |a|
    ensures RemoveId(a[i..], a[i].id) == a[i + 1..]
  {
    var rest := a[i + 1..];
    assert a[i..] == [a[i]] + rest;
    FilterAppend([a[i]], rest, OtherId(a[i].id));
    assert forall k :: 0 <= k < |rest| ==> rest[k] == a[i + 1 + k];
    FilterAllPass(rest, OtherId(a[i].id));
  }

  /**
   * The state of `deleteHabit`'s loop over a snapshot `a` of the table, whose ids
   * increase: the rows before position `i` have been filtered, the rest not yet.
   */
  ghost predicate DeletedUpTo(cur: seq<Entry>, a: seq<Entry>, habitId: int, i: int) {
    IdsIncreasing(a) && 0 <= i <= |a| && cur == WithoutHabit(a[..i], habitId) + a[i..]
  }

  /** Before the loop nothing has been filtered. */
  lemma DeleteStart(a: seq<Entry>, habitId: int)
    requires IdsIncreasing(a)
    ensures DeletedUpTo(a, a, habitId, 0)
  {
    assert a[..0] == [] && a[0..] == a;
  }

  /** Deleting the id of row `i` when it belongs to the habit moves the boundary one row on. */
  lemma DeleteStep(cur: seq<Entry>, a: seq<Entry>, habitId: int, i: int)
    requires DeletedUpTo(cur, a, habitId, i) && i < |a|
    ensures DeletedUpTo(if a[i].habitId == habitId then RemoveId(cur, a[i].id) else cur, a, habitId, i + 1)
  {
    var done := WithoutHabit(a[..i], habitId);
    assert a[..i + 1] == a[..i] + [a[i]];
    FilterAppend(a[..i], [a[i]], OtherHabit(habitId));
    if a[i].habitId == habitId {
      assert WithoutHabit(a[..i + 1], habitId) == done;
      FilterAppend(done, a[i..], OtherId(a[i].id));
      IdsBelow(a, i, OtherHabit(habitId));
      FilterAllPass(done, OtherId(a[i].id));
      RemoveFirstOfRest(a, i);
    } else {
      assert WithoutHabit(a[..i + 1], habitId) == done + [a[i]];
      assert a[i..] == [a[i]] + a[i + 1..];
    }
  }

  /** After the last row the table is the cascade delete of the snapshot. */
  lemma DeleteDone(cur: seq<Entry>, a: seq<Entry>, habitId: int)
    requires DeletedUpTo(cur, a, habitId, |a|)
    ensures cur == WithoutHabit(a, habitId)
  {
    assert a[..|a|] == a && a[|a|..] == [];
  }

  // ----- the month's entries -----

  /**
   * For a month in 0..11, the database's inclusive date range from the 1st to "day 0
   * of the next month" selects the same rows as the in-memory year-and-month test
   * applied to the widened year.
   */
  lemma MonthRangeSelectsMonth(t: seq<Entry>, habitId: int, year: int, month: int)
    requires 0 <= month < 12
    ensures Filter(t, InHabitRange(habitId, MonthStart(year, month), MonthEnd(year, month)))
         == Filter(t, InHabitMonth(habitId, FullYear(year), month))
  {
    var lo, hi := MonthStart(year, month), MonthEnd(year, month);
    forall k | 0 <= k < |t|
      ensures InHabitRange(habitId, lo, hi)(t[k]) == InHabitMonth(habitId, FullYear(year), month)(t[k])
    {
      RangeIsMonth(t[k], year, month);
    }
    FilterCongruent(t, InHabitRange(habitId, lo, hi), InHabitMonth(habitId, FullYear(year), month));
  }

  /**
   * For a year argument from 0 to 99 the two stores disagree: an entry of that very
   * year and month is in the in-memory store's month but outside the database's range,
   * which covers the same month of 1900 + year.
   */
  lemma ShortYearsDiffer(e: Entry, habitId: int, year: int, month: int)
    requires 0 <= year <= 99 && 0 <= month < 12
    requires e.habitId == habitId && InMonth(e, year, month)
    ensures InHabitMonth(habitId, year, month)(e)
    ensures !InHabitRange(habitId, MonthStart(year, month), MonthEnd(year, month))(e)
  {
    RangeIsMonth(e, year, month);
  }

  /** The in-memory month test selects nothing for a month outside 0..11. */
  lemma MonthOutOfRangeSelectsNothing(t: seq<Entry>, habitId: int, year: int, month: int)
    requires month < 0 || 12 <= month
    ensures Filter(t, InHabitMonth(habitId, year, month)) == []
  {
    forall k | 0 <= k < |t| ensures !InHabitMonth(habitId, year, month)(t[k]) {
      DateOfSpec(t[k].day);
    }
    FilterNonePass(t, InHabitMonth(habitId, year, month));
  }

  // ----- statistics of a stored habit -----

  /** For a habit of a well-formed table, the current streak never exceeds the longest streak. */
  lemma StoredCurrentAtMostLongest(t: seq<Entry>, nextId: int, habitId: int, today: int, current: nat, longest: nat)
    requires WellFormed(t, nextId)
    requires IsCurrentStreak(HabitEntries(t, habitId), today, current)
    requires IsLongestStreak(HabitEntries(t, habitId), longest)
    ensures current <= longest
  {
    HabitEntriesSpec(t, habitId);
    HabitEntriesOnePerDay(t, nextId, habitId);
    CurrentAtMostLongest(HabitEntries(t, habitId), today, current, longest);
  }

  /**
   * The month's completions counted on the sorted list the store returns equal those
   * counted in table order.
   */
  lemma MonthCountInTableOrder(rows: seq<Entry>)
    ensures CountCompleted(OldestFirst(rows)) == CountCompleted(rows)
  {
    FilterCountSort(rows, Day, IsCompleted);
  }
}
