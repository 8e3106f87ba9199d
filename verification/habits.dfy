/**
 * Rows of the `habits` table and the field merge of `updateHabit`. Dates are day
 * numbers; the unused `userId` column (always null) is not modelled.
 */
module Habits {
  import opened Optional

  /** A habit: id, display name, optional reminder time "HH:MM", creation day. */
  datatype Habit = Habit(id: int, name: string, reminderTime: Option<string>, createdAt: int)

  /** `InsertHabit`: the fields a client supplies when creating a habit. */
  datatype NewHabit = NewHabit(name: string, reminderTime: Option<string>)

  /**
   * `Partial<InsertHabit>`: a field is `None` when the request leaves it out. A
   * present reminder time may itself be null.
   */
  datatype HabitChanges = HabitChanges(name: Option<string>, reminderTime: Option<Option<string>>)

  /**
   * `{ ...habit, ...updatedHabit }`: every field the changes carry replaces the
   * habit's, the others stay. The id and the creation day are never among the
   * changes, so they are kept.
   */
  function Merge(h: Habit, c: HabitChanges): (r: Habit)
    ensures r.id == h.id && r.createdAt == h.createdAt
    ensures c.name.None? && c.reminderTime.None? ==> r == h
    ensures c.name.Some? ==> r.name == c.name.value
    ensures c.reminderTime.Some? ==> r.reminderTime == c.reminderTime.value
    ensures c.name.None? ==> r.name == h.name
    ensures c.reminderTime.None? ==> r.reminderTime == h.reminderTime
  {
    h.(name := if c.name.Some? then c.name.value else h.name,
       reminderTime := if c.reminderTime.Some? then c.reminderTime.value else h.reminderTime)
  }

  /** `id => row.id === id` on the habits table. */
  function HasId(id: int): Habit -> bool {
    (h: Habit) => h.id == id
  }

  /** The habit rows a delete of `id` keeps. */
  function OtherHabitId(id: int): Habit -> bool {
    (h: Habit) => h.id != id
  }
}
