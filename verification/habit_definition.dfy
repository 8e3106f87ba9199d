/**
 * The habit form: its state (name, optional reminder time, validation message), the
 * submit decision and the two input handlers. Submitting either records a
 * validation message or hands the name and time on to be saved.
 */
module HabitForm {
  import opened Optional

  const EmptyNameMessage := "Please enter a habit description"
  const LongNameMessage := "Habit description must be 50 characters or less"
  const MaxNameLength := 50

  // ----- String.prototype.trim and .length -----

  /** The characters `trim` removes: white space and line terminators. */
  predicate IsJsWhitespace(ch: char) {
    || ('\U{9}' <= ch <= '\U{D}') || ch == ' ' || ch == '\U{A0}' || ch == '\U{1680}'
    || ('\U{2000}' <= ch <= '\U{200A}') || ch == '\U{2028}' || ch == '\U{2029}'
    || ch == '\U{202F}' || ch == '\U{205F}' || ch == '\U{3000}' || ch == '\U{FEFF}'
  }

  /** Every character is white space (true of the empty string). */
  predicate IsBlank(s: string) {
    forall k :: 0 <= k < |s| ==> IsJsWhitespace(s[k])
  }

  function TrimStart(s: string): string {
    if s != [] && IsJsWhitespace(s[0]) then TrimStart(s[1..]) else s
  }

  function TrimEnd(s: string): string {
    if s != [] && IsJsWhitespace(s[|s| - 1]) then TrimEnd(s[..|s| - 1]) else s
  }

  /** `s.trim()`. */
  function Trim(s: string): string {
    TrimEnd(TrimStart(s))
  }

  /** Trimming leading white space leaves a suffix that is empty exactly for a blank string, and otherwise starts with a non-white character. */
  lemma {:induction false} TrimStartSpec(s: string)
    ensures var r := TrimStart(s); |r| <= |s| && r == s[|s| - |r|..]
    ensures TrimStart(s) == [] <==> IsBlank(s)
    ensures TrimStart(s) != [] ==> !IsJsWhitespace(TrimStart(s)[0])
  {
    if s != [] && IsJsWhitespace(s[0]) {
      TrimStartSpec(s[1..]);
      assert forall k :: 1 <= k < |s| ==> s[k] == s[1..][k - 1];
    }
  }

  /** Trimming trailing white space leaves a prefix that is empty exactly for a blank string, and otherwise ends with a non-white character. */
  lemma {:induction false} TrimEndSpec(s: string)
    ensures var r := TrimEnd(s); |r| <= |s| && r == s[..|r|]
    ensures TrimEnd(s) == [] <==> IsBlank(s)
    ensures TrimEnd(s) != [] ==> !IsJsWhitespace(TrimEnd(s)[|TrimEnd(s)| - 1])
  {
    if s != [] && IsJsWhitespace(s[|s| - 1]) {
      TrimEndSpec(s[..|s| - 1]);
      assert forall k :: 0 <= k < |s| - 1 ==> s[k] == s[..|s| - 1][k];
    }
  }

  /** `!s.trim()` holds exactly for a blank string; otherwise the trimmed text is a piece of `s` with no white space at either end. */
  lemma TrimSpec(s: string)
    ensures Trim(s) == [] <==> IsBlank(s)
    ensures Trim(s) != [] ==> !IsJsWhitespace(Trim(s)[0]) && !IsJsWhitespace(Trim(s)[|Trim(s)| - 1])
    ensures exists i, j :: 0 <= i <= j <= |s| && Trim(s) == s[i..j]
  {
    TrimStartSpec(s);
    var t := TrimStart(s);
    TrimEndSpec(t);
    if t != [] {
      var u := TrimEnd(t);
      if u != [] {
        assert u[0] == t[0];
      }
    }
    var i := |s| - |t|;
    assert Trim(s) == s[i..i + |TrimEnd(t)|];
  }

  /** `s.length`: UTF-16 code units, two for a character outside the Basic Multilingual Plane. */
  function Utf16Length(s: string): (r: nat)
    ensures |s| <= r <= 2 * |s|
  {
    if s == [] then 0 else (if s[0] as int > 0xFFFF then 2 else 1) + Utf16Length(s[1..])
  }

  // ----- the form -----

  /** `habitName`, `reminderTime` (null is `None`) and `validationError` ('' when none is shown). */
  datatype FormState = FormState(habitName: string, reminderTime: Option<string>, validationError: string)

  /** The form as it first appears. */
  const InitialForm := FormState("", None, "")

  /** What a submit does: record a validation message, or call `onSaveHabit(name, reminderTime)`. */
  datatype SubmitOutcome = Rejected(message: string) | Saved(name: string, reminderTime: Option<string>)

  /**
   * `handleSubmit`: a name that is empty after trimming is rejected first; then a
   * name longer than 50 code units, measured untrimmed; otherwise the name, as
   * typed, and the reminder time are saved.
   */
  function HandleSubmit(f: FormState): (r: SubmitOutcome)
    ensures r.Saved? <==> (exists k :: 0 <= k < |f.habitName| && !IsJsWhitespace(f.habitName[k]))
                          && Utf16Length(f.habitName) <= MaxNameLength
    ensures r.Saved? ==> r.name == f.habitName && r.reminderTime == f.reminderTime
    ensures r.Rejected? ==> r.message == if IsBlank(f.habitName) then EmptyNameMessage else LongNameMessage
  {
    TrimSpec(f.habitName);
    if Trim(f.habitName) == [] then Rejected(EmptyNameMessage)
    else if Utf16Length(f.habitName) > MaxNameLength then Rejected(LongNameMessage)
    else Saved(f.habitName, f.reminderTime)
  }

  /** The form after a submit: a rejection shows its message; a save leaves the form as it was. */
  function AfterSubmit(f: FormState): (r: FormState)
    ensures r.habitName == f.habitName && r.reminderTime == f.reminderTime
    ensures r.validationError != "" <==> HandleSubmit(f).Rejected? || (HandleSubmit(f).Saved? && f.validationError != "")
  {
    match HandleSubmit(f)
    case Rejected(message) => f.(validationError := message)
    case Saved(_, _) => f
  }

  /** The name input's `onChange`: take the new text and clear the message. */
  function OnNameChange(f: FormState, value: string): (r: FormState)
    ensures r.habitName == value && r.validationError == "" && r.reminderTime == f.reminderTime
  {
    f.(habitName := value, validationError := "")
  }

  /** The time input's `onChange`: an emptied input stores null. */
  function OnTimeChange(f: FormState, value: string): (r: FormState)
    ensures r.reminderTime.None? <==> value == []
    ensures r.reminderTime.Some? ==> r.reminderTime.value == value
    ensures r.habitName == f.habitName && r.validationError == f.validationError
  {
    f.(reminderTime := if value == [] then None else Some(value))
  }

  /** The time input's shown value, `reminderTime || ''`. */
  function TimeInputValue(f: FormState): string {
    if f.reminderTime.Some? then f.reminderTime.value else ""
  }

  // ----- what the form promises -----

  /** The form never stores an empty reminder time: true at first and kept by every handler. */
  ghost predicate NoEmptyTime(f: FormState) {
    f.reminderTime != Some([])
  }

  lemma HandlersKeepNoEmptyTime(f: FormState, value: string)
    requires NoEmptyTime(f)
    ensures NoEmptyTime(InitialForm)
    ensures NoEmptyTime(OnNameChange(f, value)) && NoEmptyTime(OnTimeChange(f, value)) && NoEmptyTime(AfterSubmit(f))
  {
  }

  /** Feeding the shown time back through `onChange` changes nothing, on any form without an empty stored time. */
  lemma TimeInputRoundTrip(f: FormState)
    requires NoEmptyTime(f)
    ensures OnTimeChange(f, TimeInputValue(f)) == f
  {
  }

  /** Whatever is saved has a non-blank name of at most 50 code units. */
  lemma SavedNameIsValid(f: FormState)
    requires HandleSubmit(f).Saved?
    ensures !IsBlank(HandleSubmit(f).name) && Utf16Length(HandleSubmit(f).name) <= MaxNameLength
  {
  }

  /** A blank name is reported as missing even when it is also too long: the emptiness check comes first. */
  lemma BlankBeforeLength(f: FormState)
    requires IsBlank(f.habitName) && Utf16Length(f.habitName) > MaxNameLength
    ensures HandleSubmit(f) == Rejected(EmptyNameMessage)
  {
  }

  /** A non-blank name longer than 50 code units is rejected as too long, whatever its trimmed text. */
  lemma LengthCountsPadding(f: FormState)
    requires !IsBlank(f.habitName) && Utf16Length(f.habitName) > MaxNameLength
    ensures HandleSubmit(f) == Rejected(LongNameMessage)
  {
  }

  /**
   * The length is measured before trimming: "a" padded with 50 spaces trims to at
   * most 50 code units, yet it is rejected as too long.
   */
  lemma PaddedShortNameRejected(f: FormState)
    requires f.habitName == "a" + seq(50, _ => ' ')
    ensures Utf16Length(Trim(f.habitName)) <= MaxNameLength
    ensures HandleSubmit(f) == Rejected(LongNameMessage)
  {
    var s := f.habitName;
    assert !IsJsWhitespace(s[0]);
    assert Utf16Length(s) >= |s| == 51;
    TrimSpec(s);
    var i, j :| 0 <= i <= j <= |s| && Trim(s) == s[i..j];
    assert j <= 1;
    assert Utf16Length(Trim(s)) <= 2 * |Trim(s)| <= 2;
  }

  /** Editing the name after a rejection clears the message. */
  lemma EditClearsRejection(f: FormState, value: string)
    requires HandleSubmit(f).Rejected?
    ensures AfterSubmit(f).validationError != "" && OnNameChange(AfterSubmit(f), value).validationError == ""
  {
  }
}
