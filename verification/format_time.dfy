/**
 * `formatTime`: a reminder time "HH:MM" shown on a 12-hour clock, "h:MM AM" or
 * "h:MM PM". The pieces of JavaScript it relies on are written out: `split(':')`,
 * `parseInt` (whose failure, `NaN`, is `None`), the truncating `%`, the falsy-zero
 * `|| 12` and the conversion of a number or of `undefined` to text.
 */
module TimeFormat {
  import opened Optional

  // ----- split -----

  /** `s.split(c)`: the pieces between the separators; always at least one. */
  function Split(s: string, c: char): (r: seq<string>)
    ensures |r| >= 1
  {
    if s == [] then [[]]
    else
      var rest := Split(s[1..], c);
      if s[0] == c then [[]] + rest else [[s[0]] + rest[0]] + rest[1..]
  }

  /** `pieces.join(c)`. */
  function Join(pieces: seq<string>, c: char): string
    requires |pieces| >= 1
  {
    if |pieces| == 1 then pieces[0] else pieces[0] + [c] + Join(pieces[1..], c)
  }

  /** Joining the pieces with the separator gives back the string. */
  lemma {:induction false} SplitJoin(s: string, c: char)
    ensures Join(Split(s, c), c) == s
  {
    if s != [] {
      var rest := Split(s[1..], c);
      SplitJoin(s[1..], c);
      assert s == [s[0]] + s[1..];
      if s[0] != c {
        var r := Split(s, c);
        assert r[1..] == rest[1..];
        if |rest| > 1 {
          assert Join(r, c) == [s[0]] + rest[0] + [c] + Join(rest[1..], c);
        }
      } else {
        assert Split(s, c)[1..] == rest;
      }
    }
  }

  /** No piece holds the separator. */
  lemma {:induction false} SplitPiecesFree(s: string, c: char)
    ensures forall k :: 0 <= k < |Split(s, c)| ==> c !in Split(s, c)[k]
  {
    if s != [] {
      var rest := Split(s[1..], c);
      SplitPiecesFree(s[1..], c);
      var r := Split(s, c);
      forall k | 0 <= k < |r| ensures c !in r[k] {
        if k > 0 {
          assert r[k] == rest[k - (if s[0] == c then 1 else 0)];
        }
      }
    }
  }

  /** A string without the separator is a single piece. */
  lemma {:induction false} SplitWithoutSeparator(s: string, c: char)
    requires c !in s
    ensures Split(s, c) == [s]
  {
    if s != [] {
      SplitWithoutSeparator(s[1..], c);
      assert s == [s[0]] + s[1..];
    }
  }

  /** A prefix without the separator extends the first piece. */
  lemma {:induction false} SplitAfterPrefix(a: string, t: string, c: char)
    requires c !in a
    ensures var r := Split(t, c); Split(a + t, c) == [a + r[0]] + r[1..]
  {
    var r := Split(t, c);
    if a != [] {
      assert (a + t)[0] == a[0] && (a + t)[1..] == a[1..] + t;
      assert a[0] != c;
      SplitAfterPrefix(a[1..], t, c);
      var rest := Split(a[1..] + t, c);
      assert rest[0] == a[1..] + r[0] && rest[1..] == r[1..];
      assert Split(a + t, c) == [[a[0]] + rest[0]] + rest[1..];
      assert [a[0]] + (a[1..] + r[0]) == a + r[0];
    } else {
      assert a + t == t && a + r[0] == r[0];
      assert [r[0]] + r[1..] == r;
    }
  }

  /** Splitting "a:b", where neither side holds ':', gives the two sides. */
  lemma SplitPair(a: string, b: string, c: char)
    requires c !in a && c !in b
    ensures Split(a + [c] + b, c) == [a, b]
  {
    SplitWithoutSeparator(b, c);
    assert ([c] + b)[1..] == b;
    assert Split([c] + b, c) == [[], b];
    assert a + [c] + b == a + ([c] + b);
    SplitAfterPrefix(a, [c] + b, c);
    assert a + [] == a;
    assert [a + []] + [b] == [a, b];
  }

  /** A leading separator splits off an empty first piece. */
  lemma SplitLeadingSeparator(t: string, c: char)
    ensures Split([c] + t, c) == [[]] + Split(t, c)
  {
    assert ([c] + t)[1..] == t;
  }

  /** Splitting "a:b:d", where no part holds ':', gives the three parts. */
  lemma SplitTriple(a: string, b: string, d: string, c: char)
    requires c !in a && c !in b && c !in d
    ensures Split(a + [c] + b + [c] + d, c) == [a, b, d]
  {
    var tail := b + [c] + d;
    SplitPair(b, d, c);
    SplitLeadingSeparator(tail, c);
    SplitAfterPrefix(a, [c] + tail, c);
    assert a + [c] + b + [c] + d == a + ([c] + tail);
    assert a + [] == a;
  }

  /**
   * `const [hours, minutes] = time.split(':')`: the first piece, and the second when
   * there is one (`undefined`, here `None`, when the string holds no ':').
   */
  function HoursAndMinutes(time: string): (string, Option<string>) {
    var pieces := Split(time, ':');
    (pieces[0], if |pieces| >= 2 then Some(pieces[1]) else None)
  }

  // ----- numbers and text -----

  predicate IsDigit(ch: char) {
    '0' <= ch <= '9'
  }

  predicate AllDigits(s: string) {
    forall k :: 0 <= k < |s| ==> IsDigit(s[k])
  }

  /** The longest prefix of decimal digits. */
  function DigitRun(s: string): (r: string)
    ensures |r| <= |s| && r == s[..|r|] && AllDigits(r)
    ensures |r| < |s| ==> !IsDigit(s[|r|])
  {
    if s == [] || !IsDigit(s[0]) then []
    else
      var rest := DigitRun(s[1..]);
      assert s[1..][..|rest|] == s[1..|rest| + 1];
      [s[0]] + rest
  }

  /** The value of a string of decimal digits. */
  function DigitsValue(s: string): (r: nat)
    requires AllDigits(s)
  {
    if s == [] then 0 else 10 * DigitsValue(s[..|s| - 1]) + (s[|s| - 1] as int - '0' as int)
  }

  /** `parseInt(s)` in base 10: an optional sign, then as many digits as there are; `NaN` (`None`) when there are none. */
  function ParseInt(s: string): (r: Option<int>)
    ensures r.None? <==> DigitRun(if s != [] && (s[0] == '-' || s[0] == '+') then s[1..] else s) == []
  {
    var negative := s != [] && s[0] == '-';
    var body := if s != [] && (s[0] == '-' || s[0] == '+') then s[1..] else s;
    var run := DigitRun(body);
    if run == [] then None
    else
      var value: int := DigitsValue(run);
      Some(if negative then -value else value)
  }

  /** The decimal text of a natural number, without leading zeros. */
  function ShowNat(n: nat): (r: string)
    ensures r != [] && AllDigits(r)
    ensures n < 10 <==> |r| == 1
  {
    var d := ['0' + (n % 10) as char];
    if n < 10 then d else ShowNat(n / 10) + d
  }

  /** `${n}` for an integer. */
  function ShowInt(n: int): string {
    if n < 0 then "-" + ShowNat(-n) else ShowNat(n)
  }

  /** Reading back a number's decimal text gives the number. */
  lemma {:induction false} ShowNatValue(n: nat)
    ensures DigitsValue(ShowNat(n)) == n
  {
    if n >= 10 {
      ShowNatValue(n / 10);
      var s := ShowNat(n);
      assert s[..|s| - 1] == ShowNat(n / 10);
    }
  }

  /** `parseInt` reads a number's decimal text back to the number. */
  lemma ParseShowNat(n: nat)
    ensures ParseInt(ShowNat(n)) == Some(n)
  {
    ShowNatValue(n);
    var s := ShowNat(n);
    assert IsDigit(s[0]);
    var run := DigitRun(s);
    assert run == s;
  }

  // ----- formatTime -----

  /** `a % 12` on JavaScript numbers: the remainder takes the sign of the dividend. */
  function Remainder12(a: int): (r: int)
    ensures -12 < r < 12
    ensures a >= 0 ==> 0 <= r && r == a % 12
    ensures a < 0 ==> r <= 0 && (a - r) % 12 == 0
  {
    if a >= 0 then a % 12 else -((-a) % 12)
  }

  /**
   * `hour % 12 || 12`: a remainder of zero is falsy, and so is `NaN % 12`, so both
   * give 12.
   */
  function Hour12(hour: Option<int>): (r: int)
    ensures r != 0
    ensures hour.Some? && hour.value >= 0 ==> 1 <= r <= 12 && r % 12 == hour.value % 12
    ensures hour.None? ==> r == 12
  {
    match hour
    case None => 12
    case Some(h) => var m := Remainder12(h); if m == 0 then 12 else m
  }

  /** `hour >= 12 ? 'PM' : 'AM'`; a comparison with `NaN` is false. */
  function Suffix(hour: Option<int>): string {
    if hour.Some? && hour.value >= 12 then "PM" else "AM"
  }

  /** `formatTime(time)`; `None` is `null`. */
  function FormatTime(time: Option<string>): (r: string)
    ensures r == [] <==> time.None? || time.value == []
  {
    if time.None? || time.value == [] then ""
    else
      var (hours, minutes) := HoursAndMinutes(time.value);
      var hour := ParseInt(hours);
      ShowInt(Hour12(hour)) + ":" + (if minutes.Some? then minutes.value else "undefined") + " " + Suffix(hour)
  }

  // ----- what formatTime promises -----

  /** For hours 0..23 the displayed hour is the 12-hour clock's: midnight is 12, noon is 12, afternoon hours lose 12. */
  lemma ClockHour(h: int)
    requires 0 <= h < 24
    ensures Hour12(Some(h)) == if h == 0 then 12 else if h > 12 then h - 12 else h
    ensures Suffix(Some(h)) == if h < 12 then "AM" else "PM"
  {
  }

  /**
   * On a well-formed "HH:MM" (two digits, then ':', then minutes without ':') the
   * text is the 12-hour hour, ':', the minutes exactly as given, and AM before noon,
   * PM from noon on.
   */
  lemma FormatWellFormed(hh: string, mm: string)
    requires |hh| == 2 && AllDigits(hh) && DigitsValue(hh) < 24 && ':' !in mm
    ensures var h := DigitsValue(hh);
      FormatTime(Some(hh + ":" + mm))
        == ShowNat(if h == 0 then 12 else if h > 12 then h - 12 else h) + ":" + mm + " " + (if h < 12 then "AM" else "PM")
  {
    assert ':' !in hh by {
      assert IsDigit(hh[0]) && IsDigit(hh[1]);
    }
    SplitPair(hh, mm, ':');
    assert HoursAndMinutes(hh + ":" + mm) == (hh, Some(mm));
    var run := DigitRun(hh);
    assert run == hh;
    assert ParseInt(hh) == Some(DigitsValue(hh));
    ClockHour(DigitsValue(hh));
  }

  /**
   * A time with seconds, "HH:MM:SS" as a `time` column reads back, shows the same
   * text as "HH:MM": only the first two pieces of the split are used.
   */
  lemma SecondsDropped(hh: string, mm: string, ss: string)
    requires ':' !in hh && ':' !in mm && ':' !in ss
    ensures FormatTime(Some(hh + ":" + mm + ":" + ss)) == FormatTime(Some(hh + ":" + mm))
  {
    var short, long := hh + ":" + mm, hh + ":" + mm + ":" + ss;
    SplitPair(hh, mm, ':');
    SplitTriple(hh, mm, ss, ':');
    assert HoursAndMinutes(short) == (hh, Some(mm));
    assert HoursAndMinutes(long) == (hh, Some(mm));
    assert short != [] && long != [];
    FormatTimeParts(short, hh, Some(mm));
    FormatTimeParts(long, hh, Some(mm));
  }

  /** `formatTime` of a nonempty time, in terms of its hour and minute pieces. */
  lemma FormatTimeParts(time: string, hours: string, minutes: Option<string>)
    requires time != [] && HoursAndMinutes(time) == (hours, minutes)
    ensures FormatTime(Some(time)) == ShowInt(Hour12(ParseInt(hours))) + ":"
              + (if minutes.Some? then minutes.value else "undefined") + " " + Suffix(ParseInt(hours))
  {
  }

  /** A text that starts with neither a digit nor a sign reads as `NaN`. */
  lemma ParseIntNoDigits(s: string)
    requires s == [] || (!IsDigit(s[0]) && s[0] != '-' && s[0] != '+')
    ensures ParseInt(s) == None
  {
  }

  /** The text of a `NaN` hour: "12:", the minutes, and " AM". */
  lemma NotANumberText(minutes: string)
    ensures ShowInt(Hour12(None)) + ":" + minutes + " " + Suffix(None) == "12:" + minutes + " AM"
  {
    assert ShowInt(12) == "12";
  }

  /** An hour part without digits reads as `NaN`: the text shows 12 and AM. */
  lemma HourNotANumber(time: string)
    requires time != []
    requires var hours := HoursAndMinutes(time).0; hours == [] || (!IsDigit(hours[0]) && hours[0] != '-' && hours[0] != '+')
    ensures var minutes := HoursAndMinutes(time).1;
      FormatTime(Some(time)) == "12:" + (if minutes.Some? then minutes.value else "undefined") + " AM"
  {
    var hours, minutes := HoursAndMinutes(time).0, HoursAndMinutes(time).1;
    ParseIntNoDigits(hours);
    FormatTimeParts(time, hours, minutes);
    NotANumberText(if minutes.Some? then minutes.value else "undefined");
  }

  /** A time without ':' has no minutes; the text shows "undefined" in their place. */
  lemma NoMinutes(time: string)
    requires time != [] && ':' !in time
    ensures var hour := ParseInt(time);
      FormatTime(Some(time)) == ShowInt(Hour12(hour)) + ":undefined " + Suffix(hour)
  {
    SplitWithoutSeparator(time, ':');
    assert HoursAndMinutes(time) == (time, None);
    FormatTimeParts(time, time, None);
    var shown := ShowInt(Hour12(ParseInt(time)));
    assert shown + ":" + "undefined" + " " == shown + ":undefined ";
  }
}
