/**
 Calendar dates and minute-precision date-times, and the fixed-width
 rendering `MM dd yyyy HH:mm` that a Deadline uses for its due timestamp.
 Only the years 1 to 9999 are modelled, where `yyyy` is exactly four digits.
 */
module Timestamps {
  import opened Digits
  import opened Wrappers

  /** Leap years of the proleptic Gregorian (ISO) calendar. */
  predicate IsLeapYear(year: int) {
    (year % 4 == 0 && year % 100 != 0) || year % 400 == 0
  }

  function DaysInMonth(year: int, month: int): (n: int)
    requires 1 <= month <= 12
    ensures 28 <= n <= 31
  {
    if month == 2 then (if IsLeapYear(year) then 29 else 28)
    else if month == 4 || month == 6 || month == 9 || month == 11 then 30
    else 31
  }

  /** A calendar date (year, month, day), the part of a date-time compared by an occurrence test. */
  datatype Date = Date(year: int, month: int, day: int)

  predicate ValidDate(year: int, month: int, day: int) {
    && 1 <= year <= 9999
    && 1 <= month <= 12
    && 1 <= day <= DaysInMonth(year, month)
  }

  type CalendarDate = d: Date | ValidDate(d.year, d.month, d.day) witness Date(1970, 1, 1)

  /** A date-time at minute precision. */
  datatype DateTime = DateTime(year: int, month: int, day: int, hour: int, minute: int)

  predicate ValidDateTime(t: DateTime) {
    && ValidDate(t.year, t.month, t.day)
    && 0 <= t.hour <= 23
    && 0 <= t.minute <= 59
  }

  type Timestamp = t: DateTime | ValidDateTime(t) witness DateTime(1970, 1, 1, 0, 0)

  /** The date part of a date-time; the time of day is dropped. */
  function DateOf(t: Timestamp): (d: CalendarDate)
    ensures d.year == t.year && d.month == t.month && d.day == t.day
  {
    Date(t.year, t.month, t.day)
  }

  /** A date rendered with the pattern `MM dd yyyy`. */
  function FormatDate(d: CalendarDate): (s: string)
    ensures |s| == 10
    ensures s[2] == ' ' && s[5] == ' '
    ensures AllDigits(s[0..2]) && AllDigits(s[3..5]) && AllDigits(s[6..10])
  {
    var s := Pad2(d.month) + " " + Pad2(d.day) + " " + Pad4(d.year);
    assert s[0..2] == Pad2(d.month) && s[3..5] == Pad2(d.day) && s[6..10] == Pad4(d.year);
    s
  }

  /** A date-time rendered with the pattern `MM dd yyyy HH:mm`. */
  function Format(t: Timestamp): (s: string)
    ensures |s| == 16
    ensures s[2] == ' ' && s[5] == ' ' && s[10] == ' ' && s[13] == ':'
    ensures forall i | 0 <= i < 16 && i !in {2, 5, 10, 13} :: IsDigit(s[i])
    ensures s[..10] == FormatDate(DateOf(t))
  {
    var s := Pad2(t.month) + " " + Pad2(t.day) + " " + Pad4(t.year) + " " + Pad2(t.hour) + ":" + Pad2(t.minute);
    assert s[..10] == FormatDate(DateOf(t));
    assert s[11..13] == Pad2(t.hour) && s[14..16] == Pad2(t.minute);
    assert forall i | 0 <= i < 10 && i !in {2, 5} :: IsDigit(s[i]) by {
      var f := FormatDate(DateOf(t));
      assert AllDigits(f[0..2]) && AllDigits(f[3..5]) && AllDigits(f[6..10]);
    }
    s
  }

  /** Reads a string of the shape `MM dd yyyy` back into a valid calendar date. */
  function ReadDate(s: string): (r: Option<CalendarDate>)
  {
    if |s| == 10 && s[2] == ' ' && s[5] == ' '
       && AllDigits(s[0..2]) && AllDigits(s[3..5]) && AllDigits(s[6..10])
    then
      var month := DecimalValue(s[0..2]);
      var day := DecimalValue(s[3..5]);
      var year := DecimalValue(s[6..10]);
      if ValidDate(year, month, day) then Some(Date(year, month, day)) else None
    else None
  }

  /** Reads a string of the shape `MM dd yyyy HH:mm` back into a valid date-time. */
  function ReadTimestamp(s: string): (r: Option<Timestamp>)
  {
    if |s| == 16 && s[10] == ' ' && s[13] == ':'
       && ReadDate(s[..10]).Some? && AllDigits(s[11..13]) && AllDigits(s[14..16])
    then
      var d := ReadDate(s[..10]).value;
      var hour := DecimalValue(s[11..13]);
      var minute := DecimalValue(s[14..16]);
      if hour <= 23 && minute <= 59 then Some(DateTime(d.year, d.month, d.day, hour, minute))
      else None
    else None
  }

  /** Reading a rendered date gives the date back. */
  lemma ReadFormatDate(d: CalendarDate)
    ensures ReadDate(FormatDate(d)) == Some(d)
  {
    var s := FormatDate(d);
    assert s[0..2] == Pad2(d.month) && s[3..5] == Pad2(d.day) && s[6..10] == Pad4(d.year);
  }

  /** A string that reads as a date is exactly that date's rendering. */
  lemma FormatReadDate(s: string)
    requires ReadDate(s).Some?
    ensures FormatDate(ReadDate(s).value) == s
  {
    var d := ReadDate(s).value;
    var m, dd, y := s[0..2], s[3..5], s[6..10];
    assert d.month == DecimalValue(m) && d.day == DecimalValue(dd) && d.year == DecimalValue(y);
    Pad2OfDigits(m);
    Pad2OfDigits(dd);
    Pad4OfDigits(y);
    assert s == m + " " + dd + " " + y;
  }

  /** Rendering dates is one-to-one. */
  lemma FormatDateInjective(a: CalendarDate, b: CalendarDate)
    ensures FormatDate(a) == FormatDate(b) <==> a == b
  {
    ReadFormatDate(a);
    ReadFormatDate(b);
  }

  /** Reading a rendered date-time gives the date-time back. */
  lemma ReadFormat(t: Timestamp)
    ensures ReadTimestamp(Format(t)) == Some(t)
  {
    var s := Format(t);
    ReadFormatDate(DateOf(t));
    assert s[11..13] == Pad2(t.hour) && s[14..16] == Pad2(t.minute);
  }

  /** A string that reads as a date-time is exactly that date-time's rendering. */
  lemma FormatRead(s: string)
    requires ReadTimestamp(s).Some?
    ensures Format(ReadTimestamp(s).value) == s
  {
    var t := ReadTimestamp(s).value;
    FormatReadDate(s[..10]);
    assert FormatDate(DateOf(t)) == s[..10];
    ZeroPadOfDecimalValue(s[11..13]);
    ZeroPadOfDecimalValue(s[14..16]);
    assert Pad2(t.hour) == s[11..13];
    assert Pad2(t.minute) == s[14..16];
    var f := Format(t);
    assert f[..10] == s[..10];
    assert f[11..13] == s[11..13] && f[14..16] == s[14..16];
    assert forall i | 0 <= i < 16 :: f[i] == s[i] by {
      forall i | 0 <= i < 16 ensures f[i] == s[i] {
        if i < 10 {
          assert f[i] == f[..10][i] && s[i] == s[..10][i];
        } else if 11 <= i < 13 {
          assert f[i] == f[11..13][i - 11] && s[i] == s[11..13][i - 11];
        } else if 14 <= i {
          assert f[i] == f[14..16][i - 14] && s[i] == s[14..16][i - 14];
        }
      }
    }
  }

  /** Two valid date-times render alike exactly when they agree in year, month, day, hour and minute. */
  lemma FormatInjective(a: Timestamp, b: Timestamp)
    ensures Format(a) == Format(b) <==> a == b
  {
    ReadFormat(a);
    ReadFormat(b);
  }
}
