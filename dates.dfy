/** Calendar dates and times of day as the ledger sees them: the local date
    and time of a JavaScript `Date`, rendered as "YYYY-MM-DD" and "HH:MM:SS".
    A date is a (year, month, day) triple with the month counted from 1, so
    `getMonth() + 1` of the source is `month` here. Stepping back one day
    (`setDate(getDate() - 1)`) is the Gregorian previous day. */
module Dates {
  import opened Strings

  datatype Date = Date(year: int, month: int, day: int)

  datatype Time = Time(hours: int, minutes: int, seconds: int)

  /** What the clock gives when a record is made: the local date, the local
      time and `getTime()` in milliseconds since the epoch. */
  datatype Instant = Instant(date: Date, time: Time, epochMillis: int)

  predicate IsLeapYear(y: int)
  {
    y % 4 == 0 && (y % 100 != 0 || y % 400 == 0)
  }

  function DaysInMonth(year: int, month: int): (n: int)
    ensures 28 <= n <= 31
  {
    if month == 2 then (if IsLeapYear(year) then 29 else 28)
    else if month == 4 || month == 6 || month == 9 || month == 11 then 30
    else 31
  }

  predicate ValidDate(d: Date)
  {
    1 <= d.month <= 12 && 1 <= d.day <= DaysInMonth(d.year, d.month)
  }

  predicate ValidTime(t: Time)
  {
    0 <= t.hours < 24 && 0 <= t.minutes < 60 && 0 <= t.seconds < 60
  }

  /** Chronological order: `a` is an earlier day than `b`. */
  predicate Before(a: Date, b: Date)
  {
    a.year < b.year || (a.year == b.year && (a.month < b.month || (a.month == b.month && a.day < b.day)))
  }

  /** The previous calendar day. */
  function Prev(d: Date): (p: Date)
    requires ValidDate(d)
    ensures ValidDate(p) && Before(p, d)
  {
    if d.day > 1 then Date(d.year, d.month, d.day - 1)
    else if d.month > 1 then Date(d.year, d.month - 1, DaysInMonth(d.year, d.month - 1))
    else Date(d.year - 1, 12, 31)
  }

  /** No valid day lies strictly between `Prev(d)` and `d`: a day is before
      `d` exactly when it is `Prev(d)` or before it. */
  lemma PrevIsImmediate(d: Date, x: Date)
    requires ValidDate(d) && ValidDate(x)
    ensures Before(x, d) <==> x == Prev(d) || Before(x, Prev(d))
  {
  }

  /** The day `n` days before `d`. */
  function DaysBefore(d: Date, n: nat): (p: Date)
    requires ValidDate(d)
    ensures ValidDate(p)
  {
    if n == 0 then d else Prev(DaysBefore(d, n - 1))
  }

  /** Going back `n` days from yesterday is going back `n + 1` from today. */
  lemma {:induction false} DaysBeforeShift(d: Date, n: nat)
    requires ValidDate(d)
    ensures DaysBefore(Prev(d), n) == DaysBefore(d, n + 1)
    decreases n
  {
    if n > 0 {
      DaysBeforeShift(d, n - 1);
    }
  }

  /** Going further back gives a strictly earlier day. */
  lemma {:induction false} DaysBeforeDecreasing(d: Date, i: nat, j: nat)
    requires ValidDate(d) && i < j
    ensures Before(DaysBefore(d, j), DaysBefore(d, i))
  {
    if j > i + 1 {
      DaysBeforeDecreasing(d, i, j - 1);
    }
  }

  /** `formatDate`: the year as written by `String(year)`, then month and day
      padded to two digits, joined by '-'. On a valid date that is the year
      followed by "-MM-DD". */
  function FormatDate(d: Date): (r: string)
    ensures ValidDate(d) ==> r == IntToString(d.year) + DashPair(d.month, d.day)
  {
    var r := IntToString(d.year) + DateTail(d.month, d.day);
    assert ValidDate(d) ==> r == IntToString(d.year) + DashPair(d.month, d.day) by {
      if ValidDate(d) {
        PaddedIsTwoDigits(d.month);
        PaddedIsTwoDigits(d.day);
      }
    }
    r
  }

  /** The "-MM-DD" part of `formatDate`. */
  function DateTail(month: int, day: int): string
  {
    "-" + (PadStart(IntToString(month), 2, '0') + ("-" + PadStart(IntToString(day), 2, '0')))
  }

  /** `formatTime`: hours, minutes and seconds, each padded to two digits.
      On a valid time that is "HH:MM:SS". */
  function FormatTime(t: Time): (r: string)
    ensures ValidTime(t) ==> r == TimeText(t.hours, t.minutes, t.seconds)
  {
    var r := PadStart(IntToString(t.hours), 2, '0') + ":" + PadStart(IntToString(t.minutes), 2, '0') + ":" + PadStart(IntToString(t.seconds), 2, '0');
    assert ValidTime(t) ==> r == TimeText(t.hours, t.minutes, t.seconds) by {
      if ValidTime(t) {
        PaddedIsTwoDigits(t.hours);
        PaddedIsTwoDigits(t.minutes);
        PaddedIsTwoDigits(t.seconds);
      }
    }
    r
  }

  /** "HH:MM:SS" for fields below 100: eight characters. */
  function TimeText(h: nat, m: nat, s: nat): (r: string)
    requires h < 100 && m < 100 && s < 100
    ensures |r| == 8
  {
    TwoDigits(h) + (":" + (TwoDigits(m) + (":" + TwoDigits(s))))
  }

  /** `a` is earlier in the day than `b`. */
  predicate TimeBefore(a: Time, b: Time)
  {
    a.hours < b.hours || (a.hours == b.hours && (a.minutes < b.minutes || (a.minutes == b.minutes && a.seconds < b.seconds)))
  }

  predicate FourDigitYear(d: Date)
  {
    1000 <= d.year <= 9999
  }

  /** "-MM-DD" for a month and a day below 100. */
  function DashPair(month: nat, day: nat): (r: string)
    requires month < 100 && day < 100
    ensures |r| == 6
  {
    "-" + (TwoDigits(month) + ("-" + TwoDigits(day)))
  }

  lemma DashPairInjective(m1: nat, d1: nat, m2: nat, d2: nat)
    requires m1 < 100 && d1 < 100 && m2 < 100 && d2 < 100
    requires DashPair(m1, d1) == DashPair(m2, d2)
    ensures m1 == m2 && d1 == d2
  {
    var a, b := DashPair(m1, d1), DashPair(m2, d2);
    assert a[1..3] == TwoDigits(m1) && b[1..3] == TwoDigits(m2);
    assert a[4..] == TwoDigits(d1) && b[4..] == TwoDigits(d2);
    TwoDigitsInjective(m1, m2);
    TwoDigitsInjective(d1, d2);
  }

  lemma DashPairOrder(m1: nat, d1: nat, m2: nat, d2: nat)
    requires m1 < 100 && d1 < 100 && m2 < 100 && d2 < 100
    ensures LexLess(DashPair(m1, d1), DashPair(m2, d2)) <==> m1 < m2 || (m1 == m2 && d1 < d2)
  {
    var x1, x2 := TwoDigits(m1), TwoDigits(m2);
    var y1, y2 := TwoDigits(d1), TwoDigits(d2);
    LexLessIrreflexive("-");
    LexLessConcat("-", x1 + ("-" + y1), "-", x2 + ("-" + y2));
    LexLessConcat(x1, "-" + y1, x2, "-" + y2);
    LexLessConcat("-", y1, "-", y2);
    TwoDigitsOrder(m1, m2);
    TwoDigitsOrder(d1, d2);
    if x1 == x2 {
      TwoDigitsInjective(m1, m2);
    }
  }

  /** A date with a four-digit year is written with ten characters. */
  lemma FormatDateLength(d: Date)
    requires ValidDate(d) && FourDigitYear(d)
    ensures |FormatDate(d)| == 10
  {
    FourDigits(d.year);
  }

  /** Different days are written differently, whatever their years. */
  lemma FormatDateInjective(a: Date, b: Date)
    requires ValidDate(a) && ValidDate(b)
    requires FormatDate(a) == FormatDate(b)
    ensures a == b
  {
    ConcatSameSuffixLength(IntToString(a.year), DashPair(a.month, a.day), IntToString(b.year), DashPair(b.month, b.day));
    IntToStringInjective(a.year, b.year);
    DashPairInjective(a.month, a.day, b.month, b.day);
  }

  /** For four-digit years, comparing the formatted strings compares the days. */
  lemma FormatDateOrder(a: Date, b: Date)
    requires ValidDate(a) && ValidDate(b) && FourDigitYear(a) && FourDigitYear(b)
    ensures LexLess(FormatDate(a), FormatDate(b)) <==> Before(a, b)
  {
    var ya, yb := NatToString(a.year), NatToString(b.year);
    FourDigits(a.year);
    FourDigits(b.year);
    FourDigitsOrder(a.year, b.year);
    if ya == yb {
      NatToStringInjective(a.year, b.year);
    }
    LexLessConcat(ya, DashPair(a.month, a.day), yb, DashPair(b.month, b.day));
    DashPairOrder(a.month, a.day, b.month, b.day);
  }

  lemma TimeTextInjective(h1: nat, m1: nat, s1: nat, h2: nat, m2: nat, s2: nat)
    requires h1 < 100 && m1 < 100 && s1 < 100 && h2 < 100 && m2 < 100 && s2 < 100
    requires TimeText(h1, m1, s1) == TimeText(h2, m2, s2)
    ensures h1 == h2 && m1 == m2 && s1 == s2
  {
    var x, y := TimeText(h1, m1, s1), TimeText(h2, m2, s2);
    assert x[..2] == TwoDigits(h1) && y[..2] == TwoDigits(h2);
    assert x[3..5] == TwoDigits(m1) && y[3..5] == TwoDigits(m2);
    assert x[6..] == TwoDigits(s1) && y[6..] == TwoDigits(s2);
    TwoDigitsInjective(h1, h2);
    TwoDigitsInjective(m1, m2);
    TwoDigitsInjective(s1, s2);
  }

  /** Different valid times are written differently. */
  lemma FormatTimeInjective(a: Time, b: Time)
    requires ValidTime(a) && ValidTime(b)
    requires FormatTime(a) == FormatTime(b)
    ensures a == b
  {
    TimeTextInjective(a.hours, a.minutes, a.seconds, b.hours, b.minutes, b.seconds);
  }

  /** Comparing the written times as strings compares the times of day. */
  lemma FormatTimeOrder(a: Time, b: Time)
    requires ValidTime(a) && ValidTime(b)
    ensures LexLess(FormatTime(a), FormatTime(b)) <==> TimeBefore(a, b)
  {
    var h1, h2 := TwoDigits(a.hours), TwoDigits(b.hours);
    var m1, m2 := TwoDigits(a.minutes), TwoDigits(b.minutes);
    var s1, s2 := TwoDigits(a.seconds), TwoDigits(b.seconds);
    LexLessIrreflexive(":");
    LexLessConcat(h1, ":" + (m1 + (":" + s1)), h2, ":" + (m2 + (":" + s2)));
    LexLessConcat(":", m1 + (":" + s1), ":", m2 + (":" + s2));
    LexLessConcat(m1, ":" + s1, m2, ":" + s2);
    LexLessConcat(":", s1, ":", s2);
    TwoDigitsOrder(a.hours, b.hours);
    TwoDigitsOrder(a.minutes, b.minutes);
    TwoDigitsOrder(a.seconds, b.seconds);
    if h1 == h2 {
      TwoDigitsInjective(a.hours, b.hours);
    }
    if m1 == m2 {
      TwoDigitsInjective(a.minutes, b.minutes);
    }
  }
}
