/** The study statistics of `src/utils/storage.js` as functions of the
    record list: word counts per day, the distinct study dates, the streak
    of consecutive study days ending today and the calendar intensity level.
    The `Ledger` methods that compute them with loops are proved against
    these definitions. */
module Statistics {
  import opened Strings
  import opened Sorting
  import opened Dates
  import opened Records

  /** `results.filter(r => r.correct).length`. */
  function CorrectCount(results: seq<ReviewResult>): (n: nat)
    ensures n <= |results|
  {
    if |results| == 0 then 0
    else CorrectCount(results[..|results| - 1]) + if results[|results| - 1].correct then 1 else 0
  }

  /** The number of results over all the records: the sum of `results.length`.
      It is 0 exactly when no record holds a result. */
  function ResultCount(records: seq<Record>): (n: nat)
    ensures n == 0 <==> forall k :: 0 <= k < |records| ==> |records[k].results| == 0
  {
    if |records| == 0 then 0
    else
      var init := records[..|records| - 1];
      assert forall k :: 0 <= k < |init| ==> init[k] == records[k];
      ResultCount(init) + |records[|records| - 1].results|
  }

  /** The number of correct results over all the records; never more than
      the number of results. */
  function CorrectTotal(records: seq<Record>): (n: nat)
    ensures n <= ResultCount(records)
  {
    if |records| == 0 then 0
    else CorrectTotal(records[..|records| - 1]) + CorrectCount(records[|records| - 1].results)
  }

  /** Both totals add up over a concatenation of record lists. */
  lemma {:induction false} TotalsConcat(xs: seq<Record>, ys: seq<Record>)
    ensures ResultCount(xs + ys) == ResultCount(xs) + ResultCount(ys)
    ensures CorrectTotal(xs + ys) == CorrectTotal(xs) + CorrectTotal(ys)
    decreases |ys|
  {
    if |ys| > 0 {
      var ys' := ys[..|ys| - 1];
      assert (xs + ys)[..|xs + ys| - 1] == xs + ys';
      TotalsConcat(xs, ys');
    } else {
      assert xs + ys == xs;
    }
  }

  /** The number of words reviewed on a date: the `count` of the calendar.
      It is 0 exactly when no record of that date holds a result, and never
      more than the results of all the records. */
  function DayCount(records: seq<Record>, date: string): (n: nat)
    ensures n == 0 <==> forall k :: 0 <= k < |records| && records[k].date == date ==> |records[k].results| == 0
    ensures n <= ResultCount(records)
  {
    var day := RecordsByDate(records, date);
    RecordsByDateSelects(records, date);
    assert forall k :: 0 <= k < |records| && records[k].date == date ==> records[k] in multiset(day);
    assert forall j :: 0 <= j < |day| ==> day[j] in multiset(records) && day[j].date == date;
    ByDateResultsBound(records, date);
    ResultCount(day)
  }

  /** Keeping the records of one date keeps at most all the results. */
  lemma {:induction false} ByDateResultsBound(records: seq<Record>, date: string)
    ensures ResultCount(RecordsByDate(records, date)) <= ResultCount(records)
    decreases |records|
  {
    if |records| > 0 {
      var init := records[..|records| - 1];
      ByDateResultsBound(init, date);
      var rest := RecordsByDate(init, date);
      var last := records[|records| - 1];
      if last.date == date {
        TotalsConcat(rest, [last]);
        assert [last][..0] == [];
      }
    }
  }

  /** `records.map(r => r.date)`. */
  function RecordDates(records: seq<Record>): (ds: seq<string>)
    ensures |ds| == |records|
    ensures forall k :: 0 <= k < |records| ==> ds[k] == records[k].date
  {
    if |records| == 0 then [] else RecordDates(records[..|records| - 1]) + [records[|records| - 1].date]
  }

  /** `new Set(records.map(r => r.date))`: every record's date, and empty
      only for an empty list. */
  function DateSet(records: seq<Record>): (s: set<string>)
    ensures forall k :: 0 <= k < |records| ==> records[k].date in s
    ensures |s| == 0 <==> |records| == 0
  {
    assert |records| > 0 ==> records[0].date in set k | 0 <= k < |records| :: records[k].date;
    set k | 0 <= k < |records| :: records[k].date
  }

  /** `[...new Set(dates)].sort().reverse()`: every study date once, latest
      first in string order. With distinct values the descending order is
      unique, so sorting descending is the same as sorting and reversing. */
  function StudyDates(records: seq<Record>): (ds: seq<string>)
    ensures NoDuplicates(ds)
    ensures forall d :: d in ds <==> d in DateSet(records)
    ensures forall i, j :: 0 <= i < j < |ds| ==> LexLess(ds[j], ds[i])
  {
    var dates := RecordDates(records);
    var distinct := Distinct(dates);
    var ds := SortDescBy(distinct, (d: string) => d);
    PermutationNoDuplicates(distinct, ds);
    forall d ensures d in ds <==> d in DateSet(records) {
      assert d in ds <==> d in multiset(distinct);
      if d in dates {
        var k :| 0 <= k < |dates| && dates[k] == d;
      }
    }
    forall i, j | 0 <= i < j < |ds| ensures LexLess(ds[j], ds[i]) {
      SortedDistinctStrict(ds, (d: string) => d, i, j);
    }
    ds
  }

  /** `getTotalStudyDays`: the number of distinct record dates. */
  function TotalStudyDays(records: seq<Record>): (n: nat)
    ensures n == |StudyDates(records)|
    ensures n <= |records|
  {
    var ds := StudyDates(records);
    NoDuplicatesCard(ds);
    assert (set d | d in ds) == DateSet(records);
    DateSetCard(records);
    |DateSet(records)|
  }

  /** There are no more distinct dates than records. */
  lemma {:induction false} DateSetCard(records: seq<Record>)
    ensures |DateSet(records)| <= |records|
    decreases |records|
  {
    if |records| > 0 {
      var t := records[..|records| - 1];
      DateSetCard(t);
      assert DateSet(records) == DateSet(t) + {records[|records| - 1].date};
    }
  }

  /** A way of writing days that tells valid days apart and whose string
      order is the calendar order on days with four-digit years.
      `FormatDate` is one (`FormatDateFaithful`); the streak lemmas below
      hold for any such writing. */
  ghost predicate Faithful(fmt: Date -> string)
  {
    (forall a, b :: ValidDate(a) && ValidDate(b) && fmt(a) == fmt(b) ==> a == b)
    && (forall a, b :: ValidDate(a) && ValidDate(b) && FourDigitYear(a) && FourDigitYear(b) ==>
          (LexLess(fmt(a), fmt(b)) <==> Before(a, b)))
  }

  /** `formatDate` writes days faithfully. */
  lemma FormatDateFaithful()
    ensures Faithful(FormatDate)
  {
    forall a, b | ValidDate(a) && ValidDate(b) && FormatDate(a) == FormatDate(b) ensures a == b {
      FormatDateInjective(a, b);
    }
    forall a, b | ValidDate(a) && ValidDate(b) && FourDigitYear(a) && FourDigitYear(b)
      ensures LexLess(FormatDate(a), FormatDate(b)) <==> Before(a, b)
    {
      FormatDateOrder(a, b);
    }
  }

  /** `n` is the streak the loop of `getContinuousDays` computes over the
      dates `dates` when days are written by `fmt`: the first `n` of them
      are today, yesterday, … in turn, and the next one (if any) is not the
      day before those. */
  predicate IsStreak(dates: seq<string>, today: Date, n: nat, fmt: Date -> string)
    requires ValidDate(today)
  {
    n <= |dates|
    && (forall i :: 0 <= i < n ==> dates[i] == fmt(DaysBefore(today, i)))
    && (n == |dates| || dates[n] != fmt(DaysBefore(today, n)))
  }

  /** The streak of a date list is a single number. */
  lemma StreakUnique(dates: seq<string>, today: Date, n: nat, m: nat, fmt: Date -> string)
    requires ValidDate(today) && IsStreak(dates, today, n, fmt) && IsStreak(dates, today, m, fmt)
    ensures n == m
  {
  }

  /** The streak never exceeds the number of study days, and each of its
      days was a study day. */
  lemma StreakBounds(records: seq<Record>, today: Date, n: nat, fmt: Date -> string)
    requires ValidDate(today) && IsStreak(StudyDates(records), today, n, fmt)
    ensures n <= TotalStudyDays(records)
    ensures forall i :: 0 <= i < n ==> fmt(DaysBefore(today, i)) in DateSet(records)
  {
    var ds := StudyDates(records);
    forall i | 0 <= i < n ensures fmt(DaysBefore(today, i)) in DateSet(records) {
      assert ds[i] in ds;
    }
  }

  /** The streak is 0 exactly when there are no records or the latest study
      date is not today; in particular one record dated after today makes it 0. */
  lemma StreakZero(records: seq<Record>, today: Date, n: nat, fmt: Date -> string)
    requires ValidDate(today) && IsStreak(StudyDates(records), today, n, fmt)
    ensures n == 0 <==> |records| == 0 || StudyDates(records)[0] != fmt(today)
    ensures (exists k :: 0 <= k < |records| && LexLess(fmt(today), records[k].date)) ==> n == 0
  {
    var ds := StudyDates(records);
    assert DaysBefore(today, 0) == today;
    if |records| > 0 {
      assert records[0].date in DateSet(records);
      assert |ds| > 0;
    }
    if exists k :: 0 <= k < |records| && LexLess(fmt(today), records[k].date) {
      var k :| 0 <= k < |records| && LexLess(fmt(today), records[k].date);
      assert records[k].date in ds;
      var j :| 0 <= j < |ds| && ds[j] == records[k].date;
      if j == 0 {
        LexLessIrreflexive(ds[0]);
      }
    }
  }

  /** `days[k]` is the day record `k` was made, written by `fmt`: a real day
      with a four-digit year, not after today. Every record made by
      `addRecord` on a clock between the years 1000 and 9999 satisfies this
      with `FormatDate`. */
  predicate DatedBy(records: seq<Record>, days: seq<Date>, today: Date, fmt: Date -> string)
  {
    |days| == |records|
    && forall k :: 0 <= k < |records| ==>
         ValidDate(days[k]) && FourDigitYear(days[k]) && !Before(today, days[k])
         && records[k].date == fmt(days[k])
  }

  /** `es[i]` is the day `ds[i]` writes, a real day with a four-digit year
      not after today. */
  predicate WrittenDays(ds: seq<string>, es: seq<Date>, today: Date, fmt: Date -> string)
  {
    |es| == |ds|
    && forall i :: 0 <= i < |ds| ==>
         ValidDate(es[i]) && FourDigitYear(es[i]) && !Before(today, es[i]) && ds[i] == fmt(es[i])
  }

  /** A study date is the written form of a day in `days`. */
  lemma StudyDateDay(records: seq<Record>, days: seq<Date>, today: Date, fmt: Date -> string, i: nat)
    returns (e: Date)
    requires DatedBy(records, days, today, fmt)
    requires i < |StudyDates(records)|
    ensures ValidDate(e) && FourDigitYear(e) && !Before(today, e) && StudyDates(records)[i] == fmt(e)
  {
    var d := StudyDates(records)[i];
    assert d in StudyDates(records);
    var k :| 0 <= k < |records| && records[k].date == d;
    e := days[k];
  }

  /** The study dates of records dated by `days` are written days. */
  lemma StudyDays(records: seq<Record>, days: seq<Date>, today: Date, fmt: Date -> string)
    returns (es: seq<Date>)
    requires DatedBy(records, days, today, fmt)
    ensures WrittenDays(StudyDates(records), es, today, fmt)
  {
    var ds := StudyDates(records);
    es := [];
    while |es| < |ds|
      invariant |es| <= |ds|
      invariant forall i :: 0 <= i < |es| ==>
                  ValidDate(es[i]) && FourDigitYear(es[i]) && !Before(today, es[i]) && ds[i] == fmt(es[i])
    {
      var e := StudyDateDay(records, days, today, fmt, |es|);
      ghost var prev := es;
      es := es + [e];
      forall i | 0 <= i < |es|
        ensures ValidDate(es[i]) && FourDigitYear(es[i]) && !Before(today, es[i]) && ds[i] == fmt(es[i])
      {
        if i < |prev| {
          assert es[i] == prev[i];
        }
      }
    }
  }

  /** The streak is the whole run of study days ending today: when every
      record is dated by a real day not after today, the day before the
      streak is not a study day (the study dates are the record dates). */
  lemma StreakMaximal(records: seq<Record>, days: seq<Date>, today: Date, n: nat, fmt: Date -> string)
    requires ValidDate(today) && Faithful(fmt) && DatedBy(records, days, today, fmt)
    requires IsStreak(StudyDates(records), today, n, fmt)
    ensures fmt(DaysBefore(today, n)) !in StudyDates(records)
  {
    var es := StudyDays(records, days, today, fmt);
    RunMaximal(StudyDates(records), es, today, n, fmt);
  }

  /** The day-level argument: in a strictly descending list of written
      days none after today, the day before a streak does not occur. */
  lemma RunMaximal(ds: seq<string>, es: seq<Date>, today: Date, n: nat, fmt: Date -> string)
    requires ValidDate(today) && Faithful(fmt) && WrittenDays(ds, es, today, fmt)
    requires forall i, j :: 0 <= i < j < |ds| ==> LexLess(ds[j], ds[i])
    requires IsStreak(ds, today, n, fmt)
    ensures fmt(DaysBefore(today, n)) !in ds
  {
    forall j | 0 <= j < |ds| ensures ds[j] != fmt(DaysBefore(today, n)) {
      if j < n {
        DistinctBackDays(today, j, n, fmt);
      } else if j > n {
        GapBelow(ds, es, today, n, j, fmt);
      }
    }
  }

  /** Different distances back from today are written differently. */
  lemma DistinctBackDays(today: Date, i: nat, j: nat, fmt: Date -> string)
    requires ValidDate(today) && Faithful(fmt) && i < j
    ensures fmt(DaysBefore(today, i)) != fmt(DaysBefore(today, j))
  {
    DaysBeforeDecreasing(today, i, j);
  }

  /** A date later in the list than the streak's end is not the day right
      before the streak. */
  lemma GapBelow(ds: seq<string>, es: seq<Date>, today: Date, n: nat, j: nat, fmt: Date -> string)
    requires ValidDate(today) && Faithful(fmt) && WrittenDays(ds, es, today, fmt)
    requires forall i, j :: 0 <= i < j < |ds| ==> LexLess(ds[j], ds[i])
    requires IsStreak(ds, today, n, fmt)
    requires n < j < |ds|
    ensures ds[j] != fmt(DaysBefore(today, n))
  {
    var dn := DaysBefore(today, n);
    if ds[j] == fmt(dn) {
      assert es[j] == dn;
      if n > 0 {
        var dp := DaysBefore(today, n - 1);
        assert es[n - 1] == dp;
        PrevIsImmediate(dp, es[n]);
      }
    }
  }

  /** The loop of `getContinuousDays`: walks the dates in order while each
      is the day being checked, stepping the checked day back by one each
      time, and stops (`break`) at the first date that is not. Days are
      written by `fmt`: `getContinuousDays` passes `FormatDate`. */
  method CountStreak(dates: seq<string>, today: Date, fmt: Date -> string) returns (continuousDays: nat)
    requires ValidDate(today)
    ensures IsStreak(dates, today, continuousDays, fmt)
  {
    continuousDays := 0;
    var checkDate := today;
    while continuousDays < |dates| && dates[continuousDays] == fmt(checkDate)
      invariant continuousDays <= |dates|
      invariant checkDate == DaysBefore(today, continuousDays)
      invariant forall k :: 0 <= k < continuousDays ==> dates[k] == fmt(DaysBefore(today, k))
    {
      ghost var n := continuousDays;
      ghost var here := dates[n];
      forall k | 0 <= k < n + 1 ensures dates[k] == fmt(DaysBefore(today, k)) {
        if k == n {
          assert dates[k] == here;
        }
      }
      continuousDays := continuousDays + 1;
      checkDate := Prev(checkDate);
    }
  }

  // ---------------------------------------------------------------------
  // The streak step as written

  /** The day `new Date(checkDate)` followed by `setDate(getDate() - 1)`
      steps to, on a machine whose local time is `offsetMinutes` ahead of
      UTC (between -12 and +14 hours). "YYYY-MM-DD" is read as midnight
      UTC, which is still the previous local day west of Greenwich, so
      there the step lands two days back. */
  function StreakStepAsWritten(d: Date, offsetMinutes: int): (p: Date)
    requires ValidDate(d) && -720 <= offsetMinutes <= 840
    ensures ValidDate(p)
    ensures offsetMinutes >= 0 ==> p == Prev(d)
    ensures offsetMinutes < 0 ==> p == DaysBefore(d, 2)
  {
    assert DaysBefore(d, 1) == Prev(d);
    var local := if offsetMinutes < 0 then Prev(d) else d;
    Prev(local)
  }

  /** The streak loop with the step as written over a list of study dates,
      days written by `fmt`. */
  function StreakAsWritten(dates: seq<string>, check: Date, offsetMinutes: int, fmt: Date -> string): (r: nat)
    requires ValidDate(check) && -720 <= offsetMinutes <= 840
    ensures r <= |dates|
    ensures r > 0 ==> dates[0] == fmt(check)
  {
    if |dates| == 0 || dates[0] != fmt(check) then 0
    else 1 + StreakAsWritten(dates[1..], StreakStepAsWritten(check, offsetMinutes), offsetMinutes, fmt)
  }

  /** East of Greenwich (and at UTC) the loop as written does count the
      streak: the step is exactly one day back. */
  lemma {:induction false} StreakAsWrittenEast(dates: seq<string>, check: Date, offsetMinutes: int, fmt: Date -> string)
    requires ValidDate(check) && 0 <= offsetMinutes <= 840
    ensures IsStreak(dates, check, StreakAsWritten(dates, check, offsetMinutes, fmt), fmt)
    decreases |dates|
  {
    var n := StreakAsWritten(dates, check, offsetMinutes, fmt);
    assert DaysBefore(check, 0) == check;
    if |dates| > 0 && dates[0] == fmt(check) {
      var p := Prev(check);
      StreakAsWrittenEast(dates[1..], p, offsetMinutes, fmt);
      var m := StreakAsWritten(dates[1..], p, offsetMinutes, fmt);
      assert n == m + 1;
      forall i | 0 <= i <= m ensures DaysBefore(p, i) == DaysBefore(check, i + 1) {
        DaysBeforeShift(check, i);
      }
      forall i | 0 <= i < n ensures dates[i] == fmt(DaysBefore(check, i)) {
        if i > 0 {
          assert dates[i] == dates[1..][i - 1];
        }
      }
      if n < |dates| {
        assert dates[n] == dates[1..][m];
      }
    }
  }

  /** West of Greenwich the loop as written stops after one day although
      yesterday was a study day too: studying on 2024-10-24 and 2024-10-25
      gives 1 instead of 2, for `formatDate` or any other faithful writing. */
  lemma StreakWestOfGreenwich(fmt: Date -> string)
    requires Faithful(fmt)
    ensures var dates := [fmt(Date(2024, 10, 25)), fmt(Date(2024, 10, 24))];
            StreakAsWritten(dates, Date(2024, 10, 25), -240, fmt) == 1 && IsStreak(dates, Date(2024, 10, 25), 2, fmt)
  {
    var d25, d24, d23 := Date(2024, 10, 25), Date(2024, 10, 24), Date(2024, 10, 23);
    var dates := [fmt(d25), fmt(d24)];
    assert Prev(d25) == d24 && Prev(d24) == d23;
    assert StreakStepAsWritten(d25, -240) == d23;
    assert fmt(d24) != fmt(d23);
    assert dates[1..] == [fmt(d24)];
    assert DaysBefore(d25, 1) == d24;
  }

  /** The same with the day written by `formatDate`. */
  lemma StreakWestOfGreenwichFormatted()
    ensures var dates := [FormatDate(Date(2024, 10, 25)), FormatDate(Date(2024, 10, 24))];
            StreakAsWritten(dates, Date(2024, 10, 25), -240, FormatDate) == 1
            && IsStreak(dates, Date(2024, 10, 25), 2, FormatDate)
  {
    FormatDateFaithful();
    StreakWestOfGreenwich(FormatDate);
  }

  // ---------------------------------------------------------------------
  // Calendar

  /** The intensity of a calendar day: 0 without words, then 1, 2 and 3
      from 1, 15 and 30 words on. */
  function CalendarLevel(count: int): (level: int)
    ensures 0 <= level <= 3
    ensures level == 0 <==> count <= 0
    ensures level == 3 <==> count >= 30
    ensures level == 2 <==> 15 <= count < 30
  {
    if count >= 30 then 3
    else if count >= 15 then 2
    else if count > 0 then 1
    else 0
  }

  /** More words never give a lower level. */
  lemma CalendarLevelMonotone(a: int, b: int)
    requires a <= b
    ensures CalendarLevel(a) <= CalendarLevel(b)
  {
  }
}
