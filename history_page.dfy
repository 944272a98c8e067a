/** The history page (`src/pages/HistoryPage.jsx`) without its rendering:
    the records latest first, grouped under "today", "yesterday" or their
    date, and the per-record statistics. */
module HistoryPage {
  import opened Dates
  import opened Helpers
  import opened Sorting
  import opened Records
  import opened Statistics

  /** The group labels '今天' ("today") and '昨天' ("yesterday"). */
  const TodayLabel: string := "今天"
  const YesterdayLabel: string := "昨天"

  function Timestamp(r: Record): int
  {
    r.timestamp
  }

  /** The `groupKey` of a record dated `date`: the date itself, or the label
      of the day it is; today's date is always labelled. */
  function GroupKey(date: string, todayStr: string, yesterdayStr: string): (r: string)
    ensures r == date || (r == TodayLabel && date == todayStr) || (r == YesterdayLabel && date == yesterdayStr)
    ensures date == todayStr ==> r == TodayLabel
  {
    if date == todayStr then TodayLabel
    else if date == yesterdayStr then YesterdayLabel
    else date
  }

  /** The `grouped` object: key to the records pushed under it. */
  type Grouped = map<string, seq<Record>>

  /** The `forEach` over the sorted records: each record is pushed at the
      end of its key's list, which is created when missing. No group is
      empty, and none holds more records than there are. */
  function GroupRecords(sorted: seq<Record>, todayStr: string, yesterdayStr: string): (r: Grouped)
    ensures forall key :: key in r ==> 0 < |r[key]| <= |sorted|
  {
    if |sorted| == 0 then map[]
    else
      var g := GroupRecords(sorted[..|sorted| - 1], todayStr, yesterdayStr);
      var rec := sorted[|sorted| - 1];
      var key := GroupKey(rec.date, todayStr, yesterdayStr);
      g[key := (if key in g then g[key] else []) + [rec]]
  }

  /** The records of `s` whose key is `key`, in the order of `s`. */
  function WithKey(s: seq<Record>, key: string, todayStr: string, yesterdayStr: string): (r: seq<Record>)
    ensures |r| <= |s|
    ensures forall k :: 0 <= k < |r| ==> r[k] in s && GroupKey(r[k].date, todayStr, yesterdayStr) == key
  {
    if |s| == 0 then []
    else
      var rest := WithKey(s[..|s| - 1], key, todayStr, yesterdayStr);
      var rec := s[|s| - 1];
      if GroupKey(rec.date, todayStr, yesterdayStr) == key then rest + [rec] else rest
  }

  /** The groups are the keys of the records, and each group lists exactly
      the records with its key, in the order of the sorted list. */
  lemma {:induction false} GroupRecordsAreFilters(s: seq<Record>, todayStr: string, yesterdayStr: string)
    ensures forall key :: key in GroupRecords(s, todayStr, yesterdayStr) <==>
              exists i :: 0 <= i < |s| && GroupKey(s[i].date, todayStr, yesterdayStr) == key
    ensures forall key :: key in GroupRecords(s, todayStr, yesterdayStr) ==>
              GroupRecords(s, todayStr, yesterdayStr)[key] == WithKey(s, key, todayStr, yesterdayStr)
    decreases |s|
  {
    if |s| > 0 {
      var init := s[..|s| - 1];
      GroupRecordsAreFilters(init, todayStr, yesterdayStr);
      assert forall i :: 0 <= i < |init| ==> init[i] == s[i];
      var last := GroupKey(s[|s| - 1].date, todayStr, yesterdayStr);
      if last !in GroupRecords(init, todayStr, yesterdayStr) {
        WithKeyAbsent(init, last, todayStr, yesterdayStr);
      }
    }
  }

  /** No record of `s` has a key that none of them has. */
  lemma {:induction false} WithKeyAbsent(s: seq<Record>, key: string, todayStr: string, yesterdayStr: string)
    requires forall i :: 0 <= i < |s| ==> GroupKey(s[i].date, todayStr, yesterdayStr) != key
    ensures WithKey(s, key, todayStr, yesterdayStr) == []
    decreases |s|
  {
    if |s| > 0 {
      WithKeyAbsent(s[..|s| - 1], key, todayStr, yesterdayStr);
    }
  }

  /** Each record of `s` is in the list of its own key as often as in `s`
      and in no other list. */
  lemma {:induction false} WithKeyCounts(s: seq<Record>, key: string, todayStr: string, yesterdayStr: string)
    ensures forall x :: multiset(WithKey(s, key, todayStr, yesterdayStr))[x] ==
              if GroupKey(x.date, todayStr, yesterdayStr) == key then multiset(s)[x] else 0
    decreases |s|
  {
    if |s| > 0 {
      var init := s[..|s| - 1];
      assert s == init + [s[|s| - 1]];
      WithKeyCounts(init, key, todayStr, yesterdayStr);
    }
  }

  /** A list in descending timestamp order stays so when filtered. */
  lemma {:induction false} WithKeySorted(s: seq<Record>, key: string, todayStr: string, yesterdayStr: string)
    requires SortedDescByInt(s, Timestamp)
    ensures SortedDescByInt(WithKey(s, key, todayStr, yesterdayStr), Timestamp)
    decreases |s|
  {
    if |s| > 0 {
      var init := s[..|s| - 1];
      var rec := s[|s| - 1];
      var rest := WithKey(init, key, todayStr, yesterdayStr);
      assert SortedDescByInt(init, Timestamp);
      WithKeySorted(init, key, todayStr, yesterdayStr);
      if GroupKey(rec.date, todayStr, yesterdayStr) == key {
        forall i | 0 <= i < |rest| ensures rec.timestamp <= rest[i].timestamp {
          var j :| 0 <= j < |init| && init[j] == rest[i];
          assert s[j] == rest[i];
        }
      }
    }
  }

  /** The promises of the grouping: every record appears, as often as it
      was stored, in the group of its own key and in no other group, and
      every group keeps the latest-first order. */
  lemma GroupingPartitions(s: seq<Record>, todayStr: string, yesterdayStr: string)
    requires SortedDescByInt(s, Timestamp)
    ensures forall rec :: rec in s ==> GroupKey(rec.date, todayStr, yesterdayStr) in GroupRecords(s, todayStr, yesterdayStr)
    ensures forall key, rec :: key in GroupRecords(s, todayStr, yesterdayStr) ==>
              multiset(GroupRecords(s, todayStr, yesterdayStr)[key])[rec] ==
              if GroupKey(rec.date, todayStr, yesterdayStr) == key then multiset(s)[rec] else 0
    ensures forall key :: key in GroupRecords(s, todayStr, yesterdayStr) ==>
              SortedDescByInt(GroupRecords(s, todayStr, yesterdayStr)[key], Timestamp)
  {
    var g := GroupRecords(s, todayStr, yesterdayStr);
    GroupRecordsAreFilters(s, todayStr, yesterdayStr);
    forall rec | rec in s ensures GroupKey(rec.date, todayStr, yesterdayStr) in g {
      var i :| 0 <= i < |s| && s[i] == rec;
    }
    forall key | key in g
      ensures forall rec: Record :: multiset(g[key])[rec] == if GroupKey(rec.date, todayStr, yesterdayStr) == key then multiset(s)[rec] else 0
      ensures SortedDescByInt(g[key], Timestamp)
    {
      WithKeyCounts(s, key, todayStr, yesterdayStr);
      WithKeySorted(s, key, todayStr, yesterdayStr);
    }
  }

  /** For a valid day, today and yesterday are written differently. */
  lemma TodayIsNotYesterday(today: Date)
    requires ValidDate(today)
    ensures FormatDate(today) != FormatDate(Prev(today))
  {
    if FormatDate(today) == FormatDate(Prev(today)) {
      FormatDateInjective(today, Prev(today));
      assert false;
    }
  }

  /** Which group a record goes to. For a record dated like a day (its date
      is not one of the two-character labels), the "today" group takes
      exactly today's records, the "yesterday" group exactly yesterday's,
      and every other record is grouped under its own date. */
  lemma KeyCases(date: string, today: Date)
    requires ValidDate(today) && |date| != 2
    ensures GroupKey(date, FormatDate(today), FormatDate(Prev(today))) == TodayLabel <==> date == FormatDate(today)
    ensures GroupKey(date, FormatDate(today), FormatDate(Prev(today))) == YesterdayLabel <==> date == FormatDate(Prev(today))
    ensures date != FormatDate(today) && date != FormatDate(Prev(today)) ==>
              GroupKey(date, FormatDate(today), FormatDate(Prev(today))) == date
  {
    TodayIsNotYesterday(today);
  }

  /** `loadRecords()` on the stored `records` when the local day is
      `today`: sorts them latest first (`b.timestamp - a.timestamp`) and
      files each under its key by the `forEach`. */
  method LoadRecords(records: seq<Record>, today: Date) returns (sorted: seq<Record>, grouped: Grouped)
    requires ValidDate(today)
    ensures multiset(sorted) == multiset(records) && SortedDescByInt(sorted, Timestamp)
    ensures grouped == GroupRecords(sorted, FormatDate(today), FormatDate(Prev(today)))
  {
    sorted := SortDescByInt(records, Timestamp);
    var todayStr := FormatDate(today);
    var yesterdayStr := FormatDate(Prev(today));
    grouped := GroupSorted(sorted, todayStr, yesterdayStr);
  }

  /** The `forEach` of `loadRecords` that fills `grouped`. */
  method GroupSorted(sorted: seq<Record>, todayStr: string, yesterdayStr: string) returns (grouped: Grouped)
    ensures grouped == GroupRecords(sorted, todayStr, yesterdayStr)
  {
    grouped := map[];
    for i := 0 to |sorted|
      invariant grouped == GroupRecords(sorted[..i], todayStr, yesterdayStr)
    {
      var rec := sorted[i];
      var key := GroupKey(rec.date, todayStr, yesterdayStr);
      if key !in grouped {
        grouped := grouped[key := []];
      }
      grouped := grouped[key := grouped[key] + [rec]];
      GroupStep(sorted, i, todayStr, yesterdayStr);
    }
    assert sorted[..|sorted|] == sorted;
  }

  /** One more record of the sorted list. */
  lemma GroupStep(s: seq<Record>, i: nat, todayStr: string, yesterdayStr: string)
    requires i < |s|
    ensures GroupRecords(s[..i + 1], todayStr, yesterdayStr) ==
            var g := GroupRecords(s[..i], todayStr, yesterdayStr);
            var key := GroupKey(s[i].date, todayStr, yesterdayStr);
            g[key := (if key in g then g[key] else []) + [s[i]]]
  {
    assert s[..i + 1][..i] == s[..i];
  }

  /** `{ total, correct, correctRate }`. */
  datatype RecordStats = RecordStats(total: nat, correct: nat, correctRate: int)

  /** `getRecordStats(record)`: the number of results, the number answered
      correctly, and the rounded percentage, 0 for a record without results. */
  function GetRecordStats(rec: Record): (s: RecordStats)
    ensures s.total == |rec.results| && s.correct == CorrectCount(rec.results)
    ensures s.correct <= s.total
    ensures s.total == 0 ==> s.correctRate == 0
    ensures s.total > 0 ==> 2 * s.total * s.correctRate <= 200 * s.correct + s.total < 2 * s.total * s.correctRate + 2 * s.total
    ensures 0 <= s.correctRate <= 100
    ensures s.total > 0 && s.correct == s.total ==> s.correctRate == 100
  {
    var total := |rec.results|;
    var correct := CorrectCount(rec.results);
    AccuracyBounds(correct, total);
    RecordStats(total, correct, if total > 0 then CalculateAccuracy(correct, total) else 0)
  }
}
