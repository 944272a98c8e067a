/** Review records of `src/utils/storage.js` and the read-only queries over
    the record list: `getRecordsByDate` and `getWordHistory`. */
module Records {
  import opened Wrappers
  import opened Strings
  import opened Sorting
  import opened Dates

  /** `{ word, meaning, correct }`: one answer of a review session. */
  datatype ReviewResult = ReviewResult(word: string, meaning: string, correct: bool)

  /** `{ id, date, time, timestamp, grade, unit, results }`. */
  datatype Record = Record(id: string, date: string, time: string, timestamp: int,
                           grade: string, unit: string, results: seq<ReviewResult>)

  /** `getRecordsByDate(date)`: `records.filter(r => r.date === date)`. */
  function RecordsByDate(records: seq<Record>, date: string): (r: seq<Record>)
    ensures |r| <= |records|
  {
    if |records| == 0 then []
    else
      var rest := RecordsByDate(records[..|records| - 1], date);
      var last := records[|records| - 1];
      if last.date == date then rest + [last] else rest
  }

  /** The filter keeps exactly the records dated `date`, each as often as it
      occurs in the list. */
  lemma {:induction false} RecordsByDateSelects(records: seq<Record>, date: string)
    ensures forall x :: multiset(RecordsByDate(records, date))[x] == if x.date == date then multiset(records)[x] else 0
    decreases |records|
  {
    if |records| > 0 {
      var init := records[..|records| - 1];
      assert records == init + [records[|records| - 1]];
      RecordsByDateSelects(init, date);
    }
  }

  /** The filter keeps the order of the list: it distributes over concatenation. */
  lemma {:induction false} RecordsByDateConcat(xs: seq<Record>, ys: seq<Record>, date: string)
    ensures RecordsByDate(xs + ys, date) == RecordsByDate(xs, date) + RecordsByDate(ys, date)
    decreases |ys|
  {
    if |ys| > 0 {
      var ys' := ys[..|ys| - 1];
      assert (xs + ys)[..|xs + ys| - 1] == xs + ys';
      RecordsByDateConcat(xs, ys', date);
    } else {
      assert xs + ys == xs;
    }
  }

  /** `results.find(r => r.word === word)`: the first result for the word. */
  function FindResult(results: seq<ReviewResult>, word: string): (r: Option<ReviewResult>)
    ensures r.None? <==> forall k :: 0 <= k < |results| ==> results[k].word != word
    ensures r.Some? ==> exists i :: 0 <= i < |results| && results[i] == r.value && r.value.word == word &&
                          forall k :: 0 <= k < i ==> results[k].word != word
  {
    if |results| == 0 then None
    else if results[0].word == word then Some(results[0])
    else
      var r := FindResult(results[1..], word);
      assert r.Some? ==> exists i :: 0 <= i < |results| && results[i] == r.value && r.value.word == word &&
                          forall k :: 0 <= k < i ==> results[k].word != word by {
        if r.Some? {
          var i :| 0 <= i < |results| - 1 && results[1..][i] == r.value && r.value.word == word &&
                   forall k :: 0 <= k < i ==> results[1..][k].word != word;
          assert forall k :: 1 <= k < i + 1 ==> results[k] == results[1..][k - 1];
        }
      }
      r
  }

  /** One row of a word's history: `{ date, time, grade, unit, correct }`. */
  datatype HistoryEntry = HistoryEntry(date: string, time: string, grade: string, unit: string, correct: bool)

  /** The history row of a record for `word`: present exactly when the record
      reviewed the word, with the record's date, time, grade and unit and the
      answer of the first result for the word. */
  function HistoryRow(rec: Record, word: string): (r: Option<HistoryEntry>)
    ensures r.Some? <==> exists j :: 0 <= j < |rec.results| && rec.results[j].word == word
    ensures r.Some? ==> r.value.date == rec.date && r.value.time == rec.time &&
                        r.value.grade == rec.grade && r.value.unit == rec.unit &&
                        exists j :: 0 <= j < |rec.results| && rec.results[j].word == word &&
                          r.value.correct == rec.results[j].correct &&
                          forall k :: 0 <= k < j ==> rec.results[k].word != word
  {
    match FindResult(rec.results, word)
    case None => None
    case Some(res) => Some(HistoryEntry(rec.date, rec.time, rec.grade, rec.unit, res.correct))
  }

  /** The `map` and `filter` steps of `getWordHistory`: one row per record
      that reviewed the word, in record order. */
  function HistoryRows(records: seq<Record>, word: string): (r: seq<HistoryEntry>)
    ensures |r| <= |records|
  {
    if |records| == 0 then []
    else
      var rest := HistoryRows(records[..|records| - 1], word);
      var row := HistoryRow(records[|records| - 1], word);
      if row.Some? then rest + [row.value] else rest
  }

  /** A single record gives its row, or nothing when it did not review the word. */
  lemma HistoryRowsSingle(rec: Record, word: string)
    ensures HistoryRows([rec], word) == if HistoryRow(rec, word).Some? then [HistoryRow(rec, word).value] else []
  {
    assert [rec][..0] == [];
  }

  /** The rows of two stretches of records, one after the other: the rows
      keep the order of the records. */
  lemma {:induction false} HistoryRowsConcat(xs: seq<Record>, ys: seq<Record>, word: string)
    ensures HistoryRows(xs + ys, word) == HistoryRows(xs, word) + HistoryRows(ys, word)
    decreases |ys|
  {
    if |ys| > 0 {
      var ys' := ys[..|ys| - 1];
      assert (xs + ys)[..|xs + ys| - 1] == xs + ys';
      assert (xs + ys)[|xs + ys| - 1] == ys[|ys| - 1];
      HistoryRowsConcat(xs, ys', word);
    } else {
      assert xs + ys == xs;
    }
  }

  /** What each record contributes before the `filter`, in record order. */
  function RowOptions(records: seq<Record>, word: string): (r: seq<Option<HistoryEntry>>)
    ensures |r| == |records|
    ensures forall k :: 0 <= k < |records| ==> r[k] == HistoryRow(records[k], word)
  {
    seq(|records|, k requires 0 <= k < |records| => HistoryRow(records[k], word))
  }

  /** A row occurs among the rows exactly as often as records give it. */
  lemma {:induction false} HistoryRowsCount(records: seq<Record>, word: string)
    ensures forall e :: multiset(HistoryRows(records, word))[e] == multiset(RowOptions(records, word))[Some(e)]
    decreases |records|
  {
    if |records| > 0 {
      var init := records[..|records| - 1];
      HistoryRowsCount(init, word);
      assert RowOptions(records, word) == RowOptions(init, word) + [HistoryRow(records[|records| - 1], word)];
    }
  }

  /** The rows are exactly the rows of the records that reviewed the word. */
  lemma HistoryRowsMembers(records: seq<Record>, word: string)
    ensures forall e :: e in HistoryRows(records, word) <==> exists k :: 0 <= k < |records| && HistoryRow(records[k], word) == Some(e)
  {
    HistoryRowsCount(records, word);
    var opts := RowOptions(records, word);
    forall e
      ensures e in HistoryRows(records, word) <==> exists k :: 0 <= k < |records| && HistoryRow(records[k], word) == Some(e)
    {
      assert e in HistoryRows(records, word) <==> Some(e) in multiset(opts);
      if Some(e) in opts {
        var k :| 0 <= k < |opts| && opts[k] == Some(e);
      }
    }
  }

  /** The key `getWordHistory` sorts by: `date + ' ' + time`. With
      "YYYY-MM-DD" and "HH:MM:SS" the string order of this key is the
      chronological order that `new Date(key)` gives. */
  function HistoryKey(e: HistoryEntry): string
  {
    e.date + " " + e.time
  }

  /** For rows written on days with four-digit years, the key order is the
      order of the moments: first by day, then by time of day. */
  lemma HistoryKeyOrder(e1: HistoryEntry, e2: HistoryEntry, d1: Date, t1: Time, d2: Date, t2: Time)
    requires ValidDate(d1) && FourDigitYear(d1) && ValidTime(t1) && e1.date == FormatDate(d1) && e1.time == FormatTime(t1)
    requires ValidDate(d2) && FourDigitYear(d2) && ValidTime(t2) && e2.date == FormatDate(d2) && e2.time == FormatTime(t2)
    ensures LexLess(HistoryKey(e1), HistoryKey(e2)) <==> Before(d1, d2) || (d1 == d2 && TimeBefore(t1, t2))
  {
    FormatDateLength(d1);
    FormatDateLength(d2);
    SpacedOrder(e1.date, e1.time, e2.date, e2.time);
    FormatDateOrder(d1, d2);
    FormatTimeOrder(t1, t2);
    if e1.date == e2.date {
      FormatDateInjective(d1, d2);
    }
  }

  /** Two "x y" keys whose first parts have one length compare by the first
      parts, then by the second. */
  lemma SpacedOrder(x1: string, y1: string, x2: string, y2: string)
    requires |x1| == |x2|
    ensures LexLess(x1 + " " + y1, x2 + " " + y2) <==> LexLess(x1, x2) || (x1 == x2 && LexLess(y1, y2))
  {
    assert x1 + " " + y1 == x1 + (" " + y1);
    assert x2 + " " + y2 == x2 + (" " + y2);
    LexLessConcat(x1, " " + y1, x2, " " + y2);
    LexLessIrreflexive(" ");
    LexLessConcat(" ", y1, " ", y2);
  }

  /** `getWordHistory(word)`: the rows of the records that reviewed `word`,
      latest first. */
  function WordHistory(records: seq<Record>, word: string): (r: seq<HistoryEntry>)
    ensures multiset(r) == multiset(HistoryRows(records, word))
    ensures SortedDescBy(r, HistoryKey)
    ensures forall e :: e in r ==> exists k :: 0 <= k < |records| && HistoryRow(records[k], word) == Some(e)
  {
    var rows := HistoryRows(records, word);
    var r := SortDescBy(rows, HistoryKey);
    HistoryRowsMembers(records, word);
    assert forall e :: e in r ==> e in multiset(rows);
    r
  }

  /** A record that reviewed the word contributes its row, with the answer
      of the first result for that word, and the history holds that row once
      for every record that gives it. */
  lemma WordHistoryComplete(records: seq<Record>, word: string, k: nat)
    requires k < |records|
    requires exists j :: 0 <= j < |records[k].results| && records[k].results[j].word == word
    ensures var e := HistoryEntry(records[k].date, records[k].time, records[k].grade, records[k].unit,
                                  FindResult(records[k].results, word).value.correct);
            multiset(WordHistory(records, word))[e] == multiset(RowOptions(records, word))[Some(e)] >= 1
  {
    var e := HistoryRow(records[k], word).value;
    HistoryRowsCount(records, word);
    assert RowOptions(records, word)[k] == Some(e);
  }
}
