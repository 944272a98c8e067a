/** The persistent store of `src/utils/storage.js` as one object. Each of
    the three storage keys (`wordLibrary`, `records`, `wrongWords`) is a
    field; a key that was never written, or was removed, reads as the empty
    value `getWordLibrary`/`getRecords`/`getWrongWords` return for it. The
    clock (`new Date()`) and the record id (`generateId()`) are parameters. */
module Storage {
  import opened Wrappers
  import opened Dates
  import opened Helpers
  import opened WordLibrary
  import opened Records
  import opened WrongBook
  import opened Statistics

  /** The three stored values together. */
  datatype Snapshot = Snapshot(library: Library, records: seq<Record>, wrongWords: seq<WrongWord>)

  /** The object `exportData` returns and `importData` accepts. A key that
      is absent or falsy is `None`; any object or array, even an empty one,
      is truthy and so `Some`. */
  datatype Backup = Backup(wordLibrary: Option<Library>, records: Option<seq<Record>>,
                           wrongWords: Option<seq<WrongWord>>, exportDate: string)

  /** `exportData`: every store, with the moment of export (the ISO string
      of the clock, passed in). */
  function Exported(s: Snapshot, exportDate: string): (b: Backup)
    ensures b.wordLibrary.Some? && b.records.Some? && b.wrongWords.Some?
    ensures b.exportDate == exportDate
  {
    Backup(Some(s.library), Some(s.records), Some(s.wrongWords), exportDate)
  }

  /** `importData`: each store present in the backup replaces the stored
      one; the others are left as they are. */
  function Imported(s: Snapshot, b: Backup): (t: Snapshot)
    ensures t.library == (if b.wordLibrary.Some? then b.wordLibrary.value else s.library)
    ensures t.records == (if b.records.Some? then b.records.value else s.records)
    ensures t.wrongWords == (if b.wrongWords.Some? then b.wrongWords.value else s.wrongWords)
  {
    Snapshot(
      match b.wordLibrary case Some(l) => l case None => s.library,
      match b.records case Some(r) => r case None => s.records,
      match b.wrongWords case Some(w) => w case None => s.wrongWords)
  }

  /** Importing an export restores exactly the exported state, whatever
      the state it is imported into. */
  lemma ImportExport(s: Snapshot, into: Snapshot, exportDate: string)
    ensures Imported(into, Exported(s, exportDate)) == s
  {
  }

  /** A backup with no store in it changes nothing. */
  lemma ImportEmpty(s: Snapshot, exportDate: string)
    ensures Imported(s, Backup(None, None, None, exportDate)) == s
  {
  }

  /** `getTodayStats`. */
  datatype TodayStats = TodayStats(totalWords: nat, correctWords: nat, correctRate: int)

  /** One day of `getCalendarData`. */
  datatype CalendarDay = CalendarDay(date: string, count: nat, level: int)

  /** The `forEach` of `getTodayStats`: adds up the number of results and
      the number of correct results of the records. */
  method SumResults(rs: seq<Record>) returns (totalWords: nat, correctWords: nat)
    ensures totalWords == ResultCount(rs) && correctWords == CorrectTotal(rs)
    ensures correctWords <= totalWords
  {
    totalWords, correctWords := 0, 0;
    for i := 0 to |rs|
      invariant totalWords == ResultCount(rs[..i])
      invariant correctWords == CorrectTotal(rs[..i])
    {
      assert rs[..i + 1][..i] == rs[..i];
      totalWords := totalWords + |rs[i].results|;
      correctWords := correctWords + CorrectCount(rs[i].results);
    }
    assert rs[..|rs|] == rs;
  }

  /** The calendar entry of the day written `date`: the number of words
      reviewed on it and the resulting level. */
  function CalendarEntry(records: seq<Record>, date: string): (c: CalendarDay)
    ensures c.date == date && c.count == DayCount(records, date)
    ensures 0 <= c.level <= 3 && (c.level == 0 <==> c.count == 0)
  {
    var count := DayCount(records, date);
    CalendarDay(date, count, CalendarLevel(count))
  }

  /** The body of that loop for one day: `totalWords` is the number of
      results of the day's records and the level goes up at 1, 15 and 30. */
  method DayEntry(records: seq<Record>, dateStr: string) returns (entry: CalendarDay)
    ensures entry == CalendarEntry(records, dateStr)
  {
    var totalWords := ResultCount(RecordsByDate(records, dateStr));
    var level := 0;
    if totalWords > 0 { level := 1; }
    if totalWords >= 15 { level := 2; }
    if totalWords >= 30 { level := 3; }
    entry := CalendarDay(dateStr, totalWords, level);
  }

  /** The calendar of the `count` days from `lo + count - 1` days before
      `today` up to `lo` days before it, oldest first, days written by `fmt`. */
  function CalendarWindow(records: seq<Record>, today: Date, fmt: Date -> string, lo: nat, count: nat)
    : (w: seq<CalendarDay>)
    requires ValidDate(today)
    ensures |w| == count
    ensures forall k :: 0 <= k < count ==>
              w[k] == CalendarEntry(records, fmt(DaysBefore(today, lo + count - 1 - k)))
    decreases count
  {
    if count == 0 then []
    else
      var older := CalendarWindow(records, today, fmt, lo + 1, count - 1);
      var w := older + [CalendarEntry(records, fmt(DaysBefore(today, lo)))];
      assert forall k :: 0 <= k < count - 1 ==> w[k] == older[k];
      w
  }

  /** The loop of `getCalendarData`: for `i` from `days - 1` down to 0 it
      writes the day `i` days before `today` with `fmt` (`formatDate`) and
      appends that day's entry. */
  method BuildCalendar(records: seq<Record>, days: int, today: Date, fmt: Date -> string)
    returns (calendar: seq<CalendarDay>)
    requires ValidDate(today)
    ensures calendar == CalendarWindow(records, today, fmt, 0, if days > 0 then days else 0)
    ensures |calendar| > 0 ==> calendar[|calendar| - 1].date == fmt(today)
  {
    calendar := [];
    if days <= 0 {
      return;
    }
    var i := days - 1;
    while i >= 0
      invariant -1 <= i < days
      invariant calendar == CalendarWindow(records, today, fmt, i + 1, days - 1 - i)
    {
      var entry := DayEntry(records, fmt(DaysBefore(today, i)));
      assert CalendarWindow(records, today, fmt, i, days - i) == calendar + [entry];
      calendar := calendar + [entry];
      i := i - 1;
    }
    assert DaysBefore(today, 0) == today;
  }

  class Ledger {
    var library: Library
    var records: seq<Record>
    var wrongWords: seq<WrongWord>

    /** A browser profile with nothing stored yet. */
    constructor ()
      ensures library == map[] && records == [] && wrongWords == []
    {
      library := map[];
      records := [];
      wrongWords := [];
    }

    function State(): Snapshot
      reads this
    {
      Snapshot(library, records, wrongWords)
    }

    // -------------------------------------------------------------------
    // Word library

    /** `addGrade(grade, units)`. */
    method AddGrade(grade: string, units: Units)
      modifies this
      ensures library == AddGradeTo(old(library), grade, units)
      ensures records == old(records) && wrongWords == old(wrongWords)
    {
      library := AddGradeTo(library, grade, units);
    }

    /** `addWord(grade, unit, word)`. */
    method AddWord(grade: string, unit: string, w: WordEntry)
      modifies this
      ensures library == AddWordTo(old(library), grade, unit, w)
      ensures records == old(records) && wrongWords == old(wrongWords)
    {
      library := AddWordTo(library, grade, unit, w);
    }

    /** `deleteWord(grade, unit, wordText)`: records and the wrong-word book
        keep their entries for the word. */
    method DeleteWord(grade: string, unit: string, text: string)
      modifies this
      ensures library == DeleteWordFrom(old(library), grade, unit, text)
      ensures records == old(records) && wrongWords == old(wrongWords)
    {
      library := DeleteWordFrom(library, grade, unit, text);
    }

    // -------------------------------------------------------------------
    // Records and the wrong-word book

    /** `addRecord(grade, unit, results)` at the moment `now` with the
        fresh id `id`: appends exactly one record, returns it, and folds
        the review's wrong answers into the wrong-word book. The book is
        dated by a second reading of the clock, made after the record is
        stored; `errorDay` is the day of that reading, which differs from
        `now.date` only when midnight passes in between. */
    method AddRecord(grade: string, unit: string, results: seq<ReviewResult>, now: Instant, errorDay: Date, id: string)
      returns (record: Record)
      modifies this
      ensures record == Record(id, FormatDate(now.date), FormatTime(now.time), now.epochMillis, grade, unit, results)
      ensures records == old(records) + [record]
      ensures wrongWords == ApplyResults(old(wrongWords), Source(grade, unit), FormatDate(errorDay), results)
      ensures library == old(library)
    {
      record := Record(id, FormatDate(now.date), FormatTime(now.time), now.epochMillis, grade, unit, results);
      records := records + [record];
      UpdateWrongWordsFromRecord(grade, unit, results, FormatDate(errorDay));
    }

    /** `updateWrongWordsFromRecord(grade, unit, results)` with `today`
        the formatted current date. */
    method UpdateWrongWordsFromRecord(grade: string, unit: string, results: seq<ReviewResult>, today: string)
      modifies this
      ensures wrongWords == ApplyResults(old(wrongWords), Source(grade, unit), today, results)
      ensures library == old(library) && records == old(records)
    {
      var src := Source(grade, unit);
      var ws := wrongWords;
      for i := 0 to |results|
        invariant ws == ApplyResults(wrongWords, src, today, results[..i])
      {
        var result := results[i];
        assert results[..i + 1][..i] == results[..i];
        if !result.correct {
          var existingIndex := FindIndex(ws, result.word);
          if existingIndex >= 0 {
            var entry := ws[existingIndex];
            var sourceExists := src in entry.sources;
            var sources := if sourceExists then entry.sources else entry.sources + [src];
            ws := ws[existingIndex := entry.(errorCount := entry.errorCount + 1,
                                             lastErrorDate := today,
                                             sources := sources)];
          } else {
            ws := ws + [WrongWord(result.word, result.meaning, [src], 1, today)];
          }
        }
      }
      assert results[..|results|] == results;
      wrongWords := ws;
    }

    /** `removeFromWrongBook(wordText)`. */
    method RemoveFromWrongBook(text: string)
      modifies this
      ensures wrongWords == WithoutWrongWord(old(wrongWords), text)
      ensures library == old(library) && records == old(records)
    {
      wrongWords := WithoutWrongWord(wrongWords, text);
    }

    /** `getWrongWordsCount`: the length of the list, which for a list with
        unique keys is the number of distinct wrong words. */
    method WrongWordsCount() returns (n: nat)
      ensures n == |wrongWords|
      ensures KeysUnique(wrongWords) ==> n == |Words(wrongWords)|
    {
      n := |wrongWords|;
      if KeysUnique(wrongWords) {
        CountIsDistinctWords(wrongWords);
      }
    }

    // -------------------------------------------------------------------
    // Statistics

    /** `getTodayStats()` on the day `today`. */
    method GetTodayStats(today: Date) returns (stats: TodayStats)
      ensures stats.totalWords == DayCount(records, FormatDate(today))
      ensures stats.correctWords == CorrectTotal(RecordsByDate(records, FormatDate(today)))
      ensures stats.correctWords <= stats.totalWords
      ensures stats.correctRate == CalculateAccuracy(stats.correctWords, stats.totalWords)
      ensures 0 <= stats.correctRate <= 100
      ensures stats.totalWords == 0 ==> stats.correctRate == 0
    {
      var todayRecords := RecordsByDate(records, FormatDate(today));
      var totalWords, correctWords := SumResults(todayRecords);
      var rate := if totalWords > 0 then RoundDiv(100 * correctWords, totalWords) else 0;
      AccuracyBounds(correctWords, totalWords);
      stats := TodayStats(totalWords, correctWords, rate);
    }

    /** `getContinuousDays()` on the day `today`: 0 without records,
        otherwise the streak of the distinct record dates, latest first. */
    method GetContinuousDays(today: Date) returns (continuousDays: nat)
      requires ValidDate(today)
      ensures |records| == 0 ==> continuousDays == 0
      ensures IsStreak(StudyDates(records), today, continuousDays, FormatDate)
    {
      if |records| == 0 {
        return 0;
      }
      var dates := StudyDates(records);
      continuousDays := CountStreak(dates, today, FormatDate);
    }

    /** `getTotalStudyDays()`. */
    method GetTotalStudyDays() returns (n: nat)
      ensures n == |DateSet(records)|
      ensures n <= |records|
    {
      n := TotalStudyDays(records);
    }

    /** `getCalendarData(days)` on the day `today`: one entry per day of the
        last `days` days, oldest first and today last, each with the number
        of words reviewed that day and its intensity level. */
    method GetCalendarData(days: int, today: Date) returns (calendar: seq<CalendarDay>)
      requires ValidDate(today)
      ensures calendar == CalendarWindow(records, today, FormatDate, 0, if days > 0 then days else 0)
      ensures |calendar| > 0 ==> calendar[|calendar| - 1].date == FormatDate(today)
    {
      calendar := BuildCalendar(records, days, today, FormatDate);
    }

    // -------------------------------------------------------------------
    // Backup and restore

    /** `exportData()` at the moment written as `exportDate`. */
    method ExportData(exportDate: string) returns (b: Backup)
      ensures b == Exported(State(), exportDate)
      ensures Imported(State(), b) == State()
    {
      b := Backup(Some(library), Some(records), Some(wrongWords), exportDate);
      ImportExport(State(), State(), exportDate);
    }

    /** `importData(data)`. */
    method ImportData(data: Backup)
      modifies this
      ensures State() == Imported(old(State()), data)
    {
      if data.wordLibrary.Some? { library := data.wordLibrary.value; }
      if data.records.Some? { records := data.records.value; }
      if data.wrongWords.Some? { wrongWords := data.wrongWords.value; }
    }

    /** `clearAllData()`: every store reads as empty afterwards. */
    method ClearAllData()
      modifies this
      ensures library == map[] && records == [] && wrongWords == []
    {
      library := map[];
      records := [];
      wrongWords := [];
    }

    /** `initializeData(defaultLibrary)`: installs the default library only
        when the stored library has no grade and a default is given. */
    method InitializeData(defaultLibrary: Option<Library>)
      modifies this
      ensures library == if |old(library).Keys| == 0 && defaultLibrary.Some? then defaultLibrary.value else old(library)
      ensures records == old(records) && wrongWords == old(wrongWords)
    {
      if |library.Keys| == 0 && defaultLibrary.Some? {
        library := defaultLibrary.value;
      }
    }
  }

  /** A review recorded on a ledger whose book is well formed leaves it well
      formed, and each word's error count grows by its wrong answers. */
  method AddRecordKeepsBook(l: Ledger, grade: string, unit: string, results: seq<ReviewResult>, now: Instant, errorDay: Date, id: string, word: string)
    returns (record: Record)
    requires WellFormed(l.wrongWords)
    modifies l
    ensures WellFormed(l.wrongWords)
    ensures ErrorCount(l.wrongWords, word) == ErrorCount(old(l.wrongWords), word) + WrongTimes(results, word)
    ensures |l.records| == |old(l.records)| + 1 && l.records[|l.records| - 1] == record
  {
    ApplyResultsWellFormed(l.wrongWords, Source(grade, unit), FormatDate(errorDay), results);
    ApplyResultsErrorCount(l.wrongWords, Source(grade, unit), FormatDate(errorDay), results, word);
    record := l.AddRecord(grade, unit, results, now, errorDay, id);
  }
}
