# Word-learning app: the storage ledger, its statistics and the page logic

The modelled system is a browser app for primary-school English
vocabulary. Its word library maps each grade to its units, and each unit to
an ordered list of word entries. The learner recites a unit and marks each
word as known or not. Each session is stored as a record with its date, time
and results. Every wrong answer is folded into a wrong-word book, which keeps
per word an error count, the last error date and the grade/unit sources it
came from. Statistics pages read the records back:
- today's totals;
- the streak of consecutive study days;
- the number of distinct study days;
- a calendar heat map.

The history page groups records under "today", "yesterday" or their date.
The wrong-word page groups the book by source.

The Dafny model has twelve modules, one file each:

- `Strings`, `Dates`, `Sorting`: the vocabulary the rest is stated in.
  - Trimming, splitting and joining on a separator.
  - Number-to-text conversion and `padStart`.
  - Calendar dates as `(year, month, day)` with the Gregorian previous day.
  - `formatDate` and `formatTime`.
  - Descending sorts by a string key and by an integer key.
- `Helpers` (`src/utils/helpers.js`): the Fisher-Yates shuffle as an
  in-place loop over an array, and the rounded percentage.
- `WordLibrary`, `Records`, `WrongBook`, `Statistics`: the pure parts of
  `src/utils/storage.js`.
  - Library lookups and edits.
  - Record filters and word history.
  - The wrong-word book's update rule.
  - The statistics as functions of the record list.
- `Storage`: the `Ledger` class. It has three fields (`library`, `records`
  and `wrongWords`) that stand for the three `localStorage` entries. Each
  exported operation is a method, proved against the functions above.
- `InitWords` (`src/data/initWords.js`): the text format
  `grade line` + `Unit N: word-meaning, …` and its parser.
- `RecitePage`, `WrongBookPage`, `HistoryPage`: the non-rendering logic
  of the three pages.
  - The recite session is the class `ReciteSession` holding the answer map
    and the counter.
  - The two groupings are proved against fold functions.

The clock, the random draws and the record id are parameters:
- "now" is an `Instant` (local date, local time, epoch milliseconds);
- the shuffle's `j` is an arbitrary choice in `0..i`;
- the day of the second clock reading in `addRecord`, which dates the wrong-word book, is a `Date` argument;
- the new record's id is a string argument;
- the export moment is a string argument.

## Model

| member | source | states |
|---|---|---|
| Dates.Prev | src/utils/storage.js:317-319 | The previous calendar day is a valid date and is earlier. |
| Dates.PrevIsImmediate | src/utils/storage.js:317-319 | No valid day lies strictly between `Prev(d)` and `d`: every earlier day is `Prev(d)` or before it. |
| Dates.DaysBefore | src/utils/storage.js:349-350 | Going back `n` days from a valid date gives a valid date. |
| Dates.DaysBeforeDecreasing | src/utils/storage.js:348-351 | Going back further always gives a strictly earlier day, so the calendar's days are distinct and in order. |
| Dates.DaysBeforeShift | src/utils/storage.js:317-319 | Going back `n` days from yesterday is going back `n + 1` days from today. |
| Dates.FormatDate | src/utils/storage.js:421-426 | On a valid date, `formatDate` is the unpadded year followed by "-MM-DD", month and day as two digits each. |
| Dates.FormatTime | src/utils/storage.js:433-438 | On a valid time, `formatTime` is "HH:MM:SS", each field as two digits. |
| Dates.TimeText | src/utils/storage.js:433-438 | "HH:MM:SS" is always eight characters. |
| Dates.TimeTextInjective | src/utils/storage.js:433-438 | Different (hours, minutes, seconds) give different "HH:MM:SS" texts. |
| Dates.FormatTimeInjective | src/utils/storage.js:433-438 | Different valid times are written differently. |
| Dates.FormatTimeOrder | src/utils/storage.js:433-438 | Comparing written times as strings compares the times of day: hours, then minutes, then seconds. |
| Dates.DashPairInjective | src/utils/storage.js:423-425 | Different month/day pairs give different "-MM-DD" texts. |
| Dates.DashPairOrder | src/utils/storage.js:423-425 | The text order of "-MM-DD" is the (month, day) order. |
| Dates.FormatDateLength | src/utils/storage.js:421-426 | A date with a four-digit year is written with exactly ten characters. |
| Dates.FormatDateInjective | src/utils/storage.js:421-426 | Different valid days are written differently, whatever the year. |
| Dates.FormatDateOrder | src/utils/storage.js:307 | With four-digit years, comparing the written dates as strings compares the days chronologically. This is what the `sort()` of dates relies on. |
| Strings.Trim | src/data/initWords.js:145-146 | A trimmed string is no longer than the original and neither starts nor ends with whitespace. |
| Strings.TrimStartDropsWhitespace | src/data/initWords.js:150 | Only whitespace is removed at the front. |
| Strings.TrimEndDropsWhitespace | src/data/initWords.js:150 | Only whitespace is removed at the back. |
| Strings.TrimIdempotent | src/data/initWords.js:159-162 | Trimming twice is trimming once. |
| Strings.IndexOf | src/data/initWords.js:159 | Gives the first position of the character, or -1 exactly when it is absent. |
| Strings.Split | src/data/initWords.js:145 | `split` always gives at least one piece. |
| Strings.SplitPiecesFree | src/data/initWords.js:158-159 | No piece of a split holds the separator. |
| Strings.JoinSplit | src/data/initWords.js:158-159 | Joining the pieces of a split gives back the text. |
| Strings.SplitJoin | src/data/initWords.js:158-159 | Splitting the join of separator-free pieces gives back exactly those pieces. |
| Strings.SplitCons | src/data/initWords.js:159 | A separator-free head is split off as the first piece. |
| Strings.NatToString | src/utils/storage.js:423-424 | `String(n)` is a non-empty string of digits, one digit below ten and at least two from ten on. |
| Strings.IntToString | src/utils/storage.js:422 | `String(year)` is non-empty and starts with a digit exactly for non-negative years. |
| Strings.PadStart | src/utils/storage.js:423-424 | `padStart` keeps the string as the suffix and fills up to the width with the pad character. |
| Strings.PaddedIsTwoDigits | src/utils/storage.js:423-424 | Padding a number below 100 to width two gives its two decimal digits. |
| Strings.NatToStringInjective | src/utils/storage.js:422 | Different numbers are written differently. |
| Helpers.ShuffleArray | src/utils/helpers.js:8-15 | For every sequence of random draws with `0 <= j <= i`, the result has the same length and the same multiset of elements as the input. An input of length 0 or 1 comes back unchanged. |
| Helpers.RoundDiv | src/utils/helpers.js:37 | `Math.round(n / d)`: the result `r` satisfies `r - 1/2 <= n/d < r + 1/2`, for either sign of `d`. |
| Helpers.CalculateAccuracy | src/utils/helpers.js:35-38 | 0 for a total of 0. Otherwise the integer nearest to `100*correct/total`, with halves rounded up, as `Math.round` does. |
| Helpers.AccuracyBounds | src/utils/helpers.js:35-38 | For `0 <= correct <= total` the rate lies in 0..100. It is 100 when all are correct and 0 when none are. |
| Helpers.AccuracyHundredBelowAllCorrect | src/utils/helpers.js:37 | Rounding gives 100 for 999 correct out of 1000, so 100 does not imply all correct. |
| Helpers.AccuracyMonotone | src/utils/helpers.js:37 | More correct answers out of the same total never give a lower rate. |
| WordLibrary.GradeUnits | src/utils/storage.js:39-42 | An unknown grade has no units. |
| WordLibrary.UnitWords | src/utils/storage.js:50-53 | An unknown grade or unit has no words. |
| WordLibrary.AddGradeTo | src/utils/storage.js:60-64 | The grade is present with exactly the given units, overwriting any earlier ones. Every other grade is unchanged. |
| WordLibrary.AddWordTo | src/utils/storage.js:72-78 | The grade and unit exist afterwards. The unit's list is the old list with the entry appended, duplicates allowed. Every other unit and grade is unchanged. |
| WordLibrary.WithoutWord | src/utils/storage.js:89-91 | The filter never lengthens the list. |
| WordLibrary.WithoutWordCounts | src/utils/storage.js:89-91 | Every entry with the word is removed. Every other entry keeps its multiplicity. |
| WordLibrary.WithoutWordConcat | src/utils/storage.js:89-91 | The filter distributes over concatenation, so the order of the kept entries is preserved. |
| WordLibrary.WithoutWordIdempotent | src/utils/storage.js:89-91 | Filtering twice is filtering once. |
| WordLibrary.WithoutWordKeeps | src/utils/storage.js:89-91 | An entry survives exactly when it was there and has another word. |
| WordLibrary.DeleteWordFrom | src/utils/storage.js:86-94 | It is a no-op when the grade or unit is missing. It keeps every grade and unit key. The named unit loses exactly that word's entries, and all other units are unchanged. |
| WordLibrary.DeleteWordIdempotent | src/utils/storage.js:86-94 | Deleting the same word twice is deleting it once. |
| WordLibrary.AddThenDelete | src/utils/storage.js:72-94 | An added entry sits at the end of its unit. Deleting its word afterwards leaves no entry with that word. |
| Records.RecordsByDate | src/utils/storage.js:156-159 | The filter never lengthens the list. |
| Records.RecordsByDateSelects | src/utils/storage.js:156-159 | Exactly the records of the date are kept, each as often as it is stored. |
| Records.RecordsByDateConcat | src/utils/storage.js:156-159 | The filter distributes over concatenation, so the stored order is preserved. |
| Records.FindResult | src/utils/storage.js:170 | `find` gives a result exactly when one has the word. What it gives is the first result with the word: no earlier result has it. |
| Records.HistoryRow | src/utils/storage.js:169-180 | A record gives a row exactly when one of its results has the word. The row carries the record's date, time, grade and unit, and the `correct` of the first result with the word. |
| Records.HistoryRows | src/utils/storage.js:168-182 | At most one row per record. |
| Records.HistoryRowsSingle | src/utils/storage.js:168-182 | One record gives its row, or nothing when it did not review the word. |
| Records.HistoryRowsConcat | src/utils/storage.js:168-182 | The rows of two record lists laid end to end are the rows of the first, then the rows of the second, so rows keep the record order. |
| Records.RowOptions | src/utils/storage.js:169-181 | The `map` step: exactly one optional row per record, position by position. |
| Records.HistoryRowsCount | src/utils/storage.js:168-182 | After the `filter`, each row occurs exactly as often as records give it. |
| Records.HistoryRowsMembers | src/utils/storage.js:168-182 | A row is present exactly when some record gives it. |
| Records.HistoryKeyOrder | src/utils/storage.js:183 | For days with four-digit years, the string order of "date time" keys is the order of the moments: by day, then by time of day. |
| Records.WordHistory | src/utils/storage.js:166-184 | A permutation of the rows, latest "date time" first. Every entry comes from a record holding the word. |
| Records.WordHistoryComplete | src/utils/storage.js:166-184 | A record holding the word contributes the row with its date, time, grade, unit and the first result's `correct`. That row occurs in the history exactly as often as records give it, and at least once. |
| Sorting.SortDescBy | src/utils/storage.js:183 | A permutation of the input, in descending key order. |
| Sorting.SortDescByInt | src/pages/HistoryPage.jsx:16 | A permutation of the input, in descending timestamp order. |
| Sorting.Distinct | src/utils/storage.js:307 | `[...new Set(...)]`: no duplicates, and the same elements as the input. |
| Sorting.NoDuplicatesCard | src/utils/storage.js:334-335 | A duplicate-free list is as long as its set of elements. |
| WrongBook.FindIndex | src/utils/storage.js:225 | `findIndex`: -1 exactly when no entry has the word. Otherwise the first entry with the word. |
| WrongBook.Entry | src/utils/storage.js:225 | The entry of a word, absent exactly when no entry has it. |
| WrongBook.AddSource | src/utils/storage.js:233-238 | The source is present afterwards. Nothing else is added, nothing is lost, and a duplicate-free list stays duplicate-free. |
| WrongBook.ApplyResult | src/utils/storage.js:222-250 | A correct result changes nothing. A wrong one adds at most one entry. |
| WrongBook.ApplyResultFrame | src/utils/storage.js:227-238 | No entry changes its word or meaning. Entries for other words are untouched. |
| WrongBook.ApplyResultEntry | src/utils/storage.js:222-250 | A wrong answer for an existing word adds one to its count, sets the last error date to today and adds the source if missing. A wrong answer for a new word appends `(word, meaning, [source], 1, today)`. Nothing else changes. |
| WrongBook.ApplyResultWellFormed | src/utils/storage.js:222-250 | The book stays well formed: unique word keys, counts at least 1, sources non-empty and duplicate-free. |
| WrongBook.ApplyResultsWellFormed | src/utils/storage.js:218-253 | The same for a whole review. |
| WrongBook.ApplyResults | src/utils/storage.js:218-253 | A review adds at most one entry per result. |
| WrongBook.ApplyResultsEntry | src/utils/storage.js:218-253 | After a review, each word wrong in it has its old count plus the number of times it was wrong, today's date and the source. The meaning is the stored one, or the first wrong result's meaning for a new word. Every other word is unchanged. |
| WrongBook.ApplyResultsErrorCount | src/utils/storage.js:218-253 | Each word's error count grows by exactly its number of wrong answers in the review. |
| WrongBook.ApplyResultsKeepsPrefix | src/utils/storage.js:218-253 | Existing entries keep their position, word and meaning. |
| WrongBook.AllCorrectNoChange | src/utils/storage.js:223 | A review with no wrong answer leaves the book as it is. |
| WrongBook.WrongTwiceInOneReview | src/utils/storage.js:218-253 | The same word wrong twice in one review gives one entry with count 2. |
| WrongBook.WrongTimes | src/utils/storage.js:223 | The number of wrong answers for a word is at most the number of results. |
| WrongBook.WithoutWrongWord | src/utils/storage.js:259-263 | The filter never lengthens the book. |
| WrongBook.WithoutWrongWordCounts | src/utils/storage.js:259-263 | Every entry with the word is removed. Every other entry keeps its multiplicity. |
| WrongBook.WithoutWrongWordConcat | src/utils/storage.js:259-263 | The filter distributes over concatenation, so the surviving entries keep their order. |
| WrongBook.WithoutWrongWordAbsent | src/utils/storage.js:259-263 | Removing a word the book does not hold leaves the book as it is. |
| WrongBook.WithoutWrongWordGone | src/utils/storage.js:259-263 | Afterwards the word has no entry. |
| WrongBook.WithoutWrongWordOthers | src/utils/storage.js:259-263 | Every other word keeps its entry. |
| WrongBook.WithoutWrongWordIdempotent | src/utils/storage.js:259-263 | Removing twice is removing once. |
| WrongBook.WithoutWrongWordWellFormed | src/utils/storage.js:259-263 | A well-formed book stays well formed. |
| WrongBook.CountIsDistinctWords | src/utils/storage.js:269-271 | With unique keys, the length of the book is the number of distinct wrong words. |
| Statistics.CorrectCount | src/utils/storage.js:288 | The number of correct results is at most the number of results. |
| Statistics.ResultCount | src/utils/storage.js:286-289 | The number of results over all records is 0 exactly when no record holds a result. |
| Statistics.CorrectTotal | src/utils/storage.js:286-289 | Over several records, the correct results never outnumber the results. |
| Statistics.TotalsConcat | src/utils/storage.js:286-289 | Both totals add up over concatenated record lists. |
| Statistics.DayCount | src/utils/storage.js:353-354 | A day's word count is 0 exactly when no record of that date holds a result, and never more than all the results. |
| Statistics.ByDateResultsBound | src/utils/storage.js:353-354 | Keeping only one date's records never increases the number of results. |
| Statistics.DateSet | src/utils/storage.js:307 | Every record's date is in the set, and the set is empty only for no records. |
| Statistics.RecordDates | src/utils/storage.js:307 | `records.map(r => r.date)`, position by position. |
| Statistics.StudyDates | src/utils/storage.js:307 | The distinct record dates, each once, exactly the dates of the records, strictly latest first. |
| Statistics.TotalStudyDays | src/utils/storage.js:332-336 | The number of distinct study dates, never more than the number of records. |
| Statistics.DateSetCard | src/utils/storage.js:334-335 | There are never more distinct dates than records. |
| Statistics.FormatDateFaithful | src/utils/storage.js:421-426 | `formatDate` writes distinct days differently and, with four-digit years, in chronological order. |
| Statistics.StreakUnique | src/utils/storage.js:313-323 | The loop's result is determined by the dates: two streak counts of the same list are equal. |
| Statistics.StreakBounds | src/utils/storage.js:302-336 | The streak never exceeds the total study days, and each counted day is a study date. |
| Statistics.StreakZero | src/utils/storage.js:304-323 | The streak is 0 exactly when there are no records or the latest study date is not today. In particular it is 0 when a record is dated after today. |
| Statistics.StudyDays | src/utils/storage.js:307 | Records dated by real days up to today give study dates that are those days written out. |
| Statistics.StreakMaximal | src/utils/storage.js:313-323 | For records dated by real days up to today, the day just before the streak is not a study day. The streak is the full run of consecutive days ending today. |
| Statistics.CountStreak | src/utils/storage.js:313-323 | The loop (with the step corrected to one calendar day) returns the streak: the first `n` dates are today, yesterday, … in turn, and the next one is not the following day back. |
| Statistics.StreakStepAsWritten | src/utils/storage.js:317-319 | The step as written goes back one day where local time is at or ahead of UTC, and two days west of Greenwich. |
| Statistics.StreakAsWritten | src/utils/storage.js:313-323 | The loop as written never counts more days than there are dates, and counts any only when the first date is the check date. |
| Statistics.StreakAsWrittenEast | src/utils/storage.js:313-323 | At or east of Greenwich, the loop as written does return the streak. |
| Statistics.StreakWestOfGreenwich | src/utils/storage.js:317-319 | West of Greenwich, study on 2024-10-24 and 2024-10-25 gives 1 with the step as written, although the streak is 2. |
| Statistics.StreakWestOfGreenwichFormatted | src/utils/storage.js:317-319 | The same with dates written by `formatDate`. |
| Statistics.CalendarLevel | src/utils/storage.js:357-360 | The level is 0 exactly for no words, 2 exactly for 15..29, 3 exactly from 30 on, and 1 for 1..14. |
| Statistics.CalendarLevelMonotone | src/utils/storage.js:357-360 | More words never give a lower level. |
| Storage.Exported | src/utils/storage.js:378-385 | The export holds every store and the export moment. |
| Storage.Imported | src/utils/storage.js:391-395 | Each store present in the backup replaces the stored one. An absent one is left as it is. |
| Storage.ImportExport | src/utils/storage.js:378-395 | Importing an export restores exactly the exported state, whatever state it is imported into. |
| Storage.ImportEmpty | src/utils/storage.js:391-395 | A backup with no store changes nothing. |
| Storage.SumResults | src/utils/storage.js:286-289 | The accumulation loop gives the total number of results and of correct results, the second never larger. |
| Storage.CalendarEntry | src/utils/storage.js:351-366 | A day's entry carries its date and its word count. Its level lies in 0..3 and is 0 exactly for no words. |
| Storage.DayEntry | src/utils/storage.js:351-366 | The loop body computes that day's entry. |
| Storage.CalendarWindow | src/utils/storage.js:348-367 | Exactly `count` entries, the `k`-th for the day `count - 1 - k` days back from the window's end. |
| Storage.BuildCalendar | src/utils/storage.js:343-370 | The loop builds the window of the last `days` days, none for `days <= 0`. The last entry is today's. |
| Storage.AddRecordKeepsBook | src/utils/storage.js:130-149 | Recording a review keeps the book well formed, grows each word's count by its wrong answers and appends the returned record. |
| Storage.Ledger.constructor | src/utils/storage.js:110-113 | A fresh profile reads as an empty library, no records and an empty book. |
| Storage.Ledger.AddGrade | src/utils/storage.js:60-64 | The library becomes `AddGradeTo` of the old one. The other stores are unchanged. |
| Storage.Ledger.AddWord | src/utils/storage.js:72-78 | The library becomes `AddWordTo` of the old one. The other stores are unchanged. |
| Storage.Ledger.DeleteWord | src/utils/storage.js:86-94 | The library becomes `DeleteWordFrom` of the old one. Records and the book keep the word. |
| Storage.Ledger.AddRecord | src/utils/storage.js:130-149 | Exactly one record is appended and returned, with the id, the date and time of `now`, the timestamp, the grade, the unit and the results. The book is folded with the review, dated by the day of the second clock reading. The library is unchanged. |
| Storage.Ledger.UpdateWrongWordsFromRecord | src/utils/storage.js:218-253 | The in-place `forEach` leaves the book equal to `ApplyResults` of the old book. Nothing else changes. |
| Storage.Ledger.RemoveFromWrongBook | src/utils/storage.js:259-263 | The book loses exactly that word's entries. Nothing else changes. |
| Storage.Ledger.WrongWordsCount | src/utils/storage.js:269-271 | The number of entries, which for unique keys is the number of distinct wrong words. |
| Storage.Ledger.GetTodayStats | src/utils/storage.js:279-296 | The totals over today's records, correct never more than total. The rate is the rounded percentage in 0..100, and 0 when nothing was reviewed. |
| Storage.Ledger.GetContinuousDays | src/utils/storage.js:302-326 | 0 without records, otherwise the streak of the distinct study dates ending today. |
| Storage.Ledger.GetTotalStudyDays | src/utils/storage.js:332-336 | The number of distinct record dates, at most the number of records. |
| Storage.Ledger.GetCalendarData | src/utils/storage.js:343-370 | The last `days` days oldest first, each with its word count and level. The last entry is today's. |
| Storage.Ledger.ExportData | src/utils/storage.js:378-385 | The export of the current state, which imports back to that same state. |
| Storage.Ledger.ImportData | src/utils/storage.js:391-395 | The new state is `Imported` of the old one. |
| Storage.Ledger.ClearAllData | src/utils/storage.js:400-404 | Every store reads as empty afterwards. |
| Storage.Ledger.InitializeData | src/utils/storage.js:444-449 | The default library is installed only when the stored library has no grade and a default is given. Records and the book are unchanged. |
| InitWords.DigitRun | src/data/initWords.js:153 | `\d+`: the longest prefix of digits. |
| InitWords.MatchUnitName | src/data/initWords.js:153 | A match gives "Unit ", at least one digit and a colon. |
| InitWords.MatchText | src/data/initWords.js:153 | `\s*(.+)$`: leading whitespace, then a non-empty suffix without line terminators. |
| InitWords.MatchUnitLine | src/data/initWords.js:153 | Every line the matcher accepts has the shape of the regular expression, with the captured name and text. |
| InitWords.MatchUnitLineComplete | src/data/initWords.js:153 | Every line of that shape is accepted with its unit name. Its text is captured when the text does not start with whitespace. |
| InitWords.MatchTextComplete | src/data/initWords.js:153 | Every whitespace-then-text tail is matched. |
| InitWords.ParseItem | src/data/initWords.js:159-163 | An item gives an entry without pronunciation. Its word and meaning hold no `-` and have no surrounding whitespace. |
| InitWords.ParseEach | src/data/initWords.js:158-163 | One entry per item, in order. |
| InitWords.KeepComplete | src/data/initWords.js:164 | The filter keeps only entries with a word and a meaning. |
| InitWords.KeepCompleteConcat | src/data/initWords.js:164 | The filter preserves left-to-right order. |
| InitWords.KeepCompleteAll | src/data/initWords.js:164 | It keeps every complete entry and no other. It keeps everything when all are complete. |
| InitWords.ParseItems | src/data/initWords.js:158-164 | At most one entry per comma-separated item. Every entry has a non-empty word and meaning and no pronunciation. |
| InitWords.ParseFormatItem | src/data/initWords.js:159-163 | Round trip: an entry with clean fields, written as `word-meaning`, parses back to itself. |
| InitWords.ParseItemIgnoresExtraParts | src/data/initWords.js:159-163 | Parts after the second `-` are ignored. |
| InitWords.ParseFormatItems | src/data/initWords.js:158-164 | Round trip: a list of clean entries written comma-separated parses back to the same list, in order. |
| InitWords.ParseItemsEmpty | src/data/initWords.js:158-164 | An empty item text gives no entries. |
| InitWords.ParseLine | src/data/initWords.js:150-164 | A line yields a unit exactly when its trimmed text matches the unit pattern, and then under the matched name. |
| InitWords.ParseLines | src/data/initWords.js:149-168 | One contribution per line, each line parsed on its own. |
| InitWords.UnitsOf | src/data/initWords.js:149-168 | The units are exactly the names of the matching lines. |
| InitWords.UnitsOfLast | src/data/initWords.js:166 | A later line with the same unit name replaces the earlier word list. |
| InitWords.LinesSkip | src/data/initWords.js:150-154 | A blank or non-matching line contributes nothing. |
| InitWords.UnitsOfSkip | src/data/initWords.js:150-154 | A line without a unit can be dropped without changing the result. |
| InitWords.UnitsOfFrom | src/data/initWords.js:166 | Every unit's list is the parse of some matching line with that name. |
| InitWords.ParsedEntriesComplete | src/data/initWords.js:164 | Every entry of every unit has a non-empty word and meaning. |
| InitWords.Lines | src/data/initWords.js:145 | The text always has at least one line. |
| InitWords.ParseUnitLine | src/data/initWords.js:150-166 | The loop body computes the line's parse. |
| InitWords.ParseUnits | src/data/initWords.js:149-168 | The loop fills the units from the lines after the first, later lines winning. |
| InitWords.ParseWordText | src/data/initWords.js:144-171 | The library has exactly one grade, the trimmed first line, whose units are those of the remaining lines. |
| RecitePage.BuildResults | src/pages/RecitePage.jsx:54-58 | One result per shuffled word, in order, with its word and meaning. `correct` exactly when the position was answered `true`, so an unanswered word counts as wrong. |
| RecitePage.CorrectCountOfResults | src/pages/RecitePage.jsx:54-64 | The correct count is the number of positions answered `true`. Answers outside the list count for nothing. |
| RecitePage.Summarize | src/pages/RecitePage.jsx:63-75 | Totals: correct + wrong = total = number of results. The rate is absent (NaN) exactly for an empty list. Otherwise it is the rounded percentage in 0..100, and 100 when nothing is wrong. The summary carries the stored record. |
| RecitePage.Positions | src/pages/RecitePage.jsx:78 | The positions of an `n`-word list, exactly `n` of them. |
| RecitePage.AllAnsweredIffEveryPosition | src/pages/RecitePage.jsx:78 | With the counter equal to the number of answered positions inside the list, it reaches the list's length exactly when every position has an answer. |
| RecitePage.ReciteSession.constructor | src/pages/RecitePage.jsx:29-32 | The initial state: no words, no answers, counter 0. |
| RecitePage.ReciteSession.Load | src/pages/RecitePage.jsx:34-40 | The shown list is a permutation of the words. Answers and counter are reset. The counter invariant holds. |
| RecitePage.ReciteSession.HandleAnswer | src/pages/RecitePage.jsx:42-50 | A repeated answer changes nothing. A first answer is recorded and counted exactly once, keeping the counter equal to the number of answered positions. |
| RecitePage.ReciteSession.HandleComplete | src/pages/RecitePage.jsx:52-76 | Exactly one record is stored with the built results. The book is folded with them. The summary of those results and that record is reported. |
| RecitePage.AllAnsweredMeaning | src/pages/RecitePage.jsx:78 | On a valid session, `allAnswered` holds exactly when every shown word has an answer. |
| WrongBookPage.GroupKey | src/pages/WrongBookPage.jsx:20 | The key is the grade, then " - ", then the unit. |
| WrongBookPage.AddToGroup | src/pages/WrongBookPage.jsx:20-31 | The source's key exists afterwards. Every other group is unchanged. |
| WrongBookPage.GroupSources | src/pages/WrongBookPage.jsx:19-32 | One word's pass over its sources adds exactly the keys of those sources. |
| WrongBookPage.GroupWords | src/pages/WrongBookPage.jsx:17-33 | The grouping's keys are those of all sources of all words (`BookKeys`). |
| WrongBookPage.SourceKeysMembers | src/pages/WrongBookPage.jsx:20 | A key of a source list is the key of one of its sources. |
| WrongBookPage.EntriesFiled | src/pages/WrongBookPage.jsx:17-33 | With unique keys, every word is in the group of each of its sources. |
| WrongBookPage.EntriesFromBook | src/pages/WrongBookPage.jsx:17-33 | Every grouped entry is a word of the book, with a source of that key. |
| WrongBookPage.GroupsLabelled | src/pages/WrongBookPage.jsx:20-31 | No group is empty and no group holds a word twice. A group's grade/unit give back its key and are a source of some word. |
| WrongBookPage.GroupKeysFromSources | src/pages/WrongBookPage.jsx:18-27 | A group exists exactly for the keys of the words' sources. |
| WrongBookPage.GroupLabelIsSource | src/pages/WrongBookPage.jsx:20-31 | When no grade or unit contains `-`, every grouped word has the group's grade/unit among its sources. |
| WrongBookPage.GroupKeyInjective | src/pages/WrongBookPage.jsx:20 | Dash-free grades and units give distinct keys to distinct sources. |
| WrongBookPage.GroupKeyCollision | src/pages/WrongBookPage.jsx:20-31 | Grade "A - B" with unit "C" and grade "A" with unit "B - C" share the key "A - B - C". Their words land in one group labelled with the first source. |
| WrongBookPage.SameWordSameEntry | src/pages/WrongBookPage.jsx:29-31 | With unique keys, two entries with the same word are the same entry. |
| WrongBookPage.RemovedWordInNoGroup | src/pages/WrongBookPage.jsx:38-42 | After removing a word and regrouping, no group holds that word. |
| WrongBookPage.LoadWrongWords | src/pages/WrongBookPage.jsx:12-36 | The nested loops build the grouping fold over the book's words and sources. |
| WrongBookPage.FileUnderSource | src/pages/WrongBookPage.jsx:20-31 | One inner step files the word under the source's group. |
| WrongBookPage.ReviewWords | src/pages/WrongBookPage.jsx:47-51 | One entry per group word, in order, with its word and meaning and an empty pronunciation. |
| WrongBookPage.HandleRemove | src/pages/WrongBookPage.jsx:38-43 | When confirmed, the word leaves the book and the page regroups the new book. Otherwise nothing changes. The library and the records are never touched. |
| HistoryPage.GroupKey | src/pages/HistoryPage.jsx:28-35 | The key is the date itself or the label of the day it is. Today's date always gets the today label. |
| HistoryPage.GroupRecords | src/pages/HistoryPage.jsx:27-41 | No group is empty, and none holds more records than were sorted. |
| HistoryPage.WithKey | src/pages/HistoryPage.jsx:27-41 | The records of one key, each from the list and with that key. |
| HistoryPage.GroupRecordsAreFilters | src/pages/HistoryPage.jsx:27-41 | A group exists exactly for the keys of the records. Each group is exactly the records with its key, in the sorted order. |
| HistoryPage.WithKeyCounts | src/pages/HistoryPage.jsx:37-40 | Each record is in its own key's group as often as it is stored, and in no other group. |
| HistoryPage.WithKeySorted | src/pages/HistoryPage.jsx:40 | A group taken from a latest-first list is latest first. |
| HistoryPage.GroupingPartitions | src/pages/HistoryPage.jsx:27-41 | Every record lands in the group of its key, as often as it is stored, and in no other group. Each group keeps the descending-timestamp order. |
| HistoryPage.TodayIsNotYesterday | src/pages/HistoryPage.jsx:21-25 | Today and yesterday are written differently. |
| HistoryPage.KeyCases | src/pages/HistoryPage.jsx:28-35 | Today's records go under '今天' and yesterday's under '昨天', exactly. Every other record goes under its own date. |
| HistoryPage.LoadRecords | src/pages/HistoryPage.jsx:13-44 | The records come out as a permutation in descending timestamp order, grouped by today's and yesterday's written dates. |
| HistoryPage.GroupSorted | src/pages/HistoryPage.jsx:27-41 | The `forEach` builds the grouping fold of the sorted list. |
| HistoryPage.GetRecordStats | src/pages/HistoryPage.jsx:53-58 | The number of results and of correct ones, correct never more than total. The rate is 0 for no results, otherwise the rounded percentage in 0..100, and 100 when all are correct. |

## Left out

- Rendering, navigation, dialogs and styling: none of them holds logic of its own. The `confirm` answer of `handleRemove` is a parameter.
- `localStorage`, `JSON.parse`/`JSON.stringify`, file download and upload: the three stores are the `Ledger`'s fields. The readers `getWordLibrary`, `getRecords` and `getWrongWords` are the fields themselves. Their fallback to `{}`/`[]` is the empty field.
- `Math.random` in the shuffle and in `generateId`: the shuffle's `j` is an arbitrary choice in `0..i`, proved for every choice. The record id is a parameter.
- The wall clock: "now" is an `Instant` parameter. JavaScript's `setDate(getDate() - 1)` rollover is the Gregorian `Dates.Prev`. `addRecord` reads the clock twice, once for the record (src/utils/storage.js:132) and once for the book's last error date (src/utils/storage.js:220). The second reading is the `errorDay` parameter, which the model does not tie to `now`.
- Storage.Ledger.GetCalendarData: the default `days = 28` of `getCalendarData` (src/utils/storage.js:343) is not modelled. Callers pass `days` explicitly.
- Helpers.CalculateAccuracy: `Math.round` on a floating-point quotient is modelled exactly in integers. A quotient that floating point rounds to just below a half may round differently in the browser.
- Helpers.AccuracyBounds: 100 is not "exactly when" all are correct, because rounding gives 100 for 999 of 1000. The model proves the one direction that holds and exhibits the other failing (`AccuracyHundredBelowAllCorrect`).
- RecitePage.Summarize: `Math.round(0 / 0 * 100)` is NaN for an empty list, modelled as `None`. The circle and progress percentages of the page are display arithmetic and left out.
- Records.WordHistory: `new Date(date + ' ' + time)` is modelled as the order of the fixed-width "YYYY-MM-DD HH:MM:SS" text. Dates with an unusual year width, or strings that do not parse, are not modelled.
- Sorting.SortDescBy, Sorting.SortDescByInt: the in-place JavaScript sort is modelled as a function on the sequence. The order among equal keys, which `Array.prototype.sort` keeps stable, is not stated.
- HistoryPage.GroupingPartitions: concatenating the groups in key-insertion order gives the sorted list only when dates never decrease with timestamps. That is not stated, because JavaScript object key order is not modelled.
- HistoryPage.KeyCases: requires a date other than two characters long. A stored date literally equal to '今天' or '昨天' would share those groups.
- WrongBookPage.GroupKey: the key `grade + " - " + unit` can collide. The model states that collision (`GroupKeyCollision`) and proves distinct keys only for dash-free names (`GroupKeyInjective`).
- RecitePage.ReciteSession.HandleAnswer: the page only passes indices of shown words. Other indices are accepted as the code accepts them, and `AllAnsweredMeaning` requires that answers lie within the list.
- `defaultWordLibrary` (src/data/initWords.js:4-132) is constant data and is not part of this model.
- Library operations imported by the library page but defined nowhere (`addUnit`, `deleteUnit`, `renameUnit`, `updateWord`, `importWords`) are not part of this model.
- `formatDate`, defined again in `src/pages/HistoryPage.jsx:46-51` and `src/utils/helpers.js:22-27`, is the same function as the storage layer's and is `Dates.FormatDate` throughout.

## Findings

| source | as written | input that shows it | evidently intended | confidence | as-written member | corrected member |
|---|---|---|---|---|---|---|
| src/utils/storage.js:317-319 | `new Date(checkDate)` reads "YYYY-MM-DD" as midnight UTC, while `setDate`/`getDate` and `formatDate` work in local time. West of Greenwich each step therefore goes back two local days. | Records on 2024-10-24 and 2024-10-25, today 2024-10-25, local time UTC-4: the loop returns 1 (`Statistics.StreakWestOfGreenwich`). | Step back one calendar day, giving 2; the run counted is then maximal (`Statistics.StreakMaximal`). | not executed | Statistics.StreakAsWritten | Statistics.CountStreak |
