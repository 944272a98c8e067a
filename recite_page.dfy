/** The answer bookkeeping of the recite page (`src/pages/RecitePage.jsx`)
    without its rendering: the shuffled word list, the map from a word's
    position to the learner's answer, the count of answered words, and the
    results and summary that finishing the session produces and records. */
module RecitePage {
  import opened Wrappers
  import opened Dates
  import opened Helpers
  import opened WordLibrary
  import opened Records
  import opened WrongBook
  import opened Statistics
  import opened Storage

  /** `answers[index] || false`: an unanswered word counts as wrong. */
  predicate AnsweredCorrectly(answers: map<int, bool>, index: int)
  {
    index in answers && answers[index]
  }

  /** The `results` of `handleComplete`: one result per shuffled word, in
      the same order, with its word, its meaning and whether it was
      answered correctly. */
  function BuildResults(words: seq<WordEntry>, answers: map<int, bool>): (r: seq<ReviewResult>)
    ensures |r| == |words|
    ensures forall k :: 0 <= k < |r| ==>
              r[k].word == words[k].word && r[k].meaning == words[k].meaning &&
              (r[k].correct <==> k in answers && answers[k])
  {
    seq(|words|, k requires 0 <= k < |words| =>
      ReviewResult(words[k].word, words[k].meaning, AnsweredCorrectly(answers, k)))
  }

  /** The positions below `n` answered correctly. */
  function CorrectPositions(answers: map<int, bool>, n: nat): set<int>
  {
    set k | 0 <= k < n && AnsweredCorrectly(answers, k)
  }

  /** The number of correct results is the number of positions answered
      correctly: answers at positions outside the list, and unanswered
      positions, add nothing. */
  lemma {:induction false} CorrectCountOfResults(words: seq<WordEntry>, answers: map<int, bool>)
    ensures CorrectCount(BuildResults(words, answers)) == |CorrectPositions(answers, |words|)|
    decreases |words|
  {
    if |words| > 0 {
      var n := |words| - 1;
      var init := words[..n];
      var rs := BuildResults(words, answers);
      assert rs[..n] == BuildResults(init, answers);
      CorrectCountOfResults(init, answers);
      if AnsweredCorrectly(answers, n) {
        assert CorrectPositions(answers, n + 1) == CorrectPositions(answers, n) + {n};
      } else {
        assert CorrectPositions(answers, n + 1) == CorrectPositions(answers, n);
      }
    }
  }

  /** The object `handleComplete` passes to `onComplete`. `correctRate` is
      `Math.round(correctCount / totalCount * 100)`, which is NaN for an
      empty list: that case is `None`. */
  datatype Summary = Summary(totalWords: nat, correctWords: nat, wrongWords: int,
                             correctRate: Option<int>, record: Record)

  /** The summary of a finished session's results and the record stored
      for them. */
  function Summarize(results: seq<ReviewResult>, record: Record): (s: Summary)
    ensures s.totalWords == |results| && s.correctWords == CorrectCount(results)
    ensures 0 <= s.wrongWords && s.correctWords + s.wrongWords == s.totalWords
    ensures s.correctRate.None? <==> |results| == 0
    ensures s.correctRate.Some? ==> 0 <= s.correctRate.value <= 100
    ensures s.correctRate.Some? ==> 2 * s.totalWords * s.correctRate.value <= 200 * s.correctWords + s.totalWords
                                                        < 2 * s.totalWords * s.correctRate.value + 2 * s.totalWords
    ensures s.correctRate.Some? && s.wrongWords == 0 ==> s.correctRate.value == 100
    ensures s.record == record
  {
    var correctCount := CorrectCount(results);
    var totalCount := |results|;
    AccuracyBounds(correctCount, totalCount);
    Summary(totalCount, correctCount, totalCount - correctCount,
            if totalCount == 0 then None else Some(CalculateAccuracy(correctCount, totalCount)),
            record)
  }

  /** Every recorded answer is for a position of the list. */
  predicate AnswersWithin(answers: map<int, bool>, n: nat)
  {
    forall k :: k in answers ==> 0 <= k < n
  }

  /** The positions `0..n`, as many as the list is long. */
  function Positions(n: nat): (r: set<int>)
    ensures forall k :: k in r <==> 0 <= k < n
    ensures |r| == n
  {
    if n == 0 then {} else Positions(n - 1) + {n - 1}
  }

  /** A subset as large as its superset is the superset. */
  lemma SubsetSameSize(a: set<int>, b: set<int>)
    requires a <= b && |a| == |b|
    ensures a == b
  {
    assert b == a + (b - a);
    assert a * (b - a) == {};
    assert |b - a| == 0;
  }

  /** `allAnswered`: with `count` the number of answered positions, all of
      them in the list, the count reaches the length of the list exactly
      when every position has an answer. */
  lemma AllAnsweredIffEveryPosition(answers: map<int, bool>, n: nat, count: nat)
    requires count == |answers.Keys| && AnswersWithin(answers, n)
    ensures count == n <==> forall k :: 0 <= k < n ==> k in answers
  {
    assert answers.Keys <= Positions(n);
    if count == n {
      SubsetSameSize(answers.Keys, Positions(n));
      forall k | 0 <= k < n ensures k in answers {
        assert k in Positions(n);
      }
    }
    if forall k :: 0 <= k < n ==> k in answers {
      assert answers.Keys == Positions(n);
    }
  }

  /** One mounted recite page for `grade` and `unit`. */
  class ReciteSession {
    const grade: string
    const unit: string
    var shuffledWords: seq<WordEntry>
    var answers: map<int, bool>
    var completedCount: nat

    /** The counter counts the answered positions. */
    ghost predicate Valid()
      reads this
    {
      completedCount == |answers.Keys|
    }

    /** The initial `useState` values. */
    constructor (grade: string, unit: string)
      ensures this.grade == grade && this.unit == unit
      ensures shuffledWords == [] && answers == map[] && completedCount == 0
      ensures Valid()
    {
      this.grade := grade;
      this.unit := unit;
      shuffledWords := [];
      answers := map[];
      completedCount := 0;
    }

    /** The `useEffect` on `words`: shows a shuffle of the words and forgets
        every answer. */
    method Load(words: seq<WordEntry>)
      modifies this
      ensures multiset(shuffledWords) == multiset(words) && |shuffledWords| == |words|
      ensures answers == map[] && completedCount == 0
      ensures Valid()
    {
      var shuffled := ShuffleArray(words);
      shuffledWords := shuffled;
      answers := map[];
      completedCount := 0;
    }

    /** `handleAnswer(index, correct)`: a position answered already keeps
        its first answer; a new answer is recorded and counted once. */
    method HandleAnswer(index: int, correct: bool)
      requires Valid()
      modifies this
      ensures index in old(answers) ==> answers == old(answers) && completedCount == old(completedCount)
      ensures index !in old(answers) ==>
                answers == old(answers)[index := correct] && completedCount == old(completedCount) + 1
      ensures shuffledWords == old(shuffledWords)
      ensures Valid()
    {
      if index in answers {
        return;
      }
      answers := answers[index := correct];
      completedCount := completedCount + 1;
    }

    /** `allAnswered`. */
    function AllAnswered(): bool
      reads this
    {
      completedCount == |shuffledWords|
    }

    /** `handleComplete()` at the moment `now`, the new record taking the
        id `id` and the wrong-word book dated `errorDay` (see `AddRecord`):
        builds the results, records them once on the ledger and reports the
        summary. The session itself is left as it is. */
    method HandleComplete(ledger: Ledger, now: Instant, errorDay: Date, id: string) returns (summary: Summary)
      modifies ledger
      ensures var results := BuildResults(shuffledWords, answers);
              var record := Record(id, FormatDate(now.date), FormatTime(now.time), now.epochMillis, grade, unit, results);
              summary == Summarize(results, record) &&
              ledger.records == old(ledger.records) + [record] &&
              ledger.wrongWords == ApplyResults(old(ledger.wrongWords), Source(grade, unit), FormatDate(errorDay), results) &&
              ledger.library == old(ledger.library)
    {
      var results := BuildResults(shuffledWords, answers);
      var record := ledger.AddRecord(grade, unit, results, now, errorDay, id);
      summary := Summarize(results, record);
    }
  }

  /** On a session whose answers are all for positions of its list,
      `allAnswered` holds exactly when every shown word has an answer, and
      then the summary's correct count is the number of correct answers. */
  lemma AllAnsweredMeaning(s: ReciteSession)
    requires s.Valid() && AnswersWithin(s.answers, |s.shuffledWords|)
    ensures s.AllAnswered() <==> forall k :: 0 <= k < |s.shuffledWords| ==> k in s.answers
  {
    AllAnsweredIffEveryPosition(s.answers, |s.shuffledWords|, s.completedCount);
  }
}
