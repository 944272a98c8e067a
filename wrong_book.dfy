/** The wrong-word book of `src/utils/storage.js`: one entry per word that
    was answered wrongly, with the units it was wrong in, how often and
    when last. `ApplyResults` is what `updateWrongWordsFromRecord` does to
    the list for one finished review; `WithoutWrongWord` is
    `removeFromWrongBook`. */
module WrongBook {
  import opened Wrappers
  import opened Sorting
  import opened Records

  /** `{ grade, unit }`: a unit in which the word was answered wrongly. */
  datatype Source = Source(grade: string, unit: string)

  /** `{ word, meaning, sources, errorCount, lastErrorDate }`. */
  datatype WrongWord = WrongWord(word: string, meaning: string, sources: seq<Source>,
                                 errorCount: int, lastErrorDate: string)

  /** `wrongWords.findIndex(w => w.word === word)`. */
  function FindIndex(ws: seq<WrongWord>, word: string): (i: int)
    ensures -1 <= i < |ws|
    ensures i == -1 <==> forall k :: 0 <= k < |ws| ==> ws[k].word != word
    ensures 0 <= i ==> ws[i].word == word && forall k :: 0 <= k < i ==> ws[k].word != word
  {
    if |ws| == 0 then -1
    else if ws[0].word == word then 0
    else
      var k := FindIndex(ws[1..], word);
      assert forall j :: 0 <= j < |ws[1..]| ==> ws[1..][j] == ws[j + 1];
      if k < 0 then -1 else k + 1
  }

  /** The entry `findIndex` finds for `word`, if there is one. */
  function Entry(ws: seq<WrongWord>, word: string): (e: Option<WrongWord>)
    ensures e.Some? ==> e.value in ws && e.value.word == word
    ensures e.None? <==> forall k :: 0 <= k < |ws| ==> ws[k].word != word
  {
    var i := FindIndex(ws, word);
    if i < 0 then None else Some(ws[i])
  }

  /** No two entries are for the same word. */
  predicate KeysUnique(ws: seq<WrongWord>)
  {
    forall i, j :: 0 <= i < j < |ws| ==> ws[i].word != ws[j].word
  }

  predicate EntryOk(w: WrongWord)
  {
    w.errorCount >= 1 && |w.sources| > 0 && NoDuplicates(w.sources)
  }

  /** The shape every list built by `updateWrongWordsFromRecord` has. */
  predicate WellFormed(ws: seq<WrongWord>)
  {
    KeysUnique(ws) && forall i :: 0 <= i < |ws| ==> EntryOk(ws[i])
  }

  /** `sources.some(...)` then `sources.push(...)`: the source is added at
      the end unless it is already there. */
  function AddSource(sources: seq<Source>, src: Source): (r: seq<Source>)
    ensures src in r
    ensures forall s :: s in r <==> s in sources || s == src
    ensures NoDuplicates(sources) ==> NoDuplicates(r)
    ensures |sources| <= |r|
  {
    if src in sources then sources else sources + [src]
  }

  /** The effect of one result of the `forEach`: a correct answer changes
      nothing; a wrong one bumps the entry of its word (count, date and
      source set; the meaning stays) or appends a fresh entry. */
  function ApplyResult(ws: seq<WrongWord>, src: Source, today: string, res: ReviewResult): (r: seq<WrongWord>)
    ensures res.correct ==> r == ws
    ensures |ws| <= |r| <= |ws| + 1
  {
    if res.correct then ws
    else
      var i := FindIndex(ws, res.word);
      if i >= 0 then
        ws[i := ws[i].(errorCount := ws[i].errorCount + 1,
                       lastErrorDate := today,
                       sources := AddSource(ws[i].sources, src))]
      else
        ws + [WrongWord(res.word, res.meaning, [src], 1, today)]
  }

  /** One result keeps the entries already there in place, with their words
      and meanings, and leaves the entries of other words as they were. */
  lemma ApplyResultFrame(ws: seq<WrongWord>, src: Source, today: string, res: ReviewResult)
    ensures var r := ApplyResult(ws, src, today, res);
      forall k :: 0 <= k < |ws| ==> r[k].word == ws[k].word && r[k].meaning == ws[k].meaning
                                    && (ws[k].word != res.word ==> r[k] == ws[k])
  {
  }

  /** The whole `forEach` over the results of one review, in order. */
  function ApplyResults(ws: seq<WrongWord>, src: Source, today: string, results: seq<ReviewResult>): (r: seq<WrongWord>)
    ensures |ws| <= |r| <= |ws| + |results|
  {
    if |results| == 0 then ws
    else ApplyResult(ApplyResults(ws, src, today, results[..|results| - 1]), src, today, results[|results| - 1])
  }

  /** How many results of the review answered `word` wrongly. */
  function WrongTimes(results: seq<ReviewResult>, word: string): (n: nat)
    ensures n <= |results|
  {
    if |results| == 0 then 0
    else
      var last := results[|results| - 1];
      WrongTimes(results[..|results| - 1], word) + if !last.correct && last.word == word then 1 else 0
  }

  /** The meaning carried by the first wrong result for `word`. */
  function FirstWrongMeaning(results: seq<ReviewResult>, word: string): string
    requires WrongTimes(results, word) > 0
  {
    var init := results[..|results| - 1];
    if WrongTimes(init, word) > 0 then FirstWrongMeaning(init, word) else results[|results| - 1].meaning
  }

  /** The error count the book holds for `word`: 0 when it has no entry. */
  function ErrorCount(ws: seq<WrongWord>, word: string): int
  {
    match Entry(ws, word)
    case None => 0
    case Some(e) => e.errorCount
  }

  /** Replacing an entry by one for the same word leaves every lookup's
      position where it was. */
  lemma FindIndexUpdate(ws: seq<WrongWord>, i: nat, x: WrongWord, word: string)
    requires i < |ws| && x.word == ws[i].word
    ensures FindIndex(ws[i := x], word) == FindIndex(ws, word)
  {
    assert forall k :: 0 <= k < |ws| ==> ws[i := x][k].word == ws[k].word;
  }

  /** Appending an entry leaves every earlier lookup where it was. */
  lemma FindIndexAppend(ws: seq<WrongWord>, x: WrongWord, word: string)
    ensures FindIndex(ws + [x], word) == if FindIndex(ws, word) >= 0 then FindIndex(ws, word)
                                         else if x.word == word then |ws| else -1
  {
    assert forall k :: 0 <= k < |ws| ==> (ws + [x])[k] == ws[k];
    if FindIndex(ws, word) >= 0 {
      assert (ws + [x])[FindIndex(ws, word)].word == word;
    } else if x.word == word {
      assert (ws + [x])[|ws|].word == word;
    }
  }

  /** The lookup on a list with a given first entry. */
  lemma EntryCons(x: WrongWord, t: seq<WrongWord>, word: string)
    ensures Entry([x] + t, word) == if x.word == word then Some(x) else Entry(t, word)
  {
    assert ([x] + t)[1..] == t;
  }

  /** What one result does to the entry of one word. */
  lemma ApplyResultEntry(ws: seq<WrongWord>, src: Source, today: string, res: ReviewResult, word: string)
    ensures res.correct || res.word != word ==> Entry(ApplyResult(ws, src, today, res), word) == Entry(ws, word)
    ensures !res.correct && res.word == word ==>
      Entry(ApplyResult(ws, src, today, res), word) ==
        Some(match Entry(ws, word)
             case Some(e) => e.(errorCount := e.errorCount + 1, lastErrorDate := today, sources := AddSource(e.sources, src))
             case None => WrongWord(word, res.meaning, [src], 1, today))
  {
    if !res.correct {
      var i := FindIndex(ws, res.word);
      if i >= 0 {
        var x := ws[i].(errorCount := ws[i].errorCount + 1, lastErrorDate := today, sources := AddSource(ws[i].sources, src));
        assert ApplyResult(ws, src, today, res) == ws[i := x];
        assert Entry(ws, res.word) == Some(ws[i]);
        EntryUpdate(ws, i, x, word);
      } else {
        var x := WrongWord(res.word, res.meaning, [src], 1, today);
        assert ApplyResult(ws, src, today, res) == ws + [x];
        assert Entry(ws, res.word) == None;
        EntryAppend(ws, x, word);
      }
    }
  }

  /** Replacing the entry of a word changes the lookup of that word only. */
  lemma EntryUpdate(ws: seq<WrongWord>, i: nat, x: WrongWord, word: string)
    requires i < |ws| && x.word == ws[i].word && FindIndex(ws, x.word) == i
    ensures Entry(ws[i := x], word) == if word == x.word then Some(x) else Entry(ws, word)
  {
    FindIndexUpdate(ws, i, x, word);
  }

  /** Appending an entry for a word without one changes the lookup of that
      word only. */
  lemma EntryAppend(ws: seq<WrongWord>, x: WrongWord, word: string)
    requires FindIndex(ws, x.word) < 0
    ensures Entry(ws + [x], word) == if word == x.word then Some(x) else Entry(ws, word)
  {
    FindIndexAppend(ws, x, word);
    assert (ws + [x])[|ws|] == x;
    if FindIndex(ws, word) >= 0 {
      assert (ws + [x])[FindIndex(ws, word)] == ws[FindIndex(ws, word)];
    }
  }

  /** One result keeps the book well formed. */
  lemma ApplyResultWellFormed(ws: seq<WrongWord>, src: Source, today: string, res: ReviewResult)
    requires WellFormed(ws)
    ensures WellFormed(ApplyResult(ws, src, today, res))
  {
    var r := ApplyResult(ws, src, today, res);
    if !res.correct && FindIndex(ws, res.word) < 0 {
      assert forall k :: 0 <= k < |ws| ==> r[k] == ws[k];
      assert r[|ws|].word == res.word;
    }
  }

  /** `updateWrongWordsFromRecord` keeps word keys unique, every count at
      least 1 and every source list non-empty and free of repeats. */
  lemma {:induction false} ApplyResultsWellFormed(ws: seq<WrongWord>, src: Source, today: string, results: seq<ReviewResult>)
    requires WellFormed(ws)
    ensures WellFormed(ApplyResults(ws, src, today, results))
    decreases |results|
  {
    if |results| > 0 {
      ApplyResultsWellFormed(ws, src, today, results[..|results| - 1]);
      ApplyResultWellFormed(ApplyResults(ws, src, today, results[..|results| - 1]), src, today, results[|results| - 1]);
    }
  }

  /** The entry of a word after a whole review: untouched when the word was
      never answered wrongly; otherwise present, its count raised by the
      number of wrong answers, dated today, with the unit among its sources
      once, and with the meaning it had before (or, for a new entry, the
      meaning of the first wrong answer). */
  lemma {:induction false} ApplyResultsEntry(ws: seq<WrongWord>, src: Source, today: string, results: seq<ReviewResult>, word: string)
    ensures WrongTimes(results, word) == 0 ==> Entry(ApplyResults(ws, src, today, results), word) == Entry(ws, word)
    ensures WrongTimes(results, word) > 0 ==>
      var after := Entry(ApplyResults(ws, src, today, results), word);
      after.Some? &&
      after.value.errorCount == ErrorCount(ws, word) + WrongTimes(results, word) &&
      after.value.lastErrorDate == today &&
      after.value.meaning == (if Entry(ws, word).Some? then Entry(ws, word).value.meaning else FirstWrongMeaning(results, word)) &&
      after.value.sources == (if Entry(ws, word).Some? then AddSource(Entry(ws, word).value.sources, src) else [src])
    decreases |results|
  {
    if |results| > 0 {
      var init := results[..|results| - 1];
      var last := results[|results| - 1];
      ApplyResultsEntry(ws, src, today, init, word);
      ApplyResultEntry(ApplyResults(ws, src, today, init), src, today, last, word);
    }
  }

  /** `errorCount` grows by exactly the number of wrong answers, for every word. */
  lemma ApplyResultsErrorCount(ws: seq<WrongWord>, src: Source, today: string, results: seq<ReviewResult>, word: string)
    ensures ErrorCount(ApplyResults(ws, src, today, results), word) == ErrorCount(ws, word) + WrongTimes(results, word)
  {
    ApplyResultsEntry(ws, src, today, results, word);
  }

  /** Entries that were there stay in place, with their words and meanings. */
  lemma {:induction false} ApplyResultsKeepsPrefix(ws: seq<WrongWord>, src: Source, today: string, results: seq<ReviewResult>)
    ensures var r := ApplyResults(ws, src, today, results);
      forall k :: 0 <= k < |ws| ==> r[k].word == ws[k].word && r[k].meaning == ws[k].meaning
    decreases |results|
  {
    if |results| > 0 {
      ApplyResultsKeepsPrefix(ws, src, today, results[..|results| - 1]);
      ApplyResultFrame(ApplyResults(ws, src, today, results[..|results| - 1]), src, today, results[|results| - 1]);
    }
  }

  /** A review answered entirely correctly leaves the book as it was. */
  lemma {:induction false} AllCorrectNoChange(ws: seq<WrongWord>, src: Source, today: string, results: seq<ReviewResult>)
    requires forall k :: 0 <= k < |results| ==> results[k].correct
    ensures ApplyResults(ws, src, today, results) == ws
    decreases |results|
  {
    if |results| > 0 {
      AllCorrectNoChange(ws, src, today, results[..|results| - 1]);
    }
  }

  /** The same word wrong twice in one review of an empty book: one entry,
      counted twice, with the unit once. */
  lemma WrongTwiceInOneReview()
    ensures var src := Source("G", "U");
            var rs := [ReviewResult("cat", "m", false), ReviewResult("cat", "m", false)];
            ApplyResults([], src, "2024-10-25", rs) == [WrongWord("cat", "m", [src], 2, "2024-10-25")]
  {
    var src := Source("G", "U");
    var rs := [ReviewResult("cat", "m", false), ReviewResult("cat", "m", false)];
    assert rs[..1] == [rs[0]];
    assert [rs[0]][..0] == [];
    var one := ApplyResults([], src, "2024-10-25", rs[..1]);
    assert one == [WrongWord("cat", "m", [src], 1, "2024-10-25")];
  }

  // ---------------------------------------------------------------------
  // removeFromWrongBook and getWrongWordsCount

  /** `wrongWords.filter(w => w.word !== word)`. */
  function WithoutWrongWord(ws: seq<WrongWord>, word: string): (r: seq<WrongWord>)
    ensures |r| <= |ws|
  {
    if |ws| == 0 then []
    else
      var rest := WithoutWrongWord(ws[1..], word);
      if ws[0].word == word then rest else [ws[0]] + rest
  }

  /** Every entry for `word` goes, every other entry stays, as often as it
      occurred. */
  lemma {:induction false} WithoutWrongWordCounts(ws: seq<WrongWord>, word: string)
    ensures forall e :: multiset(WithoutWrongWord(ws, word))[e] == if e.word == word then 0 else multiset(ws)[e]
    decreases |ws|
  {
    if |ws| > 0 {
      assert ws == [ws[0]] + ws[1..];
      WithoutWrongWordCounts(ws[1..], word);
    }
  }

  /** Removal works stretch by stretch: the survivors keep their order. */
  lemma {:induction false} WithoutWrongWordConcat(xs: seq<WrongWord>, ys: seq<WrongWord>, word: string)
    ensures WithoutWrongWord(xs + ys, word) == WithoutWrongWord(xs, word) + WithoutWrongWord(ys, word)
    decreases |xs|
  {
    if |xs| == 0 {
      assert xs + ys == ys;
    } else {
      assert (xs + ys)[0] == xs[0];
      assert (xs + ys)[1..] == xs[1..] + ys;
      WithoutWrongWordConcat(xs[1..], ys, word);
    }
  }

  /** A book without the word is left as it is. */
  lemma {:induction false} WithoutWrongWordAbsent(ws: seq<WrongWord>, word: string)
    requires forall k :: 0 <= k < |ws| ==> ws[k].word != word
    ensures WithoutWrongWord(ws, word) == ws
    decreases |ws|
  {
    if |ws| > 0 {
      assert forall k :: 0 <= k < |ws[1..]| ==> ws[1..][k] == ws[k + 1];
      WithoutWrongWordAbsent(ws[1..], word);
    }
  }

  /** After removal the word has no entry. */
  lemma WithoutWrongWordGone(ws: seq<WrongWord>, word: string)
    ensures Entry(WithoutWrongWord(ws, word), word).None?
  {
    var r := WithoutWrongWord(ws, word);
    WithoutWrongWordCounts(ws, word);
    forall k | 0 <= k < |r| ensures r[k].word != word {
      assert r[k] in multiset(r);
    }
  }

  /** Every other word keeps the entry it had. */
  lemma {:induction false} WithoutWrongWordOthers(ws: seq<WrongWord>, word: string, other: string)
    requires other != word
    ensures Entry(WithoutWrongWord(ws, word), other) == Entry(ws, other)
    decreases |ws|
  {
    if |ws| > 0 {
      WithoutWrongWordOthers(ws[1..], word, other);
      assert ws == [ws[0]] + ws[1..];
      EntryCons(ws[0], ws[1..], other);
      if ws[0].word != word {
        EntryCons(ws[0], WithoutWrongWord(ws[1..], word), other);
      }
    }
  }

  /** Removing twice is removing once. */
  lemma {:induction false} WithoutWrongWordIdempotent(ws: seq<WrongWord>, word: string)
    ensures WithoutWrongWord(WithoutWrongWord(ws, word), word) == WithoutWrongWord(ws, word)
    decreases |ws|
  {
    if |ws| > 0 {
      WithoutWrongWordIdempotent(ws[1..], word);
      var rest := WithoutWrongWord(ws[1..], word);
      if ws[0].word != word {
        assert ([ws[0]] + rest)[1..] == rest;
      }
    }
  }

  /** Removal keeps the book well formed. */
  lemma {:induction false} WithoutWrongWordWellFormed(ws: seq<WrongWord>, word: string)
    requires WellFormed(ws)
    ensures WellFormed(WithoutWrongWord(ws, word))
    decreases |ws|
  {
    if |ws| > 0 {
      var t := ws[1..];
      assert WellFormed(t) by {
        assert forall j :: 0 <= j < |t| ==> t[j] == ws[j + 1];
      }
      WithoutWrongWordWellFormed(t, word);
      var rest := WithoutWrongWord(t, word);
      if ws[0].word != word {
        assert Entry(t, ws[0].word).None? by {
          assert forall j :: 0 <= j < |t| ==> t[j] == ws[j + 1];
        }
        WithoutWrongWordOthers(t, word, ws[0].word);
        WellFormedCons(ws[0], rest);
      }
    }
  }

  lemma WellFormedCons(x: WrongWord, t: seq<WrongWord>)
    requires WellFormed(t) && EntryOk(x) && Entry(t, x.word).None?
    ensures WellFormed([x] + t)
  {
    assert forall j :: 0 <= j < |t| ==> ([x] + t)[j + 1] == t[j];
  }

  /** The set of words the book has entries for. */
  function Words(ws: seq<WrongWord>): set<string>
  {
    set k | 0 <= k < |ws| :: ws[k].word
  }

  /** `getWrongWordsCount` is the list's length; with unique keys that is
      the number of distinct wrong words. */
  lemma {:induction false} CountIsDistinctWords(ws: seq<WrongWord>)
    requires KeysUnique(ws)
    ensures |Words(ws)| == |ws|
    decreases |ws|
  {
    if |ws| > 0 {
      var t := ws[..|ws| - 1];
      assert KeysUnique(t);
      CountIsDistinctWords(t);
      assert Words(ws) == Words(t) + {ws[|ws| - 1].word};
      assert ws[|ws| - 1].word !in Words(t);
    }
  }
}
