/** The grouping of the wrong-word book page (`src/pages/WrongBookPage.jsx`)
    without its rendering: every wrong word is listed under each
    `grade - unit` it was missed in, once per group, and a group can be
    turned back into a word list for a new review. */
module WrongBookPage {
  import opened Wrappers
  import opened WordLibrary
  import opened WrongBook
  import opened Storage

  /** The key `${source.grade} - ${source.unit}`: the grade, then " - ",
      then the unit. */
  function GroupKey(src: Source): (r: string)
    ensures |r| == |src.grade| + 3 + |src.unit|
    ensures r[..|src.grade|] == src.grade && r[|src.grade|..|src.grade| + 3] == " - " && r[|src.grade| + 3..] == src.unit
  {
    src.grade + " - " + src.unit
  }

  /** `{ grade, unit, words }`. */
  datatype Group = Group(grade: string, unit: string, words: seq<WrongWord>)

  /** The `grouped` object, key to group. */
  type Grouped = map<string, Group>

  /** One pass of the inner loop: the group of the source's key is created
      when missing, labelled with that source, and `w` is pushed unless the
      group already holds an entry for the same word. */
  function AddToGroup(g: Grouped, w: WrongWord, src: Source): (r: Grouped)
    ensures r.Keys == g.Keys + {GroupKey(src)}
    ensures forall key :: key in g && key != GroupKey(src) ==> r[key] == g[key]
  {
    var key := GroupKey(src);
    var group := if key in g then g[key] else Group(src.grade, src.unit, []);
    if FindIndex(group.words, w.word) >= 0 then g[key := group]
    else g[key := group.(words := group.words + [w])]
  }

  /** `word.sources.forEach(...)` for one word, over the sources `sources`:
      the keys after it are the old keys and the keys of the sources. */
  function GroupSources(g: Grouped, w: WrongWord, sources: seq<Source>): (r: Grouped)
    ensures r.Keys == g.Keys + SourceKeys(sources)
  {
    if |sources| == 0 then g
    else AddToGroup(GroupSources(g, w, sources[..|sources| - 1]), w, sources[|sources| - 1])
  }

  /** The `grouped` object `loadWrongWords` builds from `words`: a group
      for every key of every source of the book. */
  function GroupWords(words: seq<WrongWord>): (r: Grouped)
    ensures r.Keys == BookKeys(words)
  {
    if |words| == 0 then map[]
    else
      var w := words[|words| - 1];
      GroupSources(GroupWords(words[..|words| - 1]), w, w.sources)
  }

  /** The keys of a list of sources. */
  function SourceKeys(sources: seq<Source>): set<string>
  {
    if |sources| == 0 then {} else SourceKeys(sources[..|sources| - 1]) + {GroupKey(sources[|sources| - 1])}
  }

  /** The keys of all the sources of all the words. */
  function BookKeys(words: seq<WrongWord>): set<string>
  {
    if |words| == 0 then {} else BookKeys(words[..|words| - 1]) + SourceKeys(words[|words| - 1].sources)
  }

  /** A key of the sources is the key of one of them. */
  lemma {:induction false} SourceKeysMembers(sources: seq<Source>)
    ensures forall key :: key in SourceKeys(sources) <==> exists s :: s in sources && GroupKey(s) == key
    decreases |sources|
  {
    if |sources| > 0 {
      var init := sources[..|sources| - 1];
      SourceKeysMembers(init);
      assert forall s :: s in sources <==> s in init || s == sources[|sources| - 1];
    }
  }

  /** A group exists exactly for the keys of the words' sources. */
  lemma {:induction false} GroupKeysFromSources(words: seq<WrongWord>)
    ensures forall key :: key in GroupWords(words) <==> exists w, s :: w in words && s in w.sources && GroupKey(s) == key
    decreases |words|
  {
    if |words| > 0 {
      var init := words[..|words| - 1];
      var w := words[|words| - 1];
      GroupKeysFromSources(init);
      SourceKeysMembers(w.sources);
      assert forall v :: v in words <==> v in init || v == w;
    }
  }

  // ---------------------------------------------------------------------
  // What every group satisfies

  /** A group under `key` built from `words`: it is not empty, its label is
      a source of some word whose key is `key`, it holds at most one entry
      per word, and each entry is one of `words` missed in a source with
      that key. */
  predicate GroupOk(key: string, group: Group, words: seq<WrongWord>)
  {
    && |group.words| > 0
    && GroupKey(Source(group.grade, group.unit)) == key
    && (exists w :: w in words && Source(group.grade, group.unit) in w.sources)
    && KeysUnique(group.words)
    && forall e :: e in group.words ==> e in words && exists s :: s in e.sources && GroupKey(s) == key
  }

  predicate GroupsOk(g: Grouped, words: seq<WrongWord>)
  {
    forall key :: key in g ==> GroupOk(key, g[key], words)
  }

  /** The group under `key` holds an entry for `word`. */
  predicate Holds(g: Grouped, key: string, word: string)
  {
    key in g && FindIndex(g[key].words, word) >= 0
  }

  /** Pushing an entry for a word the group lacks keeps the words unique. */
  lemma PushKeepsUnique(ws: seq<WrongWord>, w: WrongWord)
    requires KeysUnique(ws) && FindIndex(ws, w.word) < 0
    ensures KeysUnique(ws + [w])
  {
  }

  /** The inner step keeps every group well formed. */
  lemma AddToGroupOk(g: Grouped, w: WrongWord, src: Source, words: seq<WrongWord>)
    requires GroupsOk(g, words) && w in words && src in w.sources
    ensures GroupsOk(AddToGroup(g, w, src), words)
  {
    if GroupKey(src) in g {
      AddToGroupOkExisting(g, w, src, words);
    } else {
      var r := AddToGroup(g, w, src);
      assert r[GroupKey(src)] == Group(src.grade, src.unit, [w]);
      assert GroupOk(GroupKey(src), r[GroupKey(src)], words);
    }
  }

  lemma AddToGroupOkExisting(g: Grouped, w: WrongWord, src: Source, words: seq<WrongWord>)
    requires GroupsOk(g, words) && w in words && src in w.sources && GroupKey(src) in g
    ensures GroupOk(GroupKey(src), AddToGroup(g, w, src)[GroupKey(src)], words)
  {
    var key := GroupKey(src);
    var r := AddToGroup(g, w, src);
    var group := g[key];
    assert GroupOk(key, group, words);
    if FindIndex(group.words, w.word) < 0 {
      PushKeepsUnique(group.words, w);
      assert r[key].words == group.words + [w];
    }
  }

  /** The inner step keeps every entry it finds and adds one for `w`. */
  lemma AddToGroupHolds(g: Grouped, w: WrongWord, src: Source)
    ensures Holds(AddToGroup(g, w, src), GroupKey(src), w.word)
    ensures forall key, word :: Holds(g, key, word) ==> Holds(AddToGroup(g, w, src), key, word)
  {
    var key := GroupKey(src);
    var r := AddToGroup(g, w, src);
    var group := if key in g then g[key] else Group(src.grade, src.unit, []);
    if FindIndex(group.words, w.word) < 0 {
      assert r[key].words == group.words + [w];
      assert r[key].words[|group.words|] == w;
    }
    forall word | Holds(g, key, word) ensures Holds(r, key, word) {
      var i := FindIndex(g[key].words, word);
      assert r[key].words[i] == g[key].words[i];
    }
  }

  /** The loop over one word's sources keeps every group well formed. */
  lemma {:induction false} GroupSourcesOk(g: Grouped, w: WrongWord, sources: seq<Source>, words: seq<WrongWord>)
    requires GroupsOk(g, words) && w in words
    requires forall s :: s in sources ==> s in w.sources
    ensures GroupsOk(GroupSources(g, w, sources), words)
    decreases |sources|
  {
    if |sources| > 0 {
      var init := sources[..|sources| - 1];
      assert forall s :: s in init ==> s in sources;
      GroupSourcesOk(g, w, init, words);
      AddToGroupOk(GroupSources(g, w, init), w, sources[|sources| - 1], words);
    }
  }

  /** The loop over one word's sources keeps every entry and files the
      word under each of the sources' keys. */
  lemma {:induction false} GroupSourcesHolds(g: Grouped, w: WrongWord, sources: seq<Source>)
    ensures forall s :: s in sources ==> Holds(GroupSources(g, w, sources), GroupKey(s), w.word)
    ensures forall key, word :: Holds(g, key, word) ==> Holds(GroupSources(g, w, sources), key, word)
    decreases |sources|
  {
    if |sources| > 0 {
      var init := sources[..|sources| - 1];
      GroupSourcesHolds(g, w, init);
      AddToGroupHolds(GroupSources(g, w, init), w, sources[|sources| - 1]);
      assert forall s :: s in sources ==> s in init || s == sources[|sources| - 1];
    }
  }

  /** Well-formedness is kept when the list of words grows. */
  lemma GroupsOkWider(g: Grouped, xs: seq<WrongWord>, ys: seq<WrongWord>)
    requires GroupsOk(g, xs) && forall e :: e in xs ==> e in ys
    ensures GroupsOk(g, ys)
  {
    forall key | key in g ensures GroupOk(key, g[key], ys) {
      assert GroupOk(key, g[key], xs);
      var w :| w in xs && Source(g[key].grade, g[key].unit) in w.sources;
      assert w in ys;
    }
  }

  /** Every group `loadWrongWords` builds is well formed. */
  lemma {:induction false} GroupWordsOk(words: seq<WrongWord>)
    ensures GroupsOk(GroupWords(words), words)
    decreases |words|
  {
    if |words| > 0 {
      var init := words[..|words| - 1];
      var w := words[|words| - 1];
      GroupWordsOk(init);
      GroupsOkWider(GroupWords(init), init, words);
      GroupSourcesOk(GroupWords(init), w, w.sources, words);
    }
  }

  /** Every word is filed under the key of each of its sources. */
  lemma {:induction false} GroupWordsHolds(words: seq<WrongWord>)
    ensures forall w, s :: w in words && s in w.sources ==> Holds(GroupWords(words), GroupKey(s), w.word)
    decreases |words|
  {
    if |words| > 0 {
      var init := words[..|words| - 1];
      var w := words[|words| - 1];
      GroupWordsHolds(init);
      GroupSourcesHolds(GroupWords(init), w, w.sources);
      assert forall x :: x in words ==> x in init || x == w;
    }
  }

  // ---------------------------------------------------------------------
  // The page's promises

  /** For a book with one entry per word, each entry appears itself in the
      group of every one of its sources. */
  lemma EntriesFiled(words: seq<WrongWord>)
    requires KeysUnique(words)
    ensures forall w, s :: w in words && s in w.sources ==> GroupKey(s) in GroupWords(words) && w in GroupWords(words)[GroupKey(s)].words
  {
    var g := GroupWords(words);
    GroupWordsOk(words);
    GroupWordsHolds(words);
    forall w, s | w in words && s in w.sources
      ensures GroupKey(s) in g && w in g[GroupKey(s)].words
    {
      var key := GroupKey(s);
      assert GroupOk(key, g[key], words);
      var e := g[key].words[FindIndex(g[key].words, w.word)];
      SameWordSameEntry(words, e, w);
    }
  }

  /** Every group entry is an entry of the book missed in a source with
      the group's key. */
  lemma EntriesFromBook(words: seq<WrongWord>)
    ensures forall key, e :: key in GroupWords(words) && e in GroupWords(words)[key].words ==>
              e in words && exists s :: s in e.sources && GroupKey(s) == key
  {
    var g := GroupWords(words);
    GroupWordsOk(words);
    forall key, e | key in g && e in g[key].words
      ensures e in words && exists s :: s in e.sources && GroupKey(s) == key
    {
      assert GroupOk(key, g[key], words);
    }
  }

  /** Two entries of a book with unique keys for the same word are one. */
  lemma SameWordSameEntry(ws: seq<WrongWord>, a: WrongWord, b: WrongWord)
    requires KeysUnique(ws) && a in ws && b in ws && a.word == b.word
    ensures a == b
  {
    var i :| 0 <= i < |ws| && ws[i] == a;
    var j :| 0 <= j < |ws| && ws[j] == b;
    assert i == j;
  }

  /** Every group is labelled with a source of some word that gives its
      key, is not empty and lists each word at most once. */
  lemma GroupsLabelled(words: seq<WrongWord>)
    ensures forall key :: key in GroupWords(words) ==>
              var group := GroupWords(words)[key];
              |group.words| > 0 && KeysUnique(group.words) &&
              GroupKey(Source(group.grade, group.unit)) == key &&
              exists w :: w in words && Source(group.grade, group.unit) in w.sources
  {
    GroupWordsOk(words);
    var g := GroupWords(words);
    forall key | key in g
      ensures |g[key].words| > 0 && KeysUnique(g[key].words) &&
              GroupKey(Source(g[key].grade, g[key].unit)) == key &&
              exists w :: w in words && Source(g[key].grade, g[key].unit) in w.sources
    {
      assert GroupOk(key, g[key], words);
    }
  }

  /** A word removed from the book (`handleRemove` then `loadWrongWords`)
      is in no group any more. */
  lemma RemovedWordInNoGroup(words: seq<WrongWord>, text: string)
    ensures forall key, e ::
              (key in GroupWords(WithoutWrongWord(words, text)) && e in GroupWords(WithoutWrongWord(words, text))[key].words)
              ==> e.word != text
  {
    var rest := WithoutWrongWord(words, text);
    var g := GroupWords(rest);
    GroupWordsOk(rest);
    WithoutWrongWordCounts(words, text);
    forall key, e | key in g && e in g[key].words ensures e.word != text {
      assert GroupOk(key, g[key], rest);
      assert e in multiset(rest);
    }
  }

  /** With neither grade nor unit holding a `-`, different sources have
      different keys, so each group gathers a single source. */
  lemma GroupKeyInjective(a: Source, b: Source)
    requires '-' !in a.grade && '-' !in a.unit && '-' !in b.grade && '-' !in b.unit
    requires GroupKey(a) == GroupKey(b)
    ensures a == b
  {
    var ka, kb := GroupKey(a), GroupKey(b);
    assert ka[|a.grade| + 1] == '-' && kb[|b.grade| + 1] == '-';
    assert |a.grade| == |b.grade|;
    assert a.grade == ka[..|a.grade|] == kb[..|b.grade|] == b.grade;
    assert a.unit == ka[|a.grade| + 3..] == kb[|b.grade| + 3..] == b.unit;
  }

  /** When no grade or unit of the book holds a `-`, every entry of a group
      was missed in exactly the grade and unit the group is labelled with. */
  lemma GroupLabelIsSource(words: seq<WrongWord>)
    requires forall w, s :: w in words && s in w.sources ==> '-' !in s.grade && '-' !in s.unit
    ensures forall key, e :: (key in GroupWords(words) && e in GroupWords(words)[key].words) ==>
              Source(GroupWords(words)[key].grade, GroupWords(words)[key].unit) in e.sources
  {
    var g := GroupWords(words);
    GroupWordsOk(words);
    forall key, e | key in g && e in g[key].words
      ensures Source(g[key].grade, g[key].unit) in e.sources
    {
      assert GroupOk(key, g[key], words);
      var tag := Source(g[key].grade, g[key].unit);
      var w :| w in words && tag in w.sources;
      var s :| s in e.sources && GroupKey(s) == key;
      GroupKeyInjective(tag, s);
    }
  }

  /** Without that restriction two sources can share a key: the grade
      `A - B` with the unit `C` and the grade `A` with the unit `B - C`
      land in one group, labelled with whichever came first. */
  lemma GroupKeyCollision()
    ensures GroupKey(Source("A - B", "C")) == GroupKey(Source("A", "B - C"))
    ensures var w := WrongWord("w", "m", [Source("A - B", "C")], 1, "2024-01-01");
            var v := WrongWord("v", "n", [Source("A", "B - C")], 1, "2024-01-01");
            GroupWords([w, v]).Keys == {"A - B - C"} &&
            GroupWords([w, v])["A - B - C"] == Group("A - B", "C", [w, v])
  {
    var w := WrongWord("w", "m", [Source("A - B", "C")], 1, "2024-01-01");
    var v := WrongWord("v", "n", [Source("A", "B - C")], 1, "2024-01-01");
    var key := "A - B - C";
    assert [w, v][..1] == [w] && [w][..0] == [];
    assert w.sources[..0] == [] && v.sources[..0] == [];
    assert GroupKey(w.sources[0]) == key && GroupKey(v.sources[0]) == key;
    assert FindIndex([], "w") == -1;
    assert GroupSources(map[], w, w.sources[..0]) == map[];
    assert GroupSources(map[], w, w.sources) == AddToGroup(map[], w, w.sources[0]);
    var g1 := GroupWords([w]);
    assert g1 == GroupSources(GroupWords([]), w, w.sources);
    assert g1 == AddToGroup(map[], w, w.sources[0]);
    var none: seq<WrongWord> := [];
    assert none + [w] == [w];
    assert AddToGroup(map[], w, w.sources[0]) == map[key := Group("A - B", "C", [w])];
    assert g1 == map[key := Group("A - B", "C", [w])];
    assert FindIndex([w], "v") == -1;
    assert GroupSources(g1, v, v.sources[..0]) == g1;
    assert GroupWords([w, v]) == GroupSources(g1, v, v.sources);
    assert GroupWords([w, v]) == AddToGroup(g1, v, v.sources[0]);
  }

  // ---------------------------------------------------------------------
  // The page's operations

  /** `loadWrongWords()` on the book `words`: the nested `forEach` loops. */
  method LoadWrongWords(words: seq<WrongWord>) returns (grouped: Grouped)
    ensures grouped == GroupWords(words)
  {
    grouped := map[];
    for i := 0 to |words|
      invariant grouped == GroupWords(words[..i])
    {
      var word := words[i];
      ghost var before := grouped;
      for j := 0 to |word.sources|
        invariant grouped == GroupSources(before, word, word.sources[..j])
      {
        grouped := FileUnderSource(grouped, word, word.sources[j]);
        SourcesStep(before, word, j);
      }
      assert word.sources[..|word.sources|] == word.sources;
      WordsStep(words, i);
    }
    assert words[..|words|] == words;
  }

  /** The body of the inner loop. */
  method FileUnderSource(grouped: Grouped, word: WrongWord, source: Source) returns (r: Grouped)
    ensures r == AddToGroup(grouped, word, source)
  {
    r := grouped;
    var key := GroupKey(source);
    if key !in r {
      r := r[key := Group(source.grade, source.unit, [])];
    }
    if FindIndex(r[key].words, word.word) < 0 {
      r := r[key := r[key].(words := r[key].words + [word])];
    }
  }

  /** One more source of the word. */
  lemma SourcesStep(g: Grouped, w: WrongWord, j: nat)
    requires j < |w.sources|
    ensures GroupSources(g, w, w.sources[..j + 1]) == AddToGroup(GroupSources(g, w, w.sources[..j]), w, w.sources[j])
  {
    assert w.sources[..j + 1][..j] == w.sources[..j];
  }

  /** One more word of the book. */
  lemma WordsStep(words: seq<WrongWord>, i: nat)
    requires i < |words|
    ensures GroupWords(words[..i + 1]) == GroupSources(GroupWords(words[..i]), words[i], words[i].sources)
  {
    assert words[..i + 1][..i] == words[..i];
  }

  /** `handleReviewGroup`: the group's words as a word list for the recite
      page, with an empty pronunciation since the book stores none. */
  function ReviewWords(ws: seq<WrongWord>): (r: seq<WordEntry>)
    ensures |r| == |ws|
    ensures forall k :: 0 <= k < |ws| ==> r[k] == WordEntry(ws[k].word, ws[k].meaning, Some(""))
  {
    seq(|ws|, k requires 0 <= k < |ws| => WordEntry(ws[k].word, ws[k].meaning, Some("")))
  }

  /** `handleRemove(wordText)` once the dialog has been answered with
      `confirmed`: on confirmation the word leaves the book and the groups
      are rebuilt from what remains. */
  method HandleRemove(ledger: Ledger, text: string, confirmed: bool, grouped: Grouped) returns (regrouped: Grouped)
    modifies ledger
    ensures confirmed ==> ledger.wrongWords == WithoutWrongWord(old(ledger.wrongWords), text)
    ensures confirmed ==> regrouped == GroupWords(ledger.wrongWords)
    ensures !confirmed ==> ledger.wrongWords == old(ledger.wrongWords) && regrouped == grouped
    ensures ledger.library == old(ledger.library) && ledger.records == old(ledger.records)
  {
    regrouped := grouped;
    if confirmed {
      ledger.RemoveFromWrongBook(text);
      regrouped := LoadWrongWords(ledger.wrongWords);
    }
  }
}
