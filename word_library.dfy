/** The word library of `src/utils/storage.js`: grade name -> unit name ->
    the unit's word entries, in order. These are the pure transformations
    that `addGrade`, `addWord` and `deleteWord` apply to the stored library,
    and the lookups `getGradeUnits` and `getUnitWords`. */
module WordLibrary {
  import opened Wrappers

  /** `{ word, meaning, pronunciation? }`. */
  datatype WordEntry = WordEntry(word: string, meaning: string, pronunciation: Option<string>)

  type Units = map<string, seq<WordEntry>>

  type Library = map<string, Units>

  /** `getGradeUnits`: the grade's units, or none for an unknown grade. */
  function GradeUnits(lib: Library, grade: string): (r: Units)
    ensures grade !in lib ==> r == map[]
  {
    if grade in lib then lib[grade] else map[]
  }

  /** `getUnitWords`: the unit's words, or none for an unknown grade or unit. */
  function UnitWords(lib: Library, grade: string, unit: string): (r: seq<WordEntry>)
    ensures grade !in lib || unit !in lib[grade] ==> r == []
  {
    if grade in lib && unit in lib[grade] then lib[grade][unit] else []
  }

  /** `addGrade(grade, units)`: stores `units` under `grade`, replacing any
      grade of that name; every other grade is kept. */
  function AddGradeTo(lib: Library, grade: string, units: Units): (r: Library)
    ensures r.Keys == lib.Keys + {grade}
    ensures GradeUnits(r, grade) == units
    ensures forall g :: g != grade ==> GradeUnits(r, g) == GradeUnits(lib, g)
  {
    lib[grade := units]
  }

  /** `addWord(grade, unit, word)`: creates the grade and the unit when
      missing and appends `word` at the end of the unit, without looking
      for an entry with the same word. Every other unit is unchanged. */
  function AddWordTo(lib: Library, grade: string, unit: string, w: WordEntry): (r: Library)
    ensures r.Keys == lib.Keys + {grade}
    ensures GradeUnits(r, grade).Keys == GradeUnits(lib, grade).Keys + {unit}
    ensures forall g :: g != grade ==> GradeUnits(r, g) == GradeUnits(lib, g)
    ensures UnitWords(r, grade, unit) == UnitWords(lib, grade, unit) + [w]
    ensures forall u :: u != unit ==> UnitWords(r, grade, u) == UnitWords(lib, grade, u)
  {
    var units := GradeUnits(lib, grade);
    var words := if unit in units then units[unit] else [];
    lib[grade := units[unit := words + [w]]]
  }

  /** `words.filter(w => w.word !== text)`. */
  function WithoutWord(words: seq<WordEntry>, text: string): (r: seq<WordEntry>)
    ensures |r| <= |words|
  {
    if |words| == 0 then []
    else
      var rest := WithoutWord(words[..|words| - 1], text);
      var last := words[|words| - 1];
      if last.word == text then rest else rest + [last]
  }

  /** Every entry for `text` goes, every other entry stays, as often as it
      occurred. */
  lemma {:induction false} WithoutWordCounts(words: seq<WordEntry>, text: string)
    ensures forall e :: multiset(WithoutWord(words, text))[e] == if e.word == text then 0 else multiset(words)[e]
    decreases |words|
  {
    if |words| > 0 {
      var init := words[..|words| - 1];
      assert words == init + [words[|words| - 1]];
      WithoutWordCounts(init, text);
    }
  }

  /** The filter keeps the order: it distributes over concatenation. */
  lemma {:induction false} WithoutWordConcat(xs: seq<WordEntry>, ys: seq<WordEntry>, text: string)
    ensures WithoutWord(xs + ys, text) == WithoutWord(xs, text) + WithoutWord(ys, text)
    decreases |ys|
  {
    if |ys| > 0 {
      var ys' := ys[..|ys| - 1];
      assert (xs + ys)[..|xs + ys| - 1] == xs + ys';
      WithoutWordConcat(xs, ys', text);
    } else {
      assert xs + ys == xs;
    }
  }

  /** Filtering twice is filtering once. */
  lemma {:induction false} WithoutWordIdempotent(words: seq<WordEntry>, text: string)
    ensures WithoutWord(WithoutWord(words, text), text) == WithoutWord(words, text)
    decreases |words|
  {
    if |words| > 0 {
      var init := words[..|words| - 1];
      WithoutWordIdempotent(init, text);
      if words[|words| - 1].word != text {
        WithoutWordConcat(WithoutWord(init, text), [words[|words| - 1]], text);
        assert WithoutWord([words[|words| - 1]], text) == [words[|words| - 1]] by {
          assert [words[|words| - 1]][..0] == [];
        }
      }
    }
  }

  /** An entry for another word survives the filter exactly when it was there. */
  lemma WithoutWordKeeps(words: seq<WordEntry>, text: string, e: WordEntry)
    ensures e in WithoutWord(words, text) <==> e in words && e.word != text
  {
    WithoutWordCounts(words, text);
    assert e in WithoutWord(words, text) <==> e in multiset(WithoutWord(words, text));
    assert e in words <==> e in multiset(words);
  }

  /** `deleteWord(grade, unit, text)`: when the unit exists, removes every
      entry whose word is `text` and keeps the rest in order; when the grade
      or the unit is missing the library is left as it is. */
  function DeleteWordFrom(lib: Library, grade: string, unit: string, text: string): (r: Library)
    ensures grade !in lib || unit !in lib[grade] ==> r == lib
    ensures r.Keys == lib.Keys
    ensures forall g :: g in lib ==> r[g].Keys == lib[g].Keys
    ensures UnitWords(r, grade, unit) == WithoutWord(UnitWords(lib, grade, unit), text)
    ensures forall g, u :: g != grade || u != unit ==> UnitWords(r, g, u) == UnitWords(lib, g, u)
  {
    if grade in lib && unit in lib[grade] then
      lib[grade := lib[grade][unit := WithoutWord(lib[grade][unit], text)]]
    else
      lib
  }

  /** Deleting the same word twice is deleting it once. */
  lemma DeleteWordIdempotent(lib: Library, grade: string, unit: string, text: string)
    ensures DeleteWordFrom(DeleteWordFrom(lib, grade, unit, text), grade, unit, text)
         == DeleteWordFrom(lib, grade, unit, text)
  {
    if grade in lib && unit in lib[grade] {
      var once := DeleteWordFrom(lib, grade, unit, text);
      WithoutWordIdempotent(lib[grade][unit], text);
      assert once[grade][unit := WithoutWord(once[grade][unit], text)] == once[grade];
      assert once[grade := once[grade]] == once;
    }
  }

  /** After `addWord` the new entry is the last entry of its unit, and after
      `deleteWord` of that word the unit holds no entry for it. */
  lemma AddThenDelete(lib: Library, grade: string, unit: string, w: WordEntry)
    ensures UnitWords(AddWordTo(lib, grade, unit, w), grade, unit)[|UnitWords(lib, grade, unit)|] == w
    ensures forall e :: e in UnitWords(DeleteWordFrom(AddWordTo(lib, grade, unit, w), grade, unit, w.word), grade, unit)
                        ==> e.word != w.word
  {
    var after := AddWordTo(lib, grade, unit, w);
    forall e | e in UnitWords(DeleteWordFrom(after, grade, unit, w.word), grade, unit)
      ensures e.word != w.word
    {
      WithoutWordKeeps(UnitWords(after, grade, unit), w.word, e);
    }
  }
}
