/** `parseWordText` of `src/data/initWords.js`: a grade name on the first
    line, then lines `Unit N: word-meaning, word-meaning, ...`, parsed into a
    library holding that one grade. */
module InitWords {
  import opened Wrappers
  import opened Strings
  import opened WordLibrary

  // ---------------------------------------------------------------------
  // The unit line `^(Unit \d+):\s*(.+)$`

  /** Length of the longest prefix of `s` made of decimal digits (`\d+` is greedy). */
  function DigitRun(s: string): (n: nat)
    ensures n <= |s|
    ensures forall k :: 0 <= k < n ==> IsDigit(s[k])
    ensures n < |s| ==> !IsDigit(s[n])
    decreases |s|
  {
    if |s| == 0 || !IsDigit(s[0]) then 0 else 1 + DigitRun(s[1..])
  }

  /** The two capture groups of a matching line. */
  datatype UnitLine = UnitLine(name: string, wordsText: string)

  /** `line` is `name` (`Unit ` and at least one digit), a colon, whitespace,
      and then `text`: at least one character, none a line terminator (what
      `.+` may match before `$`). */
  predicate UnitLineShape(line: string, name: string, text: string)
  {
    && |name| > 5 && name[..5] == "Unit "
    && (forall k :: 5 <= k < |name| ==> IsDigit(name[k]))
    && |name| + 1 + |text| <= |line|
    && line[..|name|] == name && line[|name|] == ':'
    && line[|line| - |text|..] == text && |text| > 0
    && (forall k :: |name| < k < |line| - |text| ==> IsWhitespace(line[k]))
    && (forall k :: 0 <= k < |text| ==> !IsLineTerminator(text[k]))
  }

  /** Whether a line terminator occurs in `s`. */
  predicate HasLineTerminator(s: string)
    ensures HasLineTerminator(s) <==> exists k :: 0 <= k < |s| && IsLineTerminator(s[k])
    decreases |s|
  {
    |s| > 0 && (IsLineTerminator(s[0]) || HasLineTerminator(s[1..]))
  }

  /** `^(Unit \d+):`: the position of the colon after `Unit ` and the
      greedy run of digits. */
  function MatchUnitName(line: string): (r: Option<nat>)
    ensures r.Some? ==> 5 < r.value < |line| && line[..5] == "Unit " && line[r.value] == ':'
    ensures r.Some? ==> forall k :: 5 <= k < r.value ==> IsDigit(line[k])
  {
    if |line| < 5 || line[..5] != "Unit " then None
    else
      var n := DigitRun(line[5..]);
      if n == 0 || 5 + n >= |line| || line[5 + n] != ':' then None
      else Some(5 + n)
  }

  /** `\s*(.+)$` on what follows the colon. The greedy `\s*` takes leading
      whitespace as long as one character is left for `.+`; what remains
      matches when it holds no line terminator. */
  function MatchText(rest: string): (r: Option<string>)
    ensures r.Some? ==> |r.value| > 0 && |r.value| <= |rest| && rest[|rest| - |r.value|..] == r.value
    ensures r.Some? ==> forall k :: 0 <= k < |rest| - |r.value| ==> IsWhitespace(rest[k])
    ensures r.Some? ==> !HasLineTerminator(r.value)
    decreases |rest|
  {
    if |rest| >= 2 && IsWhitespace(rest[0]) then MatchText(rest[1..])
    else if |rest| == 0 || HasLineTerminator(rest) then None
    else Some(rest)
  }

  /** `line.match(/^(Unit \d+):\s*(.+)$/)`: the two capture groups. Every
      match has the shape, with the captured name and text. */
  function MatchUnitLine(line: string): (r: Option<UnitLine>)
    ensures r.Some? ==> UnitLineShape(line, r.value.name, r.value.wordsText)
  {
    match MatchUnitName(line)
    case None => None
    case Some(colon) =>
      match MatchText(line[colon + 1..])
      case None => None
      case Some(text) =>
        ShapeOfParts(line, colon, text);
        Some(UnitLine(line[..colon], text))
  }

  /** A colon after `Unit ` and digits, then whitespace and a text without
      line terminators, make the shape. */
  lemma ShapeOfParts(line: string, colon: nat, text: string)
    requires 5 < colon < |line| && line[..5] == "Unit " && line[colon] == ':'
    requires forall k :: 5 <= k < colon ==> IsDigit(line[k])
    requires var rest := line[colon + 1..];
      && 0 < |text| <= |rest| && rest[|rest| - |text|..] == text
      && (forall k :: 0 <= k < |rest| - |text| ==> IsWhitespace(rest[k]))
    requires forall k :: 0 <= k < |text| ==> !IsLineTerminator(text[k])
    ensures UnitLineShape(line, line[..colon], text)
  {
    var rest := line[colon + 1..];
    var name := line[..colon];
    assert name[..5] == line[..5];
    assert forall k :: 5 <= k < |name| ==> name[k] == line[k];
    forall k | colon < k < |line| - |text| ensures IsWhitespace(line[k]) {
      assert line[k] == rest[k - colon - 1];
    }
    assert line[|line| - |text|..] == rest[|rest| - |text|..];
  }

  /** The run of digits after `Unit ` ends at the colon. */
  lemma MatchUnitNameComplete(line: string, name: string)
    requires |name| > 5 && name[..5] == "Unit "
    requires forall k :: 5 <= k < |name| ==> IsDigit(name[k])
    requires |name| < |line| && line[..|name|] == name && line[|name|] == ':'
    ensures MatchUnitName(line) == Some(|name|)
  {
    assert line[..5] == name[..5];
    var s := line[5..];
    assert forall k :: 0 <= k < |name| - 5 ==> s[k] == name[k + 5];
    assert s[|name| - 5] == ':';
  }

  /** Whitespace followed by a non-empty text without line terminators
      matches; when the text starts with a non-blank character, it is the
      capture. */
  lemma {:induction false} MatchTextComplete(rest: string, text: string)
    requires 0 < |text| <= |rest| && rest[|rest| - |text|..] == text
    requires forall k :: 0 <= k < |rest| - |text| ==> IsWhitespace(rest[k])
    requires forall k :: 0 <= k < |text| ==> !IsLineTerminator(text[k])
    ensures MatchText(rest).Some?
    ensures !IsWhitespace(text[0]) ==> MatchText(rest) == Some(text)
    decreases |rest|
  {
    assert |rest| > |text| ==> IsWhitespace(rest[0]);
    if |rest| >= 2 && IsWhitespace(rest[0]) {
      if |rest| > |text| {
        assert rest[1..][|rest| - 1 - |text|..] == text;
        MatchTextComplete(rest[1..], text);
      } else {
        assert rest == text;
        MatchTextComplete(rest[1..], rest[1..]);
      }
    } else {
      assert |rest| == |text|;
      assert rest == rest[|rest| - |text|..];
    }
  }

  /** Every line of the shape matches, with the unit name it starts with;
      when the text after the whitespace starts with a non-blank character,
      that text is the second capture. With the contract of `MatchUnitLine`:
      a line matches exactly when it has the shape. */
  lemma MatchUnitLineComplete(line: string, name: string, text: string)
    requires UnitLineShape(line, name, text)
    ensures MatchUnitLine(line).Some? && MatchUnitLine(line).value.name == name
    ensures !IsWhitespace(text[0]) ==> MatchUnitLine(line).value.wordsText == text
  {
    MatchUnitNameComplete(line, name);
    ShapeRest(line, name, text);
    MatchTextComplete(line[|name| + 1..], text);
  }

  /** What follows the colon of a line of the shape is whitespace and then the text. */
  lemma ShapeRest(line: string, name: string, text: string)
    requires UnitLineShape(line, name, text)
    ensures var rest := line[|name| + 1..];
      && 0 < |text| <= |rest| && rest[|rest| - |text|..] == text
      && (forall k :: 0 <= k < |rest| - |text| ==> IsWhitespace(rest[k]))
  {
    var rest := line[|name| + 1..];
    assert rest[|rest| - |text|..] == text;
    forall k | 0 <= k < |rest| - |text| ensures IsWhitespace(rest[k]) {
      assert rest[k] == line[k + |name| + 1];
    }
  }

  // ---------------------------------------------------------------------
  // The items of a unit line

  /** One comma-separated item: `const [word, meaning] = pair.trim().split('-')`,
      both trimmed and `''` when missing; further parts are ignored. */
  function ParseItem(pair: string): (r: WordEntry)
    ensures r.pronunciation == None
    ensures '-' !in r.word && '-' !in r.meaning
    ensures |r.word| > 0 ==> !IsWhitespace(r.word[0]) && !IsWhitespace(r.word[|r.word| - 1])
    ensures |r.meaning| > 0 ==> !IsWhitespace(r.meaning[0]) && !IsWhitespace(r.meaning[|r.meaning| - 1])
  {
    var parts := Split(Trim(pair), '-');
    SplitPiecesFree(Trim(pair), '-');
    TrimInside(parts[0]);
    if |parts| > 1 then
      TrimInside(parts[1]);
      WordEntry(Trim(parts[0]), Trim(parts[1]), None)
    else WordEntry(Trim(parts[0]), "", None)
  }

  /** The `map` over the items. */
  function ParseEach(pairs: seq<string>): (r: seq<WordEntry>)
    ensures |r| == |pairs|
    ensures forall k :: 0 <= k < |r| ==> r[k] == ParseItem(pairs[k])
  {
    seq(|pairs|, k requires 0 <= k < |pairs| => ParseItem(pairs[k]))
  }

  /** `w.word && w.meaning`: both strings are non-empty. */
  predicate Complete(e: WordEntry)
  {
    e.word != "" && e.meaning != ""
  }

  /** The `filter(w => w.word && w.meaning)`, left to right. */
  function KeepComplete(es: seq<WordEntry>): (r: seq<WordEntry>)
    ensures |r| <= |es|
    ensures forall k :: 0 <= k < |r| ==> Complete(r[k])
  {
    if |es| == 0 then []
    else (if Complete(es[0]) then [es[0]] else []) + KeepComplete(es[1..])
  }

  /** `wordsText.split(',').map(...).filter(...)`: at most one entry per
      item, each with a non-empty word and meaning and no pronunciation. */
  function ParseItems(wordsText: string): (r: seq<WordEntry>)
    ensures |r| <= |Split(wordsText, ',')|
    ensures forall k :: 0 <= k < |r| ==> Complete(r[k]) && r[k].pronunciation == None
  {
    var each := ParseEach(Split(wordsText, ','));
    KeepCompleteNoPronunciation(each);
    KeepComplete(each)
  }

  /** The filter keeps the order of the items: it distributes over concatenation. */
  lemma {:induction false} KeepCompleteConcat(xs: seq<WordEntry>, ys: seq<WordEntry>)
    ensures KeepComplete(xs + ys) == KeepComplete(xs) + KeepComplete(ys)
    decreases |xs|
  {
    if |xs| > 0 {
      assert (xs + ys)[1..] == xs[1..] + ys;
      KeepCompleteConcat(xs[1..], ys);
    } else {
      assert xs + ys == ys;
    }
  }

  /** The filter keeps every complete entry and no other. */
  lemma {:induction false} KeepCompleteAll(es: seq<WordEntry>)
    ensures (forall k :: 0 <= k < |es| ==> Complete(es[k])) ==> KeepComplete(es) == es
    ensures forall e :: e in KeepComplete(es) <==> e in es && Complete(e)
    decreases |es|
  {
    if |es| > 0 {
      KeepCompleteAll(es[1..]);
      assert es == [es[0]] + es[1..];
    }
  }

  /** The filter lets through no entry with a pronunciation when there is none. */
  lemma KeepCompleteNoPronunciation(es: seq<WordEntry>)
    requires forall j :: 0 <= j < |es| ==> es[j].pronunciation == None
    ensures forall k :: 0 <= k < |KeepComplete(es)| ==> KeepComplete(es)[k].pronunciation == None
  {
    KeepCompleteAll(es);
    forall k | 0 <= k < |KeepComplete(es)|
      ensures KeepComplete(es)[k].pronunciation == None
    {
      assert KeepComplete(es)[k] in es;
    }
  }

  /** A field that survives writing and parsing unchanged: non-empty, no
      surrounding whitespace, and neither separator inside. */
  predicate CleanField(s: string)
  {
    |s| > 0 && !IsWhitespace(s[0]) && !IsWhitespace(s[|s| - 1]) && '-' !in s && ',' !in s
  }

  predicate CleanEntry(e: WordEntry)
  {
    CleanField(e.word) && CleanField(e.meaning) && e.pronunciation == None
  }

  /** An item written `word-meaning`. */
  function FormatItem(e: WordEntry): string
  {
    e.word + "-" + e.meaning
  }

  /** The items of a unit line written `w-m,w-m,...`. */
  function FormatItems(es: seq<WordEntry>): string
  {
    Join(Pieces(es), ',')
  }

  /** The items one by one. */
  function Pieces(es: seq<WordEntry>): (r: seq<string>)
    ensures |r| == |es|
    ensures forall k :: 0 <= k < |es| ==> r[k] == FormatItem(es[k])
  {
    seq(|es|, k requires 0 <= k < |es| => FormatItem(es[k]))
  }

  /** A string that neither starts nor ends with whitespace is its own trim. */
  lemma TrimUnchanged(s: string)
    requires |s| > 0 && !IsWhitespace(s[0]) && !IsWhitespace(s[|s| - 1])
    ensures Trim(s) == s
  {
    assert TrimStart(s) == s;
  }

  /** A clean entry written as an item parses back into itself. */
  lemma ParseFormatItem(e: WordEntry)
    requires CleanEntry(e)
    ensures ParseItem(FormatItem(e)) == e
  {
    FormatItemEnds(e.word, e.meaning);
    TrimUnchanged(FormatItem(e));
    TrimUnchanged(e.word);
    TrimUnchanged(e.meaning);
    SplitTwoPieces(e.word, e.meaning);
  }

  /** The first and last characters of `w-m`. */
  lemma FormatItemEnds(w: string, m: string)
    requires |w| > 0 && |m| > 0
    ensures (w + "-" + m)[0] == w[0] && (w + "-" + m)[|w + "-" + m| - 1] == m[|m| - 1]
  {
  }

  /** Splitting `w-m` on `-` gives `w` and `m`. */
  lemma SplitTwoPieces(w: string, m: string)
    requires '-' !in w && '-' !in m
    ensures Split(w + "-" + m, '-') == [w, m]
  {
    SplitCons(w, m, '-');
    assert IndexOf(m, '-') == -1;
  }

  /** Parts after the second are ignored: an item with a further `-` and
      anything after it parses as the item without them. */
  lemma ParseItemIgnoresExtraParts(e: WordEntry, extra: string)
    requires CleanEntry(e)
    requires |extra| == 0 || !IsWhitespace(extra[|extra| - 1])
    ensures ParseItem(FormatItem(e) + "-" + extra) == e
  {
    var s := FormatItem(e) + "-" + extra;
    ExtendedItemTrimmed(e.word, e.meaning, extra);
    TrimUnchanged(e.word);
    TrimUnchanged(e.meaning);
    SplitTwoFields(e.word, e.meaning, extra);
    ParseItemOfParts(s, e.word, e.meaning, Split(extra, '-'));
  }

  /** An item that is its own trim and splits into two trimmed parts and
      possibly more parses as its first two parts. */
  lemma ParseItemOfParts(pair: string, w: string, m: string, rest: seq<string>)
    requires Trim(pair) == pair && Split(pair, '-') == [w, m] + rest
    requires Trim(w) == w && Trim(m) == m
    ensures ParseItem(pair) == WordEntry(w, m, None)
  {
    assert ([w, m] + rest)[0] == w && ([w, m] + rest)[1] == m;
  }

  /** `w-m-extra` is its own trim when `w` starts and `extra` ends
      without whitespace. */
  lemma ExtendedItemTrimmed(w: string, m: string, extra: string)
    requires |w| > 0 && !IsWhitespace(w[0])
    requires |extra| == 0 || !IsWhitespace(extra[|extra| - 1])
    ensures Trim(w + "-" + m + "-" + extra) == w + "-" + m + "-" + extra
  {
    var s := w + "-" + m + "-" + extra;
    assert s[0] == w[0];
    assert s[|s| - 1] == if |extra| == 0 then '-' else extra[|extra| - 1];
    TrimUnchanged(s);
  }

  /** Splitting `w-m-extra` on `-` gives `w`, `m` and the pieces of `extra`. */
  lemma SplitTwoFields(w: string, m: string, extra: string)
    requires '-' !in w && '-' !in m
    ensures Split(w + "-" + m + "-" + extra, '-') == [w, m] + Split(extra, '-')
  {
    var tail := m + ['-'] + extra;
    Reassociate(w, m, extra);
    SplitCons(m, extra, '-');
    SplitCons(w, tail, '-');
  }

  lemma Reassociate(w: string, m: string, extra: string)
    ensures w + "-" + m + "-" + extra == w + ['-'] + (m + ['-'] + extra)
  {
  }

  /** Writing clean entries as a unit's items and parsing them gives back the
      entries, in order. */
  lemma ParseFormatItems(es: seq<WordEntry>)
    requires forall k :: 0 <= k < |es| ==> CleanEntry(es[k])
    ensures ParseItems(FormatItems(es)) == es
  {
    if |es| == 0 {
      ParseItemsEmpty();
    } else {
      PiecesFree(es);
      SplitJoin(Pieces(es), ',');
      ParseEachPieces(es);
      KeepCompleteAll(es);
    }
  }

  /** An empty unit text has no items. */
  lemma ParseItemsEmpty()
    ensures ParseItems("") == []
  {
    assert Split("", ',') == [""];
    assert ParseItem("").word == "" by {
      assert Trim("") == "";
      assert Split("", '-') == [""];
    }
  }

  /** No written item of clean entries holds a comma. */
  lemma PiecesFree(es: seq<WordEntry>)
    requires forall k :: 0 <= k < |es| ==> CleanEntry(es[k])
    ensures forall k :: 0 <= k < |Pieces(es)| ==> ',' !in Pieces(es)[k]
  {
    forall k | 0 <= k < |es| ensures ',' !in Pieces(es)[k] {
      assert Pieces(es)[k] == es[k].word + "-" + es[k].meaning;
    }
  }

  /** The written items of clean entries parse back one by one. */
  lemma ParseEachPieces(es: seq<WordEntry>)
    requires forall k :: 0 <= k < |es| ==> CleanEntry(es[k])
    ensures ParseEach(Pieces(es)) == es
  {
    var each := ParseEach(Pieces(es));
    forall k | 0 <= k < |es| ensures each[k] == es[k] {
      ParseFormatItem(es[k]);
    }
  }

  // ---------------------------------------------------------------------
  // The lines after the grade line

  /** What a line contributes: its unit name and parsed items when it is a
      unit line (after trimming), nothing otherwise. */
  datatype ParsedUnit = ParsedUnit(name: string, words: seq<WordEntry>)

  function ParseLine(line: string): (r: Option<ParsedUnit>)
    ensures r.Some? <==> MatchUnitLine(Trim(line)).Some?
    ensures r.Some? ==> r.value.name == MatchUnitLine(Trim(line)).value.name
  {
    match MatchUnitLine(Trim(line))
    case None => None
    case Some(u) => Some(ParsedUnit(u.name, ParseItems(u.wordsText)))
  }

  /** What every line contributes, in order. */
  function ParseLines(lines: seq<string>): (ps: seq<Option<ParsedUnit>>)
    ensures |ps| == |lines|
    ensures forall k :: 0 <= k < |lines| ==> ps[k] == ParseLine(lines[k])
  {
    if |lines| == 0 then []
    else
      var init := lines[..|lines| - 1];
      assert forall k :: 0 <= k < |init| ==> init[k] == lines[k];
      ParseLines(init) + [ParseLine(lines[|lines| - 1])]
  }

  /** The `units` object after lines contributing `ps`: each unit line sets
      its unit to its items, and other lines change nothing. */
  function UnitsOf(ps: seq<Option<ParsedUnit>>): (r: Units)
    ensures forall name :: name in r <==> exists i :: 0 <= i < |ps| && ps[i].Some? && ps[i].value.name == name
  {
    if |ps| == 0 then map[]
    else
      var init := ps[..|ps| - 1];
      assert forall i :: 0 <= i < |init| ==> init[i] == ps[i];
      var units := UnitsOf(init);
      match ps[|ps| - 1]
      case None => units
      case Some(u) => units[u.name := u.words]
  }

  /** A unit holds the items of the last line naming it. */
  lemma {:induction false} UnitsOfLast(ps: seq<Option<ParsedUnit>>, i: nat)
    requires i < |ps| && ps[i].Some?
    requires forall j :: i < j < |ps| ==> ps[j].None? || ps[j].value.name != ps[i].value.name
    ensures ps[i].value.name in UnitsOf(ps)
    ensures UnitsOf(ps)[ps[i].value.name] == ps[i].value.words
    decreases |ps|
  {
    if i < |ps| - 1 {
      var init := ps[..|ps| - 1];
      assert init[i] == ps[i];
      UnitsOfLast(init, i);
    }
  }

  /** The contributions of two stretches of lines, one after the other. */
  lemma {:induction false} ParseLinesConcat(xs: seq<string>, ys: seq<string>)
    ensures ParseLines(xs + ys) == ParseLines(xs) + ParseLines(ys)
    decreases |ys|
  {
    if |ys| == 0 {
      assert xs + ys == xs;
    } else {
      var ys' := ys[..|ys| - 1];
      assert (xs + ys)[..|xs + ys| - 1] == xs + ys';
      assert (xs + ys)[|xs + ys| - 1] == ys[|ys| - 1];
      ParseLinesConcat(xs, ys');
    }
  }

  /** A blank line, or any other line that is not a unit line, can be
      dropped without changing the units. */
  lemma LinesSkip(xs: seq<string>, line: string, ys: seq<string>)
    requires MatchUnitLine(Trim(line)).None?
    ensures UnitsOf(ParseLines(xs + [line] + ys)) == UnitsOf(ParseLines(xs + ys))
  {
    ParseLinesConcat(xs + [line], ys);
    ParseLinesConcat(xs, [line]);
    ParseLinesConcat(xs, ys);
    assert ParseLines([line]) == [None] by {
      assert [line][..0] == [];
    }
    UnitsOfSkip(ParseLines(xs), ParseLines(ys));
  }

  /** A line that is not a unit line, a blank line among them, can be
      dropped without changing the units. */
  lemma {:induction false} UnitsOfSkip(xs: seq<Option<ParsedUnit>>, ys: seq<Option<ParsedUnit>>)
    ensures UnitsOf(xs + [None] + ys) == UnitsOf(xs + ys)
    decreases |ys|
  {
    if |ys| == 0 {
      assert (xs + [None] + ys)[..|xs| + 1 - 1] == xs;
      assert xs + ys == xs;
    } else {
      var ys' := ys[..|ys| - 1];
      assert (xs + [None] + ys)[..|xs + [None] + ys| - 1] == xs + [None] + ys';
      assert (xs + ys)[..|xs + ys| - 1] == xs + ys';
      UnitsOfSkip(xs, ys');
    }
  }

  /** Every unit holds the words of some unit line. */
  lemma {:induction false} UnitsOfFrom(ps: seq<Option<ParsedUnit>>)
    ensures forall name :: name in UnitsOf(ps) ==> exists i :: 0 <= i < |ps| && ps[i] == Some(ParsedUnit(name, UnitsOf(ps)[name]))
    decreases |ps|
  {
    if |ps| > 0 {
      var init := ps[..|ps| - 1];
      UnitsOfFrom(init);
      assert forall i :: 0 <= i < |init| ==> init[i] == ps[i];
    }
  }

  /** Every parsed entry has a non-empty word and meaning and no pronunciation. */
  lemma ParsedEntriesComplete(lines: seq<string>)
    ensures forall name, k :: name in UnitsOf(ParseLines(lines)) && 0 <= k < |UnitsOf(ParseLines(lines))[name]| ==>
              Complete(UnitsOf(ParseLines(lines))[name][k]) && UnitsOf(ParseLines(lines))[name][k].pronunciation == None
  {
    var ps := ParseLines(lines);
    UnitsOfFrom(ps);
    forall name | name in UnitsOf(ps)
      ensures forall k :: 0 <= k < |UnitsOf(ps)[name]| ==> Complete(UnitsOf(ps)[name][k]) && UnitsOf(ps)[name][k].pronunciation == None
    {
      var i :| 0 <= i < |ps| && ps[i] == Some(ParsedUnit(name, UnitsOf(ps)[name]));
      assert ps[i] == ParseLine(lines[i]);
    }
  }

  // ---------------------------------------------------------------------
  // The parser

  /** `text.trim().split('\n')`: never empty. */
  function Lines(text: string): (r: seq<string>)
    ensures |r| >= 1
  {
    Split(Trim(text), '\n')
  }

  /** The body of the loop of `parseWordText` for one line: trim it, skip it
      when blank, match it, and parse its items. */
  method ParseUnitLine(raw: string) returns (r: Option<ParsedUnit>)
    ensures r == ParseLine(raw)
  {
    var line := Trim(raw);
    if |line| == 0 {
      assert MatchUnitName(line).None?;
      r := None;
    } else {
      var m := MatchUnitLine(line);
      if m.Some? {
        var words := ParseItems(m.value.wordsText);
        r := Some(ParsedUnit(m.value.name, words));
      } else {
        r := None;
      }
    }
  }

  /** One more line updates the units as the loop body does. */
  lemma UnitsStep(lines: seq<string>, i: nat, parsed: Option<ParsedUnit>)
    requires 1 <= i < |lines| && parsed == ParseLine(lines[i])
    ensures UnitsOf(ParseLines(lines[1..i + 1])) ==
            match parsed
            case None => UnitsOf(ParseLines(lines[1..i]))
            case Some(u) => UnitsOf(ParseLines(lines[1..i]))[u.name := u.words]
  {
    SliceExtend(lines, 1, i);
    ParseLinesSnoc(lines[1..i], lines[i]);
    UnitsOfSnoc(ParseLines(lines[1..i]), parsed);
  }

  /** A slice one element longer. */
  lemma SliceExtend<T>(s: seq<T>, i: nat, j: nat)
    requires i <= j < |s|
    ensures s[i..j + 1] == s[i..j] + [s[j]]
  {
  }

  /** One more line contributes after the others. */
  lemma ParseLinesSnoc(xs: seq<string>, line: string)
    ensures ParseLines(xs + [line]) == ParseLines(xs) + [ParseLine(line)]
  {
    assert (xs + [line])[..|xs|] == xs;
  }

  /** One more contribution updates the units as a unit line does. */
  lemma UnitsOfSnoc(ps: seq<Option<ParsedUnit>>, p: Option<ParsedUnit>)
    ensures UnitsOf(ps + [p]) ==
            match p
            case None => UnitsOf(ps)
            case Some(u) => UnitsOf(ps)[u.name := u.words]
  {
    assert (ps + [p])[..|ps|] == ps;
  }

  /** The `for` loop of `parseWordText` over the lines after the grade line. */
  method ParseUnits(lines: seq<string>) returns (units: Units)
    requires |lines| >= 1
    ensures units == UnitsOf(ParseLines(lines[1..]))
  {
    units := map[];
    for i := 1 to |lines|
      invariant units == UnitsOf(ParseLines(lines[1..i]))
    {
      var parsed := ParseUnitLine(lines[i]);
      UnitsStep(lines, i, parsed);
      if parsed.Some? {
        units := units[parsed.value.name := parsed.value.words];
      }
    }
    assert lines[1..|lines|] == lines[1..];
  }

  /** `parseWordText(text)`: one grade, named by the trimmed first line, whose
      units come from the remaining lines. */
  method ParseWordText(text: string) returns (lib: Library)
    ensures lib.Keys == {Trim(Lines(text)[0])}
    ensures lib[Trim(Lines(text)[0])] == UnitsOf(ParseLines(Lines(text)[1..]))
  {
    var lines := Split(Trim(text), '\n');
    var gradeName := Trim(lines[0]);
    var units := ParseUnits(lines);
    lib := map[gradeName := units];
  }
}
