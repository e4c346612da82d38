/**
  `toCamelCase` in src/server/sheets.ts: the header normaliser of
  `sheetToJsonFromName`. It drops a leading byte-order mark, decomposes
  accented letters into a base letter and a combining mark (NFD), removes the
  combining marks U+0300..U+036F, turns every run of characters outside `[0-9a-zA-Z]`
  into one space, trims and lowercases, splits into words and joins them in
  camel case, with `_` in front of a leading digit.
 */
module CamelCase {
  import opened JsString

  const Bom: char := '\U{FEFF}'

  /**
    `.replace(/^\uFEFF/, '')`. In `sheetToJsonFromName` every header is
    trimmed before it reaches `toCamelCase` (src/server/sheets.ts:22, 48),
    and `trim` already removes U+FEFF, so there this branch never fires; it is
    kept because `toCamelCase` itself promises it for any input.
   */
  function StripBom(s: string): string {
    if |s| > 0 && s[0] == Bom then s[1..] else s
  }

  predicate IsCombiningMark(c: char) {
    '\U{0300}' <= c <= '\U{036F}'
  }

  /**
    The base letter of the precomposed upper-case Latin-1 letter U+00C0 + `k`
    (`k` below 30), or `-` for the ones without a canonical decomposition
    (Æ, Ð, ×, Ø). U+00E0 + `k` is the same letter in lower case.
   */
  function Latin1Base(k: int): char {
    if 0 <= k <= 5 then 'A'
    else if k == 7 then 'C'
    else if 8 <= k <= 11 then 'E'
    else if 12 <= k <= 15 then 'I'
    else if k == 17 then 'N'
    else if 18 <= k <= 22 then 'O'
    else if 25 <= k <= 28 then 'U'
    else if k == 29 then 'Y'
    else '-'
  }

  /** The combining mark that follows the base letter in the decomposition of U+00C0 + `k`. */
  function Latin1Mark(k: int): (m: char)
    requires Latin1Base(k) != '-'
    ensures IsCombiningMark(m)
  {
    var grave, acute, circumflex, tilde, diaeresis := '\U{0300}', '\U{0301}', '\U{0302}', '\U{0303}', '\U{0308}';
    if k <= 5 then [grave, acute, circumflex, tilde, diaeresis, '\U{030A}'][k]
    else if k == 7 then '\U{0327}'
    else if k <= 15 then [grave, acute, circumflex, diaeresis][(k - 8) % 4]
    else if k == 17 then tilde
    else if k <= 22 then [grave, acute, circumflex, tilde, diaeresis][k - 18]
    else if k <= 28 then [grave, acute, circumflex, diaeresis][k - 25]
    else acute
  }

  /** The canonical decomposition of one character, as far as the Latin-1 letters go. */
  function DecomposeChar(c: char): (r: string)
    ensures r == [c] || (|r| == 2 && IsAlnum(r[0]) && IsCombiningMark(r[1]))
  {
    if c == '\U{00FF}' then "y\U{0308}"
    else if '\U{00C0}' <= c <= '\U{00DD}' && Latin1Base(c as int - 0xC0) != '-' then
      [Latin1Base(c as int - 0xC0), Latin1Mark(c as int - 0xC0)]
    else if '\U{00E0}' <= c <= '\U{00FD}' && Latin1Base(c as int - 0xE0) != '-' then
      [LowerChar(Latin1Base(c as int - 0xE0)), Latin1Mark(c as int - 0xE0)]
    else [c]
  }

  /** `.normalize('NFD')`, decomposing the precomposed Latin-1 letters. */
  function Nfd(s: string): string {
    if s == [] then [] else DecomposeChar(s[0]) + Nfd(s[1..])
  }

  /** The text after the byte-order mark is stripped, the letters are decomposed and the marks are removed. */
  function Unaccented(input: string): string {
    RemoveMarks(Nfd(StripBom(input)))
  }

  /** The letter a character leaves once decomposed and stripped of its mark. */
  function BaseLetter(c: char): char {
    DecomposeChar(c)[0]
  }

  /**
    Decomposing and removing the marks replaces each accented Latin-1
    letter by its base letter and keeps every other character (of a text
    without marks of its own).
   */
  lemma {:induction false} UnaccentedLetters(s: string)
    requires forall i :: 0 <= i < |s| ==> !IsCombiningMark(s[i])
    ensures RemoveMarks(Nfd(s)) == seq(|s|, i requires 0 <= i < |s| => BaseLetter(s[i]))
  {
    if s != [] {
      var rest := s[1..];
      UnaccentedLetters(rest);
      RemoveMarksAppend(DecomposeChar(s[0]), Nfd(rest));
      DecomposedKeepsBase(s[0]);
      var r := RemoveMarks(Nfd(s));
      assert r == [BaseLetter(s[0])] + RemoveMarks(Nfd(rest));
      forall i | 0 <= i < |s| ensures r[i] == BaseLetter(s[i]) {
        if i > 0 {
          assert r[i] == RemoveMarks(Nfd(rest))[i - 1];
          assert rest[i - 1] == s[i];
        }
      }
    }
  }

  /** One character without a mark of its own leaves its base letter. */
  lemma DecomposedKeepsBase(c: char)
    requires !IsCombiningMark(c)
    ensures RemoveMarks(DecomposeChar(c)) == [BaseLetter(c)]
  {
    var d := DecomposeChar(c);
    if |d| == 2 {
      assert d[1..][1..] == [];
      assert IsCombiningMark(d[1..][0]);
      assert RemoveMarks(d[1..]) == [];
      assert !IsCombiningMark(d[0]);
    } else {
      assert d[1..] == [];
    }
  }

  /** Removing marks works character by character. */
  lemma {:induction false} RemoveMarksAppend(a: string, b: string)
    ensures RemoveMarks(a + b) == RemoveMarks(a) + RemoveMarks(b)
  {
    if a != [] {
      var head := if IsCombiningMark(a[0]) then [] else [a[0]];
      assert (a + b)[0] == a[0];
      assert (a + b)[1..] == a[1..] + b;
      assert RemoveMarks(a + b) == head + RemoveMarks(a[1..] + b);
      assert RemoveMarks(a) == head + RemoveMarks(a[1..]);
      RemoveMarksAppend(a[1..], b);
    } else {
      assert a + b == b;
    }
  }

  /** The accented letters of Spanish lose their accents. */
  lemma SpanishBaseLetters()
    ensures BaseLetter('\U{00E1}') == 'a' && BaseLetter('\U{00E9}') == 'e' && BaseLetter('\U{00ED}') == 'i'
    ensures BaseLetter('\U{00F3}') == 'o' && BaseLetter('\U{00FA}') == 'u' && BaseLetter('\U{00FC}') == 'u'
    ensures BaseLetter('\U{00F1}') == 'n' && BaseLetter('\U{00D1}') == 'N' && BaseLetter('\U{00C9}') == 'E'
  {
  }

  /** The letters and digits of `s`, in order. */
  function Alnums(s: string): (r: string)
    ensures forall i :: 0 <= i < |r| ==> IsAlnum(r[i])
    ensures |r| <= |s|
  {
    if s == [] then [] else (if IsAlnum(s[0]) then [s[0]] else []) + Alnums(s[1..])
  }

  /** `.replace(/[\u0300-\u036f]/g, '')`: drop every combining mark, keep everything else. */
  function RemoveMarks(s: string): (r: string)
    ensures forall i :: 0 <= i < |r| ==> !IsCombiningMark(r[i])
  {
    if s == [] then []
    else
      var head := if IsCombiningMark(s[0]) then [] else [s[0]];
      head + RemoveMarks(s[1..])
  }

  /**
    `.replace(/[^0-9a-zA-Z]+/g, ' ')`: every maximal run of other characters
    becomes one space. `inRun` says whether the character before `s` was
    already part of such a run.
   */
  function CollapseFrom(s: string, inRun: bool): string {
    if s == [] then []
    else if IsAlnum(s[0]) then [s[0]] + CollapseFrom(s[1..], false)
    else if inRun then CollapseFrom(s[1..], true)
    else [' '] + CollapseFrom(s[1..], true)
  }

  function CollapseNonAlnum(s: string): string {
    CollapseFrom(s, false)
  }

  /** What the replacement leaves: letters, digits and spaces, starting as `s` does when `s` starts with a letter or digit. */
  lemma {:induction false} CollapseChars(s: string, inRun: bool)
    ensures AlnumOrSpace(CollapseFrom(s, inRun))
    ensures |s| > 0 && IsAlnum(s[0]) ==> |CollapseFrom(s, inRun)| > 0 && CollapseFrom(s, inRun)[0] == s[0]
    ensures inRun ==> CollapseFrom(s, inRun) == [] || CollapseFrom(s, inRun)[0] != ' '
  {
    if s != [] {
      CollapseChars(s[1..], !IsAlnum(s[0]));
      var r, rest := CollapseFrom(s, inRun), CollapseFrom(s[1..], !IsAlnum(s[0]));
      if IsAlnum(s[0]) || !inRun {
        assert r == [r[0]] + rest;
        forall i | 0 <= i < |r| ensures IsAlnum(r[i]) || r[i] == ' ' {
          if i > 0 {
            assert r[i] == rest[i - 1];
          }
        }
      }
    }
  }

  /** No two spaces in a row are left by the replacement. */
  lemma {:induction false} CollapseSingleSpaces(s: string, inRun: bool)
    ensures var r := CollapseFrom(s, inRun); forall i :: 0 <= i < |r| - 1 ==> r[i] != ' ' || r[i + 1] != ' '
  {
    if s != [] {
      CollapseSingleSpaces(s[1..], !IsAlnum(s[0]));
      CollapseChars(s[1..], !IsAlnum(s[0]));
      var r, rest := CollapseFrom(s, inRun), CollapseFrom(s[1..], !IsAlnum(s[0]));
      if IsAlnum(s[0]) || !inRun {
        assert r == [r[0]] + rest;
        forall i | 0 <= i < |r| - 1 ensures r[i] != ' ' || r[i + 1] != ' ' {
          assert r[i + 1] == rest[i];
          if i > 0 {
            assert r[i] == rest[i - 1];
          }
        }
      }
    }
  }

  /** The replacement keeps the letters and digits, in order. */
  lemma {:induction false} CollapseAlnums(s: string, inRun: bool)
    ensures Alnums(CollapseFrom(s, inRun)) == Alnums(s)
  {
    if s != [] {
      CollapseAlnums(s[1..], !IsAlnum(s[0]));
      var rest := CollapseFrom(s[1..], !IsAlnum(s[0]));
      if IsAlnum(s[0]) {
        AlnumsAppend([s[0]], rest);
      } else if !inRun {
        AlnumsAppend([' '], rest);
      }
    }
  }

  /** Every character of `s` is a letter, a digit or a space. */
  predicate AlnumOrSpace(s: string) {
    forall i :: 0 <= i < |s| ==> IsAlnum(s[i]) || s[i] == ' '
  }

  /** A lower-case ASCII letter or a digit. */
  predicate IsLowerAlnum(c: char) {
    IsLower(c) || IsDigit(c)
  }

  /** `.trim().toLowerCase()` after the replacement: the text the words are split from. */
  function Cleaned(input: string): string {
    Lower(Trim(CollapseNonAlnum(Unaccented(input))))
  }

  /** `.filter((p) => p.length > 0)`. */
  function NonEmpty(parts: seq<string>): (r: seq<string>)
    ensures forall k :: 0 <= k < |r| ==> r[k] != ""
    ensures forall w :: w in r ==> w in parts
  {
    if parts == [] then []
    else (if parts[0] != "" then [parts[0]] else []) + NonEmpty(parts[1..])
  }

  /**
    `cleaned.split(/\s+/).filter((p) => p.length > 0)`. The cleaned text holds
    no white space but single spaces, so splitting at each space and dropping
    the empty parts gives the same words.
   */
  function Words(cleaned: string): seq<string> {
    NonEmpty(Split(cleaned, ' '))
  }

  /** `part.charAt(0).toUpperCase() + part.slice(1)`. */
  function Capitalize(w: string): string
    requires w != ""
  {
    [UpperChar(w[0])] + w[1..]
  }

  /** The words after the first, each capitalized, joined without separator. */
  function CamelTail(ws: seq<string>): string
    requires forall k :: 0 <= k < |ws| ==> ws[k] != ""
  {
    if ws == [] then "" else Capitalize(ws[0]) + CamelTail(ws[1..])
  }

  /** `parts.map(...).join('')`: the first word as it is, the later ones capitalized. */
  function CamelJoin(words: seq<string>): string
    requires |words| > 0 && forall k :: 0 <= k < |words| ==> words[k] != ""
  {
    words[0] + CamelTail(words[1..])
  }

  /** `if (/^[0-9]/.test(camel)) camel = '_' + camel`. */
  function DigitGuard(camel: string): string {
    if |camel| > 0 && IsDigit(camel[0]) then "_" + camel else camel
  }

  /** `toCamelCase(input)`. */
  function ToCamelCase(input: string): string {
    if input == "" then ""
    else
      var words := Words(Cleaned(input));
      if words == [] then "" else DigitGuard(CamelJoin(words))
  }

  /** The letters and digits a header is made from, once the byte-order mark is gone and accented letters are reduced to their base letters. */
  function Core(input: string): string {
    Alnums(Unaccented(input))
  }

  /** The shape of every non-empty `toCamelCase` result: letters and digits, and possibly a `_` in front. */
  predicate CamelShaped(h: string) {
    && h != ""
    && (IsAlnum(h[0]) || h[0] == '_')
    && forall i :: 1 <= i < |h| ==> IsAlnum(h[i])
  }

  /** The identifier without the `_` put in front of a leading digit. */
  function Unprefixed(h: string): string {
    if |h| > 0 && h[0] == '_' then h[1..] else h
  }

  /** One word when `w` is non-empty, none otherwise. */
  function WordIfAny(w: string): seq<string> {
    if w == "" then [] else [w]
  }

  /**
    The maximal runs of letters and digits of `s`, read left to right, where
    `cur` is the run read so far: each character outside `[0-9a-zA-Z]` ends
    the current run.
   */
  function RunsFrom(s: string, cur: string): seq<string> {
    if s == [] then WordIfAny(cur)
    else if IsAlnum(s[0]) then RunsFrom(s[1..], cur + [s[0]])
    else WordIfAny(cur) + RunsFrom(s[1..], "")
  }

  /** The maximal runs of letters and digits of `s`, in order. */
  function Runs(s: string): seq<string> {
    RunsFrom(s, "")
  }

  function LowerAll(ws: seq<string>): seq<string> {
    seq(|ws|, k requires 0 <= k < |ws| => Lower(ws[k]))
  }

  /**
    The positions, counted from `offset`, at which those words of `ws` that
    start with a letter begin once the words are run together.
   */
  function LetterStarts(ws: seq<string>, offset: nat): (r: set<nat>)
    ensures forall x :: x in r ==> offset <= x
  {
    if ws == [] then {}
    else (if ws[0] != "" && !IsDigit(ws[0][0]) then {offset} else {}) + LetterStarts(ws[1..], offset + |ws[0]|)
  }

  /** The positions in the run-together words at which a word after the first begins with a letter. */
  function LaterLetterStarts(ws: seq<string>): set<nat> {
    if ws == [] then {} else LetterStarts(ws[1..], |ws[0]|)
  }

  // ---- Properties ----

  /**
    What `toCamelCase` promises: the result is empty exactly when the input
    has no letter or digit (once the byte-order mark is gone and accented
    letters are reduced to their base letters); otherwise it is made of
    letters and digits, never starts with a digit or an upper-case letter,
    gets a `_` exactly when the first such character is a digit, holds
    exactly the input's letters and digits, in order, changed only in case,
    and has a capital exactly where a run of letters and digits other than
    the first begins with a letter.
   */
  lemma CamelCaseMeaning(input: string)
    ensures ToCamelCase(input) == "" <==> Core(input) == ""
    ensures var r := ToCamelCase(input);
      r != "" ==>
        && CamelShaped(r)
        && !IsDigit(r[0]) && !IsUpper(r[0])
        && (r[0] == '_' <==> IsDigit(Core(input)[0]))
        && Lower(Unprefixed(r)) == Lower(Core(input))
        && forall i :: 0 <= i < |Unprefixed(r)| ==>
             (IsUpper(Unprefixed(r)[i]) <==> i in LaterLetterStarts(Runs(Unaccented(input))))
  {
    var core := Core(input);
    if input != "" {
      var words := Words(Cleaned(input));
      WordsOfInput(input);
      LaterLetterStartsLower(Runs(Unaccented(input)));
      if words == [] {
        assert |Lower(core)| == |core|;
      } else {
        var camel := CamelJoin(words);
        CamelJoinShape(words);
        DigitGuardShape(camel);
        var r := DigitGuard(camel);
        assert ToCamelCase(input) == r;
        assert Lower(Unprefixed(r)) == Lower(core);
        SameLowerFirst(camel, core);
        assert IsLowerAlnum(words[0][0]);
        assert !IsUpper(r[0]);
        assert r != "" && core != "";
      }
    }
  }

  /** Strings equal once lowered start with a digit together. */
  lemma SameLowerFirst(x: string, y: string)
    requires |x| > 0 && Lower(x) == Lower(y)
    ensures |y| > 0 && (IsDigit(x[0]) <==> IsDigit(y[0]))
  {
    assert |Lower(y)| == |y|;
    assert LowerChar(x[0]) == Lower(x)[0] == Lower(y)[0] == LowerChar(y[0]);
  }

  /**
    The words of a header are its maximal runs of letters and digits,
    lowered: so they are lower-case letters and digits, and together its
    letters and digits, lowered.
   */
  lemma WordsOfInput(input: string)
    ensures Words(Cleaned(input)) == LowerAll(Runs(Unaccented(input)))
    ensures var words := Words(Cleaned(input));
      && (forall k, i :: 0 <= k < |words| && 0 <= i < |words[k]| ==> IsLowerAlnum(words[k][i]))
      && Concat(words) == Lower(Core(input))
  {
    CleanedShape(input);
    WordsConcat(Cleaned(input));
    WordsAreLowerAlnum(Cleaned(input));
    WordsAreLoweredRuns(input);
  }

  /**
    Camel-joining lower-case words gives letters and digits that lower back
    to the words, with a capital exactly where a later word starts with a letter.
   */
  lemma CamelJoinShape(words: seq<string>)
    requires |words| > 0 && forall k :: 0 <= k < |words| ==> words[k] != ""
    requires forall k, i :: 0 <= k < |words| && 0 <= i < |words[k]| ==> IsLowerAlnum(words[k][i])
    ensures |CamelJoin(words)| > 0 && CamelJoin(words)[0] == words[0][0]
    ensures forall i :: 0 <= i < |CamelJoin(words)| ==> IsAlnum(CamelJoin(words)[i])
    ensures Lower(CamelJoin(words)) == Concat(words)
    ensures forall i :: 0 <= i < |CamelJoin(words)| ==> (IsUpper(CamelJoin(words)[i]) <==> i in LaterLetterStarts(words))
  {
    CamelJoinCapitals(words);
    var camel := CamelJoin(words);
    var tail := CamelTail(words[1..]);
    CamelTailShape(words[1..]);
    LowerCamelTail(words[1..]);
    LowerAppend(words[0], tail);
    assert Lower(words[0]) == words[0] by {
      assert forall i :: 0 <= i < |words[0]| ==> IsLowerAlnum(words[0][i]);
    }
    forall i | 0 <= i < |camel| ensures IsAlnum(camel[i]) {
      if i < |words[0]| {
        assert camel[i] == words[0][i];
      } else {
        assert camel[i] == tail[i - |words[0]|];
      }
    }
  }

  /** The `_` guard turns a letter-and-digit identifier into one that starts with no digit. */
  lemma DigitGuardShape(camel: string)
    requires |camel| > 0 && forall i :: 0 <= i < |camel| ==> IsAlnum(camel[i])
    ensures CamelShaped(DigitGuard(camel)) && !IsDigit(DigitGuard(camel)[0])
    ensures DigitGuard(camel)[0] == '_' <==> IsDigit(camel[0])
    ensures !IsDigit(camel[0]) ==> DigitGuard(camel)[0] == camel[0]
    ensures Unprefixed(DigitGuard(camel)) == camel
  {
    if IsDigit(camel[0]) {
      var r := "_" + camel;
      assert r[1..] == camel;
      assert forall i :: 1 <= i < |r| ==> r[i] == camel[i - 1];
    }
  }

  /** A header of two lower-case words becomes one identifier with the second word capitalized. */
  lemma CamelCaseOfTwoWords(a: string, b: string)
    requires a != "" && b != "" && IsLower(a[0])
    requires forall i :: 0 <= i < |a| ==> IsLowerAlnum(a[i])
    requires forall i :: 0 <= i < |b| ==> IsLowerAlnum(b[i])
    ensures ToCamelCase(a + " " + b) == a + Capitalize(b)
  {
    WordsOfTwo(a, b);
    CamelCaseFromWords(a + " " + b, [a, b]);
    CamelJoinOfTwo(a, b);
  }

  lemma CamelJoinOfTwo(a: string, b: string)
    requires a != "" && b != "" && IsLower(a[0])
    ensures DigitGuard(CamelJoin([a, b])) == a + Capitalize(b)
  {
    assert [a, b][1..] == [b];
    assert CamelTail([b]) == Capitalize(b) + CamelTail([]);
    assert (a + Capitalize(b))[0] == a[0];
  }

  /** A header that is one lower-case word is its own identifier. */
  lemma CamelCaseOfOneWord(a: string)
    requires a != "" && IsLower(a[0])
    requires forall i :: 0 <= i < |a| ==> IsLowerAlnum(a[i])
    ensures ToCamelCase(a) == a
  {
    WordsOfOne(a);
    CamelCaseFromWords(a, [a]);
    CamelJoinOfOne(a);
  }

  lemma CamelJoinOfOne(a: string)
    requires a != "" && IsLower(a[0])
    ensures DigitGuard(CamelJoin([a])) == a
  {
    assert CamelJoin([a]) == a + CamelTail([]);
  }

  lemma WordsOfOne(a: string)
    requires a != "" && IsLower(a[0])
    requires forall i :: 0 <= i < |a| ==> IsLowerAlnum(a[i])
    ensures Words(Cleaned(a)) == [a]
  {
    assert ' ' !in a;
    NonEmptyUnchanged([a]);
    CleanedUnchanged(a);
    SplitWithoutSep(a, ' ');
  }

  lemma CamelCaseFromWords(input: string, ws: seq<string>)
    requires input != "" && Words(Cleaned(input)) == ws && |ws| > 0
    ensures ToCamelCase(input) == DigitGuard(CamelJoin(ws))
  {
  }

  lemma WordsOfTwo(a: string, b: string)
    requires a != "" && b != "" && IsLower(a[0])
    requires forall i :: 0 <= i < |a| ==> IsLowerAlnum(a[i])
    requires forall i :: 0 <= i < |b| ==> IsLowerAlnum(b[i])
    ensures Words(Cleaned(a + " " + b)) == [a, b]
  {
    var s := a + " " + b;
    var parts := [a, b];
    NonEmptyUnchanged(parts);
    TwoWordsShape(a, b);
    CleanedUnchanged(s);
    assert s == a + [' '] + b;
    SplitAtOnlySep(a, b, ' ');
  }

  lemma {:induction false} NonEmptyUnchanged(parts: seq<string>)
    requires forall k :: 0 <= k < |parts| ==> parts[k] != ""
    ensures NonEmpty(parts) == parts
  {
    if parts != [] {
      NonEmptyUnchanged(parts[1..]);
      assert parts == [parts[0]] + parts[1..];
    }
  }

  lemma TwoWordsShape(a: string, b: string)
    requires a != "" && b != "" && IsLower(a[0])
    requires forall i :: 0 <= i < |a| ==> IsLowerAlnum(a[i])
    requires forall i :: 0 <= i < |b| ==> IsLowerAlnum(b[i])
    ensures var s := a + " " + b;
      && (forall i :: 0 <= i < |s| ==> s[i] == ' ' || IsLowerAlnum(s[i]))
      && (forall i :: 0 <= i < |s| - 1 ==> s[i] != ' ' || s[i + 1] != ' ')
      && IsLower(s[0]) && IsLowerAlnum(s[|s| - 1])
      && ' ' !in a && ' ' !in b
  {
    var s := a + " " + b;
    assert forall i :: 0 <= i < |s| && s[i] == ' ' ==> i == |a|;
  }

  /** Lower-case words with single spaces between them are left as they are by the cleaning. */
  lemma CleanedUnchanged(s: string)
    requires s != [] && IsLower(s[0]) && IsLowerAlnum(s[|s| - 1])
    requires forall i :: 0 <= i < |s| ==> s[i] == ' ' || IsLowerAlnum(s[i])
    requires forall i :: 0 <= i < |s| - 1 ==> s[i] != ' ' || s[i + 1] != ' '
    ensures Cleaned(s) == s
  {
    assert s[0] != Bom;
    assert StripBom(s) == s;
    PlainTextUnaccented(s);
    var u := Unaccented(s);
    assert u == s;
    assert AlnumOrSpace(s);
    CollapseUnchanged(s, false);
    var c := CollapseNonAlnum(u);
    assert c == s;
    TrimUnchanged(s);
    var t := Trim(c);
    assert t == s;
    LowerUnchanged(s);
    assert Lower(t) == s;
  }

  /** Spaces, lower-case letters and digits have nothing to decompose and no marks to drop. */
  lemma PlainTextUnaccented(s: string)
    requires forall i :: 0 <= i < |s| ==> s[i] == ' ' || IsLowerAlnum(s[i])
    ensures RemoveMarks(Nfd(s)) == s
  {
    NfdUnchanged(s);
    RemoveMarksUnchanged(s);
  }

  lemma TrimUnchanged(s: string)
    requires s != [] && IsAlnum(s[0]) && IsAlnum(s[|s| - 1])
    ensures Trim(s) == s
  {
    assert !IsJsSpace(s[0]) && !IsJsSpace(s[|s| - 1]);
    assert TrimStart(s) == s;
    assert TrimEnd(s) == s;
  }

  lemma LowerUnchanged(s: string)
    requires forall i :: 0 <= i < |s| ==> !IsUpper(s[i])
    ensures Lower(s) == s
  {
  }

  lemma {:induction false} NfdUnchanged(s: string)
    requires forall i :: 0 <= i < |s| ==> s[i] < '\U{00C0}'
    ensures Nfd(s) == s
  {
    if s != [] {
      NfdUnchanged(s[1..]);
    }
  }

  lemma {:induction false} RemoveMarksUnchanged(s: string)
    requires forall i :: 0 <= i < |s| ==> !IsCombiningMark(s[i])
    ensures RemoveMarks(s) == s
  {
    if s != [] {
      RemoveMarksUnchanged(s[1..]);
    }
  }

  /** Text that is already letters and digits with single spaces is left as it is by the replacement. */
  lemma {:induction false} CollapseUnchanged(s: string, inRun: bool)
    requires AlnumOrSpace(s)
    requires forall i :: 0 <= i < |s| - 1 ==> s[i] != ' ' || s[i + 1] != ' '
    requires inRun ==> s == [] || s[0] != ' '
    ensures CollapseFrom(s, inRun) == s
  {
    if s != [] {
      var t := s[1..];
      assert forall i :: 0 <= i < |t| ==> t[i] == s[i + 1];
      CollapseUnchanged(t, !IsAlnum(s[0]));
      assert s == [s[0]] + t;
    }
  }

  // ---- Helper lemmas ----

  function Concat(ws: seq<string>): string {
    if ws == [] then "" else ws[0] + Concat(ws[1..])
  }

  lemma {:induction false} AlnumsAppend(a: string, b: string)
    ensures Alnums(a + b) == Alnums(a) + Alnums(b)
  {
    if a == [] {
      assert a + b == b;
    } else {
      assert (a + b)[1..] == a[1..] + b;
      AlnumsAppend(a[1..], b);
    }
  }

  lemma {:induction false} AlnumsOfSpaces(s: string)
    requires forall i :: 0 <= i < |s| ==> IsJsSpace(s[i])
    ensures Alnums(s) == []
  {
    if s != [] {
      AlnumsOfSpaces(s[1..]);
    }
  }

  lemma {:induction false} AlnumsOfAlnum(s: string)
    requires forall i :: 0 <= i < |s| ==> IsAlnum(s[i])
    ensures Alnums(s) == s
  {
    if s != [] {
      AlnumsOfAlnum(s[1..]);
    }
  }

  lemma {:induction false} AlnumsLower(s: string)
    ensures Alnums(Lower(s)) == Lower(Alnums(s))
  {
    if s != [] {
      AlnumsLower(s[1..]);
      assert Lower(s)[1..] == Lower(s[1..]);
      LowerAppend(if IsAlnum(s[0]) then [s[0]] else [], Alnums(s[1..]));
    }
  }

  /** Trimming removes only white space, so no letter or digit. */
  lemma AlnumsTrim(s: string)
    ensures Alnums(Trim(s)) == Alnums(s)
    ensures AlnumOrSpace(s) ==> AlnumOrSpace(Trim(s))
  {
    AlnumsTrimStart(s);
    AlnumsTrimEnd(TrimStart(s));
  }

  lemma AlnumsTrimStart(s: string)
    ensures Alnums(TrimStart(s)) == Alnums(s)
    ensures AlnumOrSpace(s) ==> AlnumOrSpace(TrimStart(s))
  {
    var t := TrimStart(s);
    var pre := s[..|s| - |t|];
    assert s == pre + t;
    assert forall i :: 0 <= i < |pre| ==> pre[i] == s[i];
    AlnumsOfSpaces(pre);
    AlnumsAppend(pre, t);
    if AlnumOrSpace(s) {
      AlnumOrSpaceSuffix(s, |s| - |t|);
    }
  }

  lemma AlnumOrSpaceSuffix(s: string, k: nat)
    requires k <= |s| && AlnumOrSpace(s)
    ensures AlnumOrSpace(s[k..])
  {
    forall i | 0 <= i < |s[k..]| ensures IsAlnum(s[k..][i]) || s[k..][i] == ' ' {
      assert s[k..][i] == s[k + i];
    }
  }

  lemma AlnumsTrimEnd(t: string)
    ensures Alnums(TrimEnd(t)) == Alnums(t)
    ensures AlnumOrSpace(t) ==> AlnumOrSpace(TrimEnd(t))
  {
    var u := TrimEnd(t);
    assert t == u + t[|u|..];
    AlnumsOfSpaces(t[|u|..]);
    AlnumsAppend(u, t[|u|..]);
  }

  /** The cleaned text is lower-case letters, digits and spaces, and holds the input's letters and digits, lowered. */
  lemma CleanedShape(input: string)
    ensures forall i :: 0 <= i < |Cleaned(input)| ==> IsLowerAlnum(Cleaned(input)[i]) || Cleaned(input)[i] == ' '
    ensures Alnums(Cleaned(input)) == Lower(Alnums(Unaccented(input)))
  {
    var c := CollapseNonAlnum(Unaccented(input));
    CollapseChars(Unaccented(input), false);
    CollapseAlnums(Unaccented(input), false);
    AlnumsTrim(c);
    AlnumsLower(Trim(c));
  }

  lemma {:induction false} CharInJoin(parts: seq<string>, k: nat, i: nat)
    requires k < |parts| && i < |parts[k]|
    ensures parts[k][i] in Join(parts, " ")
  {
    if |parts| > 1 {
      assert Join(parts, " ") == parts[0] + " " + Join(parts[1..], " ");
      if k > 0 {
        CharInJoin(parts[1..], k - 1, i);
      } else {
        assert Join(parts, " ")[i] == parts[0][i];
      }
    }
  }

  /** Joining letter-and-digit parts with spaces keeps their letters and digits. */
  lemma {:induction false} AlnumsJoin(parts: seq<string>)
    requires forall k, i :: 0 <= k < |parts| && 0 <= i < |parts[k]| ==> IsAlnum(parts[k][i])
    ensures Alnums(Join(parts, " ")) == Concat(parts)
  {
    if |parts| == 1 {
      AlnumsOfAlnum(parts[0]);
      assert Concat(parts) == parts[0] + Concat([]);
    } else if |parts| > 1 {
      AlnumsJoin(parts[1..]);
      AlnumsOfAlnum(parts[0]);
      AlnumsAppend(parts[0] + " ", Join(parts[1..], " "));
      AlnumsAppend(parts[0], " ");
    }
  }

  lemma {:induction false} ConcatNonEmpty(parts: seq<string>)
    ensures Concat(NonEmpty(parts)) == Concat(parts)
  {
    if parts != [] {
      ConcatNonEmpty(parts[1..]);
      var rest := NonEmpty(parts[1..]);
      if parts[0] != "" {
        assert NonEmpty(parts) == [parts[0]] + rest;
        assert ([parts[0]] + rest)[1..] == rest;
      } else {
        assert NonEmpty(parts) == rest;
        assert Concat(parts) == "" + Concat(parts[1..]);
      }
    }
  }

  /** The words of the cleaned text, put back together, are its letters and digits. */
  lemma WordsConcat(cleaned: string)
    requires AlnumOrSpace(cleaned)
    ensures Concat(Words(cleaned)) == Alnums(cleaned)
  {
    var parts := Split(cleaned, ' ');
    JoinSplit(cleaned, ' ');
    forall k, i | 0 <= k < |parts| && 0 <= i < |parts[k]| ensures IsAlnum(parts[k][i]) {
      CharInJoin(parts, k, i);
    }
    AlnumsJoin(parts);
    ConcatNonEmpty(parts);
  }

  lemma WordsAreLowerAlnum(cleaned: string)
    requires forall i :: 0 <= i < |cleaned| ==> IsLowerAlnum(cleaned[i]) || cleaned[i] == ' '
    ensures forall k, i :: 0 <= k < |Words(cleaned)| && 0 <= i < |Words(cleaned)[k]| ==> IsLowerAlnum(Words(cleaned)[k][i])
  {
    var parts := Split(cleaned, ' ');
    JoinSplit(cleaned, ' ');
    forall k, i | 0 <= k < |parts| && 0 <= i < |parts[k]| ensures IsLowerAlnum(parts[k][i]) {
      CharInJoin(parts, k, i);
    }
    var words := Words(cleaned);
    forall k, i | 0 <= k < |words| && 0 <= i < |words[k]| ensures IsLowerAlnum(words[k][i]) {
      assert words[k] in parts;
      var k' :| 0 <= k' < |parts| && parts[k'] == words[k];
      assert words[k][i] == parts[k'][i];
    }
  }

  lemma {:induction false} CamelTailShape(ws: seq<string>)
    requires forall k :: 0 <= k < |ws| ==> ws[k] != ""
    requires forall k, i :: 0 <= k < |ws| && 0 <= i < |ws[k]| ==> IsLowerAlnum(ws[k][i])
    ensures forall i :: 0 <= i < |CamelTail(ws)| ==> IsAlnum(CamelTail(ws)[i])
  {
    if ws != [] {
      CamelTailShape(ws[1..]);
      var c := Capitalize(ws[0]);
      assert forall i :: 1 <= i < |c| ==> c[i] == ws[0][i];
    }
  }

  /** Lowering a capitalized word gives the word back. */
  lemma {:induction false} LowerCamelTail(ws: seq<string>)
    requires forall k :: 0 <= k < |ws| ==> ws[k] != ""
    requires forall k, i :: 0 <= k < |ws| && 0 <= i < |ws[k]| ==> IsLowerAlnum(ws[k][i])
    ensures Lower(CamelTail(ws)) == Concat(ws)
  {
    if ws != [] {
      LowerCamelTail(ws[1..]);
      var w := ws[0];
      LowerAppend(Capitalize(w), CamelTail(ws[1..]));
      LowerAppend([UpperChar(w[0])], w[1..]);
      assert LowerChar(UpperChar(w[0])) == w[0];
      assert Lower(w[1..]) == w[1..] by {
        assert forall i :: 0 <= i < |w[1..]| ==> IsLowerAlnum(w[1..][i]);
      }
      assert [w[0]] + w[1..] == w;
    }
  }

  // ---- Words are the runs of letters and digits ----

  /** A non-empty run of letters and digits is one word. */
  lemma RunsOfWord(w: string)
    requires w != "" && forall i :: 0 <= i < |w| ==> IsAlnum(w[i])
    ensures Runs(w) == [w]
  {
    RunsFromAlnums(w, [], "");
    assert w + [] == w && "" + w == w;
  }

  /** A character other than a letter or digit separates the runs before it from those after it. */
  lemma RunsSeparated(a: string, c: char, b: string)
    requires !IsAlnum(c)
    ensures Runs(a + [c] + b) == Runs(a) + Runs(b)
  {
    RunsFromSeparated(a, c, b, "");
  }

  lemma {:induction false} RunsFromSeparated(a: string, c: char, b: string, cur: string)
    requires !IsAlnum(c)
    ensures RunsFrom(a + [c] + b, cur) == RunsFrom(a, cur) + RunsFrom(b, "")
  {
    var s := a + [c] + b;
    if a == [] {
      assert s[0] == c && s[1..] == b;
    } else {
      assert s[0] == a[0] && s[1..] == a[1..] + [c] + b;
      if IsAlnum(a[0]) {
        RunsFromSeparated(a[1..], c, b, cur + [a[0]]);
      } else {
        RunsFromSeparated(a[1..], c, b, "");
      }
    }
  }

  /** Reading letters and digits only extends the current run. */
  lemma {:induction false} RunsFromAlnums(w: string, rest: string, cur: string)
    requires forall i :: 0 <= i < |w| ==> IsAlnum(w[i])
    ensures RunsFrom(w + rest, cur) == RunsFrom(rest, cur + w)
  {
    if w == [] {
      assert w + rest == rest && cur + w == cur;
    } else {
      assert (w + rest)[0] == w[0] && (w + rest)[1..] == w[1..] + rest;
      RunsFromAlnums(w[1..], rest, cur + [w[0]]);
      assert cur + [w[0]] + w[1..] == cur + w;
    }
  }

  /** White space only ends the current run. */
  lemma {:induction false} RunsFromOthers(a: string, cur: string)
    requires forall i :: 0 <= i < |a| ==> IsJsSpace(a[i])
    ensures RunsFrom(a, cur) == WordIfAny(cur)
  {
    if a != [] {
      RunsFromOthers(a[1..], "");
    }
  }

  lemma {:induction false} RunsDropLeading(a: string, b: string)
    requires forall i :: 0 <= i < |a| ==> IsJsSpace(a[i])
    ensures Runs(a + b) == Runs(b)
  {
    if a != [] {
      assert (a + b)[0] == a[0] && (a + b)[1..] == a[1..] + b;
      RunsDropLeading(a[1..], b);
    } else {
      assert a + b == b;
    }
  }

  lemma {:induction false} RunsDropTrailing(b: string, a: string, cur: string)
    requires forall i :: 0 <= i < |a| ==> IsJsSpace(a[i])
    ensures RunsFrom(b + a, cur) == RunsFrom(b, cur)
  {
    if b == [] {
      assert b + a == a;
      RunsFromOthers(a, cur);
    } else {
      assert (b + a)[0] == b[0] && (b + a)[1..] == b[1..] + a;
      if IsAlnum(b[0]) {
        RunsDropTrailing(b[1..], a, cur + [b[0]]);
      } else {
        RunsDropTrailing(b[1..], a, "");
      }
    }
  }

  /** Trimming removes white space only, which belongs to no run. */
  lemma RunsTrim(s: string)
    ensures Runs(Trim(s)) == Runs(s)
  {
    RunsTrimStart(s);
    RunsTrimEnd(TrimStart(s));
  }

  lemma RunsTrimStart(s: string)
    ensures Runs(TrimStart(s)) == Runs(s)
  {
    var t := TrimStart(s);
    var pre := s[..|s| - |t|];
    assert s == pre + t;
    assert forall i :: 0 <= i < |pre| ==> pre[i] == s[i];
    RunsDropLeading(pre, t);
  }

  lemma RunsTrimEnd(t: string)
    ensures Runs(TrimEnd(t)) == Runs(t)
  {
    var u := TrimEnd(t);
    var post := t[|u|..];
    assert t == u + post;
    assert forall i :: 0 <= i < |post| ==> post[i] == t[|u| + i];
    RunsDropTrailing(u, post, "");
  }

  /** Collapsing the characters between runs into single spaces keeps the runs. */
  lemma {:induction false} RunsCollapse(s: string, inRun: bool, cur: string)
    requires inRun ==> cur == ""
    ensures RunsFrom(CollapseFrom(s, inRun), cur) == RunsFrom(s, cur)
  {
    if s != [] {
      var rest := s[1..];
      if IsAlnum(s[0]) {
        var c := CollapseFrom(rest, false);
        assert CollapseFrom(s, inRun) == [s[0]] + c;
        assert ([s[0]] + c)[0] == s[0] && ([s[0]] + c)[1..] == c;
        RunsCollapse(rest, false, cur + [s[0]]);
      } else if inRun {
        RunsCollapse(rest, true, "");
      } else {
        var c := CollapseFrom(rest, true);
        assert CollapseFrom(s, inRun) == [' '] + c;
        assert ([' '] + c)[0] == ' ' && ([' '] + c)[1..] == c;
        RunsCollapse(rest, true, "");
      }
    }
  }

  lemma LowerAllAppend(a: seq<string>, b: seq<string>)
    ensures LowerAll(a + b) == LowerAll(a) + LowerAll(b)
  {
  }

  /** Lowering the text lowers its runs. */
  lemma {:induction false} RunsLower(s: string, cur: string)
    ensures RunsFrom(Lower(s), Lower(cur)) == LowerAll(RunsFrom(s, cur))
  {
    if s == [] {
      assert Lower(cur) == "" <==> cur == "";
    } else {
      var l := Lower(s);
      assert l[0] == LowerChar(s[0]) && l[1..] == Lower(s[1..]);
      if IsAlnum(s[0]) {
        LowerAppend(cur, [s[0]]);
        assert Lower([s[0]]) == [l[0]];
        assert RunsFrom(l, Lower(cur)) == RunsFrom(Lower(s[1..]), Lower(cur + [s[0]]));
        RunsLower(s[1..], cur + [s[0]]);
      } else {
        assert !IsAlnum(l[0]);
        assert Lower("") == "";
        assert Lower(cur) == "" <==> cur == "";
        RunsLower(s[1..], "");
        LowerAllAppend(WordIfAny(cur), RunsFrom(s[1..], ""));
      }
    }
  }

  /** Splitting at single spaces and dropping empty parts gives the runs of a text of letters, digits and spaces. */
  lemma {:induction false} WordsAreRuns(c: string)
    requires AlnumOrSpace(c)
    ensures Words(c) == Runs(c)
    decreases |c|
  {
    var i := IndexOf(c, [' '], 0);
    if i == -1 {
      forall j | 0 <= j < |c| ensures IsAlnum(c[j]) {
        assert !MatchAt(c, [' '], j);
        assert c[j..j + 1] == [c[j]];
      }
      WordsOfNoSpace(c);
    } else {
      var w, rest := c[..i], c[i + 1..];
      forall j | 0 <= j < i ensures IsAlnum(w[j]) {
        assert !MatchAt(c, [' '], j);
        assert c[j..j + 1] == [c[j]];
      }
      assert c[i..i + 1] == [' '];
      assert c == w + ([' '] + rest);
      assert forall j :: 0 <= j < |rest| ==> rest[j] == c[i + 1 + j];
      WordsAreRuns(rest);
      WordsAtSpace(c, w, rest);
    }
  }

  lemma WordsOfNoSpace(c: string)
    requires forall j :: 0 <= j < |c| ==> IsAlnum(c[j])
    ensures Words(c) == WordIfAny(c) == Runs(c)
  {
    assert ' ' !in c;
    SplitWithoutSep(c, ' ');
    assert [c][1..] == [];
    assert Words(c) == WordIfAny(c) + NonEmpty([]);
    RunsFromAlnums(c, [], "");
    assert c + [] == c && "" + c == c;
    assert Runs(c) == RunsFrom([], c);
  }

  /** The word before the first space comes first, in both the split and the runs. */
  lemma WordsAtSpace(c: string, w: string, rest: string)
    requires c == w + ([' '] + rest) && ' ' !in w
    requires forall j :: 0 <= j < |w| ==> IsAlnum(w[j])
    ensures Words(c) == WordIfAny(w) + Words(rest)
    ensures Runs(c) == WordIfAny(w) + Runs(rest)
  {
    assert c == w + [' '] + rest;
    SplitAtFirstSep(w, rest, ' ');
    assert ([w] + Split(rest, ' '))[1..] == Split(rest, ' ');
    RunsFromAlnums(w, [' '] + rest, "");
    assert ([' '] + rest)[0] == ' ' && ([' '] + rest)[1..] == rest;
    assert "" + w == w;
  }

  /** The words `toCamelCase` splits are the runs of letters and digits of the unaccented input, lowered. */
  lemma WordsAreLoweredRuns(input: string)
    ensures Words(Cleaned(input)) == LowerAll(Runs(Unaccented(input)))
  {
    var u := Unaccented(input);
    var c := CollapseNonAlnum(u);
    CleanedShape(input);
    WordsAreRuns(Cleaned(input));
    assert Lower("") == "";
    RunsLower(Trim(c), "");
    RunsTrim(c);
    RunsCollapse(u, false, "");
  }

  /** Lowering words changes neither their lengths nor which of them start with a digit. */
  lemma {:induction false} LetterStartsLower(ws: seq<string>, offset: nat)
    ensures LetterStarts(LowerAll(ws), offset) == LetterStarts(ws, offset)
  {
    if ws != [] {
      var l := LowerAll(ws);
      assert l[0] == Lower(ws[0]) && l[1..] == LowerAll(ws[1..]);
      LetterStartsLower(ws[1..], offset + |ws[0]|);
    }
  }

  lemma LaterLetterStartsLower(ws: seq<string>)
    ensures LaterLetterStarts(LowerAll(ws)) == LaterLetterStarts(ws)
  {
    if ws != [] {
      var l := LowerAll(ws);
      assert l[1..] == LowerAll(ws[1..]);
      LetterStartsLower(ws[1..], |ws[0]|);
    }
  }

  /** In the capitalized later words, a capital stands exactly where a word starting with a letter begins. */
  lemma {:induction false} CamelTailCapitals(ws: seq<string>, offset: nat)
    requires forall k :: 0 <= k < |ws| ==> ws[k] != ""
    requires forall k, i :: 0 <= k < |ws| && 0 <= i < |ws[k]| ==> IsLowerAlnum(ws[k][i])
    ensures forall i :: 0 <= i < |CamelTail(ws)| ==> (IsUpper(CamelTail(ws)[i]) <==> offset + i in LetterStarts(ws, offset))
  {
    if ws != [] {
      var w := ws[0];
      var c := Capitalize(w);
      var rest := CamelTail(ws[1..]);
      CamelTailCapitals(ws[1..], offset + |w|);
      assert CamelTail(ws) == c + rest;
      var starts := LetterStarts(ws, offset);
      assert starts == (if !IsDigit(w[0]) then {offset} else {}) + LetterStarts(ws[1..], offset + |w|);
      forall i | 0 <= i < |CamelTail(ws)| ensures IsUpper(CamelTail(ws)[i]) <==> offset + i in starts {
        if i < |c| {
          assert CamelTail(ws)[i] == c[i];
          if i > 0 {
            assert c[i] == w[i] && IsLowerAlnum(w[i]);
          } else {
            assert IsLowerAlnum(w[0]);
          }
        } else {
          assert CamelTail(ws)[i] == rest[i - |c|];
          assert offset + i == offset + |w| + (i - |c|);
        }
      }
    }
  }

  lemma CamelJoinCapitals(words: seq<string>)
    requires |words| > 0 && forall k :: 0 <= k < |words| ==> words[k] != ""
    requires forall k, i :: 0 <= k < |words| && 0 <= i < |words[k]| ==> IsLowerAlnum(words[k][i])
    ensures forall i :: 0 <= i < |CamelJoin(words)| ==> (IsUpper(CamelJoin(words)[i]) <==> i in LaterLetterStarts(words))
  {
    var w := words[0];
    var tail := CamelTail(words[1..]);
    CamelTailCapitals(words[1..], |w|);
    forall i | 0 <= i < |CamelJoin(words)| ensures IsUpper(CamelJoin(words)[i]) <==> i in LaterLetterStarts(words) {
      if i < |w| {
        assert CamelJoin(words)[i] == w[i] && IsLowerAlnum(w[i]);
      } else {
        assert CamelJoin(words)[i] == tail[i - |w|];
        assert |w| + (i - |w|) == i;
      }
    }
  }
}
