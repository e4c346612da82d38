/**
  The JavaScript string built-ins the build script and the sheet reader rely on
  (`indexOf`, `lastIndexOf`, `startsWith`, `trim`, `split`, `join`, ASCII case
  mapping), stated over `seq<char>`.
 */
module JsString {

  /** `pat` occurs in `s` starting at index `i`. */
  predicate MatchAt(s: string, pat: string, i: int) {
    0 <= i && i + |pat| <= |s| && s[i..i + |pat|] == pat
  }

  predicate StartsWith(s: string, prefix: string) {
    MatchAt(s, prefix, 0)
  }

  /** `s.indexOf(pat, from)` for a non-empty pattern: the first match at or after `from`, or -1. */
  function IndexOf(s: string, pat: string, from: nat): (r: int)
    requires |pat| > 0
    ensures r == -1 || (from <= r && MatchAt(s, pat, r))
    ensures r != -1 ==> forall i :: from <= i < r ==> !MatchAt(s, pat, i)
    ensures r == -1 ==> forall i :: from <= i ==> !MatchAt(s, pat, i)
    decreases |s| - from
  {
    if from + |pat| > |s| then -1
    else if MatchAt(s, pat, from) then from
    else IndexOf(s, pat, from + 1)
  }

  /** The last match of `pat` in `s` that starts at or before `k`, or -1. */
  function LastIndexAtOrBefore(s: string, pat: string, k: int): (r: int)
    requires |pat| > 0
    ensures r == -1 || (r <= k && MatchAt(s, pat, r))
    ensures forall i :: r < i <= k ==> !MatchAt(s, pat, i)
    decreases k + 1
  {
    if k < 0 then -1
    else if MatchAt(s, pat, k) then k
    else LastIndexAtOrBefore(s, pat, k - 1)
  }

  /** `s.lastIndexOf(pat)` for a non-empty pattern. */
  function LastIndexOf(s: string, pat: string): (r: int)
    requires |pat| > 0
    ensures r == -1 || MatchAt(s, pat, r)
    ensures forall i :: r < i ==> !MatchAt(s, pat, i)
  {
    LastIndexAtOrBefore(s, pat, |s| - |pat|)
  }

  /** The characters `String.prototype.trim` removes (WhiteSpace and LineTerminator). */
  predicate IsJsSpace(c: char) {
    c == ' ' || c == '\t' || c == '\n' || c == '\r' || c == '\U{000B}' || c == '\U{000C}'
    || c == '\U{00A0}' || c == '\U{1680}' || ('\U{2000}' <= c <= '\U{200A}')
    || c == '\U{2028}' || c == '\U{2029}' || c == '\U{202F}' || c == '\U{205F}'
    || c == '\U{3000}' || c == '\U{FEFF}'
  }

  function TrimStart(s: string): (r: string)
    ensures |r| <= |s| && r == s[|s| - |r|..]
    ensures r == [] || !IsJsSpace(r[0])
    ensures forall i :: 0 <= i < |s| - |r| ==> IsJsSpace(s[i])
  {
    if |s| > 0 && IsJsSpace(s[0]) then TrimStart(s[1..]) else s
  }

  function TrimEnd(s: string): (r: string)
    ensures |r| <= |s| && r == s[..|r|]
    ensures r == [] || !IsJsSpace(r[|r| - 1])
    ensures forall i :: |r| <= i < |s| ==> IsJsSpace(s[i])
  {
    if |s| > 0 && IsJsSpace(s[|s| - 1]) then TrimEnd(s[..|s| - 1]) else s
  }

  /** `s.trim()`. */
  function Trim(s: string): string {
    TrimEnd(TrimStart(s))
  }

  lemma TrimmedHasNoOuterSpace(s: string)
    ensures Trim(s) == [] || (!IsJsSpace(Trim(s)[0]) && !IsJsSpace(Trim(s)[|Trim(s)| - 1]))
  {
    var t := TrimStart(s);
    if TrimEnd(t) != [] {
      assert TrimEnd(t)[0] == t[0];
    }
  }

  /** `s.split(sep)` for a one-character separator: at least one part, and no part holds `sep`. */
  function Split(s: string, sep: char): (parts: seq<string>)
    ensures |parts| >= 1
    ensures forall k :: 0 <= k < |parts| ==> sep !in parts[k]
    decreases |s|
  {
    var i := IndexOf(s, [sep], 0);
    if i == -1 then
      assert sep !in s by {
        forall j | 0 <= j < |s| ensures s[j] != sep {
          assert !MatchAt(s, [sep], j);
          assert s[j..j + 1] == [s[j]];
        }
      }
      [s]
    else
      assert forall j :: 0 <= j < i ==> !MatchAt(s, [sep], j) && s[j..j + 1] == [s[j]];
      [s[..i]] + Split(s[i + 1..], sep)
  }

  /** `parts.join(sep)`. */
  function Join(parts: seq<string>, sep: string): string {
    if |parts| == 0 then ""
    else if |parts| == 1 then parts[0]
    else parts[0] + sep + Join(parts[1..], sep)
  }

  /** Joining the parts of a split with its separator gives back the string. */
  lemma JoinSplit(s: string, sep: char)
    ensures Join(Split(s, sep), [sep]) == s
  {
    JoinSplitReplaces(s, sep, sep);
  }

  /** Joining a first part in front of at least one more. */
  lemma JoinCons(a: string, parts: seq<string>, sep: string)
    requires |parts| >= 1
    ensures Join([a] + parts, sep) == a + sep + Join(parts, sep)
  {
    assert ([a] + parts)[1..] == parts;
  }

  /** Splitting at `sep` and joining with `rep` replaces each `sep` by `rep` and keeps every other character. */
  lemma {:induction false} JoinSplitReplaces(s: string, sep: char, rep: char)
    ensures |Join(Split(s, sep), [rep])| == |s|
    ensures forall i :: 0 <= i < |s| ==> Join(Split(s, sep), [rep])[i] == (if s[i] == sep then rep else s[i])
    decreases |s|
  {
    var i := IndexOf(s, [sep], 0);
    var r := Join(Split(s, sep), [rep]);
    if i == -1 {
      assert Split(s, sep) == [s];
      forall j | 0 <= j < |s| ensures s[j] != sep {
        assert !MatchAt(s, [sep], j);
        assert s[j..j + 1] == [s[j]];
      }
    } else {
      var rest := s[i + 1..];
      JoinSplitReplaces(rest, sep, rep);
      assert Split(s, sep) == [s[..i]] + Split(rest, sep);
      var tail := Join(Split(rest, sep), [rep]);
      JoinCons(s[..i], Split(rest, sep), [rep]);
      assert r == s[..i] + [rep] + tail;
      assert s[i..i + 1] == [sep];
      forall j | 0 <= j < |s| ensures r[j] == (if s[j] == sep then rep else s[j]) {
        if j < i {
          assert !MatchAt(s, [sep], j);
          assert s[j..j + 1] == [s[j]];
        } else if j > i {
          assert r[j] == tail[j - i - 1] && rest[j - i - 1] == s[j];
        }
      }
    }
  }

  /** A string without the separator splits into itself. */
  lemma SplitWithoutSep(s: string, sep: char)
    requires sep !in s
    ensures Split(s, sep) == [s]
  {
    forall j | 0 <= j < |s| ensures !MatchAt(s, [sep], j) {
      assert s[j..j + 1] == [s[j]];
    }
  }

  /** A string holding the separator once splits into the text before it and the text after it. */
  lemma SplitAtOnlySep(a: string, b: string, sep: char)
    requires sep !in a && sep !in b
    ensures Split(a + [sep] + b, sep) == [a, b]
  {
    var s := a + [sep] + b;
    var i := IndexOf(s, [sep], 0);
    assert s[|a|..|a| + 1] == [sep];
    assert MatchAt(s, [sep], |a|);
    forall j | 0 <= j < |a| ensures !MatchAt(s, [sep], j) {
      assert s[j..j + 1] == [a[j]];
    }
    assert i == |a|;
    assert s[..i] == a && s[i + 1..] == b;
    SplitWithoutSep(b, sep);
  }

  /** A string splits first at its first separator. */
  lemma SplitAtFirstSep(a: string, b: string, sep: char)
    requires sep !in a
    ensures Split(a + [sep] + b, sep) == [a] + Split(b, sep)
  {
    var s := a + [sep] + b;
    assert s[|a|..|a| + 1] == [sep];
    assert MatchAt(s, [sep], |a|);
    forall j | 0 <= j < |a| ensures !MatchAt(s, [sep], j) {
      assert s[j..j + 1] == [a[j]];
    }
    assert IndexOf(s, [sep], 0) == |a|;
    assert s[..|a|] == a && s[|a| + 1..] == b;
  }

  predicate IsDigit(c: char) {
    '0' <= c <= '9'
  }

  predicate IsUpper(c: char) {
    'A' <= c <= 'Z'
  }

  predicate IsLower(c: char) {
    'a' <= c <= 'z'
  }

  /** A character of the class `[0-9a-zA-Z]`. */
  predicate IsAlnum(c: char) {
    IsDigit(c) || IsUpper(c) || IsLower(c)
  }

  function LowerChar(c: char): (r: char)
    ensures IsAlnum(c) ==> IsAlnum(r) && !IsUpper(r)
  {
    if IsUpper(c) then (c as int + 32) as char else c
  }

  function UpperChar(c: char): (r: char)
    ensures IsAlnum(c) ==> IsAlnum(r) && !IsLower(r)
    ensures IsDigit(r) <==> IsDigit(c)
  {
    if IsLower(c) then (c as int - 32) as char else c
  }

  /** `s.toLowerCase()` on the ASCII letters (the only letters this model ever lowercases). */
  function Lower(s: string): (r: string)
    ensures |r| == |s|
    ensures forall i :: 0 <= i < |s| ==> r[i] == LowerChar(s[i])
  {
    if s == [] then [] else [LowerChar(s[0])] + Lower(s[1..])
  }

  lemma LowerAppend(a: string, b: string)
    ensures Lower(a + b) == Lower(a) + Lower(b)
  {
    assert forall i :: 0 <= i < |a + b| ==> Lower(a + b)[i] == (Lower(a) + Lower(b))[i];
  }

  /** The decimal digit for `d < 10`. */
  function DigitChar(d: nat): (c: char)
    requires d < 10
    ensures IsDigit(c)
  {
    ('0' as int + d) as char
  }

  /** Template-literal rendering `${n}` of a natural number in decimal. */
  function NatToString(n: nat): (r: string)
    ensures |r| >= 1
    ensures forall i :: 0 <= i < |r| ==> IsDigit(r[i])
    ensures |r| > 1 ==> r[0] != '0'
  {
    if n < 10 then [DigitChar(n)] else NatToString(n / 10) + [DigitChar(n % 10)]
  }

  /** Decimal rendering is injective. */
  lemma {:induction false} NatToStringInjective(m: nat, n: nat)
    requires NatToString(m) == NatToString(n)
    ensures m == n
  {
    var a, b := NatToString(m), NatToString(n);
    if m < 10 || n < 10 {
    } else {
      assert a[..|a| - 1] == NatToString(m / 10);
      assert b[..|b| - 1] == NatToString(n / 10);
      NatToStringInjective(m / 10, n / 10);
      assert DigitChar(m % 10) == DigitChar(n % 10);
    }
  }
}
