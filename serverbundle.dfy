/**
  The text side of the server-bundle transform in scripts/build-apps.mjs: the
  brace-matching extractor (`extractByBraces`), the "use strict" / `})()`
  heuristic, the order in which the three extraction tiers are tried, and the
  truncation at the publish-to-global loop. The syntax-tree tier is an input
  here (its parser is not part of the model).
 */
module ServerBundle {
  import opened Options
  import opened JsString

  /** The opening of the bundle's self-invoking function. */
  const IifeMarker: string := "(function"
  /** The head of the loop that republishes the bundle's modules on `globalThis`. */
  const PublishMarker: string := "for (const __mod of __modules)"
  const StrictDouble: string := "\"use strict\""
  const StrictSingle: string := "'use strict'"
  const InvokeCloser: string := "})()"

  predicate IsQuote(c: char) {
    c == '"' || c == '\'' || c == '`'
  }

  /**
    The scanner's variables between two characters: the brace depth, the
    quote character of the string being skipped (if any) and whether the
    previous character inside that string was a backslash.
   */
  datatype ScanState = ScanState(depth: int, inString: Option<char>, escape: bool)

  const Initial: ScanState := ScanState(1, None, false)

  /** One iteration of the scanning loop on character `ch`. */
  function Step(st: ScanState, ch: char): (r: ScanState)
    ensures r.depth != st.depth ==> st.inString.None? && (ch == '{' || ch == '}')
    ensures st.inString.None? && ch == '{' ==> r.depth == st.depth + 1
    ensures st.inString.None? && ch == '}' ==> r.depth == st.depth - 1
    ensures (st.escape ==> st.inString.Some?) ==> (r.escape ==> r.inString.Some?)
  {
    match st.inString
    case Some(q) =>
      if st.escape then st.(escape := false)
      else if ch == '\\' then st.(escape := true)
      else if ch == q then st.(inString := None)
      else st
    case None =>
      if IsQuote(ch) then st.(inString := Some(ch))
      else if ch == '{' then st.(depth := st.depth + 1)
      else if ch == '}' then st.(depth := st.depth - 1)
      else st
  }

  /** The scanner's state after the characters `text[lo..hi]`, starting just inside the outer brace. */
  function Run(text: string, lo: nat, hi: nat): ScanState
    requires lo <= hi <= |text|
    decreases hi - lo
  {
    if hi == lo then Initial else Step(Run(text, lo, hi - 1), text[hi - 1])
  }

  /** The depth once the character at index `j` has been scanned. */
  function DepthAfter(text: string, open: nat, j: nat): int
    requires open < j < |text|
  {
    Run(text, open + 1, j + 1).depth
  }

  /** `c` is the first index after `open` at which the depth returns to zero. */
  ghost predicate ClosesAt(text: string, open: nat, c: nat) {
    open < c < |text|
    && DepthAfter(text, open, c) == 0
    && forall j :: open < j < c ==> DepthAfter(text, open, j) != 0
  }

  /** The first index at or after `i` where the depth reaches zero. */
  function CloseFrom(text: string, open: nat, i: nat): (r: Option<nat>)
    requires open < i <= |text|
    ensures r.Some? ==> i <= r.value < |text| && DepthAfter(text, open, r.value) == 0
    ensures r.Some? ==> forall j :: i <= j < r.value ==> DepthAfter(text, open, j) != 0
    ensures r.None? ==> forall j :: i <= j < |text| ==> DepthAfter(text, open, j) != 0
    decreases |text| - i
  {
    if i == |text| then None
    else if DepthAfter(text, open, i) == 0 then Some(i)
    else CloseFrom(text, open, i + 1)
  }

  /** What `extractByBraces(text)` returns. */
  function BracesSpec(text: string): Option<string> {
    var iife := IndexOf(text, IifeMarker, 0);
    if iife == -1 then None
    else
      var open := IndexOf(text, "{", iife);
      if open == -1 then None
      else
        match CloseFrom(text, open, open + 1)
        case None => None
        case Some(c) => Some(text[open + 1..c])
  }

  /** The brace-matching extractor, as the build script runs it. */
  method ExtractByBraces(text: string) returns (body: Option<string>)
    ensures body == BracesSpec(text)
  {
    var iifePos := IndexOf(text, IifeMarker, 0);
    if iifePos == -1 {
      return None;
    }
    var openIdx := IndexOf(text, "{", iifePos);
    if openIdx == -1 {
      return None;
    }
    var i := openIdx + 1;
    var depth := 1;
    var inString: Option<char> := None;
    var escape := false;
    while i < |text|
      invariant openIdx + 1 <= i <= |text|
      invariant ScanState(depth, inString, escape) == Run(text, openIdx + 1, i)
      invariant depth >= 1
      invariant CloseFrom(text, openIdx, openIdx + 1) == CloseFrom(text, openIdx, i)
    {
      var ch := text[i];
      ghost var next := Step(ScanState(depth, inString, escape), ch);
      assert next == Run(text, openIdx + 1, i + 1);
      if inString.Some? {
        if escape {
          escape := false;
        } else if ch == '\\' {
          escape := true;
        } else if ch == inString.value {
          inString := None;
        }
      } else {
        if ch == '"' || ch == '\'' || ch == '`' {
          inString := Some(ch);
        } else if ch == '{' {
          depth := depth + 1;
        } else if ch == '}' {
          depth := depth - 1;
          if depth == 0 {
            assert DepthAfter(text, openIdx, i) == 0;
            break;
          }
        }
      }
      assert ScanState(depth, inString, escape) == next;
      assert DepthAfter(text, openIdx, i) != 0;
      i := i + 1;
    }
    if depth != 0 {
      return None;
    }
    return Some(text[openIdx + 1..i]);
  }

  /** The `{` that opens the self-invoking function's body sits at `open`. */
  predicate OuterBraceAt(text: string, open: nat) {
    var iife := IndexOf(text, IifeMarker, 0);
    iife != -1 && IndexOf(text, "{", iife) == open
  }

  /**
    The extractor succeeds exactly when the depth comes back to zero after the
    outer brace, and then returns the text strictly between the outer brace
    and the first closing brace that balances it.
   */
  lemma BracesSpecMeaning(text: string, body: string)
    ensures BracesSpec(text) == Some(body)
        <==> exists open: nat, c: nat :: OuterBraceAt(text, open) && ClosesAt(text, open, c) && body == text[open + 1..c]
  {
    if BracesSpec(text) == Some(body) {
      var open, c := ExtractedBetween(text);
    }
    if exists open: nat, c: nat :: OuterBraceAt(text, open) && ClosesAt(text, open, c) && body == text[open + 1..c] {
      var open: nat, c: nat :| OuterBraceAt(text, open) && ClosesAt(text, open, c) && body == text[open + 1..c];
      ExtractsAt(text, open, c);
    }
  }

  /** Text between the outer brace and the brace that balances it is what the extractor returns. */
  lemma ExtractsAt(text: string, open: nat, c: nat)
    requires OuterBraceAt(text, open) && ClosesAt(text, open, c)
    ensures BracesSpec(text) == Some(text[open + 1..c])
  {
    FirstCloseFound(text, open, c);
  }

  /** A successful extraction lies between the outer brace and the brace that balances it. */
  lemma ExtractedBetween(text: string) returns (open: nat, c: nat)
    requires BracesSpec(text).Some?
    ensures OuterBraceAt(text, open) && ClosesAt(text, open, c) && BracesSpec(text).value == text[open + 1..c]
  {
    var iife := IndexOf(text, IifeMarker, 0);
    open := IndexOf(text, "{", iife);
    c := CloseFrom(text, open, open + 1).value;
  }

  /** The balancing brace is the one the search from just after the opening brace finds. */
  lemma FirstCloseFound(text: string, open: nat, c: nat)
    requires ClosesAt(text, open, c)
    ensures CloseFrom(text, open, open + 1) == Some(c)
  {
  }

  /** The extractor fails when there is no `(function`, no `{` after it, or no balancing `}`. */
  lemma BracesSpecFails(text: string)
    ensures BracesSpec(text).None?
        <==> (IndexOf(text, IifeMarker, 0) == -1
              || IndexOf(text, "{", IndexOf(text, IifeMarker, 0)) == -1
              || forall c: nat :: !ClosesAt(text, IndexOf(text, "{", IndexOf(text, IifeMarker, 0)), c))
  {
    var iife := IndexOf(text, IifeMarker, 0);
    if iife != -1 {
      var open := IndexOf(text, "{", iife);
      if open != -1 {
        var r := CloseFrom(text, open, open + 1);
        if r.Some? {
          assert ClosesAt(text, open, r.value);
        } else {
          forall c: nat ensures !ClosesAt(text, open, c) {
            if open < c < |text| {
              assert DepthAfter(text, open, c) != 0;
            }
          }
        }
      }
    }
  }

  /** Outside a string the escape flag is never set. */
  lemma {:induction false} EscapeOnlyInString(text: string, lo: nat, hi: nat)
    requires lo <= hi <= |text|
    ensures Run(text, lo, hi).escape ==> Run(text, lo, hi).inString.Some?
    decreases hi - lo
  {
    if hi > lo {
      EscapeOnlyInString(text, lo, hi - 1);
    }
  }

  /**
    The balancing brace is an unquoted `}`: braces inside '...', "..." and
    `...` strings (backslash escapes included) never move the depth.
   */
  lemma ClosingBraceIsUnquoted(text: string, open: nat, c: nat)
    requires ClosesAt(text, open, c)
    ensures text[c] == '}'
    ensures Run(text, open + 1, c).inString.None?
    ensures Run(text, open + 1, c).depth == 1
  {
    BeforeCloseDepthPositive(text, open, c);
  }

  /** Until the close, the depth stays at least one. */
  lemma {:induction false} BeforeCloseDepthPositive(text: string, open: nat, k: nat)
    requires open < k < |text|
    requires forall j :: open < j < k ==> DepthAfter(text, open, j) != 0
    ensures Run(text, open + 1, k).depth >= 1
    decreases k
  {
    if k > open + 1 {
      BeforeCloseDepthPositive(text, open, k - 1);
      assert DepthAfter(text, open, k - 1) != 0;
    }
  }

  /**
    Comments are not understood: an apostrophe inside a `//` comment opens a
    string, so a bundle whose braces balance is still rejected.
   */
  lemma ApostropheInCommentDefeatsScanner()
    ensures BracesSpec("(function(){//it's\n})()") == None
  {
    var text := "(function(){//it's\n})()";
    assert IndexOf(text, IifeMarker, 0) == 0 by {
      assert MatchAt(text, IifeMarker, 0);
    }
    assert IndexOf(text, "{", 0) == 11 by {
      assert MatchAt(text, "{", 11);
      forall i | 0 <= i < 11 ensures !MatchAt(text, "{", i) {
        assert text[i..i + 1] == [text[i]];
      }
    }
    forall c: nat ensures !ClosesAt(text, 11, c) {
      if 11 < c < |text| {
        if c < 16 {
          BeforeApostrophe(text, c + 1);
        } else {
          StaysInQuote(text, 12, c + 1);
        }
        assert DepthAfter(text, 11, c) == 1;
      }
    }
    BracesSpecFails(text);
  }

  lemma {:induction false} StaysInQuote(text: string, lo: nat, k: nat)
    requires text == "(function(){//it's\n})()" && lo == 12 && 17 <= k <= |text|
    ensures Run(text, lo, k) == ScanState(1, Some('\''), false)
    decreases k
  {
    if k > 17 {
      StaysInQuote(text, lo, k - 1);
      assert text[k - 1] != '\'' && text[k - 1] != '\\';
    } else {
      BeforeApostrophe(text, 16);
      assert text[16] == '\'';
    }
  }

  lemma {:induction false} BeforeApostrophe(text: string, k: nat)
    requires text == "(function(){//it's\n})()" && 12 <= k <= 16
    ensures Run(text, 12, k) == Initial
    decreases k
  {
    if k > 12 {
      BeforeApostrophe(text, k - 1);
      assert text[12..16] == "//it";
      assert text[k - 1] in "//it";
    }
  }

  /** `content.indexOf('"use strict"')`, falling back to `'use strict'`. */
  function StrictPos(content: string): (r: int)
    ensures r == -1 || MatchAt(content, StrictDouble, r) || MatchAt(content, StrictSingle, r)
    ensures IndexOf(content, StrictDouble, 0) != -1 ==> r == IndexOf(content, StrictDouble, 0)
  {
    var us := IndexOf(content, StrictDouble, 0);
    if us == -1 then IndexOf(content, StrictSingle, 0) else us
  }

  /**
    The last-resort heuristic: from just after the first "use strict"
    prologue (or from the start) up to the last `})()`, when that range is
    non-empty.
   */
  function HeuristicBody(content: string): (r: Option<string>)
    ensures r.Some? <==> LastIndexOf(content, InvokeCloser) > (if StrictPos(content) >= 0 then StrictPos(content) + 12 else 0)
    ensures r.Some? ==> exists s :: 0 <= s < LastIndexOf(content, InvokeCloser)
                                 && r.value == content[s..LastIndexOf(content, InvokeCloser)]
                                 && (s == 0 || MatchAt(content, StrictDouble, s - 12) || MatchAt(content, StrictSingle, s - 12))
  {
    var start := if StrictPos(content) >= 0 then StrictPos(content) + 12 else 0;
    var end := LastIndexOf(content, InvokeCloser);
    if end > start then Some(content[start..end]) else None
  }

  /** JavaScript truthiness of a string-or-null: `null` and `""` are falsy. */
  predicate Truthy(b: Option<string>) {
    b.Some? && b.value != ""
  }

  /**
    The three extraction tiers in order: the syntax-tree tier's result
    `astTier`, then the brace scanner, then the heuristic. A tier is
    consulted only when the previous result is falsy; the heuristic
    replaces the previous result only when it finds a range.
   */
  function ChooseBody(astTier: Option<string>, content: string): Option<string> {
    var b := if Truthy(astTier) then astTier else BracesSpec(content);
    if Truthy(b) then b
    else match HeuristicBody(content)
      case Some(h) => Some(h)
      case None => b
  }

  /** Extraction gives nothing only when every tier fails; a non-empty earlier tier always wins. */
  lemma ChooseBodyTiers(astTier: Option<string>, content: string)
    ensures ChooseBody(astTier, content).None?
        <==> !Truthy(astTier) && BracesSpec(content).None? && HeuristicBody(content).None?
    ensures Truthy(astTier) ==> ChooseBody(astTier, content) == astTier
    ensures !Truthy(astTier) && Truthy(BracesSpec(content)) ==> ChooseBody(astTier, content) == BracesSpec(content)
    ensures ChooseBody(astTier, content) == Some("") ==> BracesSpec(content) == Some("") || astTier == Some("")
  {
  }

  /** `body.slice(0, body.indexOf(PublishMarker))` when the marker occurs. */
  function TrimPublishLoop(body: string): (r: string)
    ensures |r| <= |body| && r == body[..|r|]
    ensures forall i :: !MatchAt(r, PublishMarker, i)
    ensures IndexOf(body, PublishMarker, 0) == -1 ==> r == body
    ensures IndexOf(body, PublishMarker, 0) >= 0 ==>
      MatchAt(body, PublishMarker, |r|) && forall i :: 0 <= i < |r| ==> !MatchAt(body, PublishMarker, i)
  {
    var pub := IndexOf(body, PublishMarker, 0);
    if pub >= 0 then
      var r := body[..pub];
      assert forall i :: MatchAt(r, PublishMarker, i) ==> MatchAt(body, PublishMarker, i);
      r
    else body
  }

  /** Trimming twice is trimming once. */
  lemma TrimPublishLoopIdempotent(body: string)
    ensures TrimPublishLoop(TrimPublishLoop(body)) == TrimPublishLoop(body)
  {
    var r := TrimPublishLoop(body);
    assert IndexOf(r, PublishMarker, 0) == -1;
  }

  /** What the server build writes: the transformed body, or the raw bundle when extraction failed. */
  datatype ServerOutput = Transformed(body: string) | CopiedRaw

  /** The extraction and publish-loop trim that precede the pattern clean-up of the body. */
  function ServerBody(astTier: Option<string>, content: string): (r: ServerOutput)
    ensures r.CopiedRaw? <==> ChooseBody(astTier, content).None?
    ensures r.Transformed? ==> forall i :: !MatchAt(r.body, PublishMarker, i)
    ensures r.Transformed? ==> ChooseBody(astTier, content).Some? && r.body == TrimPublishLoop(ChooseBody(astTier, content).value)
  {
    match ChooseBody(astTier, content)
    case None => CopiedRaw
    case Some(b) => Transformed(TrimPublishLoop(b))
  }
}
