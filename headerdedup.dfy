/**
  The duplicate-header suffixing of `sheetToJsonFromName`
  (src/server/sheets.ts:49-59): the first column with a header keeps it, the
  k-th repeat becomes `<header>_k`, and an empty header stays empty.

  The code counts repeats in a plain object literal `seen`, so a header that
  names a member of `Object.prototype` (such as `constructor`) finds that
  member instead of `undefined`. `DedupAsWritten` models that lookup;
  `Deduped` and the method `DedupHeaders` model the intended counting, with
  own keys only, and are what the sheet reader uses.
 */
module HeaderDedup {
  import opened JsString
  import opened CamelCase

  /** The header at one position, given the headers before it. */
  function DedupOne(before: seq<string>, h: string): string {
    var k := multiset(before)[h];
    if h == "" then "" else if k == 0 then h else h + "_" + NatToString(k)
  }

  /** The deduplicated headers: each position decided by the headers before it. */
  function Deduped(hs: seq<string>): seq<string> {
    seq(|hs|, i requires 0 <= i < |hs| => DedupOne(hs[..i], hs[i]))
  }

  /** The `headers` map over `headersRawCamel`, counting repeats in `seen`. */
  method DedupHeaders(hs: seq<string>) returns (out: seq<string>)
    ensures out == Deduped(hs)
  {
    var seen: map<string, nat> := map[];
    out := [];
    for i := 0 to |hs|
      invariant out == Deduped(hs[..i])
      invariant CountsMatch(seen, hs[..i])
    {
      var h := hs[i];
      CountStep(seen, hs[..i], h);
      DedupedSnoc(hs, i);
      if h == "" {
        out := out + [""];
      } else if h !in seen {
        seen := seen[h := 0];
        out := out + [h];
      } else {
        seen := seen[h := seen[h] + 1];
        out := out + [h + "_" + NatToString(seen[h])];
      }
    }
    assert hs[..|hs|] == hs;
  }

  /** Deciding one more header appends its decision to the earlier ones. */
  lemma DedupedSnoc(hs: seq<string>, i: nat)
    requires i < |hs|
    ensures hs[..i + 1] == hs[..i] + [hs[i]]
    ensures Deduped(hs[..i + 1]) == Deduped(hs[..i]) + [DedupOne(hs[..i], hs[i])]
  {
    assert hs[..i + 1] == hs[..i] + [hs[i]];
    var a, b := Deduped(hs[..i + 1]), Deduped(hs[..i]) + [DedupOne(hs[..i], hs[i])];
    forall j | 0 <= j < |a| ensures a[j] == b[j] {
      assert hs[..i + 1][..j] == hs[..j];
      if j < i {
        assert hs[..i][..j] == hs[..j];
      }
    }
  }

  /** `seen[h]` is one less than the number of times `h` occurs in `prefix`, for the non-empty headers seen. */
  ghost predicate CountsMatch(seen: map<string, nat>, prefix: seq<string>) {
    && (forall h :: h in seen <==> h != "" && h in prefix)
    && (forall h :: h in seen ==> seen[h] + 1 == multiset(prefix)[h])
  }

  /** One step of the counting: the header it yields is the intended one, and `seen` keeps counting. */
  lemma CountStep(seen: map<string, nat>, prefix: seq<string>, h: string)
    requires CountsMatch(seen, prefix)
    ensures h == "" ==> CountsMatch(seen, prefix + [h]) && DedupOne(prefix, h) == ""
    ensures h != "" && h !in seen ==> CountsMatch(seen[h := 0], prefix + [h]) && DedupOne(prefix, h) == h
    ensures h != "" && h in seen ==>
      CountsMatch(seen[h := seen[h] + 1], prefix + [h]) && DedupOne(prefix, h) == h + "_" + NatToString(seen[h] + 1)
  {
    var m := multiset(prefix + [h]);
    assert m == multiset(prefix) + multiset{h};
    if h != "" && h !in seen {
      assert multiset(prefix)[h] == 0;
    }
  }

  /** An empty header stays empty and a non-empty one stays non-empty; a first occurrence is kept as it is. */
  lemma DedupedShape(hs: seq<string>, i: nat)
    requires i < |hs|
    ensures |Deduped(hs)| == |hs|
    ensures Deduped(hs)[i] == "" <==> hs[i] == ""
    ensures hs[i] !in hs[..i] ==> Deduped(hs)[i] == hs[i]
    ensures hs[i] != "" && hs[i] in hs[..i] ==>
      Deduped(hs)[i] == hs[i] + "_" + NatToString(multiset(hs[..i])[hs[i]]) && multiset(hs[..i])[hs[i]] >= 1
  {
  }

  /**
    The uniqueness the suffixing promises: for headers shaped as
    `toCamelCase` makes them, no two non-empty deduplicated headers are equal.
   */
  lemma DedupedDistinct(hs: seq<string>)
    requires forall i :: 0 <= i < |hs| ==> hs[i] == "" || CamelShaped(hs[i])
    ensures forall i, j :: 0 <= i < j < |hs| && Deduped(hs)[i] != "" ==> Deduped(hs)[i] != Deduped(hs)[j]
  {
    var out := Deduped(hs);
    forall i, j | 0 <= i < j < |hs| && out[i] != ""
      ensures out[i] != out[j]
    {
      DedupedPairDistinct(hs, i, j);
    }
  }

  lemma DedupedPairDistinct(hs: seq<string>, i: nat, j: nat)
    requires i < j < |hs|
    requires hs[i] == "" || CamelShaped(hs[i])
    requires hs[j] == "" || CamelShaped(hs[j])
    requires Deduped(hs)[i] != ""
    ensures Deduped(hs)[i] != Deduped(hs)[j]
  {
    var out := Deduped(hs);
    var a, b := hs[i], hs[j];
    var ka, kb := multiset(hs[..i])[a], multiset(hs[..j])[b];
    if b == "" {
      return;
    }
    assert hs[..j] == hs[..i] + [a] + hs[i + 1..j];
    if ka == 0 && kb == 0 {
      assert a in hs[..j];
    } else if ka == 0 {
      SuffixedNotShaped(b, kb, a);
    } else if kb == 0 {
      SuffixedNotShaped(a, ka, b);
    } else {
      SuffixedInjective(a, ka, b, kb);
      if a == b {
        assert multiset(hs[..j])[a] >= ka + 1;
      }
    }
  }

  /** `h_k` has a `_` past its first character, so no `toCamelCase` result equals it. */
  lemma SuffixedNotShaped(h: string, k: nat, g: string)
    requires CamelShaped(h) && CamelShaped(g)
    ensures h + "_" + NatToString(k) != g
  {
    var s := h + "_" + NatToString(k);
    assert s[|h|] == '_';

  }

  /** `a_m` and `b_n` are equal only for the same header and the same count. */
  lemma SuffixedInjective(a: string, m: nat, b: string, n: nat)
    requires CamelShaped(a) && CamelShaped(b)
    ensures a + "_" + NatToString(m) == b + "_" + NatToString(n) ==> a == b && m == n
  {
    var s, t := a + "_" + NatToString(m), b + "_" + NatToString(n);
    if s == t {
      assert s[|a|] == '_' && t[|b|] == '_';
      assert |a| == |b|;
      assert s[..|a|] == a && t[..|b|] == b;
      assert s[|a| + 1..] == NatToString(m) && t[|b| + 1..] == NatToString(n);
      NatToStringInjective(m, n);
    }
  }

  /** A `toCamelCase` result is a valid input of the uniqueness promise. */
  lemma CamelHeadersShaped(raw: seq<string>, hs: seq<string>)
    requires |hs| == |raw| && forall i :: 0 <= i < |raw| ==> hs[i] == ToCamelCase(raw[i])
    ensures forall i :: 0 <= i < |hs| ==> hs[i] == "" || CamelShaped(hs[i])
  {
    forall i | 0 <= i < |hs| ensures hs[i] == "" || CamelShaped(hs[i]) {
      CamelCaseMeaning(raw[i]);
    }
  }

  // ---- The lookup as written ----

  /** What `seen[h]` can hold once set: a count, or `NaN` after `++` on an inherited member. */
  datatype Counter = Count(n: nat) | NotANumber

  /** The members of `Object.prototype` whose names `toCamelCase` can produce. */
  const InheritedNames: set<string> :=
    {"constructor", "hasOwnProperty", "isPrototypeOf", "propertyIsEnumerable", "toLocaleString", "toString", "valueOf"}

  /** `${seen[h]}`. */
  function Render(c: Counter): string {
    match c
    case Count(n) => NatToString(n)
    case NotANumber => "NaN"
  }

  /**
    The suffixing as written: `seen[h] === undefined` fails for an inherited
    member as well as for an own key, and `seen[h]++` on an inherited member
    (a function) stores `NaN`.
   */
  function DedupAsWritten(hs: seq<string>, seen: map<string, Counter>): seq<string>
    decreases |hs|
  {
    if hs == [] then []
    else
      var h := hs[0];
      if h == "" then [""] + DedupAsWritten(hs[1..], seen)
      else if h !in seen && h !in InheritedNames then [h] + DedupAsWritten(hs[1..], seen[h := Count(0)])
      else
        var next := if h in seen && seen[h].Count? then Count(seen[h].n + 1) else NotANumber;
        [h + "_" + Render(next)] + DedupAsWritten(hs[1..], seen[h := next])
  }

  /** `seen` as the intended counting leaves it after `prefix`: one less than each non-empty header's count. */
  ghost predicate SeenMatches(seen: map<string, Counter>, prefix: seq<string>) {
    && (forall h :: h in seen <==> h != "" && h in prefix)
    && (forall h :: h in seen ==> seen[h] == Count(multiset(prefix)[h] - 1))
  }

  /** The decisions for `rest` after `prefix`, by the intended counting. */
  function DedupAfter(prefix: seq<string>, rest: seq<string>): seq<string> {
    seq(|rest|, k requires 0 <= k < |rest| => DedupOne(prefix + rest[..k], rest[k]))
  }

  /** Away from the inherited names, the code as written counts as intended. */
  lemma AsWrittenAgrees(hs: seq<string>)
    requires forall i :: 0 <= i < |hs| ==> hs[i] !in InheritedNames
    ensures DedupAsWritten(hs, map[]) == Deduped(hs)
  {
    assert SeenMatches(map[], []);
    AsWrittenAgreesAfter([], hs, map[]);
    DedupAfterNothing(hs);
  }

  lemma DedupAfterNothing(hs: seq<string>)
    ensures DedupAfter([], hs) == Deduped(hs)
  {
    assert forall k :: 0 <= k < |hs| ==> [] + hs[..k] == hs[..k];
  }

  lemma {:induction false} AsWrittenAgreesAfter(prefix: seq<string>, rest: seq<string>, seen: map<string, Counter>)
    requires SeenMatches(seen, prefix)
    requires forall i :: 0 <= i < |rest| ==> rest[i] !in InheritedNames
    ensures DedupAsWritten(rest, seen) == DedupAfter(prefix, rest)
    decreases |rest|
  {
    if rest != [] {
      var h, tail := rest[0], rest[1..];
      SeenStep(seen, prefix, h);
      assert forall i :: 0 <= i < |tail| ==> tail[i] == rest[i + 1];
      AsWrittenAgreesAfter(prefix + [h], tail, NextSeen(seen, h));
      HeadStep(seen, prefix, rest);
      DedupAfterShift(prefix, rest);
    }
  }

  /** `seen` after the written code looks at a header that is not an inherited name. */
  function NextSeen(seen: map<string, Counter>, h: string): map<string, Counter> {
    if h == "" then seen
    else if h !in seen then seen[h := Count(0)]
    else if seen[h].Count? then seen[h := Count(seen[h].n + 1)]
    else seen[h := NotANumber]
  }

  /** The written update keeps `seen` in step with the intended counts. */
  lemma SeenStep(seen: map<string, Counter>, prefix: seq<string>, h: string)
    requires SeenMatches(seen, prefix)
    ensures SeenMatches(NextSeen(seen, h), prefix + [h])
  {
    assert multiset(prefix + [h]) == multiset(prefix) + multiset{h};
    assert h != "" && h !in seen ==> multiset(prefix)[h] == 0;
  }

  /** The first decision of the written code is the intended one. */
  lemma HeadStep(seen: map<string, Counter>, prefix: seq<string>, rest: seq<string>)
    requires SeenMatches(seen, prefix) && rest != [] && rest[0] !in InheritedNames
    ensures DedupAsWritten(rest, seen) == [DedupOne(prefix, rest[0])] + DedupAsWritten(rest[1..], NextSeen(seen, rest[0]))
  {
    var h := rest[0];
    assert h != "" && h !in seen ==> multiset(prefix)[h] == 0;
  }

  /** The decisions after `prefix` are the head decision followed by those after `prefix + [rest[0]]`. */
  lemma DedupAfterShift(prefix: seq<string>, rest: seq<string>)
    requires rest != []
    ensures DedupAfter(prefix, rest) == [DedupOne(prefix, rest[0])] + DedupAfter(prefix + [rest[0]], rest[1..])
  {
    var tail := rest[1..];
    forall k | 0 <= k < |tail|
      ensures DedupAfter(prefix + [rest[0]], tail)[k] == DedupAfter(prefix, rest)[k + 1]
    {
      assert prefix + [rest[0]] + tail[..k] == prefix + rest[..k + 1];
    }
    assert rest[..0] == [] && prefix + [] == prefix;
  }

  /**
    Two columns headed `constructor` (or `Constructor`, which `toCamelCase`
    lowers to it) both become `constructor_NaN`, so one overwrites the other
    in every row object; the intended counting gives `constructor` and
    `constructor_1`.
   */
  lemma InheritedHeaderCollides()
    ensures ToCamelCase("constructor") == "constructor"
    ensures DedupAsWritten(["constructor", "constructor"], map[]) == ["constructor_NaN", "constructor_NaN"]
    ensures Deduped(["constructor", "constructor"]) == ["constructor", "constructor_1"]
  {
    CamelCaseOfOneWord("constructor");
    AsWrittenCollides();
    IntendedDistinguishes();
  }

  lemma AsWrittenCollides()
    ensures DedupAsWritten(["constructor", "constructor"], map[]) == ["constructor_NaN", "constructor_NaN"]
  {
    var hs := ["constructor", "constructor"];
    var seen1 := map["constructor" := NotANumber];
    assert "constructor" in InheritedNames;
    assert "constructor" + "_" + Render(NotANumber) == "constructor_NaN";
    assert hs[1..] == ["constructor"];
    assert ["constructor"][1..] == [];
    assert DedupAsWritten(hs, map[]) == ["constructor_NaN"] + DedupAsWritten(["constructor"], seen1);
    assert DedupAsWritten(["constructor"], seen1) == ["constructor_NaN"] + DedupAsWritten([], seen1);
  }

  lemma IntendedDistinguishes()
    ensures Deduped(["constructor", "constructor"]) == ["constructor", "constructor_1"]
  {
    var hs := ["constructor", "constructor"];
    assert hs[..1] == ["constructor"];
    assert multiset(hs[..0])["constructor"] == 0;
    assert multiset(hs[..1])["constructor"] == 1;
    assert NatToString(1) == [DigitChar(1)] == "1";
    assert DedupOne(hs[..0], hs[0]) == "constructor";
    assert DedupOne(hs[..1], hs[1]) == "constructor" + "_" + "1" == "constructor_1";
  }
}
