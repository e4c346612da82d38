/**
  The command line of scripts/build-apps.mjs (`getArgVal`, `--changed`,
  `--skip-server`, the `--pages` allow-list) and the page routing of the
  generated `doGet` (the default page and the lookup of the `page` query
  parameter).
 */
module BuildOptions {
  import opened Options
  import opened JsString
  import opened Discovery

  /** `getArgVal(key)`: the text after `key=` in the first argument that starts with it. */
  function GetArgVal(args: seq<string>, key: string): (r: Option<string>)
    ensures r.None? <==> forall i :: 0 <= i < |args| ==> !StartsWith(args[i], key + "=")
    ensures r.Some? ==> exists i :: 0 <= i < |args| && args[i] == key + "=" + r.value
                                    && forall j :: 0 <= j < i ==> !StartsWith(args[j], key + "=")
  {
    if args == [] then None
    else if StartsWith(args[0], key + "=") then
      assert args[0] == key + "=" + args[0][|key| + 1..];
      Some(args[0][|key| + 1..])
    else
      var r := GetArgVal(args[1..], key);
      assert forall i :: 0 < i < |args| ==> args[i] == args[1..][i - 1];
      r
  }

  /** Passing `key=v` first gives back `v`, whatever follows. */
  lemma GetArgValRoundTrip(key: string, v: string, rest: seq<string>)
    ensures GetArgVal([key + "=" + v] + rest, key) == Some(v)
  {
    var a := key + "=" + v;
    assert a[..|key + "="|] == key + "=";
    assert a[|key| + 1..] == v;
  }

  /** A bare flag such as `--changed` or `--skip-server`: `ARGS.includes(flag)`. */
  predicate HasFlag(args: seq<string>, flag: string) {
    flag in args
  }

  /** The trimmed, non-empty names of a `--pages` value, in order. */
  function AllowedNames(parts: seq<string>): (r: seq<string>)
    ensures forall n :: n in r <==> n != "" && exists i :: 0 <= i < |parts| && Trim(parts[i]) == n
  {
    if parts == [] then []
    else
      var rest := AllowedNames(parts[1..]);
      assert forall i :: 0 < i < |parts| ==> parts[i] == parts[1..][i - 1];
      (if Trim(parts[0]) != "" then [Trim(parts[0])] else []) + rest
  }

  /** The allow-list a `--pages` value names. */
  function AllowList(pagesArg: string): set<string> {
    set n | n in AllowedNames(Split(pagesArg, ','))
  }

  /** The entries whose name is allowed, in their original order. */
  function KeepAllowed(entries: seq<Entry>, allow: set<string>): (r: seq<Entry>)
    ensures forall e :: e in r <==> e in entries && e.name in allow
    ensures |r| <= |entries|
  {
    if entries == [] then []
    else (if entries[0].name in allow then [entries[0]] else []) + KeepAllowed(entries[1..], allow)
  }

  /** The pages a run considers: all of them unless a non-empty `--pages=` is given. */
  function SelectPages(pagesArg: Option<string>, all: seq<Entry>): (r: seq<Entry>)
  {
    if pagesArg.Some? && pagesArg.value != "" then KeepAllowed(all, AllowList(pagesArg.value)) else all
  }

  /** A name is allowed exactly when it is one of the value's comma-separated parts, trimmed and non-empty. */
  lemma AllowListMeaning(pagesArg: string, parts: seq<string>, n: string)
    requires parts == Split(pagesArg, ',')
    ensures n in AllowList(pagesArg) <==> n != "" && exists i :: 0 <= i < |parts| && Trim(parts[i]) == n
  {
  }

  /**
    Without a non-empty `--pages` value every page is selected; with one, a
    page is selected exactly when its name is allowed, in discovered order.
   */
  lemma SelectPagesMeaning(pagesArg: Option<string>, all: seq<Entry>, e: Entry)
    ensures pagesArg.None? || pagesArg.value == "" ==> SelectPages(pagesArg, all) == all
    ensures pagesArg.Some? && pagesArg.value != "" ==>
      (e in SelectPages(pagesArg, all) <==> e in all && e.name in AllowList(pagesArg.value))
  {
  }

  /** Selecting twice with the same value selects nothing more. */
  lemma {:induction false} KeepAllowedIdempotent(entries: seq<Entry>, allow: set<string>)
    ensures KeepAllowed(KeepAllowed(entries, allow), allow) == KeepAllowed(entries, allow)
  {
    if entries != [] {
      KeepAllowedIdempotent(entries[1..], allow);
      var k := KeepAllowed(entries, allow);
      if entries[0].name in allow {
        assert k == [entries[0]] + KeepAllowed(entries[1..], allow);
        assert k[0] == entries[0] && k[1..] == KeepAllowed(entries[1..], allow);
      } else {
        assert k == KeepAllowed(entries[1..], allow);
      }
    }
  }

  /** `pages.includes('home') ? 'home' : pages[0] || 'home'`. */
  function DefaultPage(pages: seq<string>): (r: string)
    ensures r == "home" || (|pages| > 0 && r == pages[0])
  {
    if "home" in pages then "home"
    else if |pages| > 0 && pages[0] != "" then pages[0]
    else "home"
  }

  /** The default page is `home` when there is one, else the first page; it is a page whenever names are non-empty. */
  lemma DefaultPageChoice(pages: seq<string>)
    ensures "home" in pages ==> DefaultPage(pages) == "home"
    ensures "home" !in pages && |pages| > 0 && pages[0] != "" ==> DefaultPage(pages) == pages[0]
    ensures |pages| == 0 ==> DefaultPage(pages) == "home"
    ensures (forall i :: 0 <= i < |pages| ==> pages[i] != "") && |pages| > 0 ==> DefaultPage(pages) in pages
  {
  }

  /**
    The page the generated `doGet` serves for a request whose `page`
    parameter is `param` (`None` when it is missing or empty): the trimmed
    parameter when it names a known page, else the default page.
   */
  function Route(pages: seq<string>, param: Option<string>): (target: string)
    ensures target in pages || target == DefaultPage(pages)
  {
    var page := if param.Some? && param.value != "" then Trim(param.value) else "";
    if page in pages then page else DefaultPage(pages)
  }

  /** A known page is served when asked for, padded with whitespace or not; anything else gets the default. */
  lemma RouteChoice(pages: seq<string>, param: Option<string>)
    ensures param.Some? && param.value != "" && Trim(param.value) in pages ==> Route(pages, param) == Trim(param.value)
    ensures (param.None? || param.value == "") && "" !in pages ==> Route(pages, param) == DefaultPage(pages)
    ensures param.Some? && param.value != "" && Trim(param.value) !in pages ==> Route(pages, param) == DefaultPage(pages)
  {
  }
}
