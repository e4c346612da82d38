/**
  `discoverEntries` in scripts/build-apps.mjs: every directory under
  `src/client/pages` with an `index.html` (or, failing that, an `App.tsx`)
  is a page. The directory listing and the `stat` results are inputs.
 */
module Discovery {
  import opened Options
  import opened Sorting

  type Path = string

  /** One entry of `readdir(pagesRoot, { withFileTypes: true })`. */
  datatype Dirent = Dirent(name: string, isDirectory: bool)

  /** A discovered page: its folder name and its own `index.html`, if it has one. */
  datatype Entry = Entry(name: string, html: Option<Path>)

  /**
    What discovery sees: the listing (`None` when `readdir` fails), the paths
    `stat` succeeds on, and where a page's `index.html` and `App.tsx` are.
   */
  datatype PagesDir = PagesDir(
    listing: Option<seq<Dirent>>,
    statable: set<Path>,
    indexHtmlOf: string -> Path,
    appTsxOf: string -> Path)

  function NameOf(e: Entry): string {
    e.name
  }

  /** How one listing entry is classified: a page with its HTML, a page using the shared template, or nothing. */
  function Classify(d: PagesDir, de: Dirent): (r: Option<Entry>)
    ensures r.Some? ==> r.value.name == de.name && de.isDirectory
    ensures r.Some? && r.value.html.Some? ==> r.value.html.value == d.indexHtmlOf(de.name) && r.value.html.value in d.statable
    ensures r.Some? && r.value.html.None? ==> d.indexHtmlOf(de.name) !in d.statable && d.appTsxOf(de.name) in d.statable
    ensures r.None? ==> !de.isDirectory || (d.indexHtmlOf(de.name) !in d.statable && d.appTsxOf(de.name) !in d.statable)
  {
    if !de.isDirectory then None
    else if d.indexHtmlOf(de.name) in d.statable then Some(Entry(de.name, Some(d.indexHtmlOf(de.name))))
    else if d.appTsxOf(de.name) in d.statable then Some(Entry(de.name, None))
    else None
  }

  /** The pages of a listing, in listing order. */
  function Classified(d: PagesDir, ds: seq<Dirent>): seq<Entry> {
    if ds == [] then []
    else
      Classified(d, ds[..|ds| - 1])
      + (match Classify(d, ds[|ds| - 1]) case Some(e) => [e] case None => [])
  }

  /** What `discoverEntries` returns: the pages sorted by name; nothing when the folder cannot be listed. */
  function DiscoverSpec(d: PagesDir): seq<Entry> {
    match d.listing
    case None => []
    case Some(ds) => SortBy(Classified(d, ds), NameOf)
  }

  /** `discoverEntries`: classify each listing entry in turn, then sort by name. */
  method DiscoverEntries(d: PagesDir) returns (entries: seq<Entry>)
    ensures entries == DiscoverSpec(d)
  {
    var list: seq<Entry> := [];
    if d.listing.Some? {
      var ds := d.listing.value;
      var i := 0;
      while i < |ds|
        invariant 0 <= i <= |ds|
        invariant list == Classified(d, ds[..i])
      {
        assert ds[..i + 1][..i] == ds[..i];
        var de := ds[i];
        if de.isDirectory {
          var name := de.name;
          var indexPath := d.indexHtmlOf(name);
          if indexPath in d.statable {
            list := list + [Entry(name, Some(indexPath))];
          } else {
            var appTsx := d.appTsxOf(name);
            if appTsx in d.statable {
              list := list + [Entry(name, None)];
            }
          }
        }
        i := i + 1;
      }
      assert ds[..i] == ds;
    }
    entries := SortBy(list, NameOf);
  }

  /** The pages found in a listing are exactly its classified entries. */
  lemma {:induction false} ClassifiedMembers(d: PagesDir, ds: seq<Dirent>, e: Entry)
    ensures e in Classified(d, ds) <==> exists k :: 0 <= k < |ds| && Classify(d, ds[k]) == Some(e)
  {
    if ds != [] {
      var init := ds[..|ds| - 1];
      ClassifiedMembers(d, init, e);
      if e in Classified(d, init) {
        var k :| 0 <= k < |init| && Classify(d, init[k]) == Some(e);
        assert ds[k] == init[k];
      }
      if exists k :: 0 <= k < |ds| && Classify(d, ds[k]) == Some(e) {
        var k :| 0 <= k < |ds| && Classify(d, ds[k]) == Some(e);
        if k < |ds| - 1 {
          assert init[k] == ds[k];
        }
      }
    }
  }

  /**
    The discovered pages are sorted by name, and a page is discovered exactly
    when some listed directory classifies to it.
   */
  lemma DiscoverMeaning(d: PagesDir, e: Entry)
    ensures SortedBy(DiscoverSpec(d), NameOf)
    ensures e in DiscoverSpec(d) <==>
      d.listing.Some? && exists k :: 0 <= k < |d.listing.value| && Classify(d, d.listing.value[k]) == Some(e)
  {
    if d.listing.Some? {
      var ds := d.listing.value;
      ClassifiedMembers(d, ds, e);
      assert e in DiscoverSpec(d) <==> e in multiset(Classified(d, ds));
    }
  }

  lemma {:induction false} ClassifiedAppend(d: PagesDir, a: seq<Dirent>, b: seq<Dirent>)
    ensures Classified(d, a + b) == Classified(d, a) + Classified(d, b)
    decreases |b|
  {
    if b == [] {
      assert a + b == a;
    } else {
      assert (a + b)[..|a + b| - 1] == a + b[..|b| - 1];
      ClassifiedAppend(d, a, b[..|b| - 1]);
    }
  }

  /** Classifying a reordered listing classifies the same entries. */
  lemma {:induction false} ClassifiedPermutation(d: PagesDir, s: seq<Dirent>, t: seq<Dirent>)
    requires multiset(s) == multiset(t)
    ensures multiset(Classified(d, s)) == multiset(Classified(d, t))
    decreases |s|
  {
    if s != [] {
      var x := s[0];
      assert x in multiset(t);
      var i :| 0 <= i < |t| && t[i] == x;
      var rest := t[..i] + t[i + 1..];
      assert t == t[..i] + [x] + t[i + 1..];
      assert s == [x] + s[1..];
      assert multiset(t) == multiset(t[..i]) + multiset{x} + multiset(t[i + 1..]);
      assert multiset(rest) == multiset(t) - multiset{x};
      assert multiset(s[1..]) == multiset(s) - multiset{x};
      ClassifiedPermutation(d, s[1..], rest);
      ClassifiedAppend(d, [x], s[1..]);
      ClassifiedAppend(d, t[..i] + [x], t[i + 1..]);
      ClassifiedAppend(d, t[..i], [x]);
      ClassifiedAppend(d, t[..i], t[i + 1..]);
    } else {
      assert |t| == |multiset(t)| == 0;
    }
  }

  /** Listed names are distinct, so the pages' names are too. */
  lemma ClassifiedKeysDistinct(d: PagesDir, ds: seq<Dirent>)
    requires forall i, j :: 0 <= i < j < |ds| ==> ds[i].name != ds[j].name
    ensures KeysDistinct(Classified(d, ds), NameOf)
  {
    forall x, y | x in Classified(d, ds) && y in Classified(d, ds) && NameOf(x) == NameOf(y)
      ensures x == y
    {
      ClassifiedMembers(d, ds, x);
      ClassifiedMembers(d, ds, y);
      var i :| 0 <= i < |ds| && Classify(d, ds[i]) == Some(x);
      var j :| 0 <= j < |ds| && Classify(d, ds[j]) == Some(y);
      assert ds[i].name == ds[j].name;
    }
  }

  /**
    The order `readdir` lists the folders in does not matter: a reordered
    listing of distinctly named entries discovers the same pages in the same
    order.
   */
  lemma DiscoverIgnoresListingOrder(d1: PagesDir, d2: PagesDir, s: seq<Dirent>, t: seq<Dirent>)
    requires d1 == d2.(listing := Some(s)) && d2.listing == Some(t)
    requires multiset(s) == multiset(t)
    requires forall i, j :: 0 <= i < j < |s| ==> s[i].name != s[j].name
    ensures DiscoverSpec(d1) == DiscoverSpec(d2)
  {
    ClassifiedPermutation(d1, s, t);
    ClassifiedKeysDistinct(d1, s);
    assert Classified(d1, t) == Classified(d2, t) by {
      ClassifiedSameView(d1, d2, t);
    }
    var a, b := SortBy(Classified(d1, s), NameOf), SortBy(Classified(d2, t), NameOf);
    assert forall x :: x in a ==> x in Classified(d1, s) by {
      assert forall x :: x in a ==> x in multiset(Classified(d1, s));
    }
    SortedUnique(a, b, NameOf);
  }

  /** Classification reads only `statable` and the two path functions. */
  lemma {:induction false} ClassifiedSameView(d1: PagesDir, d2: PagesDir, ds: seq<Dirent>)
    requires d1.statable == d2.statable && d1.indexHtmlOf == d2.indexHtmlOf && d1.appTsxOf == d2.appTsxOf
    ensures Classified(d1, ds) == Classified(d2, ds)
  {
    if ds != [] {
      ClassifiedSameView(d1, d2, ds[..|ds| - 1]);
    }
  }
}
