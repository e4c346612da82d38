/**
  The content hashes the incremental build compares: `hashFiles` (SHA-1 over
  each readable file's path and bytes, in sorted path order),
  `computePageHash` (the files a page is built from) and `computeServerHash`
  (the server sources). SHA-1 itself, UTF-8 encoding and reading a file's
  bytes are parameters of the store.
 */
module ContentHash {
  import opened Sorting
  import opened ImportGraph

  newtype byte = b: int | 0 <= b < 256

  /** What `hashFiles` sees: the bytes of every readable file, the UTF-8 encoder for paths, and SHA-1 as hex. */
  datatype Store = Store(bytes: map<Path, seq<byte>>, utf8: string -> seq<byte>, sha1Hex: seq<byte> -> string)

  /** What one file adds to the hash: its path then its bytes, or nothing when it cannot be read. */
  function Contribution(st: Store, f: Path): seq<byte> {
    if f in st.bytes then st.utf8(f) + st.bytes[f] else []
  }

  /** The bytes fed to the hash for `files` in the given order. */
  function Feed(st: Store, files: seq<Path>): seq<byte> {
    if files == [] then [] else Contribution(st, files[0]) + Feed(st, files[1..])
  }

  /** The digest `hashFiles(files)` returns. */
  function FilesDigest(st: Store, files: seq<Path>): string {
    st.sha1Hex(Feed(st, SortBy(files, Id)))
  }

  lemma {:induction false} FeedAppend(st: Store, a: seq<Path>, b: seq<Path>)
    ensures Feed(st, a + b) == Feed(st, a) + Feed(st, b)
  {
    if a != [] {
      assert (a + b)[1..] == a[1..] + b;
      FeedAppend(st, a[1..], b);
    } else {
      assert a + b == b;
    }
  }

  /** `hashFiles`: sort the paths, feed each readable file's path and bytes, digest. */
  method HashFiles(st: Store, files: seq<Path>) returns (hex: string)
    ensures hex == FilesDigest(st, files)
  {
    var sorted := SortBy(files, Id);
    var fed: seq<byte> := [];
    var i := 0;
    while i < |sorted|
      invariant 0 <= i <= |sorted|
      invariant fed == Feed(st, sorted[..i])
    {
      FeedAppend(st, sorted[..i], [sorted[i]]);
      assert sorted[..i + 1] == sorted[..i] + [sorted[i]];
      if sorted[i] in st.bytes {
        fed := fed + st.utf8(sorted[i]);
        fed := fed + st.bytes[sorted[i]];
      }
      i := i + 1;
    }
    assert sorted[..i] == sorted;
    hex := st.sha1Hex(fed);
  }

  /** The digest does not depend on the order the paths are listed in. */
  lemma HashIgnoresOrder(st: Store, a: seq<Path>, b: seq<Path>)
    requires multiset(a) == multiset(b)
    ensures FilesDigest(st, a) == FilesDigest(st, b)
  {
    SortIgnoresOrder(a, b);
  }

  lemma {:induction false} FeedInsertUnreadable(st: Store, f: Path, s: seq<Path>)
    requires f !in st.bytes
    ensures Feed(st, Insert(f, s, Id)) == Feed(st, s)
  {
    if s != [] && !StrLe(f, s[0]) {
      FeedInsertUnreadable(st, f, s[1..]);
    }
  }

  /** A path that cannot be read adds nothing to the digest. */
  lemma UnreadableIgnored(st: Store, f: Path, files: seq<Path>)
    requires f !in st.bytes
    ensures FilesDigest(st, [f] + files) == FilesDigest(st, files)
  {
    assert ([f] + files)[1..] == files;
    FeedInsertUnreadable(st, f, SortBy(files, Id));
  }

  /** Two stores that agree on the listed files feed the same bytes. */
  lemma {:induction false} FeedFrame(st1: Store, st2: Store, files: seq<Path>)
    requires st1.utf8 == st2.utf8
    requires forall f :: f in files ==> (f in st1.bytes <==> f in st2.bytes)
    requires forall f :: f in files && f in st1.bytes ==> st1.bytes[f] == st2.bytes[f]
    ensures Feed(st1, files) == Feed(st2, files)
  {
    if files != [] {
      assert forall f :: f in files[1..] ==> f in files;
      FeedFrame(st1, st2, files[1..]);
    }
  }

  /** The digest depends only on the readability and the bytes of the listed files. */
  lemma DigestFrame(st1: Store, st2: Store, files: seq<Path>)
    requires st1.utf8 == st2.utf8 && st1.sha1Hex == st2.sha1Hex
    requires forall f :: f in files ==> (f in st1.bytes <==> f in st2.bytes)
    requires forall f :: f in files && f in st1.bytes ==> st1.bytes[f] == st2.bytes[f]
    ensures FilesDigest(st1, files) == FilesDigest(st2, files)
  {
    var sorted := SortBy(files, Id);
    assert forall f :: f in sorted ==> f in multiset(files);
    FeedFrame(st1, st2, sorted);
  }

  /** Two duplicate-free lists of the same paths have the same digest. */
  lemma DistinctListsSameDigest(st: Store, a: seq<Path>, b: seq<Path>)
    requires NoDup(a) && NoDup(b)
    requires forall x :: x in a <==> x in b
    ensures FilesDigest(st, a) == FilesDigest(st, b)
  {
    DistinctMultiset(a);
    DistinctMultiset(b);
    HashIgnoresOrder(st, a, b);
  }

  /** A duplicate-free sequence holds each of its elements once. */
  lemma {:induction false} DistinctMultiset(a: seq<Path>)
    requires NoDup(a)
    ensures forall x :: multiset(a)[x] == if x in a then 1 else 0
  {
    if a != [] {
      assert a == [a[0]] + a[1..];
      assert NoDup(a[1..]) by {
        forall i, j | 0 <= i < j < |a[1..]| ensures a[1..][i] != a[1..][j] {
          assert a[1..][i] == a[i + 1] && a[1..][j] == a[j + 1];
        }
      }
      assert a[0] !in a[1..];
      DistinctMultiset(a[1..]);
    }
  }

  /** The paths a page's hash depends on, resolved against the project root. */
  datatype PagePaths = PagePaths(
    entry: Path,          // src/client/pages/<page>/App.tsx
    html: Path,           // src/client/pages/<page>/index.html
    sharedTemplate: Path, // src/client/template.html
    globalCss: Path)      // src/client/index.css

  /** The HTML the page is built from: its own `index.html`, else the shared template when present. */
  function HtmlInput(p: Project, paths: PagePaths): set<Path> {
    if paths.html in p.existing then {paths.html}
    else if paths.sharedTemplate in p.existing then {paths.sharedTemplate}
    else {}
  }

  function CssInput(p: Project, paths: PagePaths): set<Path> {
    if paths.globalCss in p.existing then {paths.globalCss} else {}
  }

  /** The files `computePageHash` hashes: the import graph, the HTML and the global CSS, kept only with a known extension. */
  function PageInputSet(p: Project, graph: set<Path>, paths: PagePaths): (r: set<Path>)
    ensures forall x :: x in r ==> EndsWithAny(x, AnyExts)
  {
    set x | x in graph + HtmlInput(p, paths) + CssInput(p, paths) && EndsWithAny(x, AnyExts)
  }

  /** `Array.from(set)`: the elements of a set, each once, in some order. */
  method SetToSeq(s: set<Path>) returns (list: seq<Path>)
    ensures NoDup(list)
    ensures forall x :: x in list <==> x in s
  {
    list := [];
    var rest := s;
    while rest != {}
      invariant NoDup(list)
      invariant forall x :: x in s <==> x in list || x in rest
      invariant forall x :: x in list ==> x !in rest
      decreases |rest|
    {
      var x :| x in rest;
      list := list + [x];
      rest := rest - {x};
    }
  }

  /** `Array.from(new Set(files)).filter(anyExtRe.test)`: first occurrences, known extensions only. */
  method DedupKnown(files: seq<Path>) returns (unique: seq<Path>)
    ensures NoDup(unique)
    ensures forall x :: x in unique <==> x in files && EndsWithAny(x, AnyExts)
  {
    unique := [];
    var seen: set<Path> := {};
    var i := 0;
    while i < |files|
      invariant 0 <= i <= |files|
      invariant NoDup(unique)
      invariant forall x :: x in seen <==> x in files[..i]
      invariant forall x :: x in unique <==> x in files[..i] && EndsWithAny(x, AnyExts)
    {
      assert files[..i + 1] == files[..i] + [files[i]];
      if files[i] !in seen {
        seen := seen + {files[i]};
        if EndsWithAny(files[i], AnyExts) {
          unique := unique + [files[i]];
        }
      }
      i := i + 1;
    }
    assert files[..i] == files;
  }

  /**
    `computePageHash`: walk the import graph from the page's `App.tsx` when
    it exists, add its HTML and the global stylesheet, and hash the distinct
    files with a known extension. `graph` and `inputs` are the intermediate
    results, returned so that the contract can speak of them.
   */
  method ComputePageHash(p: Project, st: Store, paths: PagePaths) returns (hex: string, graph: set<Path>, inputs: seq<Path>)
    ensures paths.entry in p.existing ==> exists order :: IsGraphOf(p, paths.entry, graph, order)
    ensures paths.entry !in p.existing ==> graph == {}
    ensures NoDup(inputs)
    ensures forall x :: x in inputs <==> x in PageInputSet(p, graph, paths)
    ensures hex == FilesDigest(st, inputs)
  {
    var files: seq<Path> := [];
    graph := {};
    if paths.entry in p.existing {
      var order;
      graph, order := CollectGraph(p, paths.entry);
      files := SetToSeq(graph);
    }
    if paths.html in p.existing {
      files := files + [paths.html];
    } else if paths.sharedTemplate in p.existing {
      files := files + [paths.sharedTemplate];
    }
    if paths.globalCss in p.existing {
      files := files + [paths.globalCss];
    }
    assert forall x :: x in files <==> x in graph + HtmlInput(p, paths) + CssInput(p, paths);
    inputs := DedupKnown(files);
    hex := HashFiles(st, inputs);
  }

  /** The page hash is fixed by the set of input files, whatever order the graph was listed in. */
  lemma PageHashDeterminedByInputs(st: Store, p: Project, graph: set<Path>, paths: PagePaths, a: seq<Path>, b: seq<Path>)
    requires NoDup(a) && NoDup(b)
    requires forall x :: x in a <==> x in PageInputSet(p, graph, paths)
    requires forall x :: x in b <==> x in PageInputSet(p, graph, paths)
    ensures FilesDigest(st, a) == FilesDigest(st, b)
  {
    DistinctListsSameDigest(st, a, b);
  }

  /** `/\.(ts|js|json)$/` (case-sensitive): a server source the server hash covers. */
  predicate IsServerSource(f: Path) {
    EndsWith(f, ".ts") || EndsWith(f, ".js") || EndsWith(f, ".json")
  }

  predicate EndsWith(s: string, suffix: string) {
    |suffix| <= |s| && s[|s| - |suffix|..] == suffix
  }

  /** The server sources among the walked files, in walk order. */
  function ServerSources(walked: seq<Path>): (r: seq<Path>)
    ensures forall x :: x in r <==> x in walked && IsServerSource(x)
    ensures |r| <= |walked|
  {
    if walked == [] then []
    else (if IsServerSource(walked[0]) then [walked[0]] else []) + ServerSources(walked[1..])
  }

  /** `computeServerHash`: hash the `.ts`, `.js` and `.json` files found under `src/server`. */
  method ComputeServerHash(st: Store, walked: seq<Path>) returns (hex: string)
    ensures hex == FilesDigest(st, ServerSources(walked))
  {
    hex := HashFiles(st, ServerSources(walked));
  }
}
