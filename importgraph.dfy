/**
  The import-graph resolver of `computePageHash` in scripts/build-apps.mjs:
  `resolveImport` (which on-disk file an import specifier names) and
  `collectGraph` (the files reachable from a page's entry). The file system is
  the set of existing paths and the map of readable files; node's path
  arithmetic (`resolve`, `dirname`) and the import-specifier regex are
  parameters of the project.
 */
module ImportGraph {
  import opened Options
  import opened JsString

  type Path = string

  /**
    What the resolver sees of the project: the `src` root the `@/` alias
    points to, the paths `existsSync` accepts, the files `readFile` can read
    (with their text), node's `path.resolve` and `path.dirname`, and the
    specifiers the import regex finds in a text, in order.
   */
  datatype Project = Project(
    srcRoot: Path,
    existing: set<Path>,
    texts: map<Path, string>,
    resolve: (Path, string) -> Path,
    dirname: Path -> Path,
    specifiers: string -> seq<string>)

  /** `/\.(ts|tsx|js|jsx)$/i` and friends: `p` ends with `ext`, ignoring ASCII case. */
  predicate EndsWithCI(p: Path, ext: string) {
    |ext| <= |p| && Lower(p[|p| - |ext|..]) == ext
  }

  predicate EndsWithAny(p: Path, exts: seq<string>) {
    |exts| > 0 && (EndsWithCI(p, exts[0]) || EndsWithAny(p, exts[1..]))
  }

  /** The extensions whose files are scanned for imports (`codeExtRe`). */
  const CodeExts: seq<string> := [".ts", ".tsx", ".js", ".jsx"]
  /** The extensions a specifier may already carry (`anyExtRe`). */
  const AnyExts: seq<string> := [".ts", ".tsx", ".js", ".jsx", ".css", ".json", ".html"]
  /** The extensions tried after the bare specifier, in order. */
  const ProbeExts: seq<string> := [".ts", ".tsx", ".js", ".jsx", ".css", ".json"]

  predicate IsCode(p: Path) {
    EndsWithAny(p, CodeExts)
  }

  /** A specifier the resolver follows: relative (`.`) or aliased to `src` (`@/`). */
  predicate IsLocalSpec(spec: string) {
    StartsWith(spec, ".") || StartsWith(spec, "@/")
  }

  /** The path a local specifier names before any extension is tried. */
  function BaseOf(p: Project, fromFile: Path, spec: string): Path
    requires IsLocalSpec(spec)
  {
    if StartsWith(spec, "@/") then p.resolve(p.srcRoot, spec[2..])
    else p.resolve(p.dirname(fromFile), spec)
  }

  /** The probe order: `base` itself when it has a known extension, then `base` + each extension, then `base/index` + each. */
  function Candidates(p: Project, base: Path): (c: seq<Path>)
    ensures |c| == (if EndsWithAny(base, AnyExts) then 1 else 0) + 2 * |ProbeExts|
  {
    (if EndsWithAny(base, AnyExts) then [base] else [])
    + seq(|ProbeExts|, k requires 0 <= k < |ProbeExts| => base + ProbeExts[k])
    + seq(|ProbeExts|, k requires 0 <= k < |ProbeExts| => p.resolve(base, "index" + ProbeExts[k]))
  }

  /** The first candidate that exists. */
  function FirstExisting(cands: seq<Path>, existing: set<Path>): (r: Option<Path>)
    ensures r.Some? ==> exists k :: 0 <= k < |cands| && cands[k] == r.value && r.value in existing
                                    && forall j :: 0 <= j < k ==> cands[j] !in existing
    ensures r.None? ==> forall k :: 0 <= k < |cands| ==> cands[k] !in existing
  {
    if cands == [] then None
    else if cands[0] in existing then Some(cands[0])
    else
      var r := FirstExisting(cands[1..], existing);
      assert forall k :: 0 < k < |cands| ==> cands[k] == cands[1..][k - 1];
      r
  }

  /** `resolveImport(fromFile, spec)`. */
  function ResolveImport(p: Project, fromFile: Path, spec: string): (r: Option<Path>)
    ensures r.Some? ==> r.value in p.existing
  {
    if !IsLocalSpec(spec) then None
    else FirstExisting(Candidates(p, BaseOf(p, fromFile, spec)), p.existing)
  }

  /**
    A specifier that is neither relative nor aliased resolves to nothing;
    a local one resolves to the first existing candidate in probe order, and
    to nothing only when no candidate exists.
   */
  lemma ResolveImportMeaning(p: Project, fromFile: Path, spec: string)
    ensures !IsLocalSpec(spec) ==> ResolveImport(p, fromFile, spec).None?
    ensures IsLocalSpec(spec) ==>
      var cands := Candidates(p, BaseOf(p, fromFile, spec));
      && (ResolveImport(p, fromFile, spec).None? <==> forall k :: 0 <= k < |cands| ==> cands[k] !in p.existing)
      && (ResolveImport(p, fromFile, spec).Some? ==>
            exists k :: 0 <= k < |cands| && cands[k] == ResolveImport(p, fromFile, spec).value
                        && forall j :: 0 <= j < k ==> cands[j] !in p.existing)
  {
    if IsLocalSpec(spec) {
      var cands := Candidates(p, BaseOf(p, fromFile, spec));
      var r := FirstExisting(cands, p.existing);
      if r.Some? {
        var k :| 0 <= k < |cands| && cands[k] == r.value && r.value in p.existing;
      }
    }
  }

  /** An aliased specifier with an extension-less existing `.ts` file resolves to it before anything else. */
  lemma AliasPrefersTs(p: Project, fromFile: Path, rest: string)
    requires !EndsWithAny(p.resolve(p.srcRoot, rest), AnyExts)
    requires p.resolve(p.srcRoot, rest) + ".ts" in p.existing
    ensures ResolveImport(p, fromFile, "@/" + rest) == Some(p.resolve(p.srcRoot, rest) + ".ts")
  {
    var spec := "@/" + rest;
    assert StartsWith(spec, "@/") by {
      assert spec[0..2] == "@/";
    }
    assert spec[2..] == rest;
    var cands := Candidates(p, BaseOf(p, fromFile, spec));
    assert cands[0] == p.resolve(p.srcRoot, rest) + ".ts";
  }

  /** The files the specifiers of `fromFile` resolve to, in order (empty specifiers skipped). */
  function ResolveAll(p: Project, fromFile: Path, specs: seq<string>): (r: seq<Path>)
    ensures forall x :: x in r ==> x in p.existing
  {
    if specs == [] then []
    else
      var last := specs[|specs| - 1];
      var resolved := if last == "" then None else ResolveImport(p, fromFile, last);
      ResolveAll(p, fromFile, specs[..|specs| - 1]) + (if resolved.Some? then [resolved.value] else [])
  }

  /** The imports of `f` that `collectGraph` records: none unless `f` is a readable code file. */
  function Imports(p: Project, f: Path): seq<Path> {
    if IsCode(f) && f in p.texts then ResolveAll(p, f, p.specifiers(p.texts[f])) else []
  }

  /** Everything a file imports exists. */
  lemma ImportsExist(p: Project, f: Path)
    ensures forall x :: x in Imports(p, f) ==> x in p.existing
  {
  }

  function CodeOnly(s: seq<Path>): (r: seq<Path>)
    ensures forall x :: x in r <==> x in s && IsCode(x)
  {
    if s == [] then []
    else CodeOnly(s[..|s| - 1]) + (if IsCode(s[|s| - 1]) then [s[|s| - 1]] else [])
  }

  predicate NoDup<T(==)>(s: seq<T>) {
    forall i, j :: 0 <= i < j < |s| ==> s[i] != s[j]
  }

  /** `x` is an import of one of the first `n` visited files. */
  ghost predicate ImportedWithin(p: Project, order: seq<Path>, n: int, x: Path) {
    exists j :: 0 <= j < n && j < |order| && x in Imports(p, order[j])
  }

  /**
    What `collectGraph(start)` computes: `order` starts at `start` (nothing
    for an empty start) and each later entry is a code file imported by an
    earlier one; every import of a visited file is in `files`, and a code
    import is visited too; and `files` holds only visited files and their
    imports.
   */
  ghost predicate IsGraphOf(p: Project, start: Path, files: set<Path>, order: seq<Path>) {
    && GraphStart(start, files, order)
    && WalkReach(p, order)
    && GraphClosed(p, files, order)
    && GraphSound(p, files, order)
  }

  ghost predicate GraphStart(start: Path, files: set<Path>, order: seq<Path>) {
    && (start != "" ==> |order| > 0 && order[0] == start)
    && (start == "" ==> files == {} && order == [])
    && (forall k :: 0 <= k < |order| ==> order[k] in files)
  }

  ghost predicate GraphClosed(p: Project, files: set<Path>, order: seq<Path>) {
    forall j, x :: 0 <= j < |order| && x in Imports(p, order[j]) ==> x in files && (IsCode(x) ==> x in order)
  }

  ghost predicate GraphSound(p: Project, files: set<Path>, order: seq<Path>) {
    forall x :: x in files ==> x in order || ImportedWithin(p, order, |order|, x)
  }

  /** Every file one walk visits, any other walk from the same start visits too. */
  lemma {:induction false} VisitedByBoth(p: Project, start: Path, f1: set<Path>, o1: seq<Path>, f2: set<Path>, o2: seq<Path>, k: nat)
    requires GraphStart(start, f1, o1) && WalkReach(p, o1)
    requires GraphStart(start, f2, o2) && GraphClosed(p, f2, o2)
    requires k < |o1|
    ensures o1[k] in o2
    decreases k
  {
    if k > 0 {
      var j :| 0 <= j < k && j < |o1| && o1[k] in Imports(p, o1[j]);
      VisitedByBoth(p, start, f1, o1, f2, o2, j);
      var i :| 0 <= i < |o2| && o2[i] == o1[j];
      assert o1[k] in Imports(p, o2[i]);
    }
  }

  lemma GraphFilesWithin(p: Project, start: Path, f1: set<Path>, o1: seq<Path>, f2: set<Path>, o2: seq<Path>)
    requires IsGraphOf(p, start, f1, o1) && IsGraphOf(p, start, f2, o2)
    ensures f1 <= f2
  {
    forall k | 0 <= k < |o1| ensures o1[k] in o2 {
      VisitedByBoth(p, start, f1, o1, f2, o2, k);
    }
    forall x | x in f1 ensures x in f2 {
      ImportsOfSharedVisit(p, f1, o1, f2, o2, x);
    }
  }

  lemma ImportsOfSharedVisit(p: Project, f1: set<Path>, o1: seq<Path>, f2: set<Path>, o2: seq<Path>, x: Path)
    requires GraphSound(p, f1, o1) && GraphClosed(p, f2, o2)
    requires forall k :: 0 <= k < |o1| ==> o1[k] in o2
    requires forall k :: 0 <= k < |o2| ==> o2[k] in f2
    requires x in f1
    ensures x in f2
  {
    if x in o1 {
      var k :| 0 <= k < |o1| && o1[k] == x;
      assert o1[k] in o2;
    } else {
      var j :| 0 <= j < |o1| && x in Imports(p, o1[j]);
      ClosedHoldsImports(p, f2, o2, o1[j], x);
    }
  }

  lemma ClosedHoldsImports(p: Project, files: set<Path>, order: seq<Path>, y: Path, x: Path)
    requires GraphClosed(p, files, order) && y in order && x in Imports(p, y)
    ensures x in files
  {
    var i :| 0 <= i < |order| && order[i] == y;
  }

  /** The set of files `collectGraph` returns does not depend on the order it walks in. */
  lemma GraphUnique(p: Project, start: Path, f1: set<Path>, o1: seq<Path>, f2: set<Path>, o2: seq<Path>)
    requires IsGraphOf(p, start, f1, o1) && IsGraphOf(p, start, f2, o2)
    ensures f1 == f2
  {
    GraphFilesWithin(p, start, f1, o1, f2, o2);
    GraphFilesWithin(p, start, f2, o2, f1, o1);
  }

  /** The walk's bookkeeping: `visited` is the set of `order`, and everything stays inside the project. */
  ghost predicate WalkShape(p: Project, start: Path, toVisit: seq<Path>, visited: set<Path>, files: set<Path>, order: seq<Path>) {
    && (forall x :: x in visited <==> x in order)
    && NoDup(order)
    && visited <= p.existing + {start}
    && (forall t :: t in toVisit ==> t in p.existing + {start})
    && (order == [] ==> toVisit == [start] || (toVisit == [] && start == ""))
    && (order != [] ==> order[0] == start && start != "")
    && (start == "" ==> order == [] && files == {})
    && visited <= files
  }

  /** Every visited path after the start is a code file imported by an earlier one. */
  ghost predicate WalkReach(p: Project, order: seq<Path>) {
    forall k :: 0 < k < |order| ==> IsCode(order[k]) && ImportedWithin(p, order, k, order[k])
  }

  /** Every stacked path other than the start is a code import of a visited file. */
  ghost predicate WalkStacked(p: Project, start: Path, toVisit: seq<Path>, order: seq<Path>) {
    forall t :: t in toVisit && t != start ==> IsCode(t) && ImportedWithin(p, order, |order|, t)
  }

  /** The imports of visited files are found, and the code ones visited or stacked. */
  ghost predicate WalkClosed(p: Project, toVisit: seq<Path>, visited: set<Path>, files: set<Path>, order: seq<Path>) {
    forall j, x :: 0 <= j < |order| && x in Imports(p, order[j]) ==> x in files && (IsCode(x) ==> x in visited || x in toVisit)
  }

  /** Every found path was visited or imported by a visited file. */
  ghost predicate WalkSound(p: Project, visited: set<Path>, files: set<Path>, order: seq<Path>) {
    forall x :: x in files ==> x in visited || ImportedWithin(p, order, |order|, x)
  }

  /** The state of the walk: what has been visited, found and stacked so far. */
  ghost predicate WalkInv(p: Project, start: Path, toVisit: seq<Path>, visited: set<Path>, files: set<Path>, order: seq<Path>) {
    && WalkShape(p, start, toVisit, visited, files, order)
    && WalkReach(p, order)
    && WalkStacked(p, start, toVisit, order)
    && WalkClosed(p, toVisit, visited, files, order)
    && WalkSound(p, visited, files, order)
  }

  /**
    `collectGraph(start)`: a depth-first walk with a stack and a visited set.
    `files` is the result set; `order` lists the visited files in the order
    they were first reached.
   */
  method CollectGraph(p: Project, start: Path) returns (files: set<Path>, order: seq<Path>)
    ensures NoDup(order)
    ensures IsGraphOf(p, start, files, order)
  {
    var toVisit := [start];
    var visited: set<Path> := {};
    files := {};
    order := [];
    while |toVisit| > 0
      invariant WalkInv(p, start, toVisit, visited, files, order)
      decreases |(p.existing + {start}) - visited|, |toVisit|
    {
      var file := toVisit[|toVisit| - 1];
      if file == "" || file in visited {
        SkipKeepsInv(p, start, toVisit, visited, files, order);
        toVisit := toVisit[..|toVisit| - 1];
      } else {
        var found := ScanImports(p, file);
        VisitKeepsInv(p, start, toVisit, visited, files, order);
        VisitShrinks(p.existing + {start}, visited, file);
        toVisit := toVisit[..|toVisit| - 1] + CodeOnly(found);
        visited := visited + {file};
        files := files + {file} + set x | x in found;
        order := order + [file];
      }
    }
    WalkDone(p, start, visited, files, order);
  }

  /** With the stack empty, the invariant gives the walk's result. */
  lemma WalkDone(p: Project, start: Path, visited: set<Path>, files: set<Path>, order: seq<Path>)
    requires WalkInv(p, start, [], visited, files, order)
    ensures NoDup(order)
    ensures IsGraphOf(p, start, files, order)
  {
    DoneStart(p, start, visited, files, order);
    DoneClosed(p, visited, files, order);
    DoneSound(p, visited, files, order);
  }

  lemma DoneStart(p: Project, start: Path, visited: set<Path>, files: set<Path>, order: seq<Path>)
    requires WalkShape(p, start, [], visited, files, order)
    ensures GraphStart(start, files, order)
  {
    assert forall k :: 0 <= k < |order| ==> order[k] in visited;
  }

  lemma DoneClosed(p: Project, visited: set<Path>, files: set<Path>, order: seq<Path>)
    requires WalkClosed(p, [], visited, files, order)
    requires forall x :: x in visited <==> x in order
    ensures GraphClosed(p, files, order)
  {
  }

  lemma DoneSound(p: Project, visited: set<Path>, files: set<Path>, order: seq<Path>)
    requires WalkSound(p, visited, files, order)
    requires forall x :: x in visited <==> x in order
    ensures GraphSound(p, files, order)
  {
  }

  /** The inner loop of `collectGraph`: resolve each specifier of a readable code file, skipping empty ones. */
  method ScanImports(p: Project, file: Path) returns (found: seq<Path>)
    ensures found == Imports(p, file)
  {
    found := [];
    if IsCode(file) && file in p.texts {
      var specs := p.specifiers(p.texts[file]);
      var k := 0;
      while k < |specs|
        invariant 0 <= k <= |specs|
        invariant found == ResolveAll(p, file, specs[..k])
      {
        assert specs[..k + 1][..k] == specs[..k];
        var spec := specs[k];
        if spec != "" {
          var resolved := ResolveImport(p, file, spec);
          if resolved.Some? {
            found := found + [resolved.value];
          }
        }
        k := k + 1;
      }
      assert specs[..k] == specs;
    }
  }

  lemma VisitShrinks(universe: set<Path>, visited: set<Path>, file: Path)
    requires file in universe && file !in visited
    ensures |universe - (visited + {file})| < |universe - visited|
  {
    assert universe - (visited + {file}) == (universe - visited) - {file};
  }

  /** Popping an empty or already visited path keeps the walk's invariant. */
  lemma SkipKeepsInv(p: Project, start: Path, toVisit: seq<Path>, visited: set<Path>, files: set<Path>, order: seq<Path>)
    requires WalkInv(p, start, toVisit, visited, files, order)
    requires |toVisit| > 0 && (toVisit[|toVisit| - 1] == "" || toVisit[|toVisit| - 1] in visited)
    ensures WalkInv(p, start, toVisit[..|toVisit| - 1], visited, files, order)
  {
    var rest := toVisit[..|toVisit| - 1];
    assert forall t :: t in rest ==> t in toVisit;
    SkipKeepsShape(p, start, toVisit, visited, files, order);
    SkipKeepsClosed(p, toVisit, visited, files, order);
  }

  lemma SkipKeepsShape(p: Project, start: Path, toVisit: seq<Path>, visited: set<Path>, files: set<Path>, order: seq<Path>)
    requires WalkShape(p, start, toVisit, visited, files, order)
    requires |toVisit| > 0 && (toVisit[|toVisit| - 1] == "" || toVisit[|toVisit| - 1] in visited)
    ensures WalkShape(p, start, toVisit[..|toVisit| - 1], visited, files, order)
  {
    assert forall t :: t in toVisit[..|toVisit| - 1] ==> t in toVisit;
  }

  lemma SkipKeepsClosed(p: Project, toVisit: seq<Path>, visited: set<Path>, files: set<Path>, order: seq<Path>)
    requires WalkClosed(p, toVisit, visited, files, order)
    requires |toVisit| > 0 && (toVisit[|toVisit| - 1] == "" || toVisit[|toVisit| - 1] in visited)
    ensures WalkClosed(p, toVisit[..|toVisit| - 1], visited, files, order)
  {
    var file := toVisit[|toVisit| - 1];
    var rest := toVisit[..|toVisit| - 1];
    assert toVisit == rest + [file];
    assert !IsCode("");
  }

  /** Visiting a new path and stacking its code imports keeps the walk's invariant. */
  lemma VisitKeepsInv(p: Project, start: Path, toVisit: seq<Path>, visited: set<Path>, files: set<Path>, order: seq<Path>)
    requires WalkInv(p, start, toVisit, visited, files, order)
    requires |toVisit| > 0 && toVisit[|toVisit| - 1] != "" && toVisit[|toVisit| - 1] !in visited
    ensures var file := toVisit[|toVisit| - 1];
            WalkInv(p, start, toVisit[..|toVisit| - 1] + CodeOnly(Imports(p, file)), visited + {file},
                    files + {file} + (set x | x in Imports(p, file)), order + [file])
  {
    var file := toVisit[|toVisit| - 1];
    assert order != [] ==> start == order[0] && start in order;
    VisitKeepsShape(p, start, toVisit, visited, files, order);
    VisitKeepsReach(p, start, toVisit, order);
    VisitKeepsStacked(p, start, toVisit, order);
    VisitKeepsClosed(p, toVisit, visited, files, order);
    VisitKeepsSound(p, visited, files, order, file);
  }

  lemma VisitKeepsShape(p: Project, start: Path, toVisit: seq<Path>, visited: set<Path>, files: set<Path>, order: seq<Path>)
    requires WalkShape(p, start, toVisit, visited, files, order)
    requires |toVisit| > 0 && toVisit[|toVisit| - 1] != "" && toVisit[|toVisit| - 1] !in visited
    ensures var file := toVisit[|toVisit| - 1];
            WalkShape(p, start, toVisit[..|toVisit| - 1] + CodeOnly(Imports(p, file)), visited + {file},
                      files + {file} + (set x | x in Imports(p, file)), order + [file])
  {
    var file := toVisit[|toVisit| - 1];
    var order' := order + [file];
    assert file in toVisit;
    assert forall t :: t in toVisit[..|toVisit| - 1] ==> t in toVisit;
    assert forall x :: x in order' <==> x in order || x == file;
    assert order == [] ==> file == start;
    ImportsExist(p, file);
    forall i, j | 0 <= i < j < |order'| ensures order'[i] != order'[j] {
      if j < |order| {
        assert order'[i] == order[i] && order'[j] == order[j];
      } else {
        assert order'[i] == order[i] && order[i] in visited;
      }
    }
  }

  lemma VisitKeepsReach(p: Project, start: Path, toVisit: seq<Path>, order: seq<Path>)
    requires WalkReach(p, order) && WalkStacked(p, start, toVisit, order)
    requires |toVisit| > 0
    requires order == [] ==> toVisit == [start]
    requires order != [] ==> start in order && toVisit[|toVisit| - 1] !in order
    ensures WalkReach(p, order + [toVisit[|toVisit| - 1]])
  {
    var file := toVisit[|toVisit| - 1];
    var order' := order + [file];
    assert file in toVisit;
    ExtendImportedWithin(p, order, file);
    forall k | 0 < k < |order'| ensures IsCode(order'[k]) && ImportedWithin(p, order', k, order'[k]) {
      if k < |order| {
        assert order'[k] == order[k];
      } else {
        assert file != start;
      }
    }
  }

  lemma VisitKeepsStacked(p: Project, start: Path, toVisit: seq<Path>, order: seq<Path>)
    requires WalkStacked(p, start, toVisit, order)
    requires |toVisit| > 0
    ensures var file := toVisit[|toVisit| - 1];
            WalkStacked(p, start, toVisit[..|toVisit| - 1] + CodeOnly(Imports(p, file)), order + [file])
  {
    var file := toVisit[|toVisit| - 1];
    var order' := order + [file];
    var toVisit' := toVisit[..|toVisit| - 1] + CodeOnly(Imports(p, file));
    ExtendImportedWithin(p, order, file);
    forall t | t in toVisit' && t != start ensures IsCode(t) && ImportedWithin(p, order', |order'|, t) {
      if t in toVisit[..|toVisit| - 1] {
        assert t in toVisit;
      } else {
        assert t in Imports(p, order'[|order|]);
      }
    }
  }

  lemma VisitKeepsClosed(p: Project, toVisit: seq<Path>, visited: set<Path>, files: set<Path>, order: seq<Path>)
    requires WalkClosed(p, toVisit, visited, files, order)
    requires |toVisit| > 0
    ensures var file := toVisit[|toVisit| - 1];
            WalkClosed(p, toVisit[..|toVisit| - 1] + CodeOnly(Imports(p, file)), visited + {file},
                       files + {file} + (set x | x in Imports(p, file)), order + [file])
  {
    var file := toVisit[|toVisit| - 1];
    var rest := toVisit[..|toVisit| - 1];
    var order' := order + [file];
    assert toVisit == rest + [file];
    forall j, x | 0 <= j < |order'| && x in Imports(p, order'[j])
      ensures x in files + {file} + (set y | y in Imports(p, file))
      ensures IsCode(x) ==> x in visited + {file} || x in rest + CodeOnly(Imports(p, file))
    {
      if j < |order| {
        assert order'[j] == order[j];
      }
    }
  }

  lemma VisitKeepsSound(p: Project, visited: set<Path>, files: set<Path>, order: seq<Path>, file: Path)
    requires WalkSound(p, visited, files, order)
    ensures WalkSound(p, visited + {file}, files + {file} + (set x | x in Imports(p, file)), order + [file])
  {
    var order' := order + [file];
    ExtendImportedWithin(p, order, file);
    forall x | x in Imports(p, file) ensures ImportedWithin(p, order', |order'|, x) {
      assert x in Imports(p, order'[|order|]);
    }
  }

  /** Imports of the first files stay imports of a longer visit order. */
  lemma ExtendImportedWithin(p: Project, order: seq<Path>, file: Path)
    ensures forall x, n :: 0 <= n <= |order| && ImportedWithin(p, order, n, x) ==>
              ImportedWithin(p, order + [file], n, x) && ImportedWithin(p, order + [file], |order| + 1, x)
  {
    forall x, n | 0 <= n <= |order| && ImportedWithin(p, order, n, x)
      ensures ImportedWithin(p, order + [file], n, x) && ImportedWithin(p, order + [file], |order| + 1, x)
    {
      var j :| 0 <= j < n && j < |order| && x in Imports(p, order[j]);
      assert (order + [file])[j] == order[j];
    }
  }
}
