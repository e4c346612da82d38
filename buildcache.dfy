/**
  The incremental-build decisions of the main block of
  scripts/build-apps.mjs, around the cache kept in `dist/.build-cache.json`:
  whether to rebuild the server, which pages to rebuild, which templates to
  copy, and which stale outputs to prune. The hashes, the `--changed` and
  `--skip-server` flags, and which files exist are inputs; the builds and
  copies themselves are left to the caller.
 */
module BuildCache {
  import opened Options
  import opened Discovery
  import opened Templates

  /** The cache contents the decisions read and write. */
  datatype CacheState = CacheState(server: Option<string>, pages: map<string, string>, templates: map<string, string>)

  /** `.build-cache.json` as parsed; each part may be missing from the file. */
  datatype StoredCache = StoredCache(server: Option<string>, pages: Option<map<string, string>>, templates: Option<map<string, string>>)

  /** Everything one run decides from, besides the cache. */
  datatype RunInputs = RunInputs(
    onlyChanged: bool,              // --changed
    skipServer: bool,               // --skip-server
    serverHash: string,             // computeServerHash()
    allEntries: seq<Entry>,         // every discovered page
    entries: seq<Entry>,            // the pages --pages selects
    htmlExisting: set<Path>,        // the page index.html files that exist
    pageHash: string -> string,     // computePageHash(name)
    distHtml: set<string>,          // the names whose dist/<name>.html exists
    templateRels: seq<string>,      // files under src/client/pages, relative
    templateHash: string -> string) // hashFiles([file]) per relative path

  /** What one run decides. */
  datatype Decisions = Decisions(
    buildServer: bool,
    pagesToBuild: seq<Entry>,
    templatesCopied: seq<string>,
    removedPages: set<string>,
    removedTemplates: set<string>)

  /** `loadCache()` plus the `|| {}` defaults: an unreadable file gives an empty cache. */
  function Loaded(stored: Option<StoredCache>): (s: CacheState)
    ensures stored.None? ==> s == CacheState(Some(""), map[], map[])
    ensures stored.Some? ==> s.server == stored.value.server
    ensures stored.Some? && stored.value.pages.Some? ==> s.pages == stored.value.pages.value
    ensures stored.Some? && stored.value.pages.None? ==> s.pages == map[]
    ensures stored.Some? && stored.value.templates.Some? ==> s.templates == stored.value.templates.value
    ensures stored.Some? && stored.value.templates.None? ==> s.templates == map[]
  {
    match stored
    case None => CacheState(Some(""), map[], map[])
    case Some(c) =>
      CacheState(c.server,
                 if c.pages.Some? then c.pages.value else map[],
                 if c.templates.Some? then c.templates.value else map[])
  }

  /** `prev && prev === newHash && existsSync(dest)`: the recorded hash is non-empty, current, and the output exists. */
  predicate UpToDate(m: map<string, string>, key: string, newHash: string, outputExists: bool) {
    key in m && m[key] != "" && m[key] == newHash && outputExists
  }

  /** The server decision: rebuild unless skipped, or unless `--changed` and the hash is unchanged. */
  function ServerStep(s: CacheState, inp: RunInputs): (r: (bool, CacheState))
    ensures r.1.pages == s.pages && r.1.templates == s.templates
    ensures r.0 <==> !inp.skipServer && (!inp.onlyChanged || s.server != Some(inp.serverHash))
    ensures r.1.server == if r.0 then Some(inp.serverHash) else s.server
  {
    if !inp.skipServer && (!inp.onlyChanged || s.server != Some(inp.serverHash)) then
      (true, s.(server := Some(inp.serverHash)))
    else (false, s)
  }

  /** A page is built only when its own `index.html` exists, or it has none and uses the shared template. */
  predicate HtmlPresent(e: Entry, inp: RunInputs) {
    e.html.None? || e.html.value in inp.htmlExisting
  }

  /** The page decisions over `entries`, in order, and the page hashes they record. */
  function PagePlan(pages: map<string, string>, entries: seq<Entry>, inp: RunInputs): (seq<Entry>, map<string, string>)
  {
    if entries == [] then ([], pages)
    else
      var (built, p) := PagePlan(pages, entries[..|entries| - 1], inp);
      var e := entries[|entries| - 1];
      if !HtmlPresent(e, inp) then (built, p)
      else if inp.onlyChanged && UpToDate(p, e.name, inp.pageHash(e.name), e.name in inp.distHtml) then (built, p)
      else (built + [e], if inp.onlyChanged then p[e.name := inp.pageHash(e.name)] else p)
  }

  /** The extra HTML files among the walked ones, in walk order. */
  function ExtraHtmls(walked: seq<string>): (r: seq<string>)
    ensures forall f :: f in r <==> f in walked && IsExtraHtml(f)
  {
    if walked == [] then []
    else (if IsExtraHtml(walked[0]) then [walked[0]] else []) + ExtraHtmls(walked[1..])
  }

  function NamesOf(entries: seq<Entry>): set<string> {
    set e | e in entries :: e.name
  }

  /** The template naming of a run, given the discovered page names. */
  function DestNames(pageNames: set<string>): string -> Option<string> {
    rel => TemplateDestName(rel, pageNames)
  }

  /** `currentTemplateKeys`: the names the templates are copied under. */
  function TemplateKeys(rels: seq<string>, dest: string -> Option<string>): set<string> {
    set rel | rel in rels && dest(rel).Some? :: dest(rel).value
  }

  /** The template decisions over `rels`, in order, and the template hashes they record. */
  function TemplatePlan(templates: map<string, string>, rels: seq<string>, dest: string -> Option<string>, inp: RunInputs): (seq<string>, map<string, string>)
  {
    if rels == [] then ([], templates)
    else
      var (copied, t) := TemplatePlan(templates, rels[..|rels| - 1], dest, inp);
      var rel := rels[|rels| - 1];
      match dest(rel)
      case None => (copied, t)
      case Some(key) =>
        var h := inp.templateHash(rel);
        if inp.onlyChanged && UpToDate(t, key, h, key in inp.distHtml) then (copied, t)
        else (copied + [key], t[key := h])
  }

  /** The entries of `m` whose key is kept; the rest are deleted. */
  function Restrict(m: map<string, string>, keep: set<string>): (r: map<string, string>)
    ensures forall k :: k in r <==> k in m && k in keep
    ensures forall k :: k in r ==> r[k] == m[k]
  {
    map k | k in m && k in keep :: m[k]
  }

  /** One whole run: server, pages, templates, then pruning. */
  function Run(s: CacheState, inp: RunInputs): (Decisions, CacheState) {
    var (buildServer, s1) := ServerStep(s, inp);
    var (pagesToBuild, pages2) := PagePlan(s1.pages, inp.entries, inp);
    var pageNames := NamesOf(inp.allEntries);
    var rels := ExtraHtmls(inp.templateRels);
    var (copied, templates2) := TemplatePlan(s1.templates, rels, DestNames(pageNames), inp);
    var keys := TemplateKeys(rels, DestNames(pageNames));
    (Decisions(buildServer, pagesToBuild, copied, pages2.Keys - pageNames, templates2.Keys - keys),
     CacheState(s1.server, Restrict(pages2, pageNames), Restrict(templates2, keys)))
  }

  // ---- Properties of the decisions ----

  /**
    Planning pages builds only listed pages whose HTML is present, writes
    only the keys of listed pages, and writes nothing at all without
    `--changed`.
   */
  lemma {:induction false} PagePlanFrame(pages: map<string, string>, entries: seq<Entry>, inp: RunInputs)
    ensures forall e :: e in PagePlan(pages, entries, inp).0 ==> e in entries && HtmlPresent(e, inp)
    ensures forall k :: k !in NamesOf(entries) ==>
      (k in PagePlan(pages, entries, inp).1 <==> k in pages) &&
      (k in pages ==> PagePlan(pages, entries, inp).1[k] == pages[k])
    ensures !inp.onlyChanged ==> PagePlan(pages, entries, inp).1 == pages
  {
    if entries != [] {
      var init := entries[..|entries| - 1];
      PagePlanFrame(pages, init, inp);
      assert forall e :: e in init ==> e in entries;
      assert NamesOf(init) <= NamesOf(entries);
      assert entries[|entries| - 1].name in NamesOf(entries);
    }
  }

  /** Without `--changed`, every listed page whose HTML is present is built, in order. */
  lemma {:induction false} PagePlanBuildsAll(pages: map<string, string>, entries: seq<Entry>, inp: RunInputs)
    requires !inp.onlyChanged
    ensures forall e :: e in entries && HtmlPresent(e, inp) ==> e in PagePlan(pages, entries, inp).0
  {
    if entries != [] {
      PagePlanBuildsAll(pages, entries[..|entries| - 1], inp);
      assert forall e :: e in entries ==> e in entries[..|entries| - 1] || e == entries[|entries| - 1];
    }
  }

  /** Under `--changed`, every listed page whose HTML is present ends with its new hash recorded. */
  lemma {:induction false} PagePlanRecords(pages: map<string, string>, entries: seq<Entry>, inp: RunInputs)
    requires inp.onlyChanged
    ensures forall e :: e in entries && HtmlPresent(e, inp) ==>
      e.name in PagePlan(pages, entries, inp).1 && PagePlan(pages, entries, inp).1[e.name] == inp.pageHash(e.name)
  {
    if entries != [] {
      PagePlanRecords(pages, entries[..|entries| - 1], inp);
      assert forall e :: e in entries ==> e in entries[..|entries| - 1] || e == entries[|entries| - 1];
    }
  }

  /** When every listed page is up to date, nothing is built and nothing is recorded. */
  lemma {:induction false} PagePlanAllUpToDate(pages: map<string, string>, entries: seq<Entry>, inp: RunInputs)
    requires inp.onlyChanged
    requires forall e :: e in entries && HtmlPresent(e, inp) ==> UpToDate(pages, e.name, inp.pageHash(e.name), e.name in inp.distHtml)
    ensures PagePlan(pages, entries, inp) == ([], pages)
  {
    if entries != [] {
      assert forall e :: e in entries[..|entries| - 1] ==> e in entries;
      PagePlanAllUpToDate(pages, entries[..|entries| - 1], inp);
      assert entries[|entries| - 1] in entries;
    }
  }

  /** Under `--changed`, every template copied or skipped ends with its hash recorded, when names do not collide. */
  lemma {:induction false} TemplatePlanRecords(templates: map<string, string>, rels: seq<string>, dest: string -> Option<string>, inp: RunInputs)
    requires inp.onlyChanged
    requires forall r1, r2 :: r1 in rels && r2 in rels && dest(r1) == dest(r2) ==> inp.templateHash(r1) == inp.templateHash(r2)
    ensures forall rel :: rel in rels && dest(rel).Some? ==>
      dest(rel).value in TemplatePlan(templates, rels, dest, inp).1 &&
      TemplatePlan(templates, rels, dest, inp).1[dest(rel).value] == inp.templateHash(rel)
  {
    if rels != [] {
      var init := rels[..|rels| - 1];
      assert forall r :: r in init ==> r in rels;
      TemplatePlanRecords(templates, init, dest, inp);
      assert forall r :: r in rels ==> r in init || r == rels[|rels| - 1];
    }
  }

  /** Template planning writes only the keys of the templates it sees. */
  lemma {:induction false} TemplatePlanKeys(templates: map<string, string>, rels: seq<string>, dest: string -> Option<string>, inp: RunInputs)
    ensures TemplatePlan(templates, rels, dest, inp).1.Keys <= templates.Keys + TemplateKeys(rels, dest)
    ensures forall k :: k in templates && k !in TemplateKeys(rels, dest) ==>
      k in TemplatePlan(templates, rels, dest, inp).1 && TemplatePlan(templates, rels, dest, inp).1[k] == templates[k]
  {
    if rels != [] {
      var init := rels[..|rels| - 1];
      TemplatePlanKeys(templates, init, dest, inp);
      assert TemplateKeys(init, dest) <= TemplateKeys(rels, dest) by {
        forall key | key in TemplateKeys(init, dest) ensures key in TemplateKeys(rels, dest) {
          var rel :| rel in init && dest(rel).Some? && dest(rel).value == key;
          assert rel in rels;
        }
      }
      var rel := rels[|rels| - 1];
      if dest(rel).Some? {
        assert dest(rel).value in TemplateKeys(rels, dest);
      }
    }
  }

  /** When every template is up to date, nothing is copied and nothing is recorded. */
  lemma {:induction false} TemplatePlanAllUpToDate(templates: map<string, string>, rels: seq<string>, dest: string -> Option<string>, inp: RunInputs)
    requires inp.onlyChanged
    requires forall rel :: rel in rels && dest(rel).Some? ==>
      UpToDate(templates, dest(rel).value, inp.templateHash(rel), dest(rel).value in inp.distHtml)
    ensures TemplatePlan(templates, rels, dest, inp) == ([], templates)
  {
    if rels != [] {
      assert forall r :: r in rels[..|rels| - 1] ==> r in rels;
      TemplatePlanAllUpToDate(templates, rels[..|rels| - 1], dest, inp);
      assert rels[|rels| - 1] in rels;
    }
  }

  /** Deciding one key of a pruning loop: drop it unless kept. */
  lemma RestrictStep(m: map<string, string>, keep: set<string>, keys: set<string>, k: string)
    requires k in keys
    ensures k !in keep ==> Restrict(m, keep + keys) - {k} == Restrict(m, keep + (keys - {k}))
    ensures k in keep ==> Restrict(m, keep + keys) == Restrict(m, keep + (keys - {k}))
  {
    assert k in keep ==> keep + keys == keep + (keys - {k});
  }

  /** The same step for the set of removed keys. */
  lemma RemovedStep(all: set<string>, keep: set<string>, keys: set<string>, removed: set<string>, k: string)
    requires k in keys && keys <= all && removed == (all - keys) - keep
    ensures k !in keep ==> removed + {k} == (all - (keys - {k})) - keep
    ensures k in keep ==> removed == (all - (keys - {k})) - keep
  {
  }

  lemma TemplateKeysStep(rels: seq<string>, i: nat, dest: string -> Option<string>)
    requires i < |rels|
    ensures TemplateKeys(rels[..i + 1], dest) ==
      TemplateKeys(rels[..i], dest) + (if dest(rels[i]).Some? then {dest(rels[i]).value} else {})
  {
    assert forall r :: r in rels[..i + 1] <==> r in rels[..i] || r == rels[i];
  }

  /** Pruning twice prunes nothing more. */
  lemma RestrictIdempotent(m: map<string, string>, keep: set<string>)
    ensures Restrict(Restrict(m, keep), keep) == Restrict(m, keep)
  {
  }

  /** After a run, the cache holds only current pages and current templates. */
  lemma RunPrunes(s: CacheState, inp: RunInputs)
    ensures Run(s, inp).1.pages.Keys <= NamesOf(inp.allEntries)
    ensures Run(s, inp).1.templates.Keys <= TemplateKeys(ExtraHtmls(inp.templateRels), DestNames(NamesOf(inp.allEntries)))
  {
  }

  /**
    The point of `--changed`: once a run has recorded the hashes, an
    identical second run builds and copies nothing, removes nothing, and
    leaves the cache as it was. This needs non-empty hashes (SHA-1 hex
    digests are), the outputs of the first run in `dist`, selected pages
    among the discovered ones, and templates whose names do not collide.
   */
  lemma SecondRunIsNoOp(s: CacheState, inp: RunInputs)
    requires inp.onlyChanged
    requires inp.serverHash != ""
    requires forall e :: e in inp.entries ==> e in inp.allEntries && inp.pageHash(e.name) != "" && e.name in inp.distHtml
    requires var dest := DestNames(NamesOf(inp.allEntries));
      forall rel :: rel in inp.templateRels && dest(rel).Some? ==> inp.templateHash(rel) != "" && dest(rel).value in inp.distHtml
    requires var dest := DestNames(NamesOf(inp.allEntries));
      forall r1, r2 :: r1 in inp.templateRels && r2 in inp.templateRels && dest(r1) == dest(r2) ==> inp.templateHash(r1) == inp.templateHash(r2)
    ensures var s1 := Run(s, inp).1;
      && !Run(s1, inp).0.buildServer
      && Run(s1, inp).0.pagesToBuild == []
      && Run(s1, inp).0.templatesCopied == []
      && Run(s1, inp).0.removedPages == {}
      && Run(s1, inp).0.removedTemplates == {}
      && Run(s1, inp).1 == s1
  {
    var pageNames := NamesOf(inp.allEntries);
    var rels := ExtraHtmls(inp.templateRels);
    var dest := DestNames(pageNames);
    var keys := TemplateKeys(rels, dest);
    var (_, a1) := ServerStep(s, inp);
    var (_, pages2) := PagePlan(a1.pages, inp.entries, inp);
    var (_, templates2) := TemplatePlan(a1.templates, rels, dest, inp);
    var s1 := Run(s, inp).1;
    assert s1 == CacheState(a1.server, Restrict(pages2, pageNames), Restrict(templates2, keys));

    // The server hash is recorded, so the server is not rebuilt.
    assert inp.skipServer || s1.server == Some(inp.serverHash);
    var (b2, a2) := ServerStep(s1, inp);
    assert !b2 && a2 == s1;

    // Every selected page is up to date.
    PagePlanRecords(a1.pages, inp.entries, inp);
    forall e | e in inp.entries && HtmlPresent(e, inp)
      ensures UpToDate(s1.pages, e.name, inp.pageHash(e.name), e.name in inp.distHtml)
    {
      assert e.name in pageNames;
    }
    PagePlanAllUpToDate(s1.pages, inp.entries, inp);

    // Every template is up to date.
    assert forall r :: r in rels ==> r in inp.templateRels;
    TemplatePlanRecords(a1.templates, rels, dest, inp);
    forall rel | rel in rels && dest(rel).Some?
      ensures UpToDate(s1.templates, dest(rel).value, inp.templateHash(rel), dest(rel).value in inp.distHtml)
    {
      assert dest(rel).value in keys;
    }
    TemplatePlanAllUpToDate(s1.templates, rels, dest, inp);
    RestrictIdempotent(pages2, pageNames);
    RestrictIdempotent(templates2, keys);
  }

  /** The cache object the main block mutates. */
  class Cache {
    var server: Option<string>
    var pages: map<string, string>
    var templates: map<string, string>

    function State(): CacheState
      reads this
    {
      CacheState(server, pages, templates)
    }

    /** `loadCache()` and the `|| {}` defaults. */
    constructor Load(stored: Option<StoredCache>)
      ensures State() == Loaded(stored)
    {
      if stored.None? {
        server, pages, templates := Some(""), map[], map[];
      } else {
        server := stored.value.server;
        pages := if stored.value.pages.Some? then stored.value.pages.value else map[];
        templates := if stored.value.templates.Some? then stored.value.templates.value else map[];
      }
    }

    /** The server decision and its cache update. */
    method DecideServer(inp: RunInputs) returns (build: bool)
      modifies this
      ensures (build, State()) == ServerStep(old(State()), inp)
    {
      build := false;
      if !inp.skipServer {
        var hasServerChanged := server != Some(inp.serverHash);
        if !inp.onlyChanged || hasServerChanged {
          build := true;
          server := Some(inp.serverHash);
        }
      }
    }

    /** One page: `shouldBuild`, and under `--changed` the recorded hash when it is built. */
    method DecidePage(e: Entry, inp: RunInputs) returns (shouldBuild: bool)
      requires HtmlPresent(e, inp)
      modifies this
      ensures shouldBuild <==> !(inp.onlyChanged && UpToDate(old(pages), e.name, inp.pageHash(e.name), e.name in inp.distHtml))
      ensures pages == if inp.onlyChanged && shouldBuild then old(pages)[e.name := inp.pageHash(e.name)] else old(pages)
      ensures server == old(server) && templates == old(templates)
    {
      shouldBuild := true;
      if inp.onlyChanged {
        var newHash := inp.pageHash(e.name);
        if UpToDate(pages, e.name, newHash, e.name in inp.distHtml) {
          shouldBuild := false;
        } else {
          pages := pages[e.name := newHash];
        }
      }
    }

    /** The page loop: skip pages whose HTML is missing, decide the rest. */
    method PlanPages(inp: RunInputs) returns (pagesToBuild: seq<Entry>)
      modifies this
      ensures (pagesToBuild, pages) == PagePlan(old(pages), inp.entries, inp)
      ensures server == old(server) && templates == old(templates)
    {
      pagesToBuild := [];
      var i := 0;
      while i < |inp.entries|
        invariant 0 <= i <= |inp.entries|
        invariant (pagesToBuild, pages) == PagePlan(old(pages), inp.entries[..i], inp)
        invariant server == old(server) && templates == old(templates)
      {
        assert inp.entries[..i + 1][..i] == inp.entries[..i];
        var e := inp.entries[i];
        if HtmlPresent(e, inp) {
          var shouldBuild := DecidePage(e, inp);
          if shouldBuild {
            pagesToBuild := pagesToBuild + [e];
          }
        }
        i := i + 1;
      }
      assert inp.entries[..i] == inp.entries;
    }

    /** The template loop: name each extra HTML file with `dest` and decide whether to copy it. */
    method PlanTemplates(inp: RunInputs, rels: seq<string>, dest: string -> Option<string>) returns (copied: seq<string>, currentKeys: set<string>)
      modifies this
      ensures (copied, templates) == TemplatePlan(old(templates), rels, dest, inp)
      ensures currentKeys == TemplateKeys(rels, dest)
      ensures server == old(server) && pages == old(pages)
    {
      copied, currentKeys := [], {};
      var i := 0;
      while i < |rels|
        invariant 0 <= i <= |rels|
        invariant (copied, templates) == TemplatePlan(old(templates), rels[..i], dest, inp)
        invariant currentKeys == TemplateKeys(rels[..i], dest)
        invariant server == old(server) && pages == old(pages)
      {
        assert rels[..i + 1][..i] == rels[..i];
        TemplateKeysStep(rels, i, dest);
        var rel := rels[i];
        var name := dest(rel);
        if name.Some? {
          var key := name.value;
          currentKeys := currentKeys + {key};
          var fileHash := inp.templateHash(rel);
          var shouldCopy := true;
          if inp.onlyChanged && UpToDate(templates, key, fileHash, key in inp.distHtml) {
            shouldCopy := false;
          }
          if shouldCopy {
            templates := templates[key := fileHash];
            copied := copied + [key];
          }
        }
        i := i + 1;
      }
      assert rels[..i] == rels;
    }

    /** The first clean-up loop: drop the cache entries of deleted pages. */
    method PrunePages(pageNames: set<string>) returns (removed: set<string>)
      modifies this
      ensures pages == Restrict(old(pages), pageNames) && removed == old(pages).Keys - pageNames
      ensures server == old(server) && templates == old(templates)
    {
      removed := {};
      var before, entries := pages, pages;
      var keys := pages.Keys;
      while keys != {}
        invariant keys <= before.Keys
        invariant entries == Restrict(before, pageNames + keys)
        invariant removed == (before.Keys - keys) - pageNames
        modifies {}
        decreases |keys|
      {
        var name :| name in keys;
        RestrictStep(before, pageNames, keys, name);
        RemovedStep(before.Keys, pageNames, keys, removed, name);
        if name !in pageNames {
          entries := entries - {name};
          removed := removed + {name};
        }
        keys := keys - {name};
      }
      assert pageNames + keys == pageNames;
      pages := entries;
    }

    /** The second clean-up loop: drop the cache entries of deleted templates. */
    method PruneTemplates(currentKeys: set<string>) returns (removed: set<string>)
      modifies this
      ensures templates == Restrict(old(templates), currentKeys) && removed == old(templates).Keys - currentKeys
      ensures server == old(server) && pages == old(pages)
    {
      removed := {};
      var before, entries := templates, templates;
      var keys := templates.Keys;
      while keys != {}
        invariant keys <= before.Keys
        invariant entries == Restrict(before, currentKeys + keys)
        invariant removed == (before.Keys - keys) - currentKeys
        modifies {}
        decreases |keys|
      {
        var key :| key in keys;
        RestrictStep(before, currentKeys, keys, key);
        RemovedStep(before.Keys, currentKeys, keys, removed, key);
        if key !in currentKeys {
          entries := entries - {key};
          removed := removed + {key};
        }
        keys := keys - {key};
      }
      assert currentKeys + keys == currentKeys;
      templates := entries;
    }

    /** The main block's decisions in order: server, pages, templates, pruning. */
    method RunDecisions(inp: RunInputs) returns (d: Decisions)
      modifies this
      ensures (d, State()) == Run(old(State()), inp)
    {
      var buildServer := DecideServer(inp);
      var pagesToBuild := PlanPages(inp);
      var pageNames := NamesOf(inp.allEntries);
      var copied, currentKeys := PlanTemplates(inp, ExtraHtmls(inp.templateRels), DestNames(pageNames));
      var removedPages := PrunePages(pageNames);
      var removedTemplates := PruneTemplates(currentKeys);
      d := Decisions(buildServer, pagesToBuild, copied, removedPages, removedTemplates);
    }
  }
}
