# Apps Script build and sheet reader, modelled in Dafny

This project models two parts of a Google Apps Script web-app template.

**The build script `scripts/build-apps.mjs`** produces `dist/` for Apps Script. The model covers the decisions and text processing it makes:

- It discovers the pages under `src/client/pages` (`discoverEntries`). It reads `--pages`, `--changed` and `--skip-server` (`getArgVal`), and chooses the default page of the generated `doGet`.
- It cuts the body of the bundled server code out of its self-invoking wrapper. There are three tiers: a syntax-tree tier (an input here), a brace-matching scanner (`extractByBraces`), and a "use strict" / `})()` heuristic. The publish-to-global loop is then truncated.
- It hashes the files a page or the server is built from (`hashFiles`, `computePageHash`, `computeServerHash`). This includes the import graph of a page (`resolveImport`, `collectGraph`).
- It decides from `.build-cache.json` what to rebuild. It names and copies the extra HTML templates, then prunes the cache entries of deleted pages and templates.

**`sheetToJsonFromName` in `src/server/sheets.ts`** turns a sheet into row objects:

- Header cells are camel-cased (`toCamelCase`) and deduplicated with `_1`, `_2`, … suffixes.
- Every row below the header that has a non-empty cell becomes an object, when some value in it is non-blank. `emptyAsNull`, display values and date formatting are handled on the way.

Each imperative part of the source is a method proved against a specification function:

- the brace scanner loop;
- the graph walk;
- the header-counting `map`;
- the row and column loops;
- the cache object's updates and deletions, as class `BuildCache.Cache`.

Lemmas then state what the source promises of those functions.

Files and modules:

| file | module | models |
|---|---|---|
| `options.dfy` | `Options` | `Option` |
| `jsstring.dfy` | `JsString` | the JavaScript string built-ins the source uses (`indexOf`, `lastIndexOf`, `trim`, `split`, `join`, ASCII case) |
| `sorting.dfy` | `Sorting` | `Array.prototype.sort` by a string key, as a stable insertion sort |
| `buildoptions.dfy` | `BuildOptions` | `getArgVal`, the `--pages` filter, the default page and the generated `doGet` routing |
| `discovery.dfy` | `Discovery` | `discoverEntries` |
| `serverbundle.dfy` | `ServerBundle` | `extractByBraces`, the heuristic tier, the tier order and the publish-loop truncation |
| `importgraph.dfy` | `ImportGraph` | `resolveImport` and `collectGraph` |
| `contenthash.dfy` | `ContentHash` | `hashFiles`, `computePageHash`, `computeServerHash` |
| `templates.dfy` | `Templates` | which HTML files are templates and the name each is copied under |
| `buildcache.dfy` | `BuildCache` | `loadCache`, the server/page/template decisions and the cache pruning |
| `camelcase.dfy` | `CamelCase` | `toCamelCase` |
| `headerdedup.dfy` | `HeaderDedup` | the `seen`-based header suffixing |
| `sheetrows.dfy` | `SheetRows` | `sheetToJsonFromName` |

## Model

| member | source | states |
|---|---|---|
| BuildOptions.GetArgVal | scripts/build-apps.mjs:20-24 | The result is None exactly when no argument starts with `key=`. Otherwise it is the text after `key=` in the first argument that starts so. |
| BuildOptions.GetArgValRoundTrip | scripts/build-apps.mjs:20-24 | An argument `key=v` placed first is read back as `v`. |
| BuildOptions.AllowListMeaning | scripts/build-apps.mjs:603-608 | A name is allowed iff it is non-empty and equals some trimmed comma-separated part of `--pages`. |
| BuildOptions.SelectPagesMeaning | scripts/build-apps.mjs:601-610 | With no or an empty `--pages`, every discovered entry is kept. Otherwise an entry is kept iff it was discovered and its name is allowed. |
| BuildOptions.KeepAllowedIdempotent | scripts/build-apps.mjs:609 | Filtering by the allow-list twice gives the same entries as once. |
| BuildOptions.DefaultPage | scripts/build-apps.mjs:300 | The default page is `home` or the first page name. |
| BuildOptions.DefaultPageChoice | scripts/build-apps.mjs:300 | It is `home` when `home` is a page. Otherwise it is the first page when that name is non-empty, and `home` when there are no pages. It is always a page when page names are non-empty and there is at least one. |
| BuildOptions.Route | scripts/build-apps.mjs:302-304 | The generated `doGet` serves a known page or the default page. |
| BuildOptions.RouteChoice | scripts/build-apps.mjs:302-304 | A `page` parameter that names a known page once trimmed is served. A missing, empty or unknown parameter gets the default page. |
| Discovery.Classify | scripts/build-apps.mjs:35-51 | Only directories become pages. A page carries its `index.html` when that can be stat'ed. It has no HTML when only `App.tsx` can be stat'ed. Otherwise the entry is skipped. |
| Discovery.DiscoverEntries | scripts/build-apps.mjs:30-58 | The classification loop followed by the sort by name computes the discovery specification. |
| Discovery.DiscoverMeaning | scripts/build-apps.mjs:30-58 | The result is sorted by name. An entry is in it iff the folder could be listed and some listing entry classifies to it. An unreadable folder gives no pages. |
| Discovery.ClassifiedMembers | scripts/build-apps.mjs:35-52 | The classified list holds exactly the entries some listing item classifies to. |
| Discovery.ClassifiedPermutation | scripts/build-apps.mjs:35-52 | Listings with the same items classify to the same multiset of entries. |
| Discovery.DiscoverIgnoresListingOrder | scripts/build-apps.mjs:57 | For a listing with distinct names, the discovered pages do not depend on the order `readdir` returns them in. |
| Sorting.SortBy | scripts/build-apps.mjs:57 | Sorting returns a permutation of its input that is sorted by the key. |
| Sorting.InsertSorted | scripts/build-apps.mjs:57 | Inserting into a sorted sequence keeps it sorted. |
| Sorting.SortedUnique | scripts/build-apps.mjs:57 | Two sorted sequences with the same elements and distinct keys are equal. |
| Sorting.SortIgnoresOrder | scripts/build-apps.mjs:439 | `files.sort()` gives the same list for any order of the same paths. |
| Sorting.StrLeTotal | scripts/build-apps.mjs:439 | The string order is total. |
| Sorting.StrLeTrans | scripts/build-apps.mjs:439 | The string order is transitive. |
| ServerBundle.Step | scripts/build-apps.mjs:168-197 | One scanner step changes the depth only outside a string, by +1 on `{` and -1 on `}`. An escape flag is only ever set inside a string. |
| ServerBundle.CloseFrom | scripts/build-apps.mjs:167-198 | The search returns the first index from `i` at which the depth reaches zero, or None when there is none. |
| ServerBundle.ExtractByBraces | scripts/build-apps.mjs:158-201 | The scanning loop returns exactly the extractor specification `BracesSpec`. |
| ServerBundle.BracesSpecMeaning | scripts/build-apps.mjs:158-201 | The extractor returns `body` iff `body` is the text strictly between the first `{` after the first `(function` and the first index where the brace depth returns to zero. |
| ServerBundle.BracesSpecFails | scripts/build-apps.mjs:159-199 | The extractor returns nothing iff `(function` is missing, or no `{` follows it, or the depth never returns to zero. |
| ServerBundle.ClosingBraceIsUnquoted | scripts/build-apps.mjs:183-196 | The balancing character is a `}` read outside any string, at depth one. |
| ServerBundle.EscapeOnlyInString | scripts/build-apps.mjs:169-177 | After any prefix of the scan, the escape flag is set only inside a string. |
| ServerBundle.ApostropheInCommentDefeatsScanner | scripts/build-apps.mjs:184-187 | `(function(){//it's\n})()` yields nothing. The apostrophe in the comment opens a string that never closes. |
| ServerBundle.StrictPos | scripts/build-apps.mjs:205-206 | The position is that of the first `"use strict"` when there is one, else of `'use strict'`, else -1. |
| ServerBundle.HeuristicBody | scripts/build-apps.mjs:203-210 | The heuristic finds a body iff the last `})()` lies beyond the start. The start is 12 characters past the strict prologue, or 0. The body is the text from the start up to that `})()`. |
| ServerBundle.ChooseBodyTiers | scripts/build-apps.mjs:157-210 | Nothing is extracted iff all three tiers fail. A non-empty syntax-tree result wins. Failing that, a non-empty brace result wins. An empty body can only come from an empty earlier tier. |
| ServerBundle.TrimPublishLoop | scripts/build-apps.mjs:212-214 | The body is cut to a prefix free of the publish-loop marker. When the marker occurs, the cut is at its first occurrence. When it is absent, the body is unchanged. |
| ServerBundle.TrimPublishLoopIdempotent | scripts/build-apps.mjs:212-214 | Truncating twice is truncating once. |
| ServerBundle.ServerBody | scripts/build-apps.mjs:212-282 | The raw bundle is copied iff extraction gave nothing. Otherwise the body is the chosen tier's result, cut at the publish loop, so it never contains the loop. |
| ImportGraph.Candidates | scripts/build-apps.mjs:467-474 | The probe list has 12 candidates, plus `base` itself when it already has a known extension. |
| ImportGraph.FirstExisting | scripts/build-apps.mjs:475-480 | The result is the first candidate that exists, or None when none does. |
| ImportGraph.ResolveImport | scripts/build-apps.mjs:458-481 | A resolved import always exists. |
| ImportGraph.ResolveImportMeaning | scripts/build-apps.mjs:458-481 | A specifier starting with neither `.` nor `@/` resolves to nothing. Any other resolves to the first existing candidate in probe order, and to nothing iff none exists. |
| ImportGraph.AliasPrefersTs | scripts/build-apps.mjs:462-472 | `@/x` with an extensionless base resolves under `src` to `x.ts` when that exists. |
| ImportGraph.ImportsExist | scripts/build-apps.mjs:500-508 | Every import found in a file exists. |
| ImportGraph.CodeOnly | scripts/build-apps.mjs:510 | Only code imports (ts/tsx/js/jsx) are stacked for a visit. |
| ImportGraph.ScanImports | scripts/build-apps.mjs:499-511 | The scan of one file finds exactly its resolved imports, in order. A non-code or unreadable file has none. |
| ImportGraph.CollectGraph | scripts/build-apps.mjs:483-514 | The walk terminates and visits each file once. It starts at the entry. Each later visit is a code import of an earlier one. The result holds every visited file and every import of one. A code import is always visited, and nothing else is in the result. |
| ImportGraph.VisitKeepsInv | scripts/build-apps.mjs:488-511 | Visiting an unvisited file keeps the walk invariant. |
| ImportGraph.SkipKeepsInv | scripts/build-apps.mjs:488-489 | Popping an empty or already-visited path keeps the walk invariant. |
| ImportGraph.GraphUnique | scripts/build-apps.mjs:483-514 | Any two results of the walk from the same start hold the same files, whatever order they were found in. |
| ContentHash.FeedAppend | scripts/build-apps.mjs:439-445 | The digest input of a concatenation is the concatenation of the inputs. |
| ContentHash.HashFiles | scripts/build-apps.mjs:437-447 | The hashing loop feeds each readable file's path and then its bytes, in sorted path order. |
| ContentHash.HashIgnoresOrder | scripts/build-apps.mjs:437-447 | Any permutation of a file list gives the same digest. |
| ContentHash.UnreadableIgnored | scripts/build-apps.mjs:440-444 | An unreadable file changes nothing in the digest. |
| ContentHash.DigestFrame | scripts/build-apps.mjs:437-447 | The digest depends only on the listed files' readability and bytes. |
| ContentHash.DistinctListsSameDigest | scripts/build-apps.mjs:534-535 | Two duplicate-free lists of the same files give the same digest. |
| ContentHash.SetToSeq | scripts/build-apps.mjs:534 | `Array.from(set)` lists each element once. |
| ContentHash.DedupKnown | scripts/build-apps.mjs:534 | The de-duplicated list holds each input with a known extension exactly once. |
| ContentHash.PageInputSet | scripts/build-apps.mjs:516-534 | Every hashed page input has a known extension. |
| ContentHash.ComputePageHash | scripts/build-apps.mjs:516-535 | The hash covers the import graph of an existing entry, or nothing when it is missing. It also covers the page's `index.html`, else the shared template when that exists, and the global CSS when it exists. These are filtered by extension, each once. |
| ContentHash.PageHashDeterminedByInputs | scripts/build-apps.mjs:516-535 | The page hash depends only on the set of inputs, not on the order the graph walk found them in. |
| ContentHash.ServerSources | scripts/build-apps.mjs:541 | The server hash covers exactly the walked `.ts`, `.js` and `.json` files. |
| ContentHash.ComputeServerHash | scripts/build-apps.mjs:538-543 | The server hash is the digest of the server sources. |
| Templates.ForwardSlashes | scripts/build-apps.mjs:687 | The relative path keeps its length. Each `\` becomes `/`, and every other character is kept, so no backslash is left. |
| Templates.StripHtmlExt | scripts/build-apps.mjs:690 | A trailing `.html` in any case is removed, and nothing else. |
| Templates.StripHtmlExtRoundTrip | scripts/build-apps.mjs:690 | Removing the extension undoes appending it. |
| Templates.TemplateDestName | scripts/build-apps.mjs:687-697 | A copied template never gets an empty name. |
| Templates.TopLevelTemplateName | scripts/build-apps.mjs:691-696 | A top-level `x.html` is copied as `x`, or as `x.template` when `x` is a page name. |
| Templates.NestedTemplateName | scripts/build-apps.mjs:687-691 | `d/x.html` is copied as `d.x`. |
| Templates.TemplateNeverShadowsPage | scripts/build-apps.mjs:692-696 | When page names contain no `.`, no template is copied under a page's name. |
| Templates.TemplateNamesCanCollide | scripts/build-apps.mjs:687-697 | `d/x.html` and a top-level `d.x.html` are copied under the same name. |
| BuildCache.Loaded | scripts/build-apps.mjs:545-552 | An unreadable cache is empty with server hash `""`. A missing `pages` or `templates` part becomes empty (lines 625-628), and the other parts are kept. |
| BuildCache.ServerStep | scripts/build-apps.mjs:631-642 | The server is rebuilt iff it is not skipped and either `--changed` is off or its hash differs. Only then is the new hash recorded. Page and template entries are untouched. |
| BuildCache.PagePlanFrame | scripts/build-apps.mjs:646-668 | Only listed pages whose HTML is present are built. Only the keys of listed pages are written. Without `--changed` the page cache is untouched. |
| BuildCache.PagePlanBuildsAll | scripts/build-apps.mjs:655-667 | Without `--changed`, every listed page whose HTML is present is built. |
| BuildCache.PagePlanRecords | scripts/build-apps.mjs:656-665 | Under `--changed`, every listed page whose HTML is present ends with its new hash in the cache. |
| BuildCache.PagePlanAllUpToDate | scripts/build-apps.mjs:656-667 | Under `--changed`, when every page is up to date, nothing is built and the cache is unchanged. |
| BuildCache.TemplatePlanRecords | scripts/build-apps.mjs:701-719 | Under `--changed`, every named template ends with its hash in the cache, provided files sharing a name share a hash. |
| BuildCache.TemplatePlanKeys | scripts/build-apps.mjs:698-719 | Template decisions write only current template names. They keep every other entry as it was. |
| BuildCache.TemplatePlanAllUpToDate | scripts/build-apps.mjs:701-719 | Under `--changed`, when every template is up to date, nothing is copied and the cache is unchanged. |
| BuildCache.ExtraHtmls | scripts/build-apps.mjs:682-683 | The templates are exactly the walked `.html` files in any case, other than an `index.html`. |
| BuildCache.Restrict | scripts/build-apps.mjs:726-752 | Pruning keeps exactly the entries whose key is retained, each with its old value. |
| BuildCache.RestrictIdempotent | scripts/build-apps.mjs:726-752 | Pruning twice is pruning once. |
| BuildCache.RunPrunes | scripts/build-apps.mjs:726-752 | After a run, every page key is a discovered page name. Every template key is a current template name. |
| BuildCache.SecondRunIsNoOp | scripts/build-apps.mjs:631-752 | Under `--changed`, with every output present and nothing changed, a second run builds, copies and removes nothing, and leaves the cache as the first run left it. |
| BuildCache.Cache.Load | scripts/build-apps.mjs:625-628 | The loaded cache object holds `Loaded(stored)`. |
| BuildCache.Cache.DecideServer | scripts/build-apps.mjs:631-642 | It updates the object as `ServerStep` says. |
| BuildCache.Cache.DecidePage | scripts/build-apps.mjs:655-667 | A page is skipped iff `--changed` is on and it is up to date. Otherwise, under `--changed`, its new hash is recorded. No other field or entry changes. |
| BuildCache.Cache.PlanPages | scripts/build-apps.mjs:645-668 | The page loop builds and records what `PagePlan` says. Server and templates are unchanged. |
| BuildCache.Cache.PlanTemplates | scripts/build-apps.mjs:686-720 | The template loop copies and records what `TemplatePlan` says. It collects `currentTemplateKeys`. Server and pages are unchanged. |
| BuildCache.Cache.PrunePages | scripts/build-apps.mjs:726-738 | The deletion loop leaves exactly the entries of discovered pages. It reports the removed names. Nothing else changes. |
| BuildCache.Cache.PruneTemplates | scripts/build-apps.mjs:740-752 | The deletion loop leaves exactly the current template entries. It reports the removed names. Nothing else changes. |
| BuildCache.Cache.RunDecisions | scripts/build-apps.mjs:624-752 | One run of the object's decisions is the pure `Run`. |
| CamelCase.DecomposeChar | src/server/sheets.ts:33 | NFD leaves a character alone, or splits it into a letter and a combining mark. |
| CamelCase.UnaccentedLetters | src/server/sheets.ts:33 | NFD followed by dropping the marks replaces each accented Latin-1 letter by its base letter. It keeps every other character. |
| CamelCase.SpanishBaseLetters | src/server/sheets.ts:33 | á é í ó ú ü ñ Ñ É lose their accents. |
| CamelCase.RemoveMarks | src/server/sheets.ts:33 | No combining mark U+0300..U+036F is left. |
| CamelCase.CollapseChars | src/server/sheets.ts:35-36 | The replacement leaves only letters, digits and spaces. |
| CamelCase.CollapseSingleSpaces | src/server/sheets.ts:35-36 | The replacement leaves no two adjacent spaces. |
| CamelCase.CollapseAlnums | src/server/sheets.ts:35-36 | The replacement keeps every letter and digit, in order. |
| CamelCase.CleanedShape | src/server/sheets.ts:35-38 | The cleaned text is lower-case letters, digits and spaces. It holds the input's letters and digits, lowered. |
| CamelCase.WordsOfInput | src/server/sheets.ts:35-39 | The words are exactly the maximal runs of letters and digits of the unaccented input, lowered. So they are lower-case letters and digits, and together they are the input's letters and digits, lowered. |
| CamelCase.RunsOfWord | src/server/sheets.ts:35-39 | A non-empty run of letters and digits is a single word. |
| CamelCase.RunsSeparated | src/server/sheets.ts:35-39 | A character other than a letter or digit separates the words before it from the words after it. |
| CamelCase.CamelJoinShape | src/server/sheets.ts:41 | The camel join starts with the first word's first character. It is letters and digits, and lowers back to the words run together. It has a capital exactly where a word after the first begins with a letter. |
| CamelCase.DigitGuardShape | src/server/sheets.ts:43 | A `_` is put in front exactly when the identifier starts with a digit. The result never starts with a digit. |
| CamelCase.CamelCaseMeaning | src/server/sheets.ts:28-45 | The result is empty iff the input has no letter or digit. Otherwise it is letters and digits with an optional leading `_`, never starting with a digit or a capital. It gets `_` iff the first letter-or-digit is a digit. It holds exactly the input's letters and digits, in order, differing only in case. After the `_`, a character is a capital exactly where a run of letters and digits other than the first begins with a letter. |
| CamelCase.CamelCaseOfTwoWords | src/server/sheets.ts:35-44 | `a b` for lower-case words becomes `a` followed by `b` capitalised. |
| CamelCase.CamelCaseOfOneWord | src/server/sheets.ts:35-44 | A lower-case identifier is its own camel case. |
| HeaderDedup.DedupHeaders | src/server/sheets.ts:49-59 | The counting `map` computes the intended suffixing `Deduped`. |
| HeaderDedup.DedupedShape | src/server/sheets.ts:49-59 | Deduplication keeps the length and maps empty to empty. A first occurrence is kept as it is. The k-th repeat of `h` becomes `h_k`. |
| HeaderDedup.DedupedDistinct | src/server/sheets.ts:47-59 | For headers shaped as `toCamelCase` makes them, the non-empty deduplicated headers are pairwise distinct. |
| HeaderDedup.SuffixedInjective | src/server/sheets.ts:57 | Different header/count pairs give different suffixed names. |
| HeaderDedup.SuffixedNotShaped | src/server/sheets.ts:57 | A suffixed name is never itself a camel-cased header. |
| HeaderDedup.CamelHeadersShaped | src/server/sheets.ts:48 | Every camel-cased header is empty or camel-shaped. |
| HeaderDedup.AsWrittenAgrees | src/server/sheets.ts:49-59 | Away from names inherited from `Object.prototype`, the lookup in `{}` as written counts as intended. |
| HeaderDedup.InheritedHeaderCollides | src/server/sheets.ts:49-59 | Two `constructor` columns both become `constructor_NaN` as written. The intended counting gives `constructor` and `constructor_1`. |
| SheetRows.CellAt | src/server/sheets.ts:78 | `row[c]` is undefined past the end of a row. |
| SheetRows.EmptyCellPolicy | src/server/sheets.ts:80-100 | An empty cell becomes `null` under `emptyAsNull`, else `''`. A non-empty cell never becomes `null`. A raw non-date cell is stored as it is. |
| SheetRows.BlankFromCell | src/server/sheets.ts:80-106 | A blank stored value comes from an empty cell or from text that is empty (after trimming in display mode). |
| SheetRows.RowObjectKeys | src/server/sheets.ts:74-76 | The object's keys are exactly the non-empty headers: empty-header columns never become keys. |
| SheetRows.RowObjectValue | src/server/sheets.ts:74-100 | With distinct headers, each non-empty header holds the converted cell of its column. |
| SheetRows.BuildObject | src/server/sheets.ts:73-101 | The column loop builds the row object. |
| SheetRows.RowObjectMeaning | src/server/sheets.ts:73-101 | With distinct headers, the row object has exactly the non-empty headers as keys. Each holds its column's converted cell. |
| SheetRows.KeptMeaning | src/server/sheets.ts:70-107 | A row is emitted iff some column with a non-empty header converts to a non-blank value. |
| SheetRows.EmittedMembers | src/server/sheets.ts:68-108 | The emitted objects are exactly the objects of the kept rows. |
| SheetRows.EmittedHaveValue | src/server/sheets.ts:103-107 | Every emitted object has a value that is not `''`, `null` or undefined. |
| SheetRows.EmptyRowsSkipped | src/server/sheets.ts:70-71 | Rows whose cells are all `''`, `null` or undefined produce nothing. |
| SheetRows.WhitespaceDisplayRowSkipped | src/server/sheets.ts:80-107 | With display values, a row of whitespace-only strings produces nothing. |
| SheetRows.EmitRows | src/server/sheets.ts:65-108 | The row loop computes the objects of the rows below the header. |
| SheetRows.HeaderKeysDistinct | src/server/sheets.ts:47-59 | There is one key per header cell. With the corrected counting `HeaderDedup.Deduped` (see Findings), the non-empty keys are distinct. As written, two `constructor` headers break this. |
| SheetRows.ReadSheet | src/server/sheets.ts:1-111 | The whole call computes `SheetToJson`. |
| SheetRows.SheetToJsonErrors | src/server/sheets.ts:10-25 | It throws iff there is no active spreadsheet, or the header row trims to all-empty. A missing sheet or a sheet without values gives `[]`. |
| SheetRows.SheetToJsonObjects | src/server/sheets.ts:65-110 | An object is returned iff it is the object of a kept row below the header. Each returned object has a value. Its keys are exactly the non-empty headers, each holding the converted cell. |

## Left out

- The syntax-tree tier (`extractWithSwc`) and `validateSyntaxOrDie` (scripts/build-apps.mjs:109-155, 236-268) depend on the `@swc/core` parser. The first tier's result is an input to `ServerBundle.ChooseBody`.
- The regular-expression clean-up of the extracted body (scripts/build-apps.mjs:216-233) relies on JavaScript regex semantics and is not modelled. The same goes for the import-specifier regex (line 500), which is the `specifiers` function of `ImportGraph.Project`.
- Vite builds, `buildClientSingleFile`, `runWithConcurrency` (promise scheduling), `walkFiles`/`findHtmlFile`, the copy of `appsscript.json`, `saveCache`, and every file write, delete and log are left out. They are I/O around the decisions. The walk's results, `stat`/`existsSync` answers and file contents are inputs.
- SHA-1, UTF-8 encoding of paths, and node's `path.resolve`/`dirname`/`relative` are functions handed in.
- Sorting.StrLe: `localeCompare` (line 57) and the default `sort()` (line 439) are both modelled as code-point order. It is not locale collation, and not UTF-16 code-unit order for characters outside the Basic Multilingual Plane.
- BuildCache.TemplatePlan: the `fileHash || hashFiles([srcFile])` fallback (line 717) hashes the same file again. Both are the one `templateHash` input.
- BuildCache.Cache.PlanTemplates (and the pure `BuildCache.TemplatePlan` it computes): every copy is assumed to succeed. In the source, one `try`/`catch` wraps the whole template loop (lines 679-723). A failed `readFile` or `writeFile` (lines 713-715) ends the loop. The later templates are then neither copied nor added to `currentTemplateKeys`. The pruning at lines 740-752 then deletes their cache entries and their `dist` files. The model does not capture this abort.
- BuildCache.Cache.PrunePages and BuildCache.Cache.PruneTemplates: the entries are deleted from a local copy that is stored back after the loop, not one by one in the field. The final state is the same.
- CamelCase.DecomposeChar: `normalize('NFD')` is modelled for the precomposed Latin-1 letters U+00C0..U+00FF only. Other precomposed characters (Latin Extended, Greek, Vietnamese, Hangul…) are left as they are. The regex clean-up then turns them into word boundaries rather than base letters.
- CamelCase.Words: `split(/\s+/)` is modelled as a split on single spaces. The cleaned text has only single spaces between words, so the two agree there.
- SheetRows: `SpreadsheetApp`, `Utilities.formatDate`, `Date.prototype.toISOString` and `String(date)` are inputs. Numbers and booleans are cells shown through a given string. The insertion order of an object's keys is not modelled (objects are maps).
- The client pages, the data-table component and `vite.config.ts` are not part of this model.

## Findings

| source | as written | input that shows it | evidently intended | confidence | as-written member | corrected member |
|---|---|---|---|---|---|---|
| src/server/sheets.ts:49-59 | `seen` is a plain `{}`, so `seen[h]` finds members of `Object.prototype`. A header that camel-cases to `constructor`, `toString`, `valueOf`, `hasOwnProperty`… skips the "first occurrence" branch, and `seen[h]++` stores `NaN`. Such columns become `constructor_NaN`, and two of them collide, so one overwrites the other in every row object. | Two header cells `Constructor` and `constructor`. | `constructor` and `constructor_1`, with the uniqueness the comment at line 47 promises. | not executed | HeaderDedup.InheritedHeaderCollides (on `HeaderDedup.DedupAsWritten`) | HeaderDedup.DedupedDistinct (on `HeaderDedup.Deduped`, computed by `HeaderDedup.DedupHeaders`) |

The rest of the model (`SheetRows`) uses the corrected counting, `HeaderDedup.Deduped`. `HeaderDedup.AsWrittenAgrees` shows that the two agree whenever no header is an inherited name.

Two further behaviours of the build script are proved as stated and left as they are, because nothing shows they were unintended:

- `ServerBundle.ApostropheInCommentDefeatsScanner`: the brace scanner does not know comments.
- `Templates.TemplateNamesCanCollide`: `d/x.html` and `d.x.html` are copied to the same file, and the later copy wins.
