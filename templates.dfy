/**
  The extra HTML files under `src/client/pages` that are copied to `dist`
  as Apps Script templates, and the name each is copied under
  (scripts/build-apps.mjs:679-696). Paths are given relative to the pages
  folder.
 */
module Templates {
  import opened Options
  import opened JsString

  /** `.split('\\').join('/')`. */
  function ForwardSlashes(rel: string): (r: string)
    ensures '\\' !in r
    ensures |r| == |rel| && forall i :: 0 <= i < |rel| ==> r[i] == (if rel[i] == '\\' then '/' else rel[i])
  {
    JoinHasNoSep(Split(rel, '\\'), '/', '\\');
    JoinSplitReplaces(rel, '\\', '/');
    Join(Split(rel, '\\'), "/")
  }

  /** Joining parts that avoid `c` with a separator other than `c` avoids `c`. */
  lemma {:induction false} JoinHasNoSep(parts: seq<string>, sep: char, c: char)
    requires sep != c
    requires forall k :: 0 <= k < |parts| ==> c !in parts[k]
    ensures c !in Join(parts, [sep])
  {
    if |parts| > 1 {
      JoinHasNoSep(parts[1..], sep, c);
    }
  }

  /** `path.basename` of a relative path: its last `/`-separated segment. */
  function Basename(rel: string): string {
    var segs := Split(rel, '/');
    segs[|segs| - 1]
  }

  predicate EndsWithHtmlCI(s: string) {
    |s| >= 5 && Lower(s[|s| - 5..]) == ".html"
  }

  /** The HTML files copied as templates: `.html` in any case, except any `index.html`. */
  predicate IsExtraHtml(rel: string) {
    EndsWithHtmlCI(rel) && Lower(Basename(rel)) != "index.html"
  }

  /** `file.replace(/\.html$/i, '')`. */
  function StripHtmlExt(file: string): (r: string)
    ensures EndsWithHtmlCI(file) ==> |r| + 5 == |file| && file == r + file[|file| - 5..]
    ensures !EndsWithHtmlCI(file) ==> r == file
  {
    if EndsWithHtmlCI(file) then file[..|file| - 5] else file
  }

  /** Removing the extension undoes adding it, whatever its case. */
  lemma StripHtmlExtRoundTrip(stem: string, ext: string)
    requires |ext| == 5 && Lower(ext) == ".html"
    ensures StripHtmlExt(stem + ext) == stem
  {
    assert (stem + ext)[|stem + ext| - 5..] == ext;
    assert (stem + ext)[..|stem|] == stem;
  }

  /**
    The name a template is copied under (`dist/<name>.html`): its folders and
    its file name without `.html`, joined with `.`; a file at the top of the
    pages folder named like a page gets `.template` appended; an empty name
    is skipped.
   */
  function TemplateDestName(rel: string, pageNames: set<string>): (r: Option<string>)
    ensures r.Some? ==> r.value != ""
  {
    var segments := Split(ForwardSlashes(rel), '/');
    var dirs := segments[..|segments| - 1];
    var nameNoExt := StripHtmlExt(segments[|segments| - 1]);
    var dest := if |dirs| == 0 && nameNoExt in pageNames then nameNoExt + ".template" else Join(dirs + [nameNoExt], ".");
    if dest == "" then None else Some(dest)
  }

  lemma {:induction false} JoinHasSep(parts: seq<string>, sep: char)
    requires |parts| >= 2
    ensures sep in Join(parts, [sep])
  {
    assert Join(parts, [sep]) == parts[0] + [sep] + Join(parts[1..], [sep]);
    assert Join(parts, [sep])[|parts[0]|] == sep;
  }

  /**
    A template never takes a page's output name when page names have no `.`:
    top-level files named like a page get the `.template` suffix, and nested
    files get a dotted name.
   */
  lemma TemplateNeverShadowsPage(rel: string, pageNames: set<string>)
    requires forall n :: n in pageNames ==> '.' !in n
    ensures TemplateDestName(rel, pageNames).Some? ==> TemplateDestName(rel, pageNames).value !in pageNames
  {
    var segments := Split(ForwardSlashes(rel), '/');
    var dirs := segments[..|segments| - 1];
    var nameNoExt := StripHtmlExt(segments[|segments| - 1]);
    if |dirs| == 0 {
      assert dirs + [nameNoExt] == [nameNoExt];
      if nameNoExt in pageNames {
        assert (nameNoExt + ".template")[|nameNoExt|] == '.';
      }
    } else {
      JoinHasSep(dirs + [nameNoExt], '.');
    }
  }

  /** A top-level file named like a page is copied as `<page>.template`; one that is not keeps its name. */
  lemma TopLevelTemplateName(stem: string, pageNames: set<string>)
    requires '/' !in stem && '\\' !in stem && stem != ""
    ensures stem in pageNames ==> TemplateDestName(stem + ".html", pageNames) == Some(stem + ".template")
    ensures stem !in pageNames ==> TemplateDestName(stem + ".html", pageNames) == Some(stem)
  {
    var rel := stem + ".html";
    assert '\\' !in rel && '/' !in rel;
    SplitWithoutSep(rel, '\\');
    assert ForwardSlashes(rel) == rel;
    SplitWithoutSep(rel, '/');
    StripHtmlExtRoundTrip(stem, ".html");
  }

  /** A file one folder down is named `<folder>.<file>`. */
  lemma NestedTemplateName(dir: string, stem: string, pageNames: set<string>)
    requires '/' !in dir && '\\' !in dir && '/' !in stem && '\\' !in stem
    ensures TemplateDestName(dir + "/" + stem + ".html", pageNames) == Some(dir + "." + stem)
  {
    var rel := dir + "/" + stem + ".html";
    assert '\\' !in rel;
    SplitWithoutSep(rel, '\\');
    assert ForwardSlashes(rel) == rel;
    assert rel == dir + ['/'] + (stem + ".html");
    SplitAtOnlySep(dir, stem + ".html", '/');
    StripHtmlExtRoundTrip(stem, ".html");
    var segments := Split(rel, '/');
    assert segments == [dir, stem + ".html"];
    assert segments[..|segments| - 1] + [stem] == [dir, stem];
    assert Join([dir, stem], ".") == dir + "." + Join([stem], ".");
  }

  /**
    Different files can be copied under the same name: `<folder>/<file>.html`
    and a top-level `<folder>.<file>.html` are both copied as
    `<folder>.<file>`, and the later copy overwrites the earlier.
   */
  lemma TemplateNamesCanCollide(dir: string, stem: string, pageNames: set<string>)
    requires '/' !in dir && '\\' !in dir && '/' !in stem && '\\' !in stem
    requires dir + "." + stem !in pageNames
    ensures dir + "/" + stem + ".html" != dir + "." + stem + ".html"
    ensures TemplateDestName(dir + "/" + stem + ".html", pageNames) == TemplateDestName(dir + "." + stem + ".html", pageNames)
  {
    assert (dir + "/" + stem + ".html")[|dir|] == '/';
    assert (dir + "." + stem + ".html")[|dir|] == '.';
    NestedTemplateName(dir, stem, pageNames);
    assert dir + "." + stem + ".html" == (dir + "." + stem) + ".html";
    TopLevelTemplateName(dir + "." + stem, pageNames);
  }

}
