/**
 * The `after_build` hook: copy the WordPress theme sources into the build,
 * copy the PHP files kept outside it, turn every built HTML page into a
 * twig template of the theme, then remove the empty directories of the
 * build. The specification functions below state each step on a tree; the
 * class `FileSystem` runs the same steps in place, one call at a time.
 */
module PostBuild {

  import opened Wrappers
  import opened Strings
  import opened Paths
  import opened FileTree

  const ThemeName := "portfolio"

  const BuildRoot: Path := ["build"]
  const WpSource: Path := ["source", "wp"]
  const TemplatesRoot: Path := ["build", "wp", "wp-content", "themes", ThemeName, "templates"]

  /** The theme's template directory as `html2twig` spells it: `build/wp/wp-content/themes/portfolio/templates`. */
  const TemplatesDir := Join(TemplatesRoot)

  /** The failure of a step, if any. */
  function ErrorOf(r: Result<Tree, FsError>): (e: Option<FsError>)
    ensures e.None? <==> r.Ok?
  {
    match r
    case Ok(_) => None
    case Err(err) => Some(err)
  }

  /** `File.dirname(s)` as a path: the components of `s` without the last one. */
  function Dirname(s: string): (r: Path)
    ensures ValidPath(r)
    ensures Components(s) != [] ==> Components(s) == r + [Components(s)[|Components(s)| - 1]]
  {
    var c := Components(s);
    if c == [] then [] else Parent(c)
  }

  // ---------------------------------------------------------------------
  // html2twig

  function TemplateDest(path: string): string {
    TemplatesDir + "/" + path
  }

  /**
   * `html2twig(path)`: create the template's directory unless it exists,
   * then move `build/<path>.html` to `<templates>/<path>.twig`.
   */
  function ConvertPage(t: Tree, path: string): Result<Tree, FsError> {
    var src := Components("build/" + path + ".html");
    var dest := TemplateDest(path);
    var parentDir := Dirname(dest);
    match PrepareDir(t, parentDir)
    case Err(e) => Err(e)
    case Ok(t1) => Mv(t1, src, Components(dest + ".twig"))
  }

  /** `FileUtils.mkdir_p(d) unless Dir.exists?(d)`. */
  function PrepareDir(t: Tree, d: Path): Result<Tree, FsError> {
    if IsDir(t, d) then Ok(t) else FileTree.MkdirP(t, d)
  }

  /** Where the page with path components `page` is built. */
  function HtmlPath(page: Path): Path
    requires page != []
  {
    BuildRoot + page[..|page| - 1] + [page[|page| - 1] + ".html"]
  }

  /** The directory that receives the page's template. */
  function TwigDir(page: Path): Path
    requires page != []
  {
    TemplatesRoot + page[..|page| - 1]
  }

  function TwigPath(page: Path): Path
    requires page != []
  {
    TwigDir(page) + [page[|page| - 1] + ".twig"]
  }

  lemma TemplatesRootSpelled()
    ensures Components(TemplatesDir) == TemplatesRoot
  {
    ComponentsJoin(TemplatesRoot);
  }

  /** A name, a slash and a joined path: the components are the name and that path. */
  lemma ComponentsUnder(n: string, rest: Path)
    requires ValidName(n) && ValidPath(rest)
    ensures Components(n + "/" + Join(rest)) == [n] + rest
  {
    assert n + "/" + Join(rest) == n + [Sep] + Join(rest);
    ComponentsAround(n, Join(rest));
    ComponentsOfName(n);
    ComponentsJoin(rest);
  }

  /** A valid path with a suffix on its last name is still valid. */
  lemma SuffixedValid(p: Path, x: string)
    requires ValidPath(p) && p != [] && Sep !in x
    ensures ValidPath(p[..|p| - 1] + [p[|p| - 1] + x])
  {
    var q := p[..|p| - 1] + [p[|p| - 1] + x];
    forall i | 0 <= i < |q| ensures ValidName(q[i]) {
      if i < |p| - 1 {
        assert q[i] == p[i];
      } else {
        assert q[i] == p[|p| - 1] + x;
        assert ValidName(p[|p| - 1]);
      }
    }
  }

  /** The strings `html2twig` builds name the paths above. */
  lemma ConvertPagePaths(page: Path)
    requires ValidPath(page) && page != []
    ensures Components("build/" + Join(page) + ".html") == HtmlPath(page)
    ensures Components(TemplateDest(Join(page)) + ".twig") == TwigPath(page)
    ensures Dirname(TemplateDest(Join(page))) == TwigDir(page)
  {
    var n := |page|;
    var html := page[..n - 1] + [page[n - 1] + ".html"];
    var twig := page[..n - 1] + [page[n - 1] + ".twig"];
    JoinAppendLast(page, ".html");
    JoinAppendLast(page, ".twig");
    SuffixedValid(page, ".html");
    SuffixedValid(page, ".twig");
    assert "build/" + Join(page) + ".html" == "build" + "/" + Join(html);
    ComponentsUnder("build", html);
    TemplatesRootSpelled();
    assert TemplateDest(Join(page)) + ".twig" == TemplatesDir + [Sep] + Join(twig);
    ComponentsAround(TemplatesDir, Join(twig));
    ComponentsJoin(twig);
    assert TwigPath(page) == TemplatesRoot + twig;
    ComponentsAround(TemplatesDir, Join(page));
    ComponentsJoin(page);
    assert Components(TemplateDest(Join(page))) == TemplatesRoot + page;
    assert TemplatesRoot + page == TwigDir(page) + [page[n - 1]];
  }

  /** After the directory step of `html2twig`, the template directory and its ancestors exist. */
  lemma TwigDirReady(t: Tree, page: Path)
    requires WellFormed(t) && ValidPath(page) && page != []
    requires forall k :: 1 <= k <= |TwigDir(page)| ==> !IsFile(t, TwigDir(page)[..k])
    ensures var made := PrepareDir(t, TwigDir(page));
      && made.Ok?
      && WellFormed(made.value)
      && (forall k :: 1 <= k <= |TwigDir(page)| ==> IsDir(made.value, TwigDir(page)[..k]))
      && (forall q :: q in t ==> q in made.value && made.value[q] == t[q])
      && (forall q :: q in made.value && q !in t ==> q <= TwigDir(page))
  {
    var d := TwigDir(page);
    assert ValidPath(d) by {
      assert ValidPath(TemplatesRoot);
      forall i | 0 <= i < |d| ensures ValidName(d[i]) {
        if i >= |TemplatesRoot| { assert d[i] == page[i - |TemplatesRoot|]; }
      }
    }
    if IsDir(t, d) {
      forall k | 1 <= k <= |d| ensures IsDir(t, d[..k]) {
        if k < |d| { AncestorsAreDirs(t, d, k); } else { assert d[..k] == d; }
      }
    } else {
      MkdirPSpec(t, d);
    }
  }

  /**
   * A built page `P.html` listed among the resources becomes the template
   * `P.twig` with the same content; the page is gone, the template's
   * directories exist, every other entry is unchanged and the only new
   * entries lie on the way to the template.
   */
  lemma HtmlResourceMoved(t: Tree, page: Path)
    requires WellFormed(t) && ValidPath(page) && page != []
    requires IsFile(t, HtmlPath(page))
    requires forall k :: 1 <= k <= |TwigDir(page)| ==> !IsFile(t, TwigDir(page)[..k])
    requires !IsDir(t, TwigPath(page))
    ensures ConvertStep(t, Join(page) + ".html").Ok?
    ensures var t' := ConvertStep(t, Join(page) + ".html").value;
      HtmlPath(page) !in t' && TwigPath(page) in t' && t'[TwigPath(page)] == t[HtmlPath(page)]
    ensures var t' := ConvertStep(t, Join(page) + ".html").value;
      forall k :: 1 <= k <= |TwigDir(page)| ==> IsDir(t', TwigDir(page)[..k])
    ensures WellFormed(ConvertStep(t, Join(page) + ".html").value)
    ensures var t' := ConvertStep(t, Join(page) + ".html").value;
      forall q :: q in t && q != HtmlPath(page) && q != TwigPath(page) ==> q in t' && t'[q] == t[q]
    ensures var t' := ConvertStep(t, Join(page) + ".html").value;
      forall q :: q in t' && q !in t ==> q <= TwigPath(page)
  {
    TwigDirReady(t, page);
    var t1 := PrepareDir(t, TwigDir(page)).value;
    ConvertIsMove(page, t);
    MovedTemplate(t, t1, page);
    var t' := (t1 - {HtmlPath(page)})[TwigPath(page) := t[HtmlPath(page)]];
    assert ConvertStep(t, Join(page) + ".html") == Ok(t');
  }

  /** The move of `html2twig` once the template directory is ready. */
  lemma MovedTemplate(t: Tree, t1: Tree, page: Path)
    requires WellFormed(t) && ValidPath(page) && page != []
    requires IsFile(t, HtmlPath(page)) && !IsDir(t, TwigPath(page))
    requires WellFormed(t1)
    requires forall k :: 1 <= k <= |TwigDir(page)| ==> IsDir(t1, TwigDir(page)[..k])
    requires forall q :: q in t ==> q in t1 && t1[q] == t[q]
    requires forall q :: q in t1 && q !in t ==> q <= TwigDir(page)
    ensures var t' := (t1 - {HtmlPath(page)})[TwigPath(page) := t[HtmlPath(page)]];
      && Mv(t1, HtmlPath(page), TwigPath(page)) == Ok(t')
      && WellFormed(t')
      && (forall k :: 1 <= k <= |TwigDir(page)| ==> IsDir(t', TwigDir(page)[..k]))
      && (forall q :: q in t && q != HtmlPath(page) && q != TwigPath(page) ==> q in t' && t'[q] == t[q])
      && (forall q :: q in t' && q !in t ==> q <= TwigPath(page))
  {
    var src, dst := HtmlPath(page), TwigPath(page);
    assert !IsDir(t1, dst) by {
      if dst in t1 && dst !in t { assert false; }
    }
    assert IsDir(t1, Parent(dst)) by {
      assert Parent(dst) == TwigDir(page);
      assert TwigDir(page)[..|TwigDir(page)|] == TwigDir(page);
    }
    TwigPathValid(page);
    MoveFile(t1, src, dst);
    var t' := (t1 - {src})[dst := t1[src]];
    forall q | q in t' && q !in t ensures q <= dst {
      if q != dst { assert q <= TwigDir(page); }
    }
    forall k | 1 <= k <= |TwigDir(page)| ensures IsDir(t', TwigDir(page)[..k]) {
      assert IsDir(t1, TwigDir(page)[..k]);
      assert |TwigDir(page)[..k]| < |dst|;
    }
  }

  /** For a resource `P.html`, the conversion step is `html2twig(P)` on the paths above. */
  lemma ConvertIsMove(page: Path, t: Tree)
    requires ValidPath(page) && page != []
    ensures PrepareDir(t, TwigDir(page)).Ok? ==>
      ConvertStep(t, Join(page) + ".html") == Mv(PrepareDir(t, TwigDir(page)).value, HtmlPath(page), TwigPath(page))
  {
    var item := Join(page) + ".html";
    assert EndsWith(item, ".html");
    assert item[..|item| - 5] == Join(page);
    ConvertPagePaths(page);
  }

  lemma TwigPathValid(page: Path)
    requires ValidPath(page) && page != []
    ensures ValidPath(TwigPath(page))
  {
    SuffixedValid(page, ".twig");
    var dst := TwigPath(page);
    var tail := page[..|page| - 1] + [page[|page| - 1] + ".twig"];
    assert dst == TemplatesRoot + tail;
    forall i | 0 <= i < |dst| ensures ValidName(dst[i]) {
      if i >= |TemplatesRoot| { assert dst[i] == tail[i - |TemplatesRoot|]; }
    }
  }

  /** Moving a file to a free place of different depth inside an existing directory. */
  lemma MoveFile(t: Tree, src: Path, dst: Path)
    requires WellFormed(t) && IsFile(t, src) && ValidPath(dst) && |dst| > 1 && |src| != |dst|
    requires !IsDir(t, dst) && IsDir(t, Parent(dst))
    ensures Mv(t, src, dst) == Ok((t - {src})[dst := t[src]])
    ensures WellFormed(Mv(t, src, dst).value)
  {
    MvWellFormed(t, src, dst);
  }

  /** One sitemap resource: an HTML page is converted, anything else is left alone. */
  function ConvertStep(t: Tree, item: string): Result<Tree, FsError> {
    if EndsWith(item, ".html") then ConvertPage(t, item[..|item| - 5]) else Ok(t)
  }

  // ---------------------------------------------------------------------
  // Running a step over a list of items, stopping at the first error

  function EachItem(t: Tree, items: seq<string>, step: (Tree, string) -> Result<Tree, FsError>): Result<Tree, FsError>
    decreases |items|
  {
    if items == [] then Ok(t)
    else match EachItem(t, items[..|items| - 1], step)
      case Err(e) => Err(e)
      case Ok(t1) => step(t1, items[|items| - 1])
  }

  /** An error on a prefix of the items is the error of the whole run. */
  lemma {:induction false} EachItemStops(t: Tree, items: seq<string>, k: nat, step: (Tree, string) -> Result<Tree, FsError>)
    requires k <= |items| && EachItem(t, items[..k], step).Err?
    ensures EachItem(t, items, step) == EachItem(t, items[..k], step)
    decreases |items| - k
  {
    if k < |items| {
      assert items[..k + 1][..k] == items[..k];
      EachItemStops(t, items, k + 1, step);
    } else {
      assert items[..k] == items;
    }
  }

  /** One more item runs one more step on the tree reached so far. */
  lemma EachItemNext(t: Tree, items: seq<string>, i: nat, step: (Tree, string) -> Result<Tree, FsError>)
    requires i < |items| && EachItem(t, items[..i], step).Ok?
    ensures EachItem(t, items[..i + 1], step) == step(EachItem(t, items[..i], step).value, items[i])
  {
    assert items[..i + 1][..i] == items[..i];
  }

  /** Resources that are not HTML pages leave the build alone. */
  lemma {:induction false} ConvertSkipsOthers(t: Tree, items: seq<string>)
    requires forall i :: 0 <= i < |items| ==> !EndsWith(items[i], ".html")
    ensures EachItem(t, items, ConvertStep) == Ok(t)
    decreases |items|
  {
    if items != [] {
      ConvertSkipsOthers(t, items[..|items| - 1]);
    }
  }

  // ---------------------------------------------------------------------
  // The conversion loop over any list of resources

  /**
   * The resources with the page each one names: `pages[i]` is `P` for a
   * resource `P.html`, and `[]` for a resource that is not an HTML page.
   */
  predicate PageItems(items: seq<string>, pages: seq<Path>) {
    && |items| == |pages|
    && forall i :: 0 <= i < |items| ==>
         if pages[i] == [] then !EndsWith(items[i], ".html") else items[i] == Join(pages[i]) + ".html"
  }

  /** The built pages of the HTML resources. */
  function HtmlPaths(pages: seq<Path>): set<Path> {
    set p | p in pages && p != [] :: HtmlPath(p)
  }

  /** The templates they become. */
  function TwigPaths(pages: seq<Path>): set<Path> {
    set p | p in pages && p != [] :: TwigPath(p)
  }

  /**
   * What the loop needs to succeed: each HTML resource's page is a file, no
   * file is in the way of its template directory, no directory sits where
   * its template goes, no page is listed twice, and no template lies on the
   * way to another page's template directory (a page `x.twig/b` would turn
   * the template of page `x` into a directory, and `mv` would then put
   * `x.html` inside it).
   */
  ghost predicate ConvertReady(t: Tree, items: seq<string>, pages: seq<Path>) {
    && PageItems(items, pages)
    && (forall p :: p in pages && p != [] ==>
          && ValidPath(p)
          && IsFile(t, HtmlPath(p))
          && (forall k :: 1 <= k <= |TwigDir(p)| ==> !IsFile(t, TwigDir(p)[..k]))
          && !IsDir(t, TwigPath(p)))
    && (forall i, j :: 0 <= i < j < |pages| && pages[i] != [] ==> pages[i] != pages[j])
    && (forall p, p' :: p in pages && p' in pages && p != [] && p' != [] ==> !(TwigPath(p) <= TwigDir(p')))
  }

  /**
   * The loop's outcome from `t` to `t'`: every converted page is gone and its
   * template holds the page's content, every other entry is unchanged, and
   * every new entry is a template or a directory on the way to one.
   */
  ghost predicate Converted(t: Tree, t': Tree, pages: seq<Path>) {
    && WellFormed(t')
    && (forall p :: p in pages && p != [] ==> HtmlPath(p) !in t')
    && (forall p :: p in pages && p != [] ==>
          HtmlPath(p) in t && TwigPath(p) in t' && t'[TwigPath(p)] == t[HtmlPath(p)])
    && (forall q :: q in t && q !in HtmlPaths(pages) && q !in TwigPaths(pages) ==> q in t' && t'[q] == t[q])
    && (forall q :: q in t' && q !in t ==> exists w :: w in TwigPaths(pages) && q <= w)
    && (forall q :: q in t' && q !in t && q !in TwigPaths(pages) ==> IsDir(t', q))
  }

  /**
   * The whole loop of `html2twig` calls: over any list of resources ready
   * for it, it succeeds, and every HTML page has become its template.
   */
  lemma {:induction false} ConvertAllMoved(t: Tree, items: seq<string>, pages: seq<Path>)
    requires WellFormed(t) && ConvertReady(t, items, pages)
    ensures EachItem(t, items, ConvertStep).Ok?
    ensures Converted(t, EachItem(t, items, ConvertStep).value, pages)
    decreases |items|
  {
    if items == [] {
      assert HtmlPaths(pages) == {} && TwigPaths(pages) == {};
    } else {
      var n := |items|;
      ConvertReadyPrefix(t, items, pages);
      ConvertAllMoved(t, items[..n - 1], pages[..n - 1]);
      var t1 := EachItem(t, items[..n - 1], ConvertStep).value;
      assert EachItem(t, items, ConvertStep) == ConvertStep(t1, items[n - 1]);
      ConvertLast(t, t1, items, pages);
    }
  }

  /** The step for the last resource carries the outcome of the ones before it over to all. */
  lemma ConvertLast(t: Tree, t1: Tree, items: seq<string>, pages: seq<Path>)
    requires WellFormed(t) && ConvertReady(t, items, pages) && items != []
    requires Converted(t, t1, pages[..|pages| - 1])
    ensures ConvertStep(t1, items[|items| - 1]).Ok?
    ensures Converted(t, ConvertStep(t1, items[|items| - 1]).value, pages)
  {
    var n := |items|;
    var last := pages[n - 1];
    PagesPrefix(pages);
    if last == [] {
      assert ConvertStep(t1, items[n - 1]) == Ok(t1);
      ConvertedSkipLast(t, t1, pages);
    } else {
      ConvertLastReady(t, t1, items, pages);
      ConvertLastMoved(t1, last);
      ConvertedPage(t, t1, ConvertStep(t1, items[n - 1]).value, items, pages);
    }
  }

  /** A last resource that is an HTML page: its conversion completes the outcome. */
  lemma ConvertedPage(t: Tree, t1: Tree, t': Tree, items: seq<string>, pages: seq<Path>)
    requires WellFormed(t) && ConvertReady(t, items, pages) && items != [] && pages[|pages| - 1] != []
    requires Converted(t, t1, pages[..|pages| - 1]) && MovedLast(t1, t', pages[|pages| - 1])
    requires t1[HtmlPath(pages[|pages| - 1])] == t[HtmlPath(pages[|pages| - 1])]
    ensures Converted(t, t', pages)
  {
    ConvertedGone(t, t1, t', items, pages);
    ConvertedPlaced(t, t1, t', items, pages);
    ConvertedKept(t, t1, t', pages);
    ConvertedNewUnder(t, t1, t', pages);
    ConvertedNewDirs(t, t1, t', pages);
  }

  /** A last resource that is not an HTML page adds nothing to convert. */
  lemma ConvertedSkipLast(t: Tree, t1: Tree, pages: seq<Path>)
    requires pages != [] && pages[|pages| - 1] == []
    requires Converted(t, t1, pages[..|pages| - 1])
    ensures Converted(t, t1, pages)
  {
    PagesPrefix(pages);
    var init := pages[..|pages| - 1];
    assert HtmlPaths(pages) == HtmlPaths(init) && TwigPaths(pages) == TwigPaths(init);
    assert forall p :: p in pages && p != [] ==> p in init;
  }

  /** The outcome of `html2twig` for one page, as `HtmlResourceMoved` states it. */
  ghost predicate MovedLast(t1: Tree, t': Tree, page: Path)
    requires page != []
  {
    && WellFormed(t')
    && HtmlPath(page) in t1 && HtmlPath(page) !in t'
    && TwigPath(page) in t' && t'[TwigPath(page)] == t1[HtmlPath(page)]
    && (forall k :: 1 <= k <= |TwigDir(page)| ==> IsDir(t', TwigDir(page)[..k]))
    && (forall q :: q in t1 && q != HtmlPath(page) && q != TwigPath(page) ==> q in t' && t'[q] == t1[q])
    && (forall q :: q in t' && q !in t1 ==> q <= TwigPath(page))
  }

  lemma ConvertLastMoved(t1: Tree, page: Path)
    requires WellFormed(t1) && ValidPath(page) && page != []
    requires IsFile(t1, HtmlPath(page))
    requires forall k :: 1 <= k <= |TwigDir(page)| ==> !IsFile(t1, TwigDir(page)[..k])
    requires !IsDir(t1, TwigPath(page))
    ensures ConvertStep(t1, Join(page) + ".html").Ok?
    ensures MovedLast(t1, ConvertStep(t1, Join(page) + ".html").value, page)
  {
    HtmlResourceMoved(t1, page);
  }

  lemma ConvertReadyPrefix(t: Tree, items: seq<string>, pages: seq<Path>)
    requires ConvertReady(t, items, pages) && items != []
    ensures ConvertReady(t, items[..|items| - 1], pages[..|pages| - 1])
  {
    var n := |items|;
    var ip, pp := items[..n - 1], pages[..n - 1];
    assert forall i :: 0 <= i < n - 1 ==> ip[i] == items[i] && pp[i] == pages[i];
    assert forall p :: p in pp ==> p in pages;
  }

  /** The pages and their paths, split into those before the last resource and the last. */
  lemma PagesPrefix(pages: seq<Path>)
    requires pages != []
    ensures var init, last := pages[..|pages| - 1], pages[|pages| - 1];
      && (forall p :: p in pages <==> p in init || p == last)
      && HtmlPaths(pages) == HtmlPaths(init) + (if last == [] then {} else {HtmlPath(last)})
      && TwigPaths(pages) == TwigPaths(init) + (if last == [] then {} else {TwigPath(last)})
  {
    assert pages == pages[..|pages| - 1] + [pages[|pages| - 1]];
  }

  /** A page listed before the last resource is not the last one's page. */
  lemma LastPageFresh(t: Tree, items: seq<string>, pages: seq<Path>, p: Path)
    requires ConvertReady(t, items, pages) && items != []
    requires p in pages[..|pages| - 1] && p != []
    ensures p != pages[|pages| - 1]
  {
    var i :| 0 <= i < |pages| - 1 && pages[..|pages| - 1][i] == p;
    assert pages[i] == p;
  }

  lemma HtmlPathInjective(p: Path, q: Path)
    requires p != [] && q != [] && HtmlPath(p) == HtmlPath(q)
    ensures p == q
  {
    var n := |p|;
    assert |HtmlPath(p)| == n + 1 && |HtmlPath(q)| == |q| + 1;
    assert p[..n - 1] == HtmlPath(p)[1..n] == q[..n - 1];
    var a, b := p[n - 1] + ".html", q[n - 1] + ".html";
    assert a == HtmlPath(p)[n] == b;
    assert p[n - 1] == a[..|a| - 5] && q[n - 1] == b[..|b| - 5];
    assert p == p[..n - 1] + [p[n - 1]] && q == q[..n - 1] + [q[n - 1]];
  }

  lemma TwigPathInjective(p: Path, q: Path)
    requires p != [] && q != [] && TwigPath(p) == TwigPath(q)
    ensures p == q
  {
    var n, m := |p|, |TemplatesRoot|;
    assert |TwigPath(p)| == m + n && |TwigPath(q)| == m + |q|;
    assert p[..n - 1] == TwigPath(p)[m..m + n - 1] == q[..n - 1];
    var a, b := p[n - 1] + ".twig", q[n - 1] + ".twig";
    assert a == TwigPath(p)[m + n - 1] == b;
    assert p[n - 1] == a[..|a| - 5] && q[n - 1] == b[..|b| - 5];
    assert p == p[..n - 1] + [p[n - 1]] && q == q[..n - 1] + [q[n - 1]];
  }

  /** A page's path ends in `.html`, a template's in `.twig`. */
  lemma HtmlNotTwig(p: Path, q: Path)
    requires p != [] && q != []
    ensures HtmlPath(p) != TwigPath(q)
  {
    var h, w := HtmlPath(p), TwigPath(q);
    var a, b := p[|p| - 1] + ".html", q[|q| - 1] + ".twig";
    assert h[|h| - 1] == a && w[|w| - 1] == b;
    assert a[|a| - 1] == 'l' && b[|b| - 1] == 'g';
  }

  /** A path strictly on the way to a template is on the way to its directory. */
  lemma BelowTemplate(q: Path, page: Path)
    requires page != [] && q <= TwigPath(page) && q != TwigPath(page)
    ensures q <= TwigDir(page) && TwigDir(page)[..|q|] == q
  {
    assert TwigPath(page)[..|TwigDir(page)|] == TwigDir(page);
  }

  /** With the resources before it done, the last page can be converted. */
  lemma ConvertLastReady(t: Tree, t1: Tree, items: seq<string>, pages: seq<Path>)
    requires WellFormed(t) && ConvertReady(t, items, pages) && items != [] && pages[|pages| - 1] != []
    requires Converted(t, t1, pages[..|pages| - 1])
    ensures var last := pages[|pages| - 1];
      && WellFormed(t1) && ValidPath(last)
      && IsFile(t1, HtmlPath(last)) && t1[HtmlPath(last)] == t[HtmlPath(last)]
      && (forall k :: 1 <= k <= |TwigDir(last)| ==> !IsFile(t1, TwigDir(last)[..k]))
      && !IsDir(t1, TwigPath(last))
      && items[|items| - 1] == Join(last) + ".html"
  {
    var n := |pages|;
    var init, last := pages[..n - 1], pages[n - 1];
    PagesPrefix(pages);
    var h := HtmlPath(last);
    assert h !in HtmlPaths(init) by {
      if h in HtmlPaths(init) {
        var p :| p in init && p != [] && HtmlPath(p) == h;
        HtmlPathInjective(p, last);
        LastPageFresh(t, items, pages, p);
        assert false;
      }
    }
    assert h !in TwigPaths(init) by {
      if h in TwigPaths(init) {
        var p :| p in init && p != [] && TwigPath(p) == h;
        HtmlNotTwig(last, p);
        assert false;
      }
    }
    WayToTemplateFree(t, t1, items, pages);
    TemplateNotDir(t, t1, items, pages);
  }

  /** No file is in the way of the last page's template directory. */
  lemma WayToTemplateFree(t: Tree, t1: Tree, items: seq<string>, pages: seq<Path>)
    requires WellFormed(t) && ConvertReady(t, items, pages) && items != [] && pages[|pages| - 1] != []
    requires Converted(t, t1, pages[..|pages| - 1])
    ensures var last := pages[|pages| - 1];
      forall k :: 1 <= k <= |TwigDir(last)| ==> !IsFile(t1, TwigDir(last)[..k])
  {
    var n := |pages|;
    var init, last := pages[..n - 1], pages[n - 1];
    PagesPrefix(pages);
    forall k | 1 <= k <= |TwigDir(last)| ensures !IsFile(t1, TwigDir(last)[..k]) {
      WayEntryNotFile(t, t1, items, pages, k);
    }
  }

  lemma WayEntryNotFile(t: Tree, t1: Tree, items: seq<string>, pages: seq<Path>, k: int)
    requires WellFormed(t) && ConvertReady(t, items, pages) && items != [] && pages[|pages| - 1] != []
    requires Converted(t, t1, pages[..|pages| - 1])
    requires 1 <= k <= |TwigDir(pages[|pages| - 1])|
    ensures !IsFile(t1, TwigDir(pages[|pages| - 1])[..k])
  {
    var n := |pages|;
    var init, last := pages[..n - 1], pages[n - 1];
    PagesPrefix(pages);
    var x := TwigDir(last)[..k];
    assert x <= TwigDir(last) && !IsFile(t, x);
    assert x !in TwigPaths(init);
    if x in t {
      assert x !in HtmlPaths(init);
      assert t1[x] == t[x];
    } else if x in t1 {
      assert IsDir(t1, x);
    }
  }

  /** No directory sits where the last page's template goes. */
  lemma TemplateNotDir(t: Tree, t1: Tree, items: seq<string>, pages: seq<Path>)
    requires WellFormed(t) && ConvertReady(t, items, pages) && items != [] && pages[|pages| - 1] != []
    requires Converted(t, t1, pages[..|pages| - 1])
    ensures !IsDir(t1, TwigPath(pages[|pages| - 1]))
  {
    var n := |pages|;
    var init, last := pages[..n - 1], pages[n - 1];
    PagesPrefix(pages);
    var y := TwigPath(last);
    if IsDir(t1, y) {
      if y in TwigPaths(init) {
        assert false;
      } else if y in t {
        if y in HtmlPaths(init) {
          assert false;
        }
        assert false;
      } else {
        var w :| w in TwigPaths(init) && y <= w;
        var p :| p in init && p != [] && TwigPath(p) == w;
        BelowTemplate(y, p);
        assert false;
      }
    }
  }

  /** Every converted page is gone. */
  lemma ConvertedGone(t: Tree, t1: Tree, t': Tree, items: seq<string>, pages: seq<Path>)
    requires WellFormed(t) && ConvertReady(t, items, pages) && items != [] && pages[|pages| - 1] != []
    requires Converted(t, t1, pages[..|pages| - 1]) && MovedLast(t1, t', pages[|pages| - 1])
    ensures forall p :: p in pages && p != [] ==> HtmlPath(p) !in t'
  {
    var n := |pages|;
    var init, last := pages[..n - 1], pages[n - 1];
    PagesPrefix(pages);
    forall p | p in pages && p != [] ensures HtmlPath(p) !in t' {
      if p != last {
        var h := HtmlPath(p);
        if h in t' {
          assert h !in t1;
          HtmlNotTwig(p, last);
          BelowTemplate(h, last);
          assert false;
        }
      }
    }
  }

  /** Every template holds its page's content. */
  lemma ConvertedPlaced(t: Tree, t1: Tree, t': Tree, items: seq<string>, pages: seq<Path>)
    requires WellFormed(t) && ConvertReady(t, items, pages) && items != [] && pages[|pages| - 1] != []
    requires Converted(t, t1, pages[..|pages| - 1]) && MovedLast(t1, t', pages[|pages| - 1])
    requires t1[HtmlPath(pages[|pages| - 1])] == t[HtmlPath(pages[|pages| - 1])]
    ensures forall p :: p in pages && p != [] ==>
      HtmlPath(p) in t && TwigPath(p) in t' && t'[TwigPath(p)] == t[HtmlPath(p)]
  {
    var n := |pages|;
    var init, last := pages[..n - 1], pages[n - 1];
    PagesPrefix(pages);
    forall p | p in pages && p != [] ensures HtmlPath(p) in t && TwigPath(p) in t' && t'[TwigPath(p)] == t[HtmlPath(p)] {
      if p != last {
        HtmlNotTwig(last, p);
        if TwigPath(p) == TwigPath(last) { TwigPathInjective(p, last); }
      }
    }
  }

  /** Every entry that is neither a page nor a template is unchanged. */
  lemma ConvertedKept(t: Tree, t1: Tree, t': Tree, pages: seq<Path>)
    requires pages != [] && pages[|pages| - 1] != []
    requires Converted(t, t1, pages[..|pages| - 1]) && MovedLast(t1, t', pages[|pages| - 1])
    ensures forall q :: q in t && q !in HtmlPaths(pages) && q !in TwigPaths(pages) ==> q in t' && t'[q] == t[q]
  {
    var init, last := pages[..|pages| - 1], pages[|pages| - 1];
    PagesPrefix(pages);
    forall q | q in t && q !in HtmlPaths(pages) && q !in TwigPaths(pages) ensures q in t' && t'[q] == t[q] {
      assert q !in HtmlPaths(init) && q !in TwigPaths(init);
      assert q != HtmlPath(last) && q != TwigPath(last);
    }
  }

  /** Every new entry lies on the way to a template. */
  lemma ConvertedNewUnder(t: Tree, t1: Tree, t': Tree, pages: seq<Path>)
    requires pages != [] && pages[|pages| - 1] != []
    requires Converted(t, t1, pages[..|pages| - 1]) && MovedLast(t1, t', pages[|pages| - 1])
    ensures forall q :: q in t' && q !in t ==> exists w :: w in TwigPaths(pages) && q <= w
  {
    var init, last := pages[..|pages| - 1], pages[|pages| - 1];
    PagesPrefix(pages);
    forall q | q in t' && q !in t ensures exists w :: w in TwigPaths(pages) && q <= w {
      if q in t1 {
        var w :| w in TwigPaths(init) && q <= w;
        assert w in TwigPaths(pages);
      } else {
        assert TwigPath(last) in TwigPaths(pages);
      }
    }
  }

  /** Every new entry other than a template is a directory. */
  lemma ConvertedNewDirs(t: Tree, t1: Tree, t': Tree, pages: seq<Path>)
    requires pages != [] && pages[|pages| - 1] != []
    requires Converted(t, t1, pages[..|pages| - 1]) && MovedLast(t1, t', pages[|pages| - 1])
    ensures forall q :: q in t' && q !in t && q !in TwigPaths(pages) ==> IsDir(t', q)
  {
    forall q | q in t' && q !in t && q !in TwigPaths(pages) ensures IsDir(t', q) {
      NewEntryIsDir(t, t1, t', pages, q);
    }
  }

  lemma NewEntryIsDir(t: Tree, t1: Tree, t': Tree, pages: seq<Path>, q: Path)
    requires pages != [] && pages[|pages| - 1] != []
    requires Converted(t, t1, pages[..|pages| - 1]) && MovedLast(t1, t', pages[|pages| - 1])
    requires q in t' && q !in t && q !in TwigPaths(pages)
    ensures IsDir(t', q)
  {
    var init, last := pages[..|pages| - 1], pages[|pages| - 1];
    PagesPrefix(pages);
    assert q != TwigPath(last) && q !in TwigPaths(init);
    if q in t1 {
      assert IsDir(t1, q);
    } else {
      BelowTemplate(q, last);
      assert IsDir(t', TwigDir(last)[..|q|]);
    }
  }

  // ---------------------------------------------------------------------
  // The PHP sweep

  /** `f['source/wp']`: a substring test, not a prefix test. */
  predicate PhpSkipped(item: string) {
    Contains(item, "source/wp")
  }

  /** `item.gsub(/^source\//, 'build/')`. */
  function PhpDest(item: string): string {
    if StartsWith(item, "source/") then "build/" + item[7..] else item
  }

  function CopyPhp(t: Tree, item: string): Result<Tree, FsError> {
    if PhpSkipped(item) then Ok(t) else CpR(t, Components(item), Components(PhpDest(item)))
  }

  /**
   * A PHP file `source/<rest>` outside the theme sources is copied to
   * `build/<rest>`, replacing whatever file was there, and nothing else changes.
   */
  lemma PhpFileCopied(t: Tree, rest: Path)
    requires WellFormed(t) && ValidPath(rest) && rest != []
    requires !PhpSkipped("source/" + Join(rest))
    requires IsFile(t, ["source"] + rest)
    requires !IsDir(t, BuildRoot + rest) && IsDir(t, BuildRoot + rest[..|rest| - 1])
    ensures CopyPhp(t, "source/" + Join(rest)) == Ok(t[BuildRoot + rest := t[["source"] + rest]])
  {
    var item := "source/" + Join(rest);
    assert StartsWith(item, "source/");
    assert item[7..] == Join(rest);
    assert item == "source" + "/" + Join(rest);
    assert "build/" + Join(rest) == "build" + "/" + Join(rest);
    ComponentsUnder("source", rest);
    ComponentsUnder("build", rest);
    var src, dst := ["source"] + rest, BuildRoot + rest;
    assert src[0] != dst[0];
    assert !(src <= dst);
    assert Parent(dst) == BuildRoot + rest[..|rest| - 1];
    CpRFile(t, src, dst);
  }

  /** The exclusion is a substring test: a file merely named like the theme directory is skipped too. */
  lemma PhpSubstringSkip(t: Tree)
    ensures CopyPhp(t, "source/wp-config.php") == Ok(t)
    ensures !StartsWith("source/wp-config.php", "source/wp/")
  {
    assert StartsWith("source/wp-config.php", "source/wp");
    assert "source/wp-config.php"[9] != "source/wp/"[9];
  }

  /** PHP files inside the theme sources are all skipped. */
  lemma {:induction false} SweepSkipsTheme(t: Tree, items: seq<string>)
    requires forall i :: 0 <= i < |items| ==> StartsWith(items[i], "source/wp")
    ensures EachItem(t, items, CopyPhp) == Ok(t)
    decreases |items|
  {
    if items != [] {
      SweepSkipsTheme(t, items[..|items| - 1]);
      assert PhpSkipped(items[|items| - 1]);
    }
  }

  /** The glob's items are `source/<rest>`, one for each path `rest` below `source`. */
  predicate GlobItems(items: seq<string>, rests: seq<Path>) {
    |items| == |rests| && forall i :: 0 <= i < |items| ==> items[i] == "source/" + Join(rests[i])
  }

  /** The entries the sweep writes: `build/<rest>` for every item it does not skip. */
  function CopyTargets(items: seq<string>, rests: seq<Path>): set<Path>
    requires |items| == |rests|
  {
    set i | 0 <= i < |items| && !PhpSkipped(items[i]) :: BuildRoot + rests[i]
  }

  /**
   * What the sweep needs to succeed: the items are distinct paths, and each
   * copied one is a file whose destination is not a directory and whose
   * destination directory exists (`cp_r` of a file creates no directories).
   */
  ghost predicate SweepReady(t: Tree, items: seq<string>, rests: seq<Path>) {
    && GlobItems(items, rests)
    && (forall i :: 0 <= i < |rests| ==> ValidPath(rests[i]) && rests[i] != [])
    && (forall i, j :: 0 <= i < j < |rests| ==> rests[i] != rests[j])
    && (forall i :: 0 <= i < |items| && !PhpSkipped(items[i]) ==>
          && IsFile(t, ["source"] + rests[i])
          && !IsDir(t, BuildRoot + rests[i])
          && IsDir(t, BuildRoot + rests[i][..|rests[i]| - 1]))
  }

  /**
   * The whole sweep: every item it does not skip has its source file's
   * content at its `build/` destination, every other entry is unchanged,
   * and nothing but those destinations is added.
   */
  lemma {:induction false} SweepCopies(t: Tree, items: seq<string>, rests: seq<Path>)
    requires WellFormed(t) && SweepReady(t, items, rests)
    ensures EachItem(t, items, CopyPhp).Ok?
    ensures var t' := EachItem(t, items, CopyPhp).value;
      forall i :: 0 <= i < |items| && !PhpSkipped(items[i]) ==>
        BuildRoot + rests[i] in t' && t'[BuildRoot + rests[i]] == t[["source"] + rests[i]]
    ensures var t' := EachItem(t, items, CopyPhp).value;
      forall q :: q in t && q !in CopyTargets(items, rests) ==> q in t' && t'[q] == t[q]
    ensures EachItem(t, items, CopyPhp).value.Keys == t.Keys + CopyTargets(items, rests)
    decreases |items|
  {
    if items == [] {
      assert CopyTargets(items, rests) == {};
    } else {
      var n := |items|;
      var ip, rp := items[..n - 1], rests[..n - 1];
      SweepPrefix(t, items, rests);
      SweepCopies(t, ip, rp);
      SweepWellFormed(t, ip);
      var t1 := EachItem(t, ip, CopyPhp).value;
      assert EachItem(t, items, CopyPhp) == CopyPhp(t1, items[n - 1]);
      SweepLast(t, t1, items, rests);
    }
  }

  /** The step for the last item carries the facts about the items before it over to all items. */
  lemma SweepLast(t: Tree, t1: Tree, items: seq<string>, rests: seq<Path>)
    requires WellFormed(t) && SweepReady(t, items, rests) && items != []
    requires var ip, rp := items[..|items| - 1], rests[..|rests| - 1];
      && SweepReady(t, ip, rp) && WellFormed(t1)
      && (forall i :: 0 <= i < |ip| && !PhpSkipped(ip[i]) ==>
            BuildRoot + rp[i] in t1 && t1[BuildRoot + rp[i]] == t[["source"] + rp[i]])
      && (forall q :: q in t && q !in CopyTargets(ip, rp) ==> q in t1 && t1[q] == t[q])
      && t1.Keys == t.Keys + CopyTargets(ip, rp)
    requires CopyTargets(items, rests) == CopyTargets(items[..|items| - 1], rests[..|rests| - 1]) +
      (if PhpSkipped(items[|items| - 1]) then {} else {BuildRoot + rests[|rests| - 1]})
    ensures CopyPhp(t1, items[|items| - 1]).Ok?
    ensures var t' := CopyPhp(t1, items[|items| - 1]).value;
      forall i :: 0 <= i < |items| && !PhpSkipped(items[i]) ==>
        BuildRoot + rests[i] in t' && t'[BuildRoot + rests[i]] == t[["source"] + rests[i]]
    ensures var t' := CopyPhp(t1, items[|items| - 1]).value;
      forall q :: q in t && q !in CopyTargets(items, rests) ==> q in t' && t'[q] == t[q]
    ensures CopyPhp(t1, items[|items| - 1]).value.Keys == t.Keys + CopyTargets(items, rests)
  {
    var n := |items|;
    if !PhpSkipped(items[n - 1]) {
      SweepCopyLast(t, t1, items, rests);
      SweepCopiedSoFar(t, t1, items, rests);
      SweepKeptOthers(t, t1, items, rests);
    } else {
      SweepSkippedLast(t, t1, items, rests);
    }
  }

  /** Writing the last item's destination leaves every other entry as it was and adds only that destination. */
  lemma SweepKeptOthers(t: Tree, t1: Tree, items: seq<string>, rests: seq<Path>)
    requires SweepReady(t, items, rests) && items != [] && !PhpSkipped(items[|items| - 1])
    requires var ip, rp := items[..|items| - 1], rests[..|rests| - 1];
      && (forall q :: q in t && q !in CopyTargets(ip, rp) ==> q in t1 && t1[q] == t[q])
      && t1.Keys == t.Keys + CopyTargets(ip, rp)
    requires CopyTargets(items, rests) == CopyTargets(items[..|items| - 1], rests[..|rests| - 1]) + {BuildRoot + rests[|rests| - 1]}
    ensures var rest := rests[|rests| - 1];
      var t' := t1[BuildRoot + rest := t[["source"] + rest]];
      && (forall q :: q in t && q !in CopyTargets(items, rests) ==> q in t' && t'[q] == t[q])
      && t'.Keys == t.Keys + CopyTargets(items, rests)
  {
  }

  /** A skipped last item leaves the earlier items' copies as they are. */
  lemma SweepSkippedLast(t: Tree, t1: Tree, items: seq<string>, rests: seq<Path>)
    requires SweepReady(t, items, rests) && items != [] && PhpSkipped(items[|items| - 1])
    requires var ip, rp := items[..|items| - 1], rests[..|rests| - 1];
      forall i :: 0 <= i < |ip| && !PhpSkipped(ip[i]) ==>
        BuildRoot + rp[i] in t1 && t1[BuildRoot + rp[i]] == t[["source"] + rp[i]]
    ensures forall i :: 0 <= i < |items| && !PhpSkipped(items[i]) ==>
      BuildRoot + rests[i] in t1 && t1[BuildRoot + rests[i]] == t[["source"] + rests[i]]
  {
    var n := |items|;
    var ip, rp := items[..n - 1], rests[..n - 1];
    forall i | 0 <= i < n && !PhpSkipped(items[i])
      ensures BuildRoot + rests[i] in t1 && t1[BuildRoot + rests[i]] == t[["source"] + rests[i]]
    {
      assert i < n - 1 && ip[i] == items[i] && rp[i] == rests[i];
    }
  }

  /** After the step for the last item, the earlier items' copies are still in place. */
  lemma SweepCopiedSoFar(t: Tree, t1: Tree, items: seq<string>, rests: seq<Path>)
    requires SweepReady(t, items, rests) && items != [] && !PhpSkipped(items[|items| - 1])
    requires var ip, rp := items[..|items| - 1], rests[..|rests| - 1];
      && (forall i :: 0 <= i < |ip| && !PhpSkipped(ip[i]) ==>
            BuildRoot + rp[i] in t1 && t1[BuildRoot + rp[i]] == t[["source"] + rp[i]])
      && BuildRoot + rests[|rests| - 1] !in CopyTargets(ip, rp)
    ensures var rest := rests[|rests| - 1];
      var t' := t1[BuildRoot + rest := t[["source"] + rest]];
      forall i :: 0 <= i < |items| && !PhpSkipped(items[i]) ==>
        BuildRoot + rests[i] in t' && t'[BuildRoot + rests[i]] == t[["source"] + rests[i]]
  {
    var n := |items|;
    var ip, rp := items[..n - 1], rests[..n - 1];
    forall i | 0 <= i < n - 1 && !PhpSkipped(items[i])
      ensures BuildRoot + rests[i] in t1 && t1[BuildRoot + rests[i]] == t[["source"] + rests[i]]
      ensures BuildRoot + rests[i] != BuildRoot + rests[n - 1]
    {
      assert ip[i] == items[i] && rp[i] == rests[i];
      assert BuildRoot + rp[i] in CopyTargets(ip, rp);
    }
  }

  /** The sweep's first items are ready too, and the targets grow by the last item's destination when it is copied. */
  lemma SweepPrefix(t: Tree, items: seq<string>, rests: seq<Path>)
    requires SweepReady(t, items, rests) && items != []
    ensures SweepReady(t, items[..|items| - 1], rests[..|rests| - 1])
    ensures CopyTargets(items, rests) == CopyTargets(items[..|items| - 1], rests[..|rests| - 1]) +
      (if PhpSkipped(items[|items| - 1]) then {} else {BuildRoot + rests[|rests| - 1]})
  {
    var n := |items|;
    var ip, rp := items[..n - 1], rests[..n - 1];
    assert SweepReady(t, ip, rp) by {
      assert forall i :: 0 <= i < n - 1 ==> ip[i] == items[i] && rp[i] == rests[i];
    }
    CopyTargetsPrefix(items, rests);
  }

  lemma CopyTargetsPrefix(items: seq<string>, rests: seq<Path>)
    requires |items| == |rests| && items != []
    ensures CopyTargets(items, rests) == CopyTargets(items[..|items| - 1], rests[..|rests| - 1]) +
      (if PhpSkipped(items[|items| - 1]) then {} else {BuildRoot + rests[|rests| - 1]})
  {
    var n := |items|;
    var ip, rp := items[..n - 1], rests[..n - 1];
    forall q | q in CopyTargets(ip, rp) ensures q in CopyTargets(items, rests) {
      var i :| 0 <= i < |ip| && !PhpSkipped(ip[i]) && q == BuildRoot + rp[i];
      assert ip[i] == items[i] && rp[i] == rests[i];
    }
    forall q | q in CopyTargets(items, rests) && q != BuildRoot + rests[n - 1]
      ensures q in CopyTargets(ip, rp)
    {
      var i :| 0 <= i < |items| && !PhpSkipped(items[i]) && q == BuildRoot + rests[i];
      assert i < n - 1;
      assert ip[i] == items[i] && rp[i] == rests[i];
    }
  }

  /** Two destinations below `build` are the same only for the same path. */
  lemma BuildPathsApart(a: Path, b: Path)
    requires BuildRoot + a == BuildRoot + b
    ensures a == b
  {
    assert a == (BuildRoot + a)[1..];
    assert b == (BuildRoot + b)[1..];
  }

  /** Copying the last item after the others: the step succeeds and adds exactly its destination. */
  lemma SweepCopyLast(t: Tree, t1: Tree, items: seq<string>, rests: seq<Path>)
    requires WellFormed(t) && SweepReady(t, items, rests) && items != []
    requires !PhpSkipped(items[|items| - 1])
    requires var ip, rp := items[..|items| - 1], rests[..|rests| - 1];
      && SweepReady(t, ip, rp) && WellFormed(t1)
      && (forall i :: 0 <= i < |ip| && !PhpSkipped(ip[i]) ==>
            BuildRoot + rp[i] in t1 && t1[BuildRoot + rp[i]] == t[["source"] + rp[i]])
      && (forall q :: q in t && q !in CopyTargets(ip, rp) ==> q in t1 && t1[q] == t[q])
      && t1.Keys == t.Keys + CopyTargets(ip, rp)
    ensures var rest := rests[|rests| - 1];
      CopyPhp(t1, items[|items| - 1]) == Ok(t1[BuildRoot + rest := t[["source"] + rest]])
    ensures var rest := rests[|rests| - 1];
      BuildRoot + rest !in CopyTargets(items[..|items| - 1], rests[..|rests| - 1])
  {
    var n := |items|;
    var ip, rp := items[..n - 1], rests[..n - 1];
    var rest := rests[n - 1];
    var src, dst, up := ["source"] + rest, BuildRoot + rest, BuildRoot + rest[..|rest| - 1];
    assert items[n - 1] == "source/" + Join(rest);
    TargetsAvoidLast(t, items, rests);
    assert t1[src] == t[src] && t1[up] == t[up];
    assert dst in t1 ==> t1[dst] == t[dst];
    PhpFileCopied(t1, rest);
  }

  /** The earlier items' destinations are not the last item's source, destination or destination directory. */
  lemma TargetsAvoidLast(t: Tree, items: seq<string>, rests: seq<Path>)
    requires SweepReady(t, items, rests) && items != [] && !PhpSkipped(items[|items| - 1])
    ensures var rest, ct := rests[|rests| - 1], CopyTargets(items[..|items| - 1], rests[..|rests| - 1]);
      && ["source"] + rest !in ct
      && BuildRoot + rest !in ct
      && BuildRoot + rest[..|rest| - 1] !in ct
  {
    var n := |items|;
    var ip, rp := items[..n - 1], rests[..n - 1];
    var rest := rests[n - 1];
    var src, dst, up := ["source"] + rest, BuildRoot + rest, BuildRoot + rest[..|rest| - 1];
    forall q | q in CopyTargets(ip, rp) ensures q != dst && q != src && q != up {
      var i :| 0 <= i < |ip| && !PhpSkipped(ip[i]) && q == BuildRoot + rp[i];
      assert rp[i] == rests[i] && ip[i] == items[i];
      if q == dst {
        BuildPathsApart(rests[i], rest);
        assert false;
      }
      assert q[0] != src[0];
      if q == up {
        assert false;
      }
    }
  }

  // ---------------------------------------------------------------------
  // The empty-directory prune

  /** The string `Find.find('build/')` yields for an entry below `build`. */
  function FindString(p: Path): string
    requires BuildRoot <= p
  {
    "build/" + Join(p[1..])
  }

  /** `path.match(/(\/\.git|\/\.sass-cache|\/wp\/)/)`. */
  predicate Protected(s: string) {
    Contains(s, "/.git") || Contains(s, "/.sass-cache") || Contains(s, "/wp/")
  }

  /**
   * The directories the pass removes: those that are empty and unprotected
   * when `Find` reaches them. Find visits a directory before its contents,
   * so emptiness is that of the tree the pass starts from.
   */
  function PrunedDirs(t: Tree): set<Path> {
    set p | p in t && BuildRoot <= p && t[p].Dir? && Children(t, p) == {} && !Protected(FindString(p))
  }

  function Pruned(t: Tree): Tree {
    t - PrunedDirs(t)
  }

  /** Nothing below `build/wp` is ever removed. */
  lemma ThemeTreeProtected(rest: Path)
    requires rest != []
    ensures Protected(FindString(BuildRoot + ["wp"] + rest))
  {
    var p := BuildRoot + ["wp"] + rest;
    assert p[1..] == ["wp"] + rest;
    assert FindString(p) == "build" + ("/wp/" + Join(rest));
    assert StartsWith("/wp/" + Join(rest), "/wp/");
    ContainsInSuffix("build", "/wp/" + Join(rest), "/wp/");
  }

  /** A string with no `.` and at most one `/` matches none of the protected patterns. */
  lemma UnprotectedWhen(s: string)
    requires '.' !in s && multiset(s)['/'] <= 1
    ensures !Protected(s)
  {
    assert "/.git"[1] == '.';
    MissingChar(s, "/.git", 1);
    assert "/.sass-cache"[1] == '.';
    MissingChar(s, "/.sass-cache", 1);
    SlashesInWp();
    TooFewOf(s, "/wp/", '/');
  }

  lemma SlashesInWp()
    ensures multiset("/wp/")['/'] == 2
  {
  }

  /** `build/wp` itself is not protected by the pattern: only what lies below it. */
  lemma ThemeRootUnprotected()
    ensures !Protected(FindString(BuildRoot + ["wp"]))
  {
    assert (BuildRoot + ["wp"])[1..] == ["wp"];
    assert FindString(BuildRoot + ["wp"]) == "build/wp";
    assert multiset("build/wp")['/'] == 1;
    UnprotectedWhen("build/wp");
  }

  /** The pass removes no file and keeps the tree well formed. */
  lemma PruneWellFormed(t: Tree)
    requires WellFormed(t)
    ensures WellFormed(Pruned(t))
    ensures forall q :: q in t && t[q].File? ==> q in Pruned(t) && Pruned(t)[q] == t[q]
  {
    var t' := Pruned(t);
    forall q | q in t' && |q| > 1 ensures IsDir(t', Parent(q)) {
      if Parent(q) in PrunedDirs(t) {
        ChildOfParent(t, q);
        assert false;
      }
    }
  }

  lemma ChildOfParent(t: Tree, q: Path)
    requires q in t && |q| > 1
    ensures q in Children(t, Parent(q))
  {
  }

  /**
   * A directory whose contents were all removed is still there after the
   * pass, now empty: the pass does not cascade.
   */
  lemma EmptiedParentSurvives(t: Tree, d: Path)
    requires d in t && t[d].Dir? && BuildRoot <= d
    requires Children(t, d) != {} && Children(t, d) <= PrunedDirs(t)
    ensures d in Pruned(t) && Children(Pruned(t), d) == {}
  {
    var c :| c in Children(t, d);
    assert d !in PrunedDirs(t);
  }

  /** An example: a second pass removes what the first one left empty. */
  lemma PruneNotIdempotent()
    ensures var t := map[BuildRoot := Dir, BuildRoot + ["css"] := Dir];
      && Pruned(t) == map[BuildRoot := Dir]
      && Pruned(Pruned(t)) == map[]
  {
    var css := BuildRoot + ["css"];
    var t := map[BuildRoot := Dir, css := Dir];
    ExampleNames(css);
    assert Children(t, css) == {};
    assert css in Children(t, BuildRoot);
    assert css in PrunedDirs(t);
    assert PrunedDirs(t) == {css};
    var t1 := map[BuildRoot := Dir];
    assert Pruned(t) == t1;
    assert Children(t1, BuildRoot) == {};
    assert BuildRoot in PrunedDirs(t1);
    assert PrunedDirs(t1) == {BuildRoot};
  }

  lemma ExampleNames(css: Path)
    requires css == BuildRoot + ["css"]
    ensures !Protected(FindString(css)) && !Protected(FindString(BuildRoot))
  {
    CssUnprotected(css);
    RootUnprotected();
  }

  lemma CssUnprotected(css: Path)
    requires css == BuildRoot + ["css"]
    ensures !Protected(FindString(css))
  {
    assert css[1..] == ["css"];
    assert FindString(css) == "build/css";
    assert multiset("build/css")['/'] == 1;
    UnprotectedWhen("build/css");
  }

  lemma RootUnprotected()
    ensures !Protected(FindString(BuildRoot))
  {
    assert FindString(BuildRoot) == "build/";
    assert multiset("build/")['/'] == 1;
    UnprotectedWhen("build/");
  }

  /** The name of an entry. */
  function Basename(p: Path): string {
    if p == [] then "" else p[|p| - 1]
  }

  function Basenames(ps: seq<Path>): seq<string> {
    if ps == [] then [] else [Basename(ps[0])] + Basenames(ps[1..])
  }

  /**
   * `Dir.entries(path).join == "..."` holds exactly when the directory has
   * no entries besides `.` and `..`, as entry names are never empty.
   */
  lemma ListingEmpty(names: seq<string>)
    requires forall i :: 0 <= i < |names| ==> names[i] != ""
    ensures JoinWith([".", ".."] + names, "") == "..." <==> names == []
  {
    JoinWithCons(".", [".."] + names, "");
    if names == [] {
      assert JoinWith([".."], "") == "..";
    } else {
      JoinWithCons("..", names, "");
      JoinWithStarts(names, "");
      assert |JoinWith([".", ".."] + names, "")| == 3 + |JoinWith(names, "")|;
    }
  }

  lemma JoinWithCons(x: string, parts: seq<string>, sep: string)
    requires parts != []
    ensures JoinWith([x] + parts, sep) == x + sep + JoinWith(parts, sep)
  {
    assert ([x] + parts)[1..] == parts;
  }

  lemma JoinWithStarts(parts: seq<string>, sep: string)
    requires parts != []
    ensures parts[0] <= JoinWith(parts, sep)
  {
  }

  // ---------------------------------------------------------------------
  // The whole hook

  /** `after_build`: the copies, the conversion and the prune, with the count of removed directories. */
  function AfterBuildResult(t: Tree, phpFiles: seq<string>, resources: seq<string>): Result<(Tree, nat), FsError> {
    match CpRToDir(t, WpSource, BuildRoot)
    case Err(e) => Err(e)
    case Ok(t1) =>
      match EachItem(t1, phpFiles, CopyPhp)
      case Err(e) => Err(e)
      case Ok(t2) =>
        match EachItem(t2, resources, ConvertStep)
        case Err(e) => Err(e)
        case Ok(t3) => if IsDir(t3, BuildRoot) then Ok((Pruned(t3), |PrunedDirs(t3)|)) else Err(NoEntry)
  }

  /** With `build` a regular file, the copy to `'build/'` fails and the hook stops there. */
  lemma BuildIsFileAborts(t: Tree, phpFiles: seq<string>, resources: seq<string>)
    requires IsDir(t, WpSource) && IsFile(t, BuildRoot)
    ensures AfterBuildResult(t, phpFiles, resources) == Err(Exists)
  {
  }

  /** A successful hook found `build` a directory when `Find` started. */
  lemma AfterBuildFoundRoot(t: Tree, phpFiles: seq<string>, resources: seq<string>)
    requires AfterBuildResult(t, phpFiles, resources).Ok?
    ensures !IsFile(t, BuildRoot)
    ensures IsDir(CpRToDir(t, WpSource, BuildRoot).value, BuildRoot)
  {
    CpRToDirMakesDir(t, WpSource, BuildRoot);
  }

  /** Each step keeps the tree well formed. */
  lemma ConvertStepWellFormed(t: Tree, item: string)
    requires WellFormed(t) && ConvertStep(t, item).Ok?
    ensures WellFormed(ConvertStep(t, item).value)
  {
    if EndsWith(item, ".html") {
      var path := item[..|item| - 5];
      var parentDir := Dirname(TemplateDest(path));
      if !IsDir(t, parentDir) { MkdirPSpec(t, parentDir); }
      MvWellFormed(PrepareDir(t, parentDir).value, Components("build/" + path + ".html"), Components(TemplateDest(path) + ".twig"));
    }
  }

  lemma CopyPhpWellFormed(t: Tree, item: string)
    requires WellFormed(t) && CopyPhp(t, item).Ok?
    ensures WellFormed(CopyPhp(t, item).value)
  {
    if !PhpSkipped(item) { CpRWellFormed(t, Components(item), Components(PhpDest(item))); }
  }

  lemma {:induction false} ConvertAllWellFormed(t: Tree, items: seq<string>)
    requires WellFormed(t) && EachItem(t, items, ConvertStep).Ok?
    ensures WellFormed(EachItem(t, items, ConvertStep).value)
    decreases |items|
  {
    if items != [] {
      ConvertAllWellFormed(t, items[..|items| - 1]);
      ConvertStepWellFormed(EachItem(t, items[..|items| - 1], ConvertStep).value, items[|items| - 1]);
    }
  }

  lemma {:induction false} SweepWellFormed(t: Tree, items: seq<string>)
    requires WellFormed(t) && EachItem(t, items, CopyPhp).Ok?
    ensures WellFormed(EachItem(t, items, CopyPhp).value)
    decreases |items|
  {
    if items != [] {
      SweepWellFormed(t, items[..|items| - 1]);
      CopyPhpWellFormed(EachItem(t, items[..|items| - 1], CopyPhp).value, items[|items| - 1]);
    }
  }

  /** A successful hook leaves a well-formed tree, with the count of removed directories. */
  lemma AfterBuildWellFormed(t: Tree, phpFiles: seq<string>, resources: seq<string>)
    requires WellFormed(t) && AfterBuildResult(t, phpFiles, resources).Ok?
    ensures WellFormed(AfterBuildResult(t, phpFiles, resources).value.0)
  {
    var c := CpRToDir(t, WpSource, BuildRoot);
    assert c.Ok?;
    var t1 := c.value;
    var sw := EachItem(t1, phpFiles, CopyPhp);
    assert sw.Ok?;
    var t2 := sw.value;
    var cv := EachItem(t2, resources, ConvertStep);
    assert cv.Ok?;
    var t3 := cv.value;
    assert AfterBuildResult(t, phpFiles, resources) == Ok((Pruned(t3), |PrunedDirs(t3)|));
    CpRToDirMakesDir(t, WpSource, BuildRoot);
    CpRWellFormed(t, WpSource, BuildRoot);
    SweepWellFormed(t1, phpFiles);
    ConvertAllWellFormed(t2, resources);
    PruneWellFormed(t3);
    assert AfterBuildResult(t, phpFiles, resources).value.0 == Pruned(t3);
  }

  // ---------------------------------------------------------------------
  // The search of `Find.find`: a worklist of paths still to visit

  /** Every path waiting in the worklist is an entry below `build`. */
  ghost predicate Pending(t0: Tree, ps: seq<Path>) {
    forall i :: 0 <= i < |ps| ==> ps[i] in t0 && BuildRoot <= ps[i]
  }

  /** No waiting path lies inside another. */
  ghost predicate Apart(ps: seq<Path>) {
    forall i, j :: 0 <= i < |ps| && 0 <= j < |ps| && i != j ==> !(ps[i] <= ps[j])
  }

  /** No visited path lies inside a waiting one. */
  ghost predicate NotYetSeen(visited: set<Path>, ps: seq<Path>) {
    forall v, i :: v in visited && 0 <= i < |ps| ==> !(ps[i] <= v)
  }

  /** Every entry below `build` was visited or lies inside a waiting path. */
  ghost predicate Covered(t0: Tree, visited: set<Path>, ps: seq<Path>) {
    forall q :: q in t0 && BuildRoot <= q && q !in visited ==> exists i :: 0 <= i < |ps| && ps[i] <= q
  }

  ghost predicate Frontier(t0: Tree, visited: set<Path>, ps: seq<Path>) {
    && Pending(t0, ps) && Apart(ps) && NotYetSeen(visited, ps) && Covered(t0, visited, ps)
    && (forall v :: v in visited ==> v in t0 && BuildRoot <= v)
  }

  /** What `Find` pushes after yielding `p`: its entries, when it is still a directory. */
  ghost predicate Descends(t0: Tree, p: Path, kids: seq<Path>) {
    var next := if p in t0 && t0[p].Dir? && p !in PrunedDirs(t0) then Children(t0, p) else {};
    && (forall k :: 0 <= k < |kids| ==> kids[k] in next)
    && (forall c :: c in next ==> c in kids)
    && (forall k, l :: 0 <= k < l < |kids| ==> kids[k] != kids[l])
  }

  lemma FrontierStart(t0: Tree)
    requires BuildRoot in t0
    ensures Frontier(t0, {}, [BuildRoot])
  {
    forall q | q in t0 && BuildRoot <= q ensures exists i :: 0 <= i < 1 && [BuildRoot][i] <= q {
      assert [BuildRoot][0] <= q;
    }
  }

  /** When nothing is left to visit, every directory to remove was visited. */
  lemma FrontierDone(t0: Tree, visited: set<Path>)
    requires Frontier(t0, visited, [])
    ensures visited * PrunedDirs(t0) == PrunedDirs(t0)
  {
  }

  /** Visiting the first waiting path and pushing what it contains keeps the frontier. */
  lemma FrontierStep(t0: Tree, visited: set<Path>, ps: seq<Path>, kids: seq<Path>)
    requires WellFormed(t0) && Frontier(t0, visited, ps) && ps != []
    requires ps[0] !in visited && Descends(t0, ps[0], kids)
    ensures Frontier(t0, visited + {ps[0]}, kids + ps[1..])
  {
    var p := ps[0];
    var ps' := kids + ps[1..];
    StepPending(t0, ps, kids);
    StepApart(t0, ps, kids);
    StepNotYetSeen(t0, visited, ps, kids);
    StepCovered(t0, visited, ps, kids);
  }

  lemma StepPending(t0: Tree, ps: seq<Path>, kids: seq<Path>)
    requires Pending(t0, ps) && ps != [] && Descends(t0, ps[0], kids)
    ensures Pending(t0, kids + ps[1..])
  {
    var ps' := kids + ps[1..];
    forall i | 0 <= i < |ps'| ensures ps'[i] in t0 && BuildRoot <= ps'[i] {
      if i < |kids| {
        assert kids[i] in Children(t0, ps[0]);
      } else {
        assert ps'[i] == ps[i - |kids| + 1];
      }
    }
  }

  lemma StepApart(t0: Tree, ps: seq<Path>, kids: seq<Path>)
    requires Pending(t0, ps) && Apart(ps) && ps != [] && Descends(t0, ps[0], kids)
    ensures Apart(kids + ps[1..])
  {
    var p := ps[0];
    var ps' := kids + ps[1..];
    forall i, j | 0 <= i < |ps'| && 0 <= j < |ps'| && i != j ensures !(ps'[i] <= ps'[j]) {
      if i < |kids| && j < |kids| {
        assert kids[i] in Children(t0, p) && kids[j] in Children(t0, p);
        assert kids[i] != kids[j];
      } else if i < |kids| {
        var x := ps[j - |kids| + 1];
        assert ps'[j] == x;
        assert kids[i] in Children(t0, p);
        if kids[i] <= x {
          assert false;
        }
      } else if j < |kids| {
        var x := ps[i - |kids| + 1];
        assert ps'[i] == x;
        assert kids[j] in Children(t0, p);
        if x <= kids[j] {
          PrefixesCompare(x, p, kids[j]);
          assert false;
        }
      } else {
        assert ps'[i] == ps[i - |kids| + 1] && ps'[j] == ps[j - |kids| + 1];
      }
    }
  }

  lemma StepNotYetSeen(t0: Tree, visited: set<Path>, ps: seq<Path>, kids: seq<Path>)
    requires Pending(t0, ps) && Apart(ps) && NotYetSeen(visited, ps) && ps != [] && Descends(t0, ps[0], kids)
    ensures NotYetSeen(visited + {ps[0]}, kids + ps[1..])
  {
    var p := ps[0];
    var ps' := kids + ps[1..];
    forall v, i | v in visited + {p} && 0 <= i < |ps'| ensures !(ps'[i] <= v) {
      if i < |kids| {
        assert kids[i] in Children(t0, p);
        if v != p && kids[i] <= v {
          assert false;
        }
      } else {
        assert ps'[i] == ps[i - |kids| + 1];
      }
    }
  }

  lemma StepCovered(t0: Tree, visited: set<Path>, ps: seq<Path>, kids: seq<Path>)
    requires WellFormed(t0) && Pending(t0, ps) && Covered(t0, visited, ps) && ps != [] && Descends(t0, ps[0], kids)
    ensures Covered(t0, visited + {ps[0]}, kids + ps[1..])
  {
    var p := ps[0];
    var ps' := kids + ps[1..];
    forall q | q in t0 && BuildRoot <= q && q !in visited + {p} ensures exists i :: 0 <= i < |ps'| && ps'[i] <= q {
      var i :| 0 <= i < |ps| && ps[i] <= q;
      if i > 0 {
        assert ps'[i - 1 + |kids|] == ps[i];
      } else {
        var k := CoveringKid(t0, p, q, kids);
        assert ps'[k] == kids[k];
      }
    }
  }

  /** The child of `p` on the way to an entry inside it is among the pushed paths. */
  lemma CoveringKid(t0: Tree, p: Path, q: Path, kids: seq<Path>) returns (k: nat)
    requires WellFormed(t0) && p in t0 && q in t0 && p <= q && p != q && Descends(t0, p, kids)
    ensures k < |kids| && kids[k] <= q
  {
    InnerEntry(t0, p, q);
    var c := q[..|p| + 1];
    assert c in kids;
    k :| 0 <= k < |kids| && kids[k] == c;
  }

  /** An entry strictly inside `p` means `p` is a kept directory, and the step towards the entry is one of its children. */
  lemma InnerEntry(t0: Tree, p: Path, q: Path)
    requires WellFormed(t0) && p in t0 && q in t0 && p <= q && p != q
    ensures t0[p].Dir? && p !in PrunedDirs(t0)
    ensures |q| > |p| && q[..|p| + 1] in Children(t0, p) && q[..|p| + 1] <= q
  {
    StrictPrefixLonger(p, q);
    var c := q[..|p| + 1];
    if |q| > |p| + 1 {
      AncestorsAreDirs(t0, q, |p| + 1);
    } else {
      assert c == q;
    }
    AncestorsAreDirs(t0, q, |p|);
    PrefixIsTake(p, q);
    assert c in Children(t0, p);
  }

  /**
   * The path `Find` reaches next, and everything inside it, is as in the
   * tree the pass started from: nothing there has been visited yet.
   */
  lemma ReachedUnchanged(t0: Tree, visited: set<Path>, ps: seq<Path>)
    requires Frontier(t0, visited, ps) && ps != []
    ensures var t := t0 - (visited * PrunedDirs(t0));
      && ps[0] !in visited && ps[0] in t && t[ps[0]] == t0[ps[0]]
      && Children(t, ps[0]) == Children(t0, ps[0])
      && Children(t - {ps[0]}, ps[0]) == Children(t0, ps[0])
  {
    var t := t0 - (visited * PrunedDirs(t0));
    forall c | c in Children(t0, ps[0]) ensures c in Children(t - {ps[0]}, ps[0]) {
      assert c !in visited;
    }
  }

  /** Recording the visit of `p`: the removals and their count follow the visited set. */
  lemma VisitRecorded(t0: Tree, visited: set<Path>, p: Path, removed: bool)
    requires p in t0 && p !in visited && (removed <==> p in PrunedDirs(t0))
    ensures var t := t0 - (visited * PrunedDirs(t0));
      && (if removed then t - {p} else t) == t0 - ((visited + {p}) * PrunedDirs(t0))
      && |(visited + {p}) * PrunedDirs(t0)| == |visited * PrunedDirs(t0)| + (if removed then 1 else 0)
  {
    if removed {
      assert (visited + {p}) * PrunedDirs(t0) == visited * PrunedDirs(t0) + {p};
    } else {
      assert (visited + {p}) * PrunedDirs(t0) == visited * PrunedDirs(t0);
    }
  }

  /** A listing of `p` joins to `...` exactly when `p` has no entries. */
  lemma EmptyListing(t: Tree, p: Path, listed: seq<Path>)
    requires WellFormed(t)
    requires forall k :: 0 <= k < |listed| ==> listed[k] in Children(t, p)
    requires forall c :: c in Children(t, p) ==> c in listed
    ensures JoinWith([".", ".."] + Basenames(listed), "") == "..." <==> Children(t, p) == {}
  {
    BasenamesNonEmpty(t, listed);
    ListingEmpty(Basenames(listed));
    if listed != [] {
      assert listed[0] in Children(t, p);
    }
    if Children(t, p) != {} {
      var c :| c in Children(t, p);
      assert c in listed;
    }
  }

  /** Whether the pass removes `p`, judged on the tree it has reached, agrees with `PrunedDirs` of the starting tree. */
  lemma PruneChoice(t0: Tree, t: Tree, p: Path)
    requires p in t0 && BuildRoot <= p && p in t && t[p] == t0[p] && Children(t, p) == Children(t0, p)
    ensures p in PrunedDirs(t0) <==> IsDir(t, p) && Children(t, p) == {} && !Protected(FindString(p))
  {
  }

  /** The names of listed entries are never empty. */
  lemma {:induction false} BasenamesNonEmpty(t: Tree, ps: seq<Path>)
    requires WellFormed(t) && forall i :: 0 <= i < |ps| ==> ps[i] in t
    ensures |Basenames(ps)| == |ps|
    ensures forall i :: 0 <= i < |ps| ==> Basenames(ps)[i] != ""
  {
    if ps != [] {
      BasenamesNonEmpty(t, ps[1..]);
      assert ValidName(ps[0][|ps[0]| - 1]);
    }
  }

  /**
   * The working directory. The methods run the `FileUtils`, `Dir` and
   * `Find` calls of the hook on `entries`. Each primitive is specified by
   * its `FileTree` function, each step of the hook by its function above.
   */
  class FileSystem {
    var entries: Tree

    ghost predicate Valid()
      reads this
    {
      WellFormed(entries)
    }

    constructor (t: Tree)
      requires WellFormed(t)
      ensures Valid() && entries == t
    {
      entries := t;
    }

    /** `FileUtils.mkdir_p(p)`. */
    method MakeDirs(p: Path) returns (failure: Option<FsError>)
      requires Valid() && ValidPath(p)
      modifies this
      ensures Valid()
      ensures failure == ErrorOf(FileTree.MkdirP(old(entries), p))
      ensures entries == if failure.None? then FileTree.MkdirP(old(entries), p).value else old(entries)
    {
      MkdirPSpec(entries, p);
      var r := FileTree.MkdirP(entries, p);
      if r.Ok? { entries := r.value; }
      failure := ErrorOf(r);
    }

    /** `FileUtils.mv(src, dst)`. */
    method Move(src: Path, dst: Path) returns (failure: Option<FsError>)
      requires Valid() && ValidPath(dst)
      modifies this
      ensures Valid()
      ensures failure == ErrorOf(Mv(old(entries), src, dst))
      ensures entries == if failure.None? then Mv(old(entries), src, dst).value else old(entries)
    {
      var r := Mv(entries, src, dst);
      if r.Ok? {
        MvWellFormed(entries, src, dst);
        entries := r.value;
      }
      failure := ErrorOf(r);
    }

    /** `FileUtils.cp_r(src, dst, preserve: true, remove_destination: true)`. */
    method CopyTree(src: Path, dst: Path) returns (failure: Option<FsError>)
      requires Valid() && ValidPath(dst)
      modifies this
      ensures Valid()
      ensures failure == ErrorOf(CpR(old(entries), src, dst))
      ensures entries == if failure.None? then CpR(old(entries), src, dst).value else old(entries)
    {
      var r := CpR(entries, src, dst);
      if r.Ok? {
        CpRWellFormed(entries, src, dst);
        entries := r.value;
      }
      failure := ErrorOf(r);
    }

    /** `FileUtils.cp_r(src, dst + '/', preserve: true, remove_destination: true)`. */
    method CopyTreeInto(src: Path, dst: Path) returns (failure: Option<FsError>)
      requires Valid() && ValidPath(dst)
      modifies this
      ensures Valid()
      ensures failure == ErrorOf(CpRToDir(old(entries), src, dst))
      ensures entries == if failure.None? then CpRToDir(old(entries), src, dst).value else old(entries)
    {
      if src !in entries {
        return Some(NoEntry);
      }
      if IsFile(entries, dst) {
        return Some(if entries[src].Dir? then Exists else NotDirectory);
      }
      if entries[src].File? && dst !in entries {
        return Some(IsDirectory);
      }
      failure := CopyTree(src, dst);
    }

    /** `Dir.rmdir(p)`. */
    method RemoveDir(p: Path) returns (failure: Option<FsError>)
      requires Valid()
      modifies this
      ensures Valid()
      ensures failure == ErrorOf(Rmdir(old(entries), p))
      ensures entries == if failure.None? then Rmdir(old(entries), p).value else old(entries)
    {
      var r := Rmdir(entries, p);
      if r.Ok? {
        RmdirWellFormed(entries, p);
        entries := r.value;
      }
      failure := ErrorOf(r);
    }

    /** `html2twig(path)`. */
    method Html2Twig(path: string) returns (failure: Option<FsError>)
      requires Valid()
      modifies this
      ensures Valid()
      ensures failure == ErrorOf(ConvertPage(old(entries), path))
      ensures failure.None? ==> entries == ConvertPage(old(entries), path).value
    {
      var src := Components("build/" + path + ".html");
      var dest := TemplateDest(path);
      var parentDir := Dirname(dest);
      if !IsDir(entries, parentDir) {
        failure := MakeDirs(parentDir);
        if failure.Some? { return; }
      }
      failure := Move(src, Components(dest + ".twig"));
    }

    /** The PHP sweep: `Dir['source/**/*.php'].reject { ... }.each { cp_r ... }`, the glob given as `items`. */
    method CopyPhpFiles(items: seq<string>) returns (failure: Option<FsError>)
      requires Valid()
      modifies this
      ensures Valid()
      ensures failure == ErrorOf(EachItem(old(entries), items, CopyPhp))
      ensures failure.None? ==> entries == EachItem(old(entries), items, CopyPhp).value
    {
      failure := None;
      var i := 0;
      while i < |items|
        invariant 0 <= i <= |items| && Valid()
        invariant failure.None? && EachItem(old(entries), items[..i], CopyPhp) == Ok(entries)
      {
        var item := items[i];
        EachItemNext(old(entries), items, i, CopyPhp);
        ghost var before := entries;
        if !PhpSkipped(item) {
          failure := CopyTree(Components(item), Components(PhpDest(item)));
          assert failure == ErrorOf(CopyPhp(before, item));
          if failure.Some? {
            EachItemStops(old(entries), items, i + 1, CopyPhp);
            return;
          }
        }
        assert CopyPhp(before, item) == Ok(entries);
        i := i + 1;
      }
      assert items[..i] == items;
    }

    /** `sitemap.resources.each { |item| html2twig(...) if item.path.match(/\.html$/) }`, the paths given as `resources`. */
    method ConvertResources(resources: seq<string>) returns (failure: Option<FsError>)
      requires Valid()
      modifies this
      ensures Valid()
      ensures failure == ErrorOf(EachItem(old(entries), resources, ConvertStep))
      ensures failure.None? ==> entries == EachItem(old(entries), resources, ConvertStep).value
    {
      failure := None;
      var i := 0;
      while i < |resources|
        invariant 0 <= i <= |resources| && Valid()
        invariant failure.None? && EachItem(old(entries), resources[..i], ConvertStep) == Ok(entries)
      {
        var item := resources[i];
        EachItemNext(old(entries), resources, i, ConvertStep);
        ghost var before := entries;
        if EndsWith(item, ".html") {
          failure := Html2Twig(item[..|item| - 5]);
          assert failure == ErrorOf(ConvertStep(before, item));
          if failure.Some? {
            EachItemStops(old(entries), resources, i + 1, ConvertStep);
            return;
          }
        }
        assert ConvertStep(before, item) == Ok(entries);
        i := i + 1;
      }
      assert resources[..i] == resources;
    }

    /** `Dir.children(p)`, in some order. */
    method ListChildren(p: Path) returns (kids: seq<Path>)
      ensures forall k :: 0 <= k < |kids| ==> kids[k] in Children(entries, p)
      ensures forall c :: c in Children(entries, p) ==> c in kids
      ensures forall k, l :: 0 <= k < l < |kids| ==> kids[k] != kids[l]
    {
      var rest := Children(entries, p);
      kids := [];
      while rest != {}
        invariant forall k :: 0 <= k < |kids| ==> kids[k] in Children(entries, p) && kids[k] !in rest
        invariant forall c :: c in Children(entries, p) ==> c in kids || c in rest
        invariant rest <= Children(entries, p)
        invariant forall k, l :: 0 <= k < l < |kids| ==> kids[k] != kids[l]
        decreases rest
      {
        var c :| c in rest;
        kids := kids + [c];
        rest := rest - {c};
      }
    }

    /**
     * The `Find.find('build/')` pass: each directory whose listing is just
     * `.` and `..` and whose path matches no protected pattern is removed
     * when it is reached, and `n` counts the removals.
     */
    method PruneEmptyDirs() returns (r: Result<nat, FsError>)
      requires Valid()
      modifies this
      ensures Valid()
      ensures r.Err? <==> !IsDir(old(entries), BuildRoot)
      ensures r.Err? ==> r.error == NoEntry && entries == old(entries)
      ensures r.Ok? ==> entries == Pruned(old(entries)) && r.value == |PrunedDirs(old(entries))|
    {
      if !IsDir(entries, BuildRoot) {
        return Err(NoEntry);
      }
      assert BuildRoot in entries;
      ghost var t0 := entries;
      ghost var visited: set<Path> := {};
      var ps: seq<Path> := [BuildRoot];
      var n := 0;
      FrontierStart(t0);
      while ps != []
        invariant Valid() && WellFormed(t0) && t0 == old(entries)
        invariant Frontier(t0, visited, ps)
        invariant entries == t0 - (visited * PrunedDirs(t0))
        invariant n == |visited * PrunedDirs(t0)|
        decreases t0.Keys - visited
      {
        var removed, kids := VisitPath(t0, visited, ps);
        if removed {
          n := n + 1;
        }
        VisitRecorded(t0, visited, ps[0], removed);
        FrontierStep(t0, visited, ps, kids);
        visited := visited + {ps[0]};
        ps := kids + ps[1..];
      }
      FrontierDone(t0, visited);
      r := Ok(n);
    }

    /**
     * One path yielded by `Find`: it is removed when it is a directory whose
     * listing is just `.` and `..` and which is not protected; the entries
     * of a directory that stays are what `Find` visits next.
     */
    method VisitPath(ghost t0: Tree, ghost visited: set<Path>, ps: seq<Path>) returns (removed: bool, kids: seq<Path>)
      requires Valid() && WellFormed(t0) && Frontier(t0, visited, ps) && ps != []
      requires entries == t0 - (visited * PrunedDirs(t0))
      modifies this
      ensures Valid()
      ensures removed <==> ps[0] in PrunedDirs(t0)
      ensures entries == t0 - ((visited + {ps[0]}) * PrunedDirs(t0))
      ensures Descends(t0, ps[0], kids)
    {
      var p := ps[0];
      ReachedUnchanged(t0, visited, ps);
      PruneChoice(t0, entries, p);
      removed := false;
      if IsDir(entries, p) {
        var listed := ListChildren(p);
        EmptyListing(entries, p, listed);
        if JoinWith([".", ".."] + Basenames(listed), "") == "..." && !Protected(FindString(p)) {
          var failure := RemoveDir(p);
          removed := true;
        }
      }
      VisitRecorded(t0, visited, p, removed);
      kids := [];
      if IsDir(entries, p) {
        kids := ListChildren(p);
      }
    }

    /** `after_build`: the glob of PHP files and the sitemap's resource paths are given. */
    method AfterBuild(phpFiles: seq<string>, resources: seq<string>) returns (r: Result<nat, FsError>)
      requires Valid()
      modifies this
      ensures Valid()
      ensures r.Ok? <==> AfterBuildResult(old(entries), phpFiles, resources).Ok?
      ensures r.Ok? ==> (entries, r.value) == AfterBuildResult(old(entries), phpFiles, resources).value
      ensures r.Err? ==> r.error == AfterBuildResult(old(entries), phpFiles, resources).error
    {
      var failure := CopyTreeInto(WpSource, BuildRoot);
      if failure.Some? { return Err(failure.value); }
      failure := CopyPhpFiles(phpFiles);
      if failure.Some? { return Err(failure.value); }
      failure := ConvertResources(resources);
      if failure.Some? { return Err(failure.value); }
      r := PruneEmptyDirs();
    }
  }
}
