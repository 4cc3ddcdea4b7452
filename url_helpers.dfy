/**
 * The `translated_url`, `other_langs` and `site_url` view helpers. Locales
 * are the names of Ruby symbols (`:en` is "en"); the translation catalog of
 * the target locale is a map from key to text, a missing key standing for
 * `I18n::MissingTranslationData`.
 */
module UrlHelpers {

  import opened Wrappers
  import opened Strings

  const DefaultLocale: string := "en"
  const IndexPage: string := "index"

  /** The translation catalog of one locale: key to translated text. */
  type Catalog = map<string, string>

  /**
   * `@page_id.split('/', 2).last.sub(/\..*$/, '')`: the id without its first
   * segment, cut at its first dot. An empty id splits into no parts; `last`
   * is then `nil` and `sub` raises, which is `None` here.
   */
  function UntranslatedPath(pageId: string): (r: Option<string>)
    ensures r.None? <==> pageId == ""
    ensures r.Some? ==> '.' !in r.value
  {
    if pageId == "" then None
    else
      var tail := match After(pageId, '/') case None => pageId case Some(t) => t;
      Some(Before(tail, '.'))
  }

  /** The id `<locale>/<stem><ext>` with a dot-free stem gives the stem back. */
  lemma UntranslatedPathOfPage(segment: string, stem: string, ext: string)
    requires '/' !in segment && '.' !in stem
    requires ext == "" || ext[0] == '.'
    ensures UntranslatedPath(segment + "/" + stem + ext) == Some(stem)
  {
    AfterOfConcat(segment, stem + ext, '/');
    assert segment + "/" + stem + ext == segment + ['/'] + (stem + ext);
    BeforeOfConcat(stem, ext, '.');
  }

  /** An id without any slash is taken whole before the cut at the first dot. */
  lemma UntranslatedPathOfBareId(stem: string, ext: string)
    requires '/' !in stem + ext && '.' !in stem
    requires stem + ext != ""
    requires ext == "" || ext[0] == '.'
    ensures UntranslatedPath(stem + ext) == Some(stem)
  {
    BeforeOfConcat(stem, ext, '.');
  }

  lemma {:induction false} AfterOfConcat(a: string, b: string, c: char)
    requires c !in a
    ensures After(a + [c] + b, c) == Some(b)
  {
    if a == [] {
      assert a + [c] + b == [c] + b;
    } else {
      assert (a + [c] + b)[1..] == a[1..] + [c] + b;
      AfterOfConcat(a[1..], b, c);
    }
  }

  lemma {:induction false} BeforeOfConcat(a: string, b: string, c: char)
    requires c !in a
    requires b == "" || b[0] == c
    ensures Before(a + b, c) == a
  {
    if a == [] {
      assert a + b == b;
    } else {
      assert (a + b)[1..] == a[1..] + b;
      BeforeOfConcat(a[1..], b, c);
    }
  }

  /**
   * `translated_url(locale)`, up to the final `asset_url` call of the
   * framework: the path that call receives. `None` is the raise on an empty id.
   */
  function TranslatedUrl(pageId: string, locale: string, catalog: Catalog): Option<string>
  {
    match UntranslatedPath(pageId)
    case None => None
    case Some(untranslated) =>
      if untranslated == IndexPage then
        Some(if locale == DefaultLocale then "/" else "/ja/")
      else
        var key := "paths." + untranslated;
        var translated := if key in catalog then catalog[key] else untranslated;
        Some(if locale == DefaultLocale then "/" + translated + "/" else "/" + locale + "/" + translated + "/")
  }

  /** The only failure is the empty page id; a missing translation never fails. */
  lemma TranslatedUrlFails(pageId: string, locale: string, catalog: Catalog)
    ensures TranslatedUrl(pageId, locale, catalog).None? <==> pageId == ""
  {
  }

  /** The index page maps to "/" for the default locale and to the literal "/ja/" for every other one. */
  lemma TranslatedUrlIndex(pageId: string, locale: string, catalog: Catalog)
    requires UntranslatedPath(pageId) == Some(IndexPage)
    ensures TranslatedUrl(pageId, locale, catalog) == Some(if locale == DefaultLocale then "/" else "/ja/")
  {
  }

  /** Other pages use the catalog's `paths.<page>` entry, falling back to the page itself when it is missing. */
  lemma TranslatedUrlPage(pageId: string, locale: string, catalog: Catalog)
    requires UntranslatedPath(pageId).Some? && UntranslatedPath(pageId).value != IndexPage
    ensures var page := UntranslatedPath(pageId).value;
      var slug := if "paths." + page in catalog then catalog["paths." + page] else page;
      TranslatedUrl(pageId, locale, catalog) ==
        Some(if locale == DefaultLocale then "/" + slug + "/" else "/" + locale + "/" + slug + "/")
  {
  }

  /** The index page `<locale>/index<ext>` of any locale directory. */
  lemma TranslatedUrlOfIndex(segment: string, ext: string, locale: string, catalog: Catalog)
    requires '/' !in segment
    requires ext == "" || ext[0] == '.'
    ensures TranslatedUrl(segment + "/" + IndexPage + ext, locale, catalog) ==
      Some(if locale == DefaultLocale then "/" else "/ja/")
  {
    UntranslatedPathOfPage(segment, IndexPage, ext);
  }

  /** Any other page `<locale>/<stem><ext>`: its translated slug, or the stem itself, under the locale's prefix. */
  lemma TranslatedUrlOfPage(segment: string, stem: string, ext: string, locale: string, catalog: Catalog)
    requires '/' !in segment && '.' !in stem && stem != IndexPage
    requires ext == "" || ext[0] == '.'
    ensures var slug := if "paths." + stem in catalog then catalog["paths." + stem] else stem;
      TranslatedUrl(segment + "/" + stem + ext, locale, catalog) ==
        Some(if locale == DefaultLocale then "/" + slug + "/" else "/" + locale + "/" + slug + "/")
  {
    UntranslatedPathOfPage(segment, stem, ext);
  }

  lemma DefaultIndexExample()
    ensures TranslatedUrl("en/index.html", "en", map[]) == Some("/")
  {
    assert "en/index.html" == "en" + "/" + IndexPage + ".html";
    TranslatedUrlOfIndex("en", ".html", "en", map[]);
  }

  /** Any locale other than the default gets "/ja/" for its index, "fr" included. */
  lemma OtherIndexExample()
    ensures TranslatedUrl("fr/index.html", "fr", map[]) == Some("/ja/")
  {
    assert "fr/index.html" == "fr" + "/" + IndexPage + ".html";
    TranslatedUrlOfIndex("fr", ".html", "fr", map[]);
  }

  /** `langs - [I18n.locale]`: every occurrence of the current locale removed, order kept. */
  function OtherLangs(langs: seq<string>, current: string): (r: seq<string>)
    ensures forall x :: x in r <==> x in langs && x != current
    ensures multiset(r)[current] == 0
    ensures forall x :: x != current ==> multiset(r)[x] == multiset(langs)[x]
  {
    if langs == [] then []
    else
      var rest := OtherLangs(langs[1..], current);
      assert langs == [langs[0]] + langs[1..];
      if langs[0] == current then rest else [langs[0]] + rest
  }

  /** Removing from a concatenation removes from each part, so the kept locales stay in order. */
  lemma {:induction false} OtherLangsConcat(a: seq<string>, b: seq<string>, current: string)
    ensures OtherLangs(a + b, current) == OtherLangs(a, current) + OtherLangs(b, current)
  {
    if a == [] {
      assert a + b == b;
    } else {
      assert (a + b)[1..] == a[1..] + b;
      OtherLangsConcat(a[1..], b, current);
    }
  }

  const DevelopmentUrl: string := "http://localhost:4567"
  const StagingUrl: string := "https://stg.example.com"
  const ProductionUrl: string := "https://example.com"

  /** The branch the site deploys to, as configured. */
  const DeployBranch: string := "staging"

  /** `site_url`: the development server, else the staging or production host by deploy branch. */
  function SiteUrl(environment: string, deployBranch: string): (url: string)
    ensures url == DevelopmentUrl <==> environment == "development"
    ensures url == StagingUrl <==> environment != "development" && deployBranch == "staging"
    ensures url == ProductionUrl <==> environment != "development" && deployBranch != "staging"
  {
    if environment == "development" then DevelopmentUrl
    else if deployBranch == "staging" then StagingUrl
    else ProductionUrl
  }

  /** With the configured branch, a build never links to the production host. */
  lemma ConfiguredSiteUrl(environment: string)
    ensures SiteUrl(environment, DeployBranch) != ProductionUrl
  {
  }
}
