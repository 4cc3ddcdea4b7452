# Middleman site configuration: helpers and the post-build pipeline

This project models `config.rb`, the configuration of a Middleman static site that also ships
a WordPress theme. It covers two parts of that file.

* **View helpers.** `img_tag` and `img_tag_sp` add `@2x`/`-sp` markers and merge attributes.
  `nl2br` replaces line breaks. `translated_url` computes a page's sibling URL in another
  locale. `other_langs` and `site_url` are also here. These are pure functions: modules
  `ImageHelpers`, `TextHelpers` and `UrlHelpers`.
* **The `after_build` hook.** It runs these steps in order:
  1. It copies `source/wp` into `build/`.
  2. It copies every PHP file outside the theme sources.
  3. It turns each rendered `.html` page into a `.twig` template of the `portfolio` theme
     (`html2twig`).
  4. It walks `build/` with `Find.find` and deletes the empty, unprotected directories,
     counting them.

  This part is imperative. `PostBuild.FileSystem` is a class whose `entries` field holds the
  working directory. Its methods change `entries`, and their loops carry invariants. Each
  method is proved against a specification function: one of `FileTree` for the file-system
  primitives (`MakeDirs`, `Move`, `CopyTree`, `CopyTreeInto`, `RemoveDir`, `ListChildren`),
  one of `PostBuild` for the steps of the hook. The properties of those functions are
  proved as lemmas.

The working directory is a map from resolved paths (sequences of names) to `File(content)` or
`Dir`. `Strings` and `Paths` hold the string matching and path splitting that the Ruby code
gets from its regular expressions and `File`. `FileTree` holds the `FileUtils`/`Dir` calls
as functions on that map. A call that raises yields `Err` with the errno it would raise.

Behaviours of the code worth knowing:

* **The theme copy:** the destination is written `'build/'`, with a trailing slash. If `build`
  is a regular file, `cp_r` fails at its `mkdir` and the hook stops (`PostBuild.BuildIsFileAborts`).
  `Find.find('build/')` likewise raises `ENOENT` unless `build` is a directory.
* **The PHP copies:** `cp_r` of a single file creates no directories. A PHP file whose
  `build/` directory was not produced by the build (for example `source/legacy/contact.php`
  with no page under `legacy/`) makes the copy raise `ENOENT`, and the hook stops. So
  `PostBuild.PhpFileCopied` and `PostBuild.SweepCopies` require the destination directory to exist.
* **The conversion:** each `html2twig` runs `mkdir_p` and `mv` on a build that the earlier
  conversions have already changed. A page `x.twig/b.html` turns the template place of page
  `x` into a directory, and `mv` then puts `x.html` inside it. So `PostBuild.ConvertAllMoved`
  requires that no template lie on the way to another page's template directory.
* **The prune:** `Find.find` is pre-order. A directory is judged before its contents, so
  the pass is neither cascading nor idempotent. `PostBuild.PrunedDirs` is exactly the set
  of directories that were empty and unprotected in the tree the pass starts from
  (`PostBuild.EmptiedParentSurvives`, `PostBuild.PruneNotIdempotent`).
* **Protection:** it is a substring test on the string that `Find` yields. `build/wp`
  itself can be removed when it is empty. Everything inside it is protected.
* **A failed `Dir.rmdir`** would raise and end the hook; it is not skipped. In the model
  it cannot fail, because `rmdir` is only called on a directory just seen to be empty.
* **The index page:** for any locale other than `:en`, the index page's URL is the literal
  `/ja/`, not `/<locale>/`.
* **The PHP filter:** it is a substring test (`f['source/wp']`). So `source/wp-config.php`
  is skipped too (`PostBuild.PhpSubstringSkip`).

## Model

| member | source | states |
|---|---|---|
| `ImageHelpers.ExtensionDot` | config.rb:148 | where `/\.\w+$/` matches, if anywhere; a position it returns has the pattern's shape (the converse is `ExtensionDotSpec`) |
| `ImageHelpers.InsertMarker` | config.rb:148 | `gsub(/\.\w+$/, marker + '\0')` as a definition; what it does is stated by `InsertMarkerSpec`, `InsertMarkerRemovable`, `ExtensionKept` and `MarkersCompose` |
| `ImageHelpers.RetinaSrc` | config.rb:148 | `retina_src`: `@2x` inserted before the extension (definition; see `RetinaExample`, `NoExtensionExample`) |
| `ImageHelpers.MobileSrc` | config.rb:153 | `sp_src`: `-sp` inserted before the extension (definition; see `MobileExample`, `MobileRetinaSrc`) |
| `ImageHelpers.ImgTagSp` | config.rb:152-163 | the desktop `img_tag` followed by the mobile one (definition; its content is stated by `ImgTagSpSpec`) |
| `ImageHelpers.ExtensionDotSpec` | config.rb:148 | `/\.\w+$/` matches at position `i` exactly when `s[i]` is a dot followed by one or more word characters up to the end; so there is at most one match |
| `ImageHelpers.ExtensionDotNone` | config.rb:148 | no match is found exactly when no position has that shape |
| `ImageHelpers.InsertMarkerSpec` | config.rb:148 | the `gsub` puts the marker immediately before the extension, and leaves a name without an extension unchanged |
| `ImageHelpers.InsertMarkerRemovable` | config.rb:148 | cutting the marker out of the result gives back the original name; the length grows by the marker's |
| `ImageHelpers.ExtensionKept` | config.rb:148 | the result still ends in the same extension, shifted by the marker's length |
| `ImageHelpers.MarkersCompose` | config.rb:148-153 | inserting marker `a` and then `b` is the same as inserting `a + b` once |
| `ImageHelpers.MobileRetinaSrc` | config.rb:148-153 | the mobile image's `srcset` file is the name with `-sp@2x` before its extension |
| `ImageHelpers.MergeJoiningValues` | config.rb:156-157 | `merge` with the joining block: the keys are the union; a shared key gets both values joined by a space; every other key keeps its own value |
| `ImageHelpers.ImgTag` | config.rb:146-150 | one image of `src`, whose attributes are the options plus `srcset` = retina name + ` 2x`; every other option is passed through untouched |
| `ImageHelpers.DesktopAttrs` | config.rb:156 | the options with `pc` joined onto the class, or `class` = `pc` when there was none; nothing else changes |
| `ImageHelpers.MobileAttrs` | config.rb:157-160 | the options with `sp` joined onto the class, `_sp` appended to an existing id, and nothing else changed |
| `ImageHelpers.ImgTagSpSpec` | config.rb:152-163 | `img_tag_sp` gives two images, desktop first, with these values: sources, classes, ids, `srcset`s (`@2x` and `-sp@2x`), and every other option unchanged in both |
| `ImageHelpers.RetinaExample` | config.rb:146-150 | `photo.png` gets `srcset` `photo@2x.png 2x` |
| `ImageHelpers.MobileExample` | config.rb:152-163 | `photo.png` with id `hero`: classes `pc`/`sp`, ids `hero`/`hero_sp`, mobile source `photo-sp.png` |
| `ImageHelpers.NoExtensionExample` | config.rb:148 | `photo` and `archive.tar-gz` have no `\w+` extension and get no marker |
| `TextHelpers.Lines` | config.rb:166 | the pieces between breaks, with CR LF counted as one break: at least one piece, none holding a CR or LF |
| `TextHelpers.Nl2Br` | config.rb:165-167 | the left-to-right scan of `gsub`, trying `\r\n` before `\r` and `\n` (definition; its meaning is stated by the three lemmas below) |
| `TextHelpers.Nl2BrJoinsLines` | config.rb:165-167 | `nl2br` is the text's lines joined by `<br>`, so each break, CR LF included, gives exactly one `<br>` |
| `TextHelpers.Nl2BrRemovesBreaks` | config.rb:165-167 | no CR or LF is left in the result |
| `TextHelpers.Nl2BrUnchangedIff` | config.rb:165-167 | the text comes back unchanged if and only if it has no line break |
| `TextHelpers.Nl2BrExample` | config.rb:165-167 | `"a\r\nb\rc\nd"` becomes `a<br>b<br>c<br>d`; `"\n\r"` gives two `<br>` |
| `UrlHelpers.UntranslatedPath` | config.rb:174 | fails (the `nil.sub` raise) if and only if the page id is empty; otherwise the result has no dot |
| `UrlHelpers.UntranslatedPathOfPage` | config.rb:174 | the id `<locale>/<stem><ext>` gives `<stem>` back |
| `UrlHelpers.UntranslatedPathOfBareId` | config.rb:174 | an id without a slash is cut at its first dot as a whole |
| `UrlHelpers.TranslatedUrl` | config.rb:171-189 | the path handed to `asset_url` (definition; its cases are stated by `TranslatedUrlFails`, `TranslatedUrlIndex` and `TranslatedUrlPage`) |
| `UrlHelpers.TranslatedUrlFails` | config.rb:171-189 | the only failure is an empty page id; a missing translation never fails (an unknown locale is not modelled, see below) |
| `UrlHelpers.TranslatedUrlIndex` | config.rb:176-178 | the index page gives `/` for `en` and `/ja/` for every other locale |
| `UrlHelpers.TranslatedUrlPage` | config.rb:179-186 | other pages use the catalog's `paths.<page>` entry, or the page itself when that entry is missing; the path is `/<slug>/` for `en` and `/<locale>/<slug>/` otherwise |
| `UrlHelpers.TranslatedUrlOfIndex` | config.rb:174-178 | for an id `<segment>/index<ext>`: `/` in the default locale and the literal `/ja/` in every other |
| `UrlHelpers.TranslatedUrlOfPage` | config.rb:174-185 | for an id `<segment>/<stem><ext>` with any other stem: the catalog's `paths.<stem>` slug, or the stem when it is missing, under `/` or `/<locale>/` |
| `UrlHelpers.DefaultIndexExample` | config.rb:176-178 | `en/index.html` in `en` links to `/` |
| `UrlHelpers.OtherIndexExample` | config.rb:176-178 | `fr/index.html` in `fr` links to `/ja/` |
| `UrlHelpers.OtherLangs` | config.rb:191-193 | `langs - [I18n.locale]`: every occurrence of the current locale is removed, and every other locale keeps its number of occurrences |
| `UrlHelpers.OtherLangsConcat` | config.rb:191-193 | the removal distributes over concatenation, so the remaining locales keep their order |
| `UrlHelpers.SiteUrl` | config.rb:195-203 | the development URL if and only if the environment is development; otherwise staging if and only if the deploy branch is `staging`, else production |
| `UrlHelpers.ConfiguredSiteUrl` | config.rb:11-15 | with the configured branch `staging`, no build links to the production host |
| `FileTree.Target` | config.rb:102 | where `cp_r` and `mv` put a source: inside the destination when that is a directory, else at the destination (definition) |
| `FileTree.MkdirP` | config.rb:90 | `mkdir_p`: fails with `EEXIST` on a file on the way, else adds the missing directories (definition; stated by `MkdirPSpec`) |
| `FileTree.Mv` | config.rb:91 | on success the source is gone and the target holds its content; the keys are the old ones less the source plus the target; every other entry is unchanged |
| `FileTree.CpR` | config.rb:107 | `cp_r` with `remove_destination`: the error checks in order, else the tree with the source subtree copied to the target (definition; stated by `CpRFile`, `CpRWellFormed`, `CpRIdempotent`) |
| `FileTree.CpRToDir` | config.rb:102 | `cp_r` to a destination written with a trailing slash, which fails when the destination is a file (definition) |
| `FileTree.CpRToDirMakesDir` | config.rb:102 | after a successful copy to `dst/`, `dst` is a directory, and the copy is the one `cp_r` to `dst` makes |
| `FileTree.Rmdir` | config.rb:125 | `rmdir` succeeds if and only if the path is an empty directory; it then removes exactly that entry and changes no other |
| `FileTree.MkdirPSpec` | config.rb:90 | `mkdir_p` fails if and only if a file lies on the way. On success: every prefix is a directory, old entries are kept, new entries are prefixes of the path, and the tree stays well formed |
| `FileTree.MvWellFormed` | config.rb:91 | a successful `mv` keeps the tree well formed |
| `FileTree.CpRWellFormed` | config.rb:102 | a successful `cp_r` keeps the tree well formed |
| `FileTree.CpRFile` | config.rb:107 | copying a file onto a place that is not a directory replaces exactly that entry with the file |
| `FileTree.CpRIdempotent` | config.rb:102 | a second `cp_r` with `remove_destination` right after the first leaves the tree as the first left it |
| `FileTree.RmdirWellFormed` | config.rb:125 | removing an empty directory keeps the tree well formed |
| `PostBuild.ConvertPage` | config.rb:85-92 | `html2twig(path)` on the tree: prepare the template's directory, then move the page (definition; stated by `HtmlResourceMoved`) |
| `PostBuild.PrepareDir` | config.rb:90 | `mkdir_p(parent_dir) unless Dir.exists?(parent_dir)` (definition; stated by `TwigDirReady`) |
| `PostBuild.ConvertStep` | config.rb:112-115 | one resource of the loop: converted when its path ends in `.html`, else left alone (definition; stated by `HtmlResourceMoved`, `ConvertSkipsOthers`) |
| `PostBuild.EachItem` | config.rb:105-116 | an `each` loop whose step may raise: steps run in order and the first error ends the loop (definition; stated by `EachItemStops`) |
| `PostBuild.PhpSkipped` | config.rb:105 | the `reject` test `f['source/wp']`, a substring test (definition; see `PhpSubstringSkip`) |
| `PostBuild.PhpDest` | config.rb:106 | `gsub(/^source\//, 'build/')`, which rewrites a leading `source/` only (definition) |
| `PostBuild.CopyPhp` | config.rb:105-108 | one item of the sweep: skipped or copied with `cp_r` (definition; stated by `PhpFileCopied`, `SweepCopies`) |
| `PostBuild.FindString` | config.rb:120 | the string `Find.find('build/')` yields for an entry (definition) |
| `PostBuild.Protected` | config.rb:123 | the protection regex as three substring tests (definition; see `ThemeTreeProtected`, `UnprotectedWhen`, `ThemeRootUnprotected`) |
| `PostBuild.PrunedDirs` | config.rb:119-131 | the directories below `build` that are empty and unprotected in the starting tree (definition; the prune is proved to remove exactly these) |
| `PostBuild.Pruned` | config.rb:119-131 | the tree without `PrunedDirs` (definition) |
| `PostBuild.AfterBuildResult` | config.rb:99-133 | the hook as a function: the theme copy, the sweep, the conversion, then the prune if `build` is a directory (definition; stated by the lemmas below) |
| `PostBuild.BuildIsFileAborts` | config.rb:102 | with `build` a regular file the hook fails with `EEXIST` at the theme copy |
| `PostBuild.AfterBuildFoundRoot` | config.rb:102-120 | a successful hook had no file at `build`, and after the theme copy `build` is a directory |
| `PostBuild.SweepCopies` | config.rb:105-108 | over any list of distinct glob items whose copies have their directories: every item not skipped has its source content at `build/<rest>`, every other entry is unchanged, and only those destinations are added |
| `PostBuild.EmptyListing` | config.rb:122 | a complete listing of a directory joins to `...` if and only if the directory has no entries |
| `PostBuild.PruneChoice` | config.rb:121-124 | the pass's decision for a reached path agrees with membership in `PrunedDirs` of the starting tree |
| `PostBuild.Dirname` | config.rb:88 | `File.dirname`: the components of the path are the result plus the last component |
| `PostBuild.TemplatesRootSpelled` | config.rb:87 | the template directory string resolves to `build/wp/wp-content/themes/portfolio/templates` |
| `PostBuild.ConvertPagePaths` | config.rb:86-88 | for page `p`, the source is `build/p.html`, the destination `…/templates/p.twig`, and the parent directory that of the destination |
| `PostBuild.TwigDirReady` | config.rb:90 | preparing the template's directory succeeds when no file is in the way; it makes every prefix a directory and adds nothing but those |
| `PostBuild.HtmlResourceMoved` | config.rb:85-92 | an `.html` resource is moved. The html file is gone, the template holds its content, the template's directories exist, nothing else changes, and the tree stays well formed |
| `PostBuild.ConvertSkipsOthers` | config.rb:111-116 | resources that do not end in `.html` leave the tree unchanged |
| `PostBuild.ConvertAllMoved` | config.rb:111-116 | over any list of resources whose pages are distinct files with free template places: the loop succeeds, every page is gone, every template holds its page's old content, every other entry is unchanged, and every new entry is a template or a directory on the way to one |
| `PostBuild.EachItemStops` | config.rb:106-116 | a step that raises ends the loop; the items after it are not processed |
| `PostBuild.PhpFileCopied` | config.rb:105-108 | `source/<rest>` outside the theme is copied to `build/<rest>`, and no other entry changes |
| `PostBuild.PhpSubstringSkip` | config.rb:105 | `source/wp-config.php` is skipped although it does not lie in `source/wp/` |
| `PostBuild.SweepSkipsTheme` | config.rb:105 | PHP files under `source/wp` are never copied by the sweep |
| `PostBuild.ThemeTreeProtected` | config.rb:123 | every path strictly inside `build/wp` matches the protection pattern |
| `PostBuild.UnprotectedWhen` | config.rb:123 | a path with no dot and at most one slash is never protected |
| `PostBuild.ThemeRootUnprotected` | config.rb:123 | `build/wp` itself does not match the protection pattern |
| `PostBuild.ListingEmpty` | config.rb:122 | `Dir.entries(path).join == "..."` holds if and only if the directory has no entry besides `.` and `..` |
| `PostBuild.PruneWellFormed` | config.rb:119-131 | the prune keeps the tree well formed and never touches a file |
| `PostBuild.EmptiedParentSurvives` | config.rb:120-126 | a directory whose only contents are pruned directories stays, now empty: the pass does not cascade |
| `PostBuild.PruneNotIdempotent` | config.rb:119-131 | `build/css` alone in `build` is removed by the first pass and `build` by a second, so a second pass is not a no-op |
| `PostBuild.ConvertStepWellFormed` | config.rb:111-116 | each conversion keeps the tree well formed |
| `PostBuild.CopyPhpWellFormed` | config.rb:106-108 | each PHP copy keeps the tree well formed |
| `PostBuild.ConvertAllWellFormed` | config.rb:111-116 | the whole conversion loop keeps the tree well formed |
| `PostBuild.SweepWellFormed` | config.rb:105-108 | the whole PHP sweep keeps the tree well formed |
| `PostBuild.AfterBuildWellFormed` | config.rb:99-133 | the whole hook, when it succeeds, leaves a well-formed tree |
| `PostBuild.FileSystem.MakeDirs` | config.rb:90 | `mkdir_p` on the state: the new state and the error are those of `MkdirP` |
| `PostBuild.FileSystem.Move` | config.rb:91 | `mv` on the state: the new state and the error are those of `Mv` |
| `PostBuild.FileSystem.CopyTree` | config.rb:102-107 | `cp_r` on the state: the new state and the error are those of `CpR` |
| `PostBuild.FileSystem.CopyTreeInto` | config.rb:102 | `cp_r` to `dst/` on the state: the new state and the error are those of `CpRToDir` |
| `PostBuild.FileSystem.RemoveDir` | config.rb:125 | `rmdir` on the state: the new state and the error are those of `Rmdir` |
| `PostBuild.FileSystem.Html2Twig` | config.rb:85-92 | `html2twig(path)`: the error is that of `ConvertPage`; on success the state is its result |
| `PostBuild.FileSystem.CopyPhpFiles` | config.rb:105-108 | the loop over the PHP files gives the error and the state of copying the files one by one, in order, stopping at the first failure |
| `PostBuild.FileSystem.ConvertResources` | config.rb:111-116 | the loop over the sitemap gives the error and the state of converting the resources one by one, in order |
| `PostBuild.FileSystem.VisitPath` | config.rb:120-126 | one path yielded by `Find`: it is removed if and only if it is in `PrunedDirs` of the starting tree, and what it pushes is its entries when it stays a directory |
| `PostBuild.FileSystem.ListChildren` | config.rb:122 | lists each entry directly inside the directory exactly once |
| `PostBuild.FileSystem.PruneEmptyDirs` | config.rb:119-131 | `Find.find('build/')` fails with `ENOENT` if and only if `build` is not a directory (missing or a file), and then changes nothing. Otherwise it removes exactly `PrunedDirs` of the starting tree, and `n` is their number |
| `PostBuild.FileSystem.AfterBuild` | config.rb:99-133 | the hook succeeds if and only if `AfterBuildResult` does. On success the final state and count are its result; on failure it gives the same error |

## Left out

- Middleman settings, extensions, the livereload/minify activation, the `ignore` rule,
  webpack and deploy settings are framework configuration, not logic.
- `current_page?` (config.rb:141-143) is one equality on a framework value.
- The `p` progress messages are console output.
- `Dir['source/**/*.php']` and `sitemap.resources` are framework and file-system
  enumeration. They are parameters (`phpFiles`, `resources`) of `AfterBuild`.
- `image_tag`, `asset_url` and `I18n.translate!` belong to the framework. `image_tag` is
  represented by the `ImageTag(src, attrs)` call it receives. `asset_url` is represented by
  the path it receives. The translation catalog of the target locale is a map, and a missing
  key stands for `MissingTranslationData`. Only that exception is modelled: the
  `I18n::InvalidLocale` that `translate!` raises for a locale I18n does not know, which
  line 182 does not rescue, is not.
- `UrlHelpers.TranslatedUrlFails`: "the only failure is an empty page id" holds for the
  locales I18n knows; the `InvalidLocale` raise for any other locale is not modelled.
- `ImageHelpers.MobileAttrs`: attribute values are strings, so `if sp_opt[:id]` becomes a key
  test. Ruby leaves a `nil` or `false` id alone, where the model has no such value. Ruby
  raises on a non-String id (`:hero + '_sp'`, `1 + '_sp'`). Lines 156-157 turn a `nil` or
  non-String class into a string (`"#{nil} pc"` is `" pc"`). None of this is represented.
- The order of attributes in rendered markup is not modelled; attributes are maps.
- Ruby regex anchors match at line ends: `$` before a newline, `^` after one. Page ids,
  file names and paths are taken to hold no newline.
- `Find.find` sorts each directory's entries. The model pushes them in an arbitrary order,
  and the result is proved not to depend on that order.
- Paths are modelled as sequences of names, so `.` or `..` used as a path component is not
  modelled. Symbolic links and `lstat` are not modelled either: every entry is a file or a
  directory.
- `preserve: true` (times and modes) is not modelled, since the tree holds no metadata.
- `PostBuild.FileSystem.Move`: `mv` of a whole directory is refused with `DirectoryMove`.
  `html2twig` only ever moves rendered pages, which are files.
- `PostBuild.FileSystem.CopyTree`: the partial copy that `cp_r` may leave behind when it
  raises halfway is not modelled. On failure the method leaves the state unchanged.
- `PostBuild.FileSystem.Html2Twig`: on failure, only the error is specified, not the state
  a `mkdir_p` that succeeded leaves before a failing `mv`. A raise in `after_build` aborts the build.
- `PostBuild.FileSystem.CopyPhpFiles`: on failure, only the error is specified, not the copies
  already made before the failing item.
- `PostBuild.FileSystem.ConvertResources`: on failure, only the error is specified, not the
  conversions already made before the failing resource.
- `PostBuild.FileSystem.AfterBuild`: on failure, only the error is specified, not the state
  the steps before the failing one leave behind.
- `FileTree.CpRIdempotent`: idempotence is proved for one copy repeated right away. It is
  not proved for the whole PHP sweep or the whole hook.
- `cp_r` and `mv` give the error class of the first check that fails. Ruby's exact errno
  for odd cases (for example a file in the middle of a path) is approximated.
