/**
 * The two review pages end to end: src/review-detail.js (rich renderer, metadata read
 * from the whole text after the asset paths are rewritten) and src/review-page.js
 * (simple renderer, metadata read from the split-off block), and the header both
 * pages fill in from the metadata and the file name.
 */
module Reviews {
  import opened Text
  import opened FrontMatter
  import Filenames
  import Dates
  import RichBlocks
  import SimpleBlocks

  const AssetPath := "../assets/"
  const SiteAssetPath := "assets/"

  /** `text.replace(/\.\.\/assets\//g, 'assets/')`: one left-to-right pass. */
  function RewriteAssets(text: string): (r: string)
    ensures !Occurs(text, AssetPath) ==> r == text
    ensures StartsWith(text, AssetPath) ==> StartsWith(r, SiteAssetPath)
  {
    ReplaceAll(text, AssetPath, SiteAssetPath)
  }

  /** A leading asset path loses its `../` and the rest of the text is rewritten on its own. */
  lemma RewriteLeadingAsset(rest: string)
    ensures RewriteAssets(AssetPath + rest) == SiteAssetPath + RewriteAssets(rest)
  {
    var t := AssetPath + rest;
    assert t[..|AssetPath|] == AssetPath;
    assert t[|AssetPath|..] == rest;
  }

  /** The pass does not rescan its output: a path two levels up keeps one `../assets/`. */
  lemma RewriteIsOnePass()
    ensures RewriteAssets("../" + AssetPath) == AssetPath
  {
    var slash := ['/'] + AssetPath;
    var dot := ['.'] + slash;
    var twoUp := ['.'] + dot;
    assert twoUp == "../" + AssetPath;
    RewriteLeadingAsset("");
    assert AssetPath + "" == AssetPath;
    assert SiteAssetPath + "" == SiteAssetPath;
    var r := RewriteAssets(AssetPath);
    assert r == SiteAssetPath;
    SkipChar('/', AssetPath, 0);
    assert RewriteAssets(slash) == ['/'] + r;
    SkipChar('.', slash, 1);
    assert RewriteAssets(dot) == ['.'] + (['/'] + r);
    SkipChar('.', dot, 3);
    assert RewriteAssets(twoUp) == ['.'] + (['.'] + (['/'] + r));
    AssetShape();
  }

  lemma AssetShape()
    ensures ['.'] + (['.'] + (['/'] + SiteAssetPath)) == AssetPath
  {
  }

  /**
   * A character that cannot begin the asset path, because the text differs from it at
   * index `k`, is kept and the pass goes on after it.
   */
  lemma SkipChar(c: char, rest: string, k: nat)
    requires k < |AssetPath| <= |rest| + 1
    requires ([c] + rest)[k] != AssetPath[k]
    ensures RewriteAssets([c] + rest) == [c] + RewriteAssets(rest)
  {
    var s := [c] + rest;
    assert s[..|AssetPath|][k] != AssetPath[k];
    assert s[1..] == rest;
  }

  /** Which file-name rules a page uses. */
  datatype Naming = Detail | Page

  function DerivedTitle(naming: Naming, filename: string): string {
    match naming
    case Detail => Filenames.DeriveTitle(filename)
    case Page => Filenames.PageDeriveTitle(filename)
  }

  function DerivedDate(naming: Naming, filename: string): string {
    match naming
    case Detail => Filenames.DeriveDate(filename)
    case Page => Filenames.PageDeriveDate(filename)
  }

  /** `meta[key]` read as a JavaScript truthy value: absent and empty both count as missing. */
  function Present(meta: map<string, string>, key: string): (r: Option<string>)
    ensures r.Some? <==> key in meta && meta[key] != ""
    ensures r.Some? ==> r.value == meta[key]
  {
    if key in meta && meta[key] != "" then Some(meta[key]) else None
  }

  /** `value || fallback` for an optional value. */
  function OrElse(v: Option<string>, fallback: string): string {
    match v
    case Some(x) => x
    case None => fallback
  }

  const MetaSeparator := " · "

  /** The `review-meta` line: author and publication year joined, or nothing when both are missing. */
  function MetaLine(meta: map<string, string>): (r: Option<string>)
    ensures var author := Present(meta, "author");
      var year := if Present(meta, "publication_year").Some? then Present(meta, "publication_year")
                  else Present(meta, "publicationYear");
      && (r.None? <==> author.None? && year.None?)
      && (author.Some? && year.None? ==> r == Some(meta["author"]))
      && (author.None? && year.Some? ==> r == Some(year.value))
      && (author.Some? && year.Some? ==> r == Some(meta["author"] + MetaSeparator + year.value))
  {
    var author := Present(meta, "author");
    var year := Present(meta, "publication_year");
    var year := if year.Some? then year else Present(meta, "publicationYear");
    var parts := (if author.Some? then [author.value] else []) + (if year.Some? then [year.value] else []);
    if parts == [] then None
    else
      assert author.Some? && year.Some? ==> Join(parts, MetaSeparator) == author.value + MetaSeparator + year.value by {
        if author.Some? && year.Some? {
          assert parts == [author.value, year.value];
          assert parts[1..] == [year.value];
        }
      }
      Some(Join(parts, MetaSeparator))
  }

  /** What `renderHeader` writes into the page. */
  datatype Header = Header(title: string, date: string, meta: Option<string>)

  /** `renderHeader(meta, filename)`; the weekday comes from `dayOf`, which stands for the clock. */
  function RenderHeader(meta: map<string, string>, filename: string, naming: Naming,
                        dayOf: string -> Option<nat>): (r: Header)
    ensures "title" in meta && meta["title"] != "" ==> r.title == meta["title"]
    ensures !("title" in meta && meta["title"] != "") ==> r.title == DerivedTitle(naming, filename)
    ensures "date" in meta && meta["date"] != "" ==> r.date == Dates.FormatDate(meta["date"], dayOf)
    ensures !("date" in meta && meta["date"] != "") ==> r.date == Dates.FormatDate(DerivedDate(naming, filename), dayOf)
    ensures r.meta == MetaLine(meta)
  {
    var title := OrElse(Present(meta, "title"), DerivedTitle(naming, filename));
    var rawDate := OrElse(Present(meta, "date"), DerivedDate(naming, filename));
    Header(title, Dates.FormatDate(rawDate, dayOf), MetaLine(meta))
  }

  /** A rendered review: the header and the `innerHTML` of the content. */
  datatype Rendered = Rendered(header: Header, content: string)

  /**
   * `initReviewPage` of src/review-detail.js once the text is fetched: an empty text
   * renders nothing; otherwise the asset paths are rewritten, the body after the front
   * matter goes through the rich renderer and the metadata is parsed from the text.
   */
  function DetailPage(text: string, filename: string, dayOf: string -> Option<nat>): (r: Option<Rendered>)
    ensures r.None? <==> text == ""
    ensures r.Some? ==>
      var t := RewriteAssets(text);
      var s := SplitFrontMatter(t);
      && r.value.header == RenderHeader(ParseFrontMatterBlock(s.frontmatter), filename, Detail, dayOf)
      && (MatchBlock(t).None? ==> r.value.content == RichBlocks.MarkdownToHtml(t))
      && (MatchBlock(t).Some? ==>
            (exists sep :: (sep == "" || sep == "\n") && t == Open + s.frontmatter + Close + sep + s.body)
            && r.value.content == RichBlocks.MarkdownToHtml(s.body))
  {
    if text == "" then None
    else
      var t := RewriteAssets(text);
      var s := SplitFrontMatter(t);
      MetadataAgrees(t);
      Some(Rendered(RenderHeader(ParseFrontMatter(t), filename, Detail, dayOf), RichBlocks.MarkdownToHtml(s.body)))
  }

  /** `initReviewPage` of src/review-page.js once the text is fetched. */
  function SimplePage(text: string, filename: string, dayOf: string -> Option<nat>): (r: Option<Rendered>)
    ensures r.None? <==> text == ""
    ensures r.Some? ==>
      var s := SplitFrontMatter(text);
      && r.value.header == RenderHeader(ParseBlock(s.frontmatter), filename, Page, dayOf)
      && (MatchBlock(text).None? ==> r.value.content == SimpleBlocks.MarkdownToHtml(text))
      && (MatchBlock(text).Some? ==>
            (exists sep :: (sep == "" || sep == "\n") && text == Open + s.frontmatter + Close + sep + s.body)
            && r.value.content == SimpleBlocks.MarkdownToHtml(s.body))
  {
    if text == "" then None
    else
      var s := SplitFrontMatter(text);
      Some(Rendered(RenderHeader(ParseFrontMatterBlock(s.frontmatter), filename, Page, dayOf),
                    SimpleBlocks.MarkdownToHtml(s.body)))
  }

  /**
   * For a dated file name and a text without `../assets/`, both pages show the same
   * header: they read the same metadata and derive the same title and date.
   */
  lemma PagesAgreeOnHeader(text: string, date: string, slug: string, ext: string, dayOf: string -> Option<nat>)
    requires text != "" && !Occurs(text, AssetPath)
    requires Filenames.IsIsoDate(date) && |slug| > 0 && SingleLine(slug)
    requires Filenames.HasMdExtension(ext) && |ext| == 3
    ensures DetailPage(text, date + "_" + slug + ext, dayOf).value.header
         == SimplePage(text, date + "_" + slug + ext, dayOf).value.header
  {
    var f := date + "_" + slug + ext;
    Filenames.DatedNameAgrees(date, slug, ext);
    assert DerivedTitle(Detail, f) == DerivedTitle(Page, f);
    assert DerivedDate(Detail, f) == DerivedDate(Page, f);
  }

  /** A review without front matter takes its title and date from the file name and has no meta line. */
  lemma NoFrontMatterUsesFileName(text: string, filename: string, dayOf: string -> Option<nat>)
    requires text != "" && !StartsWith(text, Open)
    ensures var h := SimplePage(text, filename, dayOf).value.header;
      h == Header(DerivedTitle(Page, filename), Dates.FormatDate(DerivedDate(Page, filename), dayOf), None)
    ensures !Occurs(text, AssetPath) ==>
      var h := DetailPage(text, filename, dayOf).value.header;
      h == Header(DerivedTitle(Detail, filename), Dates.FormatDate(DerivedDate(Detail, filename), dayOf), None)
  {
    assert ParseBlock("") == map[] by {
      assert Text.Split("", '\n') == [""] by {
        assert Join([""], "\n") == "";
        SplitJoin([""], '\n');
      }
    }
  }
}
