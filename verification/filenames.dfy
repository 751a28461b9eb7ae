/**
 * What the review pages read off a file name such as `2024-03-01_some-book.md`: the
 * title, the date and the permalink slug (src/utils.js), and the simpler title and
 * date rules of src/review-page.js.
 */
module Filenames {
  import opened Text

  /** `/\.md$/i` matches: the name ends in `.md` in any letter case. */
  predicate HasMdExtension(f: string) {
    |f| >= 3 && ToLower(f[|f| - 3..]) == ".md"
  }

  /** `filename.replace(/\.md$/i, '')`. */
  function StripMd(f: string): (r: string)
    ensures HasMdExtension(f) ==> |r| + 3 == |f| && f == r + f[|r|..]
    ensures !HasMdExtension(f) ==> r == f
  {
    if HasMdExtension(f) then
      assert f == f[..|f| - 3] + f[|f| - 3..];
      f[..|f| - 3]
    else f
  }

  /** Exactly the shape `\d{4}-\d{2}-\d{2}`. */
  predicate IsIsoDate(s: string) {
    |s| == 10 && s[4] == '-' && s[7] == '-'
    && AllDigits(s[..4]) && AllDigits(s[5..7]) && AllDigits(s[8..])
  }

  /** `^\d{4}-\d{2}-\d{2}[-_](.+)$`: the captured slug, which cannot span lines. */
  function DatedSlug(base: string): (r: Option<string>)
    ensures r.Some? <==> |base| >= 12 && IsIsoDate(base[..10]) && (base[10] == '-' || base[10] == '_') && SingleLine(base[11..])
    ensures r.Some? ==> r.value == base[11..] && |r.value| > 0
  {
    if |base| >= 12 && IsIsoDate(base[..10]) && (base[10] == '-' || base[10] == '_') && SingleLine(base[11..])
    then Some(base[11..])
    else None
  }

  /** `s.split('_').slice(1).join('_')`. */
  function AfterFirstUnderscore(s: string): string {
    Join(Split(s, '_')[1..], "_")
  }

  /** The split-slice-join idiom keeps exactly the text after the first underscore. */
  lemma AfterFirstUnderscoreIsTail(s: string)
    ensures IndexOf(s, '_').None? ==> AfterFirstUnderscore(s) == ""
    ensures IndexOf(s, '_').Some? ==> AfterFirstUnderscore(s) == s[IndexOf(s, '_').value + 1..]
  {
    match IndexOf(s, '_')
    case None =>
    case Some(k) =>
      assert Split(s, '_')[1..] == Split(s[k + 1..], '_');
  }

  /** The reference reading of the fallback: after the first `_`, or the whole name when that is empty. */
  function UnderscoreTail(base: string): string {
    match IndexOf(base, '_')
    case None => base
    case Some(k) => if k + 1 == |base| then base else base[k + 1..]
  }

  /** `deriveTitleFromFilename` of src/utils.js. */
  function DeriveTitle(filename: string): (r: string)
    ensures var base := StripMd(filename);
      && (DatedSlug(base).Some? ==> r == DatedSlug(base).value)
      && (DatedSlug(base).None? ==> r == UnderscoreTail(base))
  {
    var base := StripMd(filename);
    AfterFirstUnderscoreIsTail(base);
    match DatedSlug(base)
    case Some(slug) => slug
    case None =>
      var tail := AfterFirstUnderscore(base);
      if tail != "" then tail else base
  }

  /** `derivePermalinkFromFilename` of src/utils.js, written out again as the source does. */
  function DerivePermalink(filename: string): string {
    var base := StripMd(filename);
    match DatedSlug(base)
    case Some(slug) => slug
    case None =>
      var tail := AfterFirstUnderscore(base);
      if tail != "" then tail else base
  }

  /** The permalink of every file is its derived title. */
  lemma PermalinkIsTitle(filename: string)
    ensures DerivePermalink(filename) == DeriveTitle(filename)
  {
  }

  predicate IsDateChar(c: char) {
    IsDigit(c) || c == '-'
  }

  /** `token.replace(/[^0-9-]/g, '')`. */
  function KeepDateChars(s: string): (r: string)
    ensures |r| <= |s|
    ensures forall i :: 0 <= i < |r| ==> IsDateChar(r[i])
    ensures (forall i :: 0 <= i < |s| ==> IsDateChar(s[i])) ==> r == s
    decreases |s|
  {
    if s == [] then ""
    else if IsDateChar(s[0]) then [s[0]] + KeepDateChars(s[1..])
    else KeepDateChars(s[1..])
  }

  /** The text before the first character `stop` accepts: `s.split(/[_-]/)[0]` and its kind. */
  function TokenBefore(s: string, underscoreOnly: bool): (r: string)
    ensures StartsWith(s, r)
    ensures '_' !in r && (!underscoreOnly ==> '-' !in r)
    ensures |r| == |s| || s[|r|] == '_' || (!underscoreOnly && s[|r|] == '-')
    decreases |s|
  {
    if s == [] || s[0] == '_' || (!underscoreOnly && s[0] == '-') then ""
    else [s[0]] + TokenBefore(s[1..], underscoreOnly)
  }

  /** `deriveDateFromFilename` of src/utils.js. */
  function DeriveDate(filename: string): (r: string)
    ensures forall i :: 0 <= i < |r| ==> IsDateChar(r[i])
    ensures var base := ReplaceAll(StripMd(filename), "_", "-");
      && (|base| >= 10 && IsIsoDate(base[..10]) ==> r == base[..10])
      && (!(|base| >= 10 && IsIsoDate(base[..10])) && |base| >= 8 && AllDigits(base[..8]) ==> r == base[..8])
      && (!(|base| >= 10 && IsIsoDate(base[..10])) && !(|base| >= 8 && AllDigits(base[..8])) ==>
            r == KeepDateChars(TokenBefore(filename, false)))
  {
    var base := ReplaceAll(StripMd(filename), "_", "-");
    if |base| >= 10 && IsIsoDate(base[..10]) then
      IsoDateChars(base[..10]);
      base[..10]
    else if |base| >= 8 && AllDigits(base[..8]) then base[..8]
    else KeepDateChars(TokenBefore(filename, false))
  }

  /** `deriveTitleFromFilename` of src/review-page.js: no dated pattern, and the fallback keeps `.md`. */
  function PageDeriveTitle(filename: string): (r: string)
    ensures var base := StripMd(filename);
      && (IndexOf(base, '_').None? ==> r == filename)
      && (IndexOf(base, '_').Some? && IndexOf(base, '_').value + 1 < |base| ==> r == base[IndexOf(base, '_').value + 1..])
      && (IndexOf(base, '_').Some? && IndexOf(base, '_').value + 1 == |base| ==> r == filename)
  {
    AfterFirstUnderscoreIsTail(StripMd(filename));
    var tail := AfterFirstUnderscore(StripMd(filename));
    if tail != "" then tail else filename
  }

  /** `deriveDateFromFilename` of src/review-page.js. */
  function PageDeriveDate(filename: string): (r: string)
    ensures forall i :: 0 <= i < |r| ==> IsDateChar(r[i])
    ensures r == KeepDateChars(TokenBefore(filename, true))
  {
    TokenBeforeIsFirstPart(filename);
    KeepDateChars(Split(filename, '_')[0])
  }

  /** `s.split('_')[0]` is the text before the first underscore. */
  lemma TokenBeforeIsFirstPart(s: string)
    ensures Split(s, '_')[0] == TokenBefore(s, true)
  {
    var t := TokenBefore(s, true);
    if |t| == |s| {
      assert t == s;
    } else {
      IndexOfFirst(s, '_', |t|);
      assert s[..|t|] == t;
    }
  }

  /** A dated name `YYYY-MM-DD_slug.md` reads the same under both pages' rules. */
  lemma DatedNameAgrees(date: string, slug: string, ext: string)
    requires IsIsoDate(date) && |slug| > 0 && SingleLine(slug)
    requires HasMdExtension(ext) && |ext| == 3
    ensures DeriveTitle(date + "_" + slug + ext) == slug
    ensures DeriveDate(date + "_" + slug + ext) == date
    ensures PageDeriveDate(date + "_" + slug + ext) == date
    ensures PageDeriveTitle(date + "_" + slug + ext) == slug
  {
    SiteRulesOnDatedName(date, slug, ext);
    PageRulesOnDatedName(date, slug, ext);
  }

  lemma SiteRulesOnDatedName(date: string, slug: string, ext: string)
    requires IsIsoDate(date) && |slug| > 0 && SingleLine(slug)
    requires HasMdExtension(ext) && |ext| == 3
    ensures DeriveTitle(date + "_" + slug + ext) == slug
    ensures DeriveDate(date + "_" + slug + ext) == date
  {
    DatedStrip(date + "_" + slug, ext);
    DatedTitles(date, slug);
    DatedDate(date, slug);
  }

  lemma PageRulesOnDatedName(date: string, slug: string, ext: string)
    requires IsIsoDate(date) && |slug| > 0 && SingleLine(slug)
    requires HasMdExtension(ext) && |ext| == 3
    ensures PageDeriveDate(date + "_" + slug + ext) == date
    ensures PageDeriveTitle(date + "_" + slug + ext) == slug
  {
    DatedStrip(date + "_" + slug, ext);
    DatedTitles(date, slug);
    DatedPageDate(date, slug + ext);
    assert date + "_" + slug + ext == date + "_" + (slug + ext);
  }

  lemma DatedStrip(base: string, ext: string)
    requires HasMdExtension(ext) && |ext| == 3
    ensures StripMd(base + ext) == base
  {
    var f := base + ext;
    assert f[|f| - 3..] == ext;
    assert f[..|f| - 3] == base;
  }

  /** Both title rules take the slug after the date's underscore. */
  lemma DatedTitles(date: string, slug: string)
    requires IsIsoDate(date) && |slug| > 0 && SingleLine(slug)
    ensures DatedSlug(date + "_" + slug) == Some(slug)
    ensures IndexOf(date + "_" + slug, '_') == Some(10)
  {
    var base := date + "_" + slug;
    assert base[..10] == date;
    assert base[11..] == slug;
    IsoDateChars(date);
    IndexOfFirst(base, '_', 10);
  }

  /** The dashed base still starts with the date. */
  lemma DatedDate(date: string, slug: string)
    requires IsIsoDate(date)
    ensures var dashed := ReplaceAll(date + "_" + slug, "_", "-");
      |dashed| >= 10 && dashed[..10] == date
  {
    IsoDateChars(date);
    ReplaceCharAppend(date, "_" + slug, '_', "-");
    ReplaceCharAbsent(date, '_', "-");
    assert date + "_" + slug == date + ("_" + slug);
  }

  /** The page's date rule keeps the whole date before the underscore. */
  lemma DatedPageDate(date: string, rest: string)
    requires IsIsoDate(date)
    ensures PageDeriveDate(date + "_" + rest) == date
  {
    var f := date + "_" + rest;
    IsoDateChars(date);
    TokenBeforeDate(date, rest);
    assert KeepDateChars(date) == date;
  }

  lemma TokenBeforeDate(date: string, rest: string)
    requires IsIsoDate(date)
    ensures TokenBefore(date + "_" + rest, true) == date
  {
    var f := date + "_" + rest;
    var t := TokenBefore(f, true);
    IsoDateChars(date);
    assert f[..10] == date;
    assert f[10] == '_';
    assert f[..|t|] == t;
  }

  /** Every character of a `YYYY-MM-DD` date is a digit or `-`. */
  lemma IsoDateChars(s: string)
    requires IsIsoDate(s)
    ensures forall i :: 0 <= i < |s| ==> IsDateChar(s[i])
    ensures '_' !in s
  {
    forall i | 0 <= i < 10 ensures IsDateChar(s[i]) {
      if i < 4 { assert s[i] == s[..4][i]; }
      else if 5 <= i < 7 { assert s[i] == s[5..7][i - 5]; }
      else if 8 <= i { assert s[i] == s[8..][i - 8]; }
    }
  }
}
