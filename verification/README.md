# books-read in Dafny

A model of the logic behind a small static reading-log site. The site has two parts.

- The reading log. A CSV file of books read (title, English title, year, month) is parsed, sorted newest
  first, grouped into year lists and month cells for a heatmap, and tallied per title for a "reread"
  badge. Reviews are matched to books by their normalized title. The current page is src/home.js.
  src/script.js repeats its data logic line for line. The older pages script.js and reading-heatmap.js
  use a simpler variant: headers as written, the title alone as the key, raw titles in the order.
- The review pages. A Markdown review has an optional front-matter block (`---` … `---`). It is
  rendered by one of two hand-written renderers:
  - src/review-detail.js has nested ordered and unordered lists, footnotes, links, and no HTML escaping
    of the text.
  - src/review-page.js has flat bullet lists only and escapes the text first.
  The page header is filled from the metadata, or from the file name `YYYY-MM-DD_slug.md`.

Every part is a pure function here. The regular-expression passes are left-to-right scanners, and each
block renderer is a fold over the lines with an explicit state record. Things the browser supplies are
parameters:
- `collate` stands for `localeCompare`;
- `dayOf` stands for the weekday of a `Date`;
- `diffDays` stands for the day difference to today;
- `current` stands for the current year.

Modules, one per file:

| module | models |
|---|---|
| `Text` | the JavaScript string built-ins the code relies on: `trim`, `split`, `join`, `indexOf`, `replace` of a literal, `parseInt`, `String(n)`, `padStart` |
| `Csv` | the naive CSV reading shared by every `parseCSV` |
| `Html` | `escapeHtml` and the decoding it is inverse to |
| `FrontMatter` | `splitFrontMatter` and both `parseFrontMatter` functions |
| `Filenames` | title, date and permalink derivation from file names |
| `Dates` | `formatDate` and the bucketing of `formatRelativeDate` |
| `Inline` | the `inlineMarkdown` passes of both renderers |
| `Lines` | line classification shared by the renderers: headings, list items, quotes, footnote definitions |
| `RichBlocks` | `markdownToHtml` of src/review-detail.js |
| `SimpleBlocks` | `markdownToHtml` of src/review-page.js |
| `Reviews` | both review pipelines and `renderHeader` |
| `Sorting` | `Array.prototype.sort` with a comparator, as a stable insertion sort |
| `Tally` | the `getOrCreate` buckets, counts and latest snapshots, `monthKey`, heat level, year range |
| `Assoc` | writing entries in order, where later ones win: into a `Map`, or into a `{}` object, which ignores a string written to `__proto__` |
| `ReadingLog` | the data logic of src/home.js (and src/script.js) |
| `RawReadingLog` | the data logic of script.js (and reading-heatmap.js) |

## Model

| member | source | states |
|---|---|---|
| Text.TrimStart | src/home.js:74 | the result is a suffix of the input; what was dropped is all white space; it does not start with white space |
| Text.TrimEnd | src/home.js:74 | the result is a prefix of the input; what was dropped is all white space; it does not end with white space |
| Text.Trim | src/home.js:74 | the result neither starts nor ends with white space |
| Text.TrimToEmpty | src/home.js:75 | a value trims to the empty string exactly when it is all white space |
| Text.TrimIdentity | src/home.js:74 | text without outer white space is its own trim |
| Text.TrimIdempotent | src/home.js:74 | trimming twice is trimming once |
| Text.IndexOf | src/utils.js:5 | a found index holds the character and no earlier index does; not found means the character does not occur |
| Text.Split | src/review-detail.js:76 | at least one piece; no piece holds the separator; joining the pieces with the separator gives the input back |
| Text.SplitJoin | src/review-detail.js:76 | splitting a join of separator-free pieces gives the same pieces back |
| Text.JoinEnds | src/review-page.js:68 | a join starts with its first part and ends with its last |
| Text.ReplaceAll | src/utils.js:41-44 | a pattern that does not occur leaves the text unchanged |
| Text.ReplaceAllLeading | src/review-detail.js:217 | an occurrence at the front becomes the replacement, and the scan resumes right after it with no rescan |
| Text.ReplaceAllCopies | src/review-detail.js:217 | text in front of which no occurrence starts is copied as it is, and the scan goes on after it; with the row above this fixes every output |
| Text.ReplaceAllCopyFirst | src/review-detail.js:217 | without an occurrence at the front, the first character is copied |
| Text.NonEmpty | src/utils.js:64 | `filter(Boolean)`: an element survives exactly when it is non-empty, and a list without empty elements is kept whole |
| Text.NonEmptyAppend | src/home.js:490 | filtering one more element appends it exactly when it is non-empty, so the survivors keep their order |
| Text.ReplaceCharAppend | src/utils.js:41-44 | replacing one character distributes over concatenation |
| Text.ToLower | src/home.js:489 | same length; each ASCII capital becomes its small letter and every other character is kept |
| Text.ParseInt | src/home.js:149 | `parseInt` is NaN exactly when no digit follows the leading white space and optional sign |
| Text.IntToString | src/home.js:444 | `String(n)` is digits, after a `-` when the number is negative |
| Text.ParseIntOfIntToString | src/home.js:149 | `parseInt` reads back exactly the number `String` printed |
| Text.PadStart2 | src/home.js:444 | the result is at least two characters long and ends with the input |
| Csv.Lines | src/home.js:137 | at least the header line; no line holds a newline; the lines joined again are the trimmed text |
| Csv.Cell | src/home.js:144 | a column past the end of the row reads as empty |
| Csv.Unquote | src/home.js:145 | one pair of outer quotes is removed only when the raw cell starts and ends with `"`; otherwise the cell is kept |
| Csv.LinesOfJoin | src/home.js:137 | lines joined with newlines read back as the same lines |
| Csv.NumberCellValue | src/home.js:149 | a cell written with `String(n)` reads back as `n` |
| Html.EscapeHtml | src/utils.js:40-45 | the output holds no `<` or `>`; decoding `&lt;`, `&gt;` and `&amp;` gives the input back exactly; it is never shorter |
| Html.EscapeIsCharwise | src/utils.js:40-45 | the three passes in their order equal escaping each character on its own, because `&` goes first |
| FrontMatter.FindClose | src/review-detail.js:48 | the first `\n---` at or after a position, and none before it |
| FrontMatter.MatchBlock | src/review-detail.js:48 | a block exists exactly when the text starts with `---\n` and a `\n---` follows; the block ends at the first such `\n---`; one optional newline is also taken |
| FrontMatter.SplitFrontMatter | src/review-detail.js:47-54 | without a block the body is the whole text; with one, the opening, block, closing, optional newline and body make up the text |
| FrontMatter.StripQuotes | src/utils.js:10 | at most one quote is dropped at each end, `'` or `"`, and the two ends are independent |
| FrontMatter.ParseEntry | src/utils.js:5-8 | a line is an entry exactly when it has a colon and a non-blank key before the first one |
| FrontMatter.ParseLinesKeys | src/utils.js:4-13 | a key is in the metadata exactly when some line sets it and it is not `__proto__`, which the `{}` accumulator ignores |
| FrontMatter.ParseLinesLastWins | src/utils.js:11 | for every key but `__proto__`, the value comes from the last line that sets it |
| FrontMatter.ParseFrontMatter | src/utils.js:1-14 | no block gives the empty map; otherwise the block's lines are parsed |
| FrontMatter.ParseFrontMatterBlock | src/review-page.js:43-55 | the empty-block guard changes nothing: the same lines are parsed as in src/utils.js |
| FrontMatter.MetadataAgrees | src/review-page.js:14-15 | parsing the whole text (as src/review-detail.js:28 does) equals parsing the split-off block |
| FrontMatter.ValueKeepsLaterColons | src/utils.js:5-10 | only the first colon separates key and value, so a value may hold colons |
| Filenames.StripMd | src/utils.js:17 | a `.md` ending in any letter case loses exactly those three characters; any other name is kept |
| Filenames.DatedSlug | src/utils.js:18 | the slug is captured exactly when the name is a `YYYY-MM-DD` date, `-` or `_`, and a non-empty single-line rest |
| Filenames.AfterFirstUnderscoreIsTail | src/utils.js:20 | `split('_').slice(1).join('_')` is the text after the first underscore, or empty when there is none |
| Filenames.DeriveTitle | src/utils.js:16-21 | the dated slug, else the text after the first underscore, else the whole base |
| Filenames.PermalinkIsTitle | src/utils.js:33-38 | the permalink equals the derived title for every file name |
| Filenames.KeepDateChars | src/utils.js:30 | only digits and `-` remain, and text of those alone is kept whole |
| Filenames.TokenBefore | src/utils.js:29 | the text before the first `_` (or `-`) separator, which holds none of them |
| Filenames.DeriveDate | src/utils.js:23-31 | only digits and `-` in every branch; the `YYYY-MM-DD` prefix, else eight leading digits, else the digits and dashes of the text before the first `_` or `-` of the unstripped name |
| Filenames.PageDeriveTitle | src/review-page.js:71-73 | the text after the first underscore of the stripped name; the original name with `.md` when there is no underscore or it ends the stripped name |
| Filenames.PageDeriveDate | src/review-page.js:75-78 | the digits and dashes of the text before the first underscore |
| Filenames.TokenBeforeIsFirstPart | src/review-page.js:76 | `split('_')[0]` is the text before the first underscore |
| Filenames.DatedNameAgrees | src/review-page.js:71-78 | for `YYYY-MM-DD_slug.md` both pages' rules give the slug as title and the date as date |
| Dates.StripZero | src/utils.js:49-52 | a number is reprinted with the same value; text that is not a number is kept |
| Dates.UnifySeparators | src/utils.js:64 | splitting on `-`, `.` or `/` is splitting on `-` once each separator is replaced |
| Dates.FormatDate | src/utils.js:47-76 | empty exactly for empty input; input that is neither three parts nor eight characters long is returned unchanged |
| Dates.StripZeroOfDigits | src/utils.js:49-52 | a run of digits loses its leading zeros |
| Dates.DashedDate | src/utils.js:55-67 | `y-m-d` shows each number without leading zeros, with the weekday of the padded date |
| Dates.ThreeParts | src/utils.js:64 | any of `-`, `.`, `/` splits a date of digit runs into its three numbers |
| Dates.SeparatorsAgree | src/utils.js:64-67 | `2024.03.05`, `2024/03/05` and `2024-03-05` are formatted alike |
| Dates.CompactAgrees | src/utils.js:69-74 | the eight-digit form `YYYYMMDD` is formatted like the dashed one |
| Dates.BucketAsWritten | src/utils.js:123-133 | the bucketing as written: today exactly when the difference is not positive; under a week, the day count itself |
| Dates.ZeroCountsAsWritten | src/utils.js:126-133 | every count from 28 to 29 days gives zero months, every count from 360 to 364 days gives zero years, and no other count shows a zero |
| Dates.Bucket | src/utils.js:123-133 | the intended bucketing: never a zero count, and each unit covers its range of days |
| Dates.BucketAgreesElsewhere | src/utils.js:123-133 | the corrected bucketing differs from the written one only at 28-29 and 360-364 days |
| Dates.EnglishPlural | src/utils.js:103-106 | an English unit takes `s` exactly when the count is not one |
| Dates.FormatRelativeDate | src/utils.js:110-134 | empty for empty input; the input itself when it is not a date; otherwise the text of the written bucketing, in English only for `en` |
| Dates.ZeroMonthsShown | src/utils.js:126-130 | four weeks ago reads "0 months" in English |
| Dates.FormatRelativeDateIntended | src/utils.js:110-134 | as `formatRelativeDate`, with the corrected bucketing |
| Dates.NoZeroCount | src/utils.js:123-133 | corrected, a past date always reads as a count of at least one |
| Dates.IntendedAgreesElsewhere | src/utils.js:123-133 | corrected and written texts agree outside 28-29 and 360-364 days |
| Inline.LazyClose | src/review-detail.js:225 | where a lazy single-line group ends: the first closing delimiter at least `minLen` characters on, none earlier |
| Inline.MatchHere | src/review-detail.js:217-229 | a match at the start of the text is non-empty and begins with the rule's lead character; what each rule's match is and becomes is stated by MatchPair, MatchCode, MatchFootnoteRef and MatchLinkSpan |
| Inline.Apply | src/review-detail.js:217-229 | a pass leaves text without its lead character unchanged; the span rows below state how each rule's pass rewrites a match and resumes |
| Inline.MatchFootnoteRef | src/review-detail.js:220 | a reference is the shortest non-empty single-line label after `[^` that a `]` follows, and becomes the superscript marker for that label; otherwise no such `]` exists |
| Inline.ApplyFootnoteRefSpan | src/review-detail.js:220 | `[^x]` with a non-empty single-line label that no earlier `]` cuts short becomes one marker for `x`, and the pass goes on after the `]` |
| Inline.MatchLinkSpan | src/review-detail.js:223 | `[t](u)` with single-line parts, no `](` in `t` and no `)` in `u` matches whole, as the anchor to `u` with text `t` |
| Inline.ApplyLinkSpan | src/review-detail.js:223 | such a link becomes `<a href="u">t</a>`, and the pass goes on after the `)` |
| Inline.MatchPair | src/review-detail.js:225-228 | a delimiter pair matches the shortest single-line non-empty content up to the next delimiter, and becomes that content wrapped in the tag |
| Inline.MatchCode | src/review-detail.js:229 | a code span is the text up to the next backtick, which must not be the very next character |
| Inline.ApplyPairSpan | src/review-detail.js:225-228 | `d x d rest` becomes the tagged `x` followed by the pass over `rest`, when `x` holds no earlier closing `d` |
| Inline.ApplyCodeSpan | src/review-detail.js:229 | a backtick, non-empty text without backticks and a backtick become one `<code>` span, and the pass goes on after it |
| Inline.ApplyCopies | src/review-detail.js:217-229 | a pass copies text that holds none of the characters its matches start with |
| Inline.EmphasisPlain | src/review-page.js:189-193 | text without `*`, `_` or a backtick goes through the five shared passes untouched |
| Inline.RichPlainUnchanged | src/review-detail.js:213-231 | a line with none of `[`, `*`, `_`, backtick, `/&lt;`, `/&gt;` is returned unchanged |
| Inline.SimplePlainIsEscaped | src/review-page.js:187-195 | with no `*`, `_` or backtick, the simple renderer's inline text is exactly the escaped input |
| Inline.ApplyKeepsTags | src/review-page.js:189-193 | a shared pass never breaks a tag and writes only whole tags |
| Inline.SimpleTagsOnly | src/review-page.js:187-195 | every `<` the simple renderer writes begins a tag of the passes: the text's own are escaped |
| Lines.StripCR | src/review-detail.js:128 | one carriage return at the very end is dropped and nothing else |
| Lines.AfterMarker | src/review-detail.js:144 | the `\s+(.*)$` tail: at least one white-space character, then single-line text that is captured trimmed at the start |
| Lines.HashRun | src/review-detail.js:144 | the number of `#` the line starts with |
| Lines.Heading | src/review-detail.js:144 | a heading exactly when one to six `#` are followed by the marker tail; the level is the number of `#` |
| Lines.SevenHashesNotHeading | src/review-detail.js:144 | seven or more `#` never make a heading |
| Lines.HeadingOf | src/review-detail.js:144-150 | one to six `#`, a space and single-line text make that heading |
| Lines.RichListItem | src/review-detail.js:152 | a list item: white-space indentation, then a bullet for `ul` or a digit for `ol`, and single-line text |
| Lines.IndentWidth | src/review-detail.js:154 | a tab counts as four columns, so the width is at least the indentation's length |
| Lines.IndentLevel | src/review-detail.js:155 | level 0 below two columns, 1 below four, then one level per four columns |
| Lines.SimpleListItem | src/review-page.js:162 | only a bullet in column 0 starts an item |
| Lines.SimpleItemIsRichItem | src/review-page.js:162 | a column-0 bullet reads the same under both list patterns |
| Lines.SimpleIgnoresIndentAndNumbers | src/review-page.js:162 | indented and numbered items are list items only to the rich renderer |
| Lines.QuoteText | src/review-detail.js:190 | the `>` and at most one white-space character after it are removed |
| Lines.FootnoteDefinition | src/review-detail.js:82 | a definition is `[^`, the shortest single-line label closed by `]:`, white space and single-line text; none otherwise |
| Lines.DefinitionOf | src/review-detail.js:82 | a written definition `[^name]: text` reads back as its label and text |
| Lines.CarriageReturnDefinition | src/review-detail.js:82 | a definition line that still ends in `\r` is not a definition unless its text is blank |
| Lines.FootnoteDefinitionIntended | src/review-detail.js:82 | the intended pattern agrees with the written one on lines without `\r` |
| Lines.CarriageReturnDefinitionIntended | src/review-detail.js:82 | corrected, a definition reads the same with `\n` and with `\r\n` line ends |
| RichBlocks.AddChild | src/review-detail.js:113 | the closed list becomes the last child of the last item, and nothing else changes |
| RichBlocks.PopList | src/review-detail.js:102-121 | the innermost list is removed and the lists below keep their shape; with no list nothing changes |
| RichBlocks.PopListCloses | src/review-detail.js:110-120 | the closed list goes into the last item below it when there is one, otherwise to the output |
| RichBlocks.FlushLists | src/review-detail.js:123-125 | every list is closed, the fence state is kept and output is only appended to |
| RichBlocks.ClampedLevel | src/review-detail.js:154-158 | with lists open the level is at most the depth; with none it is the indent level |
| RichBlocks.CloseDeeper | src/review-detail.js:162-168 | deeper lists are closed; the list at the level stays exactly when it is of the item's kind |
| RichBlocks.OpenUpTo | src/review-detail.js:170-172 | missing levels are opened with the item's kind, and the lists below are kept |
| RichBlocks.AddItem | src/review-detail.js:178 | the item is added at the end of the list at its level and the lists below are kept |
| RichBlocks.Place | src/review-detail.js:162-178 | the depth becomes level + 1, the list at the level is of the item's kind, and it ends with the item |
| RichBlocks.PushItem | src/review-detail.js:152-179 | the depth is the clamped level + 1, so it grows by at most one; the top list ends with the rendered item |
| RichBlocks.FlushCode | src/review-detail.js:95-100 | inside a fence the buffered lines become one escaped code block and the fence ends; outside nothing changes |
| RichBlocks.TextStep | src/review-detail.js:144-194 | any line that is not a list item leaves no list open; a blank line only closes the lists |
| RichBlocks.Step | src/review-detail.js:127-142 | a fence toggles the code mode and keeps the lists; inside a fence a line is buffered without its `\r`; otherwise the text handler runs |
| RichBlocks.Run | src/review-detail.js:127 | the fold keeps the state well formed and only appends output |
| RichBlocks.Finish | src/review-detail.js:197-198 | at the end no list is open, no fence is open, and an unclosed fence is emitted after the lists |
| RichBlocks.Definitions | src/review-detail.js:81-82 | one match result per raw line |
| RichBlocks.CleanLines | src/review-detail.js:81-88 | the kept lines are exactly the lines that are not definitions |
| RichBlocks.OwnKeys | src/review-detail.js:201-203 | `Object.keys` lists every label once |
| RichBlocks.FootnoteSection | src/review-detail.js:201-208 | nothing without labels; otherwise the opening wrapper, one item per label with its text, and the closing wrapper |
| RichBlocks.Assemble | src/review-detail.js:201-210 | the blocks, followed by the footnotes section when there are notes |
| RichBlocks.NotesListed | src/review-detail.js:201-208 | every note has its item inside the section |
| RichBlocks.HtmlLines | src/review-detail.js:75-211 | the fragments are the blocks of the clean lines, then the section for the notes of the raw lines |
| RichBlocks.FenceRoundTrip | src/review-detail.js:130-142 | a fenced block becomes one escaped code fragment, and the lists open before it stay open |
| RichBlocks.UnclosedFenceAt | src/review-detail.js:197-198 | an unclosed fence is emitted at the end, after the lists that were open when it started |
| RichBlocks.UnclosedFence | src/review-detail.js:198 | from the start of a page, an unclosed fence is the whole output |
| RichBlocks.PlaceShape | src/review-detail.js:162-178 | placing keeps the lists below the level, opens empty lists of the item's kind, and extends or starts the list at the level |
| RichBlocks.KindSwitch | src/review-detail.js:166-168 | an item of the other kind at an open level closes that list and starts a new one holding only the item |
| RichBlocks.PushKeepsNested | src/review-detail.js:152-179 | items keep every open list non-empty as long as nesting starts at level 0 |
| RichBlocks.FlushNestedEmitsOne | src/review-detail.js:102-125 | closing a properly nested stack emits exactly one top-level fragment |
| RichBlocks.IndentedFirstItem | src/review-detail.js:114-117 | a first item indented one level opens an empty outer list |
| RichBlocks.FlushUnderEmptyList | src/review-detail.js:114-117 | under an empty outer list, the inner list is emitted first, then the empty outer list |
| RichBlocks.HeadingLine | src/review-detail.js:144-150 | a heading line closes the open lists, then emits one heading |
| RichBlocks.QuoteLine | src/review-detail.js:189-192 | a `>` line closes the open lists, then becomes one blockquote |
| RichBlocks.NotesKeys | src/review-detail.js:76-85 | a label is in the footnote table exactly when some raw line defines it and it is not `__proto__`, which the `{}` object ignores |
| RichBlocks.NotesLastWins | src/review-detail.js:84 | for every label but `__proto__`, the text kept is that of its last definition |
| RichBlocks.DefinitionRemovedAnywhere | src/review-detail.js:81-88 | a definition line is removed wherever it stands, inside a fence or not, and the lines around it are kept |
| RichBlocks.NoFootnotes | src/review-detail.js:201 | without definition lines the output is the blocks alone |
| RichBlocks.ProtoNotesDropped | src/review-detail.js:81-85 | when every definition is of `__proto__`, those lines are still removed but no footnotes section is written |
| SimpleBlocks.FlushList | src/review-page.js:130-135 | buffered items become one `<ul>`; an empty buffer emits nothing |
| SimpleBlocks.FlushCode | src/review-page.js:123-128 | inside a fence the buffered lines become one escaped code block; outside nothing changes |
| SimpleBlocks.TextStep | src/review-page.js:154-179 | a bullet is buffered and nothing is emitted; any other line flushes the buffer |
| SimpleBlocks.BlankLineFlushes | src/review-page.js:166-172 | a blank line only flushes the list |
| SimpleBlocks.Step | src/review-page.js:137-152 | a fence toggles the code mode and keeps the buffer; inside a fence a line is buffered without its `\r` |
| SimpleBlocks.Run | src/review-page.js:137 | the fold keeps the state well formed and only appends output |
| SimpleBlocks.Finish | src/review-page.js:182-183 | at the end the list is flushed, then an unclosed fence is emitted |
| SimpleBlocks.RunBullets | src/review-page.js:162-165 | bullets only grow the buffer: nothing is emitted while they last |
| SimpleBlocks.ConsecutiveBullets | src/review-page.js:130-135 | consecutive bullets form one flat list |
| SimpleBlocks.FenceKeepsList | src/review-page.js:140-152 | a fenced block becomes one escaped fragment and the list buffer is kept |
| SimpleBlocks.UnclosedFence | src/review-page.js:183 | an unclosed fence is still emitted at the end |
| SimpleBlocks.IndentedItemFlushes | src/review-page.js:162-168 | an indented or numbered item is not a list item: it flushes the buffer |
| Reviews.RewriteAssets | src/review-detail.js:25 | text without `../assets/` is unchanged; a leading one becomes `assets/` |
| Reviews.RewriteLeadingAsset | src/review-detail.js:25 | a leading asset path loses its `../`, and the rest is rewritten on its own |
| Reviews.RewriteIsOnePass | src/review-detail.js:25 | the pass does not rescan its output: `../../assets/` keeps one `../assets/` |
| Reviews.Present | src/review-detail.js:57 | a metadata value counts exactly when it is present and not empty |
| Reviews.MetaLine | src/review-detail.js:63-67 | author and publication year joined by ` · `, either alone, or no line when both are missing |
| Reviews.RenderHeader | src/review-detail.js:56-68 | the metadata title and date when present, otherwise those derived from the file name; the date formatted |
| Reviews.DetailPage | src/review-detail.js:21-30 | nothing for empty text; otherwise the rich rendering of the body, with metadata from the whole rewritten text |
| Reviews.SimplePage | src/review-page.js:11-17 | nothing for empty text; otherwise the simple rendering of the body, with metadata from the block |
| Reviews.PagesAgreeOnHeader | src/review-page.js:57-78 | for a dated file name and text without `../assets/`, both pages show the same header |
| Reviews.NoFrontMatterUsesFileName | src/review-page.js:57-59 | a review without front matter takes its title and date from the file name and has no meta line |
| Sorting.Insert | src/home.js:161-164 | the result holds the old elements and the new one |
| Sorting.Sort | src/home.js:186-189 | the result is a permutation of the input |
| Sorting.SortEach | src/home.js:185-190 | every bucket is rearranged, and the keys are kept |
| Sorting.SortSorted | src/home.js:161-164 | with a consistent comparator the result is ordered |
| Sorting.SortStable | src/home.js:161-164 | elements that compare equal keep their input order |
| Tally.Select | src/home.js:447-450 | the elements with the key, in order |
| Tally.GroupIsSelect | src/home.js:447-450 | a bucket exists exactly for a key that occurs, and holds exactly its elements, in order |
| Tally.ExactlyOneBucket | src/home.js:176-177 | each keyed element lies in the bucket of its key and in no other |
| Tally.CountIsSize | src/home.js:178 | a count is the size of the key's bucket |
| Tally.LatestIsMax | src/home.js:179-182 | the latest snapshot is the largest among the key's elements, and one of them has it |
| Tally.RereadBadge | src/home.js:351-358 | a reread shows its badge on some reading, and never on a reading older than another |
| Tally.NoBadgeOnce | src/home.js:354 | a single reading never shows the badge |
| Tally.SnapshotOrder | src/home.js:179 | `year * 100 + month` orders months chronologically for months 1 to 12 |
| Tally.MonthKey | src/home.js:443-445 | the year, a dash, and the month padded to two digits |
| Tally.MonthKeyInjective | src/home.js:443-445 | different months never share a key, for every integer year and month, negative ones included |
| Tally.HeatLevel | src/home.js:254 | no level for an empty cell; the count itself up to 4, and 4 for every count of 4 or more |
| Tally.MinYear | src/home.js:243 | at most the current year and every data year, and equal to one of them |
| Tally.YearRange | src/home.js:240-247 | every year from the current one down to the earliest, each one below the last; every data year up to now is included |
| Tally.SeasonEmoji | reading-heatmap.js:11-16 | an emoji exactly for months 3, 6, 9 and 12 |
| Assoc.FoldKeys | src/home.js:497-500 | a key is in the `Map` exactly when some entry writes it |
| Assoc.FoldLastWins | src/home.js:500 | a key's value comes from the last entry that writes it |
| Assoc.ObjectWrite | src/utils.js:11 | a `{}` object keeps a write exactly when its key is not `__proto__` |
| Assoc.ObjectFoldKeys | src/review-detail.js:84 | a key is an own key of the object exactly when it is not `__proto__` and some entry writes it |
| Assoc.ObjectFoldLastWins | src/review-detail.js:84 | for any other key, the last write wins as in a map |
| Assoc.InsertionOrder | src/review-detail.js:203 | each key once, exactly the keys of the map |
| ReadingLog.FieldOf | src/home.js:148-155 | each of the four header names selects its field; any other name is ignored |
| ReadingLog.Fields | src/home.js:147 | each column's field is chosen by its trimmed, lower-cased header |
| ReadingLog.HeadersIgnoreCaseAndSpace | src/home.js:147 | headers with the same trimmed lower-case names read every row the same |
| ReadingLog.ParseRow | src/home.js:139-157 | a row is dropped exactly when it is blank or lacks a title (or English title), a year or a month; a kept entry's titles are trimmed |
| ReadingLog.ParseRows | src/home.js:139-158 | only kept, trimmed entries, never more than the rows |
| ReadingLog.ParseCsv | src/home.js:136-159 | fewer entries than lines, all kept and trimmed |
| ReadingLog.RowRoundTrip | src/home.js:139-157 | a book written as a row under the standard header reads back as itself |
| ReadingLog.RowsRoundTrip | src/home.js:139-158 | written rows read back as their books, in order |
| ReadingLog.CsvRoundTrip | src/home.js:136-159 | a log written from plain books reads back as the same books in the same order |
| ReadingLog.Canonical | src/home.js:75 | the trimmed title, or the trimmed English title when the title is blank |
| ReadingLog.CanonicalBlank | src/home.js:75 | no canonical title exactly when both titles are blank |
| ReadingLog.LocalizedTitle | src/home.js:76-79 | Korean shows the canonical title; English prefers the English title and falls back to the title |
| ReadingLog.LocalizedBlank | src/home.js:76-79 | either language has a title to show exactly when the book has a canonical title |
| ReadingLog.KeptHasCanonical | src/home.js:156 | every kept book has a canonical title: its title, else its English title |
| ReadingLog.NewestFirstIsPreorder | src/home.js:161-164 | the comparator is a consistent order when the collation is |
| ReadingLog.SortBooks | src/home.js:161-164 | the sorted log is a permutation of the books |
| ReadingLog.SortBooksOrder | src/home.js:161-164 | the log runs from the newest year and month to the oldest, ties in canonical-title order |
| ReadingLog.MonthThenTitleIsPreorder | src/home.js:186-190 | the year-list comparator is a consistent order when the collation is |
| ReadingLog.BuildDerived | src/home.js:166-191 | year lists, cells and counts exist exactly for the years, months and titles of the titled books; each year list is a permutation of its books, each cell holds its books in order, each count is the number of readings |
| ReadingLog.YearListSorted | src/home.js:186-190 | each year list holds only its year, newest month first, then titles in order |
| ReadingLog.RereadBadge | src/home.js:351-358 | a title read more than once shows its badge on a reading of its latest month and on no older one |
| ReadingLog.SingleReadNoBadge | src/home.js:354 | a title read once never shows the badge |
| ReadingLog.CellHoldsItsMonth | src/home.js:439-441 | a heatmap cell holds exactly the titled books of its year and month, in log order, for every year and month including negative ones |
| ReadingLog.CellShaded | src/home.js:251-254 | a cell is shaded exactly when some titled book was read in its month |
| ReadingLog.ReviewLookupKeys | src/home.js:496-502 | the lookup has a key exactly for the non-blank normalized review titles |
| ReadingLog.ReviewLookupLastWins | src/home.js:500 | of reviews with the same normalized title, the last one is kept |
| ReadingLog.FirstHit | src/home.js:491-494 | nothing exactly when no candidate is in the lookup; otherwise the review of the first one that is |
| ReadingLog.FirstHitRepeat | src/home.js:491-494 | trying a key again, or one the lookup lacks, finds nothing new |
| ReadingLog.CanonicalAddsNothing | src/home.js:484-488 | the canonical candidate is one of the first two, so trying it last finds nothing new |
| ReadingLog.CanonicalKey | src/home.js:488-489 | the lower-cased canonical title is the first non-blank normalized title |
| ReadingLog.TitleMatchWins | src/home.js:483-495 | a book whose title matches a review's normalized title finds that review |
| RawReadingLog.Fields | script.js:109-116 | each column's field is chosen by its header exactly as written |
| RawReadingLog.FillUntouched | script.js:108-117 | a field that no column names stays unset |
| RawReadingLog.FillBare | script.js:115 | whatever the columns, the stored title is trimmed |
| RawReadingLog.ParseRow | script.js:105-119 | a row is dropped exactly when it is blank or lacks a title, a year or a month; the English title alone does not count |
| RawReadingLog.ParseRows | script.js:105-120 | only kept entries with trimmed titles, never more than the rows |
| RawReadingLog.ParseCsv | reading-heatmap.js:39-56 | fewer entries than lines, all kept |
| RawReadingLog.MissingColumnDropsAll | script.js:118 | without a column named exactly `title`, `year` or `month`, every row is dropped |
| RawReadingLog.PaddedHeadersDropAll | script.js:104 | a header ` Title`, or a last header `month\r` left by a CRLF file, drops every row |
| RawReadingLog.NewestFirstIsPreorder | script.js:123-124 | the comparator is a consistent order when the collation is |
| RawReadingLog.SortEntries | reading-heatmap.js:58-62 | the sorted log is a permutation of the entries |
| RawReadingLog.SortEntriesOrder | script.js:123-124 | the log runs from the newest year and month to the oldest, ties in raw-title order |
| RawReadingLog.BuildDerived | script.js:126-146 | year lists exist exactly for the years of the log; each is a permutation of its entries; cells hold their entries in order; counts are keyed by raw title |
| RawReadingLog.MonthThenTitleIsPreorder | script.js:144 | the year-list comparator is a consistent order when the collation is |
| RawReadingLog.YearListSorted | script.js:143-145 | each year list holds only its year, newest month first, then raw titles in order |
| RawReadingLog.YearBuckets | reading-heatmap.js:64-79 | a year list exists exactly for the years of the log, and holds that year's entries |
| RawReadingLog.TitleCounts | script.js:135-136 | a count exists exactly for the titles of the log and is the number of their readings |
| RawReadingLog.RereadBadge | script.js:253-258 | a title read more than once shows its badge on a reading of its latest month and on no older one |
| RawReadingLog.YearsDescending | script.js:216-217 | the distinct years, newest first |
| RawReadingLog.DescendingUnique | script.js:216-217 | two descending lists of the same years are equal, so the map's key order does not matter |
| RawReadingLog.Sections | script.js:218-221 | the current year goes to the left column, every other year to the right |
| RawReadingLog.SectionsDescending | script.js:218-221 | both columns stay newest first |
| RawReadingLog.ColumnsSplit | script.js:216-223 | each logged year is in exactly one column; the left column is the current year when it was logged, else empty; the right is descending |

src/script.js repeats the data logic of src/home.js: `parseCSV` (src/script.js:125-148), `sortBooksDesc`
(:150-153), `buildDerivedData` (:155-179), `buildYearRange` (:228-235), the badge (:327-334) and `monthKey`
(:419-421). The `ReadingLog` rows above model those lines too. reading-heatmap.js repeats script.js:
`parseCSV` (reading-heatmap.js:39-56), `sortBooksDesc` (:58-62), `buildDerivedData` (:64-80), the year range
(:89-95), the heat level (:125) and `monthKey` (:201-203). The `RawReadingLog` and `Tally` rows model those.
reading-heatmap.js has no per-title counts, so `RawReadingLog.BuildDerived`'s `counts` and `latest` belong
to script.js alone.

## Left out

- The DOM, event listeners, tooltips and their pixel positions, `requestAnimationFrame`, and the
  language and theme toggles with their `localStorage` and `matchMedia` state. They are user-interface
  side effects.
- `fetch` and every loader built on it (`loadBooks`, `fetchMarkdown`, review discovery in
  src/review-list.js). Each review function starts from the fetched text. `Reviews.DetailPage` and
  `Reviews.SimplePage` model a failed fetch only as empty text.
- `extractMarkdownLinks` (src/utils.js:207-229). It calls the browser's `DOMParser`.
- `localeCompare`. It depends on the locale, so every order takes `collate`, a total preorder supplied
  by the caller.
- Sorting.Sort: it is an insertion sort. The engine chooses its own sort algorithm, but with a
  consistent comparator every stable sort gives this same result.
- Dates.FormatDate, Dates.Build: the weekday comes from a `dayOf` parameter instead of `new Date(...)`
  and `getDay()`.
- Dates.FormatRelativeDate, Dates.FormatRelativeDateIntended: `parseDate` (src/utils.js:78-91) and the
  clock are not modelled. A `diffDays` parameter stands for the day difference to today: `None` for a
  value that does not parse.
- Dates.FormatDate: `raw.length === 8` counts UTF-16 code units. The model counts characters, so a
  value of four characters outside the Basic Multilingual Plane takes the eight-character branch in
  the program but not in the model.
- Dates.Build, Dates.KoreanUnit: these emit the Korean words as they are meant to read (년, 월, 일, the
  weekday names, 오늘, 전). src/review-page.js:86,94 has the same words. The literals in
  src/utils.js:53,61,95-99 are mis-encoded: UTF-8 bytes read as Windows-1252, such as `ë…„` for 년. The
  model does not reproduce those bytes.
- Text.ParseInt, Text.IntToString: numbers are unbounded integers. `parseInt` returns a double, which
  loses precision past 2^53 and prints in exponent notation from 10^21. Years and months are far below
  that.
- Text.ToLower, ReadingLog.LookupKey, ReadingLog.FindReview: lower-casing covers ASCII letters only.
  `toLowerCase` (src/home.js:489,500) maps every Unicode letter. Titles that differ only in the case of
  a non-ASCII letter, such as `Étranger` and `étranger`, match in the program but not in the model.
- RichBlocks.OwnKeys: the footnote order is modelled as JavaScript's own-key order: array-index labels
  ascending, then the others in insertion order. No property of that order is stated beyond each label
  appearing once.
- RichBlocks.Blocks: it has no contract of its own. It is `Finish(Run(Initial, lines)).out`, and
  `Run`, `Finish`, `UnclosedFence` and `NoFootnotes` state its behaviour.
- The `TEXT` localization tables, month labels and legends. They are opaque display strings. Only the
  relative-date words and the season-emoji months are modelled.
- Heatmap and year-section layout: cells before or after the data, hidden cells and summary lines. Only
  the data they show is modelled: the cell contents, the heat level, the badge and the column split.

## Findings

| source | as written | input that shows it | evidently intended | confidence | as-written member | corrected member |
|---|---|---|---|---|---|---|
| src/utils.js:126-133 | 28 or 29 days pass the weeks test (4 weeks is not below 4), and `Math.floor(d / 30)` is then 0; 360 to 364 days give `Math.floor(d / 365)` = 0; no other count gives a zero | `diffDays` 28 in English gives "0 months"; 360 gives "0 years" | a past date reads as a count of at least one: "1 month", "1 year" | not executed; high, from the arithmetic | Dates.ZeroCountsAsWritten (with Dates.BucketAsWritten, Dates.ZeroMonthsShown, Dates.FormatRelativeDate) | Dates.NoZeroCount (with Dates.Bucket, Dates.FormatRelativeDateIntended, Dates.IntendedAgreesElsewhere) |
| src/review-detail.js:82 | footnote definitions are matched on the raw lines, before `\r` is stripped at src/review-detail.js:128; `(.*)$` cannot take the `\r`, so a CRLF file has no footnote definitions | the line `[^1]: note\r` is not a definition: it is kept as a paragraph and no footnotes section is written | definitions read the same with `\n` and `\r\n` line ends, as every other line kind does | not executed; medium, CRLF review files are an assumption | Lines.CarriageReturnDefinition | Lines.CarriageReturnDefinitionIntended (with Lines.FootnoteDefinitionIntended) |

The review pages (`RichBlocks`, `Reviews`) and `Dates.FormatRelativeDate` keep the behaviour as written,
so they describe what the pages show. The corrected members stand beside them with their properties
proved.
