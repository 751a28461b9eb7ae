/**
 * The inline passes of both review renderers. Each `replace(/…/g, …)` is a scanner
 * that walks the text left to right: where the pattern matches, the match is
 * replaced and scanning resumes after it; elsewhere one character is copied. A lazy
 * group `(.+?)` takes the shortest content that lets the closing delimiter follow,
 * and `.` never crosses a line terminator.
 *
 * src/review-detail.js runs, in order: `/&lt;` to `<`, `/&gt;` to `>`, footnote
 * references `[^x]`, links `[text](url)`, `**`, `__`, `*`, `_` and code spans. It
 * does not escape HTML. src/review-page.js escapes `&`, `<` and `>` first and then
 * runs only the last five passes.
 */
module Inline {
  import opened Text
  import opened Html

  /**
   * The lazy search for a closing `c` after content that starts at `from`: the first
   * `k >= from + minLen` at which `c` occurs, provided no line terminator lies in
   * `s[from..k]`. The search is at `j`.
   */
  function LazyCloseFrom(s: string, from: nat, j: nat, c: string, minLen: nat): (r: Option<nat>)
    requires from <= j <= |s| && SingleLine(s[from..j])
    ensures r.Some? ==> j <= r.value && from + minLen <= r.value && OccursAt(s, c, r.value)
    ensures r.Some? ==> SingleLine(s[from..r.value])
    ensures r.Some? ==> forall k :: j <= k < r.value && from + minLen <= k ==> !OccursAt(s, c, k)
    ensures r.None? ==> forall k :: j <= k <= |s| && from + minLen <= k && SingleLine(s[from..k]) ==> !OccursAt(s, c, k)
    decreases |s| - j
  {
    if j - from >= minLen && OccursAt(s, c, j) then Some(j)
    else if j == |s| || IsLineTerminator(s[j]) then
      assert forall k :: j < k <= |s| ==> s[from..k][j - from] == s[j];
      None
    else
      assert s[from..j + 1] == s[from..j] + [s[j]];
      LazyCloseFrom(s, from, j + 1, c, minLen)
  }

  /** Where a lazy, single-line group starting at `from` with at least `minLen` characters ends. */
  function LazyClose(s: string, from: nat, c: string, minLen: nat): (r: Option<nat>)
    requires from <= |s|
    ensures r.Some? ==> from + minLen <= r.value && OccursAt(s, c, r.value) && SingleLine(s[from..r.value])
    ensures r.Some? ==> forall k :: from + minLen <= k < r.value ==> !OccursAt(s, c, k)
    ensures r.None? ==> forall k :: from + minLen <= k <= |s| && SingleLine(s[from..k]) ==> !OccursAt(s, c, k)
  {
    LazyCloseFrom(s, from, from, c, minLen)
  }

  /** One `replace(/…/g, …)` of the renderers. */
  datatype Rule =
    | Pair(delim: string, tag: string)   // `d(.+?)d` becomes `<tag>$1</tag>`
    | FootnoteRef                        // `\[\^(.+?)\]`
    | Link                               // `\[(.*?)\]\((.*?)\)`
    | CodeSpan                           // `` `([^`]+)` ``

  predicate ValidRule(rule: Rule) {
    rule.Pair? ==> |rule.delim| > 0
  }

  /** The character every match of the rule starts with. */
  function Lead(rule: Rule): char
    requires ValidRule(rule)
  {
    match rule
    case Pair(d, _) => d[0]
    case FootnoteRef => '['
    case Link => '['
    case CodeSpan => '`'
  }

  function Tagged(tag: string, content: string): string {
    "<" + tag + ">" + content + "</" + tag + ">"
  }

  function FootnoteMarker(name: string): string {
    "<sup><a href=\"#fn-" + name + "\" id=\"ref-" + name + "\">" + name + "</a></sup>"
  }

  function Anchor(text: string, url: string): string {
    "<a href=\"" + url + "\">" + text + "</a>"
  }

  /** The match of `rule` at the start of `s`: its length and its replacement. */
  function MatchHere(s: string, rule: Rule): (r: Option<(nat, string)>)
    requires ValidRule(rule)
    ensures r.Some? ==> 0 < r.value.0 <= |s| && s[0] == Lead(rule)
  {
    match rule
    case Pair(d, tag) =>
      if !StartsWith(s, d) then None
      else (
        match LazyClose(s, |d|, d, 1)
        case None => None
        case Some(k) => Some((k + |d|, Tagged(tag, s[|d|..k])))
      )
    case FootnoteRef =>
      if !StartsWith(s, "[^") then None
      else (
        match LazyClose(s, 2, "]", 1)
        case None => None
        case Some(k) => Some((k + 1, FootnoteMarker(s[2..k])))
      )
    case Link =>
      // When no `)` follows the first `](`, a later `](` cannot help: the text group
      // would have to cross the line terminator, or the end, that stopped the search.
      if !StartsWith(s, "[") then None
      else (
        match LazyClose(s, 1, "](", 0)
        case None => None
        case Some(j) =>
          match LazyClose(s, j + 2, ")", 0)
          case None => None
          case Some(k) => Some((k + 1, Anchor(s[1..j], s[j + 2..k])))
      )
    case CodeSpan =>
      if s == [] || s[0] != '`' then None
      else (
        match IndexOf(s[1..], '`')
        case None => None
        case Some(k) => if k == 0 then None else Some((k + 2, Tagged("code", s[1..k + 1])))
      )
  }

  /** `s.replace(pattern, replacement)` with the `g` flag, scanning left to right. */
  function Apply(s: string, rule: Rule): (r: string)
    requires ValidRule(rule)
    ensures Lead(rule) !in s ==> r == s
    decreases |s|
  {
    if s == [] then ""
    else
      match MatchHere(s, rule)
      case Some((n, rep)) => rep + Apply(s[n..], rule)
      case None => [s[0]] + Apply(s[1..], rule)
  }

  /**
   * A delimiter pair matches the shortest non-empty single-line content after the
   * opening delimiter that a closing one follows, and wraps that content in the tag.
   */
  lemma MatchPair(s: string, d: string, tag: string)
    requires |d| > 0
    ensures var r := MatchHere(s, Pair(d, tag));
      r.Some? ==>
        var k := r.value.0 - |d|;
        && |d| < k && StartsWith(s, d) && OccursAt(s, d, k) && SingleLine(s[|d|..k])
        && (forall j :: |d| < j < k ==> !OccursAt(s, d, j))
        && r.value.1 == Tagged(tag, s[|d|..k])
    ensures var r := MatchHere(s, Pair(d, tag));
      r.None? ==>
        (!StartsWith(s, d) || forall k :: |d| < k <= |s| && SingleLine(s[|d|..k]) ==> !OccursAt(s, d, k))
  {
  }

  /** A code span is the text up to the next backtick, which must not be the very next character. */
  lemma MatchCode(s: string)
    ensures var r := MatchHere(s, CodeSpan);
      r.Some? ==>
        var k := r.value.0 - 1;
        1 < k && s[k] == '`' && '`' !in s[1..k] && r.value.1 == Tagged("code", s[1..k])
    ensures var r := MatchHere(s, CodeSpan);
      r.None? ==> s == [] || s[0] != '`' || '`' !in s[1..] || s[1] == '`'
  {
    if s != [] && s[0] == '`' {
      match IndexOf(s[1..], '`')
      case None =>
      case Some(k) =>
        assert s[1..][..k] == s[1..k + 1];
        assert s[k + 1] == s[1..][k];
    }
  }

  /**
   * `d x d rest` with a non-empty single-line `x` in which no closing `d` starts
   * early: the pass wraps `x` and goes on with `rest`.
   */
  lemma ApplyPairSpan(d: string, tag: string, x: string, rest: string)
    requires |d| > 0 && |x| > 0 && SingleLine(x)
    requires forall j :: 0 < j < |x| ==> !OccursAt(x + d, d, j)
    ensures Apply(d + x + d + rest, Pair(d, tag)) == Tagged(tag, x) + Apply(rest, Pair(d, tag))
  {
    var s := d + x + d + rest;
    var k := |d| + |x|;
    assert s[..|d|] == d;
    assert s[|d|..k] == x;
    assert s[k..k + |d|] == d;
    assert s[k + |d|..] == rest;
    LazyCloseAtSpanEnd(d, x, rest);
  }

  /** The lazy search from after the opening `d` stops at the end of `x`. */
  lemma LazyCloseAtSpanEnd(d: string, x: string, rest: string)
    requires |d| > 0 && |x| > 0 && SingleLine(x)
    requires forall j :: 0 < j < |x| ==> !OccursAt(x + d, d, j)
    ensures LazyClose(d + x + d + rest, |d|, d, 1) == Some(|d| + |x|)
  {
    var s := d + x + d + rest;
    var k := |d| + |x|;
    assert s[|d|..k] == x;
    assert s[k..k + |d|] == d;
    match LazyClose(s, |d|, d, 1)
    case None =>
      assert OccursAt(s, d, k);
    case Some(e) =>
      if e < k {
        ShiftedOccurrence(d, x, rest, e - |d|);
      } else if e > k {
        assert OccursAt(s, d, k);
      }
  }

  lemma ShiftedOccurrence(d: string, x: string, rest: string, j: nat)
    requires j < |x| && OccursAt(d + x + d + rest, d, |d| + j)
    ensures OccursAt(x + d, d, j)
  {
    var s := d + x + d + rest;
    assert s[|d|..|d| + |x| + |d|] == x + d;
    assert s[|d| + j..|d| + j + |d|] == (x + d)[j..j + |d|];
  }

  /** A backtick, non-empty text without backticks, a backtick: one `<code>` span. */
  lemma ApplyCodeSpan(x: string, rest: string)
    requires |x| > 0 && '`' !in x
    ensures Apply("`" + x + "`" + rest, CodeSpan) == Tagged("code", x) + Apply(rest, CodeSpan)
  {
    var s := "`" + x + "`" + rest;
    var k := |x| + 1;
    assert s[1..] == x + "`" + rest;
    assert (x + "`" + rest)[|x|] == '`';
    assert (x + "`" + rest)[..|x|] == x;
    assert IndexOf(s[1..], '`') == Some(|x|);
    assert s[1..k] == x;
    assert s[k + 1..] == rest;
  }

  /**
   * A footnote reference is the shortest non-empty single-line label after `[^`
   * that a `]` follows; it becomes the superscript marker for that label.
   */
  lemma MatchFootnoteRef(s: string)
    ensures var r := MatchHere(s, FootnoteRef);
      r.Some? ==>
        var k := r.value.0 - 1;
        && 2 < k && StartsWith(s, "[^") && OccursAt(s, "]", k) && SingleLine(s[2..k])
        && (forall j :: 2 < j < k ==> !OccursAt(s, "]", j))
        && r.value.1 == FootnoteMarker(s[2..k])
    ensures var r := MatchHere(s, FootnoteRef);
      r.None? ==>
        (!StartsWith(s, "[^") || forall k :: 2 < k <= |s| && SingleLine(s[2..k]) ==> !OccursAt(s, "]", k))
  {
  }

  /** `[^x]` with a non-empty single-line label that no earlier `]` cuts short: one marker. */
  lemma ApplyFootnoteRefSpan(x: string, rest: string)
    requires |x| > 0 && SingleLine(x) && forall j :: 0 < j < |x| ==> x[j] != ']'
    ensures Apply("[^" + x + "]" + rest, FootnoteRef) == FootnoteMarker(x) + Apply(rest, FootnoteRef)
  {
    var s := "[^" + x + "]" + rest;
    var k := 2 + |x|;
    assert s[..2] == "[^";
    assert s[2..k] == x;
    assert s[k + 1..] == rest;
    LazyCloseAtLabelEnd(x, rest);
  }

  lemma LazyCloseAtLabelEnd(x: string, rest: string)
    requires |x| > 0 && SingleLine(x) && forall j :: 0 < j < |x| ==> x[j] != ']'
    ensures LazyClose("[^" + x + "]" + rest, 2, "]", 1) == Some(2 + |x|)
  {
    var s := "[^" + x + "]" + rest;
    var k := 2 + |x|;
    assert s[2..k] == x;
    assert s[k..k + 1] == "]";
    assert OccursAt(s, "]", k);
    forall e | 3 <= e < k
      ensures !OccursAt(s, "]", e)
    {
      assert s[e..e + 1] == [x[e - 2]];
    }
  }

  /**
   * `[t](u)` with single-line `t` and `u`, no `](` inside `t` and no `)` inside `u`:
   * one anchor, and the pass goes on after the `)`.
   */
  lemma ApplyLinkSpan(t: string, u: string, rest: string)
    requires SingleLine(t) && SingleLine(u) && !Occurs(t, "](") && ')' !in u
    ensures Apply("[" + t + "](" + u + ")" + rest, Link) == Anchor(t, u) + Apply(rest, Link)
  {
    var s := "[" + t + "](" + u + ")" + rest;
    MatchLinkSpan(t, u, rest);
    assert s[4 + |t| + |u|..] == rest;
  }

  lemma MatchLinkSpan(t: string, u: string, rest: string)
    requires SingleLine(t) && SingleLine(u) && !Occurs(t, "](") && ')' !in u
    ensures MatchHere("[" + t + "](" + u + ")" + rest, Link) == Some((4 + |t| + |u|, Anchor(t, u)))
  {
    var s := "[" + t + "](" + u + ")" + rest;
    var j := 1 + |t|;
    var k := j + 2 + |u|;
    assert s[..1] == "[";
    assert s[1..j] == t;
    assert s[j + 2..k] == u;
    LazyCloseAtTextEnd(t, u, rest);
    LazyCloseAtUrlEnd(t, u, rest);
  }

  /** The text group ends at the first `](`, which follows `t`. */
  lemma LazyCloseAtTextEnd(t: string, u: string, rest: string)
    requires SingleLine(t) && !Occurs(t, "](")
    ensures LazyClose("[" + t + "](" + u + ")" + rest, 1, "](", 0) == Some(1 + |t|)
  {
    var s := "[" + t + "](" + u + ")" + rest;
    var j := 1 + |t|;
    assert s[1..j] == t;
    assert s[j..j + 2] == "](";
    assert OccursAt(s, "](", j);
    forall e | 1 <= e < j
      ensures !OccursAt(s, "](", e)
    {
      if e + 2 <= j {
        assert s[e..e + 2] == t[e - 1..e + 1];
        assert !OccursAt(t, "](", e - 1);
      } else {
        assert s[e + 1] == ']';
      }
    }
  }

  /** The url group ends at the first `)`, which follows `u`. */
  lemma LazyCloseAtUrlEnd(t: string, u: string, rest: string)
    requires SingleLine(u) && ')' !in u
    ensures LazyClose("[" + t + "](" + u + ")" + rest, 3 + |t|, ")", 0) == Some(3 + |t| + |u|)
  {
    var s := "[" + t + "](" + u + ")" + rest;
    var from := 3 + |t|;
    var k := from + |u|;
    assert s[from..k] == u;
    assert s[k..k + 1] == ")";
    assert OccursAt(s, ")", k);
    forall e | from <= e < k
      ensures !OccursAt(s, ")", e)
    {
      assert s[e..e + 1] == [u[e - from]];
    }
  }

  const StrongStars := Pair("**", "strong")
  const StrongUnderscores := Pair("__", "strong")
  const EmStar := Pair("*", "em")
  const EmUnderscore := Pair("_", "em")

  /** The five passes both renderers share, in source order. */
  function Emphasis(s: string): string {
    Apply(Apply(Apply(Apply(Apply(s, StrongStars), StrongUnderscores), EmStar), EmUnderscore), CodeSpan)
  }

  /** `inlineMarkdown` of src/review-detail.js. */
  function RichInline(s: string): string {
    var t := ReplaceAll(ReplaceAll(s, "/&lt;", "<"), "/&gt;", ">");
    Emphasis(Apply(Apply(t, FootnoteRef), Link))
  }

  /** `inlineMarkdown` of src/review-page.js. */
  function SimpleInline(s: string): string {
    Emphasis(EscapeHtml(s))
  }

  /** Text without `*`, `_` or a backtick passes the five shared passes untouched. */
  lemma EmphasisPlain(s: string)
    requires '*' !in s && '_' !in s && '`' !in s
    ensures Emphasis(s) == s
  {
  }

  /** A line with no markup character and no `/&lt;` or `/&gt;` comes out of the rich passes unchanged. */
  lemma RichPlainUnchanged(s: string)
    requires '[' !in s && '*' !in s && '_' !in s && '`' !in s
    requires !Occurs(s, "/&lt;") && !Occurs(s, "/&gt;")
    ensures RichInline(s) == s
  {
    EmphasisPlain(s);
  }

  /** Escaping writes only the input's characters and the letters of the three entities. */
  lemma {:induction false} EscapeCharsAlphabet(s: string, c: char)
    requires c in EscapeChars(s)
    ensures c in s || c in "&amp;lt;gt"
    decreases |s|
  {
    if s != [] {
      assert EscapeChars(s) == EscapeChar(s[0]) + EscapeChars(s[1..]);
      if c !in EscapeChar(s[0]) {
        EscapeCharsAlphabet(s[1..], c);
      }
    }
  }

  /** With no `*`, `_` or backtick, the simple renderer only escapes. */
  lemma SimplePlainIsEscaped(s: string)
    requires '*' !in s && '_' !in s && '`' !in s
    ensures SimpleInline(s) == EscapeHtml(s)
  {
    var e := EscapeHtml(s);
    EscapeIsCharwise(s);
    forall c | c in e && (c == '*' || c == '_' || c == '`')
      ensures false
    {
      EscapeCharsAlphabet(s, c);
    }
    EmphasisPlain(e);
  }

  // ---- what the simple renderer's `<` can be -----------------------------------

  /** The characters the shared passes look for. */
  predicate IsMarkup(c: char) {
    c == '*' || c == '_' || c == '`'
  }

  /** One of the six tags the shared passes write. */
  predicate OpensTag(u: string) {
    StartsWith(u, "<strong>") || StartsWith(u, "</strong>") || StartsWith(u, "<em>")
    || StartsWith(u, "</em>") || StartsWith(u, "<code>") || StartsWith(u, "</code>")
  }

  /** Every `<` of `s` begins one of those tags. */
  predicate TagsOnly(s: string) {
    forall i :: 0 <= i < |s| && s[i] == '<' ==> OpensTag(s[i..])
  }

  /** The tag `u` begins with. */
  function TagOf(u: string): (t: string)
    requires OpensTag(u)
    ensures StartsWith(u, t) && |t| > 0 && TagText(t)
  {
    if StartsWith(u, "<strong>") then "<strong>"
    else if StartsWith(u, "</strong>") then "</strong>"
    else if StartsWith(u, "<em>") then "<em>"
    else if StartsWith(u, "</em>") then "</em>"
    else if StartsWith(u, "<code>") then "<code>"
    else "</code>"
  }

  predicate TagText(t: string) {
    t == "<strong>" || t == "</strong>" || t == "<em>" || t == "</em>" || t == "<code>" || t == "</code>"
  }

  /** A tag has no markup character, and its only `<` is its first character. */
  lemma TagTextShape(t: string)
    requires TagText(t)
    ensures forall i :: 0 <= i < |t| ==> !IsMarkup(t[i])
    ensures t[0] == '<' && forall i :: 0 < i < |t| ==> t[i] != '<'
  {
  }

  lemma TagTextTagsOnly(t: string)
    requires TagText(t)
    ensures TagsOnly(t)
  {
    TagTextShape(t);
    assert t[0..] == t;
  }

  lemma StartsWithExtends(u: string, v: string, t: string)
    requires StartsWith(u, t)
    ensures StartsWith(u + v, t)
  {
    assert (u + v)[..|t|] == u[..|t|];
  }

  lemma OpensTagExtends(u: string, v: string)
    requires OpensTag(u)
    ensures OpensTag(u + v)
  {
    StartsWithExtends(u, v, TagOf(u));
  }

  /** Text with tags only, followed by text with tags only. */
  lemma TagsOnlyConcat(a: string, b: string)
    requires TagsOnly(a) && TagsOnly(b)
    ensures TagsOnly(a + b)
  {
    var s := a + b;
    forall i | 0 <= i < |s| && s[i] == '<' ensures OpensTag(s[i..]) {
      if i < |a| {
        assert s[i..] == a[i..] + b;
        OpensTagExtends(a[i..], b);
      } else {
        assert s[i..] == b[i - |a|..];
      }
    }
  }

  lemma TagsOnlyDrop(s: string, n: nat)
    requires TagsOnly(s) && n <= |s|
    ensures TagsOnly(s[n..])
  {
    forall i | 0 <= i < |s[n..]| && s[n..][i] == '<' ensures OpensTag(s[n..][i..]) {
      assert s[n..][i..] == s[n + i..];
    }
  }

  /** A tag cannot run past a markup character, so cutting before one keeps every tag whole. */
  lemma TagsOnlyCut(s: string, j: nat)
    requires TagsOnly(s) && j < |s| && IsMarkup(s[j])
    ensures TagsOnly(s[..j])
  {
    forall i | 0 <= i < j && s[..j][i] == '<' ensures OpensTag(s[..j][i..]) {
      var t := TagOf(s[i..]);
      TagTextShape(t);
      assert s[i..][j - i] == s[j];
      TagFits(s[i..], t, j - i);
      assert s[..j][i..][..|t|] == s[i..][..|t|];
    }
  }

  /** A tag at the start of `u` ends before the first markup character of `u`. */
  lemma TagFits(u: string, t: string, j: nat)
    requires StartsWith(u, t) && j < |u| && IsMarkup(u[j])
    requires forall i :: 0 <= i < |t| ==> !IsMarkup(t[i])
    ensures |t| <= j
  {
  }

  lemma TaggedTagsOnly(tag: string, content: string)
    requires tag == "strong" || tag == "em" || tag == "code"
    requires TagsOnly(content)
    ensures TagsOnly(Tagged(tag, content))
  {
    var open := "<" + tag + ">";
    var close := "</" + tag + ">";
    TagTextTagsOnly(open);
    TagTextTagsOnly(close);
    TagsOnlyConcat(open, content);
    TagsOnlyConcat(open + content, close);
    assert Tagged(tag, content) == open + content + close;
  }

  /** A character no match starts with is copied. */
  lemma ApplyCopyOne(s: string, rule: Rule)
    requires ValidRule(rule) && s != [] && s[0] != Lead(rule)
    ensures Apply(s, rule) == [s[0]] + Apply(s[1..], rule)
  {
    assert MatchHere(s, rule).None?;
  }

  /** A pass copies text that holds none of the characters its matches start with. */
  lemma {:induction false} ApplyCopies(p: string, rest: string, rule: Rule)
    requires ValidRule(rule) && Lead(rule) !in p
    ensures Apply(p + rest, rule) == p + Apply(rest, rule)
    decreases |p|
  {
    if p != [] {
      var s := p + rest;
      assert s[0] == p[0];
      assert s[1..] == p[1..] + rest;
      ApplyCopyOne(s, rule);
      ApplyCopies(p[1..], rest, rule);
      ConsSplit(p, Apply(rest, rule));
    } else {
      assert p + rest == rest;
    }
  }

  /** The four emphasis passes and the code pass. */
  predicate SharedRule(rule: Rule) {
    rule == StrongStars || rule == StrongUnderscores || rule == EmStar || rule == EmUnderscore || rule == CodeSpan
  }

  /** A shared pass never breaks a tag and writes only whole tags. */
  lemma {:induction false} ApplyKeepsTags(s: string, rule: Rule)
    requires SharedRule(rule) && TagsOnly(s)
    ensures TagsOnly(Apply(s, rule))
    decreases |s|
  {
    if s != [] {
      if s[0] == '<' {
        var t := TagOf(s);
        TagTextShape(t);
        assert s == t + s[|t|..];
        ApplyCopies(t, s[|t|..], rule);
        TagTextTagsOnly(t);
        TagsOnlyDrop(s, |t|);
        ApplyKeepsTags(s[|t|..], rule);
        TagsOnlyConcat(t, Apply(s[|t|..], rule));
      } else {
        match MatchHere(s, rule)
        case None =>
          TagsOnlyDrop(s, 1);
          ApplyKeepsTags(s[1..], rule);
          TagsOnlyConcat([s[0]], Apply(s[1..], rule));
        case Some((n, rep)) =>
          MatchedTagsOnly(s, rule);
          TagsOnlyDrop(s, n);
          ApplyKeepsTags(s[n..], rule);
          TagsOnlyConcat(rep, Apply(s[n..], rule));
      }
    }
  }

  /** What a shared pass writes for one match has tags only. */
  lemma MatchedTagsOnly(s: string, rule: Rule)
    requires SharedRule(rule) && TagsOnly(s) && MatchHere(s, rule).Some?
    ensures TagsOnly(MatchHere(s, rule).value.1)
  {
    if rule.Pair? {
      assert IsMarkup(rule.delim[0]) && (rule.tag == "strong" || rule.tag == "em");
      MatchedPairTagsOnly(s, rule.delim, rule.tag);
    } else {
      MatchedCodeTagsOnly(s);
    }
  }

  lemma MatchedPairTagsOnly(s: string, d: string, tag: string)
    requires |d| > 0 && IsMarkup(d[0]) && (tag == "strong" || tag == "em")
    requires TagsOnly(s) && MatchHere(s, Pair(d, tag)).Some?
    ensures TagsOnly(MatchHere(s, Pair(d, tag)).value.1)
  {
    var r := MatchHere(s, Pair(d, tag));
    MatchPair(s, d, tag);
    var k := r.value.0 - |d|;
    var c := s[|d|..k];
    assert r.value.1 == Tagged(tag, c);
    CutAtDelimiter(s, |d|, k, d);
    TaggedTagsOnly(tag, c);
  }

  lemma MatchedCodeTagsOnly(s: string)
    requires TagsOnly(s) && MatchHere(s, CodeSpan).Some?
    ensures TagsOnly(MatchHere(s, CodeSpan).value.1)
  {
    MatchCode(s);
    var k := MatchHere(s, CodeSpan).value.0 - 1;
    CutAtDelimiter(s, 1, k, "`");
    TaggedTagsOnly("code", s[1..k]);
  }

  /** The text between an opening and a closing delimiter has tags only. */
  lemma CutAtDelimiter(s: string, from: nat, k: nat, d: string)
    requires TagsOnly(s) && from <= k && OccursAt(s, d, k) && |d| > 0 && IsMarkup(d[0])
    ensures TagsOnly(s[from..k])
  {
    TagsOnlyDrop(s, from);
    var u := s[from..];
    assert u[k - from] == s[k] == s[k..k + |d|][0];
    TagsOnlyCut(u, k - from);
    assert u[..k - from] == s[from..k];
  }

  /** Every `<` the simple renderer writes begins a tag of the shared passes: the text's own are escaped. */
  lemma SimpleTagsOnly(s: string)
    ensures TagsOnly(SimpleInline(s))
  {
    var e := EscapeHtml(s);
    var t1 := Apply(e, StrongStars);
    var t2 := Apply(t1, StrongUnderscores);
    var t3 := Apply(t2, EmStar);
    var t4 := Apply(t3, EmUnderscore);
    ApplyKeepsTags(e, StrongStars);
    ApplyKeepsTags(t1, StrongUnderscores);
    ApplyKeepsTags(t2, EmStar);
    ApplyKeepsTags(t3, EmUnderscore);
    ApplyKeepsTags(t4, CodeSpan);
  }
}
