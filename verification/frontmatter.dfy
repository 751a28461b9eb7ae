/**
 * Front matter: the block `/^---\n([\s\S]*?)\n---\n?/` finds at the very start of a
 * review (`splitFrontMatter` in src/review-detail.js and src/review-page.js), and the
 * `key: value` lines inside it (`parseFrontMatter` in src/utils.js and
 * src/review-page.js).
 */
module FrontMatter {
  import opened Text
  import opened Assoc

  const Open := "---\n"
  const Close := "\n---"

  /** Where the front-matter pattern matches: the captured block and the length of the whole match. */
  datatype Block = Block(content: string, length: nat)

  /** A split review: the captured block (empty when there is none) and the text after the match. */
  datatype Split = Split(frontmatter: string, body: string)

  /** The first index at or after `k` where `\n---` occurs. */
  function FindClose(text: string, k: nat): (r: Option<nat>)
    ensures r.Some? ==> k <= r.value && OccursAt(text, Close, r.value)
    ensures r.Some? ==> forall i: nat :: k <= i < r.value ==> !OccursAt(text, Close, i)
    ensures r.None? ==> forall i: nat :: k <= i ==> !OccursAt(text, Close, i)
    decreases |text| - k
  {
    if k + |Close| > |text| then None
    else if OccursAt(text, Close, k) then Some(k)
    else FindClose(text, k + 1)
  }

  /**
   * The lazy match: `---\n` at the start, then the shortest block followed by `\n---`,
   * then one optional newline. The closing `---` need not end its line.
   */
  function MatchBlock(text: string): (r: Option<Block>)
    ensures r.Some? <==> StartsWith(text, Open) && exists j: nat :: 4 <= j && OccursAt(text, Close, j)
    ensures r.Some? ==>
      var j := 4 + |r.value.content|;
      && j + 4 <= r.value.length <= |text|
      && (r.value.length == j + 4 || (r.value.length == j + 5 && text[j + 4] == '\n'))
      && text[..r.value.length] == Open + r.value.content + Close + text[j + 4..r.value.length]
      && (r.value.length == j + 4 ==> r.value.length == |text| || text[j + 4] != '\n')
      && forall i: nat :: 4 <= i < j ==> !OccursAt(text, Close, i)
  {
    if !StartsWith(text, Open) then None
    else
      match FindClose(text, 4)
      case None => None
      case Some(j) =>
        var n := if j + 4 < |text| && text[j + 4] == '\n' then j + 5 else j + 4;
        assert text[..n] == text[..4] + text[4..j] + text[j..j + 4] + text[j + 4..n];
        Some(Block(text[4..j], n))
  }

  /** `splitFrontMatter`: no match leaves the whole text as body; otherwise the match is cut off. */
  function SplitFrontMatter(text: string): (r: Split)
    ensures MatchBlock(text).None? ==> r == Split("", text)
    ensures MatchBlock(text).Some? ==>
      exists sep :: (sep == "" || sep == "\n") && text == Open + r.frontmatter + Close + sep + r.body
  {
    match MatchBlock(text)
    case None => Split("", text)
    case Some(b) =>
      var j := 4 + |b.content|;
      var sep := text[j + 4..b.length];
      assert text == text[..b.length] + text[b.length..];
      assert sep == "" || sep == "\n";
      Split(b.content, text[b.length..])
  }

  predicate IsQuote(c: char) {
    c == '\'' || c == '"'
  }

  /**
   * `value.replace(/^['"]|['"]$/g, '')`: at most one quote is removed at the start and
   * at most one at the end, each independently of the other.
   */
  function StripQuotes(v: string): (r: string)
    ensures var a := if |v| > 0 && IsQuote(v[0]) then 1 else 0;
      && a + |r| <= |v| && r == v[a..a + |r|]
      && (|v| - a - |r| == 1 <==> (|v| > a && IsQuote(v[|v| - 1])))
      && |v| - a - |r| <= 1
  {
    var a := if |v| > 0 && IsQuote(v[0]) then v[1..] else v;
    if |a| > 0 && IsQuote(a[|a| - 1]) then a[..|a| - 1] else a
  }

  /** One front-matter line: split at the first `:`; no colon or an empty trimmed key gives nothing. */
  function ParseEntry(line: string): (r: Option<(string, string)>)
    ensures r.Some? <==> ':' in line && Trim(line[..IndexOf(line, ':').value]) != ""
  {
    match IndexOf(line, ':')
    case None => None
    case Some(k) =>
      var key := Trim(line[..k]);
      if key == "" then None else Some((key, StripQuotes(Trim(line[k + 1..]))))
  }

  predicate Defines(line: string, key: string) {
    ParseEntry(line).Some? && ParseEntry(line).value.0 == key
  }

  /** Line `i` is the last one that sets `key`. */
  predicate LastDefinition(lines: seq<string>, i: int, key: string) {
    0 <= i < |lines| && Defines(lines[i], key) && forall j :: i < j < |lines| ==> !Defines(lines[j], key)
  }

  function Entries(lines: seq<string>): (r: seq<Option<(string, string)>>)
    ensures |r| == |lines|
    ensures forall i :: 0 <= i < |lines| ==> r[i] == ParseEntry(lines[i])
  {
    seq(|lines|, i requires 0 <= i < |lines| => ParseEntry(lines[i]))
  }

  /**
   * The `reduce` over the lines: each entry is written into the `{}` accumulator in
   * line order, where a `__proto__` key creates no entry.
   */
  function ParseLines(lines: seq<string>): map<string, string> {
    ObjectFold(Entries(lines))
  }

  /** A key is in the parsed map exactly when some line sets it and it is not `__proto__`. */
  lemma ParseLinesKeys(lines: seq<string>, key: string)
    ensures key in ParseLines(lines) <==> key != ProtoKey && exists i :: 0 <= i < |lines| && Defines(lines[i], key)
  {
    ObjectFoldKeys(Entries(lines), key);
  }

  /** A later line overwrites an earlier one: the value comes from the last line setting the key. */
  lemma ParseLinesLastWins(lines: seq<string>, i: int, key: string)
    requires key != ProtoKey && LastDefinition(lines, i, key)
    ensures key in ParseLines(lines) && ParseLines(lines)[key] == ParseEntry(lines[i]).value.1
  {
    ObjectFoldLastWins(Entries(lines), i, key);
  }

  /** The shared body of both `parseFrontMatter` functions. */
  function ParseBlock(block: string): map<string, string> {
    ParseLines(Text.Split(block, '\n'))
  }

  /** `parseFrontMatter(text)` of src/utils.js: matches the block itself, empty map without one. */
  function ParseFrontMatter(text: string): (r: map<string, string>)
    ensures MatchBlock(text).None? ==> r == map[]
    ensures MatchBlock(text).Some? ==> r == ParseBlock(SplitFrontMatter(text).frontmatter)
  {
    match MatchBlock(text)
    case None => map[]
    case Some(b) => ParseBlock(b.content)
  }

  /** `parseFrontMatter(block)` of src/review-page.js: the empty-block guard changes nothing. */
  function ParseFrontMatterBlock(block: string): (r: map<string, string>)
    ensures r == ParseBlock(block)
  {
    if block == "" then
      assert Text.Split(block, '\n') == [""] by {
        assert Join([""], "\n") == "";
        SplitJoin([""], '\n');
      }
      map[]
    else ParseBlock(block)
  }

  /** Both pages read the same metadata: parsing the whole text equals parsing the split-off block. */
  lemma MetadataAgrees(text: string)
    ensures ParseFrontMatter(text) == ParseFrontMatterBlock(SplitFrontMatter(text).frontmatter)
  {
  }

  /** A value may hold colons: only the first one separates key from value. */
  lemma ValueKeepsLaterColons(key: string, value: string)
    requires ':' !in key && Trim(key) != ""
    requires Bare(value) && |value| > 0 && !IsQuote(value[0]) && !IsQuote(value[|value| - 1])
    ensures ParseEntry(key + ":" + value) == Some((Trim(key), value))
  {
    var line := key + ":" + value;
    IndexOfFirstColon(key, value);
    AroundColon(key, value);
    EntryAt(line, |key|);
    KeptValue(value);
  }

  lemma KeptValue(value: string)
    requires Bare(value) && |value| > 0 && !IsQuote(value[0]) && !IsQuote(value[|value| - 1])
    ensures StripQuotes(Trim(value)) == value
  {
    TrimIdentity(value);
    StripUnquoted(value);
  }

  lemma AroundColon(key: string, value: string)
    ensures var line := key + ":" + value;
      line[..|key|] == key && line[|key| + 1..] == value
  {
  }

  /** A value with no quote at either end keeps all its characters. */
  lemma StripUnquoted(v: string)
    requires |v| > 0 && !IsQuote(v[0]) && !IsQuote(v[|v| - 1])
    ensures StripQuotes(v) == v
  {
  }

  lemma EntryAt(line: string, k: nat)
    requires IndexOf(line, ':') == Some(k)
    requires Trim(line[..k]) != ""
    ensures ParseEntry(line) == Some((Trim(line[..k]), StripQuotes(Trim(line[k + 1..]))))
  {
    var key := Trim(line[..k]);
    var value := StripQuotes(Trim(line[k + 1..]));
    assert ParseEntry(line) == if key == "" then None else Some((key, value));
  }

  lemma IndexOfFirstColon(key: string, value: string)
    requires ':' !in key
    ensures IndexOf(key + ":" + value, ':') == Some(|key|)
  {
    var line := key + ":" + value;
    assert line[..|key|] == key;
    IndexOfFirst(line, ':', |key|);
  }
}
