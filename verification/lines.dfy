/**
 * How both review renderers read one line of markdown: the regular expressions of
 * src/review-detail.js and src/review-page.js, each written as the string
 * conditions under which it matches and the groups it captures.
 */
module Lines {
  import opened Text

  /** `rawLine.replace(/\r$/, '')`: one carriage return at the very end is dropped. */
  function StripCR(raw: string): (r: string)
    ensures raw == r || raw == r + "\r"
    ensures |raw| > 0 && raw[|raw| - 1] == '\r' ==> raw == r + "\r"
  {
    if |raw| > 0 && raw[|raw| - 1] == '\r' then raw[..|raw| - 1] else raw
  }

  /** `/^```/`. */
  predicate IsFence(line: string) {
    StartsWith(line, "```")
  }

  /** `!line.trim()`. */
  predicate IsBlank(line: string) {
    AllSpace(line)
  }

  /**
   * `\s+(.*)$` at the start of `t`. The greedy `\s+` takes the whole leading
   * whitespace; `(.*)$` then needs a rest free of line terminators, and a shorter
   * `\s+` would only leave more of the same terminator in the rest.
   */
  function AfterMarker(t: string): (r: Option<string>)
    ensures r.Some? <==> |t| > 0 && IsSpace(t[0]) && SingleLine(TrimStart(t))
    ensures r.Some? ==> r.value == TrimStart(t) && |r.value| < |t|
  {
    if |t| > 0 && IsSpace(t[0]) && SingleLine(TrimStart(t)) then
      assert TrimStart(t) == t[|t| - |TrimStart(t)|..];
      Some(TrimStart(t))
    else None
  }

  /** The number of `#` characters the line starts with. */
  function HashRun(line: string): (n: nat)
    ensures n <= |line| && forall i :: 0 <= i < n ==> line[i] == '#'
    ensures n == |line| || line[n] != '#'
  {
    if line == [] || line[0] != '#' then 0 else 1 + HashRun(line[1..])
  }

  /** `/^(#{1,6})\s+(.*)$/`: the level and the heading text. */
  function Heading(line: string): (r: Option<(nat, string)>)
    ensures r.Some? ==> 1 <= r.value.0 <= 6 && r.value.0 == HashRun(line)
    ensures r.Some? <==> 1 <= HashRun(line) <= 6 && AfterMarker(line[HashRun(line)..]).Some?
  {
    var n := HashRun(line);
    if 1 <= n <= 6 then
      match AfterMarker(line[n..])
      case Some(text) => Some((n, text))
      case None => None
    else None
  }

  /** Seven or more `#` never make a heading. */
  lemma SevenHashesNotHeading(n: nat, rest: string)
    requires n >= 7
    ensures Heading(Repeat('#', n) + rest) == None
  {
    var line := Repeat('#', n) + rest;
    HashRunAtLeast(line, n);
  }

  lemma {:induction false} HashRunAtLeast(line: string, n: nat)
    requires n <= |line| && forall i :: 0 <= i < n ==> line[i] == '#'
    ensures HashRun(line) >= n
    decreases n
  {
    if n > 0 {
      HashRunAtLeast(line[1..], n - 1);
    }
  }

  /** `#` repeated one to six times, a space and single-line text make that heading. */
  lemma HeadingOf(n: nat, text: string)
    requires 1 <= n <= 6 && SingleLine(text) && (text == [] || !IsSpace(text[0]))
    ensures Heading(Repeat('#', n) + " " + text) == Some((n, text))
  {
    HeadingRun(n, text);
    HeadingTail(n, text);
    HeadingParts(Repeat('#', n) + " " + text, n, text);
  }

  lemma HeadingRun(n: nat, text: string)
    ensures HashRun(Repeat('#', n) + " " + text) == n
  {
    assert Repeat('#', n) + " " + text == Repeat('#', n) + (" " + text);
    HashRunOf(n, " " + text);
  }

  lemma HeadingTail(n: nat, text: string)
    requires SingleLine(text) && (text == [] || !IsSpace(text[0]))
    ensures AfterMarker((Repeat('#', n) + " " + text)[n..]) == Some(text)
  {
    assert (Repeat('#', n) + " " + text)[n..] == " " + text;
    AfterSpace(text);
  }

  /** A run of one to six hashes followed by a captured marker tail is a heading. */
  lemma HeadingParts(line: string, n: nat, text: string)
    requires 1 <= n <= 6 && HashRun(line) == n && AfterMarker(line[n..]) == Some(text)
    ensures Heading(line) == Some((n, text))
  {
  }

  /** The hash run of `n` hashes before a character other than `#` is `n`. */
  lemma HashRunOf(n: nat, rest: string)
    requires rest == [] || rest[0] != '#'
    ensures HashRun(Repeat('#', n) + rest) == n
  {
    var line := Repeat('#', n) + rest;
    HashRunAtLeast(line, n);
    if n < |line| {
      assert line[n] == rest[0];
    }
  }

  /** A space and single-line text that does not start with whitespace: the text is captured. */
  lemma AfterSpace(text: string)
    requires SingleLine(text) && (text == [] || !IsSpace(text[0]))
    ensures AfterMarker(" " + text) == Some(text)
  {
    TrimStartOfSpaced(text);
  }

  /** One leading space is trimmed away from text that starts with no whitespace. */
  lemma TrimStartOfSpaced(text: string)
    requires text == [] || !IsSpace(text[0])
    ensures TrimStart(" " + text) == text
  {
    var t := " " + text;
    assert t[0] == ' ' && t[1..] == text;
    assert TrimStart(text) == text;
  }

  datatype ListKind = Ul | Ol

  /** What `/^(\s*)([-*+]|(?:\d+\.))\s+(.*)$/` captures: the indentation, the list kind and the text. */
  datatype ItemMatch = ItemMatch(indent: string, kind: ListKind, text: string)

  predicate IsBullet(c: char) {
    c == '-' || c == '*' || c == '+'
  }

  /**
   * The list-item pattern of src/review-detail.js. A marker character is never
   * whitespace, so `(\s*)` is the whole leading whitespace; and `.` is never a digit,
   * so `\d+` is the whole digit run.
   */
  function RichListItem(line: string): (r: Option<ItemMatch>)
    ensures r.Some? ==> |r.value.indent| < |line| && line[..|r.value.indent|] == r.value.indent
    ensures r.Some? ==> AllSpace(r.value.indent) && !IsSpace(line[|r.value.indent|]) && SingleLine(r.value.text)
    ensures r.Some? && r.value.kind == Ul ==> IsBullet(line[|r.value.indent|])
    ensures r.Some? && r.value.kind == Ol ==> IsDigit(line[|r.value.indent|])
  {
    var rest := TrimStart(line);
    var indent := line[..|line| - |rest|];
    if rest == [] then None
    else if IsBullet(rest[0]) then
      match AfterMarker(rest[1..])
      case Some(text) => Some(ItemMatch(indent, Ul, text))
      case None => None
    else
      var digits := DigitPrefix(rest);
      if |digits| > 0 && |digits| < |rest| && rest[|digits|] == '.' then
        match AfterMarker(rest[|digits| + 1..])
        case Some(text) => Some(ItemMatch(indent, Ol, text))
        case None => None
      else None
  }

  /** `listMatch[1].replace(/\t/g, '    ').length`. */
  function IndentWidth(indent: string): (w: nat)
    ensures w >= |indent|
  {
    if indent == [] then 0 else (if indent[0] == '\t' then 4 else 1) + IndentWidth(indent[1..])
  }

  /** Four columns per level from four columns on, two per level below that. */
  function IndentLevel(width: nat): (level: nat)
    ensures width < 2 ==> level == 0
    ensures 2 <= width < 4 ==> level == 1
    ensures width >= 4 ==> 4 * level <= width < 4 * level + 4
  {
    if width >= 4 then width / 4 else width / 2
  }

  /** `/^[-*+]\s+(.*)$/` of src/review-page.js: column-0 bullets only. */
  function SimpleListItem(line: string): (r: Option<string>)
    ensures r.Some? ==> |line| > 0 && IsBullet(line[0])
  {
    if |line| > 0 && IsBullet(line[0]) then AfterMarker(line[1..]) else None
  }

  /** A column-0 bullet reads the same under both list patterns. */
  lemma SimpleItemIsRichItem(line: string)
    requires SimpleListItem(line).Some?
    ensures RichListItem(line) == Some(ItemMatch("", Ul, SimpleListItem(line).value))
  {
    assert TrimStart(line) == line;
  }

  /** Indented and numbered items are lists only to the rich renderer. */
  lemma SimpleIgnoresIndentAndNumbers(line: string)
    requires RichListItem(line).Some?
    requires RichListItem(line).value.indent != "" || RichListItem(line).value.kind == Ol
    ensures SimpleListItem(line).None?
  {
    var m := RichListItem(line).value;
    ItemStart(line, m);
    NotBulletStart(line);
  }

  /** An indented or numbered item does not start with a bullet. */
  lemma ItemStart(line: string, m: ItemMatch)
    requires |m.indent| < |line| && line[..|m.indent|] == m.indent && AllSpace(m.indent)
    requires m.kind == Ol ==> IsDigit(line[|m.indent|])
    requires m.indent != "" || m.kind == Ol
    ensures !IsBullet(line[0])
  {
    if m.indent != "" {
      assert line[0] == m.indent[0];
    }
  }

  lemma NotBulletStart(line: string)
    requires |line| > 0 && !IsBullet(line[0])
    ensures SimpleListItem(line).None?
  {
  }

  /** `line.replace(/^>\s?/, '')` for a line that starts with `>`. */
  function QuoteText(line: string): (r: string)
    requires StartsWith(line, ">")
    ensures |line| > 1 && IsSpace(line[1]) ==> r == line[2..]
    ensures !(|line| > 1 && IsSpace(line[1])) ==> r == line[1..]
  {
    var t := line[1..];
    if |t| > 0 && IsSpace(t[0]) then t[1..] else t
  }

  /** At `k` a label can close: `]:`, then `\s+` and a single-line rest. */
  predicate ClosesDefinition(line: string, k: nat) {
    OccursAt(line, "]:", k) && AfterMarker(line[k + 2..]).Some?
  }

  /**
   * The lazy label of `/^\[\^(.+?)\]:\s+(.*)$/`: the first `]:` at or after `j`
   * whose tail is `\s+` then a single-line rest, with no line terminator in the label.
   */
  function DefinitionCloseFrom(line: string, j: nat): (r: Option<nat>)
    requires 3 <= j <= |line| && SingleLine(line[2..j])
    ensures r.Some? ==> j <= r.value && ClosesDefinition(line, r.value)
    ensures r.Some? ==> SingleLine(line[2..r.value])
    ensures r.Some? ==> forall k: nat :: j <= k < r.value ==> !ClosesDefinition(line, k)
    ensures r.None? ==> forall k: nat :: j <= k <= |line| && SingleLine(line[2..k]) ==> !ClosesDefinition(line, k)
    decreases |line| - j
  {
    if ClosesDefinition(line, j) then Some(j)
    else if j == |line| || IsLineTerminator(line[j]) then
      TerminatorEndsLabel(line, j);
      None
    else
      LabelGrows(line, j);
      DefinitionCloseFrom(line, j + 1)
  }

  /** No label runs past a line terminator. */
  lemma TerminatorEndsLabel(line: string, j: nat)
    requires 2 <= j <= |line| && (j == |line| || IsLineTerminator(line[j]))
    ensures forall k :: j < k <= |line| ==> !SingleLine(line[2..k])
  {
    forall k | j < k <= |line| ensures !SingleLine(line[2..k]) {
      assert line[2..k][j - 2] == line[j];
    }
  }

  /** A label grows by one character that is not a line terminator. */
  lemma LabelGrows(line: string, j: nat)
    requires 2 <= j < |line| && SingleLine(line[2..j]) && !IsLineTerminator(line[j])
    ensures SingleLine(line[2..j + 1])
  {
    assert line[2..j + 1] == line[2..j] + [line[j]];
  }

  /** A footnote definition line: its label and its text. */
  function FootnoteDefinition(line: string): (r: Option<(string, string)>)
    ensures r.Some? ==> |r.value.0| > 0 && SingleLine(r.value.0) && |r.value.0| + 4 <= |line|
    ensures r.Some? ==> line[..|r.value.0| + 4] == "[^" + r.value.0 + "]:"
    ensures r.Some? ==> AfterMarker(line[|r.value.0| + 4..]) == Some(r.value.1)
    ensures r.Some? ==> ClosesDefinition(line, |r.value.0| + 2)
    ensures r.Some? ==> forall k: nat :: 3 <= k < |r.value.0| + 2 ==> !ClosesDefinition(line, k)
    ensures r.None? ==> forall k: nat :: 3 <= k <= |line| && StartsWith(line, "[^") && SingleLine(line[2..k]) ==> !ClosesDefinition(line, k)
  {
    if !StartsWith(line, "[^") || |line| < 3 || IsLineTerminator(line[2]) then
      assert forall k :: 3 <= k <= |line| && StartsWith(line, "[^") ==> line[2..k][0] == line[2];
      None
    else
      assert line[2..3] == [line[2]];
      match DefinitionCloseFrom(line, 3)
      case None => None
      case Some(k) => Some(DefinitionAt(line, k))
  }

  /** The label and text of a definition whose label closes at `k`. */
  function DefinitionAt(line: string, k: nat): (r: (string, string))
    requires 3 <= k && ClosesDefinition(line, k)
    ensures |r.0| + 2 == k && r.0 == line[2..k]
    ensures line[..k + 2] == line[..2] + r.0 + "]:"
    ensures AfterMarker(line[k + 2..]) == Some(r.1)
  {
    assert line[..k + 2] == line[..2] + line[2..k] + line[k..k + 2];
    (line[2..k], AfterMarker(line[k + 2..]).value)
  }

  /** A label without `]`, a space and text that does not start with whitespace read back as written. */
  lemma DefinitionOf(name: string, text: string)
    requires |name| > 0 && SingleLine(name) && ']' !in name
    requires SingleLine(text) && (text == [] || !IsSpace(text[0]))
    ensures FootnoteDefinition("[^" + name + "]: " + text) == Some((name, text))
  {
    var line := "[^" + name + "]: " + text;
    var k := 2 + |name|;
    DefinitionParts(name, text);
    DefinitionTail(name, text);
    NoEarlierBracket(line, name);
    DefinitionFound(line, k);
  }

  /** The pieces of a written definition line: its opening, its label and its first label character. */
  lemma DefinitionParts(name: string, text: string)
    requires |name| > 0
    ensures var line := "[^" + name + "]: " + text;
      && StartsWith(line, "[^" + name) && StartsWith(line, "[^")
      && line[2..2 + |name|] == name && line[2] == name[0]
      && OccursAt(line, "]:", 2 + |name|)
  {
    var line := "[^" + name + "]: " + text;
    assert line[..2 + |name|] == "[^" + name;
    assert line[..2] == "[^";
    assert line[2 + |name|..2 + |name| + 2] == "]:";
  }

  /** After the label's `]:` come the space and the text. */
  lemma DefinitionTail(name: string, text: string)
    requires SingleLine(text) && (text == [] || !IsSpace(text[0]))
    ensures var line := "[^" + name + "]: " + text;
      AfterMarker(line[2 + |name| + 2..]) == Some(text)
  {
    var line := "[^" + name + "]: " + text;
    assert line[2 + |name| + 2..] == " " + text;
    AfterSpace(text);
  }

  /** A line whose first possible close is at `k` is a definition with the label before `k`. */
  lemma DefinitionFound(line: string, k: nat)
    requires 3 <= k && StartsWith(line, "[^") && ClosesDefinition(line, k) && SingleLine(line[2..k])
    requires forall i: nat :: 3 <= i < k ==> !OccursAt(line, "]:", i)
    ensures FootnoteDefinition(line) == Some(DefinitionAt(line, k))
  {
    assert line[2..3] == [line[2]] && line[2] == line[2..k][0];
    FirstClose(line, 3, k);
  }

  /** The search finds the first place a label can close. */
  lemma {:induction false} FirstClose(line: string, j: nat, k: nat)
    requires 3 <= j <= k <= |line| && SingleLine(line[2..k]) && SingleLine(line[2..j])
    requires ClosesDefinition(line, k)
    requires forall i: nat :: j <= i < k ==> !OccursAt(line, "]:", i)
    ensures DefinitionCloseFrom(line, j) == Some(k)
    decreases k - j
  {
    if j < k {
      assert !IsLineTerminator(line[j]) by {
        assert line[2..k][j - 2] == line[j];
      }
      assert line[2..j + 1] == line[2..j] + [line[j]];
      FirstClose(line, j + 1, k);
    }
  }

  /** No `]:` starts inside a label free of `]`. */
  lemma NoEarlierBracket(line: string, name: string)
    requires StartsWith(line, "[^" + name) && ']' !in name
    ensures forall j: nat :: j < 2 + |name| ==> !OccursAt(line, "]:", j)
  {
    forall j: nat | j < 2 + |name| ensures !OccursAt(line, "]:", j) {
      assert line[..2 + |name|][j] == line[j];
      if j + 2 <= |line| {
        assert line[j..j + 2][0] == line[j];
        if j >= 2 {
          assert line[j] == name[j - 2];
        }
      }
    }
  }

  /** A definition line that kept its `\r` is not a definition unless its text is blank. */
  lemma CarriageReturnDefinition(name: string, text: string)
    requires |name| > 0 && SingleLine(name) && ']' !in name
    requires ']' !in text && !AllSpace(text)
    ensures FootnoteDefinition("[^" + name + "]: " + text + "\r").None?
  {
    CarriageReturnTail(text);
    OnlyOneBracket(name, text);
    CarriageReturnParts(name, text);
  }

  /** The definition pattern with the evident intent: matched on the line without its `\r`. */
  function FootnoteDefinitionIntended(line: string): (r: Option<(string, string)>)
    ensures line == StripCR(line) ==> r == FootnoteDefinition(line)
  {
    FootnoteDefinition(StripCR(line))
  }

  /** Corrected, a definition reads the same whether its file ends lines with `\n` or `\r\n`. */
  lemma CarriageReturnDefinitionIntended(name: string, text: string)
    requires |name| > 0 && SingleLine(name) && ']' !in name
    requires SingleLine(text) && (text == [] || !IsSpace(text[0]))
    ensures FootnoteDefinitionIntended("[^" + name + "]: " + text + "\r") == Some((name, text))
    ensures FootnoteDefinitionIntended("[^" + name + "]: " + text) == Some((name, text))
  {
    var line := "[^" + name + "]: " + text;
    assert (line + "\r")[..|line + "\r"| - 1] == line;
    DefinitionOf(name, text);
  }

  lemma CarriageReturnParts(name: string, text: string)
    ensures ("[^" + name + "]: " + text + "\r")[2 + |name| + 2..] == " " + text + "\r"
  {
  }

  /** After `]:` comes a space, the text and the `\r`, and `(.*)$` cannot take the `\r`. */
  lemma CarriageReturnTail(text: string)
    requires !AllSpace(text)
    ensures AfterMarker(" " + text + "\r").None?
  {
    var tail := " " + text + "\r";
    var t := TrimStart(tail);
    if t == [] {
      assert AllSpace(tail);
      assert forall i :: 0 <= i < |text| ==> text[i] == tail[i + 1];
    } else {
      assert t[|t| - 1] == '\r';
    }
  }

  /** The only `]:` in such a line is the one after the label. */
  lemma OnlyOneBracket(name: string, text: string)
    requires ']' !in name && ']' !in text
    ensures forall j: nat :: OccursAt("[^" + name + "]: " + text + "\r", "]:", j) ==> j == 2 + |name|
  {
    var line := "[^" + name + "]: " + text + "\r";
    var k := 2 + |name|;
    forall j: nat | j < |line| && j != k ensures line[j] != ']' {
      if 2 <= j < k {
        assert line[j] == name[j - 2];
      } else if k + 3 <= j < |line| - 1 {
        assert line[j] == text[j - k - 3];
      }
    }
    forall j: nat | OccursAt(line, "]:", j) ensures j == k {
      assert line[j..j + 2][0] == line[j];
    }
  }
}
