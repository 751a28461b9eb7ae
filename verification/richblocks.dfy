/**
 * `markdownToHtml` of src/review-detail.js: a footnote pre-pass over the raw lines,
 * then a fold over the remaining lines with a state record holding the emitted
 * HTML, the fence flag, the buffered code lines and the stack of open lists, and at
 * the end a footnotes section.
 */
module RichBlocks {
  import opened Text
  import opened Html
  import opened Assoc
  import opened Sorting
  import opened Inline
  import opened Lines

  /** A list item: its rendered text and the nested lists closed into it. */
  datatype Item = Item(content: string, children: seq<string>)

  /** One entry of the list stack. */
  datatype OpenList = OpenList(kind: ListKind, items: seq<Item>)

  /** The renderer's variables: `html`, `inCode`, `codeLines` and `listStack`. */
  datatype State = State(out: seq<string>, inCode: bool, code: seq<string>, stack: seq<OpenList>)

  const Initial := State([], false, [], [])

  /** Outside a fence no code is buffered. */
  predicate WellFormed(st: State) {
    !st.inCode ==> st.code == []
  }

  function TagName(kind: ListKind): string {
    if kind == Ul then "ul" else "ol"
  }

  function RenderItem(item: Item): string {
    "<li>" + item.content + Join(item.children, "") + "</li>"
  }

  function RenderItems(items: seq<Item>): string
    decreases |items|
  {
    if items == [] then "" else RenderItem(items[0]) + RenderItems(items[1..])
  }

  function RenderList(l: OpenList): string {
    "<" + TagName(l.kind) + ">" + RenderItems(l.items) + "</" + TagName(l.kind) + ">"
  }

  /** `a` is `b` cut to `|a|` lists, each list of the same kind and with as many items. */
  predicate SameShape(a: seq<OpenList>, b: seq<OpenList>) {
    |a| <= |b| && forall i :: 0 <= i < |a| ==> a[i].kind == b[i].kind && |a[i].items| == |b[i].items|
  }

  /** Every list below the top has an item for the next list to nest in, and the top has one too. */
  predicate Nested(stack: seq<OpenList>) {
    forall i :: 0 <= i < |stack| ==> |stack[i].items| > 0
  }

  /** The last item's closed children, or nothing for an empty stack or a list without items. */
  function LastChildren(stack: seq<OpenList>): seq<string> {
    if stack == [] || stack[|stack| - 1].items == [] then []
    else
      var items := stack[|stack| - 1].items;
      items[|items| - 1].children
  }

  function AddChild(l: OpenList, html: string): (r: OpenList)
    requires |l.items| > 0
    ensures r.kind == l.kind && |r.items| == |l.items|
    ensures r.items[..|l.items| - 1] == l.items[..|l.items| - 1]
    ensures r.items[|l.items| - 1].children == l.items[|l.items| - 1].children + [html]
  {
    var last := l.items[|l.items| - 1];
    l.(items := l.items[..|l.items| - 1] + [last.(children := last.children + [html])])
  }

  /**
   * `popList`: the innermost list is closed. It becomes a child of the last item of
   * the list below it, or, when there is no such item, a top-level fragment.
   */
  function PopList(st: State): (r: State)
    ensures r.inCode == st.inCode && r.code == st.code
    ensures st.stack == [] ==> r == st
    ensures st.stack != [] ==> |r.stack| == |st.stack| - 1 && SameShape(r.stack, st.stack)
  {
    if st.stack == [] then st
    else
      var n := |st.stack|;
      var html := RenderList(st.stack[n - 1]);
      var rest := st.stack[..n - 1];
      if n >= 2 && |rest[n - 2].items| > 0 then
        st.(stack := rest[n - 2 := AddChild(rest[n - 2], html)])
      else
        st.(out := st.out + [html], stack := rest)
  }

  /**
   * Where the closed list goes: into the children of the last item below it when
   * there is one, otherwise to the output.
   */
  lemma PopListCloses(st: State)
    requires st.stack != []
    ensures var r := PopList(st);
      var html := RenderList(st.stack[|st.stack| - 1]);
      var attached := |st.stack| >= 2 && |st.stack[|st.stack| - 2].items| > 0;
      && (attached ==> r.out == st.out && LastChildren(r.stack) == LastChildren(st.stack[..|st.stack| - 1]) + [html])
      && (!attached ==> r.out == st.out + [html] && r.stack == st.stack[..|st.stack| - 1])
  {
    var n := |st.stack|;
    if n >= 2 && |st.stack[n - 2].items| > 0 {
      AttachChild(st.stack[..n - 1], RenderList(st.stack[n - 1]));
    }
  }

  /** Closing a list into the last item of the list below adds it to that item's children. */
  lemma AttachChild(rest: seq<OpenList>, html: string)
    requires |rest| >= 1 && |rest[|rest| - 1].items| > 0
    ensures var k := |rest| - 1;
      LastChildren(rest[k := AddChild(rest[k], html)]) == LastChildren(rest) + [html]
  {
  }

  /** `flushAllLists`: pops until the stack is empty; output is only appended to. */
  function FlushLists(st: State): (r: State)
    ensures r.stack == [] && r.inCode == st.inCode && r.code == st.code
    ensures st.out <= r.out
    ensures st.stack == [] ==> r == st
    decreases |st.stack|
  {
    if st.stack == [] then st else FlushLists(PopList(st))
  }

  /** The `while (listStack.length > n) popList()` loop. */
  function PopTo(st: State, n: nat): (r: State)
    ensures |r.stack| == if |st.stack| <= n then |st.stack| else n
    ensures SameShape(r.stack, st.stack)
    ensures r.inCode == st.inCode && r.code == st.code && st.out <= r.out
    ensures |st.stack| <= n ==> r == st
    decreases |st.stack|
  {
    if |st.stack| <= n then st else PopTo(PopList(st), n)
  }

  /** `n` new empty lists of one kind. */
  function Fresh(kind: ListKind, n: nat): (r: seq<OpenList>)
    ensures |r| == n && forall i :: 0 <= i < n ==> r[i] == OpenList(kind, [])
  {
    seq(n, _ => OpenList(kind, []))
  }

  /**
   * The nesting level of an item: from its indentation, clamped to the stack depth
   * when lists are open, so an item nests at most one level deeper than the last.
   */
  function ClampedLevel(stack: seq<OpenList>, indent: string): (level: nat)
    ensures stack != [] ==> level <= |stack|
    ensures stack == [] ==> level == IndentLevel(IndentWidth(indent))
  {
    var level := IndentLevel(IndentWidth(indent));
    if |stack| > 0 && level > |stack| then |stack| else level
  }

  /**
   * The two pop loops before a push: lists deeper than `level` are closed, and so is
   * the list at `level` when it is of the other kind.
   */
  function CloseDeeper(st: State, level: nat, kind: ListKind): (r: State)
    ensures SameShape(r.stack, st.stack)
    ensures r.inCode == st.inCode && r.code == st.code && st.out <= r.out
    ensures level >= |st.stack| ==> r == st
    ensures |r.stack| <= level + 1 && (|r.stack| == level + 1 ==> r.stack[level].kind == kind)
    ensures level < |st.stack| && st.stack[level].kind == kind ==> |r.stack| == level + 1
    ensures level < |st.stack| && st.stack[level].kind != kind ==> |r.stack| == level
  {
    var s1 := PopTo(st, level + 1);
    if |s1.stack| == level + 1 && s1.stack[level].kind != kind then PopList(s1) else s1
  }

  /** The `while (listStack.length < level + 1)` loop: missing levels are opened with the item's kind. */
  function OpenUpTo(stack: seq<OpenList>, level: nat, kind: ListKind): (r: seq<OpenList>)
    requires |stack| <= level + 1
    requires |stack| == level + 1 ==> stack[level].kind == kind
    ensures |r| == level + 1 && r[..|stack|] == stack && r[level].kind == kind
    ensures |stack| <= level ==> r[level].items == []
  {
    stack + Fresh(kind, level + 1 - |stack|)
  }

  /** `listStack[level].items.push(...)`. */
  function AddItem(stack: seq<OpenList>, level: nat, item: Item): (r: seq<OpenList>)
    requires level < |stack|
    ensures |r| == |stack| && r[..level] == stack[..level]
    ensures r[level].kind == stack[level].kind && r[level].items == stack[level].items + [item]
  {
    stack[level := stack[level].(items := stack[level].items + [item])]
  }

  /**
   * Placing an item at a level that is at most the depth of a non-empty stack: lists
   * deeper than the level are closed, a list of the other kind at the level is
   * closed, missing levels are opened with the item's kind, and the item is added to
   * the list at its level. The replacement of a list of the wrong kind that follows
   * the pushes in the source never takes effect: the list at that level is always of
   * the item's kind by then.
   */
  function Place(st: State, level: nat, kind: ListKind, item: Item): (r: State)
    requires st.stack != [] ==> level <= |st.stack|
    ensures |r.stack| == level + 1 && r.stack[level].kind == kind
    ensures |r.stack[level].items| > 0 && r.stack[level].items[|r.stack[level].items| - 1] == item
    ensures r.inCode == st.inCode && r.code == st.code && st.out <= r.out
  {
    var s2 := CloseDeeper(st, level, kind);
    s2.(stack := AddItem(OpenUpTo(s2.stack, level, kind), level, item))
  }

  /** A list item line: its text rendered inline and placed at its clamped level. */
  function PushItem(st: State, m: ItemMatch): (r: State)
    ensures |r.stack| == ClampedLevel(st.stack, m.indent) + 1
    ensures st.stack != [] ==> |r.stack| <= |st.stack| + 1
    ensures r.stack[|r.stack| - 1].kind == m.kind
    ensures var top := r.stack[|r.stack| - 1].items; |top| > 0 && top[|top| - 1] == Item(RichInline(m.text), [])
    ensures r.inCode == st.inCode && r.code == st.code && st.out <= r.out
  {
    Place(st, ClampedLevel(st.stack, m.indent), m.kind, Item(RichInline(m.text), []))
  }

  /** The fragment a closed fence becomes: the buffered lines, escaped. */
  function CodeBlock(code: seq<string>): string {
    "<pre><code>" + EscapeHtml(Join(code, "\n")) + "</code></pre>"
  }

  /** `flushCode`: inside a fence, emits the buffered lines and leaves the fence. */
  function FlushCode(st: State): (r: State)
    ensures !r.inCode && r.stack == st.stack
    ensures st.inCode ==> r.code == [] && r.out == st.out + [CodeBlock(st.code)]
    ensures !st.inCode ==> r == st
  {
    if st.inCode then st.(out := st.out + [CodeBlock(st.code)], inCode := false, code := []) else st
  }

  function HeadingHtml(n: nat, text: string): string {
    "<h" + NatToString(n) + ">" + RichInline(text) + "</h" + NatToString(n) + ">"
  }

  /** Appends one fragment after closing every open list. */
  function EmitFlushed(st: State, html: string): (r: State)
    ensures r.stack == [] && r.inCode == st.inCode && r.code == st.code
    ensures r.out == FlushLists(st).out + [html]
  {
    var f := FlushLists(st);
    f.(out := f.out + [html])
  }

  /** A line outside a fence that is not a fence: heading, list item, blank, quote or paragraph. */
  function TextStep(st: State, line: string): (r: State)
    ensures !r.inCode == !st.inCode && r.code == st.code && st.out <= r.out
    ensures RichListItem(line).None? ==> r.stack == []
    ensures IsBlank(line) ==> r == FlushLists(st)
  {
    match Heading(line)
    case Some((n, text)) => EmitFlushed(st, HeadingHtml(n, text))
    case None =>
      match RichListItem(line)
      case Some(m) => PushItem(st, m)
      case None =>
        if IsBlank(line) then FlushLists(st)
        else if StartsWith(line, ">") then EmitFlushed(st, QuoteHtml(line))
        else EmitFlushed(st, ParagraphHtml(line))
  }

  function QuoteHtml(line: string): string
    requires StartsWith(line, ">")
  {
    "<blockquote>" + RichInline(QuoteText(line)) + "</blockquote>"
  }

  function ParagraphHtml(line: string): string {
    "<p>" + RichInline(line) + "</p>"
  }

  /** The handler of one line, in the order the source tests it. */
  function Step(st: State, raw: string): (r: State)
    requires WellFormed(st)
    ensures WellFormed(r) && st.out <= r.out
    ensures IsFence(StripCR(raw)) ==> r.stack == st.stack && r.inCode == !st.inCode
    ensures st.inCode && !IsFence(StripCR(raw)) ==> r == st.(code := st.code + [StripCR(raw)])
    ensures !st.inCode && !IsFence(StripCR(raw)) ==> r == TextStep(st, StripCR(raw))
  {
    var line := StripCR(raw);
    if IsFence(line) then
      if st.inCode then FlushCode(st) else st.(inCode := true)
    else if st.inCode then
      st.(code := st.code + [line])
    else
      TextStep(st, line)
  }

  /** The `forEach` over the lines. */
  function Run(st: State, lines: seq<string>): (r: State)
    requires WellFormed(st)
    ensures WellFormed(r) && st.out <= r.out
    decreases |lines|
  {
    if lines == [] then st else Run(Step(st, lines[0]), lines[1..])
  }

  /** The end of input: lists first, then an unclosed fence. */
  function Finish(st: State): (r: State)
    requires WellFormed(st)
    ensures r.stack == [] && !r.inCode && r.code == []
    ensures st.out <= r.out
    ensures st.inCode ==> r.out == FlushLists(st).out + [CodeBlock(st.code)]
  {
    FlushCode(FlushLists(st))
  }

  /** The HTML fragments of the lines left after the footnote pass. */
  function Blocks(lines: seq<string>): seq<string> {
    Finish(Run(Initial, lines)).out
  }

  /** What the footnote pattern finds on each raw line. */
  function Definitions(lines: seq<string>): (r: seq<Option<(string, string)>>)
    ensures |r| == |lines|
    ensures forall i :: 0 <= i < |lines| ==> r[i] == FootnoteDefinition(lines[i])
  {
    seq(|lines|, i requires 0 <= i < |lines| => FootnoteDefinition(lines[i]))
  }

  /**
   * The `footnotes` object: a later definition of a label overwrites an earlier one,
   * and a definition of `__proto__` creates no entry.
   */
  function Notes(lines: seq<string>): map<string, string> {
    ObjectFold(Definitions(lines))
  }

  /** `cleanLines`: every line that is not a footnote definition, in order, fence or not. */
  function CleanLines(lines: seq<string>): (r: seq<string>)
    ensures forall l :: l in r ==> FootnoteDefinition(l).None?
    ensures forall i :: 0 <= i < |lines| && FootnoteDefinition(lines[i]).None? ==> lines[i] in r
    ensures |r| <= |lines|
    decreases |lines|
  {
    if lines == [] then []
    else
      var head := if FootnoteDefinition(lines[0]).None? then [lines[0]] else [];
      var rest := CleanLines(lines[1..]);
      CleanStep(lines, head, rest);
      head + rest
  }

  lemma CleanStep(lines: seq<string>, head: seq<string>, rest: seq<string>)
    requires |lines| > 0 && head == if FootnoteDefinition(lines[0]).None? then [lines[0]] else []
    requires forall l :: l in rest ==> FootnoteDefinition(l).None?
    requires forall i :: 1 <= i < |lines| && FootnoteDefinition(lines[i]).None? ==> lines[i] in rest
    requires |rest| < |lines|
    ensures forall l :: l in head + rest ==> FootnoteDefinition(l).None?
    ensures forall i :: 0 <= i < |lines| && FootnoteDefinition(lines[i]).None? ==> lines[i] in head + rest
    ensures |head + rest| <= |lines|
  {
  }

  /** A canonical numeric string below 2^32 - 1: the keys an object lists first, in numeric order. */
  predicate IsArrayIndex(k: string) {
    |k| > 0 && AllDigits(k) && (|k| == 1 || k[0] != '0') && DigitsValue(k) < 0xFFFF_FFFF
  }

  function IndexValue(k: string): nat {
    if AllDigits(k) then DigitsValue(k) else 0
  }

  /** The keys that are (`want`) or are not array indices, in order. */
  function FilterIndex(keys: seq<string>, want: bool): (r: seq<string>)
    ensures forall k :: k in r <==> k in keys && IsArrayIndex(k) == want
    decreases |keys|
  {
    if keys == [] then []
    else (if IsArrayIndex(keys[0]) == want then [keys[0]] else []) + FilterIndex(keys[1..], want)
  }

  lemma {:induction false} FilterLengths(keys: seq<string>)
    ensures |FilterIndex(keys, true)| + |FilterIndex(keys, false)| == |keys|
    decreases |keys|
  {
    if keys != [] {
      FilterLengths(keys[1..]);
    }
  }

  /** `Object.keys` order: array-index keys ascending, then the other keys in insertion order. */
  function OwnKeys(inserted: seq<string>): (r: seq<string>)
    ensures forall k :: k in r <==> k in inserted
    ensures |r| == |inserted|
  {
    FilterLengths(inserted);
    var indices := FilterIndex(inserted, true);
    var sorted := Sort(indices, (a: string, b: string) => IndexValue(a) <= IndexValue(b));
    assert forall k :: k in sorted <==> k in multiset(indices);
    sorted + FilterIndex(inserted, false)
  }

  function FootnoteItem(key: string, def: string): string {
    "<li id=\"fn-" + key + "\">" + RichInline(def) + " <a href=\"#ref-" + key + "\">\U{21A9}</a></li>"
  }

  const FootnotesOpen := "<div class=\"footnotes\"><hr><ol>"
  const FootnotesClose := "</ol></div>"

  /** One footnote item per key, in key order. */
  function FootnoteItems(notes: map<string, string>, keys: seq<string>): (r: seq<string>)
    requires forall k :: k in keys ==> k in notes
    ensures |r| == |keys|
    ensures forall i :: 0 <= i < |keys| ==> r[i] == FootnoteItem(keys[i], notes[keys[i]])
    decreases |keys|
  {
    if keys == [] then []
    else
      var rest := FootnoteItems(notes, keys[1..]);
      ConsAt(FootnoteItem(keys[0], notes[keys[0]]), rest);
      [FootnoteItem(keys[0], notes[keys[0]])] + rest
  }

  lemma ConsAt(x: string, rest: seq<string>)
    ensures ([x] + rest)[0] == x
    ensures forall i :: 1 <= i <= |rest| ==> ([x] + rest)[i] == rest[i - 1]
  {
  }

  /** The footnotes section: nothing without keys, otherwise one item per key between the wrappers. */
  function FootnoteSection(notes: map<string, string>, keys: seq<string>): (r: seq<string>)
    requires forall k :: k in keys ==> k in notes
    ensures keys == [] ==> r == []
    ensures keys != [] ==> |r| == |keys| + 2 && r[0] == FootnotesOpen && r[|r| - 1] == FootnotesClose
    ensures keys != [] ==> forall i :: 0 <= i < |keys| ==> r[i + 1] == FootnoteItem(keys[i], notes[keys[i]])
  {
    if keys == [] then []
    else
      var items := FootnoteItems(notes, keys);
      WrappedAt(FootnotesOpen, items, FootnotesClose);
      [FootnotesOpen] + items + [FootnotesClose]
  }

  lemma WrappedAt(open: string, items: seq<string>, close: string)
    ensures var r := [open] + items + [close];
      |r| == |items| + 2 && r[0] == open && r[|r| - 1] == close
      && forall i :: 0 <= i < |items| ==> r[i + 1] == items[i]
  {
  }

  /**
   * `r` is the fragments `b` followed by what the footnotes section of `notes` must
   * be: nothing when there are no notes, otherwise the opening wrapper, one item per
   * label with its text, and the closing wrapper.
   */
  predicate BlocksThenNotes(r: seq<string>, b: seq<string>, notes: map<string, string>) {
    && |r| >= |b| && r[..|b|] == b
    && (|notes| == 0 ==> r == b)
    && (|notes| > 0 ==> |r| == |b| + |notes| + 2 && r[|b|] == FootnotesOpen && r[|r| - 1] == FootnotesClose)
    && (forall key :: key in notes ==> exists i :: |b| < i < |r| - 1 && r[i] == FootnoteItem(key, notes[key]))
  }

  /** The blocks with the footnotes section after them, the keys in the given order. */
  function Assemble(b: seq<string>, notes: map<string, string>, keys: seq<string>): (r: seq<string>)
    requires forall k :: k in keys <==> k in notes
    requires |keys| == |notes|
    ensures BlocksThenNotes(r, b, notes)
  {
    var s := FootnoteSection(notes, keys);
    PrefixOfAppend(b, s);
    NotesListed(b, notes, keys);
    b + s
  }

  lemma PrefixOfAppend(b: seq<string>, s: seq<string>)
    ensures (b + s)[..|b|] == b
  {
  }

  /** Every note has its item inside the section, after the opening wrapper and before the closing one. */
  lemma NotesListed(b: seq<string>, notes: map<string, string>, keys: seq<string>)
    requires forall k :: k in keys <==> k in notes
    requires |keys| == |notes|
    ensures var r := b + FootnoteSection(notes, keys);
      forall key :: key in notes ==> exists i :: |b| < i < |r| - 1 && r[i] == FootnoteItem(key, notes[key])
  {
    var s := FootnoteSection(notes, keys);
    var r := b + s;
    forall key | key in notes
      ensures exists i :: |b| < i < |r| - 1 && r[i] == FootnoteItem(key, notes[key])
    {
      var j :| 0 <= j < |keys| && keys[j] == key;
      assert s[j + 1] == FootnoteItem(key, notes[key]);
      AppendedAt(b, s, j + 1);
    }
  }

  lemma AppendedAt(b: seq<string>, s: seq<string>, k: nat)
    requires k < |s|
    ensures (b + s)[|b| + k] == s[k]
  {
  }

  /** The `html` array `markdownToHtml` joins: the blocks of the clean lines, then the footnotes. */
  function HtmlLines(markdown: string): (r: seq<string>)
    ensures var lines := Text.Split(markdown, '\n');
      BlocksThenNotes(r, Blocks(CleanLines(lines)), Notes(lines))
  {
    var lines := Text.Split(markdown, '\n');
    var defs := Definitions(lines);
    Assemble(Blocks(CleanLines(lines)), ObjectFold(defs), OwnKeys(InsertionOrder(ObjectWrites(defs))))
  }

  /** `markdownToHtml`. */
  function MarkdownToHtml(markdown: string): string {
    Join(HtmlLines(markdown), "\n")
  }

  // ----- Fences -----

  /** The code lines as buffered: each without its trailing carriage return. */
  function StripAll(lines: seq<string>): (r: seq<string>)
    ensures |r| == |lines| && forall i :: 0 <= i < |lines| ==> r[i] == StripCR(lines[i])
  {
    seq(|lines|, i requires 0 <= i < |lines| => StripCR(lines[i]))
  }

  lemma StripAllCons(lines: seq<string>)
    requires lines != []
    ensures StripAll(lines) == [StripCR(lines[0])] + StripAll(lines[1..])
  {
  }

  predicate NoFence(lines: seq<string>) {
    forall i :: 0 <= i < |lines| ==> !IsFence(StripCR(lines[i]))
  }

  /** Running over two pieces is running over the first, then the second. */
  lemma {:induction false} RunAppend(st: State, a: seq<string>, b: seq<string>)
    requires WellFormed(st)
    ensures Run(st, a + b) == Run(Run(st, a), b)
    decreases |a|
  {
    if a != [] {
      assert (a + b)[1..] == a[1..] + b;
      RunAppend(Step(st, a[0]), a[1..], b);
    } else {
      assert a + b == b;
    }
  }

  /** Inside a fence every non-fence line is buffered as it is, and nothing else changes. */
  lemma {:induction false} RunCode(st: State, code: seq<string>)
    requires WellFormed(st) && st.inCode && NoFence(code)
    ensures Run(st, code) == st.(code := st.code + StripAll(code))
    decreases |code|
  {
    if code != [] {
      var x := StripCR(code[0]);
      var next := st.(code := st.code + [x]);
      assert Run(st, code) == Run(next, code[1..]) by {
        assert !IsFence(x);
        assert Step(st, code[0]) == next;
      }
      RunCode(next, code[1..]);
      StripAllCons(code);
      CodeAppend(st, x, StripAll(code[1..]));
    }
  }

  lemma CodeAppend(st: State, x: string, rest: seq<string>)
    ensures st.(code := st.code + [x]).(code := st.code + [x] + rest) == st.(code := st.code + ([x] + rest))
  {
    assert st.code + [x] + rest == st.code + ([x] + rest);
  }

  /**
   * A fenced block becomes exactly one escaped `<pre><code>` fragment, and the lists
   * open before it stay open: a fence does not close them.
   */
  lemma FenceRoundTrip(st: State, code: seq<string>)
    requires WellFormed(st) && !st.inCode && NoFence(code)
    ensures Run(st, ["```"] + code + ["```"]) == st.(out := st.out + [CodeBlock(StripAll(code))])
  {
    var fenced := st.(inCode := true);
    assert ["```"] + code + ["```"] == ["```"] + (code + ["```"]);
    FenceOpens(st, code + ["```"]);
    RunAppend(fenced, code, ["```"]);
    RunCode(fenced, code);
    var buffered := fenced.(code := fenced.code + StripAll(code));
    assert Run(st, ["```"] + code + ["```"]) == Run(buffered, ["```"]);
    FenceCloses(buffered);
    assert st.code == [];
    assert buffered.code == StripAll(code);
    var closed := buffered.(out := buffered.out + [CodeBlock(buffered.code)], inCode := false, code := []);
    assert closed.out == st.out + [CodeBlock(StripAll(code))];
    assert closed.stack == st.stack;
  }

  /** An opening fence only switches to code. */
  lemma FenceOpens(st: State, rest: seq<string>)
    requires WellFormed(st) && !st.inCode
    ensures Run(st, ["```"] + rest) == Run(st.(inCode := true), rest)
  {
    assert (["```"] + rest)[1..] == rest;
    assert Step(st, "```") == st.(inCode := true);
  }

  /** A closing fence emits the buffered code and leaves the lists alone. */
  lemma FenceCloses(st: State)
    requires st.inCode
    ensures Run(st, ["```"]) == st.(out := st.out + [CodeBlock(st.code)], inCode := false, code := [])
  {
    assert Step(st, "```") == FlushCode(st);
  }

  /**
   * A fence that is never closed is still emitted at the end of the input, after
   * the lists that were open when it started.
   */
  lemma UnclosedFenceAt(st: State, code: seq<string>)
    requires WellFormed(st) && !st.inCode && NoFence(code)
    ensures Finish(Run(st, ["```"] + code)).out == FlushLists(st).out + [CodeBlock(StripAll(code))]
  {
    var fenced := st.(inCode := true);
    FenceOpens(st, code);
    RunCode(fenced, code);
    var buffered := fenced.(code := fenced.code + StripAll(code));
    FlushListsIgnoresCode(st, true, StripAll(code));
    assert buffered == st.(inCode := true, code := StripAll(code));
  }

  /** From the start of a page, an unclosed fence is the whole output. */
  lemma UnclosedFence(code: seq<string>)
    requires NoFence(code)
    ensures Blocks(["```"] + code) == [CodeBlock(StripAll(code))]
  {
    UnclosedFenceAt(Initial, code);
  }

  /** Closing lists does not look at the code buffer. */
  lemma PopListIgnoresCode(st: State, inCode: bool, code: seq<string>)
    ensures PopList(st.(inCode := inCode, code := code)).out == PopList(st).out
    ensures PopList(st.(inCode := inCode, code := code)).stack == PopList(st).stack
  {
  }

  lemma {:induction false} FlushListsIgnoresCode(st: State, inCode: bool, code: seq<string>)
    ensures FlushLists(st.(inCode := inCode, code := code)).out == FlushLists(st).out
    decreases |st.stack|
  {
    if st.stack != [] {
      var t := st.(inCode := inCode, code := code);
      PopListIgnoresCode(st, inCode, code);
      assert PopList(t) == PopList(st).(inCode := inCode, code := code);
      FlushListsIgnoresCode(PopList(st), inCode, code);
    }
  }

  // ----- Lists -----

  /**
   * Placing an item leaves the lists below its level as they were, apart from nested
   * lists closed into their items; the levels it opens on the way are empty lists of
   * its kind; at its level it either extends the open list of its kind by one item
   * or starts a new list holding only that item.
   */
  lemma PlaceShape(st: State, level: nat, kind: ListKind, item: Item)
    requires st.stack != [] ==> level <= |st.stack|
    ensures var r := Place(st, level, kind, item);
      SameShape(r.stack[..if level < |st.stack| then level else |st.stack|], st.stack)
    ensures var r := Place(st, level, kind, item);
      forall i :: |st.stack| <= i < level ==> r.stack[i] == OpenList(kind, [])
    ensures var r := Place(st, level, kind, item);
      level < |st.stack| && st.stack[level].kind == kind ==> |r.stack[level].items| == |st.stack[level].items| + 1
    ensures var r := Place(st, level, kind, item);
      level >= |st.stack| || st.stack[level].kind != kind ==> r.stack[level].items == [item]
  {
    if level < |st.stack| {
      PlaceBelowTop(st, level, kind, item);
    } else {
      PlaceAboveTop(st, level, kind, item);
    }
  }

  lemma PlaceBelowTop(st: State, level: nat, kind: ListKind, item: Item)
    requires level < |st.stack|
    ensures var r := Place(st, level, kind, item);
      && SameShape(r.stack[..level], st.stack)
      && (st.stack[level].kind == kind ==> |r.stack[level].items| == |st.stack[level].items| + 1)
      && (st.stack[level].kind != kind ==> r.stack[level].items == [item])
  {
    var s2 := CloseDeeper(st, level, kind);
    var grown := OpenUpTo(s2.stack, level, kind);
    var r := Place(st, level, kind, item);
    assert r.stack[..level] == grown[..level] == s2.stack[..level];
  }

  lemma PlaceAboveTop(st: State, level: nat, kind: ListKind, item: Item)
    requires st.stack != [] ==> level <= |st.stack|
    requires level >= |st.stack|
    ensures var r := Place(st, level, kind, item);
      && SameShape(r.stack[..|st.stack|], st.stack)
      && (forall i :: |st.stack| <= i < level ==> r.stack[i] == OpenList(kind, []))
      && r.stack[level].items == [item]
  {
    var grown := OpenUpTo(st.stack, level, kind);
    var r := Place(st, level, kind, item);
    assert CloseDeeper(st, level, kind) == st;
    assert r.stack[..|st.stack|] == st.stack by {
      assert r.stack[..level] == grown[..level];
    }
    forall i | |st.stack| <= i < level ensures r.stack[i] == OpenList(kind, []) {
      FreshAt(st.stack, level, kind, i);
    }
  }

  lemma FreshAt(stack: seq<OpenList>, level: nat, kind: ListKind, i: nat)
    requires |stack| <= i < level
    ensures OpenUpTo(stack, level, kind)[i] == OpenList(kind, [])
  {
    var grown := OpenUpTo(stack, level, kind);
    assert grown[i] == Fresh(kind, level + 1 - |stack|)[i - |stack|];
  }

  /** An item of the other kind at an open level closes that list and starts a new one. */
  lemma KindSwitch(st: State, m: ItemMatch)
    requires ClampedLevel(st.stack, m.indent) < |st.stack|
    requires st.stack[ClampedLevel(st.stack, m.indent)].kind != m.kind
    ensures var level := ClampedLevel(st.stack, m.indent);
      var r := PushItem(st, m);
      r.stack[level] == OpenList(m.kind, [Item(RichInline(m.text), [])])
  {
    PlaceShape(st, ClampedLevel(st.stack, m.indent), m.kind, Item(RichInline(m.text), []));
  }

  /** Items keep every open list non-empty as long as nesting starts at level 0. */
  lemma PushKeepsNested(st: State, m: ItemMatch)
    requires Nested(st.stack)
    requires st.stack != [] || IndentLevel(IndentWidth(m.indent)) == 0
    ensures Nested(PushItem(st, m).stack)
  {
    var level := ClampedLevel(st.stack, m.indent);
    var r := PushItem(st, m);
    PlaceShape(st, level, m.kind, Item(RichInline(m.text), []));
    forall i | 0 <= i < |r.stack| ensures |r.stack[i].items| > 0 {
      if i < level {
        assert r.stack[..level][i] == r.stack[i];
      }
    }
  }

  /** Closing a properly nested stack yields one top-level fragment: inner lists end up inside items. */
  lemma {:induction false} FlushNestedEmitsOne(st: State)
    requires Nested(st.stack) && st.stack != []
    ensures |FlushLists(st).out| == |st.out| + 1
    decreases |st.stack|
  {
    var p := PopList(st);
    PopListCloses(st);
    if |st.stack| >= 2 {
      assert p.out == st.out;
      assert Nested(p.stack);
      FlushNestedEmitsOne(p);
    } else {
      assert p.stack == [];
    }
  }

  /**
   * A first item indented one level opens an empty outer list. Closing them emits the
   * inner list as a top-level fragment, followed by the empty outer list.
   */
  lemma IndentedFirstItem(st: State, m: ItemMatch)
    requires st.stack == [] && IndentLevel(IndentWidth(m.indent)) == 1
    ensures var r := PushItem(st, m);
      && |r.stack| == 2 && r.stack[0] == OpenList(m.kind, [])
      && FlushLists(r).out == st.out + [RenderList(r.stack[1]), RenderList(OpenList(m.kind, []))]
  {
    var item := Item(RichInline(m.text), []);
    PlaceShape(st, 1, m.kind, item);
    var r := PushItem(st, m);
    assert r.out == st.out by {
      assert CloseDeeper(st, 1, m.kind) == st;
    }
    FlushUnderEmptyList(r);
  }

  /** Two open lists, the outer one empty: the inner list is emitted first, then the outer one. */
  lemma FlushUnderEmptyList(st: State)
    requires |st.stack| == 2 && st.stack[0].items == []
    ensures FlushLists(st).out == st.out + [RenderList(st.stack[1]), RenderList(st.stack[0])]
  {
    PopListCloses(st);
    var p1 := PopList(st);
    assert p1.stack == [st.stack[0]];
    PopListCloses(p1);
    var p2 := PopList(p1);
    assert p2.stack == [];
  }

  // ----- Other lines -----

  /** `#` one to six times, a space and the text: the open lists are closed, then one heading. */
  lemma HeadingLine(st: State, n: nat, text: string)
    requires WellFormed(st) && !st.inCode
    requires 1 <= n <= 6 && SingleLine(text) && (text == [] || !IsSpace(text[0]))
    ensures Step(st, Repeat('#', n) + " " + text) == EmitFlushed(st, HeadingHtml(n, text))
  {
    var line := Repeat('#', n) + " " + text;
    HeadingOf(n, text);
    HeadingIsPlain(n, text);
    StepOutsideFence(st, line);
    HeadingStep(st, line, n, text);
  }

  /** A heading line carries no carriage return and is not a fence. */
  lemma HeadingIsPlain(n: nat, text: string)
    requires 1 <= n && SingleLine(text)
    ensures var line := Repeat('#', n) + " " + text;
      StripCR(line) == line && !IsFence(line)
  {
    var line := Repeat('#', n) + " " + text;
    assert line[0] == '#';
    assert StripCR(line) == line by {
      if |text| > 0 {
        assert line[|line| - 1] == text[|text| - 1];
        assert !IsLineTerminator(text[|text| - 1]);
      }
    }
    assert !IsFence(line) by {
      if |line| >= 3 {
        assert line[..3][0] == '#';
      }
    }
  }

  lemma HeadingStep(st: State, line: string, n: nat, text: string)
    requires Heading(line) == Some((n, text))
    ensures TextStep(st, line) == EmitFlushed(st, HeadingHtml(n, text))
  {
  }

  /** Outside a fence, a line with no carriage return that is not a fence goes to the text handler. */
  lemma StepOutsideFence(st: State, line: string)
    requires WellFormed(st) && !st.inCode && !IsFence(line) && StripCR(line) == line
    ensures Step(st, line) == TextStep(st, line)
  {
  }

  /** A `>` line closes the open lists, then becomes one blockquote. */
  lemma QuoteLine(st: State, line: string)
    requires WellFormed(st) && !st.inCode
    requires StartsWith(line, ">") && StripCR(line) == line
    ensures Step(st, line) == EmitFlushed(st, QuoteHtml(line))
  {
    assert line[0] == '>';
    assert !IsSpace(line[0]);
    assert HashRun(line) == 0;
    assert RichListItem(line).None?;
    assert !IsBlank(line);
    assert Heading(line).None?;
    assert !IsFence(line) by {
      if |line| >= 3 {
        assert line[..3][0] == '>';
      }
    }
    StepOutsideFence(st, line);
    assert TextStep(st, line) == EmitFlushed(st, QuoteHtml(line));
  }

  // ----- Footnotes -----

  /**
   * A label is in the footnote table exactly when some raw line defines it and it
   * is not `__proto__`. A `[^__proto__]: …` line is still taken out of the text.
   */
  lemma NotesKeys(lines: seq<string>, key: string)
    ensures key in Notes(lines) <==> key != ProtoKey && exists i :: 0 <= i < |lines| && Sets(FootnoteDefinition(lines[i]), key)
  {
    var defs := Definitions(lines);
    ObjectFoldKeys(defs, key);
    if exists i :: 0 <= i < |lines| && Sets(FootnoteDefinition(lines[i]), key) {
      var i :| 0 <= i < |lines| && Sets(FootnoteDefinition(lines[i]), key);
      assert Sets(defs[i], key);
    }
  }

  /** The text kept for a label is that of its last definition. */
  lemma NotesLastWins(lines: seq<string>, i: int, key: string)
    requires key != ProtoKey
    requires 0 <= i < |lines| && Sets(FootnoteDefinition(lines[i]), key)
    requires forall j :: i < j < |lines| ==> !Sets(FootnoteDefinition(lines[j]), key)
    ensures key in Notes(lines) && Notes(lines)[key] == FootnoteDefinition(lines[i]).value.1
  {
    var defs := Definitions(lines);
    assert forall j :: i < j < |defs| ==> !Sets(defs[j], key);
    ObjectFoldLastWins(defs, i, key);
  }

  /** Without definition lines the pre-pass keeps every line. */
  lemma {:induction false} CleanUnchanged(lines: seq<string>)
    requires forall i :: 0 <= i < |lines| ==> FootnoteDefinition(lines[i]).None?
    ensures CleanLines(lines) == lines
    decreases |lines|
  {
    if lines != [] {
      CleanUnchanged(lines[1..]);
    }
  }

  lemma {:induction false} CleanAppend(a: seq<string>, b: seq<string>)
    ensures CleanLines(a + b) == CleanLines(a) + CleanLines(b)
    decreases |a|
  {
    if a == [] {
      assert a + b == b;
    } else {
      assert (a + b)[0] == a[0];
      assert (a + b)[1..] == a[1..] + b;
      CleanAppend(a[1..], b);
    }
  }

  /**
   * The pre-pass removes a definition line wherever it stands, inside a fence or
   * not, and keeps the lines around it as they are.
   */
  lemma DefinitionRemovedAnywhere(before: seq<string>, d: string, after: seq<string>)
    requires FootnoteDefinition(d).Some?
    ensures CleanLines(before + [d] + after) == CleanLines(before) + CleanLines(after)
  {
    CleanAppend(before + [d], after);
    CleanAppend(before, [d]);
    CleanDropsDefinition(d);
    assert CleanLines(before) + [] == CleanLines(before);
  }

  lemma CleanDropsDefinition(d: string)
    requires FootnoteDefinition(d).Some?
    ensures CleanLines([d]) == []
  {
    assert [d][1..] == [];
  }

  /** Without definition lines the output is the blocks alone. */
  lemma NoFootnotes(markdown: string)
    requires var lines := Text.Split(markdown, '\n');
      forall i :: 0 <= i < |lines| ==> FootnoteDefinition(lines[i]).None?
    ensures HtmlLines(markdown) == Blocks(Text.Split(markdown, '\n'))
  {
    var lines := Text.Split(markdown, '\n');
    CleanUnchanged(lines);
    forall key ensures key !in Notes(lines) {
      NotesKeys(lines, key);
    }
    assert Notes(lines).Keys == {};
  }

  /** Every definition among the lines is of `__proto__`. */
  predicate ProtoOnly(lines: seq<string>) {
    forall i :: 0 <= i < |lines| ==> FootnoteDefinition(lines[i]).None? || FootnoteDefinition(lines[i]).value.0 == ProtoKey
  }

  /**
   * Definitions of `__proto__` alone: the lines are taken out, the footnote object
   * stays empty, and no footnotes section is written.
   */
  lemma ProtoNotesDropped(markdown: string)
    requires ProtoOnly(Text.Split(markdown, '\n'))
    ensures HtmlLines(markdown) == Blocks(CleanLines(Text.Split(markdown, '\n')))
  {
    ProtoOnlyNoNotes(Text.Split(markdown, '\n'));
  }

  lemma ProtoOnlyNoNotes(lines: seq<string>)
    requires ProtoOnly(lines)
    ensures Notes(lines).Keys == {}
  {
    forall key ensures key !in Notes(lines) {
      NotesKeys(lines, key);
      forall i | 0 <= i < |lines|
        ensures !Sets(FootnoteDefinition(lines[i]), key) || key == ProtoKey
      {
      }
    }
  }
}
