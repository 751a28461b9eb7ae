/**
 * `markdownToHtml` of src/review-page.js: the same fence, heading, blockquote and
 * paragraph rules as the rich renderer, but lists are one flat buffer of column-0
 * bullets, there are no footnotes, and inline text is escaped first.
 */
module SimpleBlocks {
  import opened Text
  import opened Inline
  import opened Lines
  import RichBlocks

  /** The renderer's variables: `html`, `inCode`, `codeLines` and `listBuffer`. */
  datatype State = State(out: seq<string>, inCode: bool, code: seq<string>, items: seq<string>)

  const Initial := State([], false, [], [])

  /** Outside a fence no code is buffered. */
  predicate WellFormed(st: State) {
    !st.inCode ==> st.code == []
  }

  function ListItems(items: seq<string>): string
    decreases |items|
  {
    if items == [] then "" else "<li>" + items[0] + "</li>" + ListItems(items[1..])
  }

  function ListHtml(items: seq<string>): string {
    "<ul>" + ListItems(items) + "</ul>"
  }

  /** `flushList`: buffered items become one `<ul>`; an empty buffer emits nothing. */
  function FlushList(st: State): (r: State)
    ensures r.items == [] && r.inCode == st.inCode && r.code == st.code
    ensures st.items == [] ==> r == st
    ensures st.items != [] ==> r.out == st.out + [ListHtml(st.items)]
  {
    if st.items == [] then st else st.(out := st.out + [ListHtml(st.items)], items := [])
  }

  /** `flushCode`: inside a fence, emits the buffered lines and leaves the fence. */
  function FlushCode(st: State): (r: State)
    ensures !r.inCode && r.items == st.items
    ensures st.inCode ==> r.code == [] && r.out == st.out + [RichBlocks.CodeBlock(st.code)]
    ensures !st.inCode ==> r == st
  {
    if st.inCode then st.(out := st.out + [RichBlocks.CodeBlock(st.code)], inCode := false, code := []) else st
  }

  function HeadingHtml(n: nat, text: string): string {
    "<h" + NatToString(n) + ">" + SimpleInline(text) + "</h" + NatToString(n) + ">"
  }

  function QuoteHtml(line: string): string
    requires StartsWith(line, ">")
  {
    "<blockquote>" + SimpleInline(QuoteText(line)) + "</blockquote>"
  }

  function ParagraphHtml(line: string): string {
    "<p>" + SimpleInline(line) + "</p>"
  }

  /** Appends one fragment after flushing the list buffer. */
  function EmitFlushed(st: State, html: string): (r: State)
    ensures r.items == [] && r.inCode == st.inCode && r.code == st.code
    ensures r.out == FlushList(st).out + [html]
  {
    var f := FlushList(st);
    f.(out := f.out + [html])
  }

  /** A line outside a fence that is not a fence: heading, bullet, blank, quote or paragraph. */
  function TextStep(st: State, line: string): (r: State)
    ensures r.inCode == st.inCode && r.code == st.code && st.out <= r.out
    ensures SimpleListItem(line).Some? ==> r == st.(items := st.items + [SimpleInline(SimpleListItem(line).value)])
    ensures SimpleListItem(line).None? ==> r.items == []
  {
    match Heading(line)
    case Some((n, text)) =>
      assert SimpleListItem(line).None? by {
        assert line[0] == '#';
      }
      EmitFlushed(st, HeadingHtml(n, text))
    case None =>
      match SimpleListItem(line)
      case Some(text) => st.(items := st.items + [SimpleInline(text)])
      case None =>
        if IsBlank(line) then FlushList(st)
        else if StartsWith(line, ">") then EmitFlushed(st, QuoteHtml(line))
        else EmitFlushed(st, ParagraphHtml(line))
  }

  /** A blank line only closes the open list. */
  lemma BlankLineFlushes(st: State, line: string)
    requires IsBlank(line)
    ensures TextStep(st, line) == FlushList(st)
  {
    BlankIsNotMarked(line);
  }

  lemma BlankIsNotMarked(line: string)
    requires IsBlank(line)
    ensures Heading(line).None? && SimpleListItem(line).None?
  {
    if |line| > 0 {
      assert IsSpace(line[0]);
    }
  }

  /** The handler of one line; a fence toggles the code mode and leaves the list buffer alone. */
  function Step(st: State, raw: string): (r: State)
    requires WellFormed(st)
    ensures WellFormed(r) && st.out <= r.out
    ensures IsFence(StripCR(raw)) ==> r.items == st.items && r.inCode == !st.inCode
    ensures st.inCode && !IsFence(StripCR(raw)) ==> r == st.(code := st.code + [StripCR(raw)])
    ensures !st.inCode && !IsFence(StripCR(raw)) ==> r == TextStep(st, StripCR(raw))
  {
    var line := StripCR(raw);
    if IsFence(line) then
      if st.inCode then FlushCode(st) else st.(inCode := true)
    else if st.inCode then
      st.(code := st.code + [line])
    else
      TextStep(st, line)
  }

  /** The `forEach` over the lines. */
  function Run(st: State, lines: seq<string>): (r: State)
    requires WellFormed(st)
    ensures WellFormed(r) && st.out <= r.out
    decreases |lines|
  {
    if lines == [] then st else Run(Step(st, lines[0]), lines[1..])
  }

  /** The end of input: the list buffer first, then an unclosed fence. */
  function Finish(st: State): (r: State)
    requires WellFormed(st)
    ensures r.items == [] && !r.inCode && r.code == []
    ensures st.out <= r.out
    ensures st.inCode ==> r.out == FlushList(st).out + [RichBlocks.CodeBlock(st.code)]
  {
    FlushCode(FlushList(st))
  }

  function Blocks(lines: seq<string>): seq<string> {
    Finish(Run(Initial, lines)).out
  }

  /** `markdownToHtml`. */
  function MarkdownToHtml(markdown: string): string {
    Join(Blocks(Text.Split(markdown, '\n')), "\n")
  }

  // ----- Lemmas -----

  lemma {:induction false} RunAppend(st: State, a: seq<string>, b: seq<string>)
    requires WellFormed(st)
    ensures Run(st, a + b) == Run(Run(st, a), b)
    decreases |a|
  {
    if a != [] {
      assert (a + b)[1..] == a[1..] + b;
      RunAppend(Step(st, a[0]), a[1..], b);
    } else {
      assert a + b == b;
    }
  }

  /** Column-0 bullets, each without a trailing carriage return. */
  predicate Bullets(lines: seq<string>) {
    forall l :: l in lines ==> IsBulletLine(l)
  }

  predicate IsBulletLine(line: string) {
    StripCR(line) == line && SimpleListItem(line).Some?
  }

  /** The rendered texts of the bullets, in order. */
  function BulletTexts(lines: seq<string>): (r: seq<string>)
    requires Bullets(lines)
    ensures |r| == |lines|
    decreases |lines|
  {
    if lines == [] then []
    else
      assert IsBulletLine(lines[0]);
      [SimpleInline(SimpleListItem(lines[0]).value)] + BulletTexts(lines[1..])
  }

  /** Outside a fence, one bullet is rendered and buffered. */
  lemma BulletStep(st: State, line: string)
    requires WellFormed(st) && !st.inCode && StripCR(line) == line && SimpleListItem(line).Some?
    ensures Step(st, line) == st.(items := st.items + [SimpleInline(SimpleListItem(line).value)])
  {
    assert !IsFence(line) by {
      assert IsBullet(line[0]);
      if |line| >= 3 {
        assert line[..3][0] == line[0];
      }
    }
    StepOutsideFence(st, line);
  }

  /** Outside a fence, bullets only grow the buffer: nothing is emitted while they last. */
  lemma {:induction false} RunBullets(st: State, lines: seq<string>)
    requires WellFormed(st) && !st.inCode && Bullets(lines)
    ensures Run(st, lines) == st.(items := st.items + BulletTexts(lines))
    decreases |lines|
  {
    if lines != [] {
      assert IsBulletLine(lines[0]);
      var x := SimpleInline(SimpleListItem(lines[0]).value);
      var next := st.(items := st.items + [x]);
      assert Run(st, lines) == Run(next, lines[1..]) by {
        assert IsBulletLine(lines[0]);
        BulletStep(st, lines[0]);
      }
      RunBullets(next, lines[1..]);
      assert BulletTexts(lines) == [x] + BulletTexts(lines[1..]);
      AppendItems(st, x, BulletTexts(lines[1..]));
    } else {
      assert st.items + BulletTexts(lines) == st.items;
    }
  }

  lemma AppendItems(st: State, x: string, tail: seq<string>)
    ensures st.(items := st.items + [x]).(items := st.items + [x] + tail) == st.(items := st.items + ([x] + tail))
  {
    assert st.items + [x] + tail == st.items + ([x] + tail);
  }

  /** Outside a fence, a line with no carriage return that is not a fence goes to the text handler. */
  lemma StepOutsideFence(st: State, line: string)
    requires WellFormed(st) && !st.inCode && !IsFence(line) && StripCR(line) == line
    ensures Step(st, line) == TextStep(st, line)
  {
  }

  /** Consecutive bullets form one flat list. */
  lemma ConsecutiveBullets(lines: seq<string>)
    requires |lines| > 0 && Bullets(lines)
    ensures Blocks(lines) == [ListHtml(BulletTexts(lines))]
  {
    RunBullets(Initial, lines);
    var st := Initial.(items := BulletTexts(lines));
    assert Run(Initial, lines) == st;
    assert FlushList(st).out == [ListHtml(BulletTexts(lines))];
  }

  /** A fenced block becomes one escaped fragment and leaves the list buffer as it was. */
  lemma FenceKeepsList(st: State, code: seq<string>)
    requires WellFormed(st) && !st.inCode && RichBlocks.NoFence(code)
    ensures var r := Run(st, ["```"] + code + ["```"]);
      r.items == st.items && r.out == st.out + [RichBlocks.CodeBlock(RichBlocks.StripAll(code))]
  {
    var fenced := st.(inCode := true);
    var buffered := fenced.(code := RichBlocks.StripAll(code));
    FenceOpens(st, code);
    CodeBuffered(st, code);
    FenceCloses(buffered);
  }

  lemma FenceOpens(st: State, code: seq<string>)
    requires WellFormed(st) && !st.inCode
    ensures Run(st, ["```"] + code + ["```"]) == Run(st.(inCode := true), code + ["```"])
  {
    var lines := ["```"] + code + ["```"];
    assert Step(st, "```") == st.(inCode := true);
    assert lines[1..] == code + ["```"];
  }

  lemma CodeBuffered(st: State, code: seq<string>)
    requires WellFormed(st) && !st.inCode && RichBlocks.NoFence(code)
    ensures Run(st.(inCode := true), code + ["```"]) == Run(st.(inCode := true, code := RichBlocks.StripAll(code)), ["```"])
  {
    var fenced := st.(inCode := true);
    RunAppend(fenced, code, ["```"]);
    RunCode(fenced, code);
    assert st.code + RichBlocks.StripAll(code) == RichBlocks.StripAll(code);
  }

  lemma FenceCloses(st: State)
    requires WellFormed(st) && st.inCode
    ensures Run(st, ["```"]) == FlushCode(st)
  {
    assert Step(st, "```") == FlushCode(st);
  }

  lemma {:induction false} RunCode(st: State, code: seq<string>)
    requires WellFormed(st) && st.inCode && RichBlocks.NoFence(code)
    ensures Run(st, code) == st.(code := st.code + RichBlocks.StripAll(code))
    decreases |code|
  {
    if code != [] {
      var x := StripCR(code[0]);
      var next := st.(code := st.code + [x]);
      assert Run(st, code) == Run(next, code[1..]) by {
        assert !IsFence(x);
        assert Step(st, code[0]) == next;
      }
      RunCode(next, code[1..]);
      RichBlocks.StripAllCons(code);
      CodeAppend(st, x, RichBlocks.StripAll(code[1..]));
    }
  }

  lemma CodeAppend(st: State, x: string, rest: seq<string>)
    ensures st.(code := st.code + [x]).(code := st.code + [x] + rest) == st.(code := st.code + ([x] + rest))
  {
    assert st.code + [x] + rest == st.code + ([x] + rest);
  }

  /** A fence that is never closed is still emitted at the end of the input. */
  lemma UnclosedFence(code: seq<string>)
    requires RichBlocks.NoFence(code)
    ensures Blocks(["```"] + code) == [RichBlocks.CodeBlock(RichBlocks.StripAll(code))]
  {
    var fenced := Initial.(inCode := true);
    assert Step(Initial, "```") == fenced;
    assert (["```"] + code)[1..] == code;
    assert Run(Initial, ["```"] + code) == Run(fenced, code);
    RunCode(fenced, code);
    var buffered := fenced.(code := RichBlocks.StripAll(code));
    assert Run(fenced, code) == buffered;
    assert FlushList(buffered) == buffered;
    assert Finish(buffered).out == [RichBlocks.CodeBlock(RichBlocks.StripAll(code))];
  }

  /** An indented or numbered item is not a list item here: it flushes the buffer like any other text. */
  lemma IndentedItemFlushes(st: State, line: string)
    requires WellFormed(st) && !st.inCode && StripCR(line) == line && !IsFence(line)
    requires RichListItem(line).Some?
    requires RichListItem(line).value.indent != "" || RichListItem(line).value.kind == Ol
    ensures Step(st, line).items == []
  {
    SimpleIgnoresIndentAndNumbers(line);
  }
}
