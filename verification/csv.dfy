/**
 * The naive CSV reading every reading-log script shares (`parseCSV` in src/home.js,
 * src/script.js, script.js and reading-heatmap.js): the trimmed text is cut at every
 * newline, the first line is the header, and each row is cut at every comma, so a
 * quoted field cannot hold a comma.
 */
module Csv {
  import opened Text

  /** `text.trim().split('\n')`: never empty, the first element is the header line. */
  function Lines(text: string): (r: seq<string>)
    ensures |r| >= 1
    ensures forall i :: 0 <= i < |r| ==> '\n' !in r[i]
    ensures Join(r, "\n") == Trim(text)
  {
    Split(Trim(text), '\n')
  }

  /** `cols[index] ?? ''`: a missing column reads as empty. */
  function Cell(cols: seq<string>, i: nat): (r: string)
    ensures i < |cols| ==> r == cols[i]
    ensures i >= |cols| ==> r == ""
  {
    if i < |cols| then cols[i] else ""
  }

  /** `value.startsWith('"') && value.endsWith('"')`. */
  predicate Quoted(v: string) {
    |v| >= 1 && v[0] == '"' && v[|v| - 1] == '"'
  }

  /** `if (value.startsWith('"') && value.endsWith('"')) value = value.slice(1, -1)`. */
  function Unquote(v: string): (r: string)
    ensures !Quoted(v) ==> r == v
    ensures Quoted(v) && |v| >= 2 ==> v == ['"'] + r + ['"']
    ensures v == ['"'] ==> r == ""
  {
    if Quoted(v) then
      if |v| >= 2 then
        assert v == [v[0]] + v[1..|v| - 1] + [v[|v| - 1]];
        v[1..|v| - 1]
      else ""
    else v
  }

  /** `!line.trim()`: a row of white space only is skipped. */
  predicate BlankRow(line: string) {
    Trim(line) == ""
  }

  /** A field that is not wrapped in quotes and carries no outer white space reads as itself. */
  lemma PlainCell(v: string)
    requires Bare(v)
    requires v == [] || v[0] != '"'
    ensures Trim(Unquote(v)) == v
  {
    assert Unquote(v) == v;
    TrimIdentity(v);
  }

  /** `String(n)` of an integer is a plain cell: no quote, no white space at either end. */
  lemma NumberCell(n: int)
    ensures Trim(Unquote(IntToString(n))) == IntToString(n)
  {
    var s := IntToString(n);
    assert IsDigit(s[|s| - 1]) by {
      if n < 0 {
        assert s[|s| - 1] == s[1..][|s| - 2];
      }
    }
    PlainCell(s);
  }

  /** Joining the header with its rows and reading it back gives them again, if the text is already trimmed. */
  lemma LinesOfJoin(lines: seq<string>)
    requires |lines| >= 1 && forall i :: 0 <= i < |lines| ==> '\n' !in lines[i]
    requires Trim(Join(lines, "\n")) == Join(lines, "\n")
    ensures Lines(Join(lines, "\n")) == lines
  {
    SplitJoin(lines, '\n');
  }

  /** `parseInt(value) || 0` of a cell written with `String(n)` gives `n` back. */
  lemma NumberCellValue(n: int)
    ensures ParseIntOrZero(Trim(Unquote(IntToString(n)))) == n
  {
    NumberCell(n);
    ParseIntOfIntToString(n);
  }
}
