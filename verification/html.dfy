/**
 * `escapeHtml` (src/utils.js, and its copy in src/review-page.js): three global
 * replacements, `&` first, then `<`, then `>`. Because `&` goes first, no entity the
 * later passes introduce is escaped again, and decoding the three entities gives
 * the input back.
 */
module Html {
  import opened Text

  /** What one character becomes once escaped. */
  function EscapeChar(c: char): string {
    if c == '&' then "&amp;" else if c == '<' then "&lt;" else if c == '>' then "&gt;" else [c]
  }

  /** `escapeHtml`, written as the source writes it: three passes in a fixed order. */
  function EscapeHtml(s: string): (r: string)
    ensures '<' !in r && '>' !in r
    ensures UnescapeHtml(r) == s
    ensures |r| >= |s|
  {
    EscapeIsCharwise(s);
    EscapeCharsFacts(s);
    ReplaceAll(ReplaceAll(ReplaceAll(s, "&", "&amp;"), "<", "&lt;"), ">", "&gt;")
  }

  /** The decoder the escaping is inverse to: `&lt;`, `&gt;` and `&amp;` become characters again. */
  function UnescapeHtml(s: string): string
    decreases |s|
  {
    if s == [] then ""
    else if StartsWith(s, "&lt;") then "<" + UnescapeHtml(s[4..])
    else if StartsWith(s, "&gt;") then ">" + UnescapeHtml(s[4..])
    else if StartsWith(s, "&amp;") then "&" + UnescapeHtml(s[5..])
    else [s[0]] + UnescapeHtml(s[1..])
  }

  /** The character-by-character reading of the three passes. */
  function EscapeChars(s: string): string {
    if s == [] then "" else EscapeChar(s[0]) + EscapeChars(s[1..])
  }

  lemma {:induction false} EscapeCharsFacts(s: string)
    ensures '<' !in EscapeChars(s) && '>' !in EscapeChars(s)
    ensures UnescapeHtml(EscapeChars(s)) == s
    ensures |EscapeChars(s)| >= |s|
    decreases |s|
  {
    if s != [] {
      EscapeCharsFacts(s[1..]);
      var c := s[0];
      var e := EscapeChar(c);
      var rest := EscapeChars(s[1..]);
      assert EscapeChars(s) == e + rest;
      UnescapeStep(c, rest);
      assert s == [c] + s[1..];
    }
  }

  /** Decoding consumes exactly the escape of the first character. */
  lemma UnescapeStep(c: char, rest: string)
    ensures UnescapeHtml(EscapeChar(c) + rest) == [c] + UnescapeHtml(rest)
  {
    if c == '&' {
      UnescapeAmp(rest);
    } else if c == '<' {
      UnescapeLt(rest);
    } else if c == '>' {
      UnescapeGt(rest);
    } else {
      UnescapePlain(c, rest);
    }
  }

  lemma UnescapeAmp(rest: string)
    ensures UnescapeHtml("&amp;" + rest) == "&" + UnescapeHtml(rest)
  {
    var s := "&amp;" + rest;
    assert s[1] == 'a';
    assert s[..5] == "&amp;";
    assert s[5..] == rest;
  }

  lemma UnescapeLt(rest: string)
    ensures UnescapeHtml("&lt;" + rest) == "<" + UnescapeHtml(rest)
  {
    var s := "&lt;" + rest;
    assert s[..4] == "&lt;";
    assert s[4..] == rest;
  }

  lemma UnescapeGt(rest: string)
    ensures UnescapeHtml("&gt;" + rest) == ">" + UnescapeHtml(rest)
  {
    var s := "&gt;" + rest;
    assert s[1] == 'g';
    assert s[..4] == "&gt;";
    assert s[4..] == rest;
  }

  lemma UnescapePlain(c: char, rest: string)
    requires c != '&'
    ensures UnescapeHtml([c] + rest) == [c] + UnescapeHtml(rest)
  {
    var s := [c] + rest;
    assert s[0] == c;
    assert s[1..] == rest;
  }

  /** The three passes act on each character independently. */
  lemma {:induction false} EscapeIsCharwise(s: string)
    ensures ReplaceAll(ReplaceAll(ReplaceAll(s, "&", "&amp;"), "<", "&lt;"), ">", "&gt;") == EscapeChars(s)
    decreases |s|
  {
    if s != [] {
      var c := s[0];
      var t := s[1..];
      assert s == [c] + t;
      EscapeIsCharwise(t);
      ReplaceCharAppend([c], t, '&', "&amp;");
      var a1 := ReplaceAll([c], "&", "&amp;");
      var a2 := ReplaceAll(t, "&", "&amp;");
      ReplaceCharAppend(a1, a2, '<', "&lt;");
      var b1 := ReplaceAll(a1, "<", "&lt;");
      var b2 := ReplaceAll(a2, "<", "&lt;");
      ReplaceCharAppend(b1, b2, '>', "&gt;");
      var d1 := ReplaceAll(b1, ">", "&gt;");
      if c == '&' {
        assert a1 == "&amp;";
        ReplaceCharAbsent("&amp;", '<', "&lt;");
        ReplaceCharAbsent("&amp;", '>', "&gt;");
      } else if c == '<' {
        ReplaceCharAbsent([c], '&', "&amp;");
        assert b1 == "&lt;";
        ReplaceCharAbsent("&lt;", '>', "&gt;");
      } else if c == '>' {
        ReplaceCharAbsent([c], '&', "&amp;");
        ReplaceCharAbsent([c], '<', "&lt;");
        assert d1 == "&gt;";
      } else {
        ReplaceCharAbsent([c], '&', "&amp;");
        ReplaceCharAbsent([c], '<', "&lt;");
        ReplaceCharAbsent([c], '>', "&gt;");
      }
      assert d1 == EscapeChar(c);
    }
  }
}
