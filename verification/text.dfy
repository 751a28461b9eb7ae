/**
 * String helpers with the semantics of the JavaScript built-ins the site relies on:
 * `\s` and `trim`, `split` on one character, `join`, literal global replacement,
 * `toLowerCase` (ASCII letters), `parseInt(value, 10)` and `String(n)` for integers.
 * Strings are sequences of Unicode scalar values.
 */
module Text {

  datatype Option<+T> = None | Some(value: T)

  /** The characters `\s` matches and `String.prototype.trim` removes. */
  predicate IsSpace(c: char) {
    || c == '\t' || c == '\n' || c == '\U{000B}' || c == '\U{000C}' || c == '\r' || c == ' '
    || c == '\U{00A0}' || c == '\U{1680}' || ('\U{2000}' <= c <= '\U{200A}')
    || c == '\U{2028}' || c == '\U{2029}' || c == '\U{202F}' || c == '\U{205F}'
    || c == '\U{3000}' || c == '\U{FEFF}'
  }

  /** The characters the regular-expression `.` never matches. */
  predicate IsLineTerminator(c: char) {
    c == '\n' || c == '\r' || c == '\U{2028}' || c == '\U{2029}'
  }

  /** `\d`: ASCII digits only. */
  predicate IsDigit(c: char) {
    '0' <= c <= '9'
  }

  predicate AllSpace(s: string) {
    forall i :: 0 <= i < |s| ==> IsSpace(s[i])
  }

  predicate AllDigits(s: string) {
    forall i :: 0 <= i < |s| ==> IsDigit(s[i])
  }

  /** What `.*` can match: no line terminator anywhere. */
  predicate SingleLine(s: string) {
    forall i :: 0 <= i < |s| ==> !IsLineTerminator(s[i])
  }

  predicate StartsWith(s: string, prefix: string) {
    |prefix| <= |s| && s[..|prefix|] == prefix
  }

  predicate EndsWith(s: string, suffix: string) {
    |suffix| <= |s| && s[|s| - |suffix|..] == suffix
  }

  /** `pat` occurs in `s` at index `i`. */
  predicate OccursAt(s: string, pat: string, i: nat) {
    i + |pat| <= |s| && s[i..i + |pat|] == pat
  }

  predicate Occurs(s: string, pat: string) {
    exists i: nat | i <= |s| :: OccursAt(s, pat, i)
  }

  function Repeat(c: char, n: nat): (r: string)
    ensures |r| == n
    ensures forall i :: 0 <= i < n ==> r[i] == c
  {
    if n == 0 then "" else [c] + Repeat(c, n - 1)
  }

  /** `trimStart`: the longest suffix that does not start with whitespace. */
  function TrimStart(s: string): (r: string)
    ensures |r| <= |s| && r == s[|s| - |r|..]
    ensures AllSpace(s[..|s| - |r|])
    ensures r == [] || !IsSpace(r[0])
  {
    if |s| > 0 && IsSpace(s[0]) then
      var r := TrimStart(s[1..]);
      assert s[..|s| - |r|] == [s[0]] + s[1..][..|s| - 1 - |r|];
      r
    else
      s
  }

  /** `trimEnd`: the longest prefix that does not end with whitespace. */
  function TrimEnd(s: string): (r: string)
    ensures |r| <= |s| && r == s[..|r|]
    ensures AllSpace(s[|r|..])
    ensures r == [] || !IsSpace(r[|r| - 1])
  {
    if |s| > 0 && IsSpace(s[|s| - 1]) then
      var r := TrimEnd(s[..|s| - 1]);
      assert s[|r|..] == s[..|s| - 1][|r|..] + [s[|s| - 1]];
      r
    else
      s
  }

  /** Neither the first nor the last character is white space. */
  predicate Bare(s: string) {
    s == [] || (!IsSpace(s[0]) && !IsSpace(s[|s| - 1]))
  }

  /** `trim`: white space removed from both ends. */
  function Trim(s: string): (r: string)
    ensures Bare(r)
  {
    TrimEnd(TrimStart(s))
  }

  /** Only white space trims to the empty string. */
  lemma TrimToEmpty(s: string)
    ensures Trim(s) == [] <==> AllSpace(s)
  {
    var t := TrimStart(s);
    TrimEmpty(s, t, TrimEnd(t));
  }

  lemma TrimEmpty(s: string, t: string, r: string)
    requires |t| <= |s| && t == s[|s| - |t|..] && AllSpace(s[..|s| - |t|]) && (t == [] || !IsSpace(t[0]))
    requires |r| <= |t| && r == t[..|r|] && AllSpace(t[|r|..])
    ensures r == [] <==> AllSpace(s)
  {
    var a := |s| - |t|;
    if r == [] {
      assert t[|r|..] == t;
      assert t == [];
      assert s[..a] == s;
    } else {
      assert !IsSpace(s[a]);
    }
  }

  /** Text that neither starts nor ends with white space is its own trim. */
  lemma TrimIdentity(s: string)
    requires Bare(s)
    ensures Trim(s) == s
  {
    assert TrimStart(s) == s;
    assert TrimEnd(s) == s;
  }

  /** Trimming twice is trimming once. */
  lemma TrimIdempotent(s: string)
    ensures Trim(Trim(s)) == Trim(s)
  {
    TrimIdentity(Trim(s));
  }

  /** First index of `c` at or after `from`. */
  function IndexOfFrom(s: string, c: char, from: nat): (r: Option<nat>)
    requires from <= |s|
    ensures r.Some? ==> from <= r.value < |s| && s[r.value] == c && c !in s[from..r.value]
    ensures r.None? ==> c !in s[from..]
    decreases |s| - from
  {
    if from == |s| then None
    else if s[from] == c then Some(from)
    else
      var r := IndexOfFrom(s, c, from + 1);
      assert s[from..] == [s[from]] + s[from + 1..];
      if r.Some? then assert s[from..r.value] == [s[from]] + s[from + 1..r.value]; r else r
  }

  /** `indexOf` of one character. */
  function IndexOf(s: string, c: char): (r: Option<nat>)
    ensures r.Some? ==> r.value < |s| && s[r.value] == c && c !in s[..r.value]
    ensures r.None? ==> c !in s
  {
    assert s[0..] == s;
    IndexOfFrom(s, c, 0)
  }

  /** `Array.prototype.join`: the parts with `glue` between consecutive ones. */
  function Join(parts: seq<string>, glue: string): string {
    if |parts| == 0 then ""
    else if |parts| == 1 then parts[0]
    else parts[0] + glue + Join(parts[1..], glue)
  }

  /** Joining one more part in front adds it and one glue. */
  lemma JoinCons(p: string, parts: seq<string>, glue: string)
    requires |parts| >= 1
    ensures Join([p] + parts, glue) == p + glue + Join(parts, glue)
  {
    assert ([p] + parts)[1..] == parts;
  }

  /** A join starts with its first part and ends with its last. */
  lemma {:induction false} JoinEnds(parts: seq<string>, glue: string)
    requires |parts| >= 1
    ensures StartsWith(Join(parts, glue), parts[0])
    ensures EndsWith(Join(parts, glue), parts[|parts| - 1])
    decreases |parts|
  {
    if |parts| > 1 {
      JoinEnds(parts[1..], glue);
      var j := Join(parts, glue);
      var rest := Join(parts[1..], glue);
      assert j == parts[0] + glue + rest;
      assert j[..|parts[0]|] == parts[0];
      assert j[|j| - |rest|..] == rest;
      assert rest[|rest| - |parts[|parts| - 1]|..] == parts[|parts| - 1];
      assert j[|j| - |parts[|parts| - 1]|..] == rest[|rest| - |parts[|parts| - 1]|..];
    }
  }

  /** A join whose first part starts, and whose last part ends, with a non-space character is bare. */
  lemma JoinBare(parts: seq<string>, glue: string)
    requires |parts| >= 1 && parts[0] != [] && parts[|parts| - 1] != []
    requires !IsSpace(parts[0][0]) && !IsSpace(parts[|parts| - 1][|parts[|parts| - 1]| - 1])
    ensures Bare(Join(parts, glue))
  {
    JoinEnds(parts, glue);
    var j := Join(parts, glue);
    var last := parts[|parts| - 1];
    assert j[..|parts[0]|][0] == j[0];
    assert j[|j| - |last|..][|last| - 1] == j[|j| - 1];
  }

  /** `String.prototype.split` on one character: the separator-free pieces whose join is `s`. */
  function Split(s: string, sep: char): (parts: seq<string>)
    ensures |parts| >= 1
    ensures forall i :: 0 <= i < |parts| ==> sep !in parts[i]
    ensures Join(parts, [sep]) == s
    decreases |s|
  {
    match IndexOf(s, sep)
    case None => [s]
    case Some(k) =>
      var rest := Split(s[k + 1..], sep);
      var parts := [s[..k]] + rest;
      assert parts[1..] == rest;
      assert s == s[..k] + [sep] + s[k + 1..];
      parts
  }

  /** The first occurrence of `c` is where `IndexOf` finds it. */
  lemma IndexOfFirst(s: string, c: char, k: nat)
    requires k < |s| && s[k] == c && c !in s[..k]
    ensures IndexOf(s, c) == Some(k)
  {
    var r := IndexOf(s, c);
    assert s[k] in s;
    forall j | 0 <= j < k
      ensures s[j] != c
    {
      assert s[..k][j] == s[j];
    }
    forall j | 0 <= j < r.value
      ensures s[j] != c
    {
      assert s[..r.value][j] == s[j];
    }
  }

  /** Splitting a join of separator-free pieces gives the pieces back. */
  lemma {:induction false} SplitJoin(parts: seq<string>, sep: char)
    requires |parts| >= 1
    requires forall i :: 0 <= i < |parts| ==> sep !in parts[i]
    ensures Split(Join(parts, [sep]), sep) == parts
    decreases |parts|
  {
    var s := Join(parts, [sep]);
    if |parts| == 1 {
      assert sep !in s;
    } else {
      var p := parts[0];
      var rest := Join(parts[1..], [sep]);
      assert s == p + [sep] + rest;
      assert s[..|p|] == p;
      IndexOfFirst(s, sep, |p|);
      assert s[|p| + 1..] == rest;
      SplitJoin(parts[1..], sep);
    }
  }

  /**
   * `s.replace(/pat/g, rep)` for a literal pattern: occurrences are replaced left to
   * right and do not overlap.
   */
  function ReplaceAll(s: string, pat: string, rep: string): (r: string)
    requires |pat| > 0
    ensures !Occurs(s, pat) ==> r == s
    decreases |s|
  {
    if |s| < |pat| then s
    else if s[..|pat|] == pat then
      assert OccursAt(s, pat, 0);
      rep + ReplaceAll(s[|pat|..], pat, rep)
    else
      OccursInTail(s, pat);
      [s[0]] + ReplaceAll(s[1..], pat, rep)
  }

  /** An occurrence at the front is replaced, and the scan resumes right after it. */
  lemma ReplaceAllLeading(pat: string, rest: string, rep: string)
    requires |pat| > 0
    ensures ReplaceAll(pat + rest, pat, rep) == rep + ReplaceAll(rest, pat, rep)
  {
    assert (pat + rest)[..|pat|] == pat;
    assert (pat + rest)[|pat|..] == rest;
  }

  /**
   * Text in front of which no occurrence starts is copied, and the scan goes on
   * with what follows it. With `ReplaceAllLeading` this pins down every output.
   */
  lemma {:induction false} ReplaceAllCopies(a: string, rest: string, pat: string, rep: string)
    requires |pat| > 0
    requires forall i :: 0 <= i < |a| ==> !OccursAt(a + rest, pat, i)
    ensures ReplaceAll(a + rest, pat, rep) == a + ReplaceAll(rest, pat, rep)
    decreases |a|
  {
    if a == [] {
      assert a + rest == rest;
    } else {
      var s, t := a + rest, a[1..] + rest;
      assert s[1..] == t && s[0] == a[0];
      NoOccurrenceInTail(a, rest, pat);
      ReplaceAllCopies(a[1..], rest, pat, rep);
      ReplaceAllCopyFirst(s, pat, rep);
      ConsSplit(a, ReplaceAll(rest, pat, rep));
    }
  }

  lemma ConsSplit(p: string, q: string)
    requires p != []
    ensures [p[0]] + (p[1..] + q) == p + q
  {
    assert p == [p[0]] + p[1..];
  }

  /** Without an occurrence at the front, the first character is copied. */
  lemma ReplaceAllCopyFirst(s: string, pat: string, rep: string)
    requires |pat| > 0 && |s| > 0 && !OccursAt(s, pat, 0)
    ensures ReplaceAll(s, pat, rep) == [s[0]] + ReplaceAll(s[1..], pat, rep)
  {
    if |s| < |pat| {
      assert [s[0]] + s[1..] == s;
    }
  }

  lemma NoOccurrenceInTail(a: string, rest: string, pat: string)
    requires |a| > 0
    requires forall i :: 0 <= i < |a| ==> !OccursAt(a + rest, pat, i)
    ensures forall i :: 0 <= i < |a| - 1 ==> !OccursAt(a[1..] + rest, pat, i)
  {
    var s := a + rest;
    assert s[1..] == a[1..] + rest;
    forall i | 0 <= i < |a| - 1
      ensures !OccursAt(a[1..] + rest, pat, i)
    {
      assert !OccursAt(s, pat, i + 1);
      if i + |pat| <= |s| - 1 {
        assert s[1..][i..i + |pat|] == s[i + 1..i + 1 + |pat|];
      }
    }
  }

  lemma OccursInTail(s: string, pat: string)
    requires |s| > 0
    ensures Occurs(s[1..], pat) ==> Occurs(s, pat)
  {
    if Occurs(s[1..], pat) {
      var i: nat :| i <= |s[1..]| && OccursAt(s[1..], pat, i);
      assert s[i + 1..i + 1 + |pat|] == s[1..][i..i + |pat|];
      assert OccursAt(s, pat, i + 1);
    }
  }

  /** Text without a character holds no occurrence of it as a one-character pattern. */
  lemma NotOccursChar(s: string, c: char)
    requires c !in s
    ensures !Occurs(s, [c])
  {
    forall i: nat | i <= |s|
      ensures !OccursAt(s, [c], i)
    {
      if i + 1 <= |s| {
        assert s[i..i + 1] == [s[i]];
      }
    }
  }

  /** A one-character replacement distributes over concatenation. */
  lemma {:induction false} ReplaceCharAppend(a: string, b: string, c: char, rep: string)
    ensures ReplaceAll(a + b, [c], rep) == ReplaceAll(a, [c], rep) + ReplaceAll(b, [c], rep)
    decreases |a|
  {
    if a != [] {
      var ab := a + b;
      assert ab[1..] == a[1..] + b;
      assert ab[..|[c]|] == [ab[0]];
      assert a[..|[c]|] == [a[0]];
      ReplaceCharAppend(a[1..], b, c, rep);
      if a[0] == c {
        assert ReplaceAll(ab, [c], rep) == rep + ReplaceAll(ab[1..], [c], rep);
        assert ReplaceAll(a, [c], rep) == rep + ReplaceAll(a[1..], [c], rep);
      } else {
        assert ReplaceAll(ab, [c], rep) == [ab[0]] + ReplaceAll(ab[1..], [c], rep);
        assert ReplaceAll(a, [c], rep) == [a[0]] + ReplaceAll(a[1..], [c], rep);
      }
    } else {
      assert a + b == b;
    }
  }

  /** A one-character replacement leaves text without that character alone. */
  lemma ReplaceCharAbsent(s: string, c: char, rep: string)
    requires c !in s
    ensures ReplaceAll(s, [c], rep) == s
  {
    NotOccursChar(s, c);
  }

  /** `toLowerCase` restricted to ASCII letters. */
  function ToLower(s: string): (r: string)
    ensures |r| == |s|
    ensures forall i :: 0 <= i < |s| ==> r[i] == if 'A' <= s[i] <= 'Z' then (s[i] as int + 32) as char else s[i]
  {
    if s == [] then ""
    else
      var c := s[0];
      [if 'A' <= c <= 'Z' then (c as int + 32) as char else c] + ToLower(s[1..])
  }

  function DigitValue(c: char): nat
    requires IsDigit(c)
  {
    c as int - '0' as int
  }

  /** The number a string of decimal digits denotes. */
  function DigitsValue(d: string): nat
    requires AllDigits(d)
    decreases |d|
  {
    if d == [] then 0 else DigitsValue(d[..|d| - 1]) * 10 + DigitValue(d[|d| - 1])
  }

  /** The longest prefix made of ASCII digits. */
  function DigitPrefix(s: string): (d: string)
    ensures AllDigits(d) && StartsWith(s, d)
    ensures |d| == |s| || !IsDigit(s[|d|])
  {
    if s != [] && IsDigit(s[0]) then
      var d := [s[0]] + DigitPrefix(s[1..]);
      d
    else ""
  }

  /**
   * `parseInt(value, 10)`: leading whitespace, an optional sign, then the longest
   * run of digits; no digit gives NaN (`None`).
   */
  function ParseInt(s: string): (r: Option<int>)
    ensures r.None? <==> DigitPrefix(SignStripped(TrimStart(s))) == ""
  {
    var d := DigitPrefix(SignStripped(TrimStart(s)));
    if d == "" then None
    else
      var t := TrimStart(s);
      var neg := |t| > 0 && t[0] == '-';
      var v: int := if neg then 0 - DigitsValue(d) else DigitsValue(d);
      Some(v)
  }

  function SignStripped(t: string): string {
    if |t| > 0 && (t[0] == '-' || t[0] == '+') then t[1..] else t
  }

  /** `parseInt(value, 10) || 0`: NaN and zero both become 0. */
  function ParseIntOrZero(s: string): int {
    match ParseInt(s)
    case Some(n) => n
    case None => 0
  }

  function DigitChar(d: nat): (c: char)
    requires d < 10
    ensures IsDigit(c) && DigitValue(c) == d
  {
    ('0' as int + d) as char
  }

  /** Decimal notation of a natural number, without leading zeros. */
  function NatToString(n: nat): (s: string)
    ensures AllDigits(s) && |s| >= 1
    ensures DigitsValue(s) == n
    ensures |s| > 1 ==> s[0] != '0'
    decreases n
  {
    if n < 10 then [DigitChar(n)]
    else
      var s := NatToString(n / 10) + [DigitChar(n % 10)];
      assert s[..|s| - 1] == NatToString(n / 10);
      s
  }

  /** `String(n)` for an integer. */
  function IntToString(n: int): (s: string)
    ensures |s| >= 1
    ensures n >= 0 ==> AllDigits(s)
    ensures n < 0 ==> s[0] == '-' && AllDigits(s[1..])
  {
    if n < 0 then "-" + NatToString(-n) else NatToString(n)
  }

  /** `parseInt` reads back exactly what `String` printed. */
  lemma ParseIntOfIntToString(n: int)
    ensures ParseInt(IntToString(n)) == Some(n)
  {
    var s := IntToString(n);
    assert TrimStart(s) == s;
    var u := SignStripped(s);
    assert u == NatToString(if n < 0 then -n else n);
    DigitPrefixOfDigits(u);
  }

  lemma {:induction false} DigitPrefixOfDigits(s: string)
    requires AllDigits(s)
    ensures DigitPrefix(s) == s
    decreases |s|
  {
    if s != [] {
      DigitPrefixOfDigits(s[1..]);
    }
  }

  /** `padStart(2, '0')`. */
  function PadStart2(s: string): (r: string)
    ensures |r| == if |s| >= 2 then |s| else 2
    ensures EndsWith(r, s)
  {
    if |s| >= 2 then s else Repeat('0', 2 - |s|) + s
  }

  /** `.filter(Boolean)` on strings: the empty ones are dropped, the others kept in order. */
  function NonEmpty(parts: seq<string>): (r: seq<string>)
    ensures |r| <= |parts|
    ensures forall x :: x in r <==> x in parts && x != ""
    ensures (forall i :: 0 <= i < |parts| ==> parts[i] != "") ==> r == parts
    decreases |parts|
  {
    if parts == [] then []
    else (if parts[0] == "" then [] else [parts[0]]) + NonEmpty(parts[1..])
  }

  /** Filtering one more element keeps it exactly when it is not empty. */
  lemma {:induction false} NonEmptyAppend(parts: seq<string>, x: string)
    ensures NonEmpty(parts + [x]) == NonEmpty(parts) + (if x == "" then [] else [x])
    decreases |parts|
  {
    if parts == [] {
      assert NonEmpty([x]) == (if x == "" then [] else [x]) + NonEmpty([]);
    } else {
      assert (parts + [x])[1..] == parts[1..] + [x];
      NonEmptyAppend(parts[1..], x);
    }
  }
}
