/**
 * Dates as the review pages show them (src/utils.js, copied in src/review-page.js):
 * `formatDate` turns `2024-03-05`, `2024.03.05`, `2024/03/05` or `20240305` into
 * `2024년 3월 5일 (화)`, and `formatRelativeDate` turns a day difference into
 * "today", days, weeks, months or years. The calendar (`new Date`, `getDay`) and the
 * clock are parameters: `dayOf` gives the weekday index of an ISO date string, or
 * `None` when JavaScript would find the date invalid, and the relative formatter
 * receives the whole-day difference already computed.
 */
module Dates {
  import opened Text

  const DayNames: seq<string> := ["일", "월", "화", "수", "목", "금", "토"]

  /** `stripZero`: `String(parseInt(v, 10))` when that is a number, else `v` itself. */
  function StripZero(v: string): (r: string)
    ensures ParseInt(v).None? ==> r == v
    ensures ParseInt(v).Some? ==> ParseInt(r) == ParseInt(v)
  {
    match ParseInt(v)
    case None => v
    case Some(n) =>
      ParseIntOfIntToString(n);
      IntToString(n)
  }

  /** The ` (요일)` suffix, empty when the padded date is not a valid `Date`. */
  function WeekdaySuffix(iso: string, dayOf: string -> Option<nat>): string {
    match dayOf(iso)
    case None => ""
    case Some(k) => " (" + DayNames[k % 7] + ")"
  }

  /** `buildDateString`: the stripped numbers in the Korean template, weekday from the padded form. */
  function Build(y: string, m: string, d: string, dayOf: string -> Option<nat>): string {
    var year := StripZero(y);
    var iso := year + "-" + PadStart2(m) + "-" + PadStart2(d);
    year + "년 " + StripZero(m) + "월 " + StripZero(d) + "일" + WeekdaySuffix(iso, dayOf)
  }

  predicate IsDateSeparator(c: char) {
    c == '-' || c == '.' || c == '/'
  }

  /** Every separator becomes `-`, so splitting on `/[-./]/` is splitting on `-`. */
  function UnifySeparators(s: string): (r: string)
    ensures |r| == |s|
    ensures forall i :: 0 <= i < |s| ==> r[i] == if IsDateSeparator(s[i]) then '-' else s[i]
  {
    seq(|s|, i requires 0 <= i < |s| => if IsDateSeparator(s[i]) then '-' else s[i])
  }

  /** `raw.split(/[-./]/).filter(Boolean)`. */
  function DateParts(raw: string): seq<string> {
    NonEmpty(Split(UnifySeparators(raw), '-'))
  }

  /** `formatDate`. */
  function FormatDate(raw: string, dayOf: string -> Option<nat>): (r: string)
    ensures r == "" <==> raw == ""
    ensures raw != "" && |DateParts(raw)| != 3 && |raw| != 8 ==> r == raw
  {
    if raw == "" then ""
    else
      var parts := DateParts(raw);
      if |parts| == 3 then Build(parts[0], parts[1], parts[2], dayOf)
      else if |raw| == 8 then Build(raw[..4], raw[4..6], raw[6..], dayOf)
      else raw
  }

  /** The date as it is meant to read: each number without leading zeros. */
  function DateLabel(y: nat, m: nat, d: nat): string {
    NatToString(y) + "년 " + NatToString(m) + "월 " + NatToString(d) + "일"
  }

  /** `parseInt` then `String` of a run of digits drops the leading zeros. */
  lemma StripZeroOfDigits(s: string)
    requires AllDigits(s) && s != ""
    ensures StripZero(s) == NatToString(DigitsValue(s))
  {
    assert TrimStart(s) == s by {
      assert IsDigit(s[0]) && !IsSpace(s[0]);
    }
    assert SignStripped(s) == s;
    DigitPrefixOfDigits(s);
  }

  lemma UnifyDigits(s: string)
    requires AllDigits(s)
    ensures UnifySeparators(s) == s
  {
  }

  /** A `y-m-d` date of digit runs is shown with its numbers, the weekday taken from the padded form. */
  lemma DashedDate(y: string, m: string, d: string, dayOf: string -> Option<nat>)
    requires AllDigits(y) && AllDigits(m) && AllDigits(d) && y != "" && m != "" && d != ""
    ensures FormatDate(y + "-" + m + "-" + d, dayOf)
      == DateLabel(DigitsValue(y), DigitsValue(m), DigitsValue(d))
         + WeekdaySuffix(NatToString(DigitsValue(y)) + "-" + PadStart2(m) + "-" + PadStart2(d), dayOf)
  {
    ThreeParts(y, m, d, '-');
    StripZeroOfDigits(y);
    StripZeroOfDigits(m);
    StripZeroOfDigits(d);
  }

  /** Any of the three separators splits a date of digit runs into its three numbers. */
  lemma ThreeParts(y: string, m: string, d: string, sep: char)
    requires AllDigits(y) && AllDigits(m) && AllDigits(d) && y != "" && m != "" && d != ""
    requires IsDateSeparator(sep)
    ensures DateParts(y + [sep] + m + [sep] + d) == [y, m, d]
  {
    UnifyThree(y, m, d, sep);
    JoinThree(y, m, d);
    assert '-' !in y && '-' !in m && '-' !in d;
    SplitJoin([y, m, d], '-');
  }

  /** Unifying the separators works piece by piece. */
  lemma UnifyAppend(a: string, b: string)
    ensures UnifySeparators(a + b) == UnifySeparators(a) + UnifySeparators(b)
  {
    var u := UnifySeparators(a + b);
    var v := UnifySeparators(a) + UnifySeparators(b);
    forall i | 0 <= i < |u| ensures u[i] == v[i] {
      if i < |a| { assert (a + b)[i] == a[i]; } else { assert (a + b)[i] == b[i - |a|]; }
    }
  }

  lemma UnifyThree(y: string, m: string, d: string, sep: char)
    requires AllDigits(y) && AllDigits(m) && AllDigits(d)
    requires IsDateSeparator(sep)
    ensures UnifySeparators(y + [sep] + m + [sep] + d) == y + "-" + m + "-" + d
  {
    UnifyAppend(y + [sep] + m + [sep], d);
    UnifyAppend(y + [sep] + m, [sep]);
    UnifyAppend(y + [sep], m);
    UnifyAppend(y, [sep]);
    UnifyDigits(y);
    UnifyDigits(m);
    UnifyDigits(d);
    assert UnifySeparators([sep]) == "-";
  }

  lemma JoinThree(y: string, m: string, d: string)
    ensures Join([y, m, d], "-") == y + "-" + m + "-" + d
  {
    assert [y, m, d][1..] == [m, d] && [m, d][1..] == [d];
    assert Join([m, d], "-") == m + "-" + d;
    assert y + "-" + (m + "-" + d) == y + "-" + m + "-" + d;
  }

  /** `2024.03.05`, `2024/03/05` and `2024-03-05` are formatted alike. */
  lemma SeparatorsAgree(y: string, m: string, d: string, sep: char, dayOf: string -> Option<nat>)
    requires AllDigits(y) && AllDigits(m) && AllDigits(d) && y != "" && m != "" && d != ""
    requires IsDateSeparator(sep)
    ensures FormatDate(y + [sep] + m + [sep] + d, dayOf) == FormatDate(y + "-" + m + "-" + d, dayOf)
  {
    ThreeParts(y, m, d, sep);
    ThreeParts(y, m, d, '-');
  }

  /** The compact `YYYYMMDD` form is formatted like the dashed one. */
  lemma CompactAgrees(y: string, m: string, d: string, dayOf: string -> Option<nat>)
    requires AllDigits(y) && AllDigits(m) && AllDigits(d) && |y| == 4 && |m| == 2 && |d| == 2
    ensures FormatDate(y + m + d, dayOf) == FormatDate(y + "-" + m + "-" + d, dayOf)
  {
    var raw := y + m + d;
    assert AllDigits(raw);
    UnifyDigits(raw);
    assert '-' !in raw;
    assert Split(raw, '-') == [raw];
    assert DateParts(raw) == [raw];
    assert raw[..4] == y && raw[4..6] == m && raw[6..] == d;
    ThreeParts(y, m, d, '-');
  }

  // ---- relative dates -------------------------------------------------------

  datatype Unit = Day | Week | Month | Year

  /** What `formatRelativeDate` says once it knows the day difference. */
  datatype Relative = Today | Ago(n: int, unit: Unit)

  /** The bucketing exactly as the source writes it (its `Math.floor` of a positive number). */
  function BucketAsWritten(diffDays: int): (r: Relative)
    ensures r.Today? <==> diffDays <= 0
    ensures r.Ago? && r.unit == Day ==> r.n == diffDays
  {
    if diffDays <= 0 then Today
    else if diffDays < 7 then Ago(diffDays, Day)
    else if diffDays / 7 < 4 then Ago(diffDays / 7, Week)
    else if diffDays / 30 < 12 then Ago(diffDays / 30, Month)
    else Ago(diffDays / 365, Year)
  }

  /**
   * 28 and 29 days fall through the weeks branch into "0 months", 360 to 364 days
   * give "0 years", and no other day count shows a zero.
   */
  lemma ZeroCountsAsWritten()
    ensures forall d :: 28 <= d < 30 ==> BucketAsWritten(d) == Ago(0, Month)
    ensures forall d :: 360 <= d < 365 ==> BucketAsWritten(d) == Ago(0, Year)
    ensures forall d :: BucketAsWritten(d).Ago? && BucketAsWritten(d).n == 0 ==> 28 <= d < 30 || 360 <= d < 365
  {
  }

  function Max1(n: int): int {
    if n < 1 then 1 else n
  }

  /** The bucketing with the evident intent: a count is never zero. */
  function Bucket(diffDays: int): (r: Relative)
    ensures r.Today? <==> diffDays <= 0
    ensures r.Ago? ==> r.n >= 1
    ensures r.Ago? && r.unit == Day ==> r.n == diffDays && diffDays < 7
    ensures r.Ago? && r.unit == Week ==> 7 <= diffDays < 28 && 7 * r.n <= diffDays < 7 * r.n + 7
    ensures r.Ago? && r.unit == Month ==>
      (28 <= diffDays < 360 && r.n <= 11 && (diffDays >= 30 ==> 30 * r.n <= diffDays < 30 * r.n + 30))
    ensures r.Ago? && r.unit == Year ==>
      (360 <= diffDays && (diffDays >= 365 ==> 365 * r.n <= diffDays < 365 * r.n + 365))
  {
    if diffDays <= 0 then Today
    else if diffDays < 7 then Ago(diffDays, Day)
    else if diffDays / 7 < 4 then Ago(diffDays / 7, Week)
    else if diffDays / 30 < 12 then Ago(Max1(diffDays / 30), Month)
    else Ago(Max1(diffDays / 365), Year)
  }

  /** The correction changes only the two zero-count ranges. */
  lemma BucketAgreesElsewhere(diffDays: int)
    requires !(28 <= diffDays < 30) && !(360 <= diffDays < 365)
    ensures Bucket(diffDays) == BucketAsWritten(diffDays)
  {
  }

  datatype Lang = Ko | En

  /** `RELATIVE_TEXT[lang] || RELATIVE_TEXT.ko`: any code other than `en` reads Korean. */
  function LangOf(code: string): Lang {
    if code == "en" then En else Ko
  }

  function UnitWord(u: Unit): string {
    match u
    case Day => "day"
    case Week => "week"
    case Month => "month"
    case Year => "year"
  }

  function KoreanUnit(u: Unit): string {
    match u
    case Day => "일"
    case Week => "주"
    case Month => "달"
    case Year => "년"
  }

  /** The `RELATIVE_TEXT` tables. */
  function RelativeText(lang: Lang, rel: Relative): string {
    match rel
    case Today => if lang == En then "Today" else "오늘"
    case Ago(n, u) =>
      if lang == En then IntToString(n) + " " + UnitWord(u) + (if n == 1 then "" else "s")
      else IntToString(n) + KoreanUnit(u) + " 전"
  }

  /** English units are plural exactly when the count is not one. */
  lemma EnglishPlural(n: int, u: Unit)
    ensures EndsWith(RelativeText(En, Ago(n, u)), "s") <==> n != 1
  {
    var r := RelativeText(En, Ago(n, u));
    var w := IntToString(n) + " " + UnitWord(u);
    assert w[|w| - 1] == UnitWord(u)[|UnitWord(u)| - 1];
    if n == 1 {
      assert r == w;
    } else {
      assert r == w + "s";
    }
  }

  /**
   * `formatRelativeDate(value, lang)`: empty stays empty, an unparseable value is shown
   * as it is, and anything else is described by its day difference, bucketed as the
   * source writes it.
   */
  function FormatRelativeDate(value: string, langCode: string, diffDays: Option<int>): (r: string)
    ensures value == "" ==> r == ""
    ensures value != "" && diffDays.None? ==> r == value
    ensures value != "" && diffDays.Some? ==> r == RelativeText(LangOf(langCode), BucketAsWritten(diffDays.value))
  {
    if value == "" then ""
    else
      match diffDays
      case None => value
      case Some(d) => RelativeText(LangOf(langCode), BucketAsWritten(d))
  }

  /** Four weeks ago reads "0 months" in English. */
  lemma ZeroMonthsShown(value: string)
    requires value != ""
    ensures FormatRelativeDate(value, "en", Some(28)) == "0 months"
  {
    assert BucketAsWritten(28) == Ago(0, Month);
    assert IntToString(0) == "0";
  }

  /** `formatRelativeDate` with the corrected bucketing. */
  function FormatRelativeDateIntended(value: string, langCode: string, diffDays: Option<int>): (r: string)
    ensures value == "" ==> r == ""
    ensures value != "" && diffDays.None? ==> r == value
    ensures value != "" && diffDays.Some? ==> r == RelativeText(LangOf(langCode), Bucket(diffDays.value))
  {
    if value == "" then ""
    else
      match diffDays
      case None => value
      case Some(d) => RelativeText(LangOf(langCode), Bucket(d))
  }

  /** A described date never reads as a zero count: its number is at least one, unless it is today. */
  lemma NoZeroCount(value: string, langCode: string, d: int)
    requires value != "" && d > 0
    ensures exists n: int, u: Unit ::
      (n >= 1 && FormatRelativeDateIntended(value, langCode, Some(d)) == RelativeText(LangOf(langCode), Ago(n, u)))
  {
    var b := Bucket(d);
    assert FormatRelativeDateIntended(value, langCode, Some(d)) == RelativeText(LangOf(langCode), Ago(b.n, b.unit));
  }

  /** Outside 28-29 and 360-364 days the corrected text is the text the source shows. */
  lemma IntendedAgreesElsewhere(value: string, langCode: string, d: int)
    requires !(28 <= d < 30) && !(360 <= d < 365)
    ensures FormatRelativeDateIntended(value, langCode, Some(d)) == FormatRelativeDate(value, langCode, Some(d))
  {
    BucketAgreesElsewhere(d);
  }
}
