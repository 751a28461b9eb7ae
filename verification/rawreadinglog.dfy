/**
 * The older reading-log pages at the repository root, script.js and reading-heatmap.js.
 * They read books.csv like src/home.js with three differences: the header names are
 * compared exactly as written, a row is kept only when its `title` column is filled, and
 * books are sorted and tallied under the title as written. script.js then lays the year
 * lists out in two columns, the current year and the years before.
 */
module RawReadingLog {
  import opened Text
  import Csv
  import Sorting
  import Tally
  import ReadingLog

  /** One logged reading as these pages use it. A missing year or month is falsy, like 0 here. */
  datatype Entry = Entry(title: string, year: int, month: int)

  /** `{}` before any column is read: no title, no year, no month. */
  const Empty := Entry("", 0, 0)

  /** The field of every column, decided by the header exactly as written. */
  function Fields(headers: seq<string>): (r: seq<ReadingLog.Field>)
    ensures |r| == |headers|
    ensures forall i :: 0 <= i < |headers| ==> r[i] == ReadingLog.FieldOf(headers[i])
  {
    seq(|headers|, i requires 0 <= i < |headers| => ReadingLog.FieldOf(headers[i]))
  }

  /**
   * One step of `headers.forEach`: a `year` or `month` column goes through
   * `parseInt(value, 10) || 0` without trimming, a `title` column is trimmed, and the
   * other columns are stored under names no page reads.
   */
  function ApplyCell(e: Entry, f: ReadingLog.Field, cell: string): Entry {
    match f
    case Year => e.(year := ParseIntOrZero(Csv.Unquote(cell)))
    case Month => e.(month := ParseIntOrZero(Csv.Unquote(cell)))
    case Title => e.(title := Trim(Csv.Unquote(cell)))
    case _ => e
  }

  /** The entry after the first `n` columns have been applied, in order. */
  function Fill(fields: seq<ReadingLog.Field>, cols: seq<string>, n: nat): Entry
    requires n <= |fields|
    decreases n
  {
    if n == 0 then Empty
    else ApplyCell(Fill(fields, cols, n - 1), fields[n - 1], Csv.Cell(cols, n - 1))
  }

  /** The field `f` still holds its starting value: no title, no year, no month. */
  predicate Untouched(e: Entry, f: ReadingLog.Field) {
    match f
    case Title => e.title == ""
    case Year => e.year == 0
    case Month => e.month == 0
    case _ => true
  }

  /** A cell leaves alone the fields its column does not denote. */
  lemma ApplyCellKeeps(e: Entry, g: ReadingLog.Field, cell: string, f: ReadingLog.Field)
    requires g != f && Untouched(e, f)
    ensures Untouched(ApplyCell(e, g, cell), f)
  {
  }

  /** Whatever the columns, the title an entry holds is trimmed. */
  lemma {:induction false} FillBare(fields: seq<ReadingLog.Field>, cols: seq<string>, n: nat)
    requires n <= |fields|
    ensures Bare(Fill(fields, cols, n).title)
    decreases n
  {
    if n > 0 {
      FillBare(fields, cols, n - 1);
      ApplyBare(Fill(fields, cols, n - 1), fields[n - 1], Csv.Cell(cols, n - 1));
    }
  }

  lemma ApplyBare(e: Entry, f: ReadingLog.Field, cell: string)
    requires Bare(e.title)
    ensures Bare(ApplyCell(e, f, cell).title)
  {
    var t := Trim(Csv.Unquote(cell));
    assert Bare(t);
  }

  /** A field that no column denotes keeps its starting value. */
  lemma {:induction false} FillUntouched(fields: seq<ReadingLog.Field>, cols: seq<string>, n: nat, f: ReadingLog.Field)
    requires n <= |fields|
    requires forall i :: 0 <= i < n ==> fields[i] != f
    ensures Untouched(Fill(fields, cols, n), f)
    decreases n
  {
    if n > 0 {
      FillUntouched(fields, cols, n - 1, f);
      ApplyCellKeeps(Fill(fields, cols, n - 1), fields[n - 1], Csv.Cell(cols, n - 1), f);
    }
  }

  /** `entry.title && entry.year && entry.month`: the English title does not count. */
  predicate Keep(e: Entry) {
    e.title != "" && e.year != 0 && e.month != 0
  }

  /** The entry one row makes. */
  function RowEntry(headers: seq<string>, line: string): Entry {
    Fill(Fields(headers), Split(line, ','), |headers|)
  }

  /** One row of the `reduce`: blank rows and rows without a title or a date are dropped. */
  function ParseRow(headers: seq<string>, line: string): (r: Option<Entry>)
    ensures r.None? <==> Csv.BlankRow(line) || !Keep(RowEntry(headers, line))
    ensures r.Some? ==> r.value == RowEntry(headers, line) && Bare(r.value.title)
  {
    if Csv.BlankRow(line) then None
    else
      var e := RowEntry(headers, line);
      FillBare(Fields(headers), Split(line, ','), |headers|);
      if Keep(e) then Some(e) else None
  }

  /** The rows that survive, in file order. */
  function ParseRows(headers: seq<string>, rows: seq<string>): (r: seq<Entry>)
    ensures |r| <= |rows|
    ensures forall e :: e in r ==> Keep(e) && Bare(e.title)
    decreases |rows|
  {
    if rows == [] then []
    else
      var rest := ParseRows(headers, rows[1..]);
      match ParseRow(headers, rows[0])
      case None => rest
      case Some(e) => [e] + rest
  }

  /** `parseCSV(text)`: the first line names the columns, every later line is a row. */
  function ParseCsv(text: string): (r: seq<Entry>)
    ensures |r| < |Csv.Lines(text)|
    ensures forall e :: e in r ==> Keep(e) && Bare(e.title)
  {
    var lines := Csv.Lines(text);
    ParseRows(Split(lines[0], ','), lines[1..])
  }

  /**
   * Without a header spelled exactly `title`, `year` and `month` nothing is kept: a
   * header ` Title` or a last header `month\r` from a file with Windows line ends
   * empties the whole log.
   */
  lemma {:induction false} MissingColumnDropsAll(headers: seq<string>, rows: seq<string>)
    requires "title" !in headers || "year" !in headers || "month" !in headers
    ensures ParseRows(headers, rows) == []
    decreases |rows|
  {
    if rows != [] {
      MissingColumnDropsAll(headers, rows[1..]);
      var fields := Fields(headers);
      var cols := Split(rows[0], ',');
      if "title" !in headers {
        FillUntouched(fields, cols, |headers|, ReadingLog.Title);
      } else if "year" !in headers {
        FillUntouched(fields, cols, |headers|, ReadingLog.Year);
      } else {
        FillUntouched(fields, cols, |headers|, ReadingLog.Month);
      }
      assert ParseRow(headers, rows[0]).None?;
    }
  }

  /** The two header lines named above, as they are cut at the commas. */
  lemma PaddedHeadersDropAll(rows: seq<string>)
    ensures ParseRows([" Title", "year", "month"], rows) == []
    ensures ParseRows(["title", "english-title", "year", "month\r"], rows) == []
  {
    MissingColumnDropsAll([" Title", "year", "month"], rows);
    assert "month\r" != "month";
    MissingColumnDropsAll(["title", "english-title", "year", "month\r"], rows);
  }

  // ----- Order -----

  /** `sortBooksDesc` read as an order: newer year first, then newer month, then the titles as written in `collate` order. */
  function NewestFirst(collate: (string, string) -> bool): (Entry, Entry) -> bool {
    (a: Entry, b: Entry) =>
      a.year > b.year || (a.year == b.year && (a.month > b.month || (a.month == b.month && collate(a.title, b.title))))
  }

  lemma NewestFirstIsPreorder(collate: (string, string) -> bool)
    requires Sorting.TotalPreorder(collate)
    ensures Sorting.TotalPreorder(NewestFirst(collate))
  {
    var le := NewestFirst(collate);
    forall a: Entry, b: Entry ensures le(a, b) || le(b, a) {
      assert collate(a.title, b.title) || collate(b.title, a.title);
    }
    forall a: Entry, b: Entry, c: Entry | le(a, b) && le(b, c) ensures le(a, c) {
      if a.year == b.year == c.year && a.month == b.month == c.month {
        assert collate(a.title, b.title) && collate(b.title, c.title);
      }
    }
  }

  /** `parseCSV(csv).sort(sortBooksDesc)`: the same entries, rearranged. */
  function SortEntries(entries: seq<Entry>, collate: (string, string) -> bool): (r: seq<Entry>)
    ensures multiset(r) == multiset(entries)
  {
    Sorting.Sort(entries, NewestFirst(collate))
  }

  /** The sorted log runs from the newest year and month to the oldest, ties in raw title order. */
  lemma SortEntriesOrder(entries: seq<Entry>, collate: (string, string) -> bool)
    requires Sorting.TotalPreorder(collate)
    ensures var r := SortEntries(entries, collate);
      forall i, j :: 0 <= i < j < |r| ==>
        && r[i].year >= r[j].year
        && (r[i].year == r[j].year ==> r[i].month >= r[j].month)
        && (r[i].year == r[j].year && r[i].month == r[j].month ==> collate(r[i].title, r[j].title))
  {
    NewestFirstIsPreorder(collate);
    Sorting.SortSorted(entries, NewestFirst(collate));
  }

  // ----- Derived data -----

  function YearKey(e: Entry): Option<int> {
    Some(e.year)
  }

  function CellKey(e: Entry): Option<string> {
    Some(Tally.MonthKey(e.year, e.month))
  }

  /** `const key = book.title`: the title as written, with no fallback. */
  function TitleKey(e: Entry): Option<string> {
    Some(e.title)
  }

  function Snap(e: Entry): int {
    Tally.Snapshot(e.year, e.month)
  }

  /** The order inside a year list: newer month first, then the titles as written in `collate` order. */
  function MonthThenTitle(collate: (string, string) -> bool): (Entry, Entry) -> bool {
    (a: Entry, b: Entry) => a.month > b.month || (a.month == b.month && collate(a.title, b.title))
  }

  /** `state.booksByYear`, `state.heatmapBuckets`, and in script.js `state.bookCounts` and `state.latestMonth`. */
  datatype Derived = Derived(
    byYear: map<int, seq<Entry>>,
    cells: map<string, seq<Entry>>,
    counts: map<string, nat>,
    latest: map<string, int>)

  /**
   * `buildDerivedData`: every entry goes to its year list and its month cell and is
   * counted under its title as written. reading-heatmap.js builds only the first two.
   */
  function BuildDerived(entries: seq<Entry>, collate: (string, string) -> bool): (d: Derived)
    ensures forall y :: y in d.byYear <==> y in YearsOf(entries)
    ensures forall y :: y in d.byYear ==> multiset(d.byYear[y]) == multiset(Tally.Select(entries, YearKey, y))
    ensures forall k :: k in d.cells <==> Tally.Select(entries, CellKey, k) != []
    ensures forall k :: k in d.cells ==> d.cells[k] == Tally.Select(entries, CellKey, k)
    ensures forall t :: t in d.counts <==> exists e :: e in entries && e.title == t
    ensures forall t :: t in d.counts ==> d.counts[t] == |Tally.Select(entries, TitleKey, t)|
  {
    YearBuckets(entries);
    Tally.GroupAll(entries, CellKey);
    TitleCounts(entries);
    Derived(
      Sorting.SortEach(Tally.Group(entries, YearKey), MonthThenTitle(collate)),
      Tally.Group(entries, CellKey),
      Tally.Count(entries, TitleKey),
      Tally.Latest(entries, TitleKey, Snap))
  }

  lemma MonthThenTitleIsPreorder(collate: (string, string) -> bool)
    requires Sorting.TotalPreorder(collate)
    ensures Sorting.TotalPreorder(MonthThenTitle(collate))
  {
    var le := MonthThenTitle(collate);
    forall a: Entry, b: Entry ensures le(a, b) || le(b, a) {
      assert collate(a.title, b.title) || collate(b.title, a.title);
    }
    forall a: Entry, b: Entry, c: Entry | le(a, b) && le(b, c) ensures le(a, c) {
      if a.month == b.month == c.month {
        assert collate(a.title, b.title) && collate(b.title, c.title);
      }
    }
  }

  /** A year list is its year's entries, in log order, sorted once more. */
  lemma YearListIsSorted(entries: seq<Entry>, collate: (string, string) -> bool, y: int)
    requires y in BuildDerived(entries, collate).byYear
    ensures BuildDerived(entries, collate).byYear[y] == Sorting.Sort(Tally.Select(entries, YearKey, y), MonthThenTitle(collate))
  {
    YearBuckets(entries);
  }

  /** A permutation of the entries of one year holds only that year. */
  lemma OnlyItsYear(entries: seq<Entry>, list: seq<Entry>, y: int)
    requires multiset(list) == multiset(Tally.Select(entries, YearKey, y))
    ensures forall i :: 0 <= i < |list| ==> list[i].year == y
  {
    forall i | 0 <= i < |list| ensures list[i].year == y {
      assert list[i] in multiset(list);
      assert list[i] in Tally.Select(entries, YearKey, y);
    }
  }

  lemma MonthThenTitleOrder(list: seq<Entry>, collate: (string, string) -> bool)
    requires Sorting.Sorted(list, MonthThenTitle(collate))
    ensures forall i, j :: 0 <= i < j < |list| ==> list[i].month >= list[j].month
    ensures forall i, j :: 0 <= i < j < |list| && list[i].month == list[j].month ==> collate(list[i].title, list[j].title)
  {
    forall i, j | 0 <= i < j < |list| ensures list[i].month >= list[j].month {
      assert MonthThenTitle(collate)(list[i], list[j]);
    }
    forall i, j | 0 <= i < j < |list| && list[i].month == list[j].month
      ensures collate(list[i].title, list[j].title)
    {
      assert MonthThenTitle(collate)(list[i], list[j]);
    }
  }

  /** Each year list holds only its year, ordered by month, newest first, then by the title as written. */
  lemma YearListSorted(entries: seq<Entry>, collate: (string, string) -> bool, y: int)
    requires Sorting.TotalPreorder(collate)
    requires y in BuildDerived(entries, collate).byYear
    ensures var list := BuildDerived(entries, collate).byYear[y];
      && (forall i :: 0 <= i < |list| ==> list[i].year == y)
      && (forall i, j :: 0 <= i < j < |list| ==> list[i].month >= list[j].month)
      && (forall i, j :: 0 <= i < j < |list| && list[i].month == list[j].month ==> collate(list[i].title, list[j].title))
  {
    var list := BuildDerived(entries, collate).byYear[y];
    YearListIsSorted(entries, collate, y);
    OnlyItsYear(entries, list, y);
    MonthThenTitleIsPreorder(collate);
    Sorting.SortSorted(Tally.Select(entries, YearKey, y), MonthThenTitle(collate));
    MonthThenTitleOrder(list, collate);
  }

  /** A year list exists exactly for the years of the log and holds that year's entries. */
  lemma YearBuckets(entries: seq<Entry>)
    ensures forall y :: y in Tally.Group(entries, YearKey) <==> y in YearsOf(entries)
    ensures forall y :: y in Tally.Group(entries, YearKey) ==> Tally.Group(entries, YearKey)[y] == Tally.Select(entries, YearKey, y)
  {
    Tally.GroupAll(entries, YearKey);
    YearsOfMembers(entries);
    forall y ensures Tally.Select(entries, YearKey, y) != [] <==> y in YearsOf(entries) {
      var sel := Tally.Select(entries, YearKey, y);
      if sel != [] {
        assert sel[0] in sel;
      }
    }
  }

  /** A count exists exactly for the titles of the log and is the number of their readings. */
  lemma TitleCounts(entries: seq<Entry>)
    ensures forall t :: t in Tally.Count(entries, TitleKey) <==> exists e :: e in entries && e.title == t
    ensures forall t :: t in Tally.Count(entries, TitleKey) ==> Tally.Count(entries, TitleKey)[t] == |Tally.Select(entries, TitleKey, t)|
  {
    Tally.CountAll(entries, TitleKey);
    forall t ensures Tally.Select(entries, TitleKey, t) != [] <==> exists e :: e in entries && e.title == t {
      var sel := Tally.Select(entries, TitleKey, t);
      if sel != [] {
        assert sel[0] in sel;
      }
    }
  }

  /** A title read more than once shows its badge on a reading of its latest month and on no older one. */
  lemma RereadBadge(entries: seq<Entry>, collate: (string, string) -> bool, t: string)
    requires t in BuildDerived(entries, collate).counts && BuildDerived(entries, collate).counts[t] > 1
    ensures var d := BuildDerived(entries, collate);
      && (exists e :: e in entries && e.title == t && Tally.Badge(d.counts, d.latest, t, Snap(e)))
      && (forall e, f :: (e in entries && f in entries && e.title == t && f.title == t
            && Tally.Badge(d.counts, d.latest, t, Snap(e))) ==> Snap(f) <= Snap(e))
  {
    Tally.RereadBadge(entries, TitleKey, Snap, t);
  }

  // ----- The two columns -----

  /** The year of every entry, in log order. */
  function YearsOf(entries: seq<Entry>): (r: seq<int>)
    ensures |r| == |entries|
    ensures forall i :: 0 <= i < |entries| ==> r[i] == entries[i].year
  {
    seq(|entries|, i requires 0 <= i < |entries| => entries[i].year)
  }

  lemma YearsOfMembers(entries: seq<Entry>)
    ensures forall y :: y in YearsOf(entries) <==> exists e :: e in entries && e.year == y
  {
    var ys := YearsOf(entries);
    forall y | y in ys ensures exists e :: e in entries && e.year == y {
      var i :| 0 <= i < |ys| && ys[i] == y;
      assert entries[i] in entries;
    }
  }

  /** Strictly decreasing: every year at most once, newest first. */
  predicate Descending(s: seq<int>) {
    forall i, j :: 0 <= i < j < |s| ==> s[i] > s[j]
  }

  /** In a descending list every later year is older than the first. */
  lemma TailBelowHead(s: seq<int>)
    requires Descending(s) && s != []
    ensures forall y :: y in s[1..] ==> y < s[0]
  {
    forall y | y in s[1..] ensures y < s[0] {
      var k :| 0 <= k < |s[1..]| && s[1..][k] == y;
      assert s[k + 1] == y;
    }
  }

  /** A year older than every year of a descending list can head it. */
  lemma PrependDescending(x: int, s: seq<int>)
    requires Descending(s)
    requires forall y :: y in s ==> y < x
    ensures Descending([x] + s)
  {
    var r := [x] + s;
    forall i, j | 0 <= i < j < |r| ensures r[i] > r[j] {
      assert r[j] == s[j - 1];
      if i > 0 {
        assert r[i] == s[i - 1];
      } else {
        assert s[j - 1] in s;
      }
    }
  }

  /** Adds a year to a descending list, in its place, unless it is there already. */
  function InsertYear(y: int, s: seq<int>): (r: seq<int>)
    requires Descending(s)
    ensures Descending(r)
    ensures forall z :: z in r <==> z == y || z in s
    decreases |s|
  {
    if s == [] then [y]
    else if y > s[0] then [y] + s
    else if y == s[0] then s
    else
      var rest := InsertYear(y, s[1..]);
      TailBelowHead(s);
      PrependDescending(s[0], rest);
      [s[0]] + rest
  }

  /** `Array.from(state.booksByYear.keys()).sort((a, b) => b - a)`: the distinct years, newest first. */
  function YearsDescending(years: seq<int>): (r: seq<int>)
    ensures Descending(r)
    ensures forall z :: z in r <==> z in years
    decreases |years|
  {
    if years == [] then []
    else
      var rest := YearsDescending(years[1..]);
      assert forall z :: z in years <==> z == years[0] || z in years[1..];
      InsertYear(years[0], rest)
  }

  /** Two descending lists of the same years are the same list, so the order of the keys does not matter. */
  lemma {:induction false} DescendingUnique(a: seq<int>, b: seq<int>)
    requires Descending(a) && Descending(b)
    requires forall z :: z in a <==> z in b
    ensures a == b
    decreases |a|
  {
    assert |a| == 0 || a[0] in a;
    assert |b| == 0 || b[0] in b;
    if a != [] {
      assert a[0] in b && b != [];
      assert b[0] in a;
      assert a[0] == b[0];
      forall z ensures z in a[1..] <==> z in b[1..] {
        assert z in a[1..] ==> z < a[0];
        assert z in b[1..] ==> z < b[0];
        assert z in a <==> z == a[0] || z in a[1..];
        assert z in b <==> z == b[0] || z in b[1..];
      }
      DescendingUnique(a[1..], b[1..]);
      assert a == [a[0]] + a[1..] && b == [b[0]] + b[1..];
    }
  }

  /** The `forEach` of `renderBookColumns`: the current year goes left, every other year right, in order. */
  function Sections(years: seq<int>, current: int): (r: (seq<int>, seq<int>))
    ensures forall y :: y in r.0 <==> y in years && y == current
    ensures forall y :: y in r.1 <==> y in years && y != current
    decreases |years|
  {
    if years == [] then ([], [])
    else
      var rest := Sections(years[1..], current);
      assert forall y :: y in years <==> y == years[0] || y in years[1..];
      if years[0] == current then ([years[0]] + rest.0, rest.1)
      else (rest.0, [years[0]] + rest.1)
  }

  /** Splitting a descending list keeps both halves descending. */
  lemma {:induction false} SectionsDescending(years: seq<int>, current: int)
    requires Descending(years)
    ensures Descending(Sections(years, current).0) && Descending(Sections(years, current).1)
    decreases |years|
  {
    if years != [] {
      SectionsDescending(years[1..], current);
      var rest := Sections(years[1..], current);
      TailBelowHead(years);
      if years[0] == current {
        PrependDescending(years[0], rest.0);
      } else {
        PrependDescending(years[0], rest.1);
      }
    }
  }

  /** The two columns of the page: the year sections of the current year and of all the others. */
  function Columns(entries: seq<Entry>, current: int): (seq<int>, seq<int>) {
    Sections(YearsDescending(YearsOf(entries)), current)
  }

  /**
   * Every year of the log heads exactly one section, in exactly one column; the left
   * column is the current year alone when it was logged and empty otherwise; the right
   * column lists the other years newest first.
   */
  lemma ColumnsSplit(entries: seq<Entry>, current: int)
    ensures var (left, right) := Columns(entries, current);
      && (forall y :: (y in left || y in right) <==> exists e :: e in entries && e.year == y)
      && (forall y :: !(y in left && y in right))
      && left == (if exists e :: e in entries && e.year == current then [current] else [])
      && Descending(right)
  {
    var ys := YearsDescending(YearsOf(entries));
    YearsOfMembers(entries);
    SectionsDescending(ys, current);
    var left := Sections(ys, current).0;
    assert |left| == 0 || left[0] in left;
    if exists e :: e in entries && e.year == current {
      DescendingUnique(left, [current]);
    }
  }
}
