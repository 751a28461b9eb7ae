/**
 * The reading log of src/home.js (its data logic is copied line for line into
 * src/script.js): rows of books.csv become books, the books are sorted newest first,
 * grouped into year lists and month cells, tallied per title for the reread badge, and
 * matched against the reviews by title.
 */
module ReadingLog {
  import opened Text
  import Csv
  import Sorting
  import Tally
  import Assoc

  /** One logged reading. A missing year or month is falsy in the source, like 0 here. */
  datatype Book = Book(title: string, englishTitle: string, year: int, month: int)

  /** `{ title: '', englishTitle: '' }` before any column is read. */
  const Empty := Book("", "", 0, 0)

  /** `header.trim().toLowerCase()`. */
  function HeaderName(header: string): string {
    ToLower(Trim(header))
  }

  /** The two titles are stored trimmed. */
  predicate Trimmed(b: Book) {
    Bare(b.title) && Bare(b.englishTitle)
  }

  /** What a column is read into, decided by its header name. */
  datatype Field = Title | EnglishTitle | Year | Month | Ignored

  /** The `if` chain on `headerName`: the four known names, anything else is ignored. */
  function FieldOf(name: string): (r: Field)
    ensures r == Title <==> name == "title"
    ensures r == EnglishTitle <==> name == "english-title"
    ensures r == Year <==> name == "year"
    ensures r == Month <==> name == "month"
  {
    if name == "year" then Year
    else if name == "month" then Month
    else if name == "english-title" then EnglishTitle
    else if name == "title" then Title
    else Ignored
  }

  /** The field of every column, in order. */
  function Fields(headers: seq<string>): (r: seq<Field>)
    ensures |r| == |headers|
    ensures forall i :: 0 <= i < |headers| ==> r[i] == FieldOf(HeaderName(headers[i]))
  {
    seq(|headers|, i requires 0 <= i < |headers| => FieldOf(HeaderName(headers[i])))
  }

  /** `cell.replace(...)` then `trim()`: a cell as it is stored. */
  function Clean(cell: string): string {
    Trim(Csv.Unquote(cell))
  }

  /**
   * One step of `headers.forEach`: the cleaned cell goes to the field the column
   * denotes, a number through `parseInt(value, 10) || 0`.
   */
  function ApplyCell(b: Book, f: Field, cell: string): Book {
    match f
    case Year => b.(year := ParseIntOrZero(Clean(cell)))
    case Month => b.(month := ParseIntOrZero(Clean(cell)))
    case EnglishTitle => b.(englishTitle := Clean(cell))
    case Title => b.(title := Clean(cell))
    case Ignored => b
  }

  /** A cell changes only the field its column denotes. */
  lemma ApplyCellFields(b: Book, f: Field, cell: string)
    ensures var r := ApplyCell(b, f, cell);
      && r.title == (if f == Title then Clean(cell) else b.title)
      && r.englishTitle == (if f == EnglishTitle then Clean(cell) else b.englishTitle)
      && r.year == (if f == Year then ParseIntOrZero(Clean(cell)) else b.year)
      && r.month == (if f == Month then ParseIntOrZero(Clean(cell)) else b.month)
  {
  }

  /** The entry after the first `n` columns have been applied, in order. */
  function Fill(fields: seq<Field>, cols: seq<string>, n: nat): Book
    requires n <= |fields|
    decreases n
  {
    if n == 0 then Empty
    else ApplyCell(Fill(fields, cols, n - 1), fields[n - 1], Csv.Cell(cols, n - 1))
  }

  /** Whatever the columns, the titles an entry holds are trimmed. */
  lemma {:induction false} FillTrimmed(fields: seq<Field>, cols: seq<string>, n: nat)
    requires n <= |fields|
    ensures Trimmed(Fill(fields, cols, n))
    decreases n
  {
    if n > 0 {
      FillTrimmed(fields, cols, n - 1);
      ApplyTrimmed(Fill(fields, cols, n - 1), fields[n - 1], Csv.Cell(cols, n - 1));
    }
  }

  lemma ApplyTrimmed(b: Book, f: Field, cell: string)
    requires Trimmed(b)
    ensures Trimmed(ApplyCell(b, f, cell))
  {
    var c := Clean(cell);
    assert Bare(c);
  }

  /** `(entry.title || entry.englishTitle) && entry.year && entry.month`. */
  predicate Keep(b: Book) {
    (b.title != "" || b.englishTitle != "") && b.year != 0 && b.month != 0
  }

  /** The entry one row makes. */
  function RowEntry(headers: seq<string>, line: string): Book {
    Fill(Fields(headers), Text.Split(line, ','), |headers|)
  }

  /** One row of the `reduce`: blank rows and rows without a title or a date are dropped. */
  function ParseRow(headers: seq<string>, line: string): (r: Option<Book>)
    ensures r.None? <==> Csv.BlankRow(line) || !Keep(RowEntry(headers, line))
    ensures r.Some? ==> r.value == RowEntry(headers, line) && Trimmed(r.value)
  {
    if Csv.BlankRow(line) then None
    else
      var b := RowEntry(headers, line);
      FillTrimmed(Fields(headers), Text.Split(line, ','), |headers|);
      if Keep(b) then Some(b) else None
  }

  /** The rows that survive, in file order. */
  function ParseRows(headers: seq<string>, rows: seq<string>): (r: seq<Book>)
    ensures |r| <= |rows|
    ensures forall b :: b in r ==> Keep(b) && Trimmed(b)
    decreases |rows|
  {
    if rows == [] then []
    else
      var rest := ParseRows(headers, rows[1..]);
      match ParseRow(headers, rows[0])
      case None => rest
      case Some(b) => [b] + rest
  }

  /** `parseCSV(text)`: the first line names the columns, every later line is a row. */
  function ParseCsv(text: string): (r: seq<Book>)
    ensures |r| < |Csv.Lines(text)|
    ensures forall b :: b in r ==> Keep(b) && Trimmed(b)
  {
    var lines := Csv.Lines(text);
    ParseRows(Text.Split(lines[0], ','), lines[1..])
  }

  /** A header row ` Title ,YEAR` reads every row the same as `title,year`. */
  lemma HeadersIgnoreCaseAndSpace(h1: seq<string>, h2: seq<string>, line: string)
    requires |h1| == |h2|
    requires forall i :: 0 <= i < |h1| ==> HeaderName(h1[i]) == HeaderName(h2[i])
    ensures ParseRow(h1, line) == ParseRow(h2, line)
  {
    assert Fields(h1) == Fields(h2);
  }

  // ----- Writing a log and reading it back -----

  const HeaderLine := "title,english-title,year,month"

  /** The four column names, in the order the log is written. */
  const ColumnNames := ["title", "english-title", "year", "month"]

  /** Column fields that are the four columns in the order the log is written. */
  predicate StandardFields(fields: seq<Field>) {
    |fields| == 4 && fields[0] == Title && fields[1] == EnglishTitle && fields[2] == Year && fields[3] == Month
  }

  /** Headers naming the four columns in the order the log is written. */
  predicate StandardHeaders(headers: seq<string>) {
    && |headers| == 4
    && FieldOf(HeaderName(headers[0])) == Title && FieldOf(HeaderName(headers[1])) == EnglishTitle
    && FieldOf(HeaderName(headers[2])) == Year && FieldOf(HeaderName(headers[3])) == Month
  }

  /** A title that survives the naive format: no comma or newline, no outer space, no leading quote. */
  predicate PlainText(s: string) {
    ',' !in s && '\n' !in s && Bare(s) && (s == [] || s[0] != '"')
  }

  predicate Writable(b: Book) {
    Keep(b) && PlainText(b.title) && PlainText(b.englishTitle)
  }

  function EncodeRow(b: Book): string {
    b.title + "," + b.englishTitle + "," + IntToString(b.year) + "," + IntToString(b.month)
  }

  function EncodeRows(books: seq<Book>): (r: seq<string>)
    ensures |r| == |books|
    ensures forall i :: 0 <= i < |books| ==> r[i] == EncodeRow(books[i])
  {
    seq(|books|, i requires 0 <= i < |books| => EncodeRow(books[i]))
  }

  lemma NumberHasNoSeparator(n: int, c: char)
    requires c == ',' || c == '\n'
    ensures c !in IntToString(n)
  {
    var s := IntToString(n);
    if n < 0 {
      forall i | 0 <= i < |s| ensures s[i] != c {
        if i > 0 {
          assert s[i] == s[1..][i - 1];
        }
      }
    }
  }

  /** A lower-case name with no outer space is its own header name. */
  lemma OwnHeaderName(s: string)
    requires Bare(s) && forall c :: c in s ==> !('A' <= c <= 'Z')
    ensures HeaderName(s) == s
  {
    TrimIdentity(s);
    forall i | 0 <= i < |s| ensures ToLower(s)[i] == s[i] {
      assert s[i] in s;
    }
  }

  lemma HeaderLineParts()
    ensures Text.Split(HeaderLine, ',') == ColumnNames
  {
    HeaderLineJoin();
    NamesHaveNoComma();
    SplitJoin(ColumnNames, ',');
  }

  lemma NamesHaveNoComma()
    ensures forall i :: 0 <= i < |ColumnNames| ==> ',' !in ColumnNames[i]
  {
  }

  lemma HeaderLineJoin()
    ensures Join(ColumnNames, ",") == HeaderLine
  {
    JoinLastTwo();
    JoinLastThree();
    JoinCons("title", ["english-title", "year", "month"], ",");
  }

  lemma JoinLastTwo()
    ensures Join(["year", "month"], ",") == "year,month"
  {
    JoinCons("year", ["month"], ",");
  }

  lemma JoinLastThree()
    ensures Join(["english-title", "year", "month"], ",") == "english-title,year,month"
  {
    JoinLastTwo();
    JoinCons("english-title", ["year", "month"], ",");
  }

  lemma TitleColumn()
    ensures FieldOf(HeaderName(ColumnNames[0])) == Title
  {
    OwnHeaderName("title");
  }

  lemma EnglishTitleColumn()
    ensures FieldOf(HeaderName(ColumnNames[1])) == EnglishTitle
  {
    assert ColumnNames[1] == "english-title";
    EnglishTitleName();
    FieldOfEnglishTitle();
  }

  lemma FieldOfEnglishTitle()
    ensures FieldOf("english-title") == EnglishTitle
  {
  }

  lemma EnglishTitleName()
    ensures HeaderName("english-title") == "english-title"
  {
    OwnHeaderName("english-title");
  }

  lemma YearColumn()
    ensures FieldOf(HeaderName(ColumnNames[2])) == Year
  {
    OwnHeaderName("year");
  }

  lemma MonthColumn()
    ensures FieldOf(HeaderName(ColumnNames[3])) == Month
  {
    OwnHeaderName("month");
  }

  /** The names the log is written with are the standard headers. */
  lemma StandardParts()
    ensures StandardHeaders(ColumnNames)
  {
    TitleColumn();
    EnglishTitleColumn();
    YearColumn();
    MonthColumn();
  }

  /** The header line the log is written with names the four columns. */
  lemma StandardHeaderLine()
    ensures StandardHeaders(Text.Split(HeaderLine, ','))
  {
    HeaderLineParts();
    StandardParts();
  }

  /** The four cells a book is written as. */
  function Cells(b: Book): seq<string> {
    [b.title, b.englishTitle, IntToString(b.year), IntToString(b.month)]
  }

  /** The book four cells read as: titles cleaned, numbers through `parseInt(value, 10) || 0`. */
  function ReadCells(cols: seq<string>): Book
    requires |cols| == 4
  {
    Book(Clean(cols[0]), Clean(cols[1]), ParseIntOrZero(Clean(cols[2])), ParseIntOrZero(Clean(cols[3])))
  }

  /** Four cells that, once unquoted, trimmed and parsed, give back the fields of `b`. */
  predicate ReadsAs(cols: seq<string>, b: Book) {
    |cols| == 4 && ReadCells(cols) == b
  }

  lemma RowCells(b: Book)
    requires Writable(b)
    ensures Text.Split(EncodeRow(b), ',') == Cells(b)
    ensures !Csv.BlankRow(EncodeRow(b))
  {
    RowJoin(b);
    NumberHasNoSeparator(b.year, ',');
    NumberHasNoSeparator(b.month, ',');
    SplitJoin(Cells(b), ',');
    RowNotBlank(b);
  }

  lemma RowJoin(b: Book)
    ensures Join(Cells(b), ",") == EncodeRow(b)
  {
    var y, m := IntToString(b.year), IntToString(b.month);
    JoinCons(y, [m], ",");
    JoinCons(b.englishTitle, [y, m], ",");
    JoinCons(b.title, [b.englishTitle, y, m], ",");
  }

  /** A written row holds a comma, so it is never blank. */
  lemma RowNotBlank(b: Book)
    ensures !Csv.BlankRow(EncodeRow(b))
  {
    var line := EncodeRow(b);
    assert line[|b.title|] == ',';
    TrimToEmpty(line);
  }

  /** Each field of a written row is read back unchanged. */
  lemma RowValues(b: Book)
    requires Writable(b)
    ensures ReadsAs(Cells(b), b)
  {
    ReadWritten(b);
    TwoTitles(b);
    TwoNumbers(b);
  }

  lemma ReadWritten(b: Book)
    ensures ReadCells(Cells(b)) == Book(Clean(b.title), Clean(b.englishTitle),
      ParseIntOrZero(Clean(IntToString(b.year))), ParseIntOrZero(Clean(IntToString(b.month))))
  {
  }

  lemma TwoTitles(b: Book)
    requires Writable(b)
    ensures Clean(b.title) == b.title && Clean(b.englishTitle) == b.englishTitle
  {
    TextCell(b.title);
    TextCell(b.englishTitle);
  }

  lemma TwoNumbers(b: Book)
    ensures ParseIntOrZero(Clean(IntToString(b.year))) == b.year
    ensures ParseIntOrZero(Clean(IntToString(b.month))) == b.month
  {
    NumberCell(b.year);
    NumberCell(b.month);
  }

  lemma TextCell(s: string)
    requires PlainText(s)
    ensures Clean(s) == s
  {
    Csv.PlainCell(s);
  }

  lemma NumberCell(n: int)
    ensures ParseIntOrZero(Clean(IntToString(n))) == n
  {
    Csv.NumberCellValue(n);
  }

  lemma StandardHeaderFields(headers: seq<string>)
    requires StandardHeaders(headers)
    ensures StandardFields(Fields(headers))
  {
    var fs := Fields(headers);
    assert fs[0] == Title && fs[1] == EnglishTitle && fs[2] == Year && fs[3] == Month;
  }

  /** One written row reads back as the book it was written from. */
  lemma RowRoundTrip(headers: seq<string>, b: Book)
    requires StandardHeaders(headers) && Writable(b)
    ensures ParseRow(headers, EncodeRow(b)) == Some(b)
  {
    RowCells(b);
    RowFill(headers, b);
  }

  lemma RowFill(headers: seq<string>, b: Book)
    requires StandardHeaders(headers) && Writable(b)
    ensures RowEntry(headers, EncodeRow(b)) == b
  {
    RowValues(b);
    StandardHeaderFields(headers);
    FillFour(Fields(headers), Cells(b));
    RowCells(b);
  }

  /** One more column read into the entry. */
  lemma FillStep(fields: seq<Field>, cols: seq<string>, n: nat)
    requires n < |fields|
    ensures Fill(fields, cols, n + 1) == ApplyCell(Fill(fields, cols, n), fields[n], Csv.Cell(cols, n))
  {
  }

  lemma FillTitle(fields: seq<Field>, cols: seq<string>)
    requires StandardFields(fields) && |cols| == 4
    ensures var r := Fill(fields, cols, 1);
      r.title == Clean(cols[0]) && r.englishTitle == "" && r.year == 0 && r.month == 0
  {
    FillStep(fields, cols, 0);
  }

  lemma FillEnglishTitle(fields: seq<Field>, cols: seq<string>)
    requires StandardFields(fields) && |cols| == 4
    ensures var r := Fill(fields, cols, 2);
      r.title == Clean(cols[0]) && r.englishTitle == Clean(cols[1]) && r.year == 0 && r.month == 0
  {
    FillTitle(fields, cols);
    FillStep(fields, cols, 1);
  }

  lemma FillYear(fields: seq<Field>, cols: seq<string>)
    requires StandardFields(fields) && |cols| == 4
    ensures var r := Fill(fields, cols, 3);
      r.title == Clean(cols[0]) && r.englishTitle == Clean(cols[1])
      && r.year == ParseIntOrZero(Clean(cols[2])) && r.month == 0
  {
    FillEnglishTitle(fields, cols);
    FillStep(fields, cols, 2);
  }

  /** Four cells under the four standard columns fill every field of the entry. */
  lemma FillFour(fields: seq<Field>, cols: seq<string>)
    requires StandardFields(fields) && |cols| == 4
    ensures Fill(fields, cols, 4) == ReadCells(cols)
  {
    FillYear(fields, cols);
    FillStep(fields, cols, 3);
  }

  /** A kept first row comes first, ahead of the rows after it. */
  lemma ParseRowsKept(headers: seq<string>, rows: seq<string>, b: Book)
    requires rows != [] && ParseRow(headers, rows[0]) == Some(b)
    ensures ParseRows(headers, rows) == [b] + ParseRows(headers, rows[1..])
  {
  }

  lemma EncodeRowsCons(books: seq<Book>)
    requires books != []
    ensures EncodeRows(books)[0] == EncodeRow(books[0])
    ensures EncodeRows(books)[1..] == EncodeRows(books[1..])
  {
  }

  lemma Recompose(books: seq<Book>)
    requires books != []
    ensures [books[0]] + books[1..] == books
  {
  }

  /** Written rows read back as the books they were written from, in order. */
  lemma {:induction false} RowsRoundTrip(headers: seq<string>, books: seq<Book>)
    requires StandardHeaders(headers)
    requires forall b :: b in books ==> Writable(b)
    ensures ParseRows(headers, EncodeRows(books)) == books
    decreases |books|
  {
    if books != [] {
      var rows := EncodeRows(books);
      EncodeRowsCons(books);
      assert books[0] in books;
      RowRoundTrip(headers, books[0]);
      ParseRowsKept(headers, rows, books[0]);
      RowsRoundTrip(headers, books[1..]);
      Recompose(books);
    }
  }

  /** The text a log of `books` is written as: the header line, then one row per book. */
  function EncodeCsv(books: seq<Book>): string {
    Join([HeaderLine] + EncodeRows(books), "\n")
  }

  /** A written row ends with the last digit of the month. */
  lemma RowEndsInDigit(b: Book)
    ensures EncodeRow(b) != [] && !IsSpace(EncodeRow(b)[|EncodeRow(b)| - 1])
  {
    var m := IntToString(b.month);
    var line := EncodeRow(b);
    assert line[|line| - 1] == m[|m| - 1];
    if b.month < 0 {
      assert m[|m| - 1] == m[1..][|m| - 2];
    }
  }

  /** The written text has no white space at either end, so trimming it changes nothing. */
  lemma EncodedIsBare(books: seq<Book>)
    ensures Bare(EncodeCsv(books))
  {
    var lines := [HeaderLine] + EncodeRows(books);
    assert lines[0] == HeaderLine && HeaderLine[0] == 't';
    if books != [] {
      assert lines[|lines| - 1] == EncodeRow(books[|books| - 1]);
      RowEndsInDigit(books[|books| - 1]);
    } else {
      assert lines == [HeaderLine];
    }
    JoinBare(lines, "\n");
  }

  /** No written line holds a newline, so the text splits back into exactly these lines. */
  lemma LinesHaveNoNewline(books: seq<Book>)
    requires forall b :: b in books ==> Writable(b)
    ensures forall i :: 0 <= i < |books| + 1 ==> '\n' !in ([HeaderLine] + EncodeRows(books))[i]
  {
    var lines := [HeaderLine] + EncodeRows(books);
    forall i | 0 <= i < |lines| ensures '\n' !in lines[i] {
      if i > 0 {
        assert books[i - 1] in books;
        RowHasNoNewline(books[i - 1]);
        assert lines[i] == EncodeRow(books[i - 1]);
      }
    }
  }

  lemma RowHasNoNewline(b: Book)
    requires Writable(b)
    ensures '\n' !in EncodeRow(b)
  {
    NumberHasNoSeparator(b.year, '\n');
    NumberHasNoSeparator(b.month, '\n');
  }

  /** Reading the written text gives the header line's columns and the written rows. */
  lemma EncodedLines(books: seq<Book>)
    requires forall b :: b in books ==> Writable(b)
    ensures Csv.Lines(EncodeCsv(books)) == [HeaderLine] + EncodeRows(books)
  {
    LinesHaveNoNewline(books);
    EncodedTrimmed(books);
    Csv.LinesOfJoin([HeaderLine] + EncodeRows(books));
  }

  lemma EncodedTrimmed(books: seq<Book>)
    ensures Trim(EncodeCsv(books)) == EncodeCsv(books)
  {
    EncodedIsBare(books);
    TrimIdentity(EncodeCsv(books));
  }

  /** A log written from plain books reads back as the same books, in the same order. */
  lemma CsvRoundTrip(books: seq<Book>)
    requires forall b :: b in books ==> Writable(b)
    ensures ParseCsv(EncodeCsv(books)) == books
  {
    var lines := [HeaderLine] + EncodeRows(books);
    EncodedLines(books);
    assert lines[0] == HeaderLine && lines[1..] == EncodeRows(books);
    StandardHeaderLine();
    RowsRoundTrip(Text.Split(HeaderLine, ','), books);
  }

  // ----- Titles -----

  /** `getCanonicalTitle`: the trimmed title, or the trimmed English title when that is blank. */
  function Canonical(b: Book): (r: string)
    ensures !AllSpace(b.title) ==> r == Trim(b.title)
    ensures AllSpace(b.title) ==> r == Trim(b.englishTitle)
  {
    var t := Trim(b.title);
    TrimToEmpty(b.title);
    if t != "" then t else Trim(b.englishTitle)
  }

  /** A book has no canonical title exactly when both its titles are blank. */
  lemma CanonicalBlank(b: Book)
    ensures Canonical(b) == "" <==> AllSpace(b.title) && AllSpace(b.englishTitle)
  {
    TrimToEmpty(b.title);
    TrimToEmpty(b.englishTitle);
  }

  datatype Lang = Ko | En

  /** `getLocalizedTitle`: Korean prefers the title, English the English title. */
  function LocalizedTitle(b: Book, lang: Lang): (r: string)
    ensures lang == Ko ==> r == Canonical(b)
    ensures lang == En && !AllSpace(b.englishTitle) ==> r == Trim(b.englishTitle)
    ensures lang == En && AllSpace(b.englishTitle) ==> r == Trim(b.title)
  {
    var t := Trim(b.title);
    var e := Trim(b.englishTitle);
    TrimToEmpty(b.englishTitle);
    match lang
    case Ko => if t != "" then t else e
    case En => if e != "" then e else t
  }

  /** Either language has a title to show exactly when the book has a canonical title. */
  lemma LocalizedBlank(b: Book, lang: Lang)
    ensures LocalizedTitle(b, lang) == "" <==> Canonical(b) == ""
  {
    TrimToEmpty(b.title);
    TrimToEmpty(b.englishTitle);
  }

  /** Every parsed book has a title to group it by: its own title, else its English one. */
  lemma KeptHasCanonical(b: Book)
    requires Keep(b) && Trimmed(b)
    ensures Canonical(b) == if b.title != "" then b.title else b.englishTitle
  {
    TrimIdentity(b.title);
    TrimIdentity(b.englishTitle);
  }

  // ----- Order -----

  /**
   * `sortBooksDesc` read as an order: newer year first, then newer month, then the
   * titles in `collate` order, which stands for `localeCompare(a, b) <= 0`.
   */
  function NewestFirst(collate: (string, string) -> bool): (Book, Book) -> bool {
    (a: Book, b: Book) =>
      a.year > b.year || (a.year == b.year && (a.month > b.month || (a.month == b.month && collate(Canonical(a), Canonical(b)))))
  }

  lemma NewestFirstIsPreorder(collate: (string, string) -> bool)
    requires Sorting.TotalPreorder(collate)
    ensures Sorting.TotalPreorder(NewestFirst(collate))
  {
    var le := NewestFirst(collate);
    forall a: Book, b: Book ensures le(a, b) || le(b, a) {
      assert collate(Canonical(a), Canonical(b)) || collate(Canonical(b), Canonical(a));
    }
    forall a: Book, b: Book, c: Book | le(a, b) && le(b, c) ensures le(a, c) {
      if a.year == b.year == c.year && a.month == b.month == c.month {
        assert collate(Canonical(a), Canonical(b)) && collate(Canonical(b), Canonical(c));
      }
    }
  }

  /** `parseCSV(csv).sort(sortBooksDesc)`: the same books, rearranged. */
  function SortBooks(books: seq<Book>, collate: (string, string) -> bool): (r: seq<Book>)
    ensures multiset(r) == multiset(books)
  {
    Sorting.Sort(books, NewestFirst(collate))
  }

  /** The sorted log runs from the newest year and month to the oldest, ties in title order. */
  lemma SortBooksOrder(books: seq<Book>, collate: (string, string) -> bool)
    requires Sorting.TotalPreorder(collate)
    ensures var r := SortBooks(books, collate);
      forall i, j :: 0 <= i < j < |r| ==>
        && r[i].year >= r[j].year
        && (r[i].year == r[j].year ==> r[i].month >= r[j].month)
        && (r[i].year == r[j].year && r[i].month == r[j].month ==> collate(Canonical(r[i]), Canonical(r[j])))
  {
    NewestFirstIsPreorder(collate);
    Sorting.SortSorted(books, NewestFirst(collate));
  }

  // ----- Derived data -----

  function TitleKey(b: Book): Option<string> {
    if Canonical(b) == "" then None else Some(Canonical(b))
  }

  function YearKey(b: Book): Option<int> {
    if Canonical(b) == "" then None else Some(b.year)
  }

  function CellKey(b: Book): Option<string> {
    if Canonical(b) == "" then None else Some(Tally.MonthKey(b.year, b.month))
  }

  /** The year and month of a titled book, as a pair. */
  function DateKey(b: Book): Option<(int, int)> {
    if Canonical(b) == "" then None else Some((b.year, b.month))
  }

  function Snap(b: Book): int {
    Tally.Snapshot(b.year, b.month)
  }

  /** The order inside a year list: newer month first, then the titles in `collate` order. */
  function MonthThenTitle(collate: (string, string) -> bool): (Book, Book) -> bool {
    (a: Book, b: Book) => a.month > b.month || (a.month == b.month && collate(Canonical(a), Canonical(b)))
  }

  lemma MonthThenTitleIsPreorder(collate: (string, string) -> bool)
    requires Sorting.TotalPreorder(collate)
    ensures Sorting.TotalPreorder(MonthThenTitle(collate))
  {
    var le := MonthThenTitle(collate);
    forall a: Book, b: Book ensures le(a, b) || le(b, a) {
      assert collate(Canonical(a), Canonical(b)) || collate(Canonical(b), Canonical(a));
    }
    forall a: Book, b: Book, c: Book | le(a, b) && le(b, c) ensures le(a, c) {
      if a.month == b.month == c.month {
        assert collate(Canonical(a), Canonical(b)) && collate(Canonical(b), Canonical(c));
      }
    }
  }

  /** `state.booksByYear`, `state.heatmapBuckets`, `state.bookCounts` and `state.latestMonth`. */
  datatype Derived = Derived(
    byYear: map<int, seq<Book>>,
    cells: map<string, seq<Book>>,
    counts: map<string, nat>,
    latest: map<string, int>)

  /**
   * `buildDerivedData`: books without a title are skipped; every other book goes to its
   * year list and its month cell and is counted under its title.
   */
  function BuildDerived(books: seq<Book>, collate: (string, string) -> bool): (d: Derived)
    ensures forall y :: y in d.byYear <==> Tally.Select(books, YearKey, y) != []
    ensures forall y :: y in d.byYear ==> multiset(d.byYear[y]) == multiset(Tally.Select(books, YearKey, y))
    ensures forall k :: k in d.cells <==> Tally.Select(books, CellKey, k) != []
    ensures forall k :: k in d.cells ==> d.cells[k] == Tally.Select(books, CellKey, k)
    ensures forall t :: t in d.counts <==> Tally.Select(books, TitleKey, t) != []
    ensures forall t :: t in d.counts ==> d.counts[t] == |Tally.Select(books, TitleKey, t)|
  {
    Tally.GroupAll(books, YearKey);
    Tally.GroupAll(books, CellKey);
    Tally.CountAll(books, TitleKey);
    Derived(
      Sorting.SortEach(Tally.Group(books, YearKey), MonthThenTitle(collate)),
      Tally.Group(books, CellKey),
      Tally.Count(books, TitleKey),
      Tally.Latest(books, TitleKey, Snap))
  }

  /** A year list is the books of that year, sorted by month and then title. */
  lemma YearListIsSorted(books: seq<Book>, collate: (string, string) -> bool, y: int)
    requires y in BuildDerived(books, collate).byYear
    ensures BuildDerived(books, collate).byYear[y] == Sorting.Sort(Tally.Select(books, YearKey, y), MonthThenTitle(collate))
  {
    Tally.GroupIsSelect(books, YearKey, y);
  }

  /** A permutation of the books of one year holds only that year. */
  lemma OnlyItsYear(books: seq<Book>, list: seq<Book>, y: int)
    requires multiset(list) == multiset(Tally.Select(books, YearKey, y))
    ensures forall i :: 0 <= i < |list| ==> list[i].year == y
  {
    forall i | 0 <= i < |list| ensures list[i].year == y {
      assert list[i] in multiset(list);
      assert list[i] in Tally.Select(books, YearKey, y);
    }
  }

  /** A list sorted by month, newest first, then by title. */
  lemma MonthThenTitleOrder(list: seq<Book>, collate: (string, string) -> bool)
    requires Sorting.Sorted(list, MonthThenTitle(collate))
    ensures forall i, j :: 0 <= i < j < |list| ==> list[i].month >= list[j].month
    ensures forall i, j :: 0 <= i < j < |list| && list[i].month == list[j].month ==>
              collate(Canonical(list[i]), Canonical(list[j]))
  {
    forall i, j | 0 <= i < j < |list| ensures list[i].month >= list[j].month {
      assert MonthThenTitle(collate)(list[i], list[j]);
    }
    forall i, j | 0 <= i < j < |list| && list[i].month == list[j].month
      ensures collate(Canonical(list[i]), Canonical(list[j]))
    {
      assert MonthThenTitle(collate)(list[i], list[j]);
    }
  }

  /** Each year list holds only its year, ordered by month, newest first, then by title. */
  lemma YearListSorted(books: seq<Book>, collate: (string, string) -> bool, y: int)
    requires Sorting.TotalPreorder(collate)
    requires y in BuildDerived(books, collate).byYear
    ensures var list := BuildDerived(books, collate).byYear[y];
      && (forall i :: 0 <= i < |list| ==> list[i].year == y)
      && (forall i, j :: 0 <= i < j < |list| ==> list[i].month >= list[j].month)
      && (forall i, j :: 0 <= i < j < |list| && list[i].month == list[j].month ==>
            collate(Canonical(list[i]), Canonical(list[j])))
  {
    var list := BuildDerived(books, collate).byYear[y];
    YearListIsSorted(books, collate, y);
    OnlyItsYear(books, list, y);
    MonthThenTitleIsPreorder(collate);
    Sorting.SortSorted(Tally.Select(books, YearKey, y), MonthThenTitle(collate));
    MonthThenTitleOrder(list, collate);
  }

  /** The badge of `createYearSection`, read from the derived tallies. */
  predicate ShowsBadge(d: Derived, b: Book) {
    Tally.Badge(d.counts, d.latest, Canonical(b), Snap(b))
  }

  /** A title read more than once shows its badge on a reading of its latest month and on no older one. */
  lemma RereadBadge(books: seq<Book>, collate: (string, string) -> bool, t: string)
    requires t in BuildDerived(books, collate).counts && BuildDerived(books, collate).counts[t] > 1
    ensures var d := BuildDerived(books, collate);
      && (exists b :: b in books && Canonical(b) == t && ShowsBadge(d, b))
      && (forall b, c :: b in books && c in books && Canonical(b) == t && Canonical(c) == t && ShowsBadge(d, b)
            ==> Snap(c) <= Snap(b))
  {
    var d := BuildDerived(books, collate);
    Tally.RereadBadge(books, TitleKey, Snap, t);
    var x :| x in books && TitleKey(x) == Some(t) && Tally.Badge(d.counts, d.latest, t, Snap(x));
    assert ShowsBadge(d, x);
  }

  /** A title read once never shows the badge. */
  lemma SingleReadNoBadge(books: seq<Book>, collate: (string, string) -> bool, b: Book)
    requires |Tally.Select(books, TitleKey, Canonical(b))| <= 1
    ensures !ShowsBadge(BuildDerived(books, collate), b)
  {
    Tally.NoBadgeOnce(books, TitleKey, Snap, Canonical(b), Snap(b));
  }

  /** `getBooksForMonth(year, month)`. */
  function CellBooks(d: Derived, year: int, month: int): seq<Book> {
    var k := Tally.MonthKey(year, month);
    if k in d.cells then d.cells[k] else []
  }

  /** A heatmap cell holds exactly the titled books of its year and month, in log order. */
  lemma CellHoldsItsMonth(books: seq<Book>, collate: (string, string) -> bool, year: int, month: int)
    ensures CellBooks(BuildDerived(books, collate), year, month) == Tally.Select(books, DateKey, (year, month))
  {
    var k := Tally.MonthKey(year, month);
    forall x | x in books ensures CellKey(x) == Some(k) <==> DateKey(x) == Some((year, month)) {
      if CellKey(x) == Some(k) {
        Tally.MonthKeyInjective(x.year, x.month, year, month);
      }
    }
    Tally.SelectSame(books, CellKey, k, DateKey, (year, month));
    var d := BuildDerived(books, collate);
    if k !in d.cells {
      assert Tally.Select(books, CellKey, k) == [];
    }
  }

  /** A cell is shaded exactly when some titled book was read in its month. */
  lemma CellShaded(books: seq<Book>, collate: (string, string) -> bool, year: int, month: int)
    ensures Tally.HeatLevel(|CellBooks(BuildDerived(books, collate), year, month)|).Some?
        <==> exists b :: b in books && Canonical(b) != "" && b.year == year && b.month == month
  {
    CellHoldsItsMonth(books, collate, year, month);
    var sel := Tally.Select(books, DateKey, (year, month));
    if sel != [] {
      assert sel[0] in sel;
    }
  }

  // ----- Reviews -----

  /** A review as the lookup sees it: its title and where it links. */
  datatype Review = Review(title: string, link: string)

  /** `normalizeText(value).toLowerCase()`. */
  function LookupKey(s: string): string {
    ToLower(Trim(s))
  }

  function ReviewEntry(rv: Review): Option<(string, Review)> {
    if LookupKey(rv.title) == "" then None else Some((LookupKey(rv.title), rv))
  }

  function ReviewEntries(reviews: seq<Review>): (r: seq<Option<(string, Review)>>)
    ensures |r| == |reviews|
    ensures forall i :: 0 <= i < |reviews| ==> r[i] == ReviewEntry(reviews[i])
  {
    seq(|reviews|, i requires 0 <= i < |reviews| => ReviewEntry(reviews[i]))
  }

  /** `buildReviewLookup`: each titled review is stored under its normalized title, later ones overwriting. */
  function BuildReviewLookup(reviews: seq<Review>): map<string, Review> {
    Assoc.Fold(ReviewEntries(reviews))
  }

  /** The lookup has a key exactly for the non-blank normalized titles. */
  lemma ReviewLookupKeys(reviews: seq<Review>, key: string)
    ensures key in BuildReviewLookup(reviews) <==>
      key != "" && exists i :: 0 <= i < |reviews| && LookupKey(reviews[i].title) == key
  {
    Assoc.FoldKeys(ReviewEntries(reviews), key);
  }

  /** Of several reviews with the same normalized title, the last one is kept. */
  lemma ReviewLookupLastWins(reviews: seq<Review>, i: int)
    requires 0 <= i < |reviews| && LookupKey(reviews[i].title) != ""
    requires forall j :: i < j < |reviews| ==> LookupKey(reviews[j].title) != LookupKey(reviews[i].title)
    ensures LookupKey(reviews[i].title) in BuildReviewLookup(reviews)
    ensures BuildReviewLookup(reviews)[LookupKey(reviews[i].title)] == reviews[i]
  {
    var es := ReviewEntries(reviews);
    var key := LookupKey(reviews[i].title);
    assert Assoc.Sets(es[i], key);
    forall j | i < j < |es| ensures !Assoc.Sets(es[j], key) {
      assert es[j] == ReviewEntry(reviews[j]);
    }
    Assoc.FoldLastWins(es, i, key);
  }

  /** The first key the lookup has, tried in order. */
  function FirstHit(lookup: map<string, Review>, keys: seq<string>): (r: Option<Review>)
    ensures r.None? <==> forall k :: k in keys ==> k !in lookup
    ensures r.Some? ==>
      (exists i :: 0 <= i < |keys| && keys[i] in lookup && r.value == lookup[keys[i]]
        && forall j :: 0 <= j < i ==> keys[j] !in lookup)
    decreases |keys|
  {
    if keys == [] then None
    else if keys[0] in lookup then Some(lookup[keys[0]])
    else
      var r := FirstHit(lookup, keys[1..]);
      assert forall k :: k in keys ==> k == keys[0] || k in keys[1..];
      if r.Some? then
        var i :| 0 <= i < |keys[1..]| && keys[1..][i] in lookup && r.value == lookup[keys[1..][i]]
          && forall j :: 0 <= j < i ==> keys[1..][j] !in lookup;
        assert keys[i + 1] in lookup && r.value == lookup[keys[i + 1]];
        assert forall j :: 0 <= j < i + 1 ==> keys[j] !in lookup by {
          forall j | 0 < j < i + 1 ensures keys[j] !in lookup {
            assert keys[j] == keys[1..][j - 1];
          }
        }
        r
      else r
  }

  /** The candidates of `findReviewForBook`: the title, the English title, then the canonical title. */
  function Candidates(b: Book): seq<string> {
    NonEmpty([LookupKey(b.title), LookupKey(b.englishTitle), ToLower(Canonical(b))])
  }

  /** `findReviewForBook`. */
  function FindReview(lookup: map<string, Review>, b: Book): Option<Review> {
    FirstHit(lookup, Candidates(b))
  }

  /** Trying again a key that was already tried, or one the lookup lacks, finds nothing new. */
  lemma {:induction false} FirstHitRepeat(lookup: map<string, Review>, keys: seq<string>, k: string)
    requires k in keys || k !in lookup
    ensures FirstHit(lookup, keys + [k]) == FirstHit(lookup, keys)
    decreases |keys|
  {
    if keys == [] {
      assert [k][1..] == [];
    } else {
      assert (keys + [k])[0] == keys[0];
      assert (keys + [k])[1..] == keys[1..] + [k];
      if keys[0] !in lookup {
        FirstHitRepeat(lookup, keys[1..], k);
      }
    }
  }

  /** The canonical title is always one of the first two candidates, so trying it last finds nothing new. */
  lemma CanonicalAddsNothing(lookup: map<string, Review>, b: Book)
    ensures FindReview(lookup, b) == FirstHit(lookup, NonEmpty([LookupKey(b.title), LookupKey(b.englishTitle)]))
  {
    var t, e := LookupKey(b.title), LookupKey(b.englishTitle);
    var c := ToLower(Canonical(b));
    var two := [t, e];
    ThreeCandidates(t, e, c);
    NonEmptyAppend(two, c);
    CanonicalKey(b);
    if c != "" {
      assert c in NonEmpty(two);
      FirstHitRepeat(lookup, NonEmpty(two), c);
    } else {
      assert NonEmpty(two + [c]) == NonEmpty(two);
    }
  }

  lemma ThreeCandidates(t: string, e: string, c: string)
    ensures [t, e, c] == [t, e] + [c]
  {
  }

  /** The lower-cased canonical title is the first non-blank normalized title. */
  lemma CanonicalKey(b: Book)
    ensures var t, e := LookupKey(b.title), LookupKey(b.englishTitle);
      ToLower(Canonical(b)) == if t != "" then t else e
  {
    var t := Trim(b.title);
    assert |ToLower(t)| == |t|;
  }

  /** A book whose title matches a review's normalized title finds that review first. */
  lemma TitleMatchWins(lookup: map<string, Review>, b: Book)
    requires LookupKey(b.title) != "" && LookupKey(b.title) in lookup
    ensures FindReview(lookup, b) == Some(lookup[LookupKey(b.title)])
  {
    var keys := [LookupKey(b.title), LookupKey(b.englishTitle), ToLower(Canonical(b))];
    assert keys[1..] == [LookupKey(b.englishTitle), ToLower(Canonical(b))];
    assert Candidates(b)[0] == LookupKey(b.title);
  }
}
