/**
 * The per-row body of `convert_csv`: a StoryGraph row becomes a Goodreads row
 * that starts from the default cells and is patched field by field.
 */
module Convert {
  import opened Wrappers
  import opened Text
  import opened Numbers
  import opened Tables
  import opened Dates
  import opened Shelves
  import opened Ratings

  /** The columns of a Goodreads import file. */
  datatype Column =
    | BookId | Title | Author | AuthorLf | AdditionalAuthors | Isbn | Isbn13 | MyRating
    | AverageRating | Publisher | Binding | NumberOfPages | YearPublished
    | OriginalPublicationYear | DateRead | DateAdded | Bookshelves | BookshelvesWithPositions
    | ExclusiveShelf | MyReview | Spoiler | PrivateNotes | ReadCount | OwnedCopies

  /** The name a column has in the Goodreads header. */
  function Header(c: Column): string {
    match c
    case BookId => "Book Id"
    case Title => "Title"
    case Author => "Author"
    case AuthorLf => "Author l-f"
    case AdditionalAuthors => "Additional Authors"
    case Isbn => "ISBN"
    case Isbn13 => "ISBN13"
    case MyRating => "My Rating"
    case AverageRating => "Average Rating"
    case Publisher => "Publisher"
    case Binding => "Binding"
    case NumberOfPages => "Number of Pages"
    case YearPublished => "Year Published"
    case OriginalPublicationYear => "Original Publication Year"
    case DateRead => "Date Read"
    case DateAdded => "Date Added"
    case Bookshelves => "Bookshelves"
    case BookshelvesWithPositions => "Bookshelves with positions"
    case ExclusiveShelf => "Exclusive Shelf"
    case MyReview => "My Review"
    case Spoiler => "Spoiler"
    case PrivateNotes => "Private Notes"
    case ReadCount => "Read Count"
    case OwnedCopies => "Owned Copies"
  }

  /** `goodreads_fieldnames`: the header of the converted file. */
  const GoodreadsFieldnames: seq<string> := [
    "Book Id", "Title", "Author", "Author l-f", "Additional Authors",
    "ISBN", "ISBN13", "My Rating", "Average Rating", "Publisher",
    "Binding", "Number of Pages", "Year Published", "Original Publication Year",
    "Date Read", "Date Added", "Bookshelves", "Bookshelves with positions",
    "Exclusive Shelf", "My Review", "Spoiler", "Private Notes",
    "Read Count", "Owned Copies"]

  /** The same columns, in header order. */
  const GoodreadsColumns: seq<Column> := [
    BookId, Title, Author, AuthorLf, AdditionalAuthors,
    Isbn, Isbn13, MyRating, AverageRating, Publisher,
    Binding, NumberOfPages, YearPublished, OriginalPublicationYear,
    DateRead, DateAdded, Bookshelves, BookshelvesWithPositions,
    ExclusiveShelf, MyReview, Spoiler, PrivateNotes,
    ReadCount, OwnedCopies]

  /** `goodreads_row`: the cells set so far, by column. */
  type GoodreadsRow = map<Column, string>

  /** `=""""`, the default of both ISBN cells. */
  const EmptyIsbn: string := "=\"\"\"\""

  /** `=""=""`, what the ISBN cell the digits do not go to is set to. */
  const BlankIsbn: string := "=\"\"=\"\""

  const DefaultDateAdded: string := "2025/01/01"

  /** The value `default_values` gives column `c`. */
  function DefaultValue(c: Column): string {
    match c
    case Isbn | Isbn13 => EmptyIsbn
    case MyRating | ReadCount | OwnedCopies => "0"
    case ExclusiveShelf => "to-read"
    case _ => ""
  }

  /** `default_values`: every column but `Title` and `Author`. */
  const Defaults: GoodreadsRow := map c: Column | c != Title && c != Author :: DefaultValue(c)

  /** `field_mapping`: the StoryGraph columns the converter copies, and where to. */
  const FieldMapping: map<string, Column> := map[
    "Title" := Title,
    "Authors" := Author,
    "ISBN/UID" := Isbn13,
    "Format" := Binding,
    "Read Status" := ExclusiveShelf,
    "Date Added" := DateAdded,
    "Last Date Read" := DateRead,
    "Read Count" := ReadCount,
    "Star Rating" := MyRating,
    "Review" := MyReview,
    "Tags" := Bookshelves]

  /** The StoryGraph column `field_mapping` sends to `c`, if any. */
  function SourceName(c: Column): Option<string> {
    match c
    case Title => Some("Title")
    case Author => Some("Authors")
    case Isbn13 => Some("ISBN/UID")
    case Binding => Some("Format")
    case ExclusiveShelf => Some("Read Status")
    case DateAdded => Some("Date Added")
    case DateRead => Some("Last Date Read")
    case ReadCount => Some("Read Count")
    case MyRating => Some("Star Rating")
    case MyReview => Some("Review")
    case Bookshelves => Some("Tags")
    case _ => None
  }

  // ---------------------------------------------------------------------------
  // Cells
  // ---------------------------------------------------------------------------

  /** `f'=""{isbn}""'`. */
  function Quoted(isbn: string): string {
    "=\"\"" + isbn + "\"\""
  }

  /**
   * The `ISBN` and `ISBN13` cells for an `ISBN/UID` value: its digits go to
   * `ISBN` when there are 10 of them and to `ISBN13` when there are 13; any
   * other count leaves both at their default.
   */
  function IsbnCells(uid: string): (cells: (string, string)) {
    var digits := Digits(uid);
    if |digits| == 10 then (Quoted(digits), BlankIsbn)
    else if |digits| == 13 then (BlankIsbn, Quoted(digits))
    else (EmptyIsbn, EmptyIsbn)
  }

  /** `Date Added`: the converted date, or the fixed fallback when it converts to "". */
  function DateAddedCell(v: string): (cell: string)
    ensures IsGoodreadsDate(ConvertDate(v)) ==> cell == ConvertDate(v)
    ensures ConvertDate(v) == [] ==> cell == DefaultDateAdded
  {
    var d := ConvertDate(v);
    if d != [] then d else DefaultDateAdded
  }

  /** `Author l-f`: "<last token>, <other tokens>" for an author of two or more tokens. */
  function AuthorLastFirst(author: string): string {
    var parts := Words(author);
    if |parts| > 1 then parts[|parts| - 1] + ", " + Join(parts[..|parts| - 1], " ") else ""
  }

  /** `str(max(0, int(float(v))))`, or "0" where `float` rejects `v`. */
  function ReadCountText(v: string): (r: string)
    ensures r != [] && AllDigits(r)
    ensures ParseTrunc(v).Some? ==> DigitsValue(r) == if ParseTrunc(v).value < 0 then 0 else ParseTrunc(v).value
    ensures ParseTrunc(v).Some? ==> r == NatToString(if ParseTrunc(v).value < 0 then 0 else ParseTrunc(v).value)
    ensures ParseTrunc(v).None? ==> r == "0"
  {
    match ParseTrunc(v)
    case Some(i) =>
      NatToStringValue(if i < 0 then 0 else i);
      NatToString(if i < 0 then 0 else i)
    case None => "0"
  }

  /** `Owned Copies` from StoryGraph's `Owned?`, compared after `lower` but not stripped. */
  function OwnedFlag(v: string): (r: string)
    ensures r == "0" || r == "1"
  {
    if Lower(v) in ["yes", "true", "y", "1"] then "1" else "0"
  }

  /** The mapped shelf of a row: its `Read Status`, stripped, through `map_reading_status`. */
  function RowShelf(row: Row): (shelf: string)
    ensures IsShelf(shelf)
  {
    MapReadingStatus(Strip(Get(row, "Read Status", "")))
  }

  // ---------------------------------------------------------------------------
  // What a converted row holds
  // ---------------------------------------------------------------------------

  /** `Author l-f` once the row is done: derived from `Authors`, or the default "". */
  function AuthorLfCell(row: Row): string {
    if "Authors" in row then AuthorLastFirst(row["Authors"]) else ""
  }

  /** `Read Count` once the row is done: a blank count is copied as it is. */
  function ReadCountCell(row: Row): string {
    if "Read Count" !in row then "0"
    else if Strip(row["Read Count"]) == [] then row["Read Count"]
    else ReadCountText(row["Read Count"])
  }

  /** `Owned Copies` once the row is done. */
  function OwnedCell(row: Row): string {
    if "Owned?" in row then OwnedFlag(row["Owned?"]) else "0"
  }

  /** `Date Read` once the row is done: kept on the `read` shelf only. */
  function DateReadCell(row: Row, shelf: string): string {
    if shelf == "read" && "Last Date Read" in row then ConvertDate(row["Last Date Read"]) else ""
  }

  /**
   * The cells a converted row computes from StoryGraph values rather than
   * copying them, each holding its default when its source column is absent.
   */
  datatype Derived = Derived(
    authorLf: string, isbn: string, isbn13: string, rating: string,
    dateRead: string, dateAdded: string, readCount: string, owned: string)

  function Derive(row: Row, shelf: string): Derived {
    Derived(
      AuthorLfCell(row),
      if "ISBN/UID" in row then IsbnCells(row["ISBN/UID"]).0 else EmptyIsbn,
      if "ISBN/UID" in row then IsbnCells(row["ISBN/UID"]).1 else EmptyIsbn,
      if "Star Rating" in row then ConvertRating(row["Star Rating"]) else "0",
      DateReadCell(row, shelf),
      if "Date Added" in row then DateAddedCell(row["Date Added"]) else "",
      ReadCountCell(row),
      OwnedCell(row))
  }

  /**
   * The cell in column `c`, given the row's mapped shelf and its derived cells
   * (None: the row has no such key, which `DictWriter` writes as an empty cell).
   */
  function CellOf(row: Row, shelf: string, k: Derived, c: Column): Option<string> {
    match c
    case Title => if "Title" in row then Some(row["Title"]) else None
    case Author => if "Authors" in row then Some(row["Authors"]) else None
    case AuthorLf => Some(k.authorLf)
    case Isbn => Some(k.isbn)
    case Isbn13 => Some(k.isbn13)
    case MyRating => Some(k.rating)
    case Binding => Some(Get(row, "Format", ""))
    case DateRead => Some(k.dateRead)
    case DateAdded => Some(k.dateAdded)
    case Bookshelves => Some(Get(row, "Tags", shelf))
    case BookshelvesWithPositions => Some(shelf + " (#1)")
    case ExclusiveShelf => Some(shelf)
    case MyReview => Some(Get(row, "Review", ""))
    case ReadCount => Some(k.readCount)
    case OwnedCopies => Some(k.owned)
    case _ => Some("")
  }

  /** The cells of a converted row, given its mapped shelf and derived cells. */
  function CellsWith(row: Row, shelf: string, k: Derived): GoodreadsRow {
    map c | c in GoodreadsColumns && CellOf(row, shelf, k, c).Some? :: CellOf(row, shelf, k, c).value
  }

  /** The cells of a converted row, given its mapped shelf. */
  function RowCells(row: Row, shelf: string): GoodreadsRow {
    CellsWith(row, shelf, Derive(row, shelf))
  }

  /** The Goodreads row `convert_csv` writes for a StoryGraph row. */
  function ExpectedRow(row: Row): GoodreadsRow {
    RowCells(row, RowShelf(row))
  }

  /** `row.items()` visits exactly the keys of `row`, in the order of `fields`. */
  predicate ItemsOrder(row: Row, fields: seq<string>) {
    (forall f :: f in row ==> f in fields) && (forall f :: f in fields ==> f in row)
  }

  // ---------------------------------------------------------------------------
  // What the derived cells are, column by column
  // ---------------------------------------------------------------------------

  /** The derived cells that keep their default when the source column is absent. */
  ghost predicate Fallbacks(row: Row, shelf: string, k: Derived) {
    && ("ISBN/UID" !in row ==> k.isbn == EmptyIsbn && k.isbn13 == EmptyIsbn)
    && ("Star Rating" !in row ==> k.rating == "0")
    && ("Last Date Read" !in row || shelf != "read" ==> k.dateRead == "")
    && ("Date Added" !in row ==> k.dateAdded == "")
  }

  lemma DeriveFallbacks(row: Row, shelf: string)
    ensures Fallbacks(row, shelf, Derive(row, shelf))
  {
  }

  /** The derived cells that the StoryGraph column `f` is converted into. */
  ghost predicate DerivedFor(row: Row, shelf: string, k: Derived, f: string)
    requires f in row
  {
    f in FieldMapping ==>
      && (FieldMapping[f] == DateAdded ==> k.dateAdded == DateAddedCell(row[f]))
      && (FieldMapping[f] == DateRead ==> k.dateRead == if shelf == "read" then ConvertDate(row[f]) else "")
      && (FieldMapping[f] == MyRating ==> k.rating == ConvertRating(row[f]))
      && (FieldMapping[f] == Isbn13 ==> k.isbn == IsbnCells(row[f]).0 && k.isbn13 == IsbnCells(row[f]).1)
  }

  lemma DeriveFor(row: Row, shelf: string, f: string)
    requires f in row
    ensures DerivedFor(row, shelf, Derive(row, shelf), f)
  {
    if f in FieldMapping {
      MappedSource(f);
      var g := FieldMapping[f];
      if g == DateAdded {
        assert f == "Date Added";
      } else if g == DateRead {
        assert f == "Last Date Read";
      } else if g == MyRating {
        assert f == "Star Rating";
      } else if g == Isbn13 {
        assert f == "ISBN/UID";
      }
    }
  }

  /** The derived cells the steps after the loop compute. */
  ghost predicate DerivedAfter(row: Row, shelf: string, k: Derived) {
    && k.authorLf == AuthorLfCell(row)
    && k.readCount == ReadCountCell(row)
    && k.owned == OwnedCell(row)
  }

  lemma DeriveAfter(row: Row, shelf: string)
    ensures DerivedAfter(row, shelf, Derive(row, shelf))
  {
  }

  lemma MappedSource(f: string)
    requires f in FieldMapping
    ensures SourceName(FieldMapping[f]) == Some(f)
  {
  }

  lemma SourceMapped(c: Column)
    requires SourceName(c).Some?
    ensures SourceName(c).value in FieldMapping && FieldMapping[SourceName(c).value] == c
  {
  }

  lemma ColumnListed(c: Column)
    ensures c in GoodreadsColumns
  {
  }

  /** A hyphen between two texts adds nothing to their digits. */
  lemma HyphenJoin(a: string, b: string)
    ensures Digits(a + "-" + b) == Digits(a) + Digits(b)
  {
    DigitsConcat(a + "-", b);
    DigitsSnoc(a, '-');
  }

  /** A hyphenated 13-digit ISBN reaches the `ISBN13` branch with its hyphens dropped. */
  lemma HyphenatedIsbn13(a: string, b: string, c: string, d: string, e: string)
    requires AllDigits(a) && AllDigits(b) && AllDigits(c) && AllDigits(d) && AllDigits(e)
    requires |a| + |b| + |c| + |d| + |e| == 13
    ensures IsbnCells(a + "-" + b + "-" + c + "-" + d + "-" + e) == (BlankIsbn, Quoted(a + b + c + d + e))
  {
    var s1 := a + "-" + b;
    HyphenJoin(a, b);
    var s2 := s1 + "-" + c;
    HyphenJoin(s1, c);
    var s3 := s2 + "-" + d;
    HyphenJoin(s2, d);
    var s4 := s3 + "-" + e;
    HyphenJoin(s3, e);
    assert Digits(s4) == a + b + c + d + e;
  }

  /** 978-3-16-148410-0 goes to `ISBN13` as 9783161484100. */
  lemma HyphenatedIsbnExample()
    ensures IsbnCells("978" + "-" + "3" + "-" + "16" + "-" + "148410" + "-" + "0")
      == (BlankIsbn, Quoted("978" + "3" + "16" + "148410" + "0"))
  {
    HyphenatedIsbn13("978", "3", "16", "148410", "0");
  }
}
