/**
 * What every Goodreads row `convert_csv` writes holds, column by column,
 * stated about `Convert.RowCells` (the row for a given mapped shelf) and
 * `Convert.ExpectedRow` (the row with the shelf the converter maps to).
 */
module RowFacts {
  import opened Wrappers
  import opened Text
  import opened Numbers
  import opened Tables
  import opened Dates
  import opened Shelves
  import opened Ratings
  import opened Convert

  lemma CellAt(row: Row, shelf: string, k: Derived, c: Column)
    ensures c in CellsWith(row, shelf, k) <==> CellOf(row, shelf, k, c).Some?
    ensures c in CellsWith(row, shelf, k) ==> CellsWith(row, shelf, k)[c] == CellOf(row, shelf, k, c).value
  {
    ColumnListed(c);
  }

  /** The header lists the 24 Goodreads column names in the order of `GoodreadsColumns`. */
  lemma HeaderOrder()
    ensures |GoodreadsColumns| == |GoodreadsFieldnames| == 24
    ensures forall i :: 0 <= i < 24 ==> Header(GoodreadsColumns[i]) == GoodreadsFieldnames[i]
  {
    forall i | 0 <= i < 24
      ensures Header(GoodreadsColumns[i]) == GoodreadsFieldnames[i]
    {
      HeaderAt(i);
    }
  }

  lemma HeaderAt(i: int)
    requires 0 <= i < 24
    ensures Header(GoodreadsColumns[i]) == GoodreadsFieldnames[i]
  {
    if i < 12 {
      if i < 6 {
        if i < 3 {} else {}
      } else {
        if i < 9 {} else {}
      }
    } else {
      if i < 18 {
        if i < 15 {} else {}
      } else {
        if i < 21 {} else {}
      }
    }
  }

  /**
   * A converted row has every Goodreads column but `Title` and `Author`,
   * which it has exactly when the StoryGraph row has `Title` and `Authors`.
   */
  lemma RowColumns(row: Row, shelf: string, c: Column)
    ensures c in RowCells(row, shelf) <==>
      (c == Title ==> "Title" in row) && (c == Author ==> "Authors" in row)
  {
    ColumnsWith(row, shelf, Derive(row, shelf), c);
  }

  lemma ColumnsWith(row: Row, shelf: string, k: Derived, c: Column)
    ensures c in CellsWith(row, shelf, k) <==>
      (c == Title ==> "Title" in row) && (c == Author ==> "Authors" in row)
  {
    CellAt(row, shelf, k, c);
  }

  /**
   * `Exclusive Shelf` is the mapped status and `Bookshelves with positions`
   * is "<status> (#1)"; `Bookshelves` is the status too, unless the StoryGraph
   * row has `Tags`, which are copied over it.
   */
  ghost predicate ShelvesHold(gr: GoodreadsRow, row: Row, shelf: string) {
    && ExclusiveShelf in gr && Bookshelves in gr && BookshelvesWithPositions in gr
    && gr[ExclusiveShelf] == shelf
    && gr[BookshelvesWithPositions] == shelf + " (#1)"
    && gr[Bookshelves] == if "Tags" in row then row["Tags"] else shelf
  }

  lemma ShelvesWith(row: Row, shelf: string, k: Derived)
    ensures ShelvesHold(CellsWith(row, shelf, k), row, shelf)
  {
    CellAt(row, shelf, k, ExclusiveShelf);
    CellAt(row, shelf, k, Bookshelves);
    CellAt(row, shelf, k, BookshelvesWithPositions);
  }

  lemma ShelfCells(row: Row, shelf: string)
    ensures ShelvesHold(RowCells(row, shelf), row, shelf)
  {
    ShelvesWith(row, shelf, Derive(row, shelf));
  }

  /** The shelf of a converted row is its stripped `Read Status` through `map_reading_status`, one of the four shelves. */
  lemma ExclusiveShelfOf(row: Row)
    ensures ExclusiveShelf in ExpectedRow(row)
    ensures ExpectedRow(row)[ExclusiveShelf] == MapReadingStatus(Strip(Get(row, "Read Status", "")))
    ensures IsShelf(ExpectedRow(row)[ExclusiveShelf])
  {
    ShelfCells(row, RowShelf(row));
  }

  /**
   * `Date Read` is non-empty only on the `read` shelf, and then it is the
   * converted `Last Date Read`, a date in Goodreads' form; on the `read`
   * shelf the converted date is always what it holds.
   */
  ghost predicate DateReadHolds(gr: GoodreadsRow, row: Row, shelf: string) {
    && DateRead in gr && ExclusiveShelf in gr
    && (gr[DateRead] != [] ==>
          && gr[ExclusiveShelf] == "read" && "Last Date Read" in row
          && gr[DateRead] == ConvertDate(row["Last Date Read"])
          && IsGoodreadsDate(gr[DateRead]))
    && (shelf == "read" && "Last Date Read" in row ==> gr[DateRead] == ConvertDate(row["Last Date Read"]))
  }

  lemma DateReadWith(row: Row, shelf: string, k: Derived)
    requires k.dateRead == DateReadCell(row, shelf)
    ensures DateReadHolds(CellsWith(row, shelf, k), row, shelf)
  {
    CellAt(row, shelf, k, DateRead);
    CellAt(row, shelf, k, ExclusiveShelf);
    var gr := CellsWith(row, shelf, k);
    assert gr[DateRead] == k.dateRead && gr[ExclusiveShelf] == shelf;
    if shelf == "read" && "Last Date Read" in row {
      var d := ConvertDate(row["Last Date Read"]);
      assert k.dateRead == d;
      assert d == [] || IsGoodreadsDate(d);
    } else {
      assert k.dateRead == [];
    }
  }

  lemma DateReadCells(row: Row, shelf: string)
    ensures DateReadHolds(RowCells(row, shelf), row, shelf)
  {
    DateReadWith(row, shelf, Derive(row, shelf));
  }

  /**
   * The digits of `ISBN/UID` go to `ISBN` when there are 10 and to `ISBN13`
   * when there are 13, quoted as `=""<digits>""`, with `=""=""` in the other
   * cell; otherwise both cells keep `=""""`.
   */
  ghost predicate IsbnHolds(gr: GoodreadsRow, row: Row) {
    && Isbn in gr && Isbn13 in gr
    && var d := if "ISBN/UID" in row then Digits(row["ISBN/UID"]) else [];
    && AllDigits(d)
    && (|d| == 10 ==> gr[Isbn] == Quoted(d) && gr[Isbn13] == BlankIsbn)
    && (|d| == 13 ==> gr[Isbn] == BlankIsbn && gr[Isbn13] == Quoted(d))
    && (|d| != 10 && |d| != 13 ==> gr[Isbn] == EmptyIsbn && gr[Isbn13] == EmptyIsbn)
  }

  lemma IsbnWith(row: Row, shelf: string, k: Derived)
    requires k.isbn == if "ISBN/UID" in row then IsbnCells(row["ISBN/UID"]).0 else EmptyIsbn
    requires k.isbn13 == if "ISBN/UID" in row then IsbnCells(row["ISBN/UID"]).1 else EmptyIsbn
    ensures IsbnHolds(CellsWith(row, shelf, k), row)
  {
    CellAt(row, shelf, k, Isbn);
    CellAt(row, shelf, k, Isbn13);
  }

  lemma IsbnCellsOf(row: Row, shelf: string)
    ensures IsbnHolds(RowCells(row, shelf), row)
  {
    IsbnWith(row, shelf, Derive(row, shelf));
  }

  /**
   * `Author l-f` splits back into the last token of `Authors` with a comma,
   * followed by the other tokens in order; an author of fewer than two tokens
   * leaves it "".
   */
  ghost predicate AuthorHolds(gr: GoodreadsRow, row: Row) {
    && AuthorLf in gr
    && var ws := if "Authors" in row then Words(row["Authors"]) else [];
    && (|ws| > 1 ==> Words(gr[AuthorLf]) == [ws[|ws| - 1] + ","] + ws[..|ws| - 1])
    && (|ws| <= 1 ==> gr[AuthorLf] == "")
  }

  lemma AuthorWith(row: Row, shelf: string, k: Derived)
    requires k.authorLf == AuthorLfCell(row)
    ensures AuthorHolds(CellsWith(row, shelf, k), row)
  {
    CellAt(row, shelf, k, AuthorLf);
    if "Authors" in row && |Words(row["Authors"])| > 1 {
      LastFirstWords(row["Authors"]);
    }
  }

  lemma AuthorCells(row: Row, shelf: string)
    ensures AuthorHolds(RowCells(row, shelf), row)
  {
    AuthorWith(row, shelf, Derive(row, shelf));
  }

  lemma LastFirstWords(author: string)
    requires |Words(author)| > 1
    ensures var ws := Words(author);
      Words(AuthorLastFirst(author)) == [ws[|ws| - 1] + ","] + ws[..|ws| - 1]
  {
    var ws := Words(author);
    var last := ws[|ws| - 1];
    var rest := Join(ws[..|ws| - 1], " ");
    assert AuthorLastFirst(author) == (last + ",") + (" " + rest);
    assert IsWord(last + ",") by {
      assert IsWord(last);
      assert forall i :: 0 <= i < |last| ==> (last + ",")[i] == last[i];
    }
    WordsAfterWord(last + ",", " " + rest);
    WordsAfterSpace(rest);
    WordsOfJoin(ws[..|ws| - 1]);
  }

  /**
   * `Read Count` is "0" when the column is absent and copied as it is when
   * blank; otherwise it is the decimal text of `max(0, trunc(v))`, or "0"
   * when `v` is not a number.
   */
  ghost predicate ReadCountHolds(gr: GoodreadsRow, row: Row) {
    && ReadCount in gr
    && ("Read Count" !in row ==> gr[ReadCount] == "0")
    && ("Read Count" in row && AllSpace(row["Read Count"]) ==> gr[ReadCount] == row["Read Count"])
    && ("Read Count" in row && !AllSpace(row["Read Count"]) ==>
          && gr[ReadCount] != [] && AllDigits(gr[ReadCount])
          && match ParseTrunc(row["Read Count"])
             case Some(i) => DigitsValue(gr[ReadCount]) == if i < 0 then 0 else i
             case None => gr[ReadCount] == "0")
  }

  lemma ReadCountWith(row: Row, shelf: string, k: Derived)
    requires k.readCount == ReadCountCell(row)
    ensures ReadCountHolds(CellsWith(row, shelf, k), row)
  {
    CellAt(row, shelf, k, ReadCount);
  }

  lemma ReadCountCells(row: Row, shelf: string)
    ensures ReadCountHolds(RowCells(row, shelf), row)
  {
    ReadCountWith(row, shelf, Derive(row, shelf));
  }

  /** `Owned Copies` is "1" exactly when `Owned?`, lower-cased, is yes, true, y or 1, and "0" otherwise. */
  ghost predicate OwnedHolds(gr: GoodreadsRow, row: Row) {
    && OwnedCopies in gr
    && (gr[OwnedCopies] == "0" || gr[OwnedCopies] == "1")
    && (gr[OwnedCopies] == "1" <==> "Owned?" in row && Lower(row["Owned?"]) in ["yes", "true", "y", "1"])
  }

  lemma OwnedWith(row: Row, shelf: string, k: Derived)
    requires k.owned == OwnedCell(row)
    ensures OwnedHolds(CellsWith(row, shelf, k), row)
  {
    CellAt(row, shelf, k, OwnedCopies);
  }

  lemma OwnedCells(row: Row, shelf: string)
    ensures OwnedHolds(RowCells(row, shelf), row)
  {
    OwnedWith(row, shelf, Derive(row, shelf));
  }

  /** `My Rating` is always the text of an integer: the converted `Star Rating`, or "0" without one. */
  ghost predicate RatingHolds(gr: GoodreadsRow, row: Row) {
    && MyRating in gr && IsIntText(gr[MyRating])
    && gr[MyRating] == if "Star Rating" in row then ConvertRating(row["Star Rating"]) else "0"
  }

  lemma RatingWith(row: Row, shelf: string, k: Derived)
    requires k.rating == if "Star Rating" in row then ConvertRating(row["Star Rating"]) else "0"
    ensures RatingHolds(CellsWith(row, shelf, k), row)
  {
    CellAt(row, shelf, k, MyRating);
    if "Star Rating" !in row {
      assert IntToString(0) == "0";
      IntToStringParses(0);
    }
  }

  lemma RatingCells(row: Row, shelf: string)
    ensures RatingHolds(RowCells(row, shelf), row)
  {
    RatingWith(row, shelf, Derive(row, shelf));
  }

  /** The fallback `Date Added` is itself a Goodreads date. */
  lemma FallbackDateAdded()
    ensures IsGoodreadsDate(DefaultDateAdded)
  {
    var d := Date(2025, 1, 1);
    FormatParses(d);
    assert Format(d) == DefaultDateAdded by {
      assert Pad2(20) == "20" && Pad2(25) == "25" && Pad2(1) == "01";
    }
  }

  /**
   * `Date Added` is "" without the column; with it, the converted date, or
   * 2025/01/01 when that is "": a Goodreads date either way.
   */
  ghost predicate DateAddedHolds(gr: GoodreadsRow, row: Row) {
    && DateAdded in gr
    && ("Date Added" !in row ==> gr[DateAdded] == "")
    && ("Date Added" in row ==>
          && IsGoodreadsDate(gr[DateAdded])
          && gr[DateAdded] == if ConvertDate(row["Date Added"]) != [] then ConvertDate(row["Date Added"]) else DefaultDateAdded)
  }

  lemma DateAddedWith(row: Row, shelf: string, k: Derived)
    requires k.dateAdded == if "Date Added" in row then DateAddedCell(row["Date Added"]) else ""
    ensures DateAddedHolds(CellsWith(row, shelf, k), row)
  {
    CellAt(row, shelf, k, DateAdded);
    var gr := CellsWith(row, shelf, k);
    assert gr[DateAdded] == k.dateAdded;
    if "Date Added" in row {
      var d := ConvertDate(row["Date Added"]);
      assert d == [] || IsGoodreadsDate(d);
      FallbackDateAdded();
    }
  }

  lemma DateAddedCells(row: Row, shelf: string)
    ensures DateAddedHolds(RowCells(row, shelf), row)
  {
    DateAddedWith(row, shelf, Derive(row, shelf));
  }

  /**
   * `Title`, `Author`, `Binding` and `My Review` are copied from `Title`,
   * `Authors`, `Format` and `Review`.
   */
  ghost predicate CopiedHold(gr: GoodreadsRow, row: Row) {
    && ("Title" in row ==> Title in gr && gr[Title] == row["Title"])
    && ("Authors" in row ==> Author in gr && gr[Author] == row["Authors"])
    && Binding in gr && gr[Binding] == Get(row, "Format", "")
    && MyReview in gr && gr[MyReview] == Get(row, "Review", "")
  }

  lemma CopiedWith(row: Row, shelf: string, k: Derived)
    ensures CopiedHold(CellsWith(row, shelf, k), row)
  {
    CellAt(row, shelf, k, Title);
    CellAt(row, shelf, k, Author);
    CellAt(row, shelf, k, Binding);
    CellAt(row, shelf, k, MyReview);
  }

  lemma CopiedCells(row: Row, shelf: string)
    ensures CopiedHold(RowCells(row, shelf), row)
  {
    CopiedWith(row, shelf, Derive(row, shelf));
  }

  /** The Goodreads columns no StoryGraph column feeds and no step computes. */
  predicate NoSource(c: Column) {
    c == BookId || c == AdditionalAuthors || c == AverageRating || c == Publisher || c == NumberOfPages
    || c == YearPublished || c == OriginalPublicationYear || c == Spoiler || c == PrivateNotes
  }

  /** The columns StoryGraph has no source for stay "". */
  lemma BlankWith(row: Row, shelf: string, k: Derived, c: Column)
    requires NoSource(c)
    ensures c in CellsWith(row, shelf, k) && CellsWith(row, shelf, k)[c] == ""
  {
    CellAt(row, shelf, k, c);
  }

  lemma BlankCells(row: Row, shelf: string)
    ensures forall c :: NoSource(c) ==> c in RowCells(row, shelf) && RowCells(row, shelf)[c] == ""
  {
    forall c | NoSource(c)
      ensures c in RowCells(row, shelf) && RowCells(row, shelf)[c] == ""
    {
      BlankWith(row, shelf, Derive(row, shelf), c);
    }
  }

  /** Everything a converted row holds, with the shelf `convert_csv` maps its `Read Status` to. */
  ghost predicate ConvertedHolds(gr: GoodreadsRow, row: Row) {
    var shelf := RowShelf(row);
    && IsShelf(shelf)
    && ShelvesHold(gr, row, shelf)
    && DateReadHolds(gr, row, shelf)
    && IsbnHolds(gr, row)
    && AuthorHolds(gr, row)
    && ReadCountHolds(gr, row)
    && OwnedHolds(gr, row)
    && RatingHolds(gr, row)
    && DateAddedHolds(gr, row)
    && CopiedHold(gr, row)
  }

  lemma ExpectedRowHolds(row: Row)
    ensures ConvertedHolds(ExpectedRow(row), row)
  {
    var shelf := RowShelf(row);
    assert ExpectedRow(row) == RowCells(row, shelf);
    ShelfCells(row, shelf);
    DateReadCells(row, shelf);
    IsbnCellsOf(row, shelf);
    AuthorCells(row, shelf);
    ReadCountCells(row, shelf);
    OwnedCells(row, shelf);
    RatingCells(row, shelf);
    DateAddedCells(row, shelf);
    CopiedCells(row, shelf);
  }
}
