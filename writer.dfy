/**
 * What the cells of one Goodreads row are while `convert_csv` builds it:
 * defaults first, then each StoryGraph column copied in `row.items()` order,
 * then the cells derived from the whole row.
 */
module RowStages {
  import opened Wrappers
  import opened Tables
  import opened Convert

  /**
   * The cells while the loop over `row.items()` runs: the columns in `written`
   * have been patched from their StoryGraph column; `Author l-f`, `Read Count`
   * and `Owned Copies` are patched after the loop.
   */
  ghost function StageCell(row: Row, shelf: string, k: Derived, written: set<Column>, c: Column): Option<string> {
    match c
    case Title => if Title in written && "Title" in row then Some(row["Title"]) else None
    case Author => if Author in written && "Authors" in row then Some(row["Authors"]) else None
    case Isbn => Some(if Isbn13 in written then k.isbn else EmptyIsbn)
    case Isbn13 => Some(if Isbn13 in written then k.isbn13 else EmptyIsbn)
    case MyRating => Some(if MyRating in written then k.rating else "0")
    case Binding => Some(if Binding in written && "Format" in row then row["Format"] else "")
    case DateRead => Some(if DateRead in written then k.dateRead else "")
    case DateAdded => Some(if DateAdded in written then k.dateAdded else "")
    case Bookshelves => Some(if Bookshelves in written && "Tags" in row then row["Tags"] else shelf)
    case BookshelvesWithPositions => Some(shelf + " (#1)")
    case ExclusiveShelf => Some(shelf)
    case MyReview => Some(if MyReview in written && "Review" in row then row["Review"] else "")
    case ReadCount => Some(if ReadCount in written && "Read Count" in row then row["Read Count"] else "0")
    case OwnedCopies => Some("0")
    case _ => Some("")
  }

  ghost predicate Agrees(gr: GoodreadsRow, row: Row, shelf: string, k: Derived, written: set<Column>) {
    forall c {:trigger StageCell(row, shelf, k, written, c)} ::
      && (c in gr <==> StageCell(row, shelf, k, written, c).Some?)
      && (c in gr ==> gr[c] == StageCell(row, shelf, k, written, c).value)
  }

  /** The row before the loop: `default_values` with the three shelf cells set. */
  function InitialRow(shelf: string): GoodreadsRow {
    Defaults[ExclusiveShelf := shelf][Bookshelves := shelf][BookshelvesWithPositions := shelf + " (#1)"]
  }

  lemma InitialColumns(shelf: string, c: Column)
    ensures c in InitialRow(shelf) <==> c != Title && c != Author
  {
  }

  lemma InitialStages(row: Row, shelf: string, k: Derived, c: Column)
    ensures StageCell(row, shelf, k, {}, c).Some? <==> c != Title && c != Author
  {
  }

  /** The value a column starts with, before the loop. */
  function StartValue(shelf: string, c: Column): string {
    if c == ExclusiveShelf || c == Bookshelves then shelf
    else if c == BookshelvesWithPositions then shelf + " (#1)"
    else DefaultValue(c)
  }

  lemma InitialValue(shelf: string, c: Column)
    requires c != Title && c != Author
    ensures InitialRow(shelf)[c] == StartValue(shelf, c)
  {
  }

  lemma InitialStageValue(row: Row, shelf: string, k: Derived, c: Column)
    requires c != Title && c != Author
    ensures StageCell(row, shelf, k, {}, c) == Some(StartValue(shelf, c))
  {
  }

  lemma InitialAgrees(row: Row, shelf: string, k: Derived)
    ensures Agrees(InitialRow(shelf), row, shelf, k, {})
  {
    forall c
      ensures c in InitialRow(shelf) <==> StageCell(row, shelf, k, {}, c).Some?
      ensures c in InitialRow(shelf) ==> InitialRow(shelf)[c] == StageCell(row, shelf, k, {}, c).value
    {
      InitialColumns(shelf, c);
      InitialStages(row, shelf, k, c);
      if c in InitialRow(shelf) {
        InitialValue(shelf, c);
        InitialStageValue(row, shelf, k, c);
      }
    }
  }

  /** Marking `g` written changes no cell but `g`'s, and `ISBN`'s when `g` is `ISBN13`. */
  lemma OtherCellsKept(row: Row, shelf: string, k: Derived, written: set<Column>, g: Column, c: Column)
    requires c != g && !(g == Isbn13 && c == Isbn)
    ensures StageCell(row, shelf, k, written + {g}, c) == StageCell(row, shelf, k, written, c)
  {
  }

  lemma AgreesAfterWrite(gr: GoodreadsRow, gr': GoodreadsRow, row: Row, shelf: string, k: Derived,
                         written: set<Column>, g: Column)
    requires Agrees(gr, row, shelf, k, written)
    requires forall c :: c != g && !(g == Isbn13 && c == Isbn) ==>
               (c in gr' <==> c in gr) && (c in gr ==> gr'[c] == gr[c])
    requires g in gr' && StageCell(row, shelf, k, written + {g}, g) == Some(gr'[g])
    requires g == Isbn13 ==> Isbn in gr' && StageCell(row, shelf, k, written + {g}, Isbn) == Some(gr'[Isbn])
    ensures Agrees(gr', row, shelf, k, written + {g})
  {
    forall c
      ensures (c in gr' <==> StageCell(row, shelf, k, written + {g}, c).Some?)
        && (c in gr' ==> gr'[c] == StageCell(row, shelf, k, written + {g}, c).value)
    {
      if c != g && !(g == Isbn13 && c == Isbn) {
        OtherCellsKept(row, shelf, k, written, g, c);
      }
    }
  }

  /** Writing the cell the stage expects for `g` keeps the row in step. */
  lemma WriteCell(gr: GoodreadsRow, row: Row, shelf: string, k: Derived, written: set<Column>, g: Column, value: string)
    requires Agrees(gr, row, shelf, k, written)
    requires g != Isbn13 && StageCell(row, shelf, k, written + {g}, g) == Some(value)
    ensures Agrees(gr[g := value], row, shelf, k, written + {g})
  {
    AgreesAfterWrite(gr, gr[g := value], row, shelf, k, written, g);
  }

  /** `Date Added` gets the converted date, or the fallback. */
  lemma WriteDateAdded(gr: GoodreadsRow, row: Row, shelf: string, k: Derived, written: set<Column>, value: string)
    requires Agrees(gr, row, shelf, k, written)
    requires k.dateAdded == value
    ensures Agrees(gr[DateAdded := value], row, shelf, k, written + {DateAdded})
  {
    WriteCell(gr, row, shelf, k, written, DateAdded, value);
  }

  /** `Date Read` gets the converted date on the `read` shelf when it is not "". */
  lemma WriteDateRead(gr: GoodreadsRow, row: Row, shelf: string, k: Derived, written: set<Column>, value: string)
    requires Agrees(gr, row, shelf, k, written)
    requires k.dateRead == value
    ensures Agrees(gr[DateRead := value], row, shelf, k, written + {DateRead})
  {
    WriteCell(gr, row, shelf, k, written, DateRead, value);
  }

  /** `Date Read` is left alone off the `read` shelf and when the date converts to "". */
  lemma SkipDateRead(gr: GoodreadsRow, row: Row, shelf: string, k: Derived, written: set<Column>)
    requires Agrees(gr, row, shelf, k, written)
    requires k.dateRead == ""
    ensures Agrees(gr, row, shelf, k, written + {DateRead})
  {
    assert StageCell(row, shelf, k, written, DateRead) == Some("");
    AgreesAfterWrite(gr, gr, row, shelf, k, written, DateRead);
  }

  /** `My Rating` gets the converted rating. */
  lemma WriteRating(gr: GoodreadsRow, row: Row, shelf: string, k: Derived, written: set<Column>, value: string)
    requires Agrees(gr, row, shelf, k, written)
    requires k.rating == value
    ensures Agrees(gr[MyRating := value], row, shelf, k, written + {MyRating})
  {
    WriteCell(gr, row, shelf, k, written, MyRating, value);
  }

  /** Any other mapped column gets the StoryGraph value as it is. */
  lemma WritePlain(gr: GoodreadsRow, row: Row, shelf: string, k: Derived, written: set<Column>, f: string)
    requires Agrees(gr, row, shelf, k, written)
    requires f in row && f in FieldMapping
    requires FieldMapping[f] !in {DateAdded, DateRead, MyRating, Isbn13, ExclusiveShelf}
    ensures Agrees(gr[FieldMapping[f] := row[f]], row, shelf, k, written + {FieldMapping[f]})
  {
    MappedSource(f);
    WriteCell(gr, row, shelf, k, written, FieldMapping[f], row[f]);
  }

  /** Writing both ISBN cells from an `ISBN/UID` value with 10 or 13 digits. */
  lemma WriteIsbn(gr: GoodreadsRow, gr': GoodreadsRow, row: Row, shelf: string, k: Derived, written: set<Column>)
    requires Agrees(gr, row, shelf, k, written)
    requires Isbn in gr' && gr'[Isbn] == k.isbn
    requires Isbn13 in gr' && gr'[Isbn13] == k.isbn13
    requires forall c :: c != Isbn && c != Isbn13 ==> (c in gr' <==> c in gr) && (c in gr ==> gr'[c] == gr[c])
    ensures Agrees(gr', row, shelf, k, written + {Isbn13})
  {
    AgreesAfterWrite(gr, gr', row, shelf, k, written, Isbn13);
  }

  /** An `ISBN/UID` with neither 10 nor 13 digits leaves both ISBN cells alone. */
  lemma SkipIsbn(gr: GoodreadsRow, row: Row, shelf: string, k: Derived, written: set<Column>)
    requires Agrees(gr, row, shelf, k, written)
    requires k.isbn == EmptyIsbn && k.isbn13 == EmptyIsbn
    ensures Agrees(gr, row, shelf, k, written + {Isbn13})
  {
    assert StageCell(row, shelf, k, written, Isbn) == Some(EmptyIsbn);
    assert StageCell(row, shelf, k, written, Isbn13) == Some(EmptyIsbn);
    AgreesAfterWrite(gr, gr, row, shelf, k, written, Isbn13);
  }

  /** What the loop leaves, once every mapped column present in the row has been written. */
  lemma AfterLoop(gr: GoodreadsRow, row: Row, shelf: string, k: Derived, written: set<Column>, c: Column)
    requires Agrees(gr, row, shelf, k, written) && Fallbacks(row, shelf, k)
    requires forall d :: SourceName(d).Some? && SourceName(d).value in row && d != ExclusiveShelf ==> d in written
    requires c !in Patched
    ensures c in gr <==> CellOf(row, shelf, k, c).Some?
    ensures c in gr ==> gr[c] == CellOf(row, shelf, k, c).value
  {
    var d := if c == Isbn then Isbn13 else c;
    if SourceName(d).Some? && d != ExclusiveShelf && SourceName(d).value in row {
      assert d in written;
    }
    assert StageCell(row, shelf, k, written, c) == CellOf(row, shelf, k, c);
  }

  /** A map that has the expected cell in every column is the expected row. */
  lemma RowFromCells(gr: GoodreadsRow, row: Row, shelf: string, k: Derived)
    requires forall c :: (c in gr <==> CellOf(row, shelf, k, c).Some?)
    requires forall c :: c in gr ==> gr[c] == CellOf(row, shelf, k, c).value
    ensures gr == CellsWith(row, shelf, k)
  {
    forall c | c in gr
      ensures c in GoodreadsColumns
    {
      ColumnListed(c);
    }
    forall c | CellOf(row, shelf, k, c).Some?
      ensures c in GoodreadsColumns
    {
      ColumnListed(c);
    }
  }

  /** The columns the steps after the loop patch. */
  const Patched: set<Column> := {AuthorLf, ReadCount, OwnedCopies, DateRead}

  /** A patch changes no column outside `Patched`. */
  lemma PatchKeeps(gr: GoodreadsRow, c: Column, value: string)
    requires c in Patched
    ensures gr[c := value] - Patched == gr - Patched
  {
  }

  /** The row after the patches that follow the loop is the expected row. */
  lemma FinishRow(looped: GoodreadsRow, gr: GoodreadsRow, row: Row, shelf: string, k: Derived, written: set<Column>)
    requires Agrees(looped, row, shelf, k, written) && Fallbacks(row, shelf, k)
    requires forall d :: SourceName(d).Some? && SourceName(d).value in row && d != ExclusiveShelf ==> d in written
    requires AuthorLf in gr && gr[AuthorLf] == k.authorLf
    requires ReadCount in gr && gr[ReadCount] == k.readCount
    requires OwnedCopies in gr && gr[OwnedCopies] == k.owned
    requires DateRead in gr && gr[DateRead] == k.dateRead
    requires gr - Patched == looped - Patched
    ensures gr == CellsWith(row, shelf, k)
  {
    forall c
      ensures c in gr <==> CellOf(row, shelf, k, c).Some?
      ensures c in gr ==> gr[c] == CellOf(row, shelf, k, c).value
    {
      if c !in Patched {
        assert c in gr <==> c in gr - Patched;
        AfterLoop(looped, row, shelf, k, written, c);
      }
    }
    RowFromCells(gr, row, shelf, k);
  }

  /** What the loop leaves in the cells the steps after it read or patch. */
  lemma LoopedCells(looped: GoodreadsRow, row: Row, shelf: string, k: Derived, written: set<Column>)
    requires Agrees(looped, row, shelf, k, written) && Fallbacks(row, shelf, k)
    requires forall d :: SourceName(d).Some? && SourceName(d).value in row && d != ExclusiveShelf ==> d in written
    ensures Author in looped <==> "Authors" in row
    ensures Author in looped ==> looped[Author] == row["Authors"]
    ensures AuthorLf in looped && looped[AuthorLf] == ""
    ensures ReadCount in looped && looped[ReadCount] == Get(row, "Read Count", "0")
    ensures OwnedCopies in looped && looped[OwnedCopies] == "0"
    ensures DateRead in looped && looped[DateRead] == k.dateRead
  {
    assert SourceName(Author) == Some("Authors");
    assert SourceName(ReadCount) == Some("Read Count");
    assert SourceName(DateRead) == Some("Last Date Read");
    assert StageCell(row, shelf, k, written, Author).Some? == ("Authors" in row);
    assert StageCell(row, shelf, k, written, AuthorLf) == Some("");
    assert StageCell(row, shelf, k, written, ReadCount) == Some(Get(row, "Read Count", "0"));
    assert StageCell(row, shelf, k, written, OwnedCopies) == Some("0");
    assert StageCell(row, shelf, k, written, DateRead) == Some(k.dateRead);
  }
}

/** The loop that builds one Goodreads row, proved against `Convert.RowCells`. */
module RowWriter {
  import opened Wrappers
  import opened Text
  import opened Tables
  import opened Dates
  import opened Shelves
  import opened Ratings
  import opened Convert
  import opened RowStages

  /** What `convert_csv` writes: the Goodreads header and the cells of each row, in order. */
  datatype Output = Output(fieldnames: seq<string>, rows: seq<GoodreadsRow>)

  /**
   * `convert_csv` over a parsed StoryGraph export whose header is `fields`:
   * nothing when the file is missing, otherwise the 24 Goodreads column
   * names followed by one converted row per StoryGraph row, in order.
   */
  method ConvertCsv(missing: bool, fields: seq<string>, rows: seq<Row>) returns (out: Option<Output>)
    requires forall i :: 0 <= i < |rows| ==> ItemsOrder(rows[i], fields)
    ensures missing <==> out.None?
    ensures out.Some? ==> out.value.fieldnames == GoodreadsFieldnames && out.value.rows == ExpectedRows(rows)
  {
    if missing {
      return None;
    }
    var written := ConvertRows(fields, rows);
    out := Some(Output(GoodreadsFieldnames, written));
  }

  /** The loop over the StoryGraph rows, one Goodreads row written per row read. */
  method ConvertRows(fields: seq<string>, rows: seq<Row>) returns (written: seq<GoodreadsRow>)
    requires forall i :: 0 <= i < |rows| ==> ItemsOrder(rows[i], fields)
    ensures written == ExpectedRows(rows)
  {
    written := [];
    for n := 0 to |rows|
      invariant written == ExpectedRows(rows[..n])
    {
      var gr := ConvertRow(rows[n], fields);
      ExpectedRowsSnoc(rows, n);
      written := written + [gr];
    }
    assert rows[..|rows|] == rows;
  }

  /** The converted rows of `rows`, in order. */
  ghost function ExpectedRows(rows: seq<Row>): (out: seq<GoodreadsRow>)
    ensures |out| == |rows|
  {
    if rows == [] then [] else ExpectedRows(rows[..|rows| - 1]) + [ExpectedRow(rows[|rows| - 1])]
  }

  lemma ExpectedRowsSnoc(rows: seq<Row>, n: nat)
    requires n < |rows|
    ensures ExpectedRows(rows[..n + 1]) == ExpectedRows(rows[..n]) + [ExpectedRow(rows[n])]
  {
    assert rows[..n + 1][..n] == rows[..n];
  }

  /** Row `i` of the output is the conversion of row `i` of the input. */
  lemma {:induction false} ExpectedRowsAt(rows: seq<Row>, i: nat)
    requires i < |rows|
    ensures ExpectedRows(rows)[i] == ExpectedRow(rows[i])
    decreases |rows|
  {
    if i < |rows| - 1 {
      var front := rows[..|rows| - 1];
      ExpectedRowsAt(front, i);
      assert ExpectedRows(rows)[i] == ExpectedRows(front)[i];
    }
  }

  /**
   * Converts one StoryGraph row, as `convert_csv` does for each row it reads,
   * into the cells of the Goodreads row it writes.
   */
  method ConvertRow(row: Row, fields: seq<string>) returns (gr: GoodreadsRow)
    requires ItemsOrder(row, fields)
    ensures gr == ExpectedRow(row)
  {
    var readStatus := Strip(Get(row, "Read Status", ""));
    var mappedStatus := MapReadingStatus(readStatus);
    gr := BuildRow(row, fields, mappedStatus);
  }

  /**
   * The body of the row loop once the status is mapped: start from the
   * defaults, set the three shelf cells, copy the mapped columns, then derive
   * `Author l-f`, `Read Count` and `Owned Copies` and clear `Date Read` off
   * the `read` shelf.
   */
  method BuildRow(row: Row, fields: seq<string>, shelf: string) returns (gr: GoodreadsRow)
    requires ItemsOrder(row, fields)
    ensures gr == RowCells(row, shelf)
  {
    ghost var k := Derive(row, shelf);
    forall f | f in row
      ensures DerivedFor(row, shelf, k, f)
    {
      DeriveFor(row, shelf, f);
    }
    DeriveFallbacks(row, shelf);
    DeriveAfter(row, shelf);
    gr := Defaults;
    gr := gr[ExclusiveShelf := shelf];
    gr := gr[Bookshelves := shelf];
    gr := gr[BookshelvesWithPositions := shelf + " (#1)"];
    InitialAgrees(row, shelf, k);
    ghost var written;
    gr, written := CopyFields(gr, row, fields, shelf, k);
    gr := PatchRow(gr, row, shelf, k, written);
  }

  /** The loop over `row.items()`: every mapped StoryGraph column copied into its Goodreads column. */
  method CopyFields(gr0: GoodreadsRow, row: Row, fields: seq<string>, shelf: string, ghost k: Derived)
    returns (gr: GoodreadsRow, ghost written: set<Column>)
    requires ItemsOrder(row, fields)
    requires forall f :: f in row ==> DerivedFor(row, shelf, k, f)
    requires Agrees(gr0, row, shelf, k, {})
    ensures Agrees(gr, row, shelf, k, written)
    ensures forall d :: SourceName(d).Some? && SourceName(d).value in row && d != ExclusiveShelf ==> d in written
  {
    gr, written := gr0, {};
    var i := 0;
    while i < |fields|
      invariant 0 <= i <= |fields|
      invariant Agrees(gr, row, shelf, k, written)
      invariant forall j :: 0 <= j < i && fields[j] in FieldMapping && FieldMapping[fields[j]] != ExclusiveShelf
                  ==> FieldMapping[fields[j]] in written
    {
      ghost var before := written;
      gr, written := CopyField(gr, row, shelf, k, written, fields[i]);
      assert before <= written;
      i := i + 1;
    }
    forall d | SourceName(d).Some? && SourceName(d).value in row && d != ExclusiveShelf
      ensures d in written
    {
      SourceMapped(d);
      var j :| 0 <= j < |fields| && fields[j] == SourceName(d).value;
    }
  }

  /** One pass of the loop over `row.items()`: the StoryGraph column `f` patched into its Goodreads column. */
  method CopyField(gr: GoodreadsRow, row: Row, shelf: string, ghost k: Derived, ghost written: set<Column>, f: string)
    returns (gr': GoodreadsRow, ghost written': set<Column>)
    requires f in row && DerivedFor(row, shelf, k, f)
    requires Agrees(gr, row, shelf, k, written)
    ensures Agrees(gr', row, shelf, k, written')
    ensures written' == if f in FieldMapping && FieldMapping[f] != ExclusiveShelf then written + {FieldMapping[f]} else written
  {
    gr', written' := gr, written;
    var v := row[f];
    if f in FieldMapping && FieldMapping[f] != ExclusiveShelf {
      var g := FieldMapping[f];
      if g == DateAdded {
        var dateAdded := ConvertDate(v);
        WriteDateAdded(gr, row, shelf, k, written, if dateAdded != [] then dateAdded else DefaultDateAdded);
        gr' := gr[g := if dateAdded != [] then dateAdded else DefaultDateAdded];
      } else if g == DateRead {
        var dateRead := ConvertDate(v);
        if shelf == "read" && dateRead != [] {
          WriteDateRead(gr, row, shelf, k, written, dateRead);
          gr' := gr[g := dateRead];
        } else {
          SkipDateRead(gr, row, shelf, k, written);
        }
      } else if g == MyRating {
        WriteRating(gr, row, shelf, k, written, ConvertRating(v));
        gr' := gr[g := ConvertRating(v)];
      } else if g == Isbn13 {
        var isbn := Digits(v);
        if isbn != [] {
          if |isbn| == 10 {
            gr' := gr[Isbn := Quoted(isbn)];
            gr' := gr'[Isbn13 := BlankIsbn];
            WriteIsbn(gr, gr', row, shelf, k, written);
          } else if |isbn| == 13 {
            gr' := gr[Isbn13 := Quoted(isbn)];
            gr' := gr'[Isbn := BlankIsbn];
            WriteIsbn(gr, gr', row, shelf, k, written);
          } else {
            SkipIsbn(gr, row, shelf, k, written);
          }
        } else {
          SkipIsbn(gr, row, shelf, k, written);
        }
      } else {
        WritePlain(gr, row, shelf, k, written, f);
        gr' := gr[g := v];
      }
      written' := written + {g};
    }
  }

  /** The steps after the loop: `Author l-f`, `Read Count`, `Owned Copies`, and `Date Read` off the `read` shelf. */
  method PatchRow(looped: GoodreadsRow, row: Row, shelf: string, ghost k: Derived, ghost written: set<Column>)
    returns (gr: GoodreadsRow)
    requires Fallbacks(row, shelf, k) && DerivedAfter(row, shelf, k)
    requires Agrees(looped, row, shelf, k, written)
    requires forall d :: SourceName(d).Some? && SourceName(d).value in row && d != ExclusiveShelf ==> d in written
    ensures gr == CellsWith(row, shelf, k)
  {
    LoopedCells(looped, row, shelf, k, written);
    gr := looped;
    if Author in gr && gr[Author] != [] {
      var authorParts := Words(gr[Author]);
      if |authorParts| > 1 {
        var lastName := authorParts[|authorParts| - 1];
        var firstNames := Join(authorParts[..|authorParts| - 1], " ");
        PatchKeeps(gr, AuthorLf, lastName + ", " + firstNames);
        gr := gr[AuthorLf := lastName + ", " + firstNames];
      }
    }
    assert gr[AuthorLf] == k.authorLf by {
      assert Words([]) == [];
    }

    if "Read Count" in row && row["Read Count"] != [] && Strip(row["Read Count"]) != [] {
      PatchKeeps(gr, ReadCount, ReadCountText(row["Read Count"]));
      gr := gr[ReadCount := ReadCountText(row["Read Count"])];
    }
    assert gr[ReadCount] == k.readCount;

    if "Owned?" in row {
      PatchKeeps(gr, OwnedCopies, OwnedFlag(row["Owned?"]));
      gr := gr[OwnedCopies := OwnedFlag(row["Owned?"])];
    }
    assert gr[OwnedCopies] == k.owned;

    if shelf != "read" {
      PatchKeeps(gr, DateRead, "");
      gr := gr[DateRead := ""];
    }
    assert gr[DateRead] == k.dateRead;
    FinishRow(looped, gr, row, shelf, k, written);
  }
}

/** What holds of every row of a converted file. */
module ConvertedFile {
  import opened Tables
  import opened Convert
  import opened RowFacts
  import opened RowWriter

  /** Row `i` of the converted file holds every column fact about StoryGraph row `i`. */
  lemma OutputRowsHold(rows: seq<Row>, i: nat)
    requires i < |rows|
    ensures ConvertedHolds(ExpectedRows(rows)[i], rows[i])
  {
    ExpectedRowsAt(rows, i);
    ExpectedRowHolds(rows[i]);
  }
}
