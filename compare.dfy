/**
 * `compare_csv.py`: the rows of a new library export whose book is not
 * already in an existing export, found by header aliases, normalised keys
 * and one set of keys built from the existing rows.
 */
module Compare {
  import opened Wrappers
  import opened Text
  import opened Tables

  // ---------------------------------------------------------------------------
  // Header aliases
  // ---------------------------------------------------------------------------

  const TitleNames: seq<string> := ["Title", "title"]
  const AuthorNames: seq<string> := ["Authors", "Author", "authors", "author"]
  const IsbnNames: seq<string> := ["ISBN/UID", "ISBN", "isbn", "ISBN13", "isbn13"]

  /**
   * `find_column_name`: the first of `names`, in their order, that is one of
   * `headers`; None when none is.
   */
  function FindColumnName(headers: seq<string>, names: seq<string>): (r: Option<string>)
    ensures r.None? <==> forall j :: 0 <= j < |names| ==> names[j] !in headers
    ensures r.Some? ==> (r.value in headers &&
      exists i :: 0 <= i < |names| && names[i] == r.value && forall j :: 0 <= j < i ==> names[j] !in headers)
  {
    if names == [] then None
    else if names[0] in headers then Some(names[0])
    else FindColumnName(headers, names[1..])
  }

  /** The columns of one file the comparison reads: a title column, and an author and an ISBN column when present. */
  datatype Columns = Columns(title: string, author: Option<string>, isbn: Option<string>)

  /** The three lookups for one file; None when it has no title column, where the comparison stops. */
  function FindColumns(headers: seq<string>): (r: Option<Columns>)
    ensures r.None? <==> "Title" !in headers && "title" !in headers
    ensures r.Some? ==> r.value.title in TitleNames && r.value.title in headers
  {
    assert TitleNames[0] == "Title" && TitleNames[1] == "title";
    match FindColumnName(headers, TitleNames)
    case None => None
    case Some(t) => Some(Columns(t, FindColumnName(headers, AuthorNames), FindColumnName(headers, IsbnNames)))
  }

  // ---------------------------------------------------------------------------
  // Keys
  // ---------------------------------------------------------------------------

  /** `strip()`, then every `-`, every `="` and every `"` removed, in that order. */
  function NormalIsbn(v: string): (r: string)
    ensures '-' !in r && '"' !in r
  {
    RemoveAll(RemoveAll(RemoveAll(Strip(v), "-"), "=\""), "\"")
  }

  /** The title key: the title cell, stripped and lower-cased. */
  function TitleKey(row: Row, cols: Columns): string {
    Lower(Strip(Get(row, cols.title, "")))
  }

  /** The author key: "" without an author column. */
  function AuthorKey(row: Row, cols: Columns): string {
    match cols.author
    case None => ""
    case Some(a) => Lower(Strip(Get(row, a, "")))
  }

  /** The ISBN key: "" without an ISBN column. */
  function IsbnKey(row: Row, cols: Columns): string {
    match cols.isbn
    case None => ""
    case Some(c) => NormalIsbn(Get(row, c, ""))
  }

  /** `f"{title}|{author}"`. */
  function PairKey(title: string, author: string): string {
    title + "|" + author
  }

  /**
   * The keys one existing row adds: its ISBN key when non-empty, and either
   * `title|author` (author non-empty) or the bare title.
   */
  function BookKeys(row: Row, cols: Columns): (keys: set<string>)
    ensures IsbnKey(row, cols) != [] ==> IsbnKey(row, cols) in keys
    ensures AuthorKey(row, cols) != [] ==> PairKey(TitleKey(row, cols), AuthorKey(row, cols)) in keys
    ensures AuthorKey(row, cols) == [] ==> TitleKey(row, cols) in keys
    ensures keys <= {IsbnKey(row, cols), PairKey(TitleKey(row, cols), AuthorKey(row, cols)), TitleKey(row, cols)}
    ensures |keys| <= 2
  {
    var title, author, isbn := TitleKey(row, cols), AuthorKey(row, cols), IsbnKey(row, cols);
    (if isbn != [] then {isbn} else {}) + {if author != [] then PairKey(title, author) else title}
  }

  /** The keys of a sequence of rows, added row by row. */
  function UnionKeys(rows: seq<Row>, keysOf: Row -> set<string>): set<string> {
    if rows == [] then {} else UnionKeys(rows[..|rows| - 1], keysOf) + keysOf(rows[|rows| - 1])
  }

  /** The keys one existing row adds, as a function of the row. */
  function RowKeys(cols: Columns): Row -> set<string> {
    row => BookKeys(row, cols)
  }

  /** `existing_books` after the loop over the existing rows. */
  function ExistingKeys(rows: seq<Row>, cols: Columns): set<string> {
    UnionKeys(rows, RowKeys(cols))
  }

  /** A key is in the set exactly when some existing row added it. */
  lemma ExistingKeysHold(rows: seq<Row>, cols: Columns, key: string)
    ensures key in ExistingKeys(rows, cols) <==> exists i :: 0 <= i < |rows| && key in BookKeys(rows[i], cols)
  {
    var keysOf := RowKeys(cols);
    if key in UnionKeys(rows, keysOf) {
      var i := AddedBy(rows, keysOf, key);
      assert key in BookKeys(rows[i], cols);
    }
    if exists i :: 0 <= i < |rows| && key in BookKeys(rows[i], cols) {
      var i :| 0 <= i < |rows| && key in BookKeys(rows[i], cols);
      KeptKey(rows, keysOf, i, key);
    }
  }

  /** The row that added a key to the union. */
  lemma {:induction false} AddedBy(rows: seq<Row>, keysOf: Row -> set<string>, key: string) returns (i: nat)
    requires key in UnionKeys(rows, keysOf)
    ensures i < |rows| && key in keysOf(rows[i])
  {
    var front := rows[..|rows| - 1];
    if key in keysOf(rows[|rows| - 1]) {
      i := |rows| - 1;
    } else {
      i := AddedBy(front, keysOf, key);
      assert rows[i] == front[i];
    }
  }

  /** A key some row adds stays in the union. */
  lemma {:induction false} KeptKey(rows: seq<Row>, keysOf: Row -> set<string>, i: nat, key: string)
    requires i < |rows| && key in keysOf(rows[i])
    ensures key in UnionKeys(rows, keysOf)
  {
    if i < |rows| - 1 {
      var front := rows[..|rows| - 1];
      assert front[i] == rows[i];
      KeptKey(front, keysOf, i, key);
    }
  }

  /**
   * The `is_unique` test failing: the ISBN key is non-empty and known, or
   * the author key is non-empty and `title|author` is known, or the bare
   * title is known.
   */
  predicate IsDuplicate(row: Row, cols: Columns, keys: set<string>) {
    var title, author, isbn := TitleKey(row, cols), AuthorKey(row, cols), IsbnKey(row, cols);
    (isbn != [] && isbn in keys) || (author != [] && PairKey(title, author) in keys) || title in keys
  }

  /** `unique_entries`: the new rows that are not duplicates, in their order. */
  function KeptRows(rows: seq<Row>, cols: Columns, keys: set<string>): seq<Row> {
    if rows == [] then []
    else
      var last := rows[|rows| - 1];
      KeptRows(rows[..|rows| - 1], cols, keys) + if IsDuplicate(last, cols, keys) then [] else [last]
  }

  // ---------------------------------------------------------------------------
  // The comparison
  // ---------------------------------------------------------------------------

  /**
   * `compare_storygraph_libraries`: nothing when either file is missing or
   * either has no title column; otherwise the new file's header and its
   * rows that are not in the existing file.
   */
  method CompareLibraries(newMissing: bool, existingMissing: bool, newFile: DictFile, existing: DictFile)
    returns (out: Option<DictFile>)
    ensures out.None? <==>
      newMissing || existingMissing || FindColumns(existing.fieldnames).None? || FindColumns(newFile.fieldnames).None?
    ensures out.Some? ==>
      out.value == DictFile(newFile.fieldnames,
        KeptRows(newFile.rows, FindColumns(newFile.fieldnames).value,
          ExistingKeys(existing.rows, FindColumns(existing.fieldnames).value)))
  {
    if newMissing || existingMissing {
      return None;
    }
    var existingCols := FindColumns(existing.fieldnames);
    var newCols := FindColumns(newFile.fieldnames);
    if existingCols.None? || newCols.None? {
      return None;
    }
    var keys := CollectKeys(existing.rows, existingCols.value);
    var unique := FilterRows(newFile.rows, newCols.value, keys);
    out := Some(DictFile(newFile.fieldnames, unique));
  }

  /** One pass of the loop that fills `existing_books`: the ISBN key, then the pair or the bare title. */
  method AddBookKeys(keys: set<string>, row: Row, cols: Columns) returns (keys': set<string>)
    ensures keys' == keys + BookKeys(row, cols)
  {
    var title := TitleKey(row, cols);
    var author := AuthorKey(row, cols);
    var isbn := IsbnKey(row, cols);
    keys' := keys;
    if isbn != [] {
      keys' := keys' + {isbn};
    }
    if author != [] {
      keys' := keys' + {PairKey(title, author)};
    } else {
      keys' := keys' + {title};
    }
  }

  /** One more row adds its own keys to the set. */
  lemma ExistingKeysStep(rows: seq<Row>, n: nat, cols: Columns)
    requires n < |rows|
    ensures ExistingKeys(rows[..n + 1], cols) == ExistingKeys(rows[..n], cols) + BookKeys(rows[n], cols)
  {
    assert rows[..n + 1][..n] == rows[..n];
    assert RowKeys(cols)(rows[n]) == BookKeys(rows[n], cols);
  }

  /** The loop that fills `existing_books`. */
  method CollectKeys(rows: seq<Row>, cols: Columns) returns (keys: set<string>)
    ensures keys == ExistingKeys(rows, cols)
  {
    keys := {};
    for n := 0 to |rows|
      invariant keys == ExistingKeys(rows[..n], cols)
    {
      keys := AddBookKeys(keys, rows[n], cols);
      ExistingKeysStep(rows, n, cols);
    }
    assert rows[..|rows|] == rows;
  }

  /** The loop over the new rows that appends each row whose `is_unique` flag survives. */
  /** The `is_unique` test for one new row: the ISBN key, then the pair, then the bare title. */
  method CheckUnique(row: Row, cols: Columns, keys: set<string>) returns (isUnique: bool)
    ensures isUnique <==> !IsDuplicate(row, cols, keys)
  {
    var title := TitleKey(row, cols);
    var author := AuthorKey(row, cols);
    var isbn := IsbnKey(row, cols);
    isUnique := true;
    if isbn != [] && isbn in keys {
      isUnique := false;
    } else if author != [] && PairKey(title, author) in keys {
      isUnique := false;
    } else if title in keys {
      isUnique := false;
    }
  }

  /** One more new row is kept exactly when it is not a duplicate. */
  lemma KeptRowsStep(rows: seq<Row>, n: nat, cols: Columns, keys: set<string>)
    requires n < |rows|
    ensures KeptRows(rows[..n + 1], cols, keys)
      == KeptRows(rows[..n], cols, keys) + if IsDuplicate(rows[n], cols, keys) then [] else [rows[n]]
  {
    assert rows[..n + 1][..n] == rows[..n];
  }

  method FilterRows(rows: seq<Row>, cols: Columns, keys: set<string>) returns (unique: seq<Row>)
    ensures unique == KeptRows(rows, cols, keys)
  {
    unique := [];
    for n := 0 to |rows|
      invariant unique == KeptRows(rows[..n], cols, keys)
    {
      var isUnique := CheckUnique(rows[n], cols, keys);
      if isUnique {
        unique := unique + [rows[n]];
      }
      KeptRowsStep(rows, n, cols, keys);
    }
    assert rows[..|rows|] == rows;
  }

  // ---------------------------------------------------------------------------
  // Lemmas
  // ---------------------------------------------------------------------------

  /** The kept rows are the new rows with some left out, the rest in input order. */
  lemma {:induction false} KeptSubsequence(rows: seq<Row>, cols: Columns, keys: set<string>)
    ensures Subsequence(KeptRows(rows, cols, keys), rows)
  {
    if rows != [] {
      var front := rows[..|rows| - 1];
      var last := rows[|rows| - 1];
      KeptSubsequence(front, cols, keys);
      var kept := KeptRows(rows, cols, keys);
      if IsDuplicate(last, cols, keys) {
        assert kept == KeptRows(front, cols, keys);
        assert kept == [] || Subsequence(kept, rows[..|rows| - 1]);
      } else {
        assert kept[..|kept| - 1] == KeptRows(front, cols, keys);
      }
    }
  }

  /** A row is kept exactly when it is a new row that is not a duplicate. */
  lemma {:induction false} KeptMembers(rows: seq<Row>, cols: Columns, keys: set<string>, row: Row)
    ensures row in KeptRows(rows, cols, keys) <==> row in rows && !IsDuplicate(row, cols, keys)
  {
    if rows != [] {
      var front := rows[..|rows| - 1];
      KeptMembers(front, cols, keys, row);
      assert rows == front + [rows[|rows| - 1]];
    }
  }

  /** Against an existing file with no rows, every new row is kept. */
  lemma EmptyExistingKeepsAll(rows: seq<Row>, cols: Columns, existingCols: Columns)
    ensures KeptRows(rows, cols, ExistingKeys([], existingCols)) == rows
  {
    assert ExistingKeys([], existingCols) == {};
    NothingKnownKeepsAll(rows, cols);
  }

  lemma {:induction false} NothingKnownKeepsAll(rows: seq<Row>, cols: Columns)
    ensures KeptRows(rows, cols, {}) == rows
  {
    if rows != [] {
      var front, last := rows[..|rows| - 1], rows[|rows| - 1];
      NothingKnownKeepsAll(front, cols);
      assert !IsDuplicate(last, cols, {});
      assert KeptRows(rows, cols, {}) == front + [last];
    }
  }

  /** A new row with the ISBN key of some existing row is dropped. */
  lemma SharedIsbnDropped(existing: seq<Row>, existingCols: Columns, i: nat, row: Row, cols: Columns)
    requires i < |existing|
    requires IsbnKey(row, cols) != [] && IsbnKey(row, cols) == IsbnKey(existing[i], existingCols)
    ensures IsDuplicate(row, cols, ExistingKeys(existing, existingCols))
  {
    ExistingKeysHold(existing, existingCols, IsbnKey(row, cols));
  }

  /** A new row with the title and author keys of some existing row is dropped. */
  lemma SameBookDropped(existing: seq<Row>, existingCols: Columns, i: nat, row: Row, cols: Columns)
    requires i < |existing|
    requires TitleKey(row, cols) == TitleKey(existing[i], existingCols)
    requires AuthorKey(row, cols) == AuthorKey(existing[i], existingCols)
    ensures IsDuplicate(row, cols, ExistingKeys(existing, existingCols))
  {
    var title, author := TitleKey(row, cols), AuthorKey(row, cols);
    ExistingKeysHold(existing, existingCols, if author != [] then PairKey(title, author) else title);
  }

  /** An ISBN of digits is its own key, written plainly or in Goodreads' `="…"` form. */
  lemma QuotedIsbnKey(d: string)
    requires d != [] && AllDigits(d)
    ensures NormalIsbn(d) == d
    ensures NormalIsbn("=\"" + d + "\"") == d
  {
    PlainIsbnKey(d);
    QuotedUntrimmed(d);
    UnquoteLeading(d);
    UnquoteTrailing(d);
  }

  /** The quoted form has nothing to strip and no `-` to remove. */
  lemma QuotedUntrimmed(d: string)
    requires AllDigits(d)
    ensures RemoveAll(Strip("=\"" + d + "\""), "-") == "=\"" + d + "\""
  {
    var q := "=\"" + d + "\"";
    StripUnpadded(q);
    assert forall i :: 0 <= i < |q| ==> q[i] == '=' || q[i] == '"' || IsDigit(q[i]);
    RemoveAbsent(q, "-");
  }

  /** Removing `="` from the quoted form leaves the digits and the closing quote. */
  lemma UnquoteLeading(d: string)
    requires AllDigits(d)
    ensures RemoveAll("=\"" + d + "\"", "=\"") == d + "\""
  {
    var t := d + "\"";
    assert "=\"" + d + "\"" == "=\"" + t;
    RemoveLeading("=\"", t);
    assert forall i :: 0 <= i < |t| ==> t[i] == '"' || IsDigit(t[i]);
    RemoveAbsent(t, "=\"");
  }

  /** Removing `"` then leaves the digits. */
  lemma UnquoteTrailing(d: string)
    requires AllDigits(d)
    ensures RemoveAll(d + "\"", "\"") == d
  {
    RemoveCharConcat(d, "\"", '"');
    RemoveAbsent(d, "\"");
    assert RemoveAll("\"", "\"") == [];
  }

  lemma PlainIsbnKey(d: string)
    requires d != [] && AllDigits(d)
    ensures NormalIsbn(d) == d
  {
    StripUnpadded(d);
    RemoveAbsent(d, "-");
    RemoveAbsent(d, "=\"");
    RemoveAbsent(d, "\"");
  }

  /** A hyphenated ISBN such as 978-3-16-148410-0 keys as its digits alone. */
  lemma HyphenatedIsbnKey(s: string)
    requires s != [] && forall i :: 0 <= i < |s| ==> IsDigit(s[i]) || s[i] == '-'
    ensures NormalIsbn(s) == Digits(s)
  {
    StripUnpadded(s);
    RemoveHyphens(s);
    RemoveAbsent(Digits(s), "=\"");
    RemoveAbsent(Digits(s), "\"");
  }

  /** `replace` on a text that starts with the pattern removes that occurrence first. */
  lemma RemoveLeading(pat: string, t: string)
    requires pat != []
    ensures RemoveAll(pat + t, pat) == RemoveAll(t, pat)
  {
    assert pat <= pat + t && (pat + t)[|pat|..] == t;
  }
}
