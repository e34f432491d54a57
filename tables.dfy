/** The shapes the `csv` module hands the utilities, once parsed. */
module Tables {

  /** A `DictReader` row: column name to cell. */
  type Row = map<string, string>

  /** A `csv.reader` record: the cells of one line, in order. */
  type Record = seq<string>

  /** `row.get(key, default)`. */
  function Get(row: Row, key: string, default: string): (v: string)
    ensures key in row ==> v == row[key]
    ensures key !in row ==> v == default
  {
    if key in row then row[key] else default
  }

  /** A file written by `DictWriter`: its header line and its rows. */
  datatype DictFile = DictFile(fieldnames: seq<string>, rows: seq<Row>)

  /** A file written by `csv.writer`: its header line and its records. */
  datatype CsvFile = CsvFile(header: Record, records: seq<Record>)

  /** `a` is `b` with some elements left out, the rest in order. */
  predicate Subsequence<T(==)>(a: seq<T>, b: seq<T>)
    decreases |b|
  {
    a == [] ||
    (b != [] &&
     ((a[|a| - 1] == b[|b| - 1] && Subsequence(a[..|a| - 1], b[..|b| - 1])) || Subsequence(a, b[..|b| - 1])))
  }
}
