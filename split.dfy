/**
 * `split.py`: a Goodreads CSV cut into numbered files of at most N records
 * each, or into one file per `Exclusive Shelf` value. The file system the
 * utilities write is a map from path to file contents.
 */
module Split {
  import opened Text
  import opened Numbers
  import opened Tables

  // ---------------------------------------------------------------------------
  // Paths
  // ---------------------------------------------------------------------------

  /** The length of `p` up to and including its last `/` (0 when it has none). */
  function SlashEnd(p: string): (k: nat)
    ensures k <= |p| && (k > 0 ==> p[k - 1] == '/')
    ensures forall i :: k <= i < |p| ==> p[i] != '/'
  {
    if p == [] then 0 else if p[|p| - 1] == '/' then |p| else SlashEnd(p[..|p| - 1])
  }

  /** `s.rstrip('/')`. */
  function RStripSlash(s: string): (r: string)
    ensures |r| <= |s| && r == s[..|r|]
    ensures r == [] || r[|r| - 1] != '/'
  {
    if s != [] && s[|s| - 1] == '/' then RStripSlash(s[..|s| - 1]) else s
  }

  /** `os.path.dirname`: everything before the last `/`, trailing slashes dropped unless that is all there is. */
  function DirName(p: string): string {
    var head := p[..SlashEnd(p)];
    if exists i :: 0 <= i < |head| && head[i] != '/' then RStripSlash(head) else head
  }

  /** `base_dir if base_dir else "."`. */
  function OutputDir(input: string): (dir: string)
    ensures dir != []
  {
    if DirName(input) == [] then "." else DirName(input)
  }

  /** `os.path.join(dir, name)` for a non-empty `name`. */
  function JoinPath(dir: string, name: string): string
    requires name != []
  {
    if name[0] == '/' then name
    else if dir == [] || dir[|dir| - 1] == '/' then dir + name
    else dir + "/" + name
  }

  /** `f"{output_prefix}_{chunk_num}.csv"` in the output directory. */
  function ChunkPath(dir: string, prefix: string, k: nat): string {
    JoinPath(dir, prefix + "_" + NatToString(k) + ".csv")
  }

  /** `f"{output_prefix}_{status}.csv"` in the output directory. */
  function StatusPath(dir: string, prefix: string, status: string): string {
    JoinPath(dir, prefix + "_" + status + ".csv")
  }

  /** Two texts that differ only in their middle parts differ there. */
  lemma MiddleEqual(a: string, x: string, y: string, b: string)
    requires a + x + b == a + y + b
    ensures x == y
  {
    assert |x| == |y|;
    assert x == (a + x + b)[|a|..|a| + |x|];
    assert y == (a + y + b)[|a|..|a| + |y|];
  }

  /** In one directory, two names that both start with `/` or both do not are joined to the same path only when equal. */
  lemma JoinPathInjective(dir: string, x: string, y: string)
    requires x != [] && y != [] && (x[0] == '/' <==> y[0] == '/')
    requires JoinPath(dir, x) == JoinPath(dir, y)
    ensures x == y
  {
    if x[0] != '/' {
      if dir == [] || dir[|dir| - 1] == '/' {
        MiddleEqual(dir, x, y, []);
      } else {
        MiddleEqual(dir + "/", x, y, []);
      }
    }
  }

  /** Names built from one prefix start alike: with the prefix's first character, or with `_`. */
  lemma SameLead(prefix: string, x: string, y: string)
    ensures (prefix + "_" + x + ".csv")[0] == (prefix + "_" + y + ".csv")[0]
  {
  }

  /** Distinct chunk numbers give distinct files. */
  lemma ChunkPathInjective(dir: string, prefix: string, j: nat, k: nat)
    requires ChunkPath(dir, prefix, j) == ChunkPath(dir, prefix, k)
    ensures j == k
  {
    SameLead(prefix, NatToString(j), NatToString(k));
    JoinPathInjective(dir, prefix + "_" + NatToString(j) + ".csv", prefix + "_" + NatToString(k) + ".csv");
    MiddleEqual(prefix + "_", NatToString(j), NatToString(k), ".csv");
    NatToStringInjective(j, k);
  }

  /** Distinct statuses give distinct files. */
  lemma StatusPathInjective(dir: string, prefix: string, s: string, t: string)
    requires StatusPath(dir, prefix, s) == StatusPath(dir, prefix, t)
    ensures s == t
  {
    SameLead(prefix, s, t);
    JoinPathInjective(dir, prefix + "_" + s + ".csv", prefix + "_" + t + ".csv");
    MiddleEqual(prefix + "_", s, t, ".csv");
  }

  // ---------------------------------------------------------------------------
  // split_csv
  // ---------------------------------------------------------------------------

  function Min(a: int, b: int): int {
    if a <= b then a else b
  }

  /** `ceil(total / n)` for a count `total` and a positive `n`. */
  function Ceil(total: nat, n: nat): nat
    requires n > 0
    decreases total
  {
    if total == 0 then 0 else 1 + Ceil(if total <= n then 0 else total - n, n)
  }

  /** `Ceil` is the ceiling: the fewest chunks of `n` that hold `total`. */
  lemma {:induction false} CeilBounds(total: nat, n: nat)
    requires n > 0
    ensures total <= Ceil(total, n) * n < total + n
    decreases total
  {
    if total > 0 {
      var rest := if total <= n then 0 else total - n;
      CeilBounds(rest, n);
      assert Ceil(total, n) * n == Ceil(rest, n) * n + n;
    }
  }

  /** The records cut into consecutive chunks of `n`, the last one possibly shorter. */
  function Chunks<T>(records: seq<T>, n: nat): seq<seq<T>>
    requires n > 0
    decreases |records|
  {
    if records == [] then []
    else
      var m := Min(n, |records|);
      [records[..m]] + Chunks(records[m..], n)
  }

  /** The chunks one after another. */
  function Flatten<T>(chunks: seq<seq<T>>): seq<T> {
    if chunks == [] then [] else chunks[0] + Flatten(chunks[1..])
  }

  /** There are `ceil(total_rows / n)` chunks. */
  lemma {:induction false} ChunksCount<T>(records: seq<T>, n: nat)
    requires n > 0
    ensures |Chunks(records, n)| == Ceil(|records|, n)
    decreases |records|
  {
    if records != [] {
      ChunksCount(records[Min(n, |records|)..], n);
    }
  }

  /** Writing the chunks one after another gives back the records. */
  lemma {:induction false} ChunksFlatten<T>(records: seq<T>, n: nat)
    requires n > 0
    ensures Flatten(Chunks(records, n)) == records
    decreases |records|
  {
    if records != [] {
      var m := Min(n, |records|);
      ChunksFlatten(records[m..], n);
      assert records[..m] + records[m..] == records;
    }
  }

  /** Every chunk holds between 1 and `n` records, and every chunk but the last exactly `n`. */
  lemma {:induction false} ChunkSizes<T>(records: seq<T>, n: nat)
    requires n > 0
    ensures forall i :: 0 <= i < |Chunks(records, n)| ==> 0 < |Chunks(records, n)[i]| <= n
    ensures forall i :: 0 <= i < |Chunks(records, n)| - 1 ==> |Chunks(records, n)[i]| == n
    decreases |records|
  {
    if records != [] {
      var m := Min(n, |records|);
      var rest := records[m..];
      ChunkSizes(rest, n);
      var cs := Chunks(records, n);
      assert cs == [records[..m]] + Chunks(rest, n);
      forall i | 0 <= i < |cs| - 1
        ensures |cs[i]| == n
      {
        if i == 0 {
          assert Chunks(rest, n) != [];
        } else {
          assert cs[i] == Chunks(rest, n)[i - 1];
        }
      }
    }
  }

  /** The chunks from chunk `k` on are the chunks of the records from `k·n` on. */
  lemma {:induction false} ChunksFrom<T>(records: seq<T>, n: nat, k: nat)
    requires n > 0 && k * n <= |records|
    ensures k <= |Chunks(records, n)|
    ensures Chunks(records, n)[k..] == Chunks(records[k * n..], n)
  {
    if k > 0 {
      var a, b := (k - 1) * n, k * n;
      MulStep(k, n);
      ChunksFrom(records, n, k - 1);
      var from := records[a..];
      assert |from| >= n;
      assert Chunks(from, n) == [from[..n]] + Chunks(from[n..], n);
      assert from[n..] == records[b..];
      assert Chunks(records, n)[k..] == Chunks(records, n)[k - 1..][1..];
    }
  }

  /** Chunk `k` (counting from 0) holds records `k·n` up to `min(k·n + n, total)`. */
  lemma ChunkAt<T>(records: seq<T>, n: nat, k: nat)
    requires n > 0 && k < |Chunks(records, n)|
    ensures k * n < |records|
    ensures Chunks(records, n)[k] == records[k * n..Min(k * n + n, |records|)]
  {
    ChunkSizes(records, n);
    ChunksBefore(records, n, k);
    var lo := k * n;
    ChunksFrom(records, n, k);
    var from := records[lo..];
    assert Chunks(records, n)[k] == Chunks(from, n)[0];
    assert from[..Min(n, |from|)] == records[lo..Min(lo + n, |records|)];
  }

  /** The first `k` chunks hold `k·n` records. */
  lemma {:induction false} ChunksBefore<T>(records: seq<T>, n: nat, k: nat)
    requires n > 0 && k < |Chunks(records, n)|
    ensures k * n < |records|
    decreases |records|
  {
    var m := Min(n, |records|);
    if k > 0 {
      var rest := records[m..];
      assert Chunks(records, n) == [records[..m]] + Chunks(rest, n);
      ChunksBefore(rest, n, k - 1);
      MulStep(k, n);
    }
  }

  lemma MulStep(k: nat, n: nat)
    requires k > 0
    ensures (k - 1) * n + n == k * n
  {
  }

  /**
   * Reads up to `n` records from position `pos`, as the inner `for` loop's
   * calls to `next(reader)` do, stopping early at the end of the file.
   */
  method ReadChunk<T>(records: seq<T>, pos: nat, n: nat) returns (chunk: seq<T>, next: nat)
    requires n > 0 && pos <= |records|
    ensures next == pos + Min(n, |records| - pos)
    ensures chunk == records[pos..next]
  {
    chunk := [];
    next := pos;
    for i := 0 to n
      invariant next == pos + i && next <= |records|
      invariant chunk == records[pos..next]
    {
      if next == |records| {
        break;
      }
      chunk := chunk + [records[next]];
      next := next + 1;
    }
  }

  /**
   * The files after `done` chunks: `<prefix>_<k>.csv` holds the header and
   * chunk k for each k from 1 to `done`, and there is no other file.
   */
  ghost predicate ChunkFilesHold(files: map<string, CsvFile>, dir: string, prefix: string, header: Record,
                                 chunks: seq<seq<Record>>, done: nat)
    requires done <= |chunks|
  {
    ChunkFilesHave(files, dir, prefix, header, chunks, done) && ChunkFilesOnly(files, dir, prefix, done)
  }

  ghost predicate ChunkFilesHave(files: map<string, CsvFile>, dir: string, prefix: string, header: Record,
                                 chunks: seq<seq<Record>>, done: nat)
    requires done <= |chunks|
  {
    forall k :: 1 <= k <= done ==>
      ChunkPath(dir, prefix, k) in files && files[ChunkPath(dir, prefix, k)] == CsvFile(header, chunks[k - 1])
  }

  ghost predicate ChunkFilesOnly(files: map<string, CsvFile>, dir: string, prefix: string, done: nat) {
    forall p :: p in files ==> exists k :: 1 <= k <= done && p == ChunkPath(dir, prefix, k)
  }

  /** The records read for one chunk are the first chunk of what was left. */
  lemma ChunkRead(records: seq<Record>, pos: nat, n: nat, next: nat, chunk: seq<Record>)
    requires n > 0 && pos <= |records| && Chunks(records[pos..], n) != []
    requires next == pos + Min(n, |records| - pos) && chunk == records[pos..next]
    ensures Chunks(records[pos..], n) == [chunk] + Chunks(records[next..], n)
  {
    var rest := records[pos..];
    assert rest[..next - pos] == chunk && rest[next - pos..] == records[next..];
  }

  /** Writing chunk `done + 1` under its own path keeps the files of the earlier chunks. */
  lemma ChunkWritten(files: map<string, CsvFile>, dir: string, prefix: string, header: Record,
                     chunks: seq<seq<Record>>, done: nat, chunk: seq<Record>)
    requires done < |chunks| && chunk == chunks[done]
    requires ChunkFilesHold(files, dir, prefix, header, chunks, done)
    ensures ChunkFilesHold(files[ChunkPath(dir, prefix, done + 1) := CsvFile(header, chunk)], dir, prefix, header, chunks, done + 1)
  {
    var path := ChunkPath(dir, prefix, done + 1);
    forall k | 1 <= k <= done
      ensures ChunkPath(dir, prefix, k) != path
    {
      if ChunkPath(dir, prefix, k) == path {
        ChunkPathInjective(dir, prefix, k, done + 1);
      }
    }
    ChunkHaveStep(files, dir, prefix, header, chunks, done, chunk);
    ChunkOnlyStep(files, dir, prefix, done, CsvFile(header, chunk));
  }

  lemma ChunkHaveStep(files: map<string, CsvFile>, dir: string, prefix: string, header: Record,
                      chunks: seq<seq<Record>>, done: nat, chunk: seq<Record>)
    requires done < |chunks| && chunk == chunks[done]
    requires ChunkFilesHave(files, dir, prefix, header, chunks, done)
    requires forall k :: 1 <= k <= done ==> ChunkPath(dir, prefix, k) != ChunkPath(dir, prefix, done + 1)
    ensures ChunkFilesHave(files[ChunkPath(dir, prefix, done + 1) := CsvFile(header, chunk)], dir, prefix, header, chunks, done + 1)
  {
  }

  lemma ChunkOnlyStep(files: map<string, CsvFile>, dir: string, prefix: string, done: nat, f: CsvFile)
    requires ChunkFilesOnly(files, dir, prefix, done)
    ensures ChunkFilesOnly(files[ChunkPath(dir, prefix, done + 1) := f], dir, prefix, done + 1)
  {
  }

  /**
   * `split_csv`: nothing when the input is missing or `chunk_size` is not
   * positive (zero divides by zero, a negative size yields no chunk);
   * otherwise file `<prefix>_<k>.csv` in the input's directory holds the
   * header and chunk k, for each k from 1 to the number of chunks, and no
   * other file is written.
   */
  method SplitCsv(missing: bool, inputPath: string, prefix: string, chunkSize: int, input: CsvFile)
    returns (files: map<string, CsvFile>)
    ensures missing || chunkSize <= 0 ==> files == map[]
    ensures !missing && chunkSize > 0 ==>
      ChunkFilesHold(files, OutputDir(inputPath), prefix, input.header, Chunks(input.records, chunkSize), |Chunks(input.records, chunkSize)|)
  {
    files := map[];
    if missing || chunkSize <= 0 {
      return;
    }
    var dir := OutputDir(inputPath);
    var records := input.records;
    var totalRows := |records|;
    var numChunks := Ceil(totalRows, chunkSize);
    ghost var chunks := Chunks(records, chunkSize);
    ChunksCount(records, chunkSize);
    var pos: nat := 0;
    for chunkNum := 1 to numChunks + 1
      invariant pos <= totalRows
      invariant |chunks| == numChunks
      invariant chunks[chunkNum - 1..] == Chunks(records[pos..], chunkSize)
      invariant ChunkFilesHold(files, dir, prefix, input.header, chunks, chunkNum - 1)
    {
      var path := ChunkPath(dir, prefix, chunkNum);
      var chunk, next := ReadChunk(records, pos, chunkSize);
      assert chunks[chunkNum - 1..] != [];
      ChunkRead(records, pos, chunkSize, next, chunk);
      assert chunks[chunkNum - 1..][0] == chunk && chunks[chunkNum - 1..][1..] == chunks[chunkNum..];
      ChunkWritten(files, dir, prefix, input.header, chunks, chunkNum - 1, chunk);
      files := files[path := CsvFile(input.header, chunk)];
      pos := next;
    }
  }

  // ---------------------------------------------------------------------------
  // split_by_status
  // ---------------------------------------------------------------------------

  /** `row.get('Exclusive Shelf', 'unknown')`. */
  function Status(row: Row): string {
    Get(row, "Exclusive Shelf", "unknown")
  }

  /** The rows of one status, in input order. */
  function Group(rows: seq<Row>, s: string): seq<Row> {
    if rows == [] then []
    else
      var last := rows[|rows| - 1];
      Group(rows[..|rows| - 1], s) + if Status(last) == s then [last] else []
  }

  /** The statuses in the order their first row appears. */
  function Statuses(rows: seq<Row>): seq<string> {
    if rows == [] then []
    else
      var front := Statuses(rows[..|rows| - 1]);
      var s := Status(rows[|rows| - 1]);
      if s in front then front else front + [s]
  }

  /** The sizes of the groups of `ss`, added up. */
  function GroupSizes(rows: seq<Row>, ss: seq<string>): nat {
    if ss == [] then 0 else |Group(rows, ss[0])| + GroupSizes(rows, ss[1..])
  }

  /** A status has a group exactly when some row carries it; its group has only rows of that status. */
  lemma {:induction false} GroupHolds(rows: seq<Row>, s: string)
    ensures s in Statuses(rows) <==> Group(rows, s) != []
    ensures forall r :: r in Group(rows, s) ==> r in rows && Status(r) == s
    ensures Subsequence(Group(rows, s), rows)
  {
    if rows != [] {
      var front := rows[..|rows| - 1];
      var last := rows[|rows| - 1];
      GroupHolds(front, s);
      var g := Group(rows, s);
      if Status(last) == s {
        assert g[..|g| - 1] == Group(front, s);
      } else {
        assert g == Group(front, s);
        assert g == [] || Subsequence(g, rows[..|rows| - 1]);
      }
    }
  }

  /** Every row is in the group of its own status. */
  lemma {:induction false} RowInGroup(rows: seq<Row>, i: nat)
    requires i < |rows|
    ensures rows[i] in Group(rows, Status(rows[i]))
  {
    var front := rows[..|rows| - 1];
    if i < |rows| - 1 {
      RowInGroup(front, i);
      assert front[i] == rows[i];
    }
  }

  /** The first-seen statuses are distinct. */
  lemma {:induction false} StatusesDistinct(rows: seq<Row>)
    ensures forall i, j :: 0 <= i < j < |Statuses(rows)| ==> Statuses(rows)[i] != Statuses(rows)[j]
  {
    if rows != [] {
      StatusesDistinct(rows[..|rows| - 1]);
    }
  }

  /** Adding one row of status `t` grows the groups of `ss` by one row when `t` is among them. */
  lemma {:induction false} GroupSizesStep(rows: seq<Row>, r: Row, ss: seq<string>)
    requires forall i, j :: 0 <= i < j < |ss| ==> ss[i] != ss[j]
    ensures GroupSizes(rows + [r], ss) == GroupSizes(rows, ss) + if Status(r) in ss then 1 else 0
  {
    if ss != [] {
      GroupSizesStep(rows, r, ss[1..]);
      assert (rows + [r])[..|rows + [r]| - 1] == rows;
      if Status(r) == ss[0] {
        assert Status(r) !in ss[1..];
      }
    }
  }

  /** A status no row carries has an empty group, whatever else is listed. */
  lemma {:induction false} GroupSizesAppend(rows: seq<Row>, ss: seq<string>, t: string)
    ensures GroupSizes(rows, ss + [t]) == GroupSizes(rows, ss) + |Group(rows, t)|
  {
    if ss != [] {
      GroupSizesAppend(rows, ss[1..], t);
      assert (ss + [t])[1..] == ss[1..] + [t];
    }
  }

  /** Each row is written exactly once: the groups' sizes add up to the number of rows. */
  lemma {:induction false} CountsSum(rows: seq<Row>)
    ensures GroupSizes(rows, Statuses(rows)) == |rows|
  {
    if rows != [] {
      var front := rows[..|rows| - 1];
      var last := rows[|rows| - 1];
      var t := Status(last);
      CountsSum(front);
      StatusesDistinct(front);
      assert front + [last] == rows;
      GroupSizesStep(front, last, Statuses(front));
      if t !in Statuses(front) {
        GroupHolds(front, t);
        GroupSizesAppend(rows, Statuses(front), t);
        assert Group(rows, t) == [last];
      }
    }
  }

  /** `status_counts` after the rows so far: one entry per status seen, holding the size of its group. */
  ghost predicate CountsHold(counts: map<string, nat>, rows: seq<Row>) {
    && (forall s :: s in counts <==> s in Statuses(rows))
    && (forall s :: s in counts ==> counts[s] == |Group(rows, s)|)
  }

  /** The files after the rows so far: one per known status, holding the header and that status's rows. */
  ghost predicate FilesHold(files: map<string, DictFile>, known: set<string>, dir: string, prefix: string,
                            fieldnames: seq<string>, rows: seq<Row>) {
    && (forall s :: s in known ==>
          StatusPath(dir, prefix, s) in files && files[StatusPath(dir, prefix, s)] == DictFile(fieldnames, Group(rows, s)))
    && (forall p :: p in files ==> exists s :: s in known && p == StatusPath(dir, prefix, s))
  }

  /** What has gone through each status's writer: the header and the rows of that status so far. */
  ghost predicate GroupsHold(written: map<string, DictFile>, fieldnames: seq<string>, rows: seq<Row>) {
    forall s :: s in written ==> written[s] == DictFile(fieldnames, Group(rows, s))
  }

  lemma CountsStep(counts: map<string, nat>, rows: seq<Row>, n: nat)
    requires n < |rows| && CountsHold(counts, rows[..n])
    ensures var t := Status(rows[n]);
      CountsHold(counts[t := (if t in counts then counts[t] else 0) + 1], rows[..n + 1])
  {
    var t := Status(rows[n]);
    assert rows[..n + 1][..n] == rows[..n];
    GroupHolds(rows[..n], t);
  }

  /** A status not seen before starts with the header alone, which is its (empty) group so far. */
  lemma OpenStep(written: map<string, DictFile>, fieldnames: seq<string>, rows: seq<Row>, t: string)
    requires GroupsHold(written, fieldnames, rows) && t !in Statuses(rows)
    ensures GroupsHold(written[t := DictFile(fieldnames, [])], fieldnames, rows)
  {
    GroupHolds(rows, t);
  }

  /** Writing row `n` through its status's writer extends that group and no other. */
  lemma AppendStep(written: map<string, DictFile>, fieldnames: seq<string>, rows: seq<Row>, n: nat)
    requires n < |rows| && Status(rows[n]) in written
    requires GroupsHold(written, fieldnames, rows[..n])
    ensures var t := Status(rows[n]);
      GroupsHold(written[t := DictFile(fieldnames, written[t].rows + [rows[n]])], fieldnames, rows[..n + 1])
  {
    assert rows[..n + 1][..n] == rows[..n];
  }

  /** Each status's file sits at its own `<prefix>_<status>.csv`. */
  function StatusFiles(dir: string, prefix: string, written: map<string, DictFile>): (files: map<string, DictFile>)
    ensures forall s :: s in written ==> StatusPath(dir, prefix, s) in files && files[StatusPath(dir, prefix, s)] == written[s]
    ensures forall p :: p in files ==> exists s :: s in written && p == StatusPath(dir, prefix, s)
  {
    StatusPathsDistinct(dir, prefix);
    map s | s in written :: StatusPath(dir, prefix, s) := written[s]
  }

  lemma StatusPathsDistinct(dir: string, prefix: string)
    ensures forall s, t :: StatusPath(dir, prefix, s) == StatusPath(dir, prefix, t) ==> s == t
  {
    forall s, t | StatusPath(dir, prefix, s) == StatusPath(dir, prefix, t)
      ensures s == t
    {
      StatusPathInjective(dir, prefix, s, t);
    }
  }

  /**
   * `split_by_status`: nothing when the input is missing; otherwise the file
   * `<prefix>_<status>.csv` of each status holds the header and the rows of
   * that status in input order, no other file is written, and
   * `status_counts` holds the size of each group.
   */
  method SplitByStatus(missing: bool, inputPath: string, prefix: string, input: DictFile)
    returns (files: map<string, DictFile>, counts: map<string, nat>)
    ensures missing ==> files == map[] && counts == map[]
    ensures !missing ==>
      CountsHold(counts, input.rows) && FilesHold(files, counts.Keys, OutputDir(inputPath), prefix, input.fieldnames, input.rows)
  {
    files, counts := map[], map[];
    if missing {
      return;
    }
    var dir := OutputDir(inputPath);
    var rows := input.rows;
    var outputFiles: map<string, DictFile> := map[];
    for n := 0 to |rows|
      invariant outputFiles.Keys == counts.Keys
      invariant CountsHold(counts, rows[..n])
      invariant GroupsHold(outputFiles, input.fieldnames, rows[..n])
    {
      var row := rows[n];
      var status := Status(row);
      CountsStep(counts, rows, n);
      counts := counts[status := (if status in counts then counts[status] else 0) + 1];
      if status !in outputFiles {
        OpenStep(outputFiles, input.fieldnames, rows[..n], status);
        outputFiles := outputFiles[status := DictFile(input.fieldnames, [])];
      }
      AppendStep(outputFiles, input.fieldnames, rows, n);
      outputFiles := outputFiles[status := DictFile(input.fieldnames, outputFiles[status].rows + [row])];
    }
    assert rows[..|rows|] == rows;
    files := StatusFiles(dir, prefix, outputFiles);
  }
}
