# StoryGraph to Goodreads utilities, modelled in Dafny

The repository holds three batch utilities. Each one turns the rows of a CSV
library export into other CSV rows:

- `storygraph_to_goodreads.py` converts a StoryGraph export into a Goodreads
  import file. Each StoryGraph row becomes a 24-column Goodreads row. The row
  starts from fixed defaults and is then patched field by field: the status
  is mapped to a shelf, dates are normalised to `YYYY/MM/DD`, ratings and read
  counts are truncated to integers, ISBN digits are sent to `ISBN` or `ISBN13`,
  and a "Surname, Given" author is derived.
- `compare_csv.py` keeps the rows of a new export whose book is not already in
  an existing export. It finds the title, author and ISBN columns through
  header aliases. It builds one set of normalised keys from the existing rows
  and drops every new row that hits that set.
- `split.py` cuts a Goodreads file into numbered files of at most N records,
  or into one file per `Exclusive Shelf` value.

The model works on parsed rows. A `DictReader` row is a `map<string, string>`
and a `csv.reader` record is a `seq<string>`. A file is its header plus its
rows. The file system that `split.py` writes is a map from path to file. A
missing input file is a boolean parameter.

Modules:

- `Text`: the Python string operations used: `strip`, `lower`, `split()`,
  `join`, `in`, `replace` and `isdigit`.
- `Numbers`: `str(int)` and `int(float(s))`.
- `Dates`: `convert_date_format`.
- `Shelves`: `map_reading_status`.
- `Ratings`: `convert_rating`.
- `Tables`: rows and files.
- `Convert`: what a converted row holds, as functions.
- `RowStages` and `RowWriter`: the imperative per-row loop, proved equal to
  `Convert.ExpectedRow`.
- `RowFacts` and `ConvertedFile`: the per-column facts about every converted
  row.
- `Compare`: `compare_csv.py`.
- `Split`: `split.py`.

Where the code and its description differ, the model follows the code:

- The converter writes 24 columns (storygraph_to_goodreads.py:124-131), not 23.
- `Bookshelves` is the mapped shelf unless the StoryGraph row has a `Tags`
  column. `Tags` maps to `Bookshelves` and is copied over it verbatim by the
  generic branch (storygraph_to_goodreads.py:89, 191-192).
- A `Read Count` that is present but blank is copied as it is, so it does not
  always become a number. Only a non-blank value is parsed
  (storygraph_to_goodreads.py:203).
- `map_reading_status` does not recognise its own output `abandoned`. That
  value maps to `to-read`, so the status mapping is idempotent on every shelf
  but `abandoned`.
- In `split_by_status` a present but empty `Exclusive Shelf` cell is a status
  of its own. It is written to `<prefix>_.csv`. Only an absent cell becomes
  `unknown` (split.py:108).

## Model

| member | source | states |
|---|---|---|
| Text.Strip | storygraph_to_goodreads.py:40 | `strip` gives "" exactly when the text is all blanks. Otherwise neither end of the result is a blank, and a text without blanks at its ends is returned unchanged |
| Text.StripPadding | storygraph_to_goodreads.py:40 | blanks added around a text never change its `strip` |
| Text.Lower | storygraph_to_goodreads.py:40 | `lower` keeps the length |
| Text.LowerChars | storygraph_to_goodreads.py:40 | `lower` leaves no ASCII capital in its result. It keeps every character that is not an ASCII capital, and turns each capital into its small letter |
| Text.LowerTwice | storygraph_to_goodreads.py:40 | `lower` is idempotent |
| Text.Words | storygraph_to_goodreads.py:195 | every token of `split()` is non-empty and has no blank |
| Text.WordsOfJoin | storygraph_to_goodreads.py:197 | `split()` undoes `' '.join` on blank-free tokens |
| Text.RemoveAll | compare_csv.py:73 | `replace(pat, '')` never lengthens the text and adds no character. A one-character pattern is gone afterwards |
| Text.RemoveHyphens | compare_csv.py:100-103 | on a text of digits and hyphens, `replace('-', '')` leaves exactly its digits |
| Text.Digits | storygraph_to_goodreads.py:183 | the kept characters are all digits and are no more than the input. A text of digits is kept whole, and a text without digits gives "" |
| Text.DigitsConcat | storygraph_to_goodreads.py:183 | the digits of a concatenation are the digits of each part, in order |
| Text.DigitsSnoc | storygraph_to_goodreads.py:183 | appending a character appends it to the digits exactly when it is a digit, so the filter keeps every digit, in order, and nothing else |
| Numbers.NatToStringValue | storygraph_to_goodreads.py:205 | the digits `str(n)` writes have the value n |
| Numbers.IntToStringParses | storygraph_to_goodreads.py:62-64 | the model's exact decimal reading of `str(i)` gives back i for every integer i. Python's `float` agrees only up to 2^53 |
| Numbers.NegatedParse | storygraph_to_goodreads.py:64 | under the model's exact decimal reading, a `-` in front of an unpadded unsigned number negates what it reads as, and a failed read stays failed |
| Numbers.FractionTruncates | storygraph_to_goodreads.py:64 | the model's exact decimal reading of `<i>.<digits>` gives i for every integer i and every non-empty fraction: the fraction is truncated toward zero, for negative i too |
| Dates.ConvertDate | storygraph_to_goodreads.py:7-32 | the result is "" or a real calendar date in `YYYY/MM/DD` form. A blank or empty input gives "" |
| Dates.FormatParses | storygraph_to_goodreads.py:17 | reading the `strftime("%Y/%m/%d")` text of a date back with `%Y/%m/%d` gives the same date |
| Dates.PassThrough | storygraph_to_goodreads.py:21-24 | a text already in Goodreads form is returned verbatim, with no re-padding, because no earlier pattern reads it |
| Dates.Idempotent | storygraph_to_goodreads.py:21-24 | converting a non-empty converted date again changes nothing |
| Dates.IsoFirst | storygraph_to_goodreads.py:13-17 | ISO is tried first: a text ISO reads is reformatted from its ISO reading |
| Dates.DmyConverts | storygraph_to_goodreads.py:13-29 | `<d>/<m>/<yyyy>` in digits is reformatted from its day/month/year reading when that is a real date, and gives "" otherwise |
| Dates.MdyConverts | storygraph_to_goodreads.py:13-29 | `<Name> <d>, <yyyy>` is reformatted when the name is an English month and the date is real, and gives "" otherwise |
| Dates.UnreadWord | storygraph_to_goodreads.py:28-29 | a single word not starting with a digit matches no pattern and gives "" |
| Dates.IsoExample | storygraph_to_goodreads.py:13-17 | "2024-03-15" gives "2024/03/15" |
| Dates.DmyExample | storygraph_to_goodreads.py:13-17 | "15/03/2024" gives "2024/03/15" |
| Dates.MdyExample | storygraph_to_goodreads.py:13-17 | "March 15, 2024" gives "2024/03/15" |
| Shelves.MapReadingStatus | storygraph_to_goodreads.py:35-50 | the result is always read, currently-reading, to-read or abandoned. An empty status gives to-read |
| Shelves.ShelfCases | storygraph_to_goodreads.py:40-50 | each shelf, both directions: read iff the lowered, stripped status is "read"; abandoned iff "dnf"; currently-reading iff "currently-reading" or "currently reading"; to-read iff none of these |
| Shelves.SameKeySameShelf | storygraph_to_goodreads.py:37-40 | the shelf depends only on the lowered, stripped status |
| Shelves.PaddingIgnored | storygraph_to_goodreads.py:40 | blanks around the status never change the shelf |
| Shelves.CaseIgnored | storygraph_to_goodreads.py:40 | letter case never changes the shelf |
| Shelves.ShelfFixed | storygraph_to_goodreads.py:41-47 | read, currently-reading and to-read map to themselves |
| Shelves.AbandonedNotRecognised | storygraph_to_goodreads.py:41-50 | "abandoned" is not in the vocabulary and maps to to-read |
| Shelves.Idempotent | storygraph_to_goodreads.py:35-50 | mapping a mapped shelf again changes nothing unless it is abandoned |
| Shelves.DnfExample | storygraph_to_goodreads.py:48 | "DNF" gives abandoned |
| Shelves.CurrentlyReadingExample | storygraph_to_goodreads.py:44 | " Currently Reading " gives currently-reading |
| Shelves.UnknownExample | storygraph_to_goodreads.py:50 | an unrecognised status gives to-read |
| Ratings.TruncText | storygraph_to_goodreads.py:64-66 | `str(int(float(v)))` is an integer text with the value v truncates to. It is "0" when v is not a number |
| Ratings.ConvertRating | storygraph_to_goodreads.py:53-66 | the rating is always the decimal text of an integer. A blank or empty rating gives "0" |
| Ratings.IntTextFixed | storygraph_to_goodreads.py:64 | under the model's exact decimal reading, an integer text converts to itself |
| Ratings.Idempotent | storygraph_to_goodreads.py:53-66 | converting a converted rating again changes nothing |
| Ratings.StarsSuffix | storygraph_to_goodreads.py:61-62 | "`<n>` stars" gives `<n>` for every integer n, via the first token |
| Ratings.FiveStars | storygraph_to_goodreads.py:61-62 | "5 stars" gives "5" |
| Ratings.ThreePointSeven | storygraph_to_goodreads.py:64 | "3.7" gives "3" |
| Ratings.StarsAlone | storygraph_to_goodreads.py:61-66 | "stars" alone is a parse failure and gives "0" |
| Ratings.NumericHasNoStar | storygraph_to_goodreads.py:61 | a text of digits, `-` and `.` never mentions `star` after `lower` and has no blank |
| Ratings.NumericRating | storygraph_to_goodreads.py:64-66 | a numeric rating is read whole and gives `str` of its truncated value |
| Ratings.NumericStars | storygraph_to_goodreads.py:61-66 | a numeric rating followed by " stars" is read from its first token and gives `str` of its truncated value |
| Ratings.DecimalRating | storygraph_to_goodreads.py:64-66 | `<i>.<digits>` gives `str(i)` for every integer i: the rating is truncated toward zero |
| Ratings.DecimalStars | storygraph_to_goodreads.py:61-66 | `<i>.<digits> stars` gives `str(i)` for every integer i |
| Ratings.FourAndAHalfStars | storygraph_to_goodreads.py:61-66 | "4.5 stars" gives "4" |
| Convert.DateAddedCell | storygraph_to_goodreads.py:171-173 | a converted date in Goodreads form is kept, and a date that converts to "" gives the fixed fallback |
| Convert.ReadCountText | storygraph_to_goodreads.py:204-207 | a non-empty run of digits. When v reads as a number it is `str(max(0, trunc(v)))` and has that value. It is "0" on a parse failure |
| Convert.HyphenJoin | storygraph_to_goodreads.py:183 | a hyphen between two texts adds nothing to their digits |
| Convert.HyphenatedIsbn13 | storygraph_to_goodreads.py:183-188 | five digit groups joined by hyphens, 13 digits in all, go to `ISBN13` as the digits alone, and `ISBN` gets the blank default |
| Convert.HyphenatedIsbnExample | storygraph_to_goodreads.py:183-188 | 978-3-16-148410-0 goes to `ISBN13` as 9783161484100 |
| Convert.OwnedFlag | storygraph_to_goodreads.py:211 | `Owned Copies` is "0" or "1" |
| Convert.RowShelf | storygraph_to_goodreads.py:155-156 | the shelf of a row is one of the four shelves |
| Convert.MappedSource | storygraph_to_goodreads.py:78-90 | `field_mapping` is one-to-one: each mapped StoryGraph column is the only source of its Goodreads column |
| RowStages.InitialAgrees | storygraph_to_goodreads.py:153-164 | before the loop the row holds `default_values` with the three shelf cells set and no `Title` or `Author` |
| RowStages.LoopedCells | storygraph_to_goodreads.py:166-192 | after the loop, `Author` is the copied `Authors` when present. `Author l-f` and `Owned Copies` still hold their defaults, `Read Count` holds the copied value or "0", and `Date Read` holds the inline-guarded date |
| RowStages.FinishRow | storygraph_to_goodreads.py:194-215 | the patches after the loop, and only they, turn the looped row into the expected row |
| RowWriter.ConvertCsv | storygraph_to_goodreads.py:69-217 | nothing is written exactly when the input is missing. Otherwise the header is the 24 Goodreads names in order, followed by one converted row per StoryGraph row, in order |
| RowWriter.ConvertRows | storygraph_to_goodreads.py:152-217 | the loop writes `ExpectedRow` of each input row, in order |
| RowWriter.ExpectedRowsAt | storygraph_to_goodreads.py:152-217 | output row i is the conversion of input row i |
| RowWriter.ConvertRow | storygraph_to_goodreads.py:153-215 | the in-place patched `goodreads_row` equals `Convert.ExpectedRow` |
| RowWriter.BuildRow | storygraph_to_goodreads.py:153-215 | with the shelf fixed, defaults, then the shelf cells, the loop and the patches give `Convert.RowCells` |
| RowWriter.CopyFields | storygraph_to_goodreads.py:166-192 | after the loop over `row.items()`, every mapped column present in the row except `Exclusive Shelf` has been written, and every cell agrees with that stage |
| RowWriter.CopyField | storygraph_to_goodreads.py:167-192 | one pass of the loop keeps the row in step and marks exactly the column it maps to |
| RowWriter.PatchRow | storygraph_to_goodreads.py:194-215 | the author, read-count, owned and `Date Read` patches finish the expected row |
| RowFacts.HeaderOrder | storygraph_to_goodreads.py:124-131 | the header holds the 24 column names, in the order of the columns |
| RowFacts.RowColumns | storygraph_to_goodreads.py:153-192 | a converted row has every column except `Title` and `Author`, and has those exactly when the StoryGraph row has `Title` and `Authors` |
| RowFacts.ShelfCells | storygraph_to_goodreads.py:156-164 | `Exclusive Shelf` is the shelf and `Bookshelves with positions` is `<shelf> (#1)`. `Bookshelves` is the shelf unless `Tags` is present, which is then copied |
| RowFacts.ExclusiveShelfOf | storygraph_to_goodreads.py:155-158 | the shelf of an output row is the stripped `Read Status` through `map_reading_status`, one of the four shelves |
| RowFacts.DateReadCells | storygraph_to_goodreads.py:174-215 | `Date Read` is non-empty only on the read shelf, and then it is the converted `Last Date Read` in Goodreads form. On the read shelf it is always that conversion |
| RowFacts.IsbnCellsOf | storygraph_to_goodreads.py:181-190 | ten digits give `=""<d>""` in `ISBN` and `=""=""` in `ISBN13`. Thirteen digits give the reverse. Any other count leaves both at `=""""` |
| RowFacts.AuthorCells | storygraph_to_goodreads.py:194-200 | `Author l-f` splits into the last author token with a comma, then the other tokens in order. It is "" for fewer than two tokens |
| RowFacts.LastFirstWords | storygraph_to_goodreads.py:196-200 | "`<last>`, `<rest>`" splits back into the last token with a comma, followed by the other tokens |
| RowFacts.ReadCountCells | storygraph_to_goodreads.py:202-207 | an absent column gives "0" and a blank value is copied. Otherwise the cell is digits of value `max(0, trunc)`, or "0" when not a number |
| RowFacts.OwnedCells | storygraph_to_goodreads.py:209-211 | `Owned Copies` is "1" exactly when `Owned?` lower-cased is yes, true, y or 1, and "0" otherwise |
| RowFacts.RatingCells | storygraph_to_goodreads.py:179-180 | `My Rating` is always an integer text: the converted `Star Rating`, or "0" |
| RowFacts.FallbackDateAdded | storygraph_to_goodreads.py:173 | the fallback 2025/01/01 is itself a valid Goodreads date |
| RowFacts.DateAddedCells | storygraph_to_goodreads.py:171-173 | `Date Added` is "" without the column. With it, the cell is the converted date, or the fallback: a Goodreads date either way |
| RowFacts.CopiedCells | storygraph_to_goodreads.py:191-192 | `Title`, `Author`, `Binding` and `My Review` are copied verbatim from `Title`, `Authors`, `Format` and `Review` |
| RowFacts.BlankCells | storygraph_to_goodreads.py:93-116 | the nine columns StoryGraph does not feed stay "" |
| RowFacts.ExpectedRowHolds | storygraph_to_goodreads.py:153-215 | a converted row satisfies all the column facts above at once |
| ConvertedFile.OutputRowsHold | storygraph_to_goodreads.py:152-217 | every row of the converted file satisfies all the column facts about its StoryGraph row |
| Compare.FindColumnName | compare_csv.py:127-135 | None exactly when no candidate is a header. Otherwise the result is a header, and no earlier candidate is one |
| Compare.FindColumns | compare_csv.py:35-45 | a file has no title column exactly when neither `Title` nor `title` is a header. Otherwise the title column is one of them |
| Compare.NormalIsbn | compare_csv.py:100-103 | a normalised ISBN key has no `-` and no `"` |
| Compare.QuotedIsbnKey | compare_csv.py:100-103 | a digit ISBN is its own key, whether written plainly or as `="<d>"` |
| Compare.HyphenatedIsbnKey | compare_csv.py:100-103 | a non-empty ISBN of digits and hyphens keys as its digits alone |
| Compare.BookKeys | compare_csv.py:77-85 | an existing row adds its ISBN key when non-empty. It also adds the title-and-author key when the author is non-empty, and the bare title otherwise. Every key it adds is one of these three, and it adds at most two |
| Compare.ExistingKeysHold | compare_csv.py:52-85 | a key is in `existing_books` exactly when some existing row adds it |
| Compare.AddBookKeys | compare_csv.py:78-85 | one pass of the loop adds exactly the keys `BookKeys` lists for the row |
| Compare.CollectKeys | compare_csv.py:52-85 | the loop over the existing rows builds exactly `existing_books` |
| Compare.CheckUnique | compare_csv.py:106-112 | `is_unique` stays true exactly when the row is not a duplicate |
| Compare.FilterRows | compare_csv.py:88-115 | the `is_unique` loop appends exactly the non-duplicate rows, in order |
| Compare.CompareLibraries | compare_csv.py:16-121 | nothing is written exactly when a file is missing or lacks a title column. Otherwise the new header and the kept rows are written |
| Compare.KeptSubsequence | compare_csv.py:106-115 | the output rows are a subsequence of the new rows, in input order |
| Compare.KeptMembers | compare_csv.py:106-115 | a row is output exactly when it is a new row that is not a duplicate |
| Compare.EmptyExistingKeepsAll | compare_csv.py:106-115 | against an existing file with no rows, every new row is kept |
| Compare.SharedIsbnDropped | compare_csv.py:107-108 | a new row whose non-empty ISBN key equals that of some existing row is dropped |
| Compare.SameBookDropped | compare_csv.py:109-112 | a new row with the title and author keys of some existing row is dropped |
| Split.OutputDir | split.py:23-24 | the output directory is never empty |
| Split.ChunkPathInjective | split.py:49-50 | distinct chunk numbers give distinct paths |
| Split.StatusPathInjective | split.py:115-116 | distinct statuses give distinct paths |
| Split.CeilBounds | split.py:42 | `num_chunks` is the ceiling: `total <= num_chunks·N < total + N` |
| Split.ChunksCount | split.py:42-47 | there are exactly `ceil(total_rows / N)` chunks |
| Split.ChunksFlatten | split.py:47-64 | the chunks, concatenated, are the input records |
| Split.ChunkSizes | split.py:56-64 | every chunk holds 1 to N records, and every chunk but the last exactly N |
| Split.ChunkAt | split.py:47-64 | chunk k (counting from 0) holds records `k·N` up to `min(k·N + N, total)` |
| Split.ReadChunk | split.py:57-64 | the inner loop reads the next `min(N, remaining)` records, in order |
| Split.SplitCsv | split.py:16-64 | no file when the input is missing or N is not positive. Otherwise `<prefix>_<k>.csv` in the input's directory holds the header and chunk k for each k up to the chunk count, and there is no other file |
| Split.GroupHolds | split.py:107-123 | a status has a group exactly when some row carries it. A group holds only rows of its status and is a subsequence of the input |
| Split.RowInGroup | split.py:107-123 | every row goes to the group of its own status |
| Split.CountsSum | split.py:111-123 | the group sizes of the seen statuses add up to the number of rows, so each row is written exactly once |
| Split.StatusFiles | split.py:113-120 | each status's file sits at its own `<prefix>_<status>.csv`, and there are no other files |
| Split.SplitByStatus | split.py:85-127 | no file when the input is missing. Otherwise each seen status has `<prefix>_<status>.csv` holding the header and that status's rows in input order, there is no other file, and `status_counts` holds each group's size |

## Left out

- File handling is not modelled: `os.path.exists`, open, seek, close, the re-read of the converter's header (storygraph_to_goodreads.py:143-145) and the command-line parsers. A missing input file is a boolean parameter.
- The debug previews and printed summaries only report; they are not modelled. This includes the status summary the converter counts by re-reading its output (storygraph_to_goodreads.py:219-236).
- The `csv` module's record parsing and quoting, and `DictWriter`'s serialisation, are not modelled. Rows are already-parsed maps and records. `ConvertCsv` requires every row to have exactly the header's columns, as `DictReader` gives for well-formed input.
- Short rows, whose missing cells are `None`, and long rows, whose extra cells go under the `None` key, are crash or corner paths of `DictReader` and are not modelled. For example `row["Owned?"].lower()` on `None` crashes (storygraph_to_goodreads.py:211).
- Split.SplitCsv: `total_rows` is the number of records. split.py:34 counts physical lines, so a file with multi-line cells would give extra chunk files holding only the header.
- A file always has a header, so an input with no header line is not modelled. On such a file `split_csv` raises `StopIteration` at `next(reader)` (split.py:30), which the catch-all handler at split.py:73-74 reports, and no file is written. `split_by_status` reads no rows and writes no file, as the model does for a file without rows. The catch-all handlers, and the partial writes an error would leave behind, are not modelled.
- Split.SplitByStatus: a status containing `/` names a path in a subdirectory, which the real `open` may fail on. The model treats every path as writable.
- Numbers.ParseTrunc: reads only the decimal texts `float` accepts without an exponent: optional blanks, an optional sign, digits and an optional fraction. `inf`, `nan`, exponents, underscores and `OverflowError` are not modelled. A text outside this subset is a parse failure, giving "0". The model reads a decimal exactly, while `float` rounds to the nearest double: `int(float("9007199254740993"))` is 9007199254740992 and `int(float("2.9999999999999999"))` is 3, where the model gives 9007199254740993 and 2. The results agree for integer parts below 2^53 whose fraction does not round up to the next integer. The non-ASCII digits `float` accepts are not modelled either.
- Dates.ConvertDate: `strptime` is modelled for 4-digit years, 1-2 digit months and days, calendar-valid dates, and English month names in any case. Locale-dependent month names and the rarer `strptime` spellings are not modelled. For a year below 1000 the model writes four digits, where `strftime("%Y")` on some platforms writes fewer.
- Text.Lower: lowers only the ASCII letters. Python's Unicode case mapping is not modelled.
- Text.Digits: keeps only the ASCII digits. Python's `isdigit` also accepts other Unicode digits (storygraph_to_goodreads.py:183).
- Text.LStrip: its own contract states only that the result is no longer than the input. `Text.LStripShape` and `Text.RStripShape` state the full shape.
- Text.RStrip: its own contract states only that the result is no longer than the input. `Text.LStripShape` and `Text.RStripShape` state the full shape.
- Compare.NormalIsbn: its contract states only that no `-` and no `"` remain. It is not idempotent in general, because removing `="` can bring a new `="` together. The full result is stated for digit ISBNs by `Compare.QuotedIsbnKey` and `Compare.PlainIsbnKey`, and for ISBNs of digits and hyphens by `Compare.HyphenatedIsbnKey`.
- Compare.BookKeys: its contract states which keys a row adds and bounds the set, rather than giving the set itself.
