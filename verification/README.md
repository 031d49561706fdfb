# Base → Packed: staging, unification and publication, in Dafny

The system downloads a "Packed" report archive from a web portal and copies
its content into the "Base" tab of a spreadsheet. This project models the part
of `main_base_to_packed.py` that shapes data:

- **Staging** (`staging.dfy`, module `Staging`). The downloaded archive is moved
  to `TO-PackedHH.zip` in the download directory, where `HH` is the
  zero-padded hour of the day. Any file already at that path is removed first.
  The directory is a map from path to content, and the hour is a parameter.
- **Unification** (`unifier.dfy`, module `Unifier`). The input is the
  top-level entries of the extraction folder, as the directory listing gives
  them. Files inside sub-folders are never listed. Only the entries whose
  lower-cased name ends in `.csv` are kept. A sub-folder with such a name is
  kept too, and reading it fails. If there are none, there is
  no table. Otherwise their parsed tables are stacked in listing order. Then
  every row whose first-column key already occurred earlier is dropped, so the
  first occurrence wins. A file that cannot be read also gives no table.
- **Publication** (`publisher.dfy`, module `Publisher`). A missing or empty
  table sends nothing, and so does a tab that cannot be reached. Otherwise the
  tab is cleared and the header row is appended on its own. Missing cells are
  turned into `""`. The body is then appended in consecutive batches of at
  most 15000 rows. The tab is a `Worksheet` object whose `rows` and
  `requests` (every request received) change in place. The batch loop is
  proved against `Chunks`, a function on which the coverage, size and count
  properties are proved.

`tables.dfy` (module `Tables`) holds the shared values: a cell is
`Option<string>` (`None` is a missing value), a row is a sequence of cells,
and a table is a header plus rows. `wrappers.dfy` holds `Option`.

Two behaviours of the code shape the model:

- Headers that differ across files are not rejected. `pd.concat` would take
  the union of the columns. The model requires the data files to share one
  header (`Unifier.ConsistentDataFiles`) and leaves the other case out.
- Failures while opening the spreadsheet, or during the upload, are printed
  and swallowed. They are not reported to the caller.

## Model

| member | source | states |
|---|---|---|
| `Staging.TwoDigitHour` | main_base_to_packed.py:23 | the hour is written as two digits, 00 to 23, whose decimal value is the hour |
| `Staging.StagedName` | main_base_to_packed.py:23-24 | the staged name is "TO-Packed", then the two-digit hour, then ".zip" |
| `Staging.StagedNameInjective` | main_base_to_packed.py:23-24 | two hours give the same staged name exactly when they are the same hour |
| `Staging.JoinPath` | main_base_to_packed.py:25 | a relative name joined to a directory starts with the directory and ends with the name. One '/' is inserted between them exactly when the directory is non-empty and does not already end in '/' |
| `Staging.JoinPathInsideDirectory` | main_base_to_packed.py:25 | the joined path is the directory followed by the name, with one '/' between them unless the directory is empty or already ends in '/' |
| `Staging.StageDownload` | main_base_to_packed.py:20-33 | staging succeeds exactly when the download exists and is not itself at the staged path. On success the staged path holds the download's bytes and the download's old path is gone. On failure nothing is left at the staged path. Every other file is untouched |
| `Staging.StagingReplacesPreviousArchive` | main_base_to_packed.py:26-28 | an archive already at the staged path is replaced, not kept: the directory has one file fewer than before when that path was occupied, and as many otherwise |
| `Unifier.SelectDataFiles` | main_base_to_packed.py:44 | a listed file is selected exactly when it is a data file, and no file is added |
| `Unifier.DataFileByLastFour` | main_base_to_packed.py:44 | a name is a data file exactly when its last four characters are ".csv" in any mix of upper and lower case |
| `Unifier.SelectDataFilesAppend` | main_base_to_packed.py:44 | selection distributes over concatenation of listings, so selected files keep their listing order |
| `Unifier.ReadAll` | main_base_to_packed.py:52 | reading gives tables exactly when every selected file parses, one table per file, in file order |
| `Unifier.Concat` | main_base_to_packed.py:53 | the concatenation has the common header and as many rows as all inputs together, and every row has one cell per column |
| `Unifier.ConcatRowAt` | main_base_to_packed.py:53 | row j of file f is at position (rows of the files before f) + j: rows are in file-then-in-file order |
| `Unifier.Dedup` | main_base_to_packed.py:60-63 | after dedup, first-column keys are unique, the same keys are present as before, each output row is an input row, and the row count is the number of distinct keys, never more than the input's |
| `Unifier.DedupKeepsFirstOccurrences` | main_base_to_packed.py:63 | the output is exactly the input rows at the first-occurrence positions of their keys, in increasing position order |
| `Unifier.DedupUniqueIsIdentity` | main_base_to_packed.py:63 | rows whose keys are already unique are all kept, unchanged |
| `Unifier.DedupIdempotent` | main_base_to_packed.py:63 | deduplicating twice gives the same rows as deduplicating once |
| `Unifier.DedupTable` | main_base_to_packed.py:56-66 | the table keeps its header and stays well formed, and the removed count before − after is never negative |
| `Unifier.UnzipAndProcess` | main_base_to_packed.py:35-73 | no data file, or a data file that cannot be read, gives no table. Otherwise the result has the common header, and its rows are the deduplicated concatenation of the data files' rows |
| `Unifier.UnzipAndProcessSome` | main_base_to_packed.py:44-53 | a table comes out exactly when there is at least one data file and every data file parses |
| `Unifier.FirstOccurrenceWinsAcrossFiles` | main_base_to_packed.py:52-63 | files [id,qty] with (1,5) and with (1,7),(2,3) unify to (1,5),(2,3) |
| `Publisher.Worksheet.Clear` | main_base_to_packed.py:101 | the tab becomes empty and one clear request is recorded |
| `Publisher.Worksheet.AppendRows` | main_base_to_packed.py:104 | the batch is added below the current content in order, and one append request carrying it is recorded |
| `Publisher.FillRows` | main_base_to_packed.py:106-107 | the filled body has one row per table row, and row k is row k with its missing cells filled |
| `Publisher.FillMissing` | main_base_to_packed.py:106-107 | every missing cell becomes "", every present cell is sent unchanged, and the row keeps its length |
| `Publisher.ChunksCover` | main_base_to_packed.py:115-116 | the batches, joined in order, are exactly the body: every row is sent once, in source order |
| `Publisher.ChunkSizes` | main_base_to_packed.py:110-116 | no batch is empty or longer than 15000 rows, and only the last batch may be shorter |
| `Publisher.ChunkCount` | main_base_to_packed.py:115 | the number of batches is ceil(n / size) |
| `Publisher.BatchCount` | main_base_to_packed.py:111 | the intended batch total c satisfies (c − 1)·size < n ≤ c·size, so it is ceil(n / size) |
| `Publisher.LoggedBatchTotal` | main_base_to_packed.py:111 | the announced total t is positive and satisfies (t − 1)·15000 ≤ n < t·15000, so it is one more than the number of full batches |
| `Publisher.LoggedBatchTotalOvercounts` | main_base_to_packed.py:111 | the announced total n // 15000 + 1 equals the batch count, plus one when n is a multiple of 15000 |
| `Publisher.LoggedBatchTotalAtOneFullBatch` | main_base_to_packed.py:111 | for 15000 rows, two batches are announced and one is sent |
| `Publisher.IsEmpty` | main_base_to_packed.py:77 | a table counts as empty exactly when it has no cells: the row count times the column count is zero |
| `Publisher.UpdateSheet` | main_base_to_packed.py:75-126 | with no table, an empty table, or an unreachable tab, the tab and its request log are unchanged. Otherwise the tab ends up holding the header followed by the filled body. The requests are one clear, the header row alone, and then one append per batch of `Chunks` |
| `Publisher.AppendInBatches` | main_base_to_packed.py:110-119 | the loop appends exactly the body, and issues one append request per batch in order. Its invariant is that the tab equals its old content followed by the rows sent so far |
| `Publisher.BatchStep` | main_base_to_packed.py:115-117 | one pass of the loop sends the next batch: the rows sent grow by exactly data[i..i+15000], clipped at the end |

## Left out

- `main()` (browser login, popup dismissal, export, fixed waits, download, teardown) is not modelled. It is remote-UI input and output.
- The clock is not modelled. `datetime.now()` becomes the `hour` parameter, which is below 24 as a clock hour is.
- Service-account authentication and opening the spreadsheet and the tab are not modelled. When any of them fails, `UpdateSheet` receives `null` for the tab.
- Zip extraction, `makedirs`, `rmtree` and the final cleanup are not modelled. The extraction folder's top-level listing is an input sequence of entry names with their parse results. A sub-folder named `*.csv` appears as an entry whose parse result is `None`. An archive that cannot be opened, which also ends in `None`, is not modelled.
- CSV parsing and UTF-8 decoding are not modelled. A file's parse result is an input, and `None` stands for a read that raises.
- Pandas cell typing is not modelled. Keys compare as the cell values given, so two spellings that pandas would parse to the same number count as different keys here. Missing keys compare equal to each other, as pandas does.
- Files whose headers differ are outside the model. It requires one shared header, where pandas would take the union of the columns.
- Pandas renaming of repeated column names within one file is not modelled.
- Lower-casing covers ASCII letters only. No other character lower-cases into ".csv", so the selection is unaffected.
- The spreadsheet's USER_ENTERED conversion of cell text is not modelled. The tab holds the strings sent.
- `time.sleep(1)`, the printed messages and `gc.collect` are not modelled. The announced batch total appears only in `LoggedBatchTotal`.
- The directory is a map value that staging returns, not an object updated in place.
- Publisher.UpdateSheet: assumes that every clear and append request succeeds. When a request raises part-way through, the source stops, prints, and leaves the rows already appended in the tab; that partial state is not modelled.

## Findings

| source | as written | input that shows it | evidently intended | confidence | as-written member | corrected member |
|---|---|---|---|---|---|---|
| main_base_to_packed.py:111 | the announced batch total is `len // 15000 + 1` | 15000 body rows: one batch is sent, and the progress message says "1/2" | ceil(len / 15000) batches, the number the loop sends | not executed; it affects only the progress message | `Publisher.LoggedBatchTotal`, shown by `Publisher.LoggedBatchTotalAtOneFullBatch` and `Publisher.LoggedBatchTotalOvercounts` | `Publisher.BatchCount`, proved equal to the number of batches sent by `Publisher.ChunkCount` |
