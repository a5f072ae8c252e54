# Transaction service core, in Dafny

This project models the core of a small FastAPI service that stores
financial transactions in MongoDB. It covers three parts:

- **The transaction model** (`models/transaction.py`, `models/enums.py`):
  - validating construction of a `Transaction`: the amount must be greater than 0, the date must not lie in the future, and the currency must be one of ten codes;
  - whitespace stripping of string fields;
  - `to_dict`, which drops the `id`.
- **The CSV export service** (`services/csv_export.py`):
  - a class that owns a temporary directory;
  - writes every stored transaction as a 6-column CSV row into numbered part files of at most 1,000,000 rows each;
  - cleans the directory up on request.
- **The router helpers** (`routers/transaction.py`):
  - in-place `_id` conversion of fetched documents;
  - the paginated response and the skip offset;
  - the search filter, the stats filter and the two aggregation pipelines;
  - the ZIP archive stream with its `finally` cleanup;
  - the outcome mapping of the export endpoint.

Files:

| file | module | models |
|---|---|---|
| `wrappers.dfy` | `Wrappers` | `Option`, `Result` |
| `chunking.dfy` | `Chunking` | splitting a sequence into consecutive blocks of at most `n` and ceiling division. Export parts, pages and the 8192-byte stream pieces are all such blocks. |
| `text.dfy` | `Text` | decimal rendering of part numbers, `Path.name`, path joining |
| `enums.dfy` | `Enums` | the `Currency` enum |
| `transaction_model.dfy` | `TransactionModel` | `Transaction`, its validators, stripping, `to_dict`, `PaginatedResponse`, `TransactionStats` |
| `filesystem.dfy` | `FileSystem` | a class `Disk` holding directories and files. Its operations are `mkdtemp`, file creation, row writes and `rmtree`. |
| `csv_export.dfy` | `CsvExport` | rows, parts, and the class `ExportService` with `ExportToCsv` and `CleanupTempFiles` |
| `transaction_router.dfy` | `TransactionRouter` | the router helpers listed above, plus `ServeExport`, the export endpoint followed by its stream |

Stateful code is imperative Dafny:

- `ExportService` is a class whose `tempDir` field its methods update.
- The disk is a class whose `dirs` and `files` fields its methods update.
- Each fetched document is an object whose `fields` map is rewritten in place.
- The export loop, the conversion loop, the entry loop and the read-and-yield loop are `while` loops. Each is proved against functions on values:
  - `Parts`, `PartFiles` and `PartPaths` for the export;
  - `WithStringId` for the conversion;
  - `Archived` for the archive entries;
  - `Chunks` for the stream.
- The lemmas about those functions carry the promises: the part count is ceil(N / 1,000,000), every part but the last is full, the parts concatenate to the rows, and the pieces concatenate to the archive.

Outside inputs become parameters:

- The database becomes a `Source`: the count it reports, the records its cursor yields, and where, if anywhere, reading or writing fails.
- The clock becomes a `now` parameter.
- The temporary directory name chosen by `mkdtemp` becomes a parameter.
- The ZIP encoder becomes a function parameter `deflate`.
- How many stream pieces the HTTP client consumes becomes `demand`.

## Model

| member | source | states |
|---|---|---|
| Chunking.CeilDiv | routers/transaction.py:73 | the ceiling of a / n: the least r with a <= r*n, so a <= r*n < a+n, and it is 0 exactly for a = 0 |
| Chunking.ChunkSizes | services/csv_export.py:144-178 | every block is non-empty and has at most n elements; every block but the last has exactly n |
| Chunking.ChunksFlatten | services/csv_export.py:161-165 | the blocks read in order give back the whole sequence |
| Chunking.ChunksCount | services/csv_export.py:127 | the number of blocks is ceil(len / n) |
| Chunking.ChunkAt | routers/transaction.py:154 | block k is the window of up to n elements starting at k*n, and k*n lies inside the sequence |
| Chunking.ChunksSnoc | services/csv_export.py:144-178 | one more element either opens a new one-element block (none yet, or the last block full) or extends the last block |
| Chunking.ChunksUnfold | routers/transaction.py:108-112 | the blocks of a non-empty sequence are its first min(n, len) elements followed by the blocks of the rest |
| Chunking.ChunkStep | routers/transaction.py:108-112 | reading on from a position inside the sequence: the next block is the window of up to n elements there, and the blocks after it are those of the rest |
| Chunking.ReadOn | routers/transaction.py:108-112 | the blocks taken so far, the window read next and the blocks of what follows still make up all the blocks |
| Chunking.ReadToEnd | routers/transaction.py:108-109 | a read at the end of the sequence returns nothing, and by then every block has been taken |
| Chunking.FlattenLength | services/csv_export.py:172-178 | when all blocks but the last have n elements, the whole has (count-1)*n elements plus the last block's |
| Text.NatToString | services/csv_export.py:50 | the decimal form of a part number is a non-empty string of digits without a leading zero |
| Text.ParseNatToString | services/csv_export.py:50 | reading the decimal form back gives the number |
| Text.NatToStringInjective | services/csv_export.py:50 | different numbers have different decimal forms |
| Text.BaseName | routers/transaction.py:101-103 | `Path.name` is a suffix of the path and holds no '/'; when it is shorter than the path, the character before it is the last '/' |
| Text.BaseNameOfJoin | routers/transaction.py:103 | the base name of dir/name is name whenever name holds no '/' |
| Enums.Code | models/enums.py:5-16 | every currency value is a three-letter code |
| Enums.Members | models/enums.py:5-16 | the enum has the ten listed members, each once |
| Enums.MembersComplete | models/enums.py:5-16 | every currency is among the listed members |
| Enums.ParseCurrency | models/transaction.py:17 | a string is accepted as a currency exactly when it is the code of a member, and then it gives that member |
| Enums.ParseCode | models/enums.py:5-16 | parsing a member's code gives the member back |
| Enums.CodeInjective | models/enums.py:5-16 | different members have different codes |
| TransactionModel.Message | models/transaction.py:31-43 | the texts of the two `ValueError`s: "Amount must be greater than 0" and "Transaction date cannot be in the future" |
| TransactionModel.ValidateAmount | models/transaction.py:27-33 | the amount is accepted iff it is greater than 0, unchanged; otherwise the "Amount must be greater than 0" error |
| TransactionModel.ValidateTransactionDate | models/transaction.py:36-43 | the date is accepted iff it is not after now, unchanged; otherwise the "cannot be in the future" error |
| TransactionModel.IsWhitespace | models/transaction.py:24 | the Unicode White_Space characters, the ones `str_strip_whitespace` removes |
| TransactionModel.AsciiWhitespace | models/transaction.py:24 | among ASCII characters, whitespace is exactly the space and `\t` through `\r` |
| TransactionModel.Strip | models/transaction.py:24 | `str_strip_whitespace`: the result is no longer than the input and neither starts nor ends with whitespace |
| TransactionModel.Leading | models/transaction.py:24 | the length of the leading run: every character before it is in the class and the next one, if any, is not |
| TransactionModel.Trailing | models/transaction.py:24 | the length of the trailing run: every character in it is in the class and the one before it, if any, is not |
| TransactionModel.TrimStart | models/transaction.py:24 | the result does not start with a character of the class |
| TransactionModel.TrimEnd | models/transaction.py:24 | the result does not end with a character of the class |
| TransactionModel.StripChars | models/transaction.py:24 | the result is no longer than the input and neither starts nor ends with a character of the class (for `Strip`, whitespace) |
| TransactionModel.StripSlice | models/transaction.py:24 | the result is the slice of the input between a leading and a trailing margin that consist only of characters of the class |
| TransactionModel.StripIdempotent | models/transaction.py:24 | stripping a stripped string changes nothing |
| TransactionModel.StripClean | models/transaction.py:24 | a string without surrounding whitespace is left as it is |
| TransactionModel.StripSurrounded | models/transaction.py:24 | whitespace added around a stripped string is removed again |
| TransactionModel.TrimStartClass | models/transaction.py:24 | leading whitespace added before a string is removed by the left trim |
| TransactionModel.LeadingRun | models/transaction.py:24 | the leading run of pre + s is exactly pre when s starts outside the class |
| TransactionModel.TrimEndClass | models/transaction.py:24 | trailing whitespace added after a string is removed by the right trim |
| TransactionModel.TrailingRun | models/transaction.py:24 | the trailing run of s + post is exactly post when s ends outside the class |
| TransactionModel.NewTransaction | models/transaction.py:12-43 | construction succeeds iff the required fields are given, the amount > 0, the date <= now and the currency is a member. Then: id and category are stripped, category defaults to None and created_at to now. Otherwise the error list is `Errors`, one error per failing check and nothing else (`ErrorsExactly`); in particular amount, currency and transaction_date are reported as required exactly when they are missing. |
| TransactionModel.ErrorsReported | models/transaction.py:12-43 | the validation errors are empty iff every required field is given, the amount > 0, the date <= now and the currency is a member; each error is reported exactly when its own condition fails, and the required-field error for amount, currency or transaction_date is reported iff that field is missing |
| TransactionModel.Errors | models/transaction.py:12-43 | the validation errors of the four required fields, field by field in declaration order |
| TransactionModel.ErrorsExactly | models/transaction.py:12-43 | an error is among the validation errors iff it is one of the seven failures (id, amount, currency or transaction_date missing; amount <= 0; date after now; unknown currency) and its condition holds |
| TransactionModel.ToDict | models/transaction.py:45-58 | the stored document has exactly the keys amount, currency, transaction_date, category, created_at, and no id |
| TransactionModel.ToDictRoundTrip | models/transaction.py:53-56 | the stored document together with the id gives the transaction back: to_dict loses only the id |
| FileSystem.Outside | services/csv_export.py:216 | the files left after removing a tree are exactly those not inside it, unchanged |
| FileSystem.Prune | services/csv_export.py:216 | the directories left after removing a tree are exactly those outside it |
| FileSystem.JoinUnder | services/csv_export.py:149 | a file joined onto a directory lies inside it |
| FileSystem.JoinInjective | services/csv_export.py:149 | two names joined onto one directory give one path only when they are equal |
| FileSystem.OutsideIgnoresUnder | routers/transaction.py:95-99 | a file written inside a tree (the archive) is gone once the tree is removed |
| FileSystem.OutsideDropsAdded | routers/transaction.py:330-333 | removing a fresh directory from a store that only gained files inside it restores the store |
| FileSystem.OutsideDropsBoth | routers/transaction.py:330-333 | the same when the files inside the directory were added in two steps |
| FileSystem.Disk.MakeTempDir | services/csv_export.py:114 | a fresh, empty directory is added and nothing else changes |
| FileSystem.Disk.CreateFile | services/csv_export.py:151 | creating a file succeeds iff its directory exists, and then sets that one path |
| FileSystem.Disk.AppendRow | services/csv_export.py:162 | writing a row appends it to that one CSV file |
| FileSystem.Disk.RemoveTree | services/csv_export.py:216 | `rmtree` succeeds iff the directory exists and is removable, and then drops it with all below it; on failure nothing changes |
| CsvExport.Headers | services/csv_export.py:33-39 | the header has six columns |
| CsvExport.PartName | services/csv_export.py:41-50 | a part's file name holds no '/' |
| CsvExport.PartNameInjective | services/csv_export.py:50 | different part numbers give different file names |
| CsvExport.StampText | services/csv_export.py:74-79 | a missing or None date is written as the empty string |
| CsvExport.ConvertRow | services/csv_export.py:52-99 | every record gives a row of six fields in header order, each the column's text. A missing or None category is "", a missing id or currency is "". |
| CsvExport.ConvertRowColumns | services/csv_export.py:52-99 | field i of every row is the record's text for the column named by header i |
| CsvExport.ReadBackByHeader | services/csv_export.py:92-99 | the field found under a header column is the record's text for that column |
| CsvExport.Rows | services/csv_export.py:161 | one row per record, in cursor order |
| CsvExport.PartsShape | services/csv_export.py:142-178 | N records give ceil(N / 1,000,000) parts. Each part has 1 to 1,000,000 rows, all but the last are full, and the parts read in order are the rows in cursor order. |
| CsvExport.NoTrailingEmptyPart | services/csv_export.py:172-178 | k*1,000,000 records give exactly k parts, the last one full: no empty trailing part |
| CsvExport.PartPathInjective | services/csv_export.py:148-149 | different parts of one directory have different paths |
| CsvExport.PartPaths | services/csv_export.py:156 | the returned paths are parts 1..count of the directory, in creation order |
| CsvExport.PartPathFresh | services/csv_export.py:148-149 | part n's path is not the path of any earlier part |
| CsvExport.PartFiles | services/csv_export.py:148-162 | part k's file holds the header followed by the k-th block of rows, and every part file lies in the directory |
| CsvExport.PartsSnoc | services/csv_export.py:144-178 | one more record either opens a new part (none yet, or the last one full) or extends the open one |
| CsvExport.LastPartSize | services/csv_export.py:144-178 | the last part holds between 1 and 1,000,000 rows |
| CsvExport.PartFilesOpen | services/csv_export.py:148-162 | opening part n+1 with one row adds exactly that file |
| CsvExport.PartFilesExtend | services/csv_export.py:161-162 | a row written to the open part rewrites only that file |
| CsvExport.UpdateUnion | services/csv_export.py:162 | writing into one of the export's files updates only the export's side of the store |
| CsvExport.OpenStep | services/csv_export.py:144-165 | a record that arrives with the row counter at 0 opens the next part and keeps the loop state equal to the parts of the rows so far |
| CsvExport.ExtendStep | services/csv_export.py:161-178 | a record added to the open part keeps the loop state, closing the part when it reaches 1,000,000 rows |
| CsvExport.Written | services/csv_export.py:140-194 | the number of records written in full never exceeds the cursor |
| CsvExport.LoopError | services/csv_export.py:189-194 | when no error stops the loop, every record is written |
| CsvExport.StrayPart | services/csv_export.py:148-155 | the header-only file a failing first row leaves lies in the directory |
| CsvExport.ReadFaultExit | services/csv_export.py:189-194 | a cursor that raises before record i leaves exactly the parts of the first i rows |
| CsvExport.WriteFaultOpenExit | services/csv_export.py:151-162 | a write failing on the first row of a new part leaves that part holding only the header |
| CsvExport.WriteFaultExtendExit | services/csv_export.py:162 | a write failing inside an open part leaves the parts of the rows before it |
| CsvExport.LoopExit | services/csv_export.py:180-187 | once every record is consumed, all parts are written and the paths are those of all parts |
| CsvExport.WriteRecord | services/csv_export.py:144-178 | one loop iteration: the record's row is written (opening the next part first when none is open) and the loop state becomes that of one more record |
| CsvExport.FailWrite | services/csv_export.py:151-162 | a write that raises at record i leaves exactly the parts of the rows before it plus, on a part's first row, its header-only file |
| CsvExport.WriteParts | services/csv_export.py:140-194 | the `async for` loop: the disk holds the parts of the rows written before any fault, and the result is that fault or all part paths in order |
| CsvExport.ExportService.constructor | services/csv_export.py:24-31 | a new service holds no temporary directory |
| CsvExport.ExportService.ExportToCsv | services/csv_export.py:101-198 | the temp dir is created and kept. A failed count raises, and a count of 0 returns [] with no file written. Otherwise the parts of the rows written before any fault are on disk (plus a header-only part when the first row of a part fails), and the result is that error or all part paths in order. |
| CsvExport.ExportService.GetTempDir | services/csv_export.py:200-206 | the directory the service holds: none before an export and after a successful cleanup |
| CsvExport.ExportService.CleanupTempFiles | services/csv_export.py:208-220 | when the held directory exists and can be removed, it goes with all its files and is forgotten; otherwise nothing changes, so a second call is a no-op |
| TransactionRouter.WithStringId | routers/transaction.py:56 | `_id` becomes its string form; every other key and value is kept |
| TransactionRouter.WithStringIdIdempotent | routers/transaction.py:56 | converting an already converted document changes nothing |
| TransactionRouter.ConvertDocsToDict | routers/transaction.py:45-58 | the same documents are returned in the same order, each `_id` replaced in place by its string form and the rest untouched. At the first document without `_id` a KeyError stops the walk, with earlier documents converted and later ones unchanged. |
| TransactionRouter.CeilQuotient | routers/transaction.py:73 | `math.ceil(total / limit)`: the least integer not below the exact quotient, for either sign of limit |
| TransactionRouter.FloorOverNegative | routers/transaction.py:73 | for a negative limit the ceiling of total / limit is minus the floor of total / -limit |
| TransactionRouter.BuildPaginatedResponse | routers/transaction.py:61-81 | items, total, page and limit are echoed. total_pages is 0 for total 0 and otherwise ceil(total / limit). A positive total over limit 0 raises. |
| TransactionRouter.TotalPagesCountsBlocks | routers/transaction.py:73 | total_pages is the number of blocks of `limit` items |
| TransactionRouter.Skip | routers/transaction.py:154 | `(page - 1) * limit`, also used by the search endpoint, is non-negative for page >= 1 and limit >= 0, and 0 on the first page |
| TransactionRouter.PageOf | routers/transaction.py:160 | `find().skip(skip).limit(limit)`: min(limit, len - skip) items, none past the end |
| TransactionRouter.PageOfItems | routers/transaction.py:160 | item i of a page is item skip + i of the matches |
| TransactionRouter.PageBlock | routers/transaction.py:154 | skipping (page-1)*limit and taking limit items gives the page-th block, or nothing past the last page |
| TransactionRouter.PageIsBlock | routers/transaction.py:152-168 | for page, limit >= 1 the page returned is the page-th block of items, total_pages counts the blocks, and later pages are empty |
| TransactionRouter.PagesCoverAll | routers/transaction.py:141-168 | pages 1..total_pages read in turn return every item once, in order |
| TransactionRouter.MatchesEmpty | routers/transaction.py:190 | the empty filter matches every document |
| TransactionRouter.MatchesAppend | routers/transaction.py:192-196 | adding a key to the filter narrows it by exactly that condition |
| TransactionRouter.SearchFilter | routers/transaction.py:189-196 | the filter has a category key iff a category is given and an amount $gte key iff a minimum is given; it is empty with neither. A document matches iff it has that category and at least that amount. |
| TransactionRouter.Codes | routers/transaction.py:236 | one code per requested currency, in order |
| TransactionRouter.CodesMembership | routers/transaction.py:236-237 | a code is in the list iff some requested currency has it |
| TransactionRouter.StatsMatchFilter | routers/transaction.py:232-240 | currency $in only for a non-empty currency list and category $in only for a non-empty category list; empty iff neither. A document matches iff its currency and its category are among those requested. |
| TransactionRouter.StatsPipelines | routers/transaction.py:242-266 | both pipelines start with $match iff the filter is non-empty and select exactly the documents it matches. The currency pipeline groups by currency summing amounts; the category pipeline groups by category, counting a missing or null one under "Uncategorized". |
| TransactionRouter.ToMap | routers/transaction.py:276-284 | the dictionary comprehension: each result in turn sets its group to its value |
| TransactionRouter.ToMapKeys | routers/transaction.py:276-284 | every result's group is a key, and every key is the group of some result |
| TransactionRouter.ToMapLastWins | routers/transaction.py:276-284 | a group's key holds the value of the last result with that group |
| TransactionRouter.BuildStats | routers/transaction.py:275-291 | total_by_currency is the comprehension over the currency results and count_by_category the one over the category results |
| TransactionRouter.BuildStatsGroups | routers/transaction.py:275-291 | the stats hold exactly the groups of the two result lists |
| TransactionRouter.BuildStatsTotal | routers/transaction.py:276-279 | a currency's total is the total of the last currency result for it |
| TransactionRouter.BuildStatsCount | routers/transaction.py:281-284 | a category's count is the count of the last category result for it |
| TransactionRouter.PresentPrefix | routers/transaction.py:100-103 | the files added before the first missing path are exactly the leading paths that exist |
| TransactionRouter.PresentPrefixAt | routers/transaction.py:100-103 | the walk stops exactly at the first missing path |
| TransactionRouter.Archived | routers/transaction.py:100-103 | one entry per added path, under the path's base name, holding that file, in input order |
| TransactionRouter.ReadEntries | routers/transaction.py:100-104 | the loop of `zipf.write` calls builds exactly those entries |
| TransactionRouter.WriteArchive | routers/transaction.py:97-104 | the archive is written into the temp dir with the entries added before any missing file. It succeeds iff every path exists, and fails with nothing written when the directory is gone. |
| TransactionRouter.StreamChunks | routers/transaction.py:106-112 | the pieces sent are the archive's consecutive blocks of at most 8192 bytes: all of them when the loop runs to its end, otherwise the first `demand` |
| TransactionRouter.GenerateZipStream | routers/transaction.py:84-116 | if never started, nothing happens; without a temp dir it fails before the try, with no cleanup. Otherwise it streams the archive of the paths or fails on a missing file, and in every case cleanup removes the temp dir (zip included) unless it cannot be removed. |
| TransactionRouter.StreamExport | routers/transaction.py:84-116 | the stream over a successful export's paths sends the blocks of that export's archive and then leaves the store as before the export, unless the temp dir cannot be removed |
| TransactionRouter.NoPartsOnlyWhenEmpty | routers/transaction.py:315-316 | the export returns no paths only for an empty cursor |
| TransactionRouter.CleanupUndoesExport | routers/transaction.py:330-333 | cleanup after a failed export removes everything the export wrote and nothing else |
| TransactionRouter.ExportTransactions | routers/transaction.py:298-334 | nothing to export gives 404 and leaves the temp dir. A failure gives 500 after cleanup, so the store is as before unless the dir cannot be removed. Otherwise it responds with a stream over all part paths, still on disk. |
| TransactionRouter.PartNameIsNotZipName | routers/transaction.py:95 | no part file is ever the archive file |
| TransactionRouter.ExportArchive | routers/transaction.py:300-305 | one archive entry per part |
| TransactionRouter.PartEntries | routers/transaction.py:100-103 | one entry per part |
| TransactionRouter.PartEntriesShape | routers/transaction.py:100-103 | the entries have the distinct names `transactions_part_k.csv`, each is a CSV file starting with the header, and their data rows are the parts |
| TransactionRouter.ExportArchiveContents | routers/transaction.py:300-305 | the archive holds ceil(N / 1,000,000) CSV entries with distinct names `transactions_part_k.csv`. Each starts with the header and all but the last are full. Their data rows, read in order, are the records in cursor order. |
| TransactionRouter.PartBesideArchive | routers/transaction.py:95-103 | writing the archive file leaves every part file in place, under its part name |
| TransactionRouter.ArchivedAll | routers/transaction.py:100-103 | when every path exists, the archive holds one entry per path under its base name |
| TransactionRouter.ArchivedStore | routers/transaction.py:100-103 | a store holding every part under its path archives as those parts' entries |
| TransactionRouter.ExportThenArchive | routers/transaction.py:95-103 | after an export, archiving the returned paths gives the export's archive with one entry per path, and removing the directory gives back the files from before |
| TransactionRouter.ArchivedParts | routers/transaction.py:100-103 | the archive built from the export's returned paths is exactly that archive |
| TransactionRouter.ServeExport | routers/transaction.py:298-325 | with something to export and a consumer that reads, the pieces sent are the 8192-byte blocks of the encoded archive of all parts. Afterwards the store is as before the request, unless the temp dir cannot be removed. |

## Left out

- MongoDB is left out: the connection, `count_documents`, `find`, `skip`/`limit` and `aggregate`. The count and the records are the `Source` input. A page is `PageOf`, a slice of the matching items in stored order. Aggregation results are `GroupRow` inputs to `BuildStats`. Running the pipelines is not modelled, only which documents they select and how they group them.
- `BatchSize` is declared but unused. It decides how the cursor fetches records, not which records or in what order.
- `LOG_PROGRESS_EVERY`, every log call and `num_files` are left out: they only feed log messages. The part count is proved from the loop (`PartsShape`), not taken from `num_files`.
- `total_processed` is kept as a loop counter. Its invariant says it equals the records consumed, but it is only logged, so no contract mentions it.
- Floating point is left out. Amounts are `real`. The text of a float amount (`str(Decimal(str(amount)))`) is part of the record's `amount` text. `float(...)` in `to_dict` and `Decimal(str(total))` in the stats are the identity.
- BuildPaginatedResponse: `math.ceil(total / limit)` is computed exactly. Float rounding of totals beyond 2^53 is not modelled.
- `datetime.isoformat`, `str()` of arbitrary values and `csv.writer` quoting are library formatting, so they are left out. A date is its ISO text (or its `str()` text with its truthiness), and a row is the list of its fields.
- DEFLATE compression and the ZIP format are a library, so they are left out. The archive file is its entries plus `deflate(entries)`, with `deflate` a parameter.
- Opening and closing file handles is not modelled. A CSV file is its list of rows, and every `writerow` extends it at once.
- FileSystem.Disk.RemoveTree: `rmtree` is all or nothing. A removal that fails part-way is not modelled, and neither is the `exists()` check on a path that is a file rather than a directory.
- TransactionRouter.WriteArchive: the bytes of an archive closed after a missing file are `deflate` of the entries added so far. What the ZIP library writes then is not modelled further.
- Text.BaseName: trailing '/' is not normalised as `Path.name` does. Export paths never end in '/'.
- TransactionRouter.GenerateZipStream requires the held temporary directory to be non-empty. `mkdtemp` always returns an absolute path, and `Path("") / name` would name a file in the working directory.
- The HTTP layer is left out: FastAPI, async/await, `StreamingResponse` headers and the 503 of `get_mongodb_connection`. Status codes are the constructors of `ExportResponse`. `create_transaction`'s insert is a database call, and its part that can be modelled is `ToDict`.
- FastAPI's query validation (`page >= 1`, `limit >= 1`, `minAmount >= 0`) is not modelled. PageIsBlock and PagesCoverAll take `page, limit >= 1` as preconditions, and `BuildPaginatedResponse` itself is modelled for any limit.
- Pydantic's parsing of the raw input is left out: strings to `Decimal`, strings to `datetime`, `Currency` from a string. `TransactionInput` holds values already parsed. Only the enum lookup of the currency code is modelled, and the currency code is not stripped.
- ValidateTransactionDate: timestamps are naive local times. A timezone-aware `transaction_date` compared with the naive `datetime.now()` (models/transaction.py:40-41) raises `TypeError`, which fails the request instead of producing a validation error; that path is not modelled.
- NewTransaction: `created_at` defaults to `now`. The real `default_factory` reads the clock a second time, a moment after the date validator's `now`.
- TransactionModel.IsWhitespace is the Unicode White_Space set that pydantic's `str_strip_whitespace` trims. Python's own `str.strip` also trims U+001C to U+001F.
- TransactionRouter.ConvertDocsToDict: `str()` of a value that is neither an ObjectId nor a string is its `str()` text, an input.
- `script.py`, `main.py`, `config.py`, `database/mongodb.py`, `routers/health.py` and `routers/database.py` are not part of this model.

Where the code and the repository's own descriptions differ, the model follows the code:

- An export with nothing to export answers 404 and leaves its temporary directory behind. `ExportTransactions` raises the 404 (routers/transaction.py:315-316) without calling cleanup, and `ServeExport` never starts a stream in that case. The docstring of `export_transactions` (routers/transaction.py:300-302) says it always returns a ZIP file.
- `id` is a required field of `Transaction`. The model tests expect a transaction without an `id` to be accepted.
