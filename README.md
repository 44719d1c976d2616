# IPEDS extraction pipeline core, modelled in Dafny

This project models the two working classes of an IPEDS data pipeline.

The IPEDS downloader (`IPEDSDownloader`):
- names the yearly Access archive of the NCES data centre;
- fetches it over HTTP into a `.partial` file, resuming from that file's size with a `Range` header;
- renames the file when the transfer completes, and checksums it;
- publishes the archive to the raw bucket under `downloads/<year>/`, followed by a JSON sidecar that describes it;
- removes the local copy and, if it is left empty, the year's scratch folder.

The MDB extractor (`MDBExtractor`):
- lists the tables of an Access file with the `mdb-tables` tool;
- exports one table to CSV with `mdb-export`;
- cleans the column names, infers a type for each column and coerces date columns;
- writes the table as Parquet and describes it in a record;
- extracts every selected table of a file, tolerating per-table failures, and builds a manifest;
- publishes the Parquet files and the manifest under `extracted/<year>/`, rewriting each record's object-store path in place.

Modules, one per file:

- `Results` (results.dfy): `Option` and `Result`.
- `Text` (text.dfy) holds the string functions Python supplies:
  - the ASCII `\d` and `\w` classes, with whitespace as `str.isspace` has it;
  - `strip`, `str(int)` and `lower`;
  - `in` on strings.
- `ExtractionModels` (extraction_models.dfy): the `ColumnInfo` value and the `ExtractionManifest` value. `ExtractionMetadata` is a class because its `gcsPath` is rewritten after creation.
- `BaseDownloader` (base_downloader.dfy): `DownloadMetadata`, a class for the same reason.
- `Storage` (storage.dfy) models the two stores:
  - the local file system, as a map from path to bytes plus a set of folders;
  - a bucket, as a map from object path to blob, with a set of object paths whose uploads the store refuses.
- `MdbParsing` (mdb_parsing.dfy): the extractor's pure helpers.
  - Table-list parsing, with its round trip.
  - The date-shape recogniser.
  - The column-name cleaner.
  - Column type inference.
- `MdbExtraction` (mdb_extractor.dfy) has two parts:
  - the extractor's specification functions;
  - the `MDBExtractor` class, whose methods change the file system, the bucket and the records.
  - The run is specified over `Extractions`, the sequence of what extracting each selected table gives. The extraction loop receives that sequence as a ghost argument, tied to `ExtractTableSpec` table by table.
- `IpedsDownloader` (ipeds_downloader.dfy) has three parts:
  - the naming functions;
  - the transfer specification `Transfer`, with its lemmas;
  - the `IPEDSDownloader` class.

Outside code becomes parameters of the model:
- The external tools become fields of an `MdbFile` value: whether the file exists, the `mdb-tables` output or failure, and the `mdb-export` output or failure for each table.
- pandas' CSV reader, `to_datetime` and the Parquet writer are the functions of an `Env`.
- The HTTP session, after its retries, is a function from a URL and an optional `Range` header to a `Reply`.
- MD5 and SHA-256 are functions from bytes to text.
- Include and exclude patterns are a text plus a start-anchored match function. The match function gives `None` for a pattern that does not compile.

## Model

| member | source | states |
|---|---|---|
| ExtractionModels.ExtractionMetadata.constructor | src/extractors/extraction_models.py:21-36 | a new table record holds exactly the given source file, table, counts, columns and object path |
| ExtractionModels.Records | src/extractors/extraction_models.py:48 | the serialised manifest holds one value per record object |
| ExtractionModels.RecordsElementwise | src/extractors/extraction_models.py:48 | the serialised manifest lists the current value of each of its record objects, in order |
| BaseDownloader.DownloadMetadata.constructor | src/downloaders/base_downloader.py:14-25 | a new download record holds exactly the given file name, URL, size, checksums, object path and status |
| Storage.Bucket.Upload | src/downloaders/ipeds_downloader.py:188-191 | an upload succeeds exactly when the store accepts the path; it then replaces the blob at that path (last write wins), and otherwise the bucket is unchanged |
| Storage.BucketName | src/extractors/mdb_extractor.py:41 | the bucket name never ends in `/` |
| Storage.ReplaceLeading | src/downloaders/ipeds_downloader.py:41 | `replace` of a pattern that occurs only at the start of the text removes just that occurrence |
| Storage.RstripSlash | src/downloaders/ipeds_downloader.py:41 | `rstrip('/')` leaves a name without `/` alone and removes one trailing `/` from it |
| Storage.BucketNameOfLocation | src/downloaders/ipeds_downloader.py:41 | `gs://<name>` and `gs://<name>/` both yield `<name>` for any name without `:` or `/` |
| MdbParsing.SplitAtBreaks | src/extractors/mdb_extractor.py:79 | the output is cut into at least one piece, and no piece holds a line boundary |
| MdbParsing.SplitWithoutBreak | src/extractors/mdb_extractor.py:79 | a last line with no boundary after it is one whole piece |
| MdbParsing.KeepStripped | src/extractors/mdb_extractor.py:79 | only non-empty stripped lines are kept, never more than were given |
| MdbParsing.KeepStrippedCons | src/extractors/mdb_extractor.py:79 | a line in front contributes its stripped text exactly when that is not blank, ahead of what the other lines give |
| MdbParsing.KeepStrippedAppend | src/extractors/mdb_extractor.py:79 | filtering works piece by piece: the lines of two blocks give the names of the first block followed by those of the second |
| MdbParsing.ParseTableList | src/extractors/mdb_extractor.py:79 | every table name is non-empty, has no surrounding whitespace and no line boundary |
| MdbParsing.ParseLineByLine | src/extractors/mdb_extractor.py:79 | the names are read line by line: a first line ended by any line boundary (`\n`, `\r`, ...) gives its stripped text unless blank, followed by the names of the rest |
| MdbParsing.ParseLastLine | src/extractors/mdb_extractor.py:79 | a final line without a boundary gives its stripped text unless blank |
| MdbParsing.SplitAfterLine | src/extractors/mdb_extractor.py:79 | the text up to the first line boundary, of any kind, is the first piece, and the rest is split on its own |
| MdbParsing.SplitRendered | src/extractors/mdb_extractor.py:79 | splitting names written one per line gives the names plus one empty tail |
| MdbParsing.KeepStrippedNames | src/extractors/mdb_extractor.py:79 | filtering keeps stripped non-empty names and drops the empty tail |
| MdbParsing.ParseRenderRoundTrip | src/extractors/mdb_extractor.py:79 | parsing the tool's one-name-per-line output returns the names, in order |
| MdbParsing.FitsIso | src/extractors/mdb_extractor.py:134 | the `\d{4}-\d{2}-\d{2}` shape matches exactly a year-first date position by position |
| MdbParsing.FitsMonthFirst | src/extractors/mdb_extractor.py:135-136 | the `\d{2}/\d{2}/\d{4}` and `\d{2}-\d{2}-\d{4}` shapes match exactly a month-first date |
| MdbParsing.DateDigitsShape | src/extractors/mdb_extractor.py:133-137 | a ten-character text matches one of the three shapes iff it is a year-first date or a month-first date with `/` or `-` |
| MdbParsing.IsDateStringShapes | src/extractors/mdb_extractor.py:131-138 | a value is a date string iff it is ten characters (or ten plus a final newline, which `$` allows) in one of the three shapes |
| MdbParsing.AcceptedDateExamples | tests/test_mdb_extractor.py:176-186 | `2023-01-01`, `01/15/2023` and `12-25-2023` are dates, and so is `2023-01-01` followed by one newline |
| MdbParsing.RejectedDateExamples | tests/test_mdb_extractor.py:176-186 | `not a date`, `2023` and `2023-01-01 00:00` are not dates |
| MdbParsing.NotDateExamples | src/extractors/mdb_extractor.py:131-138 | `a` and `1` are not dates |
| MdbParsing.Underscored | src/extractors/mdb_extractor.py:143 | replacing non-word characters keeps the length and leaves only word characters |
| MdbParsing.UnderscoredKeepsAlnums | src/extractors/mdb_extractor.py:143 | the replacement keeps every letter and digit, in order |
| MdbParsing.StripUnderscoresKeepsAlnums | src/extractors/mdb_extractor.py:143 | stripping `_` from the ends keeps every letter and digit |
| MdbParsing.CollapseUnderscores | src/extractors/mdb_extractor.py:145 | collapsing runs of `_` never lengthens a name |
| MdbParsing.CollapseShape | src/extractors/mdb_extractor.py:145 | collapsing keeps a word-only name word-only, keeps a name non-empty, and keeps its first and last characters |
| MdbParsing.CollapseNoDouble | src/extractors/mdb_extractor.py:145 | after collapsing, no `__` remains |
| MdbParsing.CollapseKeepsAlnums | src/extractors/mdb_extractor.py:145 | collapsing keeps every letter and digit |
| MdbParsing.CollapseIdentity | src/extractors/mdb_extractor.py:145 | a name without `__` is left as it is |
| MdbParsing.CollapseAppend | src/extractors/mdb_extractor.py:145 | collapsing works piecewise when the seam is not inside a run of `_` |
| MdbParsing.CollapseRun | src/extractors/mdb_extractor.py:145 | a run of `_` collapses to one `_` |
| MdbParsing.CleanColumnName | src/extractors/mdb_extractor.py:140-146 | a cleaned name has only word characters, no `__`, and no `_` at either end |
| MdbParsing.CleanKeepsAlnums | src/extractors/mdb_extractor.py:143-145 | cleaning keeps every letter and digit of the name, in order |
| MdbParsing.CleanIdempotent | src/extractors/mdb_extractor.py:143-145 | cleaning a cleaned name changes nothing |
| MdbParsing.CleanColumnNames | src/extractors/mdb_extractor.py:143-145 | cleaning keeps the number and order of the columns, each cleaned alone |
| MdbParsing.CleanNamesCanCollide | src/extractors/mdb_extractor.py:143-145 | `A B` and `A_B` clean to the same name `A_B` |
| MdbParsing.Interleave | src/extractors/mdb_extractor.py:143-145 | words joined by separators start with the first word's first character and end with the last word's last character |
| MdbParsing.UnderscoredAppend | src/extractors/mdb_extractor.py:143 | the replacement works piecewise on a concatenation |
| MdbParsing.UnderscoredInterleave | src/extractors/mdb_extractor.py:143 | words joined by non-word separators become the words joined by runs of `_` |
| MdbParsing.CollapseInterleave | src/extractors/mdb_extractor.py:145 | words joined by runs of `_` collapse to the words joined by single `_` |
| MdbParsing.CleanSeparatedWords | src/extractors/mdb_extractor.py:143-145 | alphanumeric words separated by any non-word characters clean to the words joined by single `_` |
| MdbParsing.CleanColumnNameExample | tests/test_mdb_extractor.py:194-208 | `Column   With   Spaces` becomes `Column_With_Spaces` |
| MdbParsing.ColumnNames | src/extractors/mdb_extractor.py:100 | one name per column, in column order |
| MdbParsing.NonMissing | src/extractors/mdb_extractor.py:115 | the present values come from the cells, and none are left iff every cell is missing |
| MdbParsing.NonMissingAppend | src/extractors/mdb_extractor.py:115 | dropping missing cells works piecewise |
| MdbParsing.DateSample | src/extractors/mdb_extractor.py:115 | the sample has at most ten values, and is empty iff every cell is missing |
| MdbParsing.DateSampleIgnoresTail | src/extractors/mdb_extractor.py:115 | once ten values are present, later cells do not change the sample |
| MdbParsing.MissingCellsIgnored | src/extractors/mdb_extractor.py:115 | inserting a missing cell anywhere does not change the sample |
| MdbParsing.ColumnDataType | src/extractors/mdb_extractor.py:101-121 | the first of `int`, `float`, `bool`, `datetime` found in the dtype decides integer, float, boolean or timestamp; failing all of these and `object`, the type is string; a column is a date only for an `object` dtype with a present value |
| MdbParsing.InferColumnTypes | src/extractors/mdb_extractor.py:88-129 | one entry per column, in order, with the column's name and type, nullable iff some cell is missing |
| MdbParsing.ObjectColumnType | src/extractors/mdb_extractor.py:113-119 | an `object` column is a date iff its sample is non-empty and all dates, and a string otherwise |
| MdbParsing.NumericColumnTypes | src/extractors/mdb_extractor.py:105-110 | `int64`, `float64` and `bool` map to integer, float and boolean |
| MdbParsing.DateColumn | src/extractors/mdb_extractor.py:113-117 | an `object` column with a present value whose present values are all dates is a date column |
| MdbParsing.TextColumn | src/extractors/mdb_extractor.py:113-119 | an `object` column whose first cell is a present non-date is a string column |
| MdbExtraction.ListTables | src/extractors/mdb_extractor.py:56-86 | a missing file fails with not-found before the tool runs; a failing tool fails with its error output; success iff the tool completed, and then the names are the parsed tool output, each stripped and non-empty |
| MdbExtraction.ListTablesOfListing | src/extractors/mdb_extractor.py:66-79 | listing a file whose tool prints the names one per line returns those names, in order |
| MdbExtraction.CleanFrameColumns | src/extractors/mdb_extractor.py:196 | cleaning the frame renames the columns with the cleaned names and keeps their types and cells |
| MdbExtraction.CoerceDates | src/extractors/mdb_extractor.py:202-207 | column names are kept; non-date columns and columns `to_datetime` rejects are left as they were |
| MdbExtraction.ExtractTableSpec | src/extractors/mdb_extractor.py:165-239 | a missing file fails with not-found; a failing `mdb-export` fails with its error output |
| MdbExtraction.ExtractTableSpecSound | src/extractors/mdb_extractor.py:148-242 | a blank export fails as empty; on success the export completed and parsed, and the frame has the read row count, distinct cleaned names, one type per column and the written Parquet bytes |
| MdbExtraction.ExtractedColumnTypes | src/extractors/mdb_extractor.py:199 | the recorded column types are those inferred from the cleaned frame |
| MdbExtraction.HeaderOnlyTable | src/extractors/mdb_extractor.py:188-189 | a header-only export is accepted with zero rows |
| MdbExtraction.CollidingHeadersFail | src/extractors/mdb_extractor.py:196-199 | once the export is read as CSV, extraction fails for an ambiguous column exactly when two header names clean to the same name |
| MdbExtraction.SpaceAndUnderscoreHeadersFail | src/extractors/mdb_extractor.py:196-199 | a table with headers `A B` and `A_B` is refused |
| MdbExtraction.TableRecordOf | src/extractors/mdb_extractor.py:221-231 | the record names the table and file, counts the columns, sizes the Parquet bytes and carries the given object path |
| MdbExtraction.SkipTable | src/extractors/mdb_extractor.py:271-279 | a table is skipped exactly when a given include pattern does not match it or a given exclude pattern matches it; without patterns nothing is skipped; only an uncompilable pattern fails |
| MdbExtraction.Partition | src/extractors/mdb_extractor.py:267-281 | selected and skipped tables together are the listed tables, as a multiset; each is selected or skipped exactly as its pattern check says; failure iff some check fails |
| MdbExtraction.PartitionInOrder | src/extractors/mdb_extractor.py:267-281 | the selected tables are exactly those whose check says keep, and the skipped ones exactly those whose check says skip, each in listing order |
| MdbExtraction.PartitionWithoutPatterns | src/extractors/mdb_extractor.py:267-281 | without patterns every table is selected, in order |
| MdbExtraction.PartitionFailureSticks | src/extractors/mdb_extractor.py:267-281 | the first failing pattern check ends the partition with that failure |
| MdbExtraction.Extractions | src/extractors/mdb_extractor.py:297-300 | one extraction result per selected table |
| MdbExtraction.Outcome | src/extractors/mdb_extractor.py:294-304 | every selected table yields either a record or a failure, so records and failures together are as many as the tables processed |
| MdbExtraction.OutcomeInOrder | src/extractors/mdb_extractor.py:294-304 | the records are those of the successful tables and the failures the failed tables, each in selection order |
| MdbExtraction.OutcomeFailures | src/extractors/mdb_extractor.py:302-304 | a table is listed as failed exactly when it is a selected table whose extraction failed |
| MdbExtraction.OutcomeRecords | src/extractors/mdb_extractor.py:298-301 | every record comes from a selected table whose extraction succeeded and has an empty object path; every such table has its record |
| MdbExtraction.ExtractionStaysInFolder | src/extractors/mdb_extractor.py:297-301 | extraction keeps every existing file and adds files only inside the output folder |
| MdbExtraction.RunAccountsForEveryTable | src/extractors/mdb_extractor.py:307-316 | the counts add up: extracted plus failed plus skipped equals the number of listed tables |
| MdbExtraction.SelectedOrSkipped | src/extractors/mdb_extractor.py:267-281 | a listed table is selected iff its check says keep and skipped iff its check says skip, and its check does not fail |
| MdbExtraction.SelectedTableFails | src/extractors/mdb_extractor.py:294-304 | a table is reported failed iff it was selected and its extraction fails |
| MdbExtraction.RecordedOnlyIfSucceeded | src/extractors/mdb_extractor.py:298-301 | a record for a table means the table was selected and its extraction succeeded |
| MdbExtraction.SelectedTableRecorded | src/extractors/mdb_extractor.py:298-301 | a table has a record iff it was selected and its extraction succeeds |
| MdbExtraction.EachTableAccountedOnce | src/extractors/mdb_extractor.py:267-316 | each listed table ends in exactly one of the skipped list, the failed list and the records, as its pattern check and its extraction decide |
| MdbExtraction.TableNeverOverwritesManifest | src/extractors/mdb_extractor.py:347-357 | no table's object path is the manifest's |
| MdbExtraction.YearsKeptApart | src/extractors/mdb_extractor.py:347-357 | tables and manifests of different years never share an object path |
| MdbExtraction.UploadedUris | src/extractors/mdb_extractor.py:343-354 | never more URIs than records |
| MdbExtraction.UploadedBlobs | src/extractors/mdb_extractor.py:343-354 | uploading only adds or replaces blobs |
| MdbExtraction.MDBExtractor.constructor | src/extractors/mdb_extractor.py:36-46 | compression falls back to `snappy`; the bucket is named from the configured location |
| MdbExtraction.MDBExtractor.ExtractTable | src/extractors/mdb_extractor.py:148-242 | fails exactly as the specification does, leaving the files alone; on success the Parquet file is written at the output path and a fresh record matches the specification |
| MdbExtraction.MDBExtractor.ExtractAllTables | src/extractors/mdb_extractor.py:244-321 | a listing or pattern failure changes nothing; otherwise the manifest counts all tables, lists the skipped and failed ones, and holds one fresh record per extracted table, in listing order |
| MdbExtraction.MDBExtractor.SelectTables | src/extractors/mdb_extractor.py:267-281 | the selection loop computes the partition |
| MdbExtraction.MDBExtractor.ExtractNext | src/extractors/mdb_extractor.py:297-304 | one loop step extends the outcome and the written files by the next table; a success appends exactly one fresh record |
| MdbExtraction.MDBExtractor.ExtractSelected | src/extractors/mdb_extractor.py:294-304 | the extraction loop produces the outcome of every selected table, in order, with distinct fresh records |
| MdbExtraction.MDBExtractor.UploadTable | src/extractors/mdb_extractor.py:343-354 | a table with a local Parquet file is uploaded and its record's object path set; one without is left alone |
| MdbExtraction.MDBExtractor.UploadTables | src/extractors/mdb_extractor.py:340-354 | the table loop fails iff some existing table file's upload is refused; on success each record with a local file gets its table URI, the others keep theirs, and the URIs and blobs are those of the tables in order |
| MdbExtraction.MDBExtractor.UploadExtractionToGcs | src/extractors/mdb_extractor.py:323-370 | fails iff some upload is refused; on success each record with a local file gets its table URI, the others keep theirs, and the report lists the URIs in order with the manifest URI |
| IpedsDownloader.Setting | src/downloaders/ipeds_downloader.py:46 | a configured value wins over its fallback |
| IpedsDownloader.VersionSuffix | src/downloaders/ipeds_downloader.py:73-78 | `_pv` iff the version is `provisional` in any case, `_rv` iff `revised`, nothing otherwise |
| IpedsDownloader.PublishedSuffix | src/downloaders/ipeds_downloader.py:211 | the same mapping, but only for the exact lower-case version |
| IpedsDownloader.PartialPath | src/downloaders/ipeds_downloader.py:102 | the partial file sits beside the destination and is a different file |
| IpedsDownloader.RangeHeader | src/downloaders/ipeds_downloader.py:109-112 | a `Range` header is sent iff the offset is positive |
| IpedsDownloader.RangeHeaderInjective | src/downloaders/ipeds_downloader.py:110-112 | different offsets ask for different ranges |
| IpedsDownloader.RangeHeaderExample | tests/test_ipeds_downloader.py:150 | resuming after 13 bytes asks for `bytes=13-` |
| IpedsDownloader.KnownVersionSuffixes | src/downloaders/ipeds_downloader.py:73-78 | `final` has no suffix, `provisional` and `Provisional` have `_pv`, `revised` has `_rv` |
| IpedsDownloader.UrlShape | src/downloaders/ipeds_downloader.py:60-81 | the URL is the base, `/IPEDS`, the year, the version's suffix and `.zip` |
| IpedsDownloader.UrlOfVersion | src/downloaders/ipeds_downloader.py:60-81 | the URL is `<base>/IPEDS<year><suffix>.zip` with `_pv`, `_rv` or no suffix |
| IpedsDownloader.UrlExamples | tests/test_ipeds_downloader.py:73-92 | the three URLs for 2023 under `https://example.com/ipeds` |
| IpedsDownloader.UrlIgnoresCase | src/downloaders/ipeds_downloader.py:75-77 | versions that differ only in case give the same URL |
| IpedsDownloader.LowerCaseVersionKeepsName | src/downloaders/ipeds_downloader.py:211 | for a lower-case version the published file name is the URL's file name |
| IpedsDownloader.CapitalisedVersionStoredAsFinal | src/downloaders/ipeds_downloader.py:211-212 | `Provisional` fetches the provisional archive but stores it at the final archive's object path |
| IpedsDownloader.ArchiveNeverOverwritesSidecar | src/downloaders/ipeds_downloader.py:212-213 | no archive is stored at the sidecar's object path |
| IpedsDownloader.YearsKeptApart | src/downloaders/ipeds_downloader.py:212-213 | archives and sidecars of different years never share an object path |
| IpedsDownloader.Resumed | src/downloaders/ipeds_downloader.py:126 | the reopened partial file holds as many bytes as the resume offset |
| IpedsDownloader.Transfer | src/downloaders/ipeds_downloader.py:99-173 | success iff a response arrives with a non-error status, a readable length and an unbroken body; then the destination holds the resumed prefix plus the chunks and the partial file is gone; a request error removes only the partial file; a bad length changes nothing |
| IpedsDownloader.InterruptedDownloadResumes | src/downloaders/ipeds_downloader.py:102-141 | when a partial file is left behind (by a process that was stopped mid-transfer), the next request asks for the rest, and the saved file is the whole archive when the server honours the range |
| IpedsDownloader.IgnoredRangeAppendsWholeArchive | src/downloaders/ipeds_downloader.py:126-132 | a 200 reply carrying the whole archive to a resumed request is appended, so the file is longer than the archive |
| IpedsDownloader.FailedAttemptRestartsFromZero | src/downloaders/ipeds_downloader.py:168-173 | after a request error the next attempt sends no `Range` header and saves only what it receives |
| IpedsDownloader.ExhaustedRetriesFail | src/downloaders/ipeds_downloader.py:46-51 | a status the retry adapter retries, once retries run out, fails the download and removes the partial file |
| IpedsDownloader.EmptyChunksAddNothing | src/downloaders/ipeds_downloader.py:128-130 | skipping an empty chunk does not change the written bytes |
| IpedsDownloader.ConcatAppend | src/downloaders/ipeds_downloader.py:127-132 | joining the chunks of a body is associative: the bytes of two runs of chunks are the bytes of the first run followed by those of the second |
| IpedsDownloader.ReadAt | src/downloaders/ipeds_downloader.py:147 | a read returns the next bytes of the file, and nothing only at the end or for a zero size |
| IpedsDownloader.Tidied | src/downloaders/ipeds_downloader.py:264-267 | the folder is removed iff it exists and is empty, and nothing else is removed |
| IpedsDownloader.IPEDSDownloader.constructor | src/downloaders/ipeds_downloader.py:38-58 | the bucket is named from the configured location; retries fall back to 3, timeout to 300 s, chunk size to 10 MiB |
| IpedsDownloader.IPEDSDownloader.RecordOf | src/downloaders/ipeds_downloader.py:153-163 | the record names the destination and URL, gives the saved size and status, has no object path yet, and holds the digests of the saved file |
| IpedsDownloader.IPEDSDownloader.Checksums | src/downloaders/ipeds_downloader.py:144-150 | the digests cover the whole saved file, read back in chunks (nothing when the chunk size is 0) |
| IpedsDownloader.IPEDSDownloader.WriteChunks | src/downloaders/ipeds_downloader.py:127-132 | the partial file gains the chunks in order; the counter is the offset plus the bytes written |
| IpedsDownloader.IPEDSDownloader.Fetch | src/downloaders/ipeds_downloader.py:99-141 | the destination folder is created, and the files and the result are exactly those of the transfer from the files as they were |
| IpedsDownloader.IPEDSDownloader.Download | src/downloaders/ipeds_downloader.py:83-173 | the files end as the transfer says, the destination folder exists, and a success returns a fresh record of the saved file |
| IpedsDownloader.IPEDSDownloader.UploadToGcs | src/downloaders/ipeds_downloader.py:175-196 | the local file is published at the path and its URI `gs://<bucket>/<path>` returned; a missing file or a refused upload fails and leaves the bucket alone |
| IpedsDownloader.IPEDSDownloader.Publish | src/downloaders/ipeds_downloader.py:240-259 | the archive is published, then the sidecar carrying its URI, then the local file is deleted; a refused sidecar leaves the archive published without one |
| IpedsDownloader.IPEDSDownloader.RemoveIfEmpty | src/downloaders/ipeds_downloader.py:264-267 | the folder goes only if it exists and is empty |
| IpedsDownloader.IPEDSDownloader.DownloadIpedsData | src/downloaders/ipeds_downloader.py:198-267 | an archive already stored and not forced changes nothing and returns its sidecar or an `exists` answer; otherwise the transfer and the publication happen once each, and the year folder is removed iff left empty |
| IpedsDownloader.IPEDSDownloader.DownloadAgain | src/downloaders/ipeds_downloader.py:214-259 | after a call that succeeded, a second call without `force` fetches nothing and changes nothing, and returns the sidecar the first call wrote when it published one |

## Left out

- Timestamps and durations (`extraction_timestamp`, `download_timestamp`, `download_duration_seconds`) are wall-clock values and are not modelled.
- Logging is not modelled. This includes the download progress percentage, which uses floating point.
- JSON text is not modelled: a JSON blob is kept as the record it serialises. As a result, reading back a sidecar returns the stored blob, not a parsed dictionary.
- Parsing configuration text with `int()` is not modelled: settings are passed in as already-parsed integers or as absent.
- The `mdb-ver` check at construction is not modelled. It is a tool call that either passes or aborts the constructor.
- `max_table_size_gb` is not modelled. It is read but never used.
- pandas and pyarrow are oracles in an `Env`. The model does not say how CSV text becomes a frame or how a frame becomes Parquet bytes.
- The regex engine is replaced by a start-anchored match function per pattern. The three date shapes and the two column-name substitutions are written out on ASCII `\d` and `\w`; Unicode digits and letters are not modelled.
- `lower()` is modelled on ASCII letters only.
- `urljoin(base + "/", filename)` is modelled as `base + "/" + filename`. This does not cover a base that already ends in `/`, nor the other rewrites `urljoin` makes.
- Path normalisation by `pathlib` is not modelled: folders and files are text joined with `/`.
- `mkdir(parents=True)` records only the folder asked for, not its ancestors.
- The retry policy of the HTTP adapter is recorded only as constants. The session function gives the reply after all retries.
- An unexpected exception outside the modelled failures is not modelled. This includes a disk error, a failing `stat`, and an error while a Parquet file is half written.
- MdbParsing.SplitAtBreaks: its pieces differ from `splitlines()` only in empty pieces. Every empty piece is dropped by the stripped-and-non-empty filter that follows, so the parsed table list is the same.
- MdbExtraction.MDBExtractor.UploadExtractionToGcs: on a refused upload it does not describe the bucket or the records, only the failure.
- MdbExtraction.MDBExtractor.UploadTables: likewise, a refused upload is described only by the failure.
