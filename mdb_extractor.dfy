/**
 * The table extractor: it lists the tables of an Access database with
 * mdbtools, exports each selected table to a Parquet file, and publishes the
 * files and the run's manifest to the object store.
 *
 * The mdbtools commands, pandas and pyarrow are outside the model: what they
 * return is given by the oracles in `MdbFile` and `Env`.
 */
module MdbExtraction {
  import opened Results
  import opened Text
  import opened ExtractionModels
  import opened MdbParsing
  import opened Storage

  /** What one run of an mdbtools command gives back. */
  datatype ToolOutput = Completed(stdout: string) | ProcessFailed(stderr: string)

  /**
   * An Access database as the extractor sees it: its path and file stem,
   * whether it exists, what `mdb-tables -1` prints for it, and what
   * `mdb-export` prints for each table.
   */
  datatype MdbFile = MdbFile(
    path: string,
    stem: string,
    present: bool,
    tableListing: ToolOutput,
    exportTable: string -> ToolOutput)

  /**
   * The libraries the extractor calls: `pd.read_csv` on the exported text,
   * `pd.to_datetime(..., errors='coerce')` on one column (`None` when it
   * raises, which leaves the column as it was), and writing a frame as
   * Parquet with a compression codec (the bytes of the file, or the error).
   */
  datatype Env = Env(
    readCsv: string -> Result<Frame, string>,
    toDatetime: Column -> Option<Column>,
    writeParquet: (Frame, string) -> Result<Bytes, string>)

  datatype ExtractError =
    | FileNotFound(path: string)
    | ListFailed(stderr: string)
    | ExportFailed(table: string, stderr: string)
    | EmptyTable(table: string)
    | CsvFailed(message: string)
    | AmbiguousColumn
    | ParquetFailed(message: string)
    | BadPattern(pattern: string)

  // =====================================================================
  // Listing the tables
  // =====================================================================

  /** `list_tables` */
  function ListTables(mdb: MdbFile): (r: Result<seq<string>, ExtractError>)
    ensures !mdb.present ==> r == Failure(FileNotFound(mdb.path))
    ensures r.Success? <==> mdb.present && mdb.tableListing.Completed?
    ensures mdb.present && mdb.tableListing.ProcessFailed? ==> r == Failure(ListFailed(mdb.tableListing.stderr))
    ensures r.Success? ==> r.value == ParseTableList(mdb.tableListing.stdout)
    ensures r.Success? ==> forall i :: 0 <= i < |r.value| ==>
              r.value[i] != [] && IsStripped(r.value[i]) && NoLineBreak(r.value[i])
  {
    if !mdb.present then Failure(FileNotFound(mdb.path))
    else match mdb.tableListing
      case ProcessFailed(err) => Failure(ListFailed(err))
      case Completed(out) => Success(ParseTableList(out))
  }

  /** When the tool prints one name per line, the listed tables are exactly those names. */
  lemma ListTablesOfListing(mdb: MdbFile, names: seq<string>)
    requires mdb.present && mdb.tableListing == Completed(RenderTableList(names))
    requires forall i :: 0 <= i < |names| ==>
               names[i] != [] && IsStripped(names[i]) && NoLineBreak(names[i])
    ensures ListTables(mdb) == Success(names)
  {
    ParseRenderRoundTrip(names);
  }

  // =====================================================================
  // Extracting one table
  // =====================================================================

  /** The frame with every column renamed by `_clean_column_names`. */
  function CleanFrameColumns(columns: seq<Column>): (r: seq<Column>)
    ensures |r| == |columns|
    ensures ColumnNames(r) == CleanColumnNames(ColumnNames(columns))
    ensures forall i :: 0 <= i < |r| ==> r[i].dtype == columns[i].dtype && r[i].cells == columns[i].cells
  {
    seq(|columns|, i requires 0 <= i < |columns| => columns[i].(name := CleanColumnName(columns[i].name)))
  }

  predicate Distinct(names: seq<string>) {
    forall i, j :: 0 <= i < j < |names| ==> names[i] != names[j]
  }

  /**
   * `df[name] = pd.to_datetime(df[name], errors='coerce')` for every column
   * inferred as a date; a conversion that raises leaves the column unchanged.
   */
  function CoerceDates(columns: seq<Column>, infos: seq<ColumnInfo>, toDatetime: Column -> Option<Column>)
    : (r: seq<Column>)
    requires |infos| == |columns|
    ensures |r| == |columns|
    ensures ColumnNames(r) == ColumnNames(columns)
    ensures forall i :: 0 <= i < |r| && infos[i].dataType != Date ==> r[i] == columns[i]
    ensures forall i :: 0 <= i < |r| && toDatetime(columns[i]).None? ==> r[i] == columns[i]
  {
    seq(|columns|, i requires 0 <= i < |columns| =>
      if infos[i].dataType == Date && toDatetime(columns[i]).Some?
      then toDatetime(columns[i]).value.(name := columns[i].name)
      else columns[i])
  }

  /** What a successful extraction of one table produces. */
  datatype Extracted = Extracted(frame: Frame, columns: seq<ColumnInfo>, parquet: Bytes)

  /**
   * The pure part of `extract_table`: export the table, refuse blank output,
   * read the CSV, clean the column names, infer the column types, convert
   * the date columns and encode the frame as Parquet.
   */
  function ExtractTableSpec(mdb: MdbFile, table: string, env: Env, compression: string)
    : (r: Result<Extracted, ExtractError>)
    ensures !mdb.present ==> r == Failure(FileNotFound(mdb.path))
    ensures mdb.present && mdb.exportTable(table).ProcessFailed? ==>
              r == Failure(ExportFailed(table, mdb.exportTable(table).stderr))
  {
    if !mdb.present then Failure(FileNotFound(mdb.path))
    else match mdb.exportTable(table)
      case ProcessFailed(err) => Failure(ExportFailed(table, err))
      case Completed(out) =>
        if Strip(out) == [] then Failure(EmptyTable(table))
        else match env.readCsv(out)
          case Failure(msg) => Failure(CsvFailed(msg))
          case Success(read) =>
            var cleaned := CleanFrameColumns(read.columns);
            if !Distinct(ColumnNames(cleaned)) then Failure(AmbiguousColumn)
            else
              var infos := InferColumnTypes(cleaned);
              var frame := Frame(CoerceDates(cleaned, infos, env.toDatetime), read.rowCount);
              match env.writeParquet(frame, compression)
              case Failure(msg) => Failure(ParquetFailed(msg))
              case Success(bytes) => Success(Extracted(frame, infos, bytes))
  }

  /**
   * A blank export is refused; a successful extraction comes from a completed
   * export that parsed as CSV, keeps its row count, carries the cleaned and
   * distinct column names, describes each column under its name, and holds
   * the Parquet encoding of its frame.
   */
  lemma ExtractTableSpecSound(mdb: MdbFile, table: string, env: Env, compression: string)
    ensures var r := ExtractTableSpec(mdb, table, env, compression);
            mdb.present && mdb.exportTable(table).Completed? && Strip(mdb.exportTable(table).stdout) == []
            ==> r == Failure(EmptyTable(table))
    ensures var r := ExtractTableSpec(mdb, table, env, compression);
            r.Success? ==>
              mdb.present && mdb.exportTable(table).Completed? && env.readCsv(mdb.exportTable(table).stdout).Success?
    ensures var r := ExtractTableSpec(mdb, table, env, compression);
            r.Success? ==>
              var read := env.readCsv(mdb.exportTable(table).stdout).value;
              var names := ColumnNames(r.value.frame.columns);
              r.value.frame.rowCount == read.rowCount
              && names == CleanColumnNames(ColumnNames(read.columns))
              && Distinct(names)
              && |r.value.columns| == |names|
              && (forall i :: 0 <= i < |names| ==> r.value.columns[i].name == names[i])
              && env.writeParquet(r.value.frame, compression) == Success(r.value.parquet)
  {
  }

  /** The column descriptions of a successful extraction are those of the cleaned frame that was read. */
  lemma ExtractedColumnTypes(mdb: MdbFile, table: string, env: Env, compression: string)
    requires ExtractTableSpec(mdb, table, env, compression).Success?
    ensures var x := ExtractTableSpec(mdb, table, env, compression).value;
            var read := env.readCsv(mdb.exportTable(table).stdout).value;
            x.columns == InferColumnTypes(CleanFrameColumns(read.columns))
            && x.frame.columns == CoerceDates(CleanFrameColumns(read.columns), x.columns, env.toDatetime)
  {
  }

  /**
   * A table that has a header but no rows is not empty: its output is not
   * blank, so it is extracted with zero rows.
   */
  lemma HeaderOnlyTable(mdb: MdbFile, table: string, env: Env, compression: string, header: seq<Column>)
    requires mdb.present && mdb.exportTable(table).Completed?
    requires Strip(mdb.exportTable(table).stdout) != []
    requires env.readCsv(mdb.exportTable(table).stdout) == Success(Frame(header, 0))
    requires Distinct(CleanColumnNames(ColumnNames(header)))
    requires forall f :: env.writeParquet(f, compression).Success?
    ensures ExtractTableSpec(mdb, table, env, compression).Success?
    ensures ExtractTableSpec(mdb, table, env, compression).value.frame.rowCount == 0
  {
  }

  /**
   * Once the export has been read as CSV, the extraction fails for an
   * ambiguous column exactly when two header names clean to the same name.
   */
  lemma CollidingHeadersFail(mdb: MdbFile, table: string, env: Env, compression: string, read: Frame)
    requires mdb.present && mdb.exportTable(table).Completed? && Strip(mdb.exportTable(table).stdout) != []
    requires env.readCsv(mdb.exportTable(table).stdout) == Success(read)
    ensures ExtractTableSpec(mdb, table, env, compression) == Failure(AmbiguousColumn)
            <==> !Distinct(CleanColumnNames(ColumnNames(read.columns)))
  {
  }

  /** Headers `A B` and `A_B` both clean to `A_B`, so such a table is refused. */
  lemma SpaceAndUnderscoreHeadersFail(mdb: MdbFile, table: string, env: Env, compression: string, read: Frame)
    requires mdb.present && mdb.exportTable(table).Completed? && Strip(mdb.exportTable(table).stdout) != []
    requires env.readCsv(mdb.exportTable(table).stdout) == Success(read)
    requires |read.columns| == 2 && read.columns[0].name == "A B" && read.columns[1].name == "A_B"
    ensures ExtractTableSpec(mdb, table, env, compression) == Failure(AmbiguousColumn)
  {
    CleanNamesCanCollide();
    var names := CleanColumnNames(ColumnNames(read.columns));
    assert names[0] == names[1];
    CollidingHeadersFail(mdb, table, env, compression, read);
  }

  /** The record `extract_table` builds from a successful extraction. */
  function TableRecordOf(mdb: MdbFile, table: string, x: Extracted, gcsPath: string): (t: TableRecord)
    ensures t.tableName == table && t.sourceFile == mdb.path && t.gcsPath == gcsPath
    ensures t.columnCount == |x.frame.columns| && t.parquetSizeBytes == |x.parquet|
  {
    TableRecord(mdb.path, table, x.frame.rowCount, |x.frame.columns|, x.columns, |x.parquet|, gcsPath)
  }

  // =====================================================================
  // Selecting the tables
  // =====================================================================

  /**
   * A table-name pattern: its text and what `re.match(text, name)` gives
   * (`None` when the text is not a valid regular expression).
   */
  datatype Pattern = Pattern(text: string, matches: string -> Option<bool>)

  /** A pattern is consulted only when it is given and not empty. */
  predicate Given(p: Option<Pattern>) { p.Some? && p.value.text != [] }

  /**
   * Whether the selection loop skips `table`: not matching a given include
   * pattern, or matching a given exclude pattern. The exclude pattern is
   * consulted only for tables the include pattern lets through.
   */
  function SkipTable(table: string, includePattern: Option<Pattern>, excludePattern: Option<Pattern>)
    : (r: Result<bool, ExtractError>)
    ensures !Given(includePattern) && !Given(excludePattern) ==> r == Success(false)
    ensures Given(includePattern) && includePattern.value.matches(table) == Some(false) ==> r == Success(true)
    ensures r.Failure? ==> (Given(includePattern) && includePattern.value.matches(table).None?)
                            || (Given(excludePattern) && excludePattern.value.matches(table).None?)
    ensures r.Success? ==>
              (r.value <==> (Given(includePattern) && includePattern.value.matches(table) == Some(false))
                            || (Given(excludePattern) && excludePattern.value.matches(table) == Some(true)))
  {
    if Given(includePattern) && includePattern.value.matches(table).None? then Failure(BadPattern(includePattern.value.text))
    else if Given(includePattern) && includePattern.value.matches(table) == Some(false) then Success(true)
    else if Given(excludePattern) && excludePattern.value.matches(table).None? then Failure(BadPattern(excludePattern.value.text))
    else Success(Given(excludePattern) && excludePattern.value.matches(table) == Some(true))
  }

  lemma DropFirst<T>(x: T)
    ensures [x][1..] == []
  {
  }

  lemma ConsSnoc<T>(s: seq<T>, x: T)
    requires s != []
    ensures (s + [x])[0] == s[0] && (s + [x])[1..] == s[1..] + [x]
  {
  }

  lemma EmptyPrefix<T>(s: seq<T>)
    ensures s[..0] == []
  {
  }

  lemma PrefixSnoc<T>(s: seq<T>, n: nat)
    requires 0 < n <= |s|
    ensures s[..n] == s[..n - 1] + [s[n - 1]]
  {
  }

  lemma SplitLast<T>(s: seq<T>)
    requires s != []
    ensures s == s[..|s| - 1] + [s[|s| - 1]]
  {
  }

  lemma AppendAssoc<T>(a: seq<T>, b: seq<T>, c: seq<T>)
    ensures a + (b + c) == a + b + c
  {
  }

  /** The tables whose pattern check gives `Success(skip)`, in listing order. */
  function Kept(tables: seq<string>, includePattern: Option<Pattern>, excludePattern: Option<Pattern>, skip: bool)
    : (r: seq<string>)
    ensures |r| <= |tables|
  {
    if tables == [] then []
    else
      (if SkipTable(tables[0], includePattern, excludePattern) == Success(skip) then [tables[0]] else [])
      + Kept(tables[1..], includePattern, excludePattern, skip)
  }

  /** Filtering a listing extended by one table extends the filtered tables by it, when it passes. */
  lemma {:induction false} KeptSnoc(tables: seq<string>, t: string, includePattern: Option<Pattern>,
                                    excludePattern: Option<Pattern>, skip: bool)
    ensures Kept(tables + [t], includePattern, excludePattern, skip)
         == Kept(tables, includePattern, excludePattern, skip)
            + (if SkipTable(t, includePattern, excludePattern) == Success(skip) then [t] else [])
    decreases |tables|
  {
    if tables == [] {
      DropFirst(t);
    } else {
      ConsSnoc(tables, t);
      KeptSnoc(tables[1..], t, includePattern, excludePattern, skip);
      var k := if SkipTable(tables[0], includePattern, excludePattern) == Success(skip) then [tables[0]] else [];
      AppendAssoc(k, Kept(tables[1..], includePattern, excludePattern, skip),
                  if SkipTable(t, includePattern, excludePattern) == Success(skip) then [t] else []);
    }
  }

  /**
   * The selection loop of `extract_all_tables`: the tables to extract and
   * the skipped ones, each in listing order, or the error of the first
   * pattern that does not compile.
   */
  function Partition(tables: seq<string>, includePattern: Option<Pattern>, excludePattern: Option<Pattern>)
    : (r: Result<(seq<string>, seq<string>), ExtractError>)
    ensures r.Success? ==> |r.value.0| + |r.value.1| == |tables|
    ensures r.Success? ==> multiset(r.value.0) + multiset(r.value.1) == multiset(tables)
    ensures r.Success? ==> forall t :: t in r.value.0 ==> SkipTable(t, includePattern, excludePattern) == Success(false)
    ensures r.Success? ==> forall t :: t in r.value.1 ==> SkipTable(t, includePattern, excludePattern) == Success(true)
    ensures r.Failure? <==> exists i :: 0 <= i < |tables| && SkipTable(tables[i], includePattern, excludePattern).Failure?
    decreases |tables|
  {
    if tables == [] then Success(([], []))
    else
      var init := tables[..|tables| - 1];
      var t := tables[|tables| - 1];
      SplitLast(tables);
      var prev := Partition(init, includePattern, excludePattern);
      if prev.Failure? then Failure(prev.error)
      else
        var skip := SkipTable(t, includePattern, excludePattern);
        if skip.Failure? then Failure(skip.error)
        else if skip.value then Success((prev.value.0, prev.value.1 + [t]))
        else Success((prev.value.0 + [t], prev.value.1))
  }

  /**
   * The selection keeps listing order: the tables to extract are exactly the
   * listed tables whose check says "keep", and the skipped ones exactly those
   * whose check says "skip", each in the order they were listed.
   */
  lemma {:induction false} PartitionInOrder(tables: seq<string>, includePattern: Option<Pattern>,
                                            excludePattern: Option<Pattern>)
    requires Partition(tables, includePattern, excludePattern).Success?
    ensures var sel := Partition(tables, includePattern, excludePattern).value;
            sel.0 == Kept(tables, includePattern, excludePattern, false)
            && sel.1 == Kept(tables, includePattern, excludePattern, true)
    decreases |tables|
  {
    if tables != [] {
      var init, t := tables[..|tables| - 1], tables[|tables| - 1];
      SplitLast(tables);
      PartitionInOrder(init, includePattern, excludePattern);
      KeptSnoc(init, t, includePattern, excludePattern, false);
      KeptSnoc(init, t, includePattern, excludePattern, true);
    }
  }

  /** Without patterns every listed table is extracted, in listing order. */
  lemma {:induction false} PartitionWithoutPatterns(tables: seq<string>, includePattern: Option<Pattern>, excludePattern: Option<Pattern>)
    requires !Given(includePattern) && !Given(excludePattern)
    ensures Partition(tables, includePattern, excludePattern) == Success((tables, []))
    decreases |tables|
  {
    if tables != [] {
      PartitionWithoutPatterns(tables[..|tables| - 1], includePattern, excludePattern);
      SplitLast(tables);
    }
  }

  /** Once a pattern fails on a prefix of the listing, the whole selection fails with that error. */
  lemma {:induction false} PartitionFailureSticks(tables: seq<string>, n: nat, includePattern: Option<Pattern>, excludePattern: Option<Pattern>)
    requires n <= |tables|
    requires Partition(tables[..n], includePattern, excludePattern).Failure?
    ensures Partition(tables, includePattern, excludePattern) == Partition(tables[..n], includePattern, excludePattern)
    decreases |tables| - n
  {
    if n < |tables| {
      assert tables[..n + 1][..n] == tables[..n];
      PartitionFailureSticks(tables, n + 1, includePattern, excludePattern);
    } else {
      assert tables[..n] == tables;
    }
  }

  // =====================================================================
  // The outcome of a run
  // =====================================================================

  /** What extracting each selected table gives, in selection order. */
  function Extractions(mdb: MdbFile, selected: seq<string>, env: Env, compression: string)
    : (xs: seq<Result<Extracted, ExtractError>>)
    ensures |xs| == |selected|
  {
    seq(|selected|, k requires 0 <= k < |selected| => ExtractTableSpec(mdb, selected[k], env, compression))
  }

  /**
   * The records of the tables among the first `n` selected ones that were
   * extracted and the names of those that failed, each in selection order,
   * where `xs` holds what the extraction of each selected table gives.
   */
  function Outcome(mdb: MdbFile, selected: seq<string>, xs: seq<Result<Extracted, ExtractError>>, n: nat)
    : (r: (seq<TableRecord>, seq<string>))
    requires n <= |selected| == |xs|
    ensures |r.0| + |r.1| == n
  {
    if n == 0 then ([], [])
    else
      var prev := Outcome(mdb, selected, xs, n - 1);
      var t := selected[n - 1];
      if xs[n - 1].Success? then (prev.0 + [TableRecordOf(mdb, t, xs[n - 1].value, "")], prev.1)
      else (prev.0, prev.1 + [t])
  }

  /** The directory the Parquet files of a run are written to. */
  function OutputDir(tempDir: string, mdb: MdbFile, outputDir: Option<string>): string {
    if outputDir.Some? then outputDir.value else tempDir + "/extraction/" + mdb.stem
  }

  /** The local files after the first `n` selected tables are extracted into `dir`, in order. */
  function ExtractedFiles(files: map<LocalPath, Bytes>, dir: string, selected: seq<string>,
                          xs: seq<Result<Extracted, ExtractError>>, n: nat): (r: map<LocalPath, Bytes>)
    requires n <= |selected| == |xs|
  {
    if n == 0 then files
    else
      var prev := ExtractedFiles(files, dir, selected, xs, n - 1);
      var t := selected[n - 1];
      if xs[n - 1].Success? then prev[LocalPath(dir, t + ".parquet") := xs[n - 1].value.parquet] else prev
  }

  /** The selected tables whose extraction failed, in selection order. */
  function FailedOf(selected: seq<string>, xs: seq<Result<Extracted, ExtractError>>): (r: seq<string>)
    requires |selected| == |xs|
    ensures |r| <= |selected|
  {
    if selected == [] then []
    else (if xs[0].Failure? then [selected[0]] else []) + FailedOf(selected[1..], xs[1..])
  }

  /** The records of the selected tables whose extraction succeeded, in selection order. */
  function RecordsOf(mdb: MdbFile, selected: seq<string>, xs: seq<Result<Extracted, ExtractError>>): (r: seq<TableRecord>)
    requires |selected| == |xs|
    ensures |r| <= |selected|
  {
    if selected == [] then []
    else (if xs[0].Success? then [TableRecordOf(mdb, selected[0], xs[0].value, "")] else [])
         + RecordsOf(mdb, selected[1..], xs[1..])
  }

  lemma {:induction false} FailedOfSnoc(selected: seq<string>, xs: seq<Result<Extracted, ExtractError>>, t: string,
                                        x: Result<Extracted, ExtractError>)
    requires |selected| == |xs|
    ensures FailedOf(selected + [t], xs + [x]) == FailedOf(selected, xs) + (if x.Failure? then [t] else [])
    decreases |selected|
  {
    if selected == [] {
      DropFirst(t);
      DropFirst(x);
    } else {
      ConsSnoc(selected, t);
      ConsSnoc(xs, x);
      FailedOfSnoc(selected[1..], xs[1..], t, x);
      AppendAssoc(if xs[0].Failure? then [selected[0]] else [], FailedOf(selected[1..], xs[1..]),
                  if x.Failure? then [t] else []);
    }
  }

  lemma {:induction false} RecordsOfSnoc(mdb: MdbFile, selected: seq<string>, xs: seq<Result<Extracted, ExtractError>>,
                                         t: string, x: Result<Extracted, ExtractError>)
    requires |selected| == |xs|
    ensures RecordsOf(mdb, selected + [t], xs + [x])
         == RecordsOf(mdb, selected, xs) + (if x.Success? then [TableRecordOf(mdb, t, x.value, "")] else [])
    decreases |selected|
  {
    if selected == [] {
      DropFirst(t);
      DropFirst(x);
    } else {
      ConsSnoc(selected, t);
      ConsSnoc(xs, x);
      RecordsOfSnoc(mdb, selected[1..], xs[1..], t, x);
      AppendAssoc(if xs[0].Success? then [TableRecordOf(mdb, selected[0], xs[0].value, "")] else [],
                  RecordsOf(mdb, selected[1..], xs[1..]),
                  if x.Success? then [TableRecordOf(mdb, t, x.value, "")] else []);
    }
  }

  /**
   * The outcome keeps selection order: the records are those of the tables
   * whose extraction succeeded and the failures are the tables whose
   * extraction failed, each in the order the tables were selected.
   */
  lemma {:induction false} OutcomeInOrder(mdb: MdbFile, selected: seq<string>, xs: seq<Result<Extracted, ExtractError>>,
                                          n: nat)
    requires n <= |selected| == |xs|
    ensures Outcome(mdb, selected, xs, n) == (RecordsOf(mdb, selected[..n], xs[..n]), FailedOf(selected[..n], xs[..n]))
  {
    if n == 0 {
      EmptyPrefix(selected);
      EmptyPrefix(xs);
    } else {
      OutcomeInOrder(mdb, selected, xs, n - 1);
      PrefixSnoc(selected, n);
      PrefixSnoc(xs, n);
      FailedOfSnoc(selected[..n - 1], xs[..n - 1], selected[n - 1], xs[n - 1]);
      RecordsOfSnoc(mdb, selected[..n - 1], xs[..n - 1], selected[n - 1], xs[n - 1]);
      var prev, out := Outcome(mdb, selected, xs, n - 1), Outcome(mdb, selected, xs, n);
      assert out.0 == prev.0 + (if xs[n - 1].Success? then [TableRecordOf(mdb, selected[n - 1], xs[n - 1].value, "")] else []);
      assert out.1 == prev.1 + (if xs[n - 1].Failure? then [selected[n - 1]] else []);
    }
  }

  /** A table is reported as failed exactly when it is a selected table whose extraction failed. */
  lemma {:induction false} OutcomeFailures(mdb: MdbFile, selected: seq<string>, xs: seq<Result<Extracted, ExtractError>>,
                                           n: nat)
    requires n <= |selected| == |xs|
    ensures forall t :: t in Outcome(mdb, selected, xs, n).1 ==>
                          exists j :: 0 <= j < n && selected[j] == t && xs[j].Failure?
    ensures forall j :: 0 <= j < n && xs[j].Failure? ==> selected[j] in Outcome(mdb, selected, xs, n).1
  {
    if n > 0 {
      OutcomeFailures(mdb, selected, xs, n - 1);
      var prev := Outcome(mdb, selected, xs, n - 1);
      if xs[n - 1].Failure? {
        assert Outcome(mdb, selected, xs, n).1 == prev.1 + [selected[n - 1]];
      } else {
        assert Outcome(mdb, selected, xs, n).1 == prev.1;
      }
    }
  }

  /** Every record of `recs` names one of the first `n` selected tables whose extraction succeeded, and has no object-store path yet. */
  predicate FromSuccesses(recs: seq<TableRecord>, selected: seq<string>, xs: seq<Result<Extracted, ExtractError>>, n: nat)
    requires n <= |selected| == |xs|
  {
    forall k :: 0 <= k < |recs| ==>
      recs[k].gcsPath == "" && exists j :: 0 <= j < n && selected[j] == recs[k].tableName && xs[j].Success?
  }

  /**
   * Every record comes from a selected table whose extraction succeeded, and
   * has no object-store path yet; every such table has its record.
   */
  lemma {:induction false} OutcomeRecords(mdb: MdbFile, selected: seq<string>, xs: seq<Result<Extracted, ExtractError>>,
                                          n: nat)
    requires n <= |selected| == |xs|
    ensures FromSuccesses(Outcome(mdb, selected, xs, n).0, selected, xs, n)
    ensures forall j :: 0 <= j < n && xs[j].Success? ==>
              TableRecordOf(mdb, selected[j], xs[j].value, "") in Outcome(mdb, selected, xs, n).0
  {
    if n > 0 {
      OutcomeRecords(mdb, selected, xs, n - 1);
      var prev := Outcome(mdb, selected, xs, n - 1).0;
      assert FromSuccesses(prev, selected, xs, n - 1);
      if xs[n - 1].Success? {
        var rec := TableRecordOf(mdb, selected[n - 1], xs[n - 1].value, "");
        var recs := prev + [rec];
        assert Outcome(mdb, selected, xs, n).0 == recs;
        forall k | 0 <= k < |recs|
          ensures recs[k].gcsPath == "" && exists j :: 0 <= j < n && selected[j] == recs[k].tableName && xs[j].Success?
        {
          if k == |prev| {
            assert recs[k] == rec && selected[n - 1] == rec.tableName;
          } else {
            assert recs[k] == prev[k];
          }
        }
      } else {
        assert Outcome(mdb, selected, xs, n).0 == prev;
      }
    }
    SuccessesRecorded(mdb, selected, xs, n);
  }

  /** Every selected table whose extraction succeeded has its record in the outcome. */
  lemma {:induction false} SuccessesRecorded(mdb: MdbFile, selected: seq<string>, xs: seq<Result<Extracted, ExtractError>>,
                                             n: nat)
    requires n <= |selected| == |xs|
    ensures forall j :: 0 <= j < n && xs[j].Success? ==>
              TableRecordOf(mdb, selected[j], xs[j].value, "") in Outcome(mdb, selected, xs, n).0
  {
    if n > 0 {
      SuccessesRecorded(mdb, selected, xs, n - 1);
      var prev := Outcome(mdb, selected, xs, n - 1);
      if xs[n - 1].Success? {
        assert Outcome(mdb, selected, xs, n).0 == prev.0 + [TableRecordOf(mdb, selected[n - 1], xs[n - 1].value, "")];
      } else {
        assert Outcome(mdb, selected, xs, n).0 == prev.0;
      }
    }
  }

  /** Extraction keeps every existing file and adds files only inside the output folder. */
  lemma {:induction false} ExtractionStaysInFolder(files: map<LocalPath, Bytes>, dir: string, selected: seq<string>,
                                                   xs: seq<Result<Extracted, ExtractError>>, n: nat)
    requires n <= |selected| == |xs|
    ensures var r := ExtractedFiles(files, dir, selected, xs, n);
            (forall p :: p in files ==> p in r) && (forall p :: p in r && p !in files ==> p.dir == dir)
  {
    if n > 0 {
      ExtractionStaysInFolder(files, dir, selected, xs, n - 1);
    }
  }

  /**
   * The manifest's counts add up: the extracted, failed and skipped tables
   * together are as many as the listed tables.
   */
  lemma RunAccountsForEveryTable(mdb: MdbFile, includePattern: Option<Pattern>, excludePattern: Option<Pattern>, env: Env,
                                 compression: string)
    requires ListTables(mdb).Success?
    requires Partition(ListTables(mdb).value, includePattern, excludePattern).Success?
    ensures var all := ListTables(mdb).value;
            var sel := Partition(all, includePattern, excludePattern).value;
            var out := Outcome(mdb, sel.0, Extractions(mdb, sel.0, env, compression), |sel.0|);
            |all| == |out.0| + |out.1| + |sel.1|
  {
  }

  /** A listed table is selected or skipped, exactly as its pattern check says. */
  lemma SelectedOrSkipped(tables: seq<string>, includePattern: Option<Pattern>, excludePattern: Option<Pattern>,
                          t: string)
    requires Partition(tables, includePattern, excludePattern).Success?
    requires t in tables
    ensures SkipTable(t, includePattern, excludePattern).Success?
    ensures var sel := Partition(tables, includePattern, excludePattern).value;
            (t in sel.0 <==> SkipTable(t, includePattern, excludePattern) == Success(false))
            && (t in sel.1 <==> SkipTable(t, includePattern, excludePattern) == Success(true))
  {
    var sel := Partition(tables, includePattern, excludePattern).value;
    var i :| 0 <= i < |tables| && tables[i] == t;
    assert !SkipTable(tables[i], includePattern, excludePattern).Failure?;
    assert t in multiset(sel.0) + multiset(sel.1) by { assert t in multiset(tables); }
  }

  /**
   * When every occurrence of `t` among the selected tables extracts to `x`,
   * `t` is reported as failed exactly when it was selected and `x` failed.
   */
  lemma SelectedTableFails(mdb: MdbFile, selected: seq<string>, xs: seq<Result<Extracted, ExtractError>>, t: string,
                           x: Result<Extracted, ExtractError>)
    requires |selected| == |xs|
    requires forall j :: 0 <= j < |selected| && selected[j] == t ==> xs[j] == x
    ensures t in Outcome(mdb, selected, xs, |selected|).1 <==> t in selected && x.Failure?
  {
    OutcomeFailures(mdb, selected, xs, |selected|);
    if t in selected {
      var j :| 0 <= j < |selected| && selected[j] == t;
    }
  }

  /** A record for `t` means `t` was selected and its extraction succeeded. */
  lemma RecordedOnlyIfSucceeded(mdb: MdbFile, selected: seq<string>, xs: seq<Result<Extracted, ExtractError>>,
                                t: string, x: Result<Extracted, ExtractError>, k: int)
    requires |selected| == |xs|
    requires forall j :: 0 <= j < |selected| && selected[j] == t ==> xs[j] == x
    requires 0 <= k < |Outcome(mdb, selected, xs, |selected|).0|
    requires Outcome(mdb, selected, xs, |selected|).0[k].tableName == t
    ensures t in selected && x.Success?
  {
    OutcomeRecords(mdb, selected, xs, |selected|);
  }

  /** Under the same condition, `t` has a record exactly when it was selected and `x` succeeded. */
  lemma SelectedTableRecorded(mdb: MdbFile, selected: seq<string>, xs: seq<Result<Extracted, ExtractError>>, t: string,
                              x: Result<Extracted, ExtractError>)
    requires |selected| == |xs|
    requires forall j :: 0 <= j < |selected| && selected[j] == t ==> xs[j] == x
    ensures var recs := Outcome(mdb, selected, xs, |selected|).0;
            (exists k :: 0 <= k < |recs| && recs[k].tableName == t) <==> t in selected && x.Success?
  {
    var recs := Outcome(mdb, selected, xs, |selected|).0;
    if k :| 0 <= k < |recs| && recs[k].tableName == t {
      RecordedOnlyIfSucceeded(mdb, selected, xs, t, x, k);
    }
    if t in selected && x.Success? {
      var j :| 0 <= j < |selected| && selected[j] == t;
      SuccessesRecorded(mdb, selected, xs, |selected|);
      var rec := TableRecordOf(mdb, t, x.value, "");
      assert rec in recs;
      var k :| 0 <= k < |recs| && recs[k] == rec;
      assert recs[k].tableName == t;
    }
  }

  /**
   * Each listed table ends in exactly one place: skipped when its pattern
   * check says so, otherwise failed or recorded as its extraction fails or
   * succeeds. A name listed twice ends in the same place both times.
   */
  lemma EachTableAccountedOnce(mdb: MdbFile, tables: seq<string>, includePattern: Option<Pattern>,
                               excludePattern: Option<Pattern>, env: Env, compression: string, t: string)
    requires Partition(tables, includePattern, excludePattern).Success?
    requires t in tables
    ensures SkipTable(t, includePattern, excludePattern).Success?
    ensures var sel := Partition(tables, includePattern, excludePattern).value;
            var out := Outcome(mdb, sel.0, Extractions(mdb, sel.0, env, compression), |sel.0|);
            var skip := SkipTable(t, includePattern, excludePattern);
            var x := ExtractTableSpec(mdb, t, env, compression);
            (t in sel.1 <==> skip == Success(true))
            && (t in out.1 <==> skip == Success(false) && x.Failure?)
            && ((exists k :: 0 <= k < |out.0| && out.0[k].tableName == t) <==> skip == Success(false) && x.Success?)
  {
    var sel := Partition(tables, includePattern, excludePattern).value;
    SelectedOrSkipped(tables, includePattern, excludePattern, t);
    var xs := Extractions(mdb, sel.0, env, compression);
    SelectedTableFails(mdb, sel.0, xs, t, ExtractTableSpec(mdb, t, env, compression));
    SelectedTableRecorded(mdb, sel.0, xs, t, ExtractTableSpec(mdb, t, env, compression));
  }

  // =====================================================================
  // Publishing
  // =====================================================================

  /** The year's folder in the bucket, `extracted/<year>/`. */
  function ExtractedFolder(year: int): string {
    "extracted/" + IntToString(year) + "/"
  }

  /** Where a table's Parquet file sits inside the year's folder. */
  function TableEntry(table: string): string {
    "tables/" + table + ".parquet"
  }

  /** The object path of one table's Parquet file. */
  function TableObjectPath(year: int, table: string): string {
    ExtractedFolder(year) + TableEntry(table)
  }

  /** The object path of the run's manifest. */
  function ManifestObjectPath(year: int): string {
    ExtractedFolder(year) + "metadata/extraction_manifest.json"
  }

  /** No table file of a year can be stored at the place of that year's manifest. */
  lemma TableNeverOverwritesManifest(year: int, table: string)
    ensures TableObjectPath(year, table) != ManifestObjectPath(year)
  {
    var n := |ExtractedFolder(year)|;
    assert TableObjectPath(year, table)[n] == TableEntry(table)[0] == 't';
    assert ManifestObjectPath(year)[n] == "metadata/extraction_manifest.json"[0] == 'm';
  }

  /** Artifacts of different years never share an object path. */
  lemma YearsKeptApart(y1: int, y2: int, t1: string, t2: string)
    requires y1 != y2
    ensures TableObjectPath(y1, t1) != TableObjectPath(y2, t2)
    ensures ManifestObjectPath(y1) != ManifestObjectPath(y2)
  {
    YearFoldersDiffer("extracted/", y1, y2, TableEntry(t1), TableEntry(t2));
    var m := "metadata/extraction_manifest.json";
    YearFoldersDiffer("extracted/", y1, y2, m, m);
  }

  // =====================================================================
  // The extractor
  // =====================================================================

  /** What `upload_extraction_to_gcs` returns. */
  datatype UploadReport = UploadReport(status: string, uploadedFiles: seq<string>, manifestPath: string)

  /** An upload that the object store refused, with its object path. */
  datatype UploadError = UploadFailed(path: string)

  /** The local Parquet file `upload_extraction_to_gcs` looks for, for one table. */
  function LocalParquet(localDir: string, table: string): LocalPath {
    LocalPath(localDir, table + ".parquet")
  }

  /** The URIs of the uploaded table files among the first `n` records, in manifest order. */
  function UploadedUris(bucketName: string, ms: seq<ExtractionMetadata>, n: nat, localDir: string,
                        files: map<LocalPath, Bytes>, year: int): (uris: seq<string>)
    requires n <= |ms|
    ensures |uris| <= n
  {
    if n == 0 then []
    else
      var prev := UploadedUris(bucketName, ms, n - 1, localDir, files, year);
      var table := ms[n - 1].tableName;
      if LocalParquet(localDir, table) in files
      then prev + [GcsUri(bucketName, TableObjectPath(year, table))]
      else prev
  }

  /** The bucket's objects after the table files of the first `n` records are uploaded, in manifest order. */
  function UploadedBlobs(blobs: map<string, Blob>, ms: seq<ExtractionMetadata>, n: nat, localDir: string,
                         files: map<LocalPath, Bytes>, year: int): (r: map<string, Blob>)
    requires n <= |ms|
    ensures forall p :: p in blobs ==> p in r
  {
    if n == 0 then blobs
    else
      var prev := UploadedBlobs(blobs, ms, n - 1, localDir, files, year);
      var table := ms[n - 1].tableName;
      var local := LocalParquet(localDir, table);
      if local in files then prev[TableObjectPath(year, table) := FileBlob(files[local])] else prev
  }

  /** Some table file of `ms` that exists locally would go to a path the store refuses. */
  predicate TableUploadRefused(rejects: set<string>, ms: seq<ExtractionMetadata>, localDir: string,
                               files: map<LocalPath, Bytes>, year: int)
  {
    exists k :: 0 <= k < |ms| && LocalParquet(localDir, ms[k].tableName) in files
                && TableObjectPath(year, ms[k].tableName) in rejects
  }

  /** Every table file of the first `n` records that exists locally goes to a path the store accepts. */
  predicate Accepted(rejects: set<string>, ms: seq<ExtractionMetadata>, n: nat, localDir: string,
                     files: map<LocalPath, Bytes>, year: int)
    requires n <= |ms|
  {
    forall k :: 0 <= k < n && LocalParquet(localDir, ms[k].tableName) in files ==>
      TableObjectPath(year, ms[k].tableName) !in rejects
  }

  /**
   * The state of the table upload loop after the first `n` records: `done`
   * holds the records visited, each of which has its URI set when its file
   * exists and keeps its URI from `before` otherwise; the records not visited
   * keep theirs; `uploaded` and the bucket's objects are those of the first
   * `n` records, and none of their uploads was refused.
   */
  ghost predicate UploadProgress(b: Bucket, ms: seq<ExtractionMetadata>, n: nat, localDir: string,
                                 files: map<LocalPath, Bytes>, year: int, uploaded: seq<string>,
                                 done: set<ExtractionMetadata>, before: map<ExtractionMetadata, string>,
                                 blobs: map<string, Blob>)
    reads b, ms
  {
    n <= |ms|
    && (forall x :: x in ms ==> x in before)
    && (forall j :: 0 <= j < n ==> ms[j] in done)
    && (forall x :: x in ms && x !in done ==> x.gcsPath == before[x])
    && (forall x :: x in done ==> x in ms)
    && (forall x :: x in done ==>
          x.gcsPath == if LocalParquet(localDir, x.tableName) in files
                       then GcsUri(b.name, TableObjectPath(year, x.tableName))
                       else before[x])
    && uploaded == UploadedUris(b.name, ms, n, localDir, files, year)
    && b.blobs == UploadedBlobs(blobs, ms, n, localDir, files, year)
    && Accepted(b.rejects, ms, n, localDir, files, year)
  }

  lemma PrefixOfAppend<T>(s: seq<T>, x: T)
    ensures (s + [x])[..|s|] == s
  {
  }

  class MDBExtractor {
    const compression: string
    const tempDir: string
    const env: Env
    const fs: LocalFs
    const bucket: Bucket

    /**
     * The bucket is the configured raw-bucket location with its `gs://`
     * scheme and trailing slashes removed; the Parquet codec defaults to
     * snappy.
     */
    constructor (rawBucket: string, configuredCompression: Option<string>, tempDir: string, env: Env,
                 fs: LocalFs, rejects: set<string>, blobs: map<string, Blob>)
      ensures compression == if configuredCompression.Some? then configuredCompression.value else "snappy"
      ensures this.tempDir == tempDir && this.env == env && this.fs == fs
      ensures fresh(bucket) && bucket.name == BucketName(rawBucket)
      ensures bucket.rejects == rejects && bucket.blobs == blobs
    {
      compression := if configuredCompression.Some? then configuredCompression.value else "snappy";
      this.tempDir := tempDir;
      this.env := env;
      this.fs := fs;
      bucket := new Bucket(BucketName(rawBucket), rejects, blobs);
    }

    /** Where `extract_table` writes the Parquet file. */
    function OutputPath(table: string, outputPath: Option<LocalPath>): LocalPath {
      if outputPath.Some? then outputPath.value else LocalPath(tempDir + "/extraction", table + ".parquet")
    }

    /**
     * `extract_table`: a missing database changes nothing; otherwise the
     * output directory is created, and on success the Parquet file is
     * written and a fresh record with an empty object-store path returned.
     */
    method ExtractTable(mdb: MdbFile, table: string, outputPath: Option<LocalPath>)
      returns (r: Result<ExtractionMetadata, ExtractError>)
      modifies fs
      ensures !mdb.present ==> r == Failure(FileNotFound(mdb.path))
      ensures !mdb.present ==> fs.files == old(fs.files) && fs.dirs == old(fs.dirs)
      ensures mdb.present ==> fs.dirs == old(fs.dirs) + {OutputPath(table, outputPath).dir}
                                                     + (if outputPath.None? then {tempDir + "/extraction"} else {})
      ensures r.Failure? ==> ExtractTableSpec(mdb, table, env, compression) == Failure(r.error)
                             && fs.files == old(fs.files)
      ensures r.Success? ==> var x := ExtractTableSpec(mdb, table, env, compression);
                             x.Success? && fresh(r.value)
                             && r.value.Record() == TableRecordOf(mdb, table, x.value, "")
                             && fs.files == old(fs.files)[OutputPath(table, outputPath) := x.value.parquet]
      ensures ExtractTableSpec(mdb, table, env, compression).Success? ==> r.Success?
    {
      if !mdb.present {
        return Failure(FileNotFound(mdb.path));
      }
      if outputPath.None? {
        fs.dirs := fs.dirs + {tempDir + "/extraction"};
      }
      var out := OutputPath(table, outputPath);
      fs.dirs := fs.dirs + {out.dir};
      var x := ExtractTableSpec(mdb, table, env, compression);
      if x.Failure? {
        return Failure(x.error);
      }
      fs.files := fs.files[out := x.value.parquet];
      var m := new ExtractionMetadata(mdb.path, table, x.value.frame.rowCount, |x.value.frame.columns|,
                                      x.value.columns, |x.value.parquet|, "");
      r := Success(m);
    }

    /**
     * `extract_all_tables`: list, select, create the output directory, then
     * extract every selected table into it, recording failures instead of
     * stopping.
     */
    method ExtractAllTables(mdb: MdbFile, includePattern: Option<Pattern>, excludePattern: Option<Pattern>,
                            outputDir: Option<string>)
      returns (r: Result<ExtractionManifest, ExtractError>)
      modifies fs
      ensures r.Failure? ==> fs.files == old(fs.files) && fs.dirs == old(fs.dirs)
      ensures r.Failure? ==>
                if ListTables(mdb).Failure? then r.error == ListTables(mdb).error
                else Partition(ListTables(mdb).value, includePattern, excludePattern) == Failure(r.error)
      ensures r.Success? ==>
                ListTables(mdb).Success? && Partition(ListTables(mdb).value, includePattern, excludePattern).Success?
      ensures r.Success? ==>
                var all := ListTables(mdb).value;
                var sel := Partition(all, includePattern, excludePattern).value;
                var xs := Extractions(mdb, sel.0, env, compression);
                var out := Outcome(mdb, sel.0, xs, |sel.0|);
                var m := r.value;
                var dir := OutputDir(tempDir, mdb, outputDir);
                m.sourceFile == mdb.path && m.totalTables == |all|
                && m.extractedTables == |m.tableMetadata|
                && m.skippedTables == sel.1 && m.failedTables == out.1
                && Records(m.tableMetadata) == out.0
                && (forall k :: 0 <= k < |m.tableMetadata| ==> fresh(m.tableMetadata[k]))
                && (forall i, j :: 0 <= i < j < |m.tableMetadata| ==> m.tableMetadata[i] != m.tableMetadata[j])
                && fs.dirs == old(fs.dirs) + {dir}
                && fs.files == ExtractedFiles(old(fs.files), dir, sel.0, xs, |sel.0|)
    {
      var listed := ListTables(mdb);
      if listed.Failure? {
        return Failure(listed.error);
      }
      var all := listed.value;
      var selection := SelectTables(all, includePattern, excludePattern);
      if selection.Failure? {
        return Failure(selection.error);
      }
      var dir := OutputDir(tempDir, mdb, outputDir);
      fs.dirs := fs.dirs + {dir};
      var metadata, failed := ExtractSelected(mdb, selection.value.0, dir, Extractions(mdb, selection.value.0, env, compression));
      r := Success(ExtractionManifest(mdb.path, |all|, |metadata|, selection.value.1, failed, metadata));
    }

    /** The selection loop of `extract_all_tables`. */
    method SelectTables(all: seq<string>, includePattern: Option<Pattern>, excludePattern: Option<Pattern>)
      returns (r: Result<(seq<string>, seq<string>), ExtractError>)
      ensures r == Partition(all, includePattern, excludePattern)
    {
      var toExtract: seq<string> := [];
      var skipped: seq<string> := [];
      for i := 0 to |all|
        invariant Partition(all[..i], includePattern, excludePattern) == Success((toExtract, skipped))
      {
        assert all[..i + 1][..i] == all[..i];
        var skip := SkipTable(all[i], includePattern, excludePattern);
        if skip.Failure? {
          PartitionFailureSticks(all, i + 1, includePattern, excludePattern);
          return Failure(skip.error);
        }
        if skip.value {
          skipped := skipped + [all[i]];
        } else {
          toExtract := toExtract + [all[i]];
        }
      }
      assert all[..|all|] == all;
      r := Success((toExtract, skipped));
    }

    /**
     * One iteration of the extraction loop: extract the `k`-th selected table
     * into `dir`, keeping a fresh record on success and the table's name on
     * failure. `xs` holds what extracting each selected table gives.
     */
    method ExtractNext(mdb: MdbFile, selected: seq<string>, k: nat, dir: string,
                       ghost xs: seq<Result<Extracted, ExtractError>>, ghost files: map<LocalPath, Bytes>,
                       metadata: seq<ExtractionMetadata>, failed: seq<string>)
      returns (metadata': seq<ExtractionMetadata>, failed': seq<string>)
      requires k < |selected| == |xs| && dir in fs.dirs
      requires forall j {:trigger ExtractTableSpec(mdb, selected[j], env, compression)} :: 0 <= j < |selected| ==>
                 xs[j] == ExtractTableSpec(mdb, selected[j], env, compression)
      requires Outcome(mdb, selected, xs, k) == (Records(metadata), failed)
      requires fs.files == ExtractedFiles(files, dir, selected, xs, k)
      modifies fs
      ensures Outcome(mdb, selected, xs, k + 1) == (Records(metadata'), failed')
      ensures fs.files == ExtractedFiles(files, dir, selected, xs, k + 1)
      ensures fs.dirs == old(fs.dirs)
      ensures metadata' == metadata
              || (|metadata'| == |metadata| + 1 && metadata' == metadata + [metadata'[|metadata|]]
                  && fresh(metadata'[|metadata|]))
    {
      var t := selected[k];
      var out := LocalPath(dir, t + ".parquet");
      var res := ExtractTable(mdb, t, Some(out));
      assert OutputPath(t, Some(out)).dir == dir;
      if res.Success? {
        PrefixOfAppend(metadata, res.value);
        metadata', failed' := metadata + [res.value], failed;
      } else {
        metadata', failed' := metadata, failed + [t];
      }
    }

    /**
     * The extraction loop of `extract_all_tables`: a failed table is recorded
     * and the loop goes on. `xs` holds what extracting each selected table gives.
     */
    method ExtractSelected(mdb: MdbFile, selected: seq<string>, dir: string, ghost xs: seq<Result<Extracted, ExtractError>>)
      returns (metadata: seq<ExtractionMetadata>, failed: seq<string>)
      requires dir in fs.dirs && |xs| == |selected|
      requires forall j {:trigger ExtractTableSpec(mdb, selected[j], env, compression)} :: 0 <= j < |selected| ==>
                 xs[j] == ExtractTableSpec(mdb, selected[j], env, compression)
      modifies fs
      ensures Outcome(mdb, selected, xs, |selected|) == (Records(metadata), failed)
      ensures forall q :: 0 <= q < |metadata| ==> fresh(metadata[q])
      ensures forall a, b :: 0 <= a < b < |metadata| ==> metadata[a] != metadata[b]
      ensures fs.dirs == old(fs.dirs)
      ensures fs.files == ExtractedFiles(old(fs.files), dir, selected, xs, |selected|)
    {
      metadata, failed := [], [];
      assert Records(metadata) == [];
      for k := 0 to |selected|
        invariant Outcome(mdb, selected, xs, k) == (Records(metadata), failed)
        invariant forall q :: 0 <= q < |metadata| ==> fresh(metadata[q])
        invariant forall a, b :: 0 <= a < b < |metadata| ==> metadata[a] != metadata[b]
        invariant fs.dirs == old(fs.dirs)
        invariant fs.files == ExtractedFiles(old(fs.files), dir, selected, xs, k)
      {
        ghost var prev := metadata;
        metadata, failed := ExtractNext(mdb, selected, k, dir, xs, old(fs.files), metadata, failed);
        if metadata != prev {
          var made := metadata[|prev|];
          assert forall q :: 0 <= q < |prev| ==> prev[q] != made;
        }
      }
    }

    /**
     * One iteration of the upload loop: a table whose Parquet file exists is
     * uploaded and, if the store accepts it, its record gets the object's URI.
     */
    method UploadTable(m: ExtractionMetadata, localDir: string, year: int, files: map<LocalPath, Bytes>)
      returns (ok: bool)
      modifies bucket, m
      ensures var local := LocalParquet(localDir, m.tableName);
              var path := TableObjectPath(year, m.tableName);
              if local !in files then ok && bucket.blobs == old(bucket.blobs) && m.gcsPath == old(m.gcsPath)
              else ok == (path !in bucket.rejects)
                   && (ok ==> bucket.blobs == old(bucket.blobs)[path := FileBlob(files[local])]
                              && m.gcsPath == GcsUri(bucket.name, path))
    {
      var local := LocalParquet(localDir, m.tableName);
      ok := true;
      if local in files {
        var path := TableObjectPath(year, m.tableName);
        ok := bucket.Upload(path, FileBlob(files[local]));
        if ok {
          m.gcsPath := GcsUri(bucket.name, path);
        }
      }
    }

    /**
     * One step of the table loop of `upload_extraction_to_gcs`: the record at
     * `i` is uploaded, or the loop learns that a table upload is refused.
     * `before` holds the records' URIs as they were when the loop began, and
     * `done` the records already visited.
     */
    method UploadNext(localDir: string, year: int, ms: seq<ExtractionMetadata>, files: map<LocalPath, Bytes>,
                      i: nat, uploaded: seq<string>, ghost done: set<ExtractionMetadata>,
                      ghost before: map<ExtractionMetadata, string>, ghost blobs: map<string, Blob>)
      returns (ok: bool, uploaded': seq<string>, ghost done': set<ExtractionMetadata>)
      requires i < |ms|
      requires UploadProgress(bucket, ms, i, localDir, files, year, uploaded, done, before, blobs)
      modifies bucket, ms
      ensures !ok ==> TableUploadRefused(bucket.rejects, ms, localDir, files, year)
      ensures ok ==> UploadProgress(bucket, ms, i + 1, localDir, files, year, uploaded', done', before, blobs)
    {
      var m := ms[i];
      ok := UploadTable(m, localDir, year, files);
      uploaded', done' := uploaded, done + {m};
      if !ok {
        return;
      }
      if LocalParquet(localDir, m.tableName) in files {
        uploaded' := uploaded + [m.gcsPath];
      }
      assert LocalParquet(localDir, m.tableName) in files ==> TableObjectPath(year, m.tableName) !in bucket.rejects;
      forall k | 0 <= k < i + 1 && LocalParquet(localDir, ms[k].tableName) in files
        ensures TableObjectPath(year, ms[k].tableName) !in bucket.rejects
      {
        if k == i {
          assert ms[k] == m;
        }
      }
    }

    /**
     * The table loop of `upload_extraction_to_gcs`: every record whose Parquet
     * file exists in `localDir` is uploaded and its object-store URI set, in
     * manifest order; the first refused upload ends the loop with an error.
     */
    method UploadTables(localDir: string, year: int, ms: seq<ExtractionMetadata>, files: map<LocalPath, Bytes>)
      returns (r: Result<seq<string>, UploadError>)
      modifies bucket, ms
      ensures r.Failure? <==> TableUploadRefused(bucket.rejects, ms, localDir, files, year)
      ensures r.Success? ==>
                (forall m :: m in ms ==>
                   m.gcsPath == if LocalParquet(localDir, m.tableName) in files
                                then GcsUri(bucket.name, TableObjectPath(year, m.tableName))
                                else old(m.gcsPath))
                && r.value == UploadedUris(bucket.name, ms, |ms|, localDir, files, year)
                && bucket.blobs == UploadedBlobs(old(bucket.blobs), ms, |ms|, localDir, files, year)
    {
      var uploaded: seq<string> := [];
      ghost var done: set<ExtractionMetadata> := {};
      ghost var before := map x | x in ms :: x.gcsPath;
      for i := 0 to |ms|
        invariant forall x :: x in ms ==> x in before && before[x] == old(x.gcsPath)
        invariant UploadProgress(bucket, ms, i, localDir, files, year, uploaded, done, before, old(bucket.blobs))
      {
        var ok;
        ok, uploaded, done := UploadNext(localDir, year, ms, files, i, uploaded, done, before, old(bucket.blobs));
        if !ok {
          return Failure(UploadFailed(TableObjectPath(year, ms[i].tableName)));
        }
      }
      r := Success(uploaded);
    }

    /**
     * `upload_extraction_to_gcs`: every table whose Parquet file exists in
     * `localDir` is uploaded and its record's object-store URI set; then the
     * manifest, with those URIs, is uploaded. The first refused upload ends
     * the call with an error.
     */
    method UploadExtractionToGcs(localDir: string, year: int, manifest: ExtractionManifest)
      returns (r: Result<UploadReport, UploadError>)
      modifies bucket, manifest.tableMetadata
      ensures var ms := manifest.tableMetadata;
              r.Failure? <==> TableUploadRefused(bucket.rejects, ms, localDir, fs.files, year)
                              || ManifestObjectPath(year) in bucket.rejects
      ensures r.Success? ==>
                var ms := manifest.tableMetadata;
                (forall m :: m in ms ==>
                   m.gcsPath == if LocalParquet(localDir, m.tableName) in fs.files
                                then GcsUri(bucket.name, TableObjectPath(year, m.tableName))
                                else old(m.gcsPath))
                && r.value == UploadReport("success", UploadedUris(bucket.name, ms, |ms|, localDir, fs.files, year),
                                           GcsUri(bucket.name, ManifestObjectPath(year)))
                && bucket.blobs == UploadedBlobs(old(bucket.blobs), ms, |ms|, localDir, fs.files, year)
                                     [ManifestObjectPath(year) := ManifestJson(ManifestRecordOf(manifest))]
    {
      var tables := UploadTables(localDir, year, manifest.tableMetadata, fs.files);
      if tables.Failure? {
        return Failure(tables.error);
      }
      var manifestPath := ManifestObjectPath(year);
      var ok := bucket.Upload(manifestPath, ManifestJson(ManifestRecordOf(manifest)));
      if !ok {
        return Failure(UploadFailed(manifestPath));
      }
      r := Success(UploadReport("success", tables.value, GcsUri(bucket.name, manifestPath)));
    }
  }
}
