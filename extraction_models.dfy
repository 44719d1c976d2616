/**
 * The records of an extraction run: column descriptors, one record per
 * extracted table and the manifest of the whole run. Timestamps and
 * durations are wall-clock values and are not part of the model.
 */
module ExtractionModels {

  /** The normalised column types; `Label` is the string stored in the record. */
  datatype DataType = Integer | Float | Boolean | Timestamp | Date | String
  {
    function Label(): string {
      match this
      case Integer => "integer"
      case Float => "float"
      case Boolean => "boolean"
      case Timestamp => "timestamp"
      case Date => "date"
      case String => "string"
    }
  }

  datatype ColumnInfo = ColumnInfo(name: string, dataType: DataType, nullable: bool)

  /** The value of one table record, as it is serialised into the manifest JSON. */
  datatype TableRecord = TableRecord(
    sourceFile: string,
    tableName: string,
    rowCount: nat,
    columnCount: nat,
    columns: seq<ColumnInfo>,
    parquetSizeBytes: nat,
    gcsPath: string)

  /**
   * One successfully extracted table. Every field is fixed at creation except
   * `gcsPath`, which the publisher overwrites once the artifact is uploaded.
   */
  class ExtractionMetadata {
    const sourceFile: string
    const tableName: string
    const rowCount: nat
    const columnCount: nat
    const columns: seq<ColumnInfo>
    const parquetSizeBytes: nat
    var gcsPath: string

    constructor (sourceFile: string, tableName: string, rowCount: nat, columnCount: nat,
                 columns: seq<ColumnInfo>, parquetSizeBytes: nat, gcsPath: string)
      ensures Record() == TableRecord(sourceFile, tableName, rowCount, columnCount, columns,
                                      parquetSizeBytes, gcsPath)
    {
      this.sourceFile := sourceFile;
      this.tableName := tableName;
      this.rowCount := rowCount;
      this.columnCount := columnCount;
      this.columns := columns;
      this.parquetSizeBytes := parquetSizeBytes;
      this.gcsPath := gcsPath;
    }

    function Record(): TableRecord
      reads this
    {
      TableRecord(sourceFile, tableName, rowCount, columnCount, columns, parquetSizeBytes, gcsPath)
    }
  }

  /** The manifest of one run; it holds the very record objects the run created. */
  datatype ExtractionManifest = ExtractionManifest(
    sourceFile: string,
    totalTables: nat,
    extractedTables: nat,
    skippedTables: seq<string>,
    failedTables: seq<string>,
    tableMetadata: seq<ExtractionMetadata>)

  /** The value of a manifest, as it is serialised to JSON. */
  datatype ManifestRecord = ManifestRecord(
    sourceFile: string,
    totalTables: nat,
    extractedTables: nat,
    skippedTables: seq<string>,
    failedTables: seq<string>,
    tableMetadata: seq<TableRecord>)

  /** The values of a sequence of records, in order. */
  function Records(ms: seq<ExtractionMetadata>): (rs: seq<TableRecord>)
    reads ms
    ensures |rs| == |ms|
  {
    if ms == [] then [] else Records(ms[..|ms| - 1]) + [ms[|ms| - 1].Record()]
  }

  /** The `k`-th value is the current value of the `k`-th record. */
  lemma {:induction false} RecordsElementwise(ms: seq<ExtractionMetadata>, k: int)
    requires 0 <= k < |ms|
    ensures Records(ms)[k] == ms[k].Record()
    decreases |ms|
  {
    if k < |ms| - 1 {
      RecordsElementwise(ms[..|ms| - 1], k);
    }
  }

  function ManifestRecordOf(m: ExtractionManifest): ManifestRecord
    reads m.tableMetadata
  {
    ManifestRecord(m.sourceFile, m.totalTables, m.extractedTables, m.skippedTables,
                   m.failedTables, Records(m.tableMetadata))
  }
}
