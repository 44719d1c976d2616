/** The record describing one downloaded archive. */
module BaseDownloader {

  /** The value of a download record, as it is serialised into the sidecar JSON. */
  datatype DownloadRecord = DownloadRecord(
    filename: string,
    sourceUrl: string,
    fileSizeBytes: nat,
    checksumMd5: string,
    checksumSha256: string,
    gcsPath: string,
    httpStatusCode: int)

  /**
   * A downloaded archive. Every field is fixed at creation except `gcsPath`,
   * which is filled in once the archive has been published. The timestamp and
   * the duration are wall-clock values and are not part of the model.
   */
  class DownloadMetadata {
    const filename: string
    const sourceUrl: string
    const fileSizeBytes: nat
    const checksumMd5: string
    const checksumSha256: string
    var gcsPath: string
    const httpStatusCode: int

    constructor (filename: string, sourceUrl: string, fileSizeBytes: nat, checksumMd5: string,
                 checksumSha256: string, gcsPath: string, httpStatusCode: int)
      ensures Record() == DownloadRecord(filename, sourceUrl, fileSizeBytes, checksumMd5,
                                         checksumSha256, gcsPath, httpStatusCode)
    {
      this.filename := filename;
      this.sourceUrl := sourceUrl;
      this.fileSizeBytes := fileSizeBytes;
      this.checksumMd5 := checksumMd5;
      this.checksumSha256 := checksumSha256;
      this.gcsPath := gcsPath;
      this.httpStatusCode := httpStatusCode;
    }

    function Record(): DownloadRecord
      reads this
    {
      DownloadRecord(filename, sourceUrl, fileSizeBytes, checksumMd5, checksumSha256, gcsPath,
                     httpStatusCode)
    }
  }
}
