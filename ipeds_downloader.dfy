/**
 * The IPEDS downloader: it names the yearly Access archive, fetches it over
 * HTTP with resume support into a `.partial` file, checksums it, publishes it
 * to the raw bucket under `downloads/<year>/` together with a JSON sidecar,
 * and cleans up its temporary folder.
 *
 * The HTTP session (with its retry adapter) is a function from a URL and an
 * optional `Range` header to the reply the session finally hands back, after
 * any retries. The two digests are functions of the bytes they are fed.
 */
module IpedsDownloader {
  import opened Results
  import opened Text
  import opened BaseDownloader
  import opened Storage

  // =====================================================================
  // Configuration
  // =====================================================================

  /** Retry attempts when `downloader.retry_attempts` is not configured. */
  const DefaultRetryAttempts: int := 3
  /** The retry adapter's back-off factor, in seconds. */
  const BackoffFactor: int := 1
  /** The statuses on which the retry adapter tries again. */
  const RetriedStatuses: set<int> := {429, 500, 502, 503, 504}
  /** The methods the retry adapter retries. */
  const RetriedMethods: set<string> := {"HEAD", "GET", "OPTIONS"}
  /** Request timeout when `downloader.timeout_seconds` is not configured. */
  const DefaultTimeoutSeconds: int := 300
  /** Chunk size, in MiB, when `downloader.chunk_size_mb` is not configured. */
  const DefaultChunkSizeMb: int := 10
  const MiB: int := 1024 * 1024

  /** A configured integer, or its fallback. */
  function Setting(configured: Option<int>, fallback: int): (v: int)
    ensures configured.None? ==> v == fallback
    ensures configured.Some? ==> v == configured.value
  {
    if configured.Some? then configured.value else fallback
  }

  // =====================================================================
  // Names and paths
  // =====================================================================

  /** The file-name suffix the URL uses for a data version; the version's case is ignored. */
  function VersionSuffix(version: string): (suffix: string)
    ensures suffix == "_pv" <==> ToLower(version) == "provisional"
    ensures suffix == "_rv" <==> ToLower(version) == "revised"
    ensures suffix == "" <==> ToLower(version) != "provisional" && ToLower(version) != "revised"
  {
    var v := ToLower(version);
    if v == "provisional" then "_pv" else if v == "revised" then "_rv" else ""
  }

  /** The suffix the published file name uses; here the version must match exactly. */
  function PublishedSuffix(version: string): (suffix: string)
    ensures suffix == "_pv" <==> version == "provisional"
    ensures suffix == "_rv" <==> version == "revised"
    ensures suffix == "" <==> version != "provisional" && version != "revised"
  {
    if version == "provisional" then "_pv" else if version == "revised" then "_rv" else ""
  }

  /** `IPEDS<year><suffix>.zip`. */
  function ArchiveFilename(year: int, suffix: string): string {
    "IPEDS" + IntToString(year) + suffix + ".zip"
  }

  /** `build_ipeds_url`: the archive's URL under the configured base. */
  function BuildIpedsUrl(baseUrl: string, year: int, version: string): string {
    baseUrl + "/" + ArchiveFilename(year, VersionSuffix(version))
  }

  /** The name the downloaded archive is saved and published under. */
  function PublishedFilename(year: int, version: string): string {
    ArchiveFilename(year, PublishedSuffix(version))
  }

  /** The year's folder in the bucket, `downloads/<year>/`. */
  function YearFolder(year: int): string {
    "downloads/" + IntToString(year) + "/"
  }

  /** The archive's object path in the bucket. */
  function ArchiveObjectPath(year: int, version: string): string {
    YearFolder(year) + PublishedFilename(year, version)
  }

  /** The sidecar's object path: one per year, whatever the version. */
  function SidecarPath(year: int): string {
    YearFolder(year) + "metadata.json"
  }

  /** The year's temporary folder under the configured temporary directory. */
  function TempFolder(tempDir: string, year: int): string {
    tempDir + "/ipeds_" + IntToString(year)
  }

  /** The file a download is written to before it is complete: the name with `.partial` added. */
  function PartialPath(dest: LocalPath): (p: LocalPath)
    ensures p.dir == dest.dir && p != dest
  {
    assert |dest.name + ".partial"| != |dest.name|;
    LocalPath(dest.dir, dest.name + ".partial")
  }

  /** The `Range` header of a request that resumes at byte `offset`; none at offset 0. */
  function RangeHeader(offset: nat): (h: Option<string>)
    ensures h.None? <==> offset == 0
  {
    if offset > 0 then Some("bytes=" + NatToString(offset) + "-") else None
  }

  /** The URL suffixes of the three known versions, whatever their case. */
  lemma KnownVersionSuffixes()
    ensures VersionSuffix("final") == ""
    ensures VersionSuffix("provisional") == VersionSuffix("Provisional") == "_pv"
    ensures VersionSuffix("revised") == "_rv"
  {
    assert ToLower("provisional") == "provisional";
    assert ToLower("revised") == "revised";
    assert ToLower("Provisional") == "provisional" by {
      assert ToLower("Provisional")[0] == LowerChar('P') == 'p';
    }
  }

  /** The URL is the base, a slash, then `IPEDS`, the year, the suffix and `.zip`. */
  lemma UrlShape(baseUrl: string, year: int, version: string)
    ensures BuildIpedsUrl(baseUrl, year, version)
         == baseUrl + "/IPEDS" + IntToString(year) + VersionSuffix(version) + ".zip"
  {
    var y, v := IntToString(year), VersionSuffix(version);
    assert "/IPEDS" == "/" + "IPEDS";
    calc {
      BuildIpedsUrl(baseUrl, year, version);
      baseUrl + "/" + ("IPEDS" + y + v + ".zip");
      { assert "IPEDS" + y + v + ".zip" == "IPEDS" + (y + v + ".zip"); }
      baseUrl + "/" + ("IPEDS" + (y + v + ".zip"));
      baseUrl + "/IPEDS" + (y + v + ".zip");
      baseUrl + "/IPEDS" + y + v + ".zip";
    }
  }

  /** The URLs of the three known versions. */
  lemma UrlOfVersion(baseUrl: string, year: int)
    ensures BuildIpedsUrl(baseUrl, year, "final") == baseUrl + "/IPEDS" + IntToString(year) + ".zip"
    ensures BuildIpedsUrl(baseUrl, year, "provisional") == baseUrl + "/IPEDS" + IntToString(year) + "_pv.zip"
    ensures BuildIpedsUrl(baseUrl, year, "revised") == baseUrl + "/IPEDS" + IntToString(year) + "_rv.zip"
  {
    KnownVersionSuffixes();
    var x := baseUrl + "/IPEDS" + IntToString(year);
    UrlShape(baseUrl, year, "final");
    assert x + "" == x;
    UrlShape(baseUrl, year, "provisional");
    assert x + "_pv" + ".zip" == x + ("_pv" + ".zip");
    UrlShape(baseUrl, year, "revised");
    assert x + "_rv" + ".zip" == x + ("_rv" + ".zip");
  }

  /** The 2023 URLs under `https://example.com/ipeds`. */
  lemma UrlExamples()
    ensures BuildIpedsUrl("https://example.com/ipeds", 2023, "final") == "https://example.com/ipeds/IPEDS2023.zip"
    ensures BuildIpedsUrl("https://example.com/ipeds", 2023, "provisional") == "https://example.com/ipeds/IPEDS2023_pv.zip"
    ensures BuildIpedsUrl("https://example.com/ipeds", 2023, "revised") == "https://example.com/ipeds/IPEDS2023_rv.zip"
  {
    var base := "https://example.com/ipeds";
    UrlOfVersion(base, 2023);
    YearText2023();
    assert base + "/IPEDS" + "2023" == "https://example.com/ipeds/IPEDS2023";
  }

  lemma YearText2023()
    ensures IntToString(2023) == "2023"
  {
    assert NatToString(2) == "2";
    assert NatToString(20) == "20";
    assert NatToString(202) == "202";
  }

  /** Versions that differ only in case name the same URL. */
  lemma UrlIgnoresCase(baseUrl: string, year: int, version: string)
    ensures BuildIpedsUrl(baseUrl, year, version) == BuildIpedsUrl(baseUrl, year, ToLower(version))
  {
    ToLowerIdempotent(version);
  }

  /** For a lower-case version, the saved file has the same name as the URL's file. */
  lemma LowerCaseVersionKeepsName(baseUrl: string, year: int, version: string)
    requires ToLower(version) == version
    ensures BuildIpedsUrl(baseUrl, year, version) == baseUrl + "/" + PublishedFilename(year, version)
  {
  }

  /**
   * A capitalised version fetches the provisional archive but stores it as if it
   * were the final one, where it replaces (or is mistaken for) the final release.
   */
  lemma CapitalisedVersionStoredAsFinal(baseUrl: string, year: int)
    ensures BuildIpedsUrl(baseUrl, year, "Provisional") == BuildIpedsUrl(baseUrl, year, "provisional")
    ensures ArchiveObjectPath(year, "Provisional") == ArchiveObjectPath(year, "final")
    ensures ArchiveObjectPath(year, "Provisional") != ArchiveObjectPath(year, "provisional")
  {
    KnownVersionSuffixes();
    assert PublishedSuffix("Provisional") == "" by {
      assert "Provisional"[0] != "provisional"[0];
    }
    assert |ArchiveObjectPath(year, "Provisional")| + 3 == |ArchiveObjectPath(year, "provisional")|;
  }

  /** The archive never lands on the sidecar's object path. */
  lemma ArchiveNeverOverwritesSidecar(year: int, version: string)
    ensures ArchiveObjectPath(year, version) != SidecarPath(year)
  {
    var n := |YearFolder(year)|;
    assert ArchiveObjectPath(year, version)[n] == PublishedFilename(year, version)[0] == 'I';
    assert SidecarPath(year)[n] == "metadata.json"[0] == 'm';
  }

  /** Different years never share an archive or a sidecar. */
  lemma YearsKeptApart(y1: int, y2: int, v1: string, v2: string)
    requires y1 != y2
    ensures ArchiveObjectPath(y1, v1) != ArchiveObjectPath(y2, v2)
    ensures SidecarPath(y1) != SidecarPath(y2)
  {
    YearFoldersDiffer("downloads/", y1, y2, PublishedFilename(y1, v1), PublishedFilename(y2, v2));
    YearFoldersDiffer("downloads/", y1, y2, "metadata.json", "metadata.json");
  }

  /** Different offsets give different `Range` headers. */
  lemma RangeHeaderInjective(a: nat, b: nat)
    requires RangeHeader(a) == RangeHeader(b)
    ensures a == b
  {
    if a > 0 && b > 0 {
      var ta, tb := NatToString(a), NatToString(b);
      assert ta == ("bytes=" + ta + "-")[6..|ta| + 6];
      assert tb == ("bytes=" + tb + "-")[6..|tb| + 6];
      NatToStringInjective(a, b);
    }
  }

  lemma RangeHeaderExample()
    ensures RangeHeader(13) == Some("bytes=13-")
  {
    assert NatToString(13) == "13" by {
      assert NatToString(13) == NatToString(1) + [DigitChar(3)];
      assert NatToString(1) == "1" && DigitChar(3) == '3';
    }
    assert "bytes=" + "13" + "-" == "bytes=13-";
  }

  // =====================================================================
  // One HTTP transfer
  // =====================================================================

  /** The `content-length` header: absent, an integer, or text `int()` rejects. */
  datatype ContentLength = Absent | Declared(n: int) | Malformed

  /**
   * What the session hands back for one `GET`: either no response at all
   * (a connection error, a timeout, or retries exhausted), or a response
   * whose body arrives as `chunks` and, when `broken`, breaks off after them.
   */
  datatype Reply =
    | Unreachable(reason: string)
    | Responded(status: int, contentLength: ContentLength, chunks: seq<Bytes>, broken: bool)

  /** The session: the reply to a `GET` of a URL with an optional `Range` header. */
  type Network = (string, Option<string>) -> Reply

  datatype DownloadError =
    | RequestFailed(reason: string)
    | HttpError(status: int)
    | StreamBroken
    | BadContentLength
    | LocalFileMissing(file: LocalPath)
    | UploadRefused(path: string)

  /** A completed transfer: the bytes of the archive and the response status. */
  datatype Fetched = Fetched(data: Bytes, status: int)

  /** `raise_for_status` raises for client and server errors. */
  predicate IsErrorStatus(status: int) { 400 <= status < 600 }

  /** A failure that surfaces as a `RequestException`, on which the partial file is removed. */
  predicate IsRequestError(e: DownloadError) {
    e.RequestFailed? || e.HttpError? || e.StreamBroken?
  }

  /** All the chunks, in order. */
  function Concat(chunks: seq<Bytes>): (r: Bytes)
    ensures |chunks| == 1 ==> r == chunks[0]
  {
    if chunks == [] then [] else Concat(chunks[..|chunks| - 1]) + chunks[|chunks| - 1]
  }

  /** The size of the partial file, from which a download resumes. */
  function ResumeOffset(files: map<LocalPath, Bytes>, dest: LocalPath): nat {
    var partial := PartialPath(dest);
    if partial in files then |files[partial]| else 0
  }

  /** What the partial file holds when it is reopened: kept in append mode, emptied in write mode. */
  function Resumed(files: map<LocalPath, Bytes>, dest: LocalPath): (kept: Bytes)
    ensures |kept| == ResumeOffset(files, dest)
  {
    if ResumeOffset(files, dest) > 0 then files[PartialPath(dest)] else []
  }

  /**
   * The effect of `download` on the local files, and its outcome, for one reply.
   * A request error removes the partial file; an unreadable `content-length`
   * escapes before the file is opened and leaves everything in place.
   */
  function Transfer(files: map<LocalPath, Bytes>, dest: LocalPath, reply: Reply)
    : (r: (map<LocalPath, Bytes>, Result<Fetched, DownloadError>))
    ensures r.1.Success? <==> reply.Responded? && !IsErrorStatus(reply.status)
                              && !reply.contentLength.Malformed? && !reply.broken
    ensures r.1.Success? ==> r.1.value.status == reply.status
                             && r.1.value.data == Resumed(files, dest) + Concat(reply.chunks)
                             && r.0 == (files - {PartialPath(dest)})[dest := r.1.value.data]
    ensures r.1.Failure? && IsRequestError(r.1.error) ==> r.0 == files - {PartialPath(dest)}
    ensures r.1.Failure? && !IsRequestError(r.1.error) ==> r.0 == files
  {
    var partial := PartialPath(dest);
    match reply
    case Unreachable(reason) => (files - {partial}, Failure(RequestFailed(reason)))
    case Responded(status, length, chunks, broken) =>
      if IsErrorStatus(status) then (files - {partial}, Failure(HttpError(status)))
      else if length.Malformed? then (files, Failure(BadContentLength))
      else if broken then (files - {partial}, Failure(StreamBroken))
      else
        var data := Resumed(files, dest) + Concat(chunks);
        ((files - {partial})[dest := data], Success(Fetched(data, status)))
  }

  /**
   * A transfer that breaks off after part of the archive was written, and is then
   * resumed, reconstructs the archive when the server honours the `Range` header:
   * the second request asks for the bytes from the partial file's size on, and
   * the saved file is the whole archive.
   */
  lemma {:induction false} InterruptedDownloadResumes(
    files: map<LocalPath, Bytes>, dest: LocalPath, archive: Bytes, cut: nat, rest: seq<Bytes>, status: int)
    requires 0 < cut <= |archive|
    requires PartialPath(dest) in files && files[PartialPath(dest)] == archive[..cut]
    requires Concat(rest) == archive[cut..] && !IsErrorStatus(status)
    ensures RangeHeader(ResumeOffset(files, dest)) == Some("bytes=" + NatToString(cut) + "-")
    ensures Transfer(files, dest, Responded(status, Absent, rest, false)).1 == Success(Fetched(archive, status))
  {
    assert archive[..cut] + archive[cut..] == archive;
  }

  /**
   * The reply's status is not checked: a server that ignores the `Range` header
   * and sends the whole archive with status 200 gets it appended to the partial
   * file, and the saved file is longer than the archive.
   */
  lemma {:induction false} IgnoredRangeAppendsWholeArchive(
    files: map<LocalPath, Bytes>, dest: LocalPath, archive: Bytes, cut: nat, body: seq<Bytes>)
    requires 0 < cut <= |archive|
    requires PartialPath(dest) in files && files[PartialPath(dest)] == archive[..cut]
    requires Concat(body) == archive
    ensures Transfer(files, dest, Responded(200, Absent, body, false)).1.Success?
    ensures |Transfer(files, dest, Responded(200, Absent, body, false)).1.value.data| == |archive| + cut
  {
  }

  /**
   * After a request error no partial file is left, so the next attempt starts
   * from the first byte without a `Range` header, and saves just what it receives.
   */
  lemma {:induction false} FailedAttemptRestartsFromZero(
    files: map<LocalPath, Bytes>, dest: LocalPath, failed: Reply, next: Reply)
    requires Transfer(files, dest, failed).1.Failure?
    requires IsRequestError(Transfer(files, dest, failed).1.error)
    ensures var after := Transfer(files, dest, failed).0;
      RangeHeader(ResumeOffset(after, dest)) == None
      && (Transfer(after, dest, next).1.Success? ==> Transfer(after, dest, next).1.value.data == Concat(next.chunks))
  {
    var after := Transfer(files, dest, failed).0;
    assert PartialPath(dest) !in after;
    assert Resumed(after, dest) == [];
  }

  /** A status the retry adapter gives up on fails the download and removes the partial file. */
  lemma ExhaustedRetriesFail(files: map<LocalPath, Bytes>, dest: LocalPath, reply: Reply)
    requires reply.Responded? && reply.status in RetriedStatuses
    ensures Transfer(files, dest, reply).1 == Failure(HttpError(reply.status))
    ensures Transfer(files, dest, reply).0 == files - {PartialPath(dest)}
  {
    assert IsErrorStatus(reply.status);
  }

  /** The chunks of a body can be joined in any grouping: joining is associative. */
  lemma {:induction false} ConcatAppend(a: seq<Bytes>, b: seq<Bytes>)
    ensures Concat(a + b) == Concat(a) + Concat(b)
    decreases |b|
  {
    if b == [] {
      assert a + b == a;
    } else {
      var init := b[..|b| - 1];
      assert (a + b)[..|a + b| - 1] == a + init;
      assert (a + b)[|a + b| - 1] == b[|b| - 1];
      ConcatAppend(a, init);
    }
  }

  /** Empty chunks add nothing: skipping them (`if chunk:`) does not change the file. */
  lemma {:induction false} EmptyChunksAddNothing(chunks: seq<Bytes>, i: nat)
    requires i <= |chunks|
    ensures Concat(chunks[..i] + [[]]) == Concat(chunks[..i])
  {
    assert (chunks[..i] + [[]])[..i] == chunks[..i];
  }

  /** The bytes `f.read(n)` returns at `pos`: the rest of the file when `n` is negative. */
  function ReadAt(data: Bytes, pos: nat, n: int): (piece: Bytes)
    requires pos <= |data|
    ensures pos + |piece| <= |data| && piece == data[pos..pos + |piece|]
    ensures piece == [] <==> pos == |data| || n == 0
  {
    if n < 0 then data[pos..]
    else if pos + n <= |data| then data[pos..pos + n]
    else data[pos..]
  }

  /** The bytes fed to the digests by the read loop: none when the chunk size is 0. */
  function HashedBytes(data: Bytes, chunkSize: int): Bytes {
    if chunkSize == 0 then [] else data
  }

  /** The folder set after the `finally` clause: the folder goes when it exists and is empty. */
  function Tidied(files: map<LocalPath, Bytes>, dirs: set<string>, d: string): (r: set<string>)
    ensures r <= dirs && dirs - r <= {d}
    ensures d in r <==> d in dirs && !DirIsEmpty(files, dirs, d)
  {
    if d in dirs && DirIsEmpty(files, dirs, d) then dirs - {d} else dirs
  }

  /** What `download_ipeds_data` returns. */
  datatype IpedsOutcome =
      /** The archive is already published; its sidecar, as stored. */
    | StoredMetadata(sidecar: Blob)
      /** The archive is already published and has no sidecar: `{"status": "exists", ...}`. */
    | AlreadyStored(gcsUri: string)
      /** A fresh download was published: `{"status": "success", ...}`. */
    | Published(metadata: DownloadRecord, gcsUri: string)

  // =====================================================================
  // The downloader
  // =====================================================================

  class IPEDSDownloader {
    const bucket: Bucket
    const fs: LocalFs
    const baseUrl: string
    const tempDir: string
    const network: Network
    const md5: Bytes -> string
    const sha256: Bytes -> string
    const retryAttempts: int
    const timeoutSeconds: int
    const chunkSize: int

    /**
     * Opens the bucket named by the configured location and reads the
     * downloader settings, falling back to their defaults.
     */
    constructor (rawBucket: string, baseUrl: string, tempDir: string,
                 retrySetting: Option<int>, timeoutSetting: Option<int>, chunkSizeSetting: Option<int>,
                 network: Network, md5: Bytes -> string, sha256: Bytes -> string,
                 fs: LocalFs, rejects: set<string>, blobs: map<string, Blob>)
      ensures fresh(bucket) && bucket.name == BucketName(rawBucket)
      ensures bucket.rejects == rejects && bucket.blobs == blobs
      ensures this.fs == fs && this.baseUrl == baseUrl && this.tempDir == tempDir
      ensures this.network == network && this.md5 == md5 && this.sha256 == sha256
      ensures retryAttempts == Setting(retrySetting, DefaultRetryAttempts)
      ensures timeoutSeconds == Setting(timeoutSetting, DefaultTimeoutSeconds)
      ensures chunkSize == Setting(chunkSizeSetting, DefaultChunkSizeMb) * MiB
    {
      bucket := new Bucket(BucketName(rawBucket), rejects, blobs);
      this.fs := fs;
      this.baseUrl := baseUrl;
      this.tempDir := tempDir;
      this.network := network;
      this.md5 := md5;
      this.sha256 := sha256;
      retryAttempts := Setting(retrySetting, DefaultRetryAttempts);
      timeoutSeconds := Setting(timeoutSetting, DefaultTimeoutSeconds);
      chunkSize := Setting(chunkSizeSetting, DefaultChunkSizeMb) * MiB;
    }

    /** The transfer `download(url, dest)` performs from the given local files. */
    function Attempt(files: map<LocalPath, Bytes>, url: string, dest: LocalPath)
      : (map<LocalPath, Bytes>, Result<Fetched, DownloadError>)
    {
      Transfer(files, dest, network(url, RangeHeader(ResumeOffset(files, dest))))
    }

    /** The record `download` builds for a completed transfer. */
    function RecordOf(url: string, dest: LocalPath, f: Fetched): (rec: DownloadRecord)
      ensures rec.filename == dest.name && rec.sourceUrl == url && rec.gcsPath == ""
      ensures rec.fileSizeBytes == |f.data| && rec.httpStatusCode == f.status
      ensures rec.checksumMd5 == md5(HashedBytes(f.data, chunkSize))
      ensures rec.checksumSha256 == sha256(HashedBytes(f.data, chunkSize))
    {
      DownloadRecord(dest.name, url, |f.data|, md5(HashedBytes(f.data, chunkSize)),
                     sha256(HashedBytes(f.data, chunkSize)), "", f.status)
    }

    /**
     * The digests of a saved file, read back in `chunkSize` pieces until a read
     * returns nothing; the digests see the pieces in order.
     */
    method Checksums(data: Bytes) returns (md: string, sha: string)
      ensures md == md5(HashedBytes(data, chunkSize)) && sha == sha256(HashedBytes(data, chunkSize))
    {
      var hashed: Bytes := [];
      var pos := 0;
      var piece := ReadAt(data, pos, chunkSize);
      while piece != []
        invariant pos <= |data| && hashed == data[..pos]
        invariant piece == ReadAt(data, pos, chunkSize)
        invariant chunkSize == 0 ==> pos == 0
        decreases |data| - pos
      {
        hashed := hashed + piece;
        pos := pos + |piece|;
        piece := ReadAt(data, pos, chunkSize);
      }
      assert hashed == HashedBytes(data, chunkSize);
      md, sha := md5(hashed), sha256(hashed);
    }

    /**
     * The write loop of `download`: appends every non-empty chunk to the open
     * partial file and counts the bytes the file then holds.
     */
    method WriteChunks(partial: LocalPath, resumePos: nat, chunks: seq<Bytes>) returns (downloaded: nat)
      requires partial in fs.files
      modifies fs
      ensures fs.dirs == old(fs.dirs)
      ensures fs.files == old(fs.files)[partial := old(fs.files)[partial] + Concat(chunks)]
      ensures downloaded == resumePos + |Concat(chunks)|
    {
      ghost var start := fs.files[partial];
      downloaded := resumePos;
      var i := 0;
      assert Concat(chunks[..0]) == [] by { assert chunks[..0] == []; }
      assert start + Concat(chunks[..0]) == start;
      assert fs.files == old(fs.files)[partial := start];
      while i < |chunks|
        invariant i <= |chunks|
        invariant fs.files == old(fs.files)[partial := start + Concat(chunks[..i])]
        invariant downloaded == resumePos + |Concat(chunks[..i])|
        invariant fs.dirs == old(fs.dirs)
      {
        var chunk := chunks[i];
        assert Concat(chunks[..i + 1]) == Concat(chunks[..i]) + chunk by {
          assert chunks[..i + 1][..i] == chunks[..i];
        }
        if chunk != [] {
          fs.files := fs.files[partial := fs.files[partial] + chunk];
          downloaded := downloaded + |chunk|;
          assert fs.files[partial] == start + Concat(chunks[..i + 1]);
        } else {
          EmptyChunksAddNothing(chunks, i);
        }
        i := i + 1;
      }
      assert chunks[..i] == chunks;
    }

    /**
     * The transfer half of `download`: creates the destination folder, opens
     * the request (with a `Range` header when a partial file exists), streams
     * the reply into the partial file and renames it to `dest` once complete.
     */
    method Fetch(url: string, dest: LocalPath) returns (r: Result<Fetched, DownloadError>)
      modifies fs
      ensures fs.dirs == old(fs.dirs) + {dest.dir}
      ensures (fs.files, r) == Attempt(old(fs.files), url, dest)
    {
      fs.dirs := fs.dirs + {dest.dir};
      var partial := PartialPath(dest);
      var resumePos := if partial in fs.files then |fs.files[partial]| else 0;
      var reply := network(url, RangeHeader(resumePos));
      assert resumePos == ResumeOffset(old(fs.files), dest);
      if reply.Unreachable? {
        fs.files := fs.files - {partial};
        return Failure(RequestFailed(reply.reason));
      }
      var status := reply.status;
      if IsErrorStatus(status) {
        fs.files := fs.files - {partial};
        return Failure(HttpError(status));
      }
      if reply.contentLength.Malformed? {
        return Failure(BadContentLength);
      }
      var chunks := reply.chunks;
      var reopened: Bytes := if resumePos > 0 then fs.files[partial] else [];
      fs.files := fs.files[partial := reopened];
      assert reopened == Resumed(old(fs.files), dest);
      var downloaded := WriteChunks(partial, resumePos, chunks);
      assert fs.files - {partial} == old(fs.files) - {partial};
      if reply.broken {
        fs.files := fs.files - {partial};
        return Failure(StreamBroken);
      }
      var data := fs.files[partial];
      assert data == Resumed(old(fs.files), dest) + Concat(chunks);
      fs.files := (fs.files - {partial})[dest := data];
      assert Transfer(old(fs.files), dest, reply) == (fs.files, Success(Fetched(data, status)));
      return Success(Fetched(data, status));
    }

    /**
     * `download`: fetches `url` into `dest`, resuming from a partial file when
     * there is one, and describes the saved file.
     */
    method Download(url: string, dest: LocalPath) returns (r: Result<DownloadMetadata, DownloadError>)
      modifies fs
      ensures fs.dirs == old(fs.dirs) + {dest.dir}
      ensures fs.files == Attempt(old(fs.files), url, dest).0
      ensures r.Failure? <==> Attempt(old(fs.files), url, dest).1.Failure?
      ensures r.Failure? ==> r.error == Attempt(old(fs.files), url, dest).1.error
      ensures r.Success? ==> fresh(r.value)
                             && r.value.Record() == RecordOf(url, dest, Attempt(old(fs.files), url, dest).1.value)
    {
      var fetched := Fetch(url, dest);
      if fetched.Failure? {
        return Failure(fetched.error);
      }
      var f := fetched.value;
      var md, sha := Checksums(f.data);
      var metadata := new DownloadMetadata(dest.name, url, |f.data|, md, sha, "", f.status);
      return Success(metadata);
    }

    /** `upload_to_gcs`: publishes a local file and returns its URI. */
    method UploadToGcs(local: LocalPath, gcsPath: string) returns (r: Result<string, DownloadError>)
      modifies bucket
      ensures r.Success? <==> local in fs.files && gcsPath !in bucket.rejects
      ensures local !in fs.files ==> r == Failure(LocalFileMissing(local))
      ensures local in fs.files && gcsPath in bucket.rejects ==> r == Failure(UploadRefused(gcsPath))
      ensures r.Success? ==> r.value == GcsUri(bucket.name, gcsPath)
                             && bucket.blobs == old(bucket.blobs)[gcsPath := FileBlob(fs.files[local])]
      ensures r.Failure? ==> bucket.blobs == old(bucket.blobs)
    {
      if local !in fs.files {
        return Failure(LocalFileMissing(local));
      }
      var ok := bucket.Upload(gcsPath, FileBlob(fs.files[local]));
      if !ok {
        return Failure(UploadRefused(gcsPath));
      }
      return Success(GcsUri(bucket.name, gcsPath));
    }

    /**
     * Publishes a downloaded archive saved at `local`: the archive, then the
     * sidecar carrying its URI, then the local copy is deleted.
     */
    method Publish(metadata: DownloadMetadata, local: LocalPath, year: int, version: string)
      returns (r: Result<IpedsOutcome, DownloadError>)
      requires local in fs.files
      modifies bucket, fs, metadata
      ensures fs.dirs == old(fs.dirs)
      ensures var path := ArchiveObjectPath(year, version);
        var uri := GcsUri(bucket.name, path);
        var rec := old(metadata.Record()).(gcsPath := uri);
        var archive := old(bucket.blobs)[path := FileBlob(old(fs.files)[local])];
        if path in bucket.rejects then
          r == Failure(UploadRefused(path)) && bucket.blobs == old(bucket.blobs)
          && fs.files == old(fs.files)
        else if SidecarPath(year) in bucket.rejects then
          r == Failure(UploadRefused(SidecarPath(year))) && bucket.blobs == archive
          && fs.files == old(fs.files)
        else
          r == Success(Published(rec, uri)) && bucket.blobs == archive[SidecarPath(year) := SidecarJson(rec)]
          && fs.files == old(fs.files) - {local}
    {
      var path := ArchiveObjectPath(year, version);
      var uploaded := UploadToGcs(local, path);
      if uploaded.Failure? {
        return Failure(uploaded.error);
      }
      metadata.gcsPath := uploaded.value;
      var record := metadata.Record();
      var ok := bucket.Upload(SidecarPath(year), SidecarJson(record));
      if !ok {
        return Failure(UploadRefused(SidecarPath(year)));
      }
      fs.files := fs.files - {local};
      return Success(Published(record, uploaded.value));
    }

    /** The `finally` clause: removes the folder when it exists and is empty. */
    method RemoveIfEmpty(d: string)
      modifies fs
      ensures fs.files == old(fs.files)
      ensures fs.dirs == Tidied(fs.files, old(fs.dirs), d)
    {
      if d in fs.dirs && DirIsEmpty(fs.files, fs.dirs, d) {
        fs.dirs := fs.dirs - {d};
      }
    }

    /**
     * `download_ipeds_data`: unless forced, an archive already published is
     * not fetched again; otherwise the archive is fetched into the year's
     * temporary folder and published, and the folder is removed if empty.
     */
    method DownloadIpedsData(year: int, version: string, force: bool)
      returns (r: Result<IpedsOutcome, DownloadError>)
      modifies fs, bucket
      ensures var path := ArchiveObjectPath(year, version);
        path in old(bucket.blobs) && !force ==>
          fs.files == old(fs.files) && fs.dirs == old(fs.dirs) && bucket.blobs == old(bucket.blobs)
          && r == Success(if SidecarPath(year) in old(bucket.blobs)
                          then StoredMetadata(old(bucket.blobs)[SidecarPath(year)])
                          else AlreadyStored(GcsUri(bucket.name, path)))
      ensures var path := ArchiveObjectPath(year, version);
        var temp := TempFolder(tempDir, year);
        var local := LocalPath(temp, PublishedFilename(year, version));
        var url := BuildIpedsUrl(baseUrl, year, version);
        var t := Attempt(old(fs.files), url, local);
        !(path in old(bucket.blobs) && !force) ==>
          fs.dirs == Tidied(fs.files, old(fs.dirs) + {temp}, temp)
          && (t.1.Failure? ==> r == Failure(t.1.error) && fs.files == t.0 && bucket.blobs == old(bucket.blobs))
          && (t.1.Success? ==>
                var uri := GcsUri(bucket.name, path);
                var rec := RecordOf(url, local, t.1.value).(gcsPath := uri);
                var archive := old(bucket.blobs)[path := FileBlob(t.1.value.data)];
                if path in bucket.rejects then
                  r == Failure(UploadRefused(path)) && bucket.blobs == old(bucket.blobs) && fs.files == t.0
                else if SidecarPath(year) in bucket.rejects then
                  r == Failure(UploadRefused(SidecarPath(year))) && bucket.blobs == archive && fs.files == t.0
                else
                  r == Success(Published(rec, uri))
                  && bucket.blobs == archive[SidecarPath(year) := SidecarJson(rec)]
                  && fs.files == t.0 - {local})
    {
      var path := ArchiveObjectPath(year, version);
      if path in bucket.blobs && !force {
        if SidecarPath(year) in bucket.blobs {
          return Success(StoredMetadata(bucket.blobs[SidecarPath(year)]));
        }
        return Success(AlreadyStored(GcsUri(bucket.name, path)));
      }
      var temp := TempFolder(tempDir, year);
      fs.dirs := fs.dirs + {temp};
      var url := BuildIpedsUrl(baseUrl, year, version);
      var local := LocalPath(temp, PublishedFilename(year, version));
      var downloaded := Download(url, local);
      if downloaded.Failure? {
        r := Failure(downloaded.error);
      } else {
        r := Publish(downloaded.value, local, year, version);
      }
      RemoveIfEmpty(temp);
    }

    /**
     * After a call that succeeded, a second call without `force` fetches
     * nothing and changes nothing: it reports the archive as already
     * published, with the sidecar the first call wrote when it published one.
     */
    method DownloadAgain(year: int, version: string, force: bool)
      returns (first: Result<IpedsOutcome, DownloadError>, second: Result<IpedsOutcome, DownloadError>,
               ghost filesBetween: map<LocalPath, Bytes>, ghost dirsBetween: set<string>,
               ghost blobsBetween: map<string, Blob>)
      modifies fs, bucket
      ensures first.Success? ==>
                second.Success? && !second.value.Published?
                && fs.files == filesBetween && fs.dirs == dirsBetween && bucket.blobs == blobsBetween
      ensures first.Success? && first.value.Published? ==>
                second == Success(StoredMetadata(SidecarJson(first.value.metadata)))
    {
      first := DownloadIpedsData(year, version, force);
      filesBetween, dirsBetween, blobsBetween := fs.files, fs.dirs, bucket.blobs;
      second := DownloadIpedsData(year, version, false);
    }
  }
}
