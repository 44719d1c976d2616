/**
 * The two stores the pipeline writes to: the local file system (a map from
 * path to content plus the set of existing directories) and the object-store
 * bucket (a map from object path to blob).
 */
module Storage {
  import opened Text
  import ExtractionModels
  import BaseDownloader

  newtype byte = b: int | 0 <= b < 256

  type Bytes = seq<byte>

  /** A local file path, split into its directory and its file name. */
  datatype LocalPath = LocalPath(dir: string, name: string)

  /** `path` names something strictly inside directory `dir`. */
  predicate Inside(path: string, dir: string) {
    |path| > |dir| && path[..|dir| + 1] == dir + "/"
  }

  /** `not any(Path(d).iterdir())`: no file and no directory lies inside `d`. */
  predicate DirIsEmpty(files: map<LocalPath, Bytes>, dirs: set<string>, d: string) {
    (forall p :: p in files ==> p.dir != d && !Inside(p.dir, d))
    && (forall e :: e in dirs ==> !Inside(e, d))
  }

  class LocalFs {
    var files: map<LocalPath, Bytes>
    var dirs: set<string>

    constructor (files: map<LocalPath, Bytes>, dirs: set<string>)
      ensures this.files == files && this.dirs == dirs
    {
      this.files := files;
      this.dirs := dirs;
    }
  }

  /**
   * What an object holds: uploaded file bytes, or a JSON document. A JSON
   * document is kept as the record it serialises; the JSON text is not modelled.
   */
  datatype Blob =
    | FileBlob(data: Bytes)
    | ManifestJson(manifest: ExtractionModels.ManifestRecord)
    | SidecarJson(metadata: BaseDownloader.DownloadRecord)

  /**
   * A bucket of the object store. `rejects` is the set of object paths whose
   * uploads fail (a network or permission fault, decided outside the pipeline).
   */
  class Bucket {
    const name: string
    const rejects: set<string>
    var blobs: map<string, Blob>

    constructor (name: string, rejects: set<string>, blobs: map<string, Blob>)
      ensures this.name == name && this.rejects == rejects && this.blobs == blobs
    {
      this.name := name;
      this.rejects := rejects;
      this.blobs := blobs;
    }

    /** `blob.upload_from_filename` / `upload_from_string`: last write wins. */
    method Upload(path: string, blob: Blob) returns (ok: bool)
      modifies this
      ensures ok == (path !in rejects)
      ensures blobs == if ok then old(blobs)[path := blob] else old(blobs)
    {
      ok := path !in rejects;
      if ok {
        blobs := blobs[path := blob];
      }
    }
  }

  /** The full URI of an object: `gs://<bucket>/<path>`. */
  function GcsUri(bucketName: string, path: string): string {
    "gs://" + bucketName + "/" + path
  }

  /** Python's `s.replace(pat, rep)`: leftmost, non-overlapping, in one pass. */
  function ReplaceAll(s: string, pat: string, rep: string): string
    requires pat != []
    decreases |s|
  {
    if s == [] then []
    else if |pat| <= |s| && s[..|pat|] == pat then rep + ReplaceAll(s[|pat|..], pat, rep)
    else [s[0]] + ReplaceAll(s[1..], pat, rep)
  }

  lemma {:induction false} ReplaceAbsent(s: string, pat: string, rep: string)
    requires pat != [] && !Contains(s, pat)
    ensures ReplaceAll(s, pat, rep) == s
    decreases |s|
  {
    if s != [] {
      ReplaceAbsent(s[1..], pat, rep);
    }
  }

  /** `raw.replace('gs://', '').rstrip('/')`: the bucket name taken from the configured location. */
  function BucketName(raw: string): (name: string)
    ensures name == [] || name[|name| - 1] != '/'
  {
    var s := ReplaceAll(raw, "gs://", "");
    s[..KeptUntil(s, IsSlash)]
  }

  predicate IsSlash(c: char) { c == '/' }

  /** A leading occurrence of `pat` is replaced, and the rest, which lacks `pat`, is kept. */
  lemma ReplaceLeading(pat: string, rest: string, rep: string)
    requires pat != [] && !Contains(rest, pat)
    ensures ReplaceAll(pat + rest, pat, rep) == rep + rest
  {
    var s := pat + rest;
    assert s[..|pat|] == pat && s[|pat|..] == rest;
    ReplaceAbsent(rest, pat, rep);
  }

  /** `rstrip('/')` keeps a name without slashes, and removes one slash after it. */
  lemma RstripSlash(name: string)
    requires '/' !in name
    ensures KeptUntil(name, IsSlash) == |name|
    ensures KeptUntil(name + "/", IsSlash) == |name|
  {
    if name != [] {
      assert name[|name| - 1] in name;
    }
    assert (name + "/")[..|name|] == name;
  }

  /**
   * A configured location `gs://<name>` or `gs://<name>/` yields `<name>`
   * for every name without `:` or `/` (which bucket names never contain).
   */
  lemma BucketNameOfLocation(name: string)
    requires ':' !in name && '/' !in name
    ensures BucketName("gs://" + name) == name
    ensures BucketName("gs://" + name + "/") == name
  {
    var slashed := name + "/";
    assert ':' in "gs://" && ':' !in slashed;
    MissingCharNotContained(name, "gs://", ':');
    MissingCharNotContained(slashed, "gs://", ':');
    ReplaceLeading("gs://", name, "");
    ReplaceLeading("gs://", slashed, "");
    assert "gs://" + name + "/" == "gs://" + slashed;
    assert "" + name == name && "" + slashed == slashed;
    RstripSlash(name);
    assert slashed[..|name|] == name;
  }
}
