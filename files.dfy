/**
 * The local disk as a map from paths to contents, and `download`: fetch a
 * URL into a file unless the file is already there, removing the file
 * again when the write fails (index.js lines 209-238).
 */
module Files {

  newtype byte = b: int | 0 <= b < 256

  type FileMap = map<string, seq<byte>>

  /** What `fs.writeFile` did: wrote the payload, or failed after leaving `partial` behind. */
  datatype WriteResult = Written | WriteFailed(partial: seq<byte>)

  /** What one request for a file did: failed (connection or read error), or delivered `data` and then tried to write it. */
  datatype FetchOutcome = RequestFailed | Fetched(data: seq<byte>, write: WriteResult)

  /** Whether an operation on the disk reports success, and the disk afterwards. */
  datatype Effect = Effect(ok: bool, files: FileMap)

  /** An attempt that ends with the payload on disk. */
  predicate Stores(attempt: FetchOutcome)
  {
    attempt.Fetched? && attempt.write.Written?
  }

  /** Every file of `before` is still in `after`, with the same contents. */
  ghost predicate Extends(before: FileMap, after: FileMap)
  {
    forall f | f in before :: f in after && after[f] == before[f]
  }

  lemma ExtendsTransitive(a: FileMap, b: FileMap, c: FileMap)
    requires Extends(a, b) && Extends(b, c)
    ensures Extends(a, c)
  {
  }

  /**
   * The effect of one `download(url, file)` whose request has outcome `attempt`:
   * the flag it resolves to and the disk afterwards.
   */
  function DownloadEffect(files: FileMap, file: string, attempt: FetchOutcome): (r: Effect)
    ensures r.ok <==> file in r.files
    ensures Extends(files, r.files)
    ensures r.files.Keys <= files.Keys + {file}
    ensures file in files ==> r.files == files
    ensures file !in files ==> (r.ok <==> Stores(attempt)) && (r.ok ==> r.files[file] == attempt.data)
  {
    if file in files then Effect(true, files)
    else if Stores(attempt) then Effect(true, files[file := attempt.data])
    else Effect(false, files)
  }

  /** Once a download has succeeded, downloading the same file again finds it and changes nothing. */
  lemma DownloadIdempotent(files: FileMap, file: string, first: FetchOutcome, second: FetchOutcome)
    requires DownloadEffect(files, file, first).ok
    ensures var after := DownloadEffect(files, file, first).files;
      DownloadEffect(after, file, second) == Effect(true, after)
  {
  }

  /** The position of the first attempt that stores the payload, or the number of attempts if none does. */
  function FirstStore(attempts: seq<FetchOutcome>): (k: nat)
    ensures k <= |attempts|
    ensures forall j | 0 <= j < k :: !Stores(attempts[j])
    ensures k < |attempts| ==> Stores(attempts[k])
  {
    if attempts == [] then 0
    else if Stores(attempts[0]) then 0
    else 1 + FirstStore(attempts[1..])
  }

  /** Some attempt of the sequence stores the payload. */
  predicate EventuallyStores(attempts: seq<FetchOutcome>)
  {
    FirstStore(attempts) < |attempts|
  }

  /**
   * The effect of downloading `file` again until a download reports success, the requests
   * answering with `attempts` in turn: whether the file ends up stored, and the disk afterwards.
   */
  function StoreEffect(files: FileMap, file: string, attempts: seq<FetchOutcome>): (r: Effect)
    ensures r.ok <==> file in r.files
    ensures r.ok <==> file in files || EventuallyStores(attempts)
    ensures file in files ==> r.files == files
    ensures file !in files && r.ok ==> r.files[file] == attempts[FirstStore(attempts)].data
    ensures Extends(files, r.files)
    ensures r.files.Keys <= files.Keys + {file}
  {
    if file in files then Effect(true, files)
    else if EventuallyStores(attempts) then Effect(true, files[file := attempts[FirstStore(attempts)].data])
    else Effect(false, files)
  }

  class Disk {
    var files: FileMap

    constructor (files: FileMap)
      ensures this.files == files
    {
      this.files := files;
    }

    /**
     * `download(url, file)`: if the file exists, report success without a request;
     * otherwise request `url` (with outcome `attempt`), write the payload, and on a
     * write error remove the file and report failure.
     */
    method Download(url: string, file: string, attempt: FetchOutcome) returns (downloaded: bool)
      modifies this
      ensures Effect(downloaded, files) == DownloadEffect(old(files), file, attempt)
    {
      downloaded := file in files;
      if !downloaded {
        match attempt
        case RequestFailed =>
          downloaded := false;
        case Fetched(data, write) =>
          match write
          case Written =>
            files := files[file := data];
            downloaded := true;
          case WriteFailed(partial) =>
            files := files[file := partial];
            downloaded := false;
            files := files - {file};
            assert files == old(files);
      }
    }

    /**
     * The retry loop of a page (index.js line 129): download again until a call reports
     * success. The requests answer with `attempts` in turn; when they run out without
     * success the page has stalled (the source would go on retrying).
     */
    method DownloadUntilStored(url: string, file: string, attempts: seq<FetchOutcome>) returns (stored: bool)
      requires |attempts| > 0
      modifies this
      ensures Effect(stored, files) == StoreEffect(old(files), file, attempts)
    {
      stored := Download(url, file, attempts[0]);
      var i := 1;
      while !stored && i < |attempts|
        invariant 1 <= i <= |attempts|
        invariant stored <==> file in files
        invariant file in old(files) ==> stored && files == old(files)
        invariant !stored ==> files == old(files) && forall j | 0 <= j < i :: !Stores(attempts[j])
        invariant stored && file !in old(files) ==>
          FirstStore(attempts) == i - 1 && files == old(files)[file := attempts[i - 1].data]
      {
        stored := Download(url, file, attempts[i]);
        i := i + 1;
      }
    }
  }
}
