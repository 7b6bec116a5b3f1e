/**
 * `fetch(feed)`: a disabled feed yields nothing; otherwise the feed file is
 * downloaded (or taken from the cache) and, when the file exists, its text is
 * parsed with the feed's name as the category.
 */
module Fetch {
  import opened Models
  import opened Parser
  import opened Download

  /** The exceptions that leave `fetch`. */
  datatype FetchError =
    | AttributeError      // `.exists()` called on the None that `download_file` returned
    | UnicodeEncodeError  // the fallback file name needed a non-ASCII URL

  /** What `fetch` does with the outcome of the download. */
  datatype ReadStep = NoText | ReadText(text: string) | Raise(error: FetchError)

  /** The cached path, read when the file is there. */
  function ReadPath(path: string, after: Disk): ReadStep {
    if path in after.files then ReadText(after.files[path]) else NoText
  }

  /**
   * As written: the value of `download_file` goes straight to `.exists()`, so
   * every status that makes it give up (404 and all others but 2xx and 403)
   * raises.
   */
  function ReadStepAsWritten(d: Decision, after: Disk): (r: ReadStep)
    ensures r == Raise(AttributeError) <==> d.GiveUp?
  {
    match d
    case GiveUp => Raise(AttributeError)
    case EncodeError => Raise(UnicodeEncodeError)
    case Cached(path) => ReadPath(path, after)
    case Get(_, path, _) => ReadPath(path, after)
  }

  /** As intended: a download that gave up yields no text, like a file that is missing. */
  function ReadStepFor(d: Decision, after: Disk): (r: ReadStep)
    ensures r.Raise? <==> d.EncodeError?
    ensures d.GiveUp? ==> r == NoText
    ensures !d.GiveUp? ==> r == ReadStepAsWritten(d, after)
  {
    match d
    case GiveUp => NoText
    case EncodeError => Raise(UnicodeEncodeError)
    case Cached(path) => ReadPath(path, after)
    case Get(_, path, _) => ReadPath(path, after)
  }

  datatype FetchResult = Items(items: seq<Intel>) | Failed(error: FetchError)

  /**
   * `fetch(feed)` with the HEAD response, the cache directory and the GET body
   * given; also returns the cache directory as the download leaves it.
   */
  method Fetch(feed: FeedConfig, head: Head, disk: Disk, body: string, tempDir: string,
               b64: string -> string, byteSize: string -> nat, now: Time, parse: AddressParser)
    returns (result: FetchResult, after: Disk)
    ensures feed.disabled ==> result == Items([]) && after == disk
    ensures !feed.disabled ==>
      var d := Decide(feed.url, head, tempDir, disk, b64, byteSize);
      && after == DiskAfter(disk, d, body)
      && result == match ReadStepFor(d, after)
        case NoText => Items([])
        case ReadText(text) => Items(Parse(text, feed.name, now, parse))
        case Raise(e) => Failed(e)
  {
    if feed.disabled {
      return Items([]), disk;
    }
    var d := Decide(feed.url, head, tempDir, disk, b64, byteSize);
    after := DiskAfter(disk, d, body);
    match ReadStepFor(d, after) {
      case NoText =>
        result := Items([]);
      case ReadText(text) =>
        var items := PreProcess(text, feed.name, now, parse);
        result := Items(items);
      case Raise(e) =>
        result := Failed(e);
    }
  }

  /** A feed whose HEAD request answers 404 makes the code as written raise, and the intended code return nothing. */
  lemma NotFoundCrashesFetch(url: string, head: Head, tempDir: string, disk: Disk, b64: string -> string, byteSize: string -> nat, body: string)
    requires head.status == 404
    ensures var d := Decide(url, head, tempDir, disk, b64, byteSize);
      && d == GiveUp
      && ReadStepAsWritten(d, DiskAfter(disk, d, body)) == Raise(AttributeError)
      && ReadStepFor(d, DiskAfter(disk, d, body)) == NoText
  {
    StatusClasses(404);
  }

  /** After a fresh download the body just written is what gets parsed. */
  lemma DownloadedBodyIsRead(url: string, head: Head, tempDir: string, disk: Disk, b64: string -> string, byteSize: string -> nat, body: string)
    requires Decide(url, head, tempDir, disk, b64, byteSize).Get?
    ensures var d := Decide(url, head, tempDir, disk, b64, byteSize);
      ReadStepFor(d, DiskAfter(disk, d, body)) == ReadText(body)
  {
  }

  /** An ETag match answers from the cache even when the cached file itself is gone; the feed then yields no text. */
  lemma EtagHitWithoutFile(url: string, head: Head, tempDir: string, disk: Disk, b64: string -> string, byteSize: string -> nat, body: string)
    requires 200 <= head.status < 300
    requires DestFile(head.disposition, RequestFor(url).url, b64).Some?
    requires var path := CachePath(tempDir, DestFile(head.disposition, RequestFor(url).url, b64).value);
      path !in disk.files && EtagHit(head, disk, path)
    ensures var d := Decide(url, head, tempDir, disk, b64, byteSize);
      d.Cached? && ReadStepFor(d, DiskAfter(disk, d, body)) == NoText
  {
    StatusClasses(head.status);
  }
}
