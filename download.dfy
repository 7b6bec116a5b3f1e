/**
 * The decisions inside `download_file`: the URL rewrite, what the HEAD status
 * means, the name of the cached file, and whether the cache answers or a GET
 * is made. HTTP and the disk are inputs: the HEAD response is a `Head` value,
 * the cache directory a `Disk` value, and base64 and the byte size of a text
 * are parameters.
 */
module Download {
  import opened Models
  import opened PyText

  // ------------------------------------------------------------ URL rewrite

  /** The rewrite applied before any request: every ":80/", then every ":443/", becomes "/". */
  function RewriteUrl(url: string): string {
    ReplaceAll(ReplaceAll(url, ":80/", "/"), ":443/", "/")
  }

  /** Every ':' of `origin` is followed by '/' (true of "https://host" with no port). */
  predicate ColonsOpenPaths(origin: string) {
    forall i | 0 <= i < |origin| && origin[i] == ':' :: i + 1 < |origin| && origin[i + 1] == '/'
  }

  /** In `origin + rest`, no pattern of the form ':' then not '/' starts inside `origin`. */
  lemma NoPortPatternIn(origin: string, rest: string, pat: string)
    requires ColonsOpenPaths(origin)
    requires |pat| >= 2 && pat[0] == ':' && pat[1] != '/'
    ensures forall i: nat :: i < |origin| ==> !StartsAt(origin + rest, pat, i)
  {
  }

  /** A replacement pass copies a leading `origin` in which no occurrence starts. */
  lemma ReplaceAfterOrigin(origin: string, tail: string, pat: string, rep: string)
    requires pat != []
    requires forall i: nat :: i < |origin| ==> !StartsAt(origin + tail, pat, i)
    ensures ReplaceAll(origin + tail, pat, rep) == origin + ReplaceAll(tail, pat, rep)
  {
    var s := origin + tail;
    ReplaceSkip(s, pat, rep, -1, |origin|);
    assert s[..|origin|] == origin && s[|origin|..] == tail;
  }

  /** ":443/" holds no ":80/", so removing ":80/" leaves ":443/" and what follows it alone. */
  lemma HttpsPortKept(path: string)
    requires !Contains(path, ":80/")
    ensures ReplaceAll(":443/" + path, ":80/", "/") == ":443/" + path
  {
    var u := ":443/" + path;
    forall i: nat | i < 5 ensures !StartsAt(u, ":80/", i) {
      if i + 4 <= |u| {
        assert u[i..i + 4][0] == u[i] && u[i..i + 4][1] == u[i + 1];
        assert ":80/"[0] == ':' && ":80/"[1] == '8';
      }
    }
    ReplaceSkip(u, ":80/", "/", -1, 5);
    assert u[..5] == ":443/" && u[5..] == path;
    ReplaceAbsent(path, ":80/", "/", -1);
  }

  /** A default port written before the path is dropped and nothing else changes. */
  lemma RewriteDropsDefaultPort(origin: string, port: string, path: string)
    requires port == ":80" || port == ":443"
    requires ColonsOpenPaths(origin)
    requires !Contains(path, ":80/") && !Contains(path, ":443/")
    ensures RewriteUrl(origin + port + "/" + path) == origin + "/" + path
  {
    var tail := port + "/" + path;
    assert origin + port + "/" + path == origin + tail;
    NoPortPatternIn(origin, tail, ":80/");
    ReplaceAfterOrigin(origin, tail, ":80/", "/");
    ReplaceAbsent(path, ":80/", "/", -1);
    ReplaceAbsent(path, ":443/", "/", -1);
    if port == ":80" {
      ReplaceAtMatch(tail, ":80/", "/", -1);
      assert tail[4..] == path;
      NoPortPatternIn(origin, "/" + path, ":443/");
      ReplaceAfterOrigin(origin, "/" + path, ":443/", "/");
      ReplaceNoMatch("/" + path, ":443/", "/", -1);
      assert ("/" + path)[1..] == path;
    } else {
      HttpsPortKept(path);
      NoPortPatternIn(origin, tail, ":443/");
      ReplaceAfterOrigin(origin, tail, ":443/", "/");
      ReplaceAtMatch(tail, ":443/", "/", -1);
      assert tail[5..] == path;
    }
  }

  /** The rewrite is one pass: a doubled port leaves one ":80/" behind. */
  lemma RewriteIsOnePass()
    ensures RewriteUrl(":80:80/") == ":80/"
    ensures Contains(RewriteUrl(":80:80/"), ":80/")
  {
    assert Replace("", ":80/", "/", -1) == "";
    assert Replace(":80/", ":80/", "/", -1) == "/";
    assert Replace("0:80/", ":80/", "/", -1) == "0/";
    assert Replace("80:80/", ":80/", "/", -1) == "80/";
    assert Replace(":80:80/", ":80/", "/", -1) == ":80/";
    assert Replace(":80/", ":443/", "/", -1) == ":80/";
    assert StartsAt(":80/", ":80/", 0);
  }

  /** The HEAD and GET requests: the rewritten URL, with TLS verification exactly for URLs starting "https". */
  datatype Request = Request(url: string, verifyTls: bool)

  function RequestFor(remoteFile: string): Request {
    var url := RewriteUrl(remoteFile);
    Request(url, StartsWith(url, "https"))
  }

  /** Both requests go to the URL without its default port, and TLS is verified according to the scheme, not the port. */
  lemma RequestDropsDefaultPort(origin: string, port: string, path: string)
    requires port == ":80" || port == ":443"
    requires ColonsOpenPaths(origin) && |origin| >= 5
    requires !Contains(path, ":80/") && !Contains(path, ":443/")
    ensures RequestFor(origin + port + "/" + path) == Request(origin + "/" + path, StartsWith(origin, "https"))
  {
    RewriteDropsDefaultPort(origin, port, path);
    var u := origin + "/" + path;
    assert u[..5] == origin[..5];
  }

  // ----------------------------------------------------------------- status

  function DigitChar(d: nat): char
    requires d < 10
  {
    ('0' as int + d) as char
  }

  /** `str(n)` for a natural number. */
  function Digits(n: nat): (s: string)
    ensures s != []
  {
    if n < 10 then [DigitChar(n)] else Digits(n / 10) + [DigitChar(n % 10)]
  }

  /** `str(code)`. */
  function StatusText(code: int): string {
    if code < 0 then "-" + Digits(-code) else Digits(code)
  }

  /** The leading decimal digit of `n`. */
  function LeadingDigit(n: nat): (d: nat)
    ensures d < 10
  {
    if n < 10 then n else LeadingDigit(n / 10)
  }

  lemma {:induction false} DigitsStart(n: nat)
    ensures Digits(n)[0] == DigitChar(LeadingDigit(n))
  {
    if n >= 10 {
      DigitsStart(n / 10);
    }
  }

  /** What the HEAD status leads to. */
  datatype StatusAction =
    | Proceed     // a 2... status
    | Forbidden   // 403: logged, and the download goes on
    | NotFound    // 404: logged, None is returned
    | Unexpected  // reported, None is returned

  function ClassifyStatus(code: int): StatusAction {
    if StartsWith(StatusText(code), "2") then Proceed
    else if code == 403 then Forbidden
    else if code == 404 then NotFound
    else Unexpected
  }

  /** The download goes on after the HEAD request. */
  predicate Continues(a: StatusAction) {
    a == Proceed || a == Forbidden
  }

  /** The status test reads the decimal text: it passes exactly the codes whose first digit is 2. */
  lemma StatusPassesOnLeadingTwo(code: int)
    ensures ClassifyStatus(code) == Proceed <==> code >= 0 && LeadingDigit(code) == 2
  {
    if code >= 0 {
      DigitsStart(code);
    }
  }

  /**
   * For three-digit codes: 2xx proceeds, 403 goes on to download as well,
   * 404 and every other code give up.
   */
  lemma StatusClasses(code: int)
    requires 100 <= code <= 999
    ensures ClassifyStatus(code) == Proceed <==> 200 <= code < 300
    ensures Continues(ClassifyStatus(code)) <==> (200 <= code < 300 || code == 403)
    ensures ClassifyStatus(code) == NotFound <==> code == 404
  {
    StatusPassesOnLeadingTwo(code);
    assert LeadingDigit(code) == LeadingDigit(code / 10) == code / 100;
  }

  // --------------------------------------------------------- cached file name

  const Quote: string := "\""

  /** The `Content-disposition` value with both `attachment;filename=` forms removed and its first two quotes dropped. */
  function DispositionName(header: string): string {
    Replace(ReplaceAll(ReplaceAll(header, "attachment;filename=", ""), "attachment; filename=", ""), Quote, "", 2)
  }

  predicate IsAscii(s: string) {
    forall i | 0 <= i < |s| :: s[i] < '\U{80}'
  }

  /** The name used when no disposition name is given: url-safe base64 of the ASCII URL, '=' stripped, plus ".txt". */
  function FallbackName(url: string, b64: string -> string): (r: Option<string>)
    ensures r.Some? <==> IsAscii(url)
    ensures r.Some? ==> EndsWith(r.value, ".txt")
    ensures r.Some? ==> TrimmedOf(b64(url), r.value[..|r.value| - 4], IsPadding)
  {
    if IsAscii(url) then
      var stem := Trim(b64(url), IsPadding);
      TrimIsTrimmedOf(b64(url), IsPadding);
      var r := stem + ".txt";
      assert r[..|r| - 4] == stem;
      Some(r)
    else None
  }

  /** The base64 padding character. */
  predicate IsPadding(c: char) {
    c == '='
  }

  predicate EndsWith(s: string, suffix: string) {
    |suffix| <= |s| && s[|s| - |suffix|..] == suffix
  }

  /**
   * The cached file's name: the disposition name when it is not empty, else
   * the fallback; None is the encoding error raised for a non-ASCII URL that
   * needed the fallback.
   */
  function DestFile(disposition: Option<string>, url: string, b64: string -> string): (r: Option<string>)
    ensures r.Some? ==> r.value != []
    ensures disposition.Some? && DispositionName(disposition.value) != [] ==> r == Some(DispositionName(disposition.value))
    ensures disposition.None? || DispositionName(disposition.value) == [] ==> r == FallbackName(url, b64)
    ensures r.None? <==> (disposition.None? || DispositionName(disposition.value) == []) && !IsAscii(url)
  {
    var named := if disposition.Some? then DispositionName(disposition.value) else "";
    if named != [] then Some(named) else FallbackName(url, b64)
  }

  lemma NotContainsChar(s: string, c: char)
    requires c !in s
    ensures !Contains(s, [c])
  {
    forall i: nat | i <= |s| ensures !StartsAt(s, [c], i) {
      if i + 1 <= |s| {
        assert s[i..i + 1][0] == s[i];
      }
    }
  }

  /** A quoted file name after `attachment;filename=` comes out bare. */
  lemma QuotedNameUnwrapped(name: string)
    requires '"' !in name
    requires !Contains(name, "attachment;filename=") && !Contains(name, "attachment; filename=")
    ensures DispositionName("attachment;filename=" + Quote + name + Quote) == name
  {
    var p1 := "attachment;filename=";
    var p2 := "attachment; filename=";
    var w := Quote + name + Quote;
    var h := p1 + w;
    assert h == "attachment;filename=" + Quote + name + Quote;
    WrapKeepsAbsent(name, '"', p1);
    WrapKeepsAbsent(name, '"', p2);
    assert [('"')] + name + [('"')] == w;
    assert ReplaceAll(h, p1, "") == w by {
      assert StartsAt(h, p1, 0) && h[|p1|..] == w;
      ReplaceAtMatch(h, p1, "", -1);
      ReplaceAbsent(w, p1, "", -1);
    }
    assert ReplaceAll(w, p2, "") == w by {
      ReplaceAbsent(w, p2, "", -1);
    }
    assert Replace(w, Quote, "", 2) == name by {
      assert StartsAt(w, Quote, 0) && w[1..] == name + Quote;
      ReplaceAtMatch(w, Quote, "", 2);
      ReplaceFreePrefix(name, Quote, Quote, "", 1);
      ReplaceAtMatch(Quote, Quote, "", 1);
      assert Quote[1..] == [];
    }
  }

  /** A bare name with no quotes and no attachment prefix is kept as it is. */
  lemma BareNameKept(name: string)
    requires '"' !in name
    requires !Contains(name, "attachment;filename=") && !Contains(name, "attachment; filename=")
    ensures DispositionName(name) == name
  {
    ReplaceAbsent(name, "attachment;filename=", "", -1);
    ReplaceAbsent(name, "attachment; filename=", "", -1);
    NotContainsChar(name, '"');
    ReplaceAbsent(name, Quote, "", 2);
  }

  // ------------------------------------------------------------------ cache

  /** The HEAD response: status, `Content-Length` (0 when absent), `Content-disposition` and `ETag`. */
  datatype Head = Head(status: int, contentLength: int, disposition: Option<string>, etag: Option<string>)

  /** The cache directory: the text of each file that exists. */
  datatype Disk = Disk(files: map<string, string>)

  /** The cached file: the file name joined to the cache directory as given. */
  function CachePath(tempDir: string, name: string): string {
    tempDir + "/" + name
  }

  function EtagPath(path: string): (r: string)
    ensures r != path
  {
    path + ".etag"
  }

  /** The ETag header as `if etag:` reads it: present and not empty. */
  predicate HasEtag(head: Head) {
    head.etag.Some? && head.etag.value != []
  }

  /** The cached file exists and has the advertised, positive size. */
  predicate SizeHit(head: Head, disk: Disk, path: string, byteSize: string -> nat) {
    head.contentLength > 0 && path in disk.files && byteSize(disk.files[path]) == head.contentLength
  }

  /** The stored etag equals the advertised one. */
  predicate EtagHit(head: Head, disk: Disk, path: string) {
    HasEtag(head) && EtagPath(path) in disk.files && disk.files[EtagPath(path)] == head.etag.value
  }

  /** What `download_file` does after the HEAD request. */
  datatype Decision =
    | GiveUp                                                  // returns None
    | EncodeError                                             // the fallback name raised
    | Cached(path: string)                                    // returns the path, no GET
    | Get(request: Request, path: string, etag: Option<string>) // GET, write the body, and the etag if given

  function Decide(remoteFile: string, head: Head, tempDir: string, disk: Disk, b64: string -> string, byteSize: string -> nat): (d: Decision)
    ensures d == GiveUp <==> !Continues(ClassifyStatus(head.status))
    ensures var name := DestFile(head.disposition, RequestFor(remoteFile).url, b64);
      && (d == EncodeError <==> Continues(ClassifyStatus(head.status)) && name.None?)
      && (d.Cached? <==>
            && Continues(ClassifyStatus(head.status)) && name.Some?
            && (SizeHit(head, disk, CachePath(tempDir, name.value), byteSize) || EtagHit(head, disk, CachePath(tempDir, name.value))))
      && (d.Get? <==>
            && Continues(ClassifyStatus(head.status)) && name.Some?
            && !SizeHit(head, disk, CachePath(tempDir, name.value), byteSize) && !EtagHit(head, disk, CachePath(tempDir, name.value)))
    ensures d.Cached? || d.Get? ==>
      && DestFile(head.disposition, RequestFor(remoteFile).url, b64).Some?
      && d.path == CachePath(tempDir, DestFile(head.disposition, RequestFor(remoteFile).url, b64).value)
    ensures d.Cached? ==> SizeHit(head, disk, d.path, byteSize) || EtagHit(head, disk, d.path)
    ensures d.Get? ==>
      && !SizeHit(head, disk, d.path, byteSize) && !EtagHit(head, disk, d.path)
      && d.request == RequestFor(remoteFile)
      && (d.etag.Some? <==> HasEtag(head)) && (d.etag.Some? ==> d.etag == head.etag)
  {
    var request := RequestFor(remoteFile);
    if !Continues(ClassifyStatus(head.status)) then GiveUp
    else match DestFile(head.disposition, request.url, b64)
      case None => EncodeError
      case Some(name) =>
        var path := CachePath(tempDir, name);
        if SizeHit(head, disk, path, byteSize) then Cached(path)
        else if EtagHit(head, disk, path) then Cached(path)
        else Get(request, path, if HasEtag(head) then head.etag else None)
  }

  /** The cache directory after the decision: a GET writes the body, then the etag when there is one. */
  function DiskAfter(disk: Disk, d: Decision, body: string): (r: Disk)
    ensures d.Get? ==> d.path in r.files && r.files[d.path] == body
    ensures d.Get? && d.etag.Some? ==> r.files == disk.files[d.path := body][EtagPath(d.path) := d.etag.value]
    ensures d.Get? && d.etag.None? ==> r.files == disk.files[d.path := body]
    ensures !d.Get? ==> r == disk
  {
    match d
    case Get(_, path, etag) =>
      var written := disk.files[path := body];
      Disk(if etag.Some? then written[EtagPath(path) := etag.value] else written)
    case _ => disk
  }

  /** After a download with an ETag, the same HEAD response is answered from the cache. */
  lemma SecondDownloadIsCached(remoteFile: string, head: Head, tempDir: string, disk: Disk, b64: string -> string, byteSize: string -> nat, body: string)
    requires Decide(remoteFile, head, tempDir, disk, b64, byteSize).Get?
    requires HasEtag(head) || (head.contentLength > 0 && byteSize(body) == head.contentLength)
    ensures var d := Decide(remoteFile, head, tempDir, disk, b64, byteSize);
      Decide(remoteFile, head, tempDir, DiskAfter(disk, d, body), b64, byteSize) == Cached(d.path)
  {
    var d := Decide(remoteFile, head, tempDir, disk, b64, byteSize);
    var after := DiskAfter(disk, d, body);
    if !SizeHit(head, after, d.path, byteSize) {
      assert HasEtag(head);
      assert EtagHit(head, after, d.path);
    }
  }
}
