/**
 * `StaticFileServer`: a middleware that answers GET and HEAD requests for
 * files it tracks. The MIME type comes from the file name's extension;
 * a GET whose `if-none-match` agrees with the file's ETag is answered 304.
 *
 * Listing the directory, reading files, the clock and the ETag digest are
 * outside the model: the tracked files arrive as a table, each with its
 * size, MIME type, ETag, formatted modification time, and what reading it
 * yields (`None` when it cannot be opened).
 */
module StaticFiles {
  import opened Base
  import opened HeaderNames
  import opened Requests
  import Responses
  import opened Middlewares

  /* ---------------------------------------------------------------- */
  /* MIME types                                                        */
  /* ---------------------------------------------------------------- */

  const DefaultMime: string := "application/octet-stream"

  /** `mime_type[]`: extension and type, in table order. */
  const MimeTable: seq<(string, string)> := MimeHead + MimeTail

  /** The first five entries of `mime_type[]`. */
  const MimeHead: seq<(string, string)> := [
    ("war", "application/java-archive"), ("jar", "application/java-archive"),
    ("ear", "application/java-archive"), ("js", "application/javascript"),
    ("json", "application/json")]

  /** The rest of `mime_type[]`. */
  const MimeTail: seq<(string, string)> := [
    ("hqx", "application/mac-binhex40"),
    ("doc", "application/msword"), ("so", "application/octet-stream"),
    ("msp", "application/octet-stream"), ("msm", "application/octet-stream"),
    ("msi", "application/octet-stream"), ("iso", "application/octet-stream"),
    ("img", "application/octet-stream"), ("exe", "application/octet-stream"),
    ("dmg", "application/octet-stream"), ("dll", "application/octet-stream"),
    ("deb", "application/octet-stream"), ("bin", "application/octet-stream"),
    ("pdf", "application/pdf"), ("ps", "application/postscript"),
    ("eps", "application/postscript"), ("ai", "application/postscript"),
    ("rtf", "application/rtf"), ("m3u8", "application/vnd.apple.mpegurl"),
    ("kml", "application/vnd.google-earth.kml+xml"),
    ("kmz", "application/vnd.google-earth.kmz"),
    ("xls", "application/vnd.ms-excel"),
    ("eot", "application/vnd.ms-fontobject"),
    ("ppt", "application/vnd.ms-powerpoint"),
    ("odg", "application/vnd.oasis.opendocument.graphics"),
    ("odp", "application/vnd.oasis.opendocument.presentation"),
    ("ods", "application/vnd.oasis.opendocument.spreadsheet"),
    ("odt", "application/vnd.oasis.opendocument.text"),
    ("pptx", "application/vnd.openxmlformats-officedocument.presentationml.presentation"),
    ("xlsx", "application/vnd.openxmlformats-officedocument.spreadsheetml.sheet"),
    ("docx", "application/vnd.openxmlformats-officedocument.wordprocessingml.document"),
    ("wmlc", "application/vnd.wap.wmlc"), ("7z", "application/x-7z-compressed"),
    ("cco", "application/x-cocoa"), ("jardiff", "application/x-java-archive-diff"),
    ("jnlp", "application/x-java-jnlp-file"), ("run", "application/x-makeself"),
    ("pm", "application/x-perl"), ("pl", "application/x-perl"),
    ("prc", "application/x-pilot"), ("pdb", "application/x-pilot"),
    ("rar", "application/x-rar-compressed"), ("rpm", "application/x-redhat-package-manager"),
    ("sea", "application/x-sea"), ("swf", "application/x-shockwave-flash"),
    ("sit", "application/x-stuffit"), ("tk", "application/x-tcl"),
    ("tcl", "application/x-tcl"), ("pem", "application/x-x509-ca-cert"),
    ("der", "application/x-x509-ca-cert"), ("crt", "application/x-x509-ca-cert"),
    ("xpi", "application/x-xpinstall"), ("xhtml", "application/xhtml+xml"),
    ("xspf", "application/xspf+xml"), ("zip", "application/zip"),
    ("midi", "audio/midi"), ("mid", "audio/midi"), ("kar", "audio/midi"),
    ("mp3", "audio/mpeg"), ("ogg", "audio/ogg"), ("m4a", "audio/x-m4a"),
    ("ra", "audio/x-realaudio"), ("woff", "font/woff"), ("woff2", "font/woff2"),
    ("gif", "image/gif"), ("jpg", "image/jpeg"), ("jpeg", "image/jpeg"),
    ("png", "image/png"), ("svgz", "image/svg+xml"), ("svg", "image/svg+xml"),
    ("tiff", "image/tiff"), ("tif", "image/tiff"), ("wbmp", "image/vnd.wap.wbmp"),
    ("webp", "image/webp"), ("ico", "image/x-icon"), ("jng", "image/x-jng"),
    ("bmp", "image/x-ms-bmp"), ("css", "text/css"), ("shtml", "text/html"),
    ("html", "text/html"), ("htm", "text/html"), ("txt", "text/plain"),
    ("xml", "text/xml"), ("asf", "video/3gpp"), ("ts", "video/mp2t"),
    ("mp4", "video/mp4"), ("mpg", "video/mpeg"), ("mpeg", "video/mpeg"),
    ("mov", "video/quicktime"), ("webm", "video/webm"), ("flv", "video/x-flv"),
    ("m4v", "video/x-m4v"), ("mng", "video/x-mng"), ("asx", "video/x-ms-asf"),
    ("wmv", "video/x-ms-wmv"), ("avi", "video/x-msvideo")
  ]

  /** The first entry whose extension is `name`, or `|table|` when there is none. */
  function FirstEntry(table: seq<(string, string)>, name: string): (k: nat)
    ensures k <= |table|
    ensures k < |table| ==> table[k].0 == name
    ensures forall j :: 0 <= j < k ==> table[j].0 != name
    decreases |table|
  {
    if table == [] then 0 else if table[0].0 == name then 0 else 1 + FirstEntry(table[1..], name)
  }

  /** `search_mime`: the type of the first exact (case-sensitive) match, else the default. */
  function SearchMime(name: string): string
  {
    var k := FirstEntry(MimeTable, name);
    if k < |MimeTable| then MimeTable[k].1 else DefaultMime
  }

  /** An extension names the type of its first table entry; one not in the table gets the default. */
  lemma SearchMimeSpec(name: string)
    ensures (exists k :: 0 <= k < |MimeTable| && MimeTable[k].0 == name) ==>
      exists k :: 0 <= k < |MimeTable| && MimeTable[k].0 == name && SearchMime(name) == MimeTable[k].1
        && forall j :: 0 <= j < k ==> MimeTable[j].0 != name
    ensures (forall k :: 0 <= k < |MimeTable| ==> MimeTable[k].0 != name) ==> SearchMime(name) == DefaultMime
  {
  }

  /** The index of the last '.' in `s`, or -1. */
  function LastDot(s: string): (i: int)
    ensures -1 <= i < |s|
    ensures i >= 0 ==> s[i] == '.'
    ensures forall j :: i < j < |s| ==> s[j] != '.'
  {
    if |s| == 0 then -1 else if s[|s| - 1] == '.' then |s| - 1 else LastDot(s[..|s| - 1])
  }

  /**
   * `file::file`'s MIME choice: the extension is what follows the last '.',
   * up to the first NUL; no '.', or a '.' at the very end, gives the default.
   */
  function MimeOf(fname: string): string
  {
    var dot := LastDot(fname);
    if dot < 0 || dot == |fname| - 1 then DefaultMime else SearchMime(CStr(fname[dot + 1..]))
  }

  /**
   * A plain name's type is decided by the text after its last dot alone:
   * whatever precedes that dot does not matter, and a name without a dot
   * or ending in one gets the default.
   */
  lemma MimeOfExtension(stem: string, ext: string)
    requires '.' !in ext && NUL !in ext
    ensures MimeOf(stem + "." + ext) == if ext == "" then DefaultMime else SearchMime(ext)
    ensures '.' !in stem ==> MimeOf(stem) == DefaultMime
  {
    var s := stem + "." + ext;
    var dot := LastDot(s);
    assert s[|stem|] == '.';
    assert dot == |stem| by {
      forall j | |stem| < j < |s| ensures s[j] != '.' {
        assert s[j] == ext[j - |stem| - 1];
      }
    }
    assert s[dot + 1..] == ext;
    CStrOfPlain(ext);
    if '.' !in stem {
      assert forall j :: 0 <= j < |stem| ==> stem[j] != '.';
    }
  }

  /** The first entry is found where it is, whatever follows it. */
  lemma FirstEntryAt(table: seq<(string, string)>, name: string, k: nat)
    requires k < |table| && table[k].0 == name
    requires forall j :: 0 <= j < k ==> table[j].0 != name
    ensures FirstEntry(table, name) == k
  {
  }

  /** The entries at the head of the table are found where they stand. */
  lemma SearchMimeHead(k: nat)
    requires k < |MimeHead|
    ensures SearchMime(MimeHead[k].0) == MimeHead[k].1
  {
    assert forall j :: 0 <= j < |MimeHead| ==> MimeTable[j] == MimeHead[j];
    FirstEntryAt(MimeTable, MimeHead[k].0, k);
  }

  /** A script's type comes from its last extension, whatever dots the stem holds. */
  lemma MimeOfScript()
    ensures MimeOf("app.min.js") == "application/javascript"
  {
    SearchMimeHead(3);
    MimeOfExtension("app.min", "js");
    assert "app.min" + "." + "js" == "app.min.js";
  }

  /** No extension, or an empty one after a final dot, gives the default. */
  lemma MimeOfNoExtension()
    ensures MimeOf("README") == DefaultMime
    ensures MimeOf("notes.") == DefaultMime
  {
    MimeOfExtension("README", "");
    MimeOfExtension("notes", "");
    assert "notes" + "." + "" == "notes.";
  }

  /* ---------------------------------------------------------------- */
  /* The server                                                        */
  /* ---------------------------------------------------------------- */

  /**
   * A tracked file: its size, MIME type, the ETag array (zero-filled past
   * the digest), the formatted modification time, and what reading it
   * yields: `None` when the open fails, otherwise the bytes read, of
   * which at most `size` are asked for.
   */
  datatype FileInfo = FileInfo(size: nat, mime: string, etag: string, modified: string, content: Option<seq<char>>)

  /**
   * `prefix` is stripped from the URL, `path` is the local directory
   * (with a trailing '/'), `files` maps a URL to the file tracked under it.
   */
  datatype StaticServer = StaticServer(prefix: string, path: string, files: map<string, FileInfo>)

  /**
   * The constructor: `path.at(length - 1)` throws for an empty directory,
   * which nothing catches; otherwise a '/' is appended when missing.
   * Nothing is tracked until the directory is listed.
   */
  function NewStaticServer(prefix: string, local: string): (r: Option<StaticServer>)
    ensures r.None? <==> local == ""
    ensures r.Some? ==> r.value.prefix == prefix && r.value.files == map[]
    ensures r.Some? ==> |r.value.path| > 0 && r.value.path[|r.value.path| - 1] == '/'
    ensures r.Some? ==> r.value.path == local || r.value.path == local + "/"
    ensures r.Some? && local[|local| - 1] == '/' ==> r.value.path == local
  {
    if local == "" then None
    else if local[|local| - 1] != '/' then Some(StaticServer(prefix, local + "/", map[]))
    else Some(StaticServer(prefix, local, map[]))
  }

  /** Normalising an already normalised directory changes nothing. */
  lemma NewStaticServerIdempotent(prefix: string, local: string)
    requires local != ""
    ensures NewStaticServer(prefix, NewStaticServer(prefix, local).value.path) == NewStaticServer(prefix, local)
  {
  }

  /** `list_files`, as its result: the table the directory walk produced. */
  function Track(s: StaticServer, files: map<string, FileInfo>): (r: StaticServer)
    ensures r.prefix == s.prefix && r.path == s.path && r.files == files
  {
    s.(files := files)
  }

  /** `Cache-Control` value for files served or confirmed unchanged. */
  const LongCache: string := "public, max-age=31536000"

  /**
   * The ETag check: the first `min(|tag|, etagLength)` characters of the
   * `if-none-match` value agree with the stored ETag array.
   */
  predicate EtagMatches(tag: string, etag: string, etagLength: nat)
  {
    var n := if |tag| < etagLength then |tag| else etagLength;
    forall i :: 0 <= i < n ==> tag[i] == At(etag, i)
  }

  /** The URL looked up: `prefix.length()` leading characters dropped when there is a prefix. */
  function LookupKey(s: StaticServer, url: string): Option<string>
  {
    if s.prefix == "" then Some(url)
    else if |s.prefix| > |url| then None
    else Some(url[|s.prefix|..])
  }

  /** The headers every answer for a tracked file carries, insert-if-absent. */
  function FileHeaders(resp: Resp, f: FileInfo): (r: Resp)
    ensures r.status == resp.status && r.body == resp.body && r.bodySize == resp.bodySize
  {
    var r1 := Responses.AddCommonHeader(resp, ContentType, f.mime);
    var r2 := Responses.AddCommonHeader(r1, Etag, CStr(f.etag));
    Responses.AddCommonHeader(r2, LastModified, f.modified)
  }

  /** `Last-Modified` and the like, read back after `FileHeaders`. */
  lemma FileHeadersGet(resp: Resp, f: FileInfo)
    ensures var hs := FileHeaders(resp, f).headers;
      && Responses.Get(hs, MapCommonHeader(ContentType)) ==
         (if Responses.Get(resp.headers, MapCommonHeader(ContentType)).Some?
          then Responses.Get(resp.headers, MapCommonHeader(ContentType)) else Some(f.mime))
      && Responses.Get(hs, MapCommonHeader(Etag)) ==
         (if Responses.Get(resp.headers, MapCommonHeader(Etag)).Some?
          then Responses.Get(resp.headers, MapCommonHeader(Etag)) else Some(CStr(f.etag)))
      && Responses.Get(hs, MapCommonHeader(LastModified)) ==
         (if Responses.Get(resp.headers, MapCommonHeader(LastModified)).Some?
          then Responses.Get(resp.headers, MapCommonHeader(LastModified)) else Some(f.modified))
    ensures forall t :: t != MapCommonHeader(ContentType) && t != MapCommonHeader(Etag) && t != MapCommonHeader(LastModified) ==>
      Responses.Get(FileHeaders(resp, f).headers, t) == Responses.Get(resp.headers, t)
  {
    FileHeadersSet(resp, f);
    FileHeadersKeep(resp, f);
  }

  /** The three headers `FileHeaders` adds, each only where absent. */
  lemma FileHeadersSet(resp: Resp, f: FileInfo)
    ensures var hs := FileHeaders(resp, f).headers;
      && Responses.Get(hs, MapCommonHeader(ContentType)) ==
         (if Responses.Get(resp.headers, MapCommonHeader(ContentType)).Some?
          then Responses.Get(resp.headers, MapCommonHeader(ContentType)) else Some(f.mime))
      && Responses.Get(hs, MapCommonHeader(Etag)) ==
         (if Responses.Get(resp.headers, MapCommonHeader(Etag)).Some?
          then Responses.Get(resp.headers, MapCommonHeader(Etag)) else Some(CStr(f.etag)))
      && Responses.Get(hs, MapCommonHeader(LastModified)) ==
         (if Responses.Get(resp.headers, MapCommonHeader(LastModified)).Some?
          then Responses.Get(resp.headers, MapCommonHeader(LastModified)) else Some(f.modified))
  {
    var r1 := Responses.AddCommonHeader(resp, ContentType, f.mime);
    var r2 := Responses.AddCommonHeader(r1, Etag, CStr(f.etag));
    var ct, et, lm := MapCommonHeader(ContentType), MapCommonHeader(Etag), MapCommonHeader(LastModified);
    MapCommonHeaderInjective(ContentType, Etag);
    MapCommonHeaderInjective(ContentType, LastModified);
    MapCommonHeaderInjective(Etag, LastModified);
    AddedReads(resp, ContentType, f.mime);
    AddedLeaves(r1, Etag, CStr(f.etag), ct);
    AddedLeaves(r2, LastModified, f.modified, ct);
    AddedLeaves(resp, ContentType, f.mime, et);
    AddedReads(r1, Etag, CStr(f.etag));
    AddedLeaves(r2, LastModified, f.modified, et);
    AddedLeaves(resp, ContentType, f.mime, lm);
    AddedLeaves(r1, Etag, CStr(f.etag), lm);
    AddedReads(r2, LastModified, f.modified);
  }

  /** One common header added: it reads its old value if present, else `v`. */
  lemma AddedReads(resp: Resp, h: CommonHeader, v: string)
    ensures Responses.Get(Responses.AddCommonHeader(resp, h, v).headers, MapCommonHeader(h)) ==
      (if Responses.Get(resp.headers, MapCommonHeader(h)).Some? then Responses.Get(resp.headers, MapCommonHeader(h)) else Some(v))
  {
    Responses.AddCommonHeaderGet(resp, h, v);
  }

  /** One common header added: the name `t` of another header reads as before. */
  lemma AddedLeaves(resp: Resp, h: CommonHeader, v: string, t: string)
    requires t != MapCommonHeader(h)
    ensures Responses.Get(Responses.AddCommonHeader(resp, h, v).headers, t) == Responses.Get(resp.headers, t)
  {
    Responses.AddCommonHeaderGet(resp, h, v);
  }

  /** Every other header is left as it was. */
  lemma FileHeadersKeep(resp: Resp, f: FileInfo)
    ensures forall t :: t != MapCommonHeader(ContentType) && t != MapCommonHeader(Etag) && t != MapCommonHeader(LastModified) ==>
      Responses.Get(FileHeaders(resp, f).headers, t) == Responses.Get(resp.headers, t)
  {
    var r1 := Responses.AddCommonHeader(resp, ContentType, f.mime);
    Responses.AddCommonHeaderGet(resp, ContentType, f.mime);
    var r2 := Responses.AddCommonHeader(r1, Etag, CStr(f.etag));
    Responses.AddCommonHeaderGet(r1, Etag, CStr(f.etag));
    Responses.AddCommonHeaderGet(r2, LastModified, f.modified);
  }

  /** The read: it counts only when it delivers `size` bytes. */
  predicate Readable(f: FileInfo)
  {
    f.content.Some? && |f.content.value| >= f.size
  }

  /** A successful GET read becomes the body, with Cache-Control if absent; otherwise nothing changes. */
  function Deliver(r: Resp, f: FileInfo, get: bool): (r': Resp)
    ensures r'.status == r.status
    ensures get && Readable(f) ==> r'.body == f.content.value[..f.size] && r'.bodySize == f.size % U32
    ensures !(get && Readable(f)) ==> r' == r
  {
    if get && Readable(f)
    then Responses.AddHeaderIfNotExists(Responses.SetBody(r, f.content.value[..f.size], f.size), CacheControl, LongCache).0
    else r
  }

  /** What `Deliver` does to the headers the answer reports. */
  lemma DeliverGet(r: Resp, f: FileInfo, get: bool)
    ensures var hs := Deliver(r, f, get).headers;
      && Responses.Get(hs, MapCommonHeader(Etag)) == Responses.Get(r.headers, MapCommonHeader(Etag))
      && Responses.Get(hs, MapCommonHeader(LastModified)) == Responses.Get(r.headers, MapCommonHeader(LastModified))
      && (Responses.Get(r.headers, MapCommonHeader(ContentType)).Some? && Responses.Get(r.headers, MapCommonHeader(ContentType)).value != "" ==>
            Responses.Get(hs, MapCommonHeader(ContentType)) == Responses.Get(r.headers, MapCommonHeader(ContentType)))
      && Responses.Get(hs, MapCommonHeader(ContentLength)) ==
         (if get && Readable(f) && Responses.Get(r.headers, MapCommonHeader(ContentLength)).None?
          then Some(Responses.Decimal(f.size)) else Responses.Get(r.headers, MapCommonHeader(ContentLength)))
  {
    if get && Readable(f) {
      MapCommonHeaderInjective(Etag, ContentType);
      MapCommonHeaderInjective(Etag, ContentLength);
      MapCommonHeaderInjective(Etag, ContentEncoding);
      MapCommonHeaderInjective(Etag, CacheControl);
      MapCommonHeaderInjective(LastModified, ContentType);
      MapCommonHeaderInjective(LastModified, ContentLength);
      MapCommonHeaderInjective(LastModified, ContentEncoding);
      MapCommonHeaderInjective(LastModified, CacheControl);
      MapCommonHeaderInjective(ContentType, CacheControl);
      MapCommonHeaderInjective(ContentLength, CacheControl);
      Responses.SetBodyHeaders(r, f.content.value[..f.size], f.size);
    }
  }

  /**
   * `StaticFileServer::operator()`.
   * - not GET or HEAD: goes on, untouched;
   * - a prefix longer than the URL: `substr` throws `out_of_range` (`Fault`);
   * - an untracked URL: goes on, untouched;
   * - a tracked file: Content-Type, Etag and Last-Modified are added and the
   *   pipeline stops; for a GET whose `if-none-match` agrees with the ETag
   *   the status becomes 304 and Cache-Control is added if absent;
   *   otherwise a GET whose read delivers `size` bytes sets the body and
   *   Cache-Control, and in every such case Content-Length is added.
   */
  function Serve(s: StaticServer, etagLength: nat, req: Request, resp: Resp): Outcome
  {
    if req.verb != HttpGet && req.verb != HttpHead then Outcome(req, resp, Continue)
    else
      match LookupKey(s, req.baseURL)
      case None => Outcome(req, resp, Fault)
      case Some(url) =>
        if url !in s.files then Outcome(req, resp, Continue)
        else
          var f := s.files[url];
          var r := FileHeaders(resp, f);
          var tag := GetHeader(req, "if-none-match");
          if req.verb == HttpGet && tag.Some? && EtagMatches(tag.value, f.etag, etagLength) then
            Outcome(req, Responses.AddHeaderIfNotExists(Responses.SetStatus(r, 304), CacheControl, LongCache).0, Stop)
          else
            Outcome(req, Responses.AddCommonHeader(Deliver(r, f, req.verb == HttpGet), ContentLength, Responses.Decimal(f.size)), Stop)
  }

  /** The server as a middleware. */
  function AsWare(s: StaticServer, etagLength: nat): Ware
  {
    (q: Request, r: Resp) => Serve(s, etagLength, q, r)
  }

  /** Requests it does not answer go on with request and response untouched. */
  lemma ServePassesThrough(s: StaticServer, etagLength: nat, req: Request, resp: Resp)
    ensures (req.verb != HttpGet && req.verb != HttpHead) ==>
      Serve(s, etagLength, req, resp) == Outcome(req, resp, Continue)
    ensures ((req.verb == HttpGet || req.verb == HttpHead) && LookupKey(s, req.baseURL).Some?
      && LookupKey(s, req.baseURL).value !in s.files) ==> Serve(s, etagLength, req, resp) == Outcome(req, resp, Continue)
    ensures Serve(s, etagLength, req, resp).signal == Continue ==> Serve(s, etagLength, req, resp) == Outcome(req, resp, Continue)
  {
  }

  /**
   * A GET or HEAD for a tracked file stops the pipeline and leaves the
   * request alone; Etag and Last-Modified are the file's unless the
   * response had them, and so is a non-empty Content-Type.
   */
  lemma ServeTracked(s: StaticServer, etagLength: nat, req: Request, resp: Resp)
    requires req.verb == HttpGet || req.verb == HttpHead
    requires LookupKey(s, req.baseURL).Some? && LookupKey(s, req.baseURL).value in s.files
    ensures var o := Serve(s, etagLength, req, resp);
      var f := s.files[LookupKey(s, req.baseURL).value];
      && o.signal == Stop && o.req == req
      && (Responses.Get(resp.headers, MapCommonHeader(ContentType)).None? && f.mime != "" ==>
            Responses.Get(o.resp.headers, MapCommonHeader(ContentType)) == Some(f.mime))
      && Responses.Get(o.resp.headers, MapCommonHeader(Etag)) ==
         (if Responses.Get(resp.headers, MapCommonHeader(Etag)).Some?
          then Responses.Get(resp.headers, MapCommonHeader(Etag)) else Some(CStr(f.etag)))
      && Responses.Get(o.resp.headers, MapCommonHeader(LastModified)) ==
         (if Responses.Get(resp.headers, MapCommonHeader(LastModified)).Some?
          then Responses.Get(resp.headers, MapCommonHeader(LastModified)) else Some(f.modified))
  {
    var f := s.files[LookupKey(s, req.baseURL).value];
    var r := FileHeaders(resp, f);
    FileHeadersGet(resp, f);
    MapCommonHeaderInjective(ContentType, CacheControl);
    MapCommonHeaderInjective(Etag, CacheControl);
    MapCommonHeaderInjective(LastModified, CacheControl);
    MapCommonHeaderInjective(ContentType, ContentLength);
    MapCommonHeaderInjective(Etag, ContentLength);
    MapCommonHeaderInjective(LastModified, ContentLength);
    var tag := GetHeader(req, "if-none-match");
    if !(req.verb == HttpGet && tag.Some? && EtagMatches(tag.value, f.etag, etagLength)) {
      var r' := Deliver(r, f, req.verb == HttpGet);
      DeliverGet(r, f, req.verb == HttpGet);
      Responses.AddCommonHeaderGet(r', ContentLength, Responses.Decimal(f.size));
    }
  }

  /**
   * The 304 answer: a GET for a tracked file whose `if-none-match` agrees
   * with the ETag gets status 304 and Cache-Control (unless present); the
   * body is left as it was and no Content-Length is added. An empty
   * `if-none-match` always agrees.
   */
  lemma ServeNotModified(s: StaticServer, etagLength: nat, req: Request, resp: Resp)
    requires req.verb == HttpGet
    requires LookupKey(s, req.baseURL).Some? && LookupKey(s, req.baseURL).value in s.files
    requires GetHeader(req, "if-none-match").Some?
    requires GetHeader(req, "if-none-match").value == "" ||
      EtagMatches(GetHeader(req, "if-none-match").value, s.files[LookupKey(s, req.baseURL).value].etag, etagLength)
    ensures var o := Serve(s, etagLength, req, resp);
      && o.signal == Stop && o.resp.status == 304
      && o.resp.body == resp.body && o.resp.bodySize == resp.bodySize
      && Responses.Get(o.resp.headers, MapCommonHeader(CacheControl)).Some?
      && Responses.Get(o.resp.headers, MapCommonHeader(ContentLength)) ==
         Responses.Get(FileHeaders(resp, s.files[LookupKey(s, req.baseURL).value]).headers, MapCommonHeader(ContentLength))
  {
    MapCommonHeaderInjective(CacheControl, ContentLength);
    var f := s.files[LookupKey(s, req.baseURL).value];
    var r := FileHeaders(resp, f);
    var r3 := Responses.AddHeaderIfNotExists(Responses.SetStatus(r, 304), CacheControl, LongCache);
  }

  /**
   * A GET for a tracked file that is not answered 304 and whose read
   * delivers `size` bytes gets those bytes as its body; a HEAD keeps the
   * body it had. Both end with a Content-Length header, which is the file
   * size unless the response carried one already.
   */
  lemma ServeBody(s: StaticServer, etagLength: nat, req: Request, resp: Resp)
    requires req.verb == HttpGet || req.verb == HttpHead
    requires LookupKey(s, req.baseURL).Some? && LookupKey(s, req.baseURL).value in s.files
    requires req.verb == HttpGet ==> GetHeader(req, "if-none-match").None?
    ensures var o := Serve(s, etagLength, req, resp);
      var f := s.files[LookupKey(s, req.baseURL).value];
      && o.signal == Stop && o.resp.status == resp.status
      && (req.verb == HttpHead ==> o.resp.body == resp.body && o.resp.bodySize == resp.bodySize)
      && (req.verb == HttpGet && Readable(f) ==> o.resp.body == f.content.value[..f.size] && o.resp.bodySize == f.size % U32)
      && Responses.Get(o.resp.headers, MapCommonHeader(ContentLength)) ==
         (if Responses.Get(resp.headers, MapCommonHeader(ContentLength)).Some?
          then Responses.Get(resp.headers, MapCommonHeader(ContentLength)) else Some(Responses.Decimal(f.size)))
  {
    var f := s.files[LookupKey(s, req.baseURL).value];
    ServeDelivers(s, etagLength, req, resp);
    DeliveredLength(resp, f, req.verb == HttpGet);
  }

  /** The `Content-Length` a delivered answer reports: the handler's own, or the file's size. */
  lemma DeliveredLength(resp: Resp, f: FileInfo, get: bool)
    ensures var r := Responses.AddCommonHeader(Deliver(FileHeaders(resp, f), f, get), ContentLength, Responses.Decimal(f.size));
      Responses.Get(r.headers, MapCommonHeader(ContentLength)) ==
        (if Responses.Get(resp.headers, MapCommonHeader(ContentLength)).Some?
         then Responses.Get(resp.headers, MapCommonHeader(ContentLength)) else Some(Responses.Decimal(f.size)))
  {
    var r := FileHeaders(resp, f);
    var r' := Deliver(r, f, get);
    FileHeadersGet(resp, f);
    MapCommonHeaderInjective(ContentType, ContentLength);
    MapCommonHeaderInjective(Etag, ContentLength);
    MapCommonHeaderInjective(LastModified, ContentLength);
    assert Responses.Get(r.headers, MapCommonHeader(ContentLength)) == Responses.Get(resp.headers, MapCommonHeader(ContentLength));
    DeliverGet(r, f, get);
    Responses.AddCommonHeaderGet(r', ContentLength, Responses.Decimal(f.size));
  }

  /** Without an `if-none-match` the tracked file is delivered and its size reported. */
  lemma ServeDelivers(s: StaticServer, etagLength: nat, req: Request, resp: Resp)
    requires req.verb == HttpGet || req.verb == HttpHead
    requires LookupKey(s, req.baseURL).Some? && LookupKey(s, req.baseURL).value in s.files
    requires req.verb == HttpGet ==> GetHeader(req, "if-none-match").None?
    ensures var f := s.files[LookupKey(s, req.baseURL).value];
      Serve(s, etagLength, req, resp) ==
        Outcome(req, Responses.AddCommonHeader(Deliver(FileHeaders(resp, f), f, req.verb == HttpGet), ContentLength, Responses.Decimal(f.size)), Stop)
  {
  }

  /** A prefix longer than the URL makes `substr` throw. */
  lemma ServePrefixTooLong(s: StaticServer, etagLength: nat, req: Request, resp: Resp)
    requires req.verb == HttpGet || req.verb == HttpHead
    requires s.prefix != "" && |s.prefix| > |req.baseURL|
    ensures Serve(s, etagLength, req, resp).signal == Fault
  {
  }
}
