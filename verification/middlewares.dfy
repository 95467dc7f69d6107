/**
 * What a middleware sees and reports: the request, the response, and the
 * way control leaves it. A C++ middleware returns `true` (go on) or
 * `false` (stop), or throws; an `HttpException` carries its own status code
 * and builds its own response body.
 */
module Middlewares {
  import opened Base
  import opened Requests
  import opened Responses

  /** Responses whose header list keeps one entry per name, as `std::map` does. */
  type Resp = r: Response | Responses.Valid(r) witness Response([], 200, 0, [])

  /**
   * The exceptions the core throws or catches. `NotFoundEx` is
   * `route::NotFoundException` (the request's method and base URL when it
   * was thrown); `ParserEx` is `HttpParserException`, whose status code is
   * set by a constructor that is not part of this model; `OtherEx` stands
   * for an application-defined `HttpException` with a fixed body.
   */
  datatype HttpException =
    | NotFoundEx(verb: int, url: string)
    | ParserEx(status: int, errno: int, description: string)
    | OtherEx(status: int, text: seq<char>)

  /**
   * How control leaves a middleware: `Continue` is `return true`, `Stop`
   * is `return false`, `Raise` throws an `HttpException`, and `Fault` is
   * any other C++ exception, which nothing in the core catches.
   */
  datatype Signal = Continue | Stop | Raise(ex: HttpException) | Fault

  /** The request and response as the middleware left them, and its signal. */
  datatype Outcome = Outcome(req: Request, resp: Resp, signal: Signal)

  /** `Middleware::operator()(Request&, Response&)`. */
  type Ware = (Request, Resp) -> Outcome

  /** `getStatusCode`: `NotFoundException` sets 404 in its constructor. */
  function StatusOf(ex: HttpException): (s: int)
    ensures ex.NotFoundEx? ==> s == 404
    ensures !ex.NotFoundEx? ==> s == ex.status
  {
    match ex
    case NotFoundEx(_, _) => 404
    case ParserEx(s, _, _) => s
    case OtherEx(s, _) => s
  }

  /* ---------------------------------------------------------------- */
  /* Writing into a character buffer                                   */
  /* ---------------------------------------------------------------- */

  /** `memcpy(buf + at, data, |data|)`: the buffer grows when the copy runs past it. */
  function Overwrite(buf: seq<char>, at: nat, data: seq<char>): (r: seq<char>)
    requires at <= |buf|
    ensures |r| == if at + |data| > |buf| then at + |data| else |buf|
    ensures r[..at] == buf[..at] && r[at..at + |data|] == data
    ensures at + |data| < |buf| ==> r[at + |data|..] == buf[at + |data|..]
  {
    if at + |data| >= |buf| then buf[..at] + data
    else buf[..at] + data + buf[at + |data|..]
  }

  /* ---------------------------------------------------------------- */
  /* NotFoundException::buildResponse                                  */
  /* ---------------------------------------------------------------- */

  const NotFoundLead: string := "Not Route Found: "

  /**
   * The writes of `NotFoundException::buildResponse`: the lead, the method
   * name up to its NUL, the four characters " to ", then — after moving the
   * cursor by `advance` — the base URL up to its NUL, '.' and NUL. The size
   * reported is the cursor after the '.'. The source moves by 3.
   */
  function NotFoundWrites(methodName: string, url: string, advance: nat): (r: (seq<char>, nat))
    requires advance <= 4
    ensures r.1 < |r.0|
    ensures r.0[r.1] == NUL
    ensures var tail := advance + |CStr(url)| + 2;
      |r.0| == |NotFoundLead| + |CStr(methodName)| + (if tail > 4 then tail else 4)
  {
    var b0 := NotFoundLead + CStr(methodName);
    var p0 := |b0|;
    var b1 := Overwrite(b0, p0, " to ");
    var p1 := p0 + advance;
    var b2 := Overwrite(b1, p1, CStr(url));
    var p2 := p1 + |CStr(url)|;
    var b3 := Overwrite(b2, p2, ['.', NUL]);
    assert b3[p2 + 1] == b3[p2..p2 + 2][1];
    (b3, p2 + 1)
  }

  /** The message the source means: "Not Route Found: <method> to <url>." */
  function NotFoundMessage(methodName: string, url: string): string
  {
    NotFoundLead + CStr(methodName) + " to " + CStr(url) + "."
  }

  /** As written (cursor moved by 3): the URL's first character lands on the space after "to". */
  lemma NotFoundAsWritten(methodName: string, url: string)
    ensures var r := NotFoundWrites(methodName, url, 3);
      r.0[..r.1] == NotFoundLead + CStr(methodName) + " to" + CStr(url) + "."
  {
    WritesSpell(NotFoundLead + CStr(methodName), 3, CStr(url));
    assert " to "[..3] == " to";
  }

  /** The corrected writes (cursor moved by 4) deliver exactly the intended message. */
  lemma NotFoundCorrected(methodName: string, url: string)
    ensures var r := NotFoundWrites(methodName, url, 4);
      r.0[..r.1] == NotFoundMessage(methodName, url) && r.1 == |NotFoundMessage(methodName, url)|
  {
    WritesSpell(NotFoundLead + CStr(methodName), 4, CStr(url));
    assert " to "[..4] == " to ";
  }

  /**
   * The three copies after a prefix `b0`: " to ", then `u` after moving
   * by `k`, then ".\0"; up to the '.' the buffer spells `b0`, the first
   * `k` characters of " to ", `u` and '.'.
   */
  lemma WritesSpell(b0: seq<char>, k: nat, u: seq<char>)
    requires k <= 4
    ensures var b1 := Overwrite(b0, |b0|, " to ");
      var b2 := Overwrite(b1, |b0| + k, u);
      var b3 := Overwrite(b2, |b0| + k + |u|, ['.', NUL]);
      b3[..|b0| + k + |u| + 1] == b0 + " to "[..k] + u + "."
  {
    var p0 := |b0|;
    var b1 := Overwrite(b0, p0, " to ");
    var b2 := Overwrite(b1, p0 + k, u);
    var p2 := p0 + k + |u|;
    var b3 := Overwrite(b2, p2, ['.', NUL]);
    var t := " to "[..k];
    CopyCut(b0, p0, " to ", k);
    assert b0[..p0] == b0;
    assert b1[..p0 + k] == b0 + t;
    WrittenPrefix(b1, p0 + k, u);
    assert b2[..p2] == b0 + t + u;
    CopyCut(b2, p2, ['.', NUL], 1);
    assert ['.', NUL][..1] == ".";
    assert b3[..p2 + 1] == b0 + t + u + ".";
  }

  /** The first `k` characters of a copy, read back with what precedes it. */
  lemma CopyCut(buf: seq<char>, at: nat, data: seq<char>, k: nat)
    requires at <= |buf| && k <= |data|
    ensures Overwrite(buf, at, data)[..at + k] == buf[..at] + data[..k]
  {
    var r := Overwrite(buf, at, data);
    WrittenPrefix(buf, at, data);
    assert r[..at + k] == r[..at + |data|][..at + k];
  }

  /** After a copy, the buffer up to the copy's end is the old prefix and the data. */
  lemma WrittenPrefix(buf: seq<char>, at: nat, data: seq<char>)
    requires at <= |buf|
    ensures Overwrite(buf, at, data)[..at + |data|] == buf[..at] + data
  {
    var r := Overwrite(buf, at, data);
    assert r[..at + |data|] == r[..at] + r[at..at + |data|];
  }

  /** The discrepancy on a concrete request: GET "/x" reads "Not Route Found: GET to/x.". */
  lemma NotFoundAsWrittenExample(methodName: string, url: string)
    requires methodName == "GET" && url == "/x"
    ensures var r := NotFoundWrites(methodName, url, 3);
      r.0[..r.1] == "Not Route Found: GET to/x." && r.0[..r.1] != NotFoundMessage(methodName, url)
  {
    CStrOfPlain(methodName);
    CStrOfPlain(url);
    NotFoundAsWritten(methodName, url);
    assert NotFoundMessage(methodName, url) == "Not Route Found: GET to /x.";
    assert |"Not Route Found: GET to/x."| == 26;
  }

  /**
   * The buffer the source allocates holds `17 + |url| + 20` characters; the
   * writes stay inside it whenever the method name has at most 14
   * characters (the longest `http_method_str` name has 11).
   */
  lemma NotFoundFits(methodName: string, url: string, advance: nat)
    requires advance <= 4 && |CStr(methodName)| <= 14
    ensures |NotFoundWrites(methodName, url, advance).0| <= |NotFoundLead| + |url| + 20
  {
    assert |NotFoundLead| == 17 && |CStr(url)| <= |url|;
  }

  /* ---------------------------------------------------------------- */
  /* HttpParserException::buildResponse                               */
  /* ---------------------------------------------------------------- */

  const BadRequestLead: string := "Bad Request: "

  /**
   * As written: the size is `sizeof("Bad Request: ") + |what|`, which counts
   * the lead's terminating NUL; the buffer has one more zeroed character.
   * The bytes reported therefore end in a NUL.
   */
  function ParserErrorWrites(what: string): (r: (seq<char>, nat))
    ensures r.1 == |BadRequestLead| + 1 + |what| && |r.0| == r.1 + 1
  {
    var size := |BadRequestLead| + 1 + |what|;
    var zeros := seq(size + 1, _ => NUL);
    var b1 := Overwrite(zeros, 0, BadRequestLead);
    var b2 := Overwrite(b1, |BadRequestLead|, what);
    (b2, size)
  }

  /**
   * The reported bytes are the lead, the description and a NUL; read as a
   * C string (the description has no NUL) they are the lead and the description.
   */
  lemma ParserErrorAsWritten(what: string)
    ensures var r := ParserErrorWrites(what);
      && r.0[..r.1] == BadRequestLead + what + [NUL]
      && (NUL !in what ==> CStr(r.0) == BadRequestLead + what)
  {
    var size := |BadRequestLead| + 1 + |what|;
    var zeros := seq(size + 1, _ => NUL);
    var b1 := Overwrite(zeros, 0, BadRequestLead);
    var b2 := Overwrite(b1, |BadRequestLead|, what);
    var n := |BadRequestLead| + |what|;
    assert b2[..n] == BadRequestLead + what by {
      assert b2[..|BadRequestLead|] == b1[..|BadRequestLead|];
      assert b2[..n] == b2[..|BadRequestLead|] + b2[|BadRequestLead|..n];
    }
    assert b2[n..] == zeros[n..];
    assert b2 == BadRequestLead + what + [NUL, NUL];
    if NUL !in what {
      CStrOfTerminated(BadRequestLead + what, [NUL, NUL]);
    }
  }

  /** The corrected writes: the size stops before the NUL. */
  function ParserErrorBody(what: string): (r: (seq<char>, nat))
    ensures r.1 == |BadRequestLead| + |what| && |r.0| == r.1 + 1
    ensures r.0[..r.1] == BadRequestLead + what && r.0[r.1] == NUL
  {
    var size := |BadRequestLead| + |what|;
    var b := Overwrite(Overwrite(seq(size + 1, _ => NUL), 0, BadRequestLead), |BadRequestLead|, what);
    assert b[..|BadRequestLead|] == BadRequestLead;
    assert b[..size] == b[..|BadRequestLead|] + b[|BadRequestLead|..size];
    (b, size)
  }

  /** A C string ends at the first NUL. */
  lemma CStrOfTerminated(s: string, rest: string)
    requires NUL !in s && |rest| > 0 && rest[0] == NUL
    ensures CStr(s + rest) == s
  {
    var t := s + rest;
    assert forall i :: 0 <= i < |s| ==> t[i] == s[i];
    assert t[|s|] == NUL;
  }

  /* ---------------------------------------------------------------- */
  /* buildResponse                                                     */
  /* ---------------------------------------------------------------- */

  /**
   * `HttpException::buildResponse` as written: the buffer and the size
   * handed to `setBody`. `methodName` is `http_method_str`. A not-found
   * message lacks the space after "to"; a parser error's bytes end in the
   * NUL its size counts.
   */
  function BuildResponse(ex: HttpException, methodName: int -> string): (r: (seq<char>, nat))
    ensures r.1 <= |r.0|
    ensures ex.NotFoundEx? ==>
      r.0[..r.1] == NotFoundLead + CStr(methodName(ex.verb)) + " to" + CStr(ex.url) + "."
    ensures ex.ParserEx? ==> r.0[..r.1] == BadRequestLead + ex.description + [NUL]
    ensures ex.ParserEx? && NUL !in ex.description ==> CStr(r.0) == BadRequestLead + ex.description
    ensures ex.OtherEx? ==> r.0[..r.1] == ex.text
  {
    match ex
    case NotFoundEx(v, url) =>
      NotFoundAsWritten(methodName(v), url);
      NotFoundWrites(methodName(v), url, 3)
    case ParserEx(_, _, what) =>
      ParserErrorAsWritten(what);
      ParserErrorWrites(what)
    case OtherEx(_, text) => (text, |text|)
  }

  /**
   * What `buildResponse` is meant to report: the not-found message with
   * its space, and the parser message without the NUL.
   */
  function BuildIntended(ex: HttpException, methodName: int -> string): (r: (seq<char>, nat))
    ensures r.1 <= |r.0|
    ensures ex.NotFoundEx? ==> r.0[..r.1] == NotFoundMessage(methodName(ex.verb), ex.url)
    ensures ex.ParserEx? ==> r.0[..r.1] == BadRequestLead + ex.description
    ensures ex.OtherEx? ==> r.0[..r.1] == ex.text
  {
    match ex
    case NotFoundEx(v, url) =>
      NotFoundCorrected(methodName(v), url);
      NotFoundWrites(methodName(v), url, 4)
    case ParserEx(_, _, what) => ParserErrorBody(what)
    case OtherEx(_, text) => (text, |text|)
  }

  /**
   * The two differ exactly on the source's two slips: the not-found message
   * is one character short (the space), the parser message one character
   * long (the NUL); any other exception reports the same bytes.
   */
  lemma BuildDiffers(ex: HttpException, methodName: int -> string)
    ensures ex.NotFoundEx? ==> BuildResponse(ex, methodName).1 + 1 == BuildIntended(ex, methodName).1
    ensures ex.ParserEx? ==> BuildResponse(ex, methodName).1 == BuildIntended(ex, methodName).1 + 1
    ensures ex.ParserEx? ==>
      BuildResponse(ex, methodName).0[..BuildResponse(ex, methodName).1] ==
      BuildIntended(ex, methodName).0[..BuildIntended(ex, methodName).1] + [NUL]
    ensures ex.OtherEx? ==> BuildResponse(ex, methodName) == BuildIntended(ex, methodName)
  {
  }

  /**
   * The catch block of `processing_request`: the exception's bytes become
   * the body and its status the response status; the headers gain what
   * `setBody` adds.
   */
  function ErrorResponse(ex: HttpException, methodName: int -> string, resp: Resp): (r: Resp)
    ensures r.status == StatusOf(ex)
    ensures r.body == BuildResponse(ex, methodName).0
    ensures r.bodySize == BuildResponse(ex, methodName).1 % U32
  {
    var (buf, size) := BuildResponse(ex, methodName);
    Responses.SetStatus(Responses.SetBody(resp, buf, size), StatusOf(ex))
  }
}
