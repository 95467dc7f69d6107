/**
 * `HttpParser`: the adapter between the external `http_parser` tokeniser
 * and `RestfulHttpRequest`. The tokeniser itself is not modelled; what the
 * adapter sees of it is the sequence of callbacks it makes, so the input
 * here is that sequence of `Event`s.
 */
module HttpParsers {
  import opened Base
  import opened Requests
  import opened Middlewares
  import MemoryBuffers
  import UrlUtils

  /** `bodyLength`, `_buf`, `current` and `currentHeaderField`. */
  datatype Parser = Parser(bodyLength: nat, buf: MemoryBuffers.Buffer, current: Request, field: string)

  /** The body bytes counted so far are exactly the bytes the buffer holds. */
  predicate Inv(p: Parser)
  {
    MemoryBuffers.Valid(p.buf) && p.buf.stored == p.bodyLength
  }

  /** `HttpParser(Client*)`: nothing received, a default request, no pending field. */
  function NewParser(): (p: Parser)
    ensures Inv(p) && p.bodyLength == 0 && p.current == NewRequest() && p.field == ""
    ensures MemoryBuffers.Content(p.buf.pool) == []
  {
    Parser(0, MemoryBuffers.Empty(), NewRequest(), "")
  }

  /* ---------------------------------------------------------------- */
  /* The setters of parser.h                                           */
  /* ---------------------------------------------------------------- */

  /** `setBaseURL`: replaces the request's base URL. */
  function SetBaseURL(p: Parser, url: string): Parser
  {
    p.(current := Requests.SetBaseURL(p.current, url))
  }

  /**
   * `setCurrentHeaderField`: stores the name as given. Its `std::transform`
   * is handed the range [begin, begin), which is empty, so nothing is
   * lower-cased here.
   */
  function SetCurrentHeaderField(p: Parser, f: string): (r: Parser)
    ensures r.field == f && r == p.(field := f)
  {
    p.(field := f)
  }

  /**
   * `setCurrentHeaderValue`: the pending field and `v` go into the request
   * headers, insert-if-absent. The field is copied, not moved, by
   * `emplaceHeader`, so it stays pending.
   */
  function SetCurrentHeaderValue(p: Parser, v: string): (r: Parser)
    ensures r == p.(current := r.current) && r.current == p.current.(headers := r.current.headers)
    ensures GetHeader(r.current, p.field) == if GetHeader(p.current, p.field).Some? then GetHeader(p.current, p.field) else Some(v)
    ensures forall k :: k != p.field ==> GetHeader(r.current, k) == GetHeader(p.current, k)
  {
    p.(current := EmplaceHeader(p.current, p.field, v))
  }

  /** `setQuery`: the pending field and `v` become a query entry, insert-if-absent. */
  function SetQuery(p: Parser, v: string): (r: Parser)
    ensures r == p.(current := r.current) && r.current == p.current.(queries := r.current.queries)
    ensures GetQuery(r.current, p.field) == if GetQuery(p.current, p.field).Some? then GetQuery(p.current, p.field) else Some(v)
    ensures forall k :: k != p.field ==> GetQuery(r.current, k) == GetQuery(p.current, k)
  {
    p.(current := EmplaceQuery(p.current, p.field, v))
  }

  /* ---------------------------------------------------------------- */
  /* onURL                                                             */
  /* ---------------------------------------------------------------- */

  /** The queries a request already has, as a map (none yet: empty). */
  function Existing(req: Request): StrMap
  {
    if req.queries.Some? then req.queries.value else map[]
  }

  /** The entries of `base`, then those of `dict` whose name `base` lacks. */
  function Merge(base: StrMap, dict: StrMap): (m: StrMap)
    ensures m.Keys == base.Keys + dict.Keys
    ensures forall k :: k in base ==> m[k] == base[k]
    ensures forall k :: k in dict && k !in base ==> m[k] == dict[k]
  {
    map k | k in base.Keys + dict.Keys :: if k in base then base[k] else dict[k]
  }

  /**
   * The loop of `onURL` over the parsed dictionary: every entry is
   * emplaced as a query, so a name the request already had keeps its
   * value. The map is created only if there is something to add.
   */
  function EmplaceQueries(req: Request, dict: StrMap): (r: Request)
    ensures r == req.(queries := r.queries)
    ensures dict == map[] ==> r == req
    ensures forall k :: GetQuery(r, k) == (if GetQuery(req, k).Some? then GetQuery(req, k) else Find(Some(dict), k))
  {
    if dict == map[] then req
    else req.(queries := Some(Merge(Existing(req), dict)))
  }

  /**
   * The entries may be emplaced one at a time, in any order: taking any
   * one entry first and the rest afterwards gives the same request.
   */
  lemma EmplaceQueriesOneByOne(req: Request, dict: StrMap, k: string)
    requires k in dict
    ensures EmplaceQueries(req, dict) == EmplaceQueries(EmplaceQuery(req, k, dict[k]), dict - {k})
  {
    var base := Existing(req);
    var q := EmplaceQuery(req, k, dict[k]);
    assert q.queries == Some(Emplace(base, k, dict[k]));
    MergeOneByOne(base, dict, k);
  }

  /** The same, for the maps alone. */
  lemma MergeOneByOne(base: StrMap, dict: StrMap, k: string)
    requires k in dict
    ensures dict - {k} == map[] ==> Merge(base, dict) == Emplace(base, k, dict[k])
    ensures dict - {k} != map[] ==> Merge(base, dict) == Merge(Emplace(base, k, dict[k]), dict - {k})
  {
    var base' := Emplace(base, k, dict[k]);
    var rest := dict - {k};
    var m := Merge(base, dict);
    assert dict.Keys == rest.Keys + {k};
    if rest == map[] {
      assert m.Keys == base'.Keys;
      assert m == base';
    } else {
      var m' := Merge(base', rest);
      assert m.Keys == m'.Keys;
      forall x | x in m ensures m[x] == m'[x] {
        if x !in base && x != k {
          assert x in rest;
        }
      }
      assert m == m';
    }
  }

  /**
   * `onURL`: without a '?' the whole URL is the base URL and the callback
   * succeeds. Otherwise the text before the first '?' is the base URL, the
   * rest (from the '?') is parsed as a query string whose entries are
   * emplaced, and the callback fails (returns 1) when it holds no entry.
   */
  function OnURL(p: Parser, url: string): (r: (Parser, int))
    ensures r.1 == 0 || r.1 == 1
    ensures r.0 == p.(current := r.0.current)
    ensures r.0.current == p.current.(baseURL := r.0.current.baseURL, queries := r.0.current.queries)
  {
    var pos := UrlUtils.IndexOf(url, '?');
    if pos < 0 then (SetBaseURL(p, url), 0)
    else
      var (ok, dict) := UrlUtils.ParseQueryString(url[pos..], map[]);
      var q := SetBaseURL(p, url[..pos]);
      (q.(current := EmplaceQueries(q.current, dict)), if ok then 0 else 1)
  }

  /** A URL without '?' is all base URL; the queries are left alone and the callback succeeds. */
  lemma OnURLPlain(p: Parser, url: string)
    requires '?' !in url
    ensures OnURL(p, url) == (p.(current := p.current.(baseURL := url)), 0)
  {
    assert forall j :: 0 <= j < |url| ==> url[j] != '?';
  }

  /**
   * A URL `path + query` where `query` starts at the first '?': the base
   * URL is `path`, every entry the query scanner finds in `query` is
   * added unless the name was already there, and the callback succeeds
   * exactly when there was at least one entry.
   */
  lemma OnURLQuery(p: Parser, path: string, query: string)
    requires '?' !in path && |query| > 0 && query[0] == '?'
    ensures var r := OnURL(p, path + query);
      var dict := UrlUtils.ParseQueryString(query, map[]).1;
      && r.0.current.baseURL == path
      && (r.1 == 0 <==> |UrlUtils.Scan(CStr(query), 0)| > 0)
      && forall k :: GetQuery(r.0.current, k) == (if GetQuery(p.current, k).Some? then GetQuery(p.current, k) else Find(Some(dict), k))
  {
    var url := path + query;
    assert url[|path|] == '?';
    assert forall j :: 0 <= j < |path| ==> url[j] != '?' by {
      forall j | 0 <= j < |path| ensures url[j] != '?' {
        assert url[j] == path[j];
      }
    }
    assert UrlUtils.IndexOf(url, '?') == |path|;
    assert url[..|path|] == path;
    assert url[|path|..] == query;
  }

  /**
   * A URL whose query part was built from well-formed entries: the path is
   * the base URL, the callback succeeds, and each entry's first value is
   * added unless the request already had that name.
   */
  lemma OnURLEncoded(p: Parser, path: string, es: seq<(string, string)>)
    requires '?' !in path && es != []
    requires forall k :: 0 <= k < |es| ==> UrlUtils.Encodable(es[k])
    ensures var r := OnURL(p, path + UrlUtils.EncodeQuery(es, true));
      && r.1 == 0 && r.0.current.baseURL == path
      && forall k :: GetQuery(r.0.current, k) == (if GetQuery(p.current, k).Some? then GetQuery(p.current, k) else Find(Some(UrlUtils.Collect(map[], es)), k))
  {
    var enc := UrlUtils.EncodeQuery(es, true);
    UrlUtils.QueryRoundTrip(es);
    OnURLQuery(p, path, enc);
  }

  /** Three entries encode as "?n1=v1&n2=v2&n3=v3". */
  lemma EncodeThree(e1: (string, string), e2: (string, string), e3: (string, string))
    ensures UrlUtils.EncodeQuery([e1, e2, e3], true)
      == "?" + e1.0 + "=" + e1.1 + ("&" + e2.0 + "=" + e2.1 + ("&" + e3.0 + "=" + e3.1))
  {
    var t3 := UrlUtils.EncodeQuery([e3], false);
    assert [e3][1..] == [];
    var x3 := "&" + e3.0 + "=" + e3.1;
    assert t3 == [if false then '?' else '&'] + e3.0 + "=" + e3.1 + UrlUtils.EncodeQuery([e3][1..], false);
    assert UrlUtils.EncodeQuery([e3][1..], false) == [];
    assert t3 == x3 + [];
    assert x3 + [] == x3;
    var t2 := UrlUtils.EncodeQuery([e2, e3], false);
    assert [e2, e3][1..] == [e3];
    assert t2 == "&" + e2.0 + "=" + e2.1 + t3;
    assert [e1, e2, e3][1..] == [e2, e3];
    assert UrlUtils.EncodeQuery([e1, e2, e3], true) == "?" + e1.0 + "=" + e1.1 + t2;
  }

  /** Three entries with distinct names collect into the map of the three. */
  lemma CollectThree(e1: (string, string), e2: (string, string), e3: (string, string))
    requires e1.0 != e2.0 && e1.0 != e3.0 && e2.0 != e3.0
    ensures UrlUtils.Collect(map[], [e1, e2, e3]) == map[e1.0 := e1.1, e2.0 := e2.1, e3.0 := e3.1]
  {
    var m1 := Emplace(map[], e1.0, e1.1);
    var m2 := Emplace(m1, e2.0, e2.1);
    var m3 := Emplace(m2, e3.0, e3.1);
    assert [e1, e2, e3][1..] == [e2, e3];
    assert [e2, e3][1..] == [e3];
    assert [e3][1..] == [];
    assert UrlUtils.Collect(m3, []) == m3;
    assert UrlUtils.Collect(m2, [e3]) == m3;
    assert UrlUtils.Collect(m1, [e2, e3]) == m3;
    assert m3 == map[e1.0 := e1.1, e2.0 := e2.1, e3.0 := e3.1];
  }

  /** The parser test's URL is "/index.html" followed by the encoding of its three entries. */
  lemma TestURLShape(url: string)
    requires url == "/index.html?first=a&second=b&third=c"
    ensures url == "/index.html" + UrlUtils.EncodeQuery([("first", "a"), ("second", "b"), ("third", "c")], true)
  {
    EncodeThree(("first", "a"), ("second", "b"), ("third", "c"));
  }

  /**
   * The URL of the parser test: the base URL is "/index.html" and the
   * three queries are found.
   */
  lemma OnURLParsesQueries(url: string)
    requires url == "/index.html?first=a&second=b&third=c"
    ensures var r := OnURL(NewParser(), url);
      && r.1 == 0 && r.0.current.baseURL == "/index.html"
      && GetQuery(r.0.current, "first") == Some("a")
      && GetQuery(r.0.current, "second") == Some("b")
      && GetQuery(r.0.current, "third") == Some("c")
  {
    var p := NewParser();
    var e1, e2, e3 := ("first", "a"), ("second", "b"), ("third", "c");
    TestURLShape(url);
    OnURLEncoded(p, "/index.html", [e1, e2, e3]);
    CollectThree(e1, e2, e3);
    assert p.current.queries == None;
  }

  /** A query part holding no "name=value" pair makes the callback fail: "/x?" and "/x?a". */
  lemma OnURLRejectsBareQuery()
    ensures OnURL(NewParser(), "/x?").1 == 1
    ensures OnURL(NewParser(), "/x?a").1 == 1
  {
    OnURLQuery(NewParser(), "/x", "?");
    CStrOfPlain("?");
    assert UrlUtils.Scan("?", 0) == [] by {
      assert UrlUtils.IndexFrom("?", '=', 1) == -1;
    }
    OnURLQuery(NewParser(), "/x", "?a");
    CStrOfPlain("?a");
    assert UrlUtils.Scan("?a", 0) == [] by {
      assert UrlUtils.IndexFrom("?a", '=', 1) == -1;
      assert UrlUtils.Scan("?a", 1) == [];
    }
  }

  /* ---------------------------------------------------------------- */
  /* The other callbacks                                               */
  /* ---------------------------------------------------------------- */

  /** No character of `s` is an upper-case ASCII letter. */
  predicate NoUpper(s: string)
  {
    forall i :: 0 <= i < |s| ==> !IsUpper(s[i])
  }

  /** `onHeaderField`: the field name, lower-cased whole, becomes the pending field. */
  function OnHeaderField(p: Parser, f: string): (r: Parser)
    ensures r == p.(field := r.field)
    ensures |r.field| == |f| && NoUpper(r.field)
    ensures forall i :: 0 <= i < |f| && !IsUpper(f[i]) ==> r.field[i] == f[i]
  {
    SetCurrentHeaderField(p, ToLower(f))
  }

  /** `onHeaderValue`. */
  function OnHeaderValue(p: Parser, v: string): Parser
  {
    SetCurrentHeaderValue(p, v)
  }

  /** `onBody`: the chunk is appended to the buffer and counted. */
  function OnBody(p: Parser, chunk: seq<char>): (r: Parser)
    requires Inv(p)
    ensures Inv(r) && r.bodyLength == p.bodyLength + |chunk|
    ensures MemoryBuffers.Content(r.buf.pool) == MemoryBuffers.Content(p.buf.pool) + chunk
    ensures r.current == p.current && r.field == p.field
  {
    Parser(p.bodyLength + |chunk|, MemoryBuffers.Write(p.buf, chunk).0, p.current, p.field)
  }

  /** `onHeaderCompelete`: the method the tokeniser found. */
  function OnHeadersComplete(p: Parser, verb: int): (r: Parser)
    ensures r == p.(current := p.current.(verb := verb))
  {
    p.(current := SetMethod(p.current, verb))
  }

  /**
   * `finishCurrentRequest`: with a body pending, all `bodyLength` bytes
   * are read back, a NUL is put after them, and the request's body is set
   * (its size being `bodyLength`); the count goes back to 0. Without a
   * body nothing changes. The request as it now stands is handed to the
   * client's `processing_request` (what that does to it is `Step`'s
   * business). The request itself is not reset.
   */
  function FinishCurrentRequest(p: Parser): (r: (Parser, Request))
    requires Inv(p)
    ensures Inv(r.0) && r.0.bodyLength == 0 && MemoryBuffers.Content(r.0.buf.pool) == []
    ensures r.1 == r.0.current && r.0.field == p.field
    ensures p.bodyLength == 0 ==> r.0 == p
    ensures p.bodyLength > 0 ==>
      r.1 == p.current.(body := Some(MemoryBuffers.Content(p.buf.pool) + [NUL]), bodySize := p.bodyLength % U32)
  {
    if p.bodyLength > 0 then
      assert |p.buf.pool| > 0 by {
        assert MemoryBuffers.Content(p.buf.pool) != [];
      }
      var rd := MemoryBuffers.Read(p.buf, p.bodyLength);
      assert rd.1 == MemoryBuffers.Content(p.buf.pool);
      var cur := Requests.SetBody(p.current, rd.1 + [NUL], p.bodyLength);
      (Parser(0, rd.0, cur, p.field), cur)
    else (p, p.current)
  }

  /**
   * `reset`: `bodyLength` back to 0 and the request swapped with a fresh
   * one (the tokeniser is re-initialised too, which is not modelled). The
   * swap leaves the body size where it was, and the buffer is not cleared.
   */
  function Reset(p: Parser): (r: Parser)
    ensures r.bodyLength == 0 && r.buf == p.buf && r.field == p.field
    ensures r.current == NewRequest().(bodySize := p.current.bodySize)
    ensures Inv(p) && p.bodyLength == 0 ==> Inv(r)
  {
    Parser(0, p.buf, Swap(p.current, NewRequest()).0, p.field)
  }

  /* ---------------------------------------------------------------- */
  /* Driving the callbacks                                             */
  /* ---------------------------------------------------------------- */

  /** The callbacks `http_parser` makes (`onStatus` never fires for requests). */
  datatype Event =
    | MessageBegin
    | Url(url: string)
    | HeaderField(name: string)
    | HeaderValue(value: string)
    | HeadersComplete(verb: int)
    | Body(chunk: seq<char>)
    | MessageComplete
    | ChunkHeader
    | ChunkComplete

  /**
   * `AsWritten` is the adapter as it stands: the client's
   * `processing_request` gets the request by reference, `process` being
   * what its middleware (router parameters included) does to it, and the
   * parser keeps the request so edited for the next message. `Corrected`
   * starts the next message of the connection from a fresh request, as
   * `reset` is evidently meant to (with the body size cleared too, and no
   * pending field), so the client's edits no longer matter.
   */
  datatype Policy = AsWritten(process: Request -> Request) | Corrected

  /** The state the corrected adapter starts the next message from. */
  function Fresh(p: Parser): (r: Parser)
    ensures r.bodyLength == 0 && r.current == NewRequest() && r.field == "" && r.buf == p.buf
  {
    Parser(0, p.buf, NewRequest(), "")
  }

  /**
   * One callback: the new state, its return code, and the request handed
   * to the client when a message completes.
   */
  function Step(policy: Policy, p: Parser, e: Event): (r: (Parser, int, Option<Request>))
    requires Inv(p)
    ensures Inv(r.0)
    ensures r.1 != 0 ==> e.Url?
    ensures r.2.Some? <==> e.MessageComplete?
    ensures e.MessageComplete? && policy.AsWritten? ==> r.0.current == policy.process(r.2.value)
    ensures e.MessageComplete? && policy.Corrected? ==> r.0.current == NewRequest() && r.0.field == ""
  {
    match e
    case MessageBegin => (p, 0, None)
    case Url(u) => var (q, code) := OnURL(p, u); (q, code, None)
    case HeaderField(f) => (OnHeaderField(p, f), 0, None)
    case HeaderValue(v) => (OnHeaderValue(p, v), 0, None)
    case HeadersComplete(m) => (OnHeadersComplete(p, m), 0, None)
    case Body(c) => (OnBody(p, c), 0, None)
    case MessageComplete =>
      var (q, req) := FinishCurrentRequest(p);
      (if policy.Corrected? then Fresh(q) else q.(current := policy.process(req)), 0, Some(req))
    case ChunkHeader => (p, 0, None)
    case ChunkComplete => (p, 0, None)
  }

  function Listed(d: Option<Request>): seq<Request>
  {
    if d.Some? then [d.value] else []
  }

  /**
   * `http_parser_execute` over the callbacks: they run in order until one
   * returns non-zero, which stops the run; the result is the final state,
   * the requests handed to the client, and the callback that stopped it.
   */
  function Execute(policy: Policy, p: Parser, evs: seq<Event>): (r: (Parser, seq<Request>, Option<Event>))
    requires Inv(p)
    ensures Inv(r.0)
    ensures r.2.Some? ==> r.2.value.Url? && r.2.value in evs
    decreases |evs|
  {
    if evs == [] then (p, [], None)
    else
      var (q, code, d) := Step(policy, p, evs[0]);
      if code != 0 then (q, Listed(d), Some(evs[0]))
      else
        var (q', ds, f) := Execute(policy, q, evs[1..]);
        (q', Listed(d) + ds, f)
  }

  /** The run `r` continued with `b`, unless it already stopped. */
  function Then(policy: Policy, r: (Parser, seq<Request>, Option<Event>), b: seq<Event>): (Parser, seq<Request>, Option<Event>)
    requires Inv(r.0)
  {
    if r.2.Some? then r
    else
      var r' := Execute(policy, r.0, b);
      (r'.0, r.1 + r'.1, r'.2)
  }

  /** Running two lists of callbacks one after the other is running their concatenation. */
  lemma {:induction false} ExecuteAppend(policy: Policy, p: Parser, a: seq<Event>, b: seq<Event>)
    requires Inv(p)
    ensures Execute(policy, p, a + b) == Then(policy, Execute(policy, p, a), b)
    decreases |a|
  {
    if a == [] {
      assert a + b == b;
      var rb := Execute(policy, p, b);
      assert [] + rb.1 == rb.1;
    } else {
      assert (a + b)[0] == a[0] && (a + b)[1..] == a[1..] + b;
      var s := Step(policy, p, a[0]);
      if s.1 == 0 {
        ExecuteAppend(policy, s.0, a[1..], b);
        ThenCons(policy, s.2, Execute(policy, s.0, a[1..]), b);
      }
    }
  }

  /** Continuing a run that handed over `d` first. */
  lemma ThenCons(policy: Policy, d: Option<Request>, r: (Parser, seq<Request>, Option<Event>), b: seq<Event>)
    requires Inv(r.0)
    ensures Then(policy, (r.0, Listed(d) + r.1, r.2), b) == var t := Then(policy, r, b); (t.0, Listed(d) + t.1, t.2)
  {
    if r.2.None? {
      var r' := Execute(policy, r.0, b);
      assert Listed(d) + r.1 + r'.1 == Listed(d) + (r.1 + r'.1);
    }
  }

  /** A run whose first callback succeeds goes on with the rest. */
  lemma ExecuteCons(policy: Policy, p: Parser, e: Event, rest: seq<Event>)
    requires Inv(p) && Step(policy, p, e).1 == 0
    ensures var s := Step(policy, p, e);
      var t := Execute(policy, s.0, rest);
      Execute(policy, p, [e] + rest) == (t.0, Listed(s.2) + t.1, t.2)
  {
    assert ([e] + rest)[0] == e && ([e] + rest)[1..] == rest;
  }

  /**
   * What the tokeniser reports for a read: the callbacks it made and, if
   * it stopped on malformed input itself, its error number.
   */
  datatype Tokens = Tokens(events: seq<Event>, error: Option<int>)

  /**
   * `readFromNetwork`: succeeds iff every byte was consumed, that is, no
   * callback failed and the tokeniser found no error; otherwise it throws
   * `HttpParserException` with the error number and its description.
   * `callbackErrno` is the error number the tokeniser assigns to a failed
   * callback, `describe` is `http_errno_description`, and `status` is the
   * exception's status code.
   */
  function ReadFromNetwork(policy: Policy, p: Parser, t: Tokens, status: int,
                           callbackErrno: Event -> int, describe: int -> string): (r: (Parser, seq<Request>, Option<HttpException>))
    requires Inv(p)
    ensures Inv(r.0)
    ensures r.2.None? <==> Execute(policy, p, t.events).2.None? && t.error.None?
    ensures r.2.Some? ==>
      (r.2.value.ParserEx? && r.2.value.status == status && r.2.value.description == describe(r.2.value.errno))
    ensures (r.0, r.1) == (Execute(policy, p, t.events).0, Execute(policy, p, t.events).1)
  {
    var (q, ds, failed) := Execute(policy, p, t.events);
    if failed.Some? then
      var e := callbackErrno(failed.value);
      (q, ds, Some(ParserEx(status, e, describe(e))))
    else if t.error.Some? then
      (q, ds, Some(ParserEx(status, t.error.value, describe(t.error.value))))
    else (q, ds, None)
  }

  /**
   * The exception a failed read throws: its `buildResponse`, read as a C
   * string, is "Bad Request: " and the error's description, while the size
   * it reports counts one more character, a NUL.
   */
  lemma ReadFailureMessage(policy: Policy, p: Parser, t: Tokens, status: int,
                           callbackErrno: Event -> int, describe: int -> string, methodName: int -> string)
    requires Inv(p)
    requires ReadFromNetwork(policy, p, t, status, callbackErrno, describe).2.Some?
    ensures var ex := ReadFromNetwork(policy, p, t, status, callbackErrno, describe).2.value;
      var r := BuildResponse(ex, methodName);
      && r.0[..r.1] == BadRequestLead + describe(ex.errno) + [NUL]
      && (NUL !in describe(ex.errno) ==> CStr(r.0) == BadRequestLead + describe(ex.errno))
      && StatusOf(ex) == status
  {
  }

  /* ---------------------------------------------------------------- */
  /* Properties of the adapter                                         */
  /* ---------------------------------------------------------------- */

  /** No header name of `q` holds an upper-case letter. */
  predicate HeadersLowered(q: Request)
  {
    forall k :: k in q.headers ==> NoUpper(k)
  }

  /** Header names in the request and the pending field hold no upper-case letter. */
  predicate Lowered(p: Parser)
  {
    NoUpper(p.field) && HeadersLowered(p.current)
  }

  /**
   * The client's processing adds no header under an upper-case name (it
   * only matters as written, where the processed request is kept).
   */
  ghost predicate KeepsLowered(policy: Policy)
  {
    policy.AsWritten? ==> forall q :: HeadersLowered(q) ==> HeadersLowered(policy.process(q))
  }

  /** Every callback keeps header names lower-case. */
  lemma StepLowered(policy: Policy, p: Parser, e: Event)
    requires Inv(p) && Lowered(p) && KeepsLowered(policy)
    ensures Lowered(Step(policy, p, e).0)
    ensures Step(policy, p, e).2.Some? ==> forall k :: k in Step(policy, p, e).2.value.headers ==> NoUpper(k)
  {
    if e.HeaderValue? {
      var r := OnHeaderValue(p, e.value);
      forall k | k in r.current.headers ensures NoUpper(k) {
        if k != p.field {
          assert GetHeader(r.current, k) == GetHeader(p.current, k);
        }
      }
    }
  }

  /**
   * Whatever the callbacks, every request handed to the client stores its
   * headers under lower-case names, so `getHeader` with a lower-case name
   * finds a header however the client spelled it.
   */
  lemma {:induction false} HeadersLowerCase(policy: Policy, p: Parser, evs: seq<Event>)
    requires Inv(p) && Lowered(p) && KeepsLowered(policy)
    ensures Lowered(Execute(policy, p, evs).0)
    ensures forall i, k :: 0 <= i < |Execute(policy, p, evs).1| && k in Execute(policy, p, evs).1[i].headers ==> NoUpper(k)
    decreases |evs|
  {
    if evs != [] {
      StepLowered(policy, p, evs[0]);
      var (q, code, d) := Step(policy, p, evs[0]);
      if code == 0 {
        HeadersLowerCase(policy, q, evs[1..]);
      }
    }
  }

  /** The chunks of a body, as `onBody` receives them. */
  function Bodies(chunks: seq<seq<char>>): (evs: seq<Event>)
    ensures |evs| == |chunks|
    ensures forall i :: 0 <= i < |chunks| ==> evs[i] == Body(chunks[i])
  {
    if chunks == [] then [] else [Body(chunks[0])] + Bodies(chunks[1..])
  }

  /** Body callbacks add their bytes, in order, and touch nothing else. */
  lemma {:induction false} BodiesAccumulate(policy: Policy, p: Parser, chunks: seq<seq<char>>)
    requires Inv(p)
    ensures var r := Execute(policy, p, Bodies(chunks));
      && r.1 == [] && r.2.None? && r.0.current == p.current && r.0.field == p.field
      && r.0.bodyLength == p.bodyLength + |MemoryBuffers.Concat(chunks)|
      && MemoryBuffers.Content(r.0.buf.pool) == MemoryBuffers.Content(p.buf.pool) + MemoryBuffers.Concat(chunks)
    decreases |chunks|
  {
    if chunks != [] {
      var q := OnBody(p, chunks[0]);
      BodyStep(policy, p, chunks[0]);
      BodiesCons(chunks);
      ExecuteCons(policy, p, Body(chunks[0]), Bodies(chunks[1..]));
      BodiesAccumulate(policy, q, chunks[1..]);
      ConcatCons(MemoryBuffers.Content(p.buf.pool), chunks);
    }
  }

  lemma BodyStep(policy: Policy, p: Parser, c: seq<char>)
    requires Inv(p)
    ensures Step(policy, p, Body(c)) == (OnBody(p, c), 0, None)
    ensures Listed(Step(policy, p, Body(c)).2) == []
  {
  }

  lemma BodiesCons(chunks: seq<seq<char>>)
    requires chunks != []
    ensures Bodies(chunks) == [Body(chunks[0])] + Bodies(chunks[1..])
  {
  }

  lemma ConcatCons(c: seq<char>, chunks: seq<seq<char>>)
    requires chunks != []
    ensures c + chunks[0] + MemoryBuffers.Concat(chunks[1..]) == c + MemoryBuffers.Concat(chunks)
    ensures |MemoryBuffers.Concat(chunks)| == |chunks[0]| + |MemoryBuffers.Concat(chunks[1..])|
  {
  }

  /**
   * A body sent in any number of chunks reaches the request whole: the
   * request handed to the client carries exactly the bytes of the chunks,
   * in order, followed by a NUL, and their total as its size. A message
   * without body bytes leaves the body as it was.
   */
  lemma BodyDelivered(policy: Policy, p: Parser, chunks: seq<seq<char>>)
    requires Inv(p) && p.bodyLength == 0
    ensures var r := Execute(policy, p, Bodies(chunks) + [MessageComplete]);
      var n := |MemoryBuffers.Concat(chunks)|;
      && r.2.None? && |r.1| == 1 && r.0.bodyLength == 0
      && (n > 0 ==> r.1[0] == p.current.(body := Some(MemoryBuffers.Concat(chunks) + [NUL]), bodySize := n % U32))
      && (n == 0 ==> r.1[0] == p.current)
  {
    ExecuteAppend(policy, p, Bodies(chunks), [MessageComplete]);
    BodiesAccumulate(policy, p, chunks);
    var q := Execute(policy, p, Bodies(chunks)).0;
    assert MemoryBuffers.Content(p.buf.pool) == [] by {
      assert |MemoryBuffers.Content(p.buf.pool)| == p.buf.stored;
    }
    CompleteOnly(policy, q);
    var r0 := Execute(policy, p, Bodies(chunks));
    var t := Execute(policy, q, [MessageComplete]);
    assert r0.1 == [] && r0.2.None?;
    assert Execute(policy, p, Bodies(chunks) + [MessageComplete]) == (t.0, r0.1 + t.1, t.2);
    assert r0.1 + t.1 == t.1;
    var fr := FinishCurrentRequest(q);
    assert q.bodyLength == |MemoryBuffers.Concat(chunks)| && q.current == p.current;
    assert Execute(policy, p, Bodies(chunks) + [MessageComplete]).1 == [fr.1];
    if q.bodyLength == 0 {
      assert fr.1 == p.current;
    } else {
      assert MemoryBuffers.Content(q.buf.pool) == [] + MemoryBuffers.Concat(chunks);
      assert [] + MemoryBuffers.Concat(chunks) == MemoryBuffers.Concat(chunks);
    }
  }

  /** A lone `onMessageComplete` hands over the finished request and succeeds. */
  lemma CompleteOnly(policy: Policy, q: Parser)
    requires Inv(q)
    ensures var r := Execute(policy, q, [MessageComplete]);
      r.2.None? && r.1 == [FinishCurrentRequest(q).1] && r.0.bodyLength == 0
  {
    assert [MessageComplete][1..] == [];
  }

  /* ---------------------------------------------------------------- */
  /* One connection, several messages                                  */
  /* ---------------------------------------------------------------- */

  /** Two states that behave alike: the buffer matters only through its bytes. */
  predicate Same(p: Parser, q: Parser)
  {
    p.bodyLength == q.bodyLength && p.current == q.current && p.field == q.field
    && MemoryBuffers.Content(p.buf.pool) == MemoryBuffers.Content(q.buf.pool)
  }

  /** A callback treats states that behave alike alike. */
  lemma StepSame(policy: Policy, p: Parser, q: Parser, e: Event)
    requires Inv(p) && Inv(q) && Same(p, q)
    ensures Same(Step(policy, p, e).0, Step(policy, q, e).0)
    ensures Step(policy, p, e).1 == Step(policy, q, e).1 && Step(policy, p, e).2 == Step(policy, q, e).2
  {
  }

  /** Runs from states that behave alike hand the client the same requests. */
  lemma {:induction false} ExecuteSame(policy: Policy, p: Parser, q: Parser, evs: seq<Event>)
    requires Inv(p) && Inv(q) && Same(p, q)
    ensures Same(Execute(policy, p, evs).0, Execute(policy, q, evs).0)
    ensures Execute(policy, p, evs).1 == Execute(policy, q, evs).1
    ensures Execute(policy, p, evs).2 == Execute(policy, q, evs).2
    decreases |evs|
  {
    if evs != [] {
      StepSame(policy, p, q, evs[0]);
      var (p1, c, d) := Step(policy, p, evs[0]);
      var (q1, _, _) := Step(policy, q, evs[0]);
      if c == 0 {
        ExecuteSame(policy, p1, q1, evs[1..]);
      }
    }
  }

  /**
   * Corrected: once a message has completed, the next one is handled
   * exactly as on a new connection. The requests handed over for `first`
   * followed by `second` are those for `first`, then those `second` gives
   * on a fresh parser.
   */
  lemma CorrectedMessagesIndependent(front: seq<Event>, second: seq<Event>)
    requires Execute(Corrected, NewParser(), front).2.None?
    ensures var first := front + [MessageComplete];
      Execute(Corrected, NewParser(), first + second).1 ==
        Execute(Corrected, NewParser(), first).1 + Execute(Corrected, NewParser(), second).1
  {
    var first := front + [MessageComplete];
    var p0 := NewParser();
    ExecuteAppend(Corrected, p0, front, [MessageComplete]);
    assert [MessageComplete][1..] == [];
    var q := Execute(Corrected, p0, first).0;
    assert q == Fresh(FinishCurrentRequest(Execute(Corrected, p0, front).0).0);
    assert Same(q, p0);
    ExecuteAppend(Corrected, p0, first, second);
    ExecuteSame(Corrected, q, p0, second);
  }

  /** A bodiless GET of `url` with one header, "x: `v`". */
  function Message(url: string, v: string): seq<Event>
  {
    [Url(url), HeaderField("x"), HeaderValue(v), HeadersComplete(HttpGet), MessageComplete]
  }

  /** Two requests on one connection, both with header "x": first "1", then "2". */
  function TwoMessages(): seq<Event>
  {
    Message("/a", "1") + Message("/b", "2")
  }

  /**
   * One message of `Message` shape: one request is handed over, its header
   * "x" is the one the state already had or else `v`, and afterwards the
   * as-written state still holds that request while the corrected one is
   * fresh.
   */
  lemma MessageHeaders(policy: Policy, p: Parser, url: string, v: string)
    requires Inv(p) && p.bodyLength == 0 && '?' !in url
    ensures var r := Execute(policy, p, Message(url, v));
      && r.2.None? && |r.1| == 1 && r.0.bodyLength == 0
      && GetHeader(r.1[0], "x") == (if GetHeader(p.current, "x").Some? then GetHeader(p.current, "x") else Some(v))
      && r.1[0].baseURL == url && r.1[0].params == p.current.params
      && (policy.AsWritten? ==> r.0.current == policy.process(r.1[0]))
      && (policy.Corrected? ==> r.0.current == NewRequest())
  {
    HeaderCallbacks(policy, p, url, v);
    var p3 := OnHeaderValue(OnHeaderField(OnURL(p, url).0, "x"), v);
    CompleteCallbacks(policy, p3);
  }

  /** The first three callbacks of `Message`: the URL and header "x" are recorded. */
  lemma HeaderCallbacks(policy: Policy, p: Parser, url: string, v: string)
    requires Inv(p) && p.bodyLength == 0 && '?' !in url
    ensures var p3 := OnHeaderValue(OnHeaderField(OnURL(p, url).0, "x"), v);
      && Inv(p3) && p3.bodyLength == 0
      && GetHeader(p3.current, "x") == (if GetHeader(p.current, "x").Some? then GetHeader(p.current, "x") else Some(v))
      && p3.current.baseURL == url && p3.current.params == p.current.params
      && Execute(policy, p, Message(url, v)) == Execute(policy, p3, [HeadersComplete(HttpGet), MessageComplete])
  {
    OnURLPlain(p, url);
    var p1 := OnURL(p, url).0;
    assert ToLower("x") == "x";
    var p2 := OnHeaderField(p1, "x");
    assert p2.field == "x";
    var d := [HeadersComplete(HttpGet), MessageComplete];
    var c := [HeaderValue(v)] + d;
    var b := [HeaderField("x")] + c;
    assert Message(url, v) == [Url(url)] + b;
    ExecuteQuiet(policy, p, Url(url), b);
    ExecuteQuiet(policy, p1, HeaderField("x"), c);
    ExecuteQuiet(policy, p2, HeaderValue(v), d);
    assert GetHeader(p1.current, "x") == GetHeader(p.current, "x");
  }

  /** A callback that neither stops the run nor hands over a request only moves the state on. */
  lemma ExecuteQuiet(policy: Policy, p: Parser, e: Event, rest: seq<Event>)
    requires Inv(p) && Step(policy, p, e).1 == 0 && Step(policy, p, e).2.None?
    ensures Execute(policy, p, [e] + rest) == Execute(policy, Step(policy, p, e).0, rest)
  {
    ExecuteCons(policy, p, e, rest);
    var t := Execute(policy, Step(policy, p, e).0, rest);
    assert Listed(Step(policy, p, e).2) + t.1 == t.1;
  }

  /** The last two callbacks of `Message`: the request is handed over as it stands. */
  lemma CompleteCallbacks(policy: Policy, q: Parser)
    requires Inv(q) && q.bodyLength == 0
    ensures var r := Execute(policy, q, [HeadersComplete(HttpGet), MessageComplete]);
      && r.2.None? && |r.1| == 1 && r.0.bodyLength == 0
      && GetHeader(r.1[0], "x") == GetHeader(q.current, "x")
      && r.1[0].baseURL == q.current.baseURL && r.1[0].params == q.current.params
      && (policy.AsWritten? ==> r.0.current == policy.process(r.1[0]))
      && (policy.Corrected? ==> r.0.current == NewRequest())
  {
    var q4 := OnHeadersComplete(q, HttpGet);
    var e := [MessageComplete];
    assert [HeadersComplete(HttpGet), MessageComplete] == [HeadersComplete(HttpGet)] + e;
    ExecuteCons(policy, q, HeadersComplete(HttpGet), e);
    assert e == [MessageComplete] + [];
    ExecuteCons(policy, q4, MessageComplete, []);
    assert GetHeader(q4.current, "x") == GetHeader(q.current, "x");
  }

  /**
   * As written, the second request of a connection inherits the first
   * one's state: its header "x" reads "1", the value the first request
   * sent, although it sent "2" itself. Corrected, it reads "2". The client
   * here leaves header "x" alone.
   */
  lemma StaleHeaderExample(process: Request -> Request)
    requires forall q :: GetHeader(process(q), "x") == GetHeader(q, "x")
    ensures |Execute(AsWritten(process), NewParser(), TwoMessages()).1| == 2
    ensures GetHeader(Execute(AsWritten(process), NewParser(), TwoMessages()).1[1], "x") == Some("1")
    ensures |Execute(Corrected, NewParser(), TwoMessages()).1| == 2
    ensures GetHeader(Execute(Corrected, NewParser(), TwoMessages()).1[1], "x") == Some("2")
  {
    var p0 := NewParser();
    assert '?' !in "/a" && '?' !in "/b";
    MessageHeaders(AsWritten(process), p0, "/a", "1");
    var a1 := Execute(AsWritten(process), p0, Message("/a", "1"));
    MessageHeaders(AsWritten(process), a1.0, "/b", "2");
    ExecuteAppend(AsWritten(process), p0, Message("/a", "1"), Message("/b", "2"));
    MessageHeaders(Corrected, p0, "/a", "1");
    var c1 := Execute(Corrected, p0, Message("/a", "1"));
    MessageHeaders(Corrected, c1.0, "/b", "2");
    ExecuteAppend(Corrected, p0, Message("/a", "1"), Message("/b", "2"));
  }

  /**
   * What routing through `use(HTTP_GET, "/p/{a}", …)` does to a request
   * for "/p/" and one segment: `addParam("a", segment)`, which keeps a
   * value `a` already has.
   */
  function BindA(q: Request): Request
  {
    AddParam(q, "a", if |q.baseURL| >= 3 then q.baseURL[3..] else "")
  }

  /**
   * As written, the router's binding outlives its message: after "GET
   * /p/b", the next request on the connection, "GET /p/c", arrives already
   * holding a = "b", and its own binding of "c" is dropped, so the handler
   * sees a = "b".
   */
  lemma StaleParamExample()
    ensures var r := Execute(AsWritten(BindA), NewParser(), Message("/p/b", "1") + Message("/p/c", "1"));
      && |r.1| == 2 && r.1[1].baseURL == "/p/c"
      && GetParam(r.1[1], "a") == Some("b") && GetParam(BindA(r.1[1]), "a") == Some("b")
  {
    var p0 := NewParser();
    var m1 := Message("/p/b", "1");
    var m2 := Message("/p/c", "1");
    assert '?' !in "/p/b" && '?' !in "/p/c";
    MessageHeaders(AsWritten(BindA), p0, "/p/b", "1");
    var a1 := Execute(AsWritten(BindA), p0, m1);
    assert a1.1[0].baseURL[3..] == "b";
    AddParamThenGet(a1.1[0], "a", "b");
    MessageHeaders(AsWritten(BindA), a1.0, "/p/c", "1");
    ExecuteAppend(AsWritten(BindA), p0, m1, m2);
    var a2 := Execute(AsWritten(BindA), a1.0, m2);
    AddParamThenGet(a2.1[0], "a", "c");
  }

  /** Corrected, the second request arrives without parameters and its handler sees a = "c". */
  lemma FreshParamExample()
    ensures var r := Execute(Corrected, NewParser(), Message("/p/b", "1") + Message("/p/c", "1"));
      && |r.1| == 2 && r.1[1].baseURL == "/p/c"
      && GetParam(r.1[1], "a") == None && GetParam(BindA(r.1[1]), "a") == Some("c")
  {
    var p0 := NewParser();
    var m1 := Message("/p/b", "1");
    var m2 := Message("/p/c", "1");
    assert '?' !in "/p/b" && '?' !in "/p/c";
    MessageHeaders(Corrected, p0, "/p/b", "1");
    var c1 := Execute(Corrected, p0, m1);
    MessageHeaders(Corrected, c1.0, "/p/c", "1");
    ExecuteAppend(Corrected, p0, m1, m2);
    var c2 := Execute(Corrected, c1.0, m2);
    assert c2.1[0].baseURL[3..] == "c";
    AddParamThenGet(c2.1[0], "a", "c");
  }
}
