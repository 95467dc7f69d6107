/**
 * `whs::RestfulHttpRequest`: the parsed request a middleware sees. The three
 * lazily created maps (cookies, route parameters, URL queries) are `None`
 * until their first insertion, as the source's null pointers are.
 */
module Requests {
  import opened Base
  import HeaderNames

  /** The `http_method` codes the model refers to by name. */
  const HttpDelete: int := 0
  const HttpGet: int := 1
  const HttpHead: int := 2
  const HttpPost: int := 3

  /** `verb` is the `http_method` code the parser reports (`_method`). */
  datatype Request = Request(
    cookies: Option<StrMap>,
    params: Option<StrMap>,
    queries: Option<StrMap>,
    body: Option<seq<char>>,
    baseURL: string,
    verb: int,
    bodySize: nat,
    headers: StrMap)

  /** The default constructor: no maps, no body, method and size zero. */
  function NewRequest(): (r: Request)
    ensures r.params == None && r.queries == None && r.body == None
    ensures r.headers == map[] && r.baseURL == "" && r.verb == 0 && r.bodySize == 0
  {
    Request(None, None, None, None, "", 0, 0, map[])
  }

  /** Looks a key up in a map that may not exist yet. */
  function Find(m: Option<StrMap>, key: string): (r: Option<string>)
    ensures r.Some? <==> m.Some? && key in m.value
    ensures r.Some? ==> r.value == m.value[key]
  {
    if m.Some? && key in m.value then Some(m.value[key]) else None
  }

  /** Size of a map that may not exist yet (zero when it does not). */
  function Count(m: Option<StrMap>): (n: nat)
    ensures m == None ==> n == 0
    ensures m.Some? ==> n == |m.value|
  {
    if m.Some? then |m.value| else 0
  }

  /** Creates the map on first use, then inserts if the key is absent. */
  function EmplaceInto(m: Option<StrMap>, key: string, value: string): (r: Option<StrMap>)
    ensures r.Some? && key in r.value
    ensures Find(m, key).Some? ==> r == m
    ensures Find(m, key).None? ==> r.value[key] == value && Count(r) == Count(m) + 1
    ensures forall k :: k != key ==> Find(r, k) == Find(m, k)
  {
    var base := if m.Some? then m.value else map[];
    Some(Emplace(base, key, value))
  }

  /** `getQuery`: the value of a URL query, if there is one. */
  function GetQuery(req: Request, name: string): Option<string>
  {
    Find(req.queries, name)
  }

  /** `getQuery(CommonHeader, …)`: a query looked up under a header's text. */
  function GetQueryByHeader(req: Request, h: HeaderNames.CommonHeader): (r: Option<string>)
    ensures r == GetQuery(req, HeaderNames.MapCommonHeader(h))
  {
    GetQuery(req, HeaderNames.MapCommonHeader(h))
  }

  function GetQueryCount(req: Request): nat
  {
    Count(req.queries)
  }

  /** `emplaceQuery`: the first value given for a query name is kept. */
  function EmplaceQuery(req: Request, key: string, value: string): (r: Request)
    ensures r == req.(queries := r.queries)
  {
    req.(queries := EmplaceInto(req.queries, key, value))
  }

  /** `getParamsCount`. */
  function GetParamsCount(req: Request): nat
  {
    Count(req.params)
  }

  /** `getParam`. */
  function GetParam(req: Request, name: string): Option<string>
  {
    Find(req.params, name)
  }

  /** `addParam`: the first value bound to a parameter name is kept. */
  function AddParam(req: Request, name: string, value: string): (r: Request)
    ensures r == req.(params := r.params)
  {
    req.(params := EmplaceInto(req.params, name, value))
  }

  /** `removeParam`: the source asserts the parameter map exists. */
  function RemoveParam(req: Request, name: string): (r: Request)
    requires req.params.Some?
    ensures r == req.(params := r.params) && r.params.Some?
    ensures GetParam(r, name) == None
    ensures forall k :: k != name ==> GetParam(r, k) == GetParam(req, k)
  {
    req.(params := Some(req.params.value - {name}))
  }

  /** `getHeader`: request headers are stored under their lower-cased field. */
  function GetHeader(req: Request, field: string): (r: Option<string>)
    ensures r.Some? <==> field in req.headers
  {
    if field in req.headers then Some(req.headers[field]) else None
  }

  function GetHeaderCount(req: Request): nat
  {
    |req.headers|
  }

  /** `emplaceHeader`: a repeated header keeps its first value. */
  function EmplaceHeader(req: Request, field: string, value: string): (r: Request)
    ensures r == req.(headers := r.headers)
  {
    req.(headers := Emplace(req.headers, field, value))
  }

  /** `setBody`: the size is stored in an `unsigned int`, so it wraps at 2^32. */
  function SetBody(req: Request, buf: seq<char>, size: nat): (r: Request)
    ensures r.bodySize < U32 && r.bodySize % U32 == size % U32
    ensures size < U32 ==> r.bodySize == size
    ensures r == req.(body := Some(buf), bodySize := r.bodySize)
  {
    req.(body := Some(buf), bodySize := size % U32)
  }

  function SetBaseURL(req: Request, url: string): (r: Request)
    ensures r.baseURL == url && r == req.(baseURL := url)
  {
    req.(baseURL := url)
  }

  function SetMethod(req: Request, m: int): (r: Request)
    ensures r.verb == m && r == req.(verb := m)
  {
    req.(verb := m)
  }

  /**
   * `swap`: exchanges maps, method, body, headers and base URL; the body
   * size is not part of the exchange.
   */
  function Swap(a: Request, b: Request): (r: (Request, Request))
    ensures r.0.bodySize == a.bodySize && r.1.bodySize == b.bodySize
    ensures r.0 == b.(bodySize := a.bodySize) && r.1 == a.(bodySize := b.bodySize)
  {
    (Request(b.cookies, b.params, b.queries, b.body, b.baseURL, b.verb, a.bodySize, b.headers),
     Request(a.cookies, a.params, a.queries, a.body, a.baseURL, a.verb, b.bodySize, a.headers))
  }

  /** Swapping twice restores both requests. */
  lemma SwapInvolution(a: Request, b: Request)
    ensures Swap(Swap(a, b).0, Swap(a, b).1) == (a, b)
  {
  }

  /** A query reads back what the first insertion of its name stored; others are unaffected. */
  lemma EmplaceQueryThenGet(req: Request, key: string, value: string, other: string)
    requires other != key
    ensures GetQuery(req, key).None? ==> GetQuery(EmplaceQuery(req, key, value), key) == Some(value)
    ensures GetQuery(req, key).Some? ==> GetQuery(EmplaceQuery(req, key, value), key) == GetQuery(req, key)
    ensures GetQuery(EmplaceQuery(req, key, value), other) == GetQuery(req, other)
    ensures GetQueryCount(EmplaceQuery(req, key, value)) ==
      GetQueryCount(req) + (if GetQuery(req, key).None? then 1 else 0)
  {
  }

  /** The same for route parameters, and removal undoes a fresh binding. */
  lemma AddParamThenGet(req: Request, name: string, value: string)
    ensures GetParam(req, name).None? ==> GetParam(AddParam(req, name, value), name) == Some(value)
    ensures GetParam(req, name).Some? ==> GetParam(AddParam(req, name, value), name) == GetParam(req, name)
    ensures GetParamsCount(AddParam(req, name, value)) ==
      GetParamsCount(req) + (if GetParam(req, name).None? then 1 else 0)
    ensures GetParam(req, name).None? && req.params.Some? ==>
      RemoveParam(AddParam(req, name, value), name).params == req.params
  {
    if GetParam(req, name).None? && req.params.Some? {
      var m := req.params.value;
      assert m[name := value] - {name} == m;
    }
  }
}
