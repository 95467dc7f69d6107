/**
 * `Whs`: the server object that ties the pieces together. It holds a
 * "before" pipeline, a router, an "after" pipeline, a not-found handler and
 * an optional static-file server; `processing_request` runs a request
 * through them and turns an `HttpException` into an error response.
 */
module Dispatch {
  import opened Base
  import opened HeaderNames
  import opened Requests
  import opened Middlewares
  import opened Pipelines
  import Responses
  import RouteTrees
  import RouteBuilders
  import Routers
  import StaticFiles

  /** The members of `Whs` that request handling reads; `systemError` is never called. */
  datatype Whs = Whs(
    before: Pipeline<Ware>,
    route: Option<Routers.Router>,
    after: Pipeline<Ware>,
    notFound: Option<Ware>,
    staticFile: Option<StaticFiles.StaticServer>)

  /** Both pipelines end in their sentinel and a router only names middleware it holds. */
  predicate Ok(s: Whs)
  {
    Valid(s.before) && Valid(s.after) && (s.route.Some? ==> Routers.RouterWired(s.route.value))
  }

  /** After `start`: a router and a not-found handler are always there. */
  predicate Started(s: Whs)
  {
    Ok(s) && s.route.Some? && s.notFound.Some?
  }

  /** `Whs()`: two empty pipelines, nothing else. */
  function NewServer(): (s: Whs)
    ensures Ok(s) && !Started(s)
    ensures Active(s.before.slots) == [] && Active(s.after.slots) == []
    ensures s.route.None? && s.notFound.None? && s.staticFile.None?
  {
    Whs(EmptyPipeline(), None, EmptyPipeline(), None, None)
  }

  /* ---------------------------------------------------------------- */
  /* setup and enable_static_file                                      */
  /* ---------------------------------------------------------------- */

  /**
   * `setup(a, r, b)`: each non-null builder replaces its part; the router
   * is built from `r` (a builder only grows through `use`, so its
   * terminals name its own middleware). A route declaration that does not
   * parse, which the source asserts against, yields no server.
   */
  function Setup(s: Whs, a: Option<PipelineBuilder<Ware>>, r: Option<RouteBuilders.Builder<Ware>>,
                 b: Option<PipelineBuilder<Ware>>, compiles: string -> bool): (t: Option<Whs>)
    requires Ok(s)
    requires r.Some? ==> Routers.BuilderWired(r.value)
    ensures t.None? <==> r.Some? && Routers.NewRouter(r.value, compiles).None?
    ensures t.Some? ==> Ok(t.value)
    ensures t.Some? ==> t.value.notFound == s.notFound && t.value.staticFile == s.staticFile
    ensures t.Some? && a.None? ==> t.value.after == s.after
    ensures t.Some? && b.None? ==> t.value.before == s.before
    ensures t.Some? && r.None? ==> t.value.route == s.route
  {
    var after := if a.Some? then FromBuilder(a.value) else s.after;
    var before := if b.Some? then FromBuilder(b.value) else s.before;
    if r.None? then Some(Whs(before, s.route, after, s.notFound, s.staticFile))
    else
      match Routers.NewRouter(r.value, compiles)
      case None => None
      case Some(router) => Some(Whs(before, Some(router), after, s.notFound, s.staticFile))
  }

  /**
   * What `setup` installs is what runs: the pipelines feed the builders'
   * middleware in the order they were added, and the router is the one
   * built from `r`, holding `r`'s middleware.
   */
  lemma SetupInstalls(s: Whs, a: Option<PipelineBuilder<Ware>>, r: Option<RouteBuilders.Builder<Ware>>,
                      b: Option<PipelineBuilder<Ware>>, compiles: string -> bool)
    requires Ok(s)
    requires r.Some? ==> Routers.BuilderWired(r.value)
    requires a.Some? ==> forall i :: 0 <= i < |a.value.wares| ==> a.value.wares[i].1.Some?
    requires b.Some? ==> forall i :: 0 <= i < |b.value.wares| ==> b.value.wares[i].1.Some?
    ensures var t := Setup(s, a, r, b, compiles);
      t.Some? && a.Some? ==>
        Active(t.value.after.slots) == seq(|a.value.wares|, i requires 0 <= i < |a.value.wares| => a.value.wares[i].1.value)
    ensures var t := Setup(s, a, r, b, compiles);
      t.Some? && b.Some? ==>
        Active(t.value.before.slots) == seq(|b.value.wares|, i requires 0 <= i < |b.value.wares| => b.value.wares[i].1.value)
    ensures var t := Setup(s, a, r, b, compiles);
      t.Some? && r.Some? ==> t.value.route.Some? && t.value.route.value.middles == r.value.middles
  {
    if a.Some? {
      FromBuilderActive(a.value);
    }
    if b.Some? {
      FromBuilderActive(b.value);
    }
  }

  /**
   * `enable_static_file(prefix, local)`: the server remembers a new
   * static-file server; the constructor throws for an empty directory name.
   */
  function EnableStaticFile(s: Whs, prefix: string, local: string): (t: Option<Whs>)
    ensures t.None? <==> local == ""
    ensures t.Some? ==> t.value == s.(staticFile := StaticFiles.NewStaticServer(prefix, local))
    ensures t.Some? ==> t.value.staticFile.Some? && t.value.staticFile.value.prefix == prefix
  {
    match StaticFiles.NewStaticServer(prefix, local)
    case None => None
    case Some(ss) => Some(s.(staticFile := Some(ss)))
  }

  /* ---------------------------------------------------------------- */
  /* The default middleware                                            */
  /* ---------------------------------------------------------------- */

  /**
   * `MergeDefaultCommonHeaders`: Whs and X-Powered-By carry the server
   * name, Cache-Control defaults to "no-store" and Date to the current
   * time; every one of them is added only when absent. It always goes on.
   * The time is the parameter `now`.
   */
  function MergeDefaults(server: string, now: string): Ware
  {
    (q: Request, r: Resp) => Outcome(q, Merged(server, now, r), Continue)
  }

  /** The response `MergeDefaultCommonHeaders` leaves. */
  function Merged(server: string, now: string, r: Resp): (r': Resp)
    ensures r' == r.(headers := r'.headers)
  {
    var r1 := Responses.AddCommonHeader(r, Server, server);
    var r2 := Responses.AddCommonHeader(r1, XPoweredBy, server);
    var r3 := Responses.AddHeaderIfNotExists(r2, CacheControl, "no-store").0;
    Responses.AddCommonHeader(r3, Date, now)
  }

  /** A header's value after an insert-if-absent of `v`. */
  function Defaulted(had: Option<string>, v: string): Option<string>
  {
    if had.Some? then had else Some(v)
  }

  /** One insert-if-absent, read back through `Defaulted`. */
  lemma AddDefaulted(r: Resp, h: CommonHeader, v: string)
    ensures Responses.Get(Responses.AddCommonHeader(r, h, v).headers, MapCommonHeader(h)) ==
      Defaulted(Responses.Get(r.headers, MapCommonHeader(h)), v)
    ensures forall t :: t != MapCommonHeader(h) ==>
      Responses.Get(Responses.AddCommonHeader(r, h, v).headers, t) == Responses.Get(r.headers, t)
  {
    Responses.AddCommonHeaderGet(r, h, v);
  }

  /**
   * The default headers never overwrite: each of Server, X-Powered-By,
   * Cache-Control and Date keeps a value the response already had and
   * otherwise gets the default.
   */
  lemma MergedHeaders(server: string, now: string, resp: Resp)
    ensures var hs := Merged(server, now, resp).headers;
      && Responses.Get(hs, MapCommonHeader(Server)) == Defaulted(Responses.Get(resp.headers, MapCommonHeader(Server)), server)
      && Responses.Get(hs, MapCommonHeader(XPoweredBy)) == Defaulted(Responses.Get(resp.headers, MapCommonHeader(XPoweredBy)), server)
      && Responses.Get(hs, MapCommonHeader(CacheControl)) == Defaulted(Responses.Get(resp.headers, MapCommonHeader(CacheControl)), "no-store")
      && Responses.Get(hs, MapCommonHeader(Date)) == Defaulted(Responses.Get(resp.headers, MapCommonHeader(Date)), now)
  {
    var tS, tX, tC, tD := MapCommonHeader(Server), MapCommonHeader(XPoweredBy), MapCommonHeader(CacheControl), MapCommonHeader(Date);
    MapCommonHeaderInjective(Server, XPoweredBy);
    MapCommonHeaderInjective(Server, CacheControl);
    MapCommonHeaderInjective(Server, Date);
    MapCommonHeaderInjective(XPoweredBy, CacheControl);
    MapCommonHeaderInjective(XPoweredBy, Date);
    MapCommonHeaderInjective(CacheControl, Date);
    var r1 := Responses.AddCommonHeader(resp, Server, server);
    AddDefaulted(resp, Server, server);
    assert Responses.Get(r1.headers, tX) == Responses.Get(resp.headers, tX);
    assert Responses.Get(r1.headers, tC) == Responses.Get(resp.headers, tC);
    assert Responses.Get(r1.headers, tD) == Responses.Get(resp.headers, tD);
    var r2 := Responses.AddCommonHeader(r1, XPoweredBy, server);
    AddDefaulted(r1, XPoweredBy, server);
    assert Responses.Get(r2.headers, tS) == Responses.Get(r1.headers, tS);
    assert Responses.Get(r2.headers, tC) == Responses.Get(r1.headers, tC);
    assert Responses.Get(r2.headers, tD) == Responses.Get(r1.headers, tD);
    var r3 := Responses.AddHeaderIfNotExists(r2, CacheControl, "no-store").0;
    assert Responses.Get(r3.headers, tC) == Defaulted(Responses.Get(r2.headers, tC), "no-store");
    assert Responses.Get(r3.headers, tS) == Responses.Get(r2.headers, tS);
    assert Responses.Get(r3.headers, tX) == Responses.Get(r2.headers, tX);
    assert Responses.Get(r3.headers, tD) == Responses.Get(r2.headers, tD);
    AddDefaulted(r3, Date, now);
  }

  /** Every header other than the four defaults stays as it was. */
  lemma MergedKeepsOthers(server: string, now: string, resp: Resp)
    ensures forall t :: (t != MapCommonHeader(Server) && t != MapCommonHeader(XPoweredBy)
        && t != MapCommonHeader(CacheControl) && t != MapCommonHeader(Date)) ==>
        Responses.Get(Merged(server, now, resp).headers, t) == Responses.Get(resp.headers, t)
  {
    var r1 := Responses.AddCommonHeader(resp, Server, server);
    AddDefaulted(resp, Server, server);
    var r2 := Responses.AddCommonHeader(r1, XPoweredBy, server);
    AddDefaulted(r1, XPoweredBy, server);
    var r3 := Responses.AddHeaderIfNotExists(r2, CacheControl, "no-store").0;
    AddDefaulted(r3, Date, now);
  }

  /** The body of the default 404 answer. */
  function NotFoundText(url: string): string
  {
    "route to " + url + " not found."
  }

  /**
   * `NotFoundHandler`: the body names the URL, the status is 404, the
   * Content-Type is "text/plain" unless one was set; it always goes on.
   */
  function NotFoundHandler(): Ware
  {
    (q: Request, r: Resp) =>
      var text := NotFoundText(q.baseURL);
      var r1 := Responses.SetStatus(Responses.SetBody(r, text, |text|), 404);
      Outcome(q, Responses.AddCommonHeader(r1, ContentType, "text/plain"), Continue)
  }

  /**
   * The default handler answers 404 with the URL in the body, a
   * non-empty Content-Type ("text/plain" on a response without one) and a
   * Content-Length of the body's size unless one was set; the headers
   * `setBody` does not touch stay as they were.
   */
  lemma NotFoundHandlerAnswers(req: Request, resp: Resp)
    ensures var o := NotFoundHandler()(req, resp);
      && o.signal == Continue && o.req == req && o.resp.status == 404
      && o.resp.body == NotFoundText(req.baseURL) && o.resp.bodySize == |NotFoundText(req.baseURL)| % U32
      && Responses.Get(o.resp.headers, MapCommonHeader(ContentType)).Some?
      && Responses.Get(o.resp.headers, MapCommonHeader(ContentType)).value != ""
      && (Responses.Get(resp.headers, MapCommonHeader(ContentType)).None? ==>
            Responses.Get(o.resp.headers, MapCommonHeader(ContentType)) == Some("text/plain"))
      && Responses.Get(o.resp.headers, MapCommonHeader(ContentLength)) ==
           Defaulted(Responses.Get(resp.headers, MapCommonHeader(ContentLength)), Responses.Decimal(|NotFoundText(req.baseURL)|))
    ensures forall t :: (t != Responses.TypeText && t != Responses.LengthText && t != Responses.EncodingText) ==>
      Responses.Get(NotFoundHandler()(req, resp).resp.headers, t) == Responses.Get(resp.headers, t)
  {
    var text := NotFoundText(req.baseURL);
    Responses.SetBodyHeaders(resp, text, |text|);
    var r1 := Responses.SetStatus(Responses.SetBody(resp, text, |text|), 404);
    Responses.AddCommonHeaderGet(r1, ContentType, "text/plain");
    MapCommonHeaderInjective(ContentType, ContentLength);
  }

  /* ---------------------------------------------------------------- */
  /* start                                                             */
  /* ---------------------------------------------------------------- */

  /**
   * `start()`: a missing not-found handler becomes `NotFoundHandler`; the
   * default headers go last in the after pipeline; the static-file server,
   * its directory listed as `files`, goes last in the before pipeline; a
   * missing router becomes the router of an empty builder. `version` is
   * `WHS_VERSION` and `now` the time the default headers carry.
   */
  function Start(s: Whs, version: string, now: string, files: map<string, StaticFiles.FileInfo>,
                 etagLength: nat): (t: Whs)
    requires Ok(s)
    ensures Started(t)
    ensures s.notFound.Some? ==> t.notFound == s.notFound
    ensures s.route.Some? ==> t.route == s.route
    ensures t.staticFile == s.staticFile
  {
    var notFound := if s.notFound.Some? then s.notFound else Some(NotFoundHandler());
    var after := AddMiddleware(s.after, Some(MergeDefaults("whs/" + version, now)));
    var before :=
      if s.staticFile.Some?
      then AddMiddleware(s.before, Some(StaticFiles.AsWare(StaticFiles.Track(s.staticFile.value, files), etagLength)))
      else s.before;
    var route := if s.route.Some? then s.route else Some(Routers.EmptyRouter());
    Whs(before, route, after, notFound, s.staticFile)
  }

  /**
   * What `start` adds runs last: feeding the new after pipeline feeds the
   * old one and then the default headers; feeding the new before pipeline
   * feeds the old one and then the static-file server, if there is one.
   * Missing handler and router take their defaults.
   */
  lemma StartFeeds(s: Whs, version: string, now: string, files: map<string, StaticFiles.FileInfo>,
                   etagLength: nat, req: Request, resp: Resp)
    requires Ok(s)
    ensures var t := Start(s, version, now, files, etagLength);
      Feed(t.after, req, resp) ==
        var o := Feed(s.after, req, resp);
        if o.signal == Continue then MergeDefaults("whs/" + version, now)(o.req, o.resp) else o
    ensures var t := Start(s, version, now, files, etagLength);
      s.staticFile.Some? ==>
        Feed(t.before, req, resp) ==
          var o := Feed(s.before, req, resp);
          if o.signal == Continue
          then StaticFiles.Serve(StaticFiles.Track(s.staticFile.value, files), etagLength, o.req, o.resp)
          else o
    ensures var t := Start(s, version, now, files, etagLength);
      s.staticFile.None? ==> t.before == s.before
    ensures var t := Start(s, version, now, files, etagLength);
      (s.notFound.None? ==> t.notFound == Some(NotFoundHandler()))
      && (s.route.None? ==> t.route == Some(Routers.EmptyRouter()))
  {
    FeedAfterAdd(s.after, MergeDefaults("whs/" + version, now), req, resp);
    if s.staticFile.Some? {
      FeedAfterAdd(s.before, StaticFiles.AsWare(StaticFiles.Track(s.staticFile.value, files), etagLength), req, resp);
    }
  }

  /* ---------------------------------------------------------------- */
  /* processing_request                                                */
  /* ---------------------------------------------------------------- */

  /**
   * How a request leaves `processing_request`: with the request and
   * response as the stages left them, or by an exception that is not an
   * `HttpException`, which nothing here catches.
   */
  datatype Reply = Handled(req: Request, resp: Resp) | Escaped

  /**
   * The outer `catch`: an `HttpException` becomes the response's body and
   * status; any other exception escapes; otherwise the state stands.
   */
  function Settle(o: Outcome, methodName: int -> string): (r: Reply)
    ensures o.signal.Fault? <==> r.Escaped?
    ensures o.signal.Raise? ==> r == Handled(o.req, ErrorResponse(o.signal.ex, methodName, o.resp))
    ensures (o.signal == Continue || o.signal == Stop) ==> r == Handled(o.req, o.resp)
  {
    match o.signal
    case Fault => Escaped
    case Raise(ex) => Handled(o.req, ErrorResponse(ex, methodName, o.resp))
    case _ => Handled(o.req, o.resp)
  }

  /**
   * The inner `try`: the router runs; a `NotFoundException` from it, the
   * router's own or one thrown further in, hands the request to the
   * not-found handler.
   */
  function RouteStage(s: Whs, req: Request, resp: Resp, accepts: RouteTrees.Accepts): Outcome
    requires Started(s)
  {
    var o := Routers.Route(s.route.value, req, resp, accepts);
    if o.signal.Raise? && o.signal.ex.NotFoundEx? then s.notFound.value(o.req, o.resp) else o
  }

  /** An outcome that leaves through the outer `catch` (or past it). */
  predicate Thrown(o: Outcome)
  {
    o.signal.Raise? || o.signal.Fault?
  }

  /**
   * `processing_request`: the before pipeline runs; if it went through,
   * the router runs (with the not-found handler behind it); the after
   * pipeline runs whether or not the before pipeline stopped, and whatever
   * the handlers returned. An exception skips what is left.
   */
  function ProcessRequest(s: Whs, req: Request, resp: Resp, accepts: RouteTrees.Accepts,
                          methodName: int -> string): Reply
    requires Started(s)
  {
    var b := Feed(s.before, req, resp);
    if Thrown(b) then Settle(b, methodName)
    else
      var m := if b.signal == Continue then RouteStage(s, b.req, b.resp, accepts) else b;
      if Thrown(m) then Settle(m, methodName)
      else Settle(Feed(s.after, m.req, m.resp), methodName)
  }

  /**
   * A before pipeline that stops skips the router, but not the after
   * pipeline: the request still goes through it.
   */
  lemma BeforeStopSkipsRoute(s: Whs, req: Request, resp: Resp, accepts: RouteTrees.Accepts,
                             methodName: int -> string)
    requires Started(s)
    requires Feed(s.before, req, resp).signal == Stop
    ensures var b := Feed(s.before, req, resp);
      ProcessRequest(s, req, resp, accepts, methodName) == Settle(Feed(s.after, b.req, b.resp), methodName)
  {
  }

  /**
   * An `HttpException` in the before pipeline skips everything else: the
   * reply carries its status and its message as the body.
   */
  lemma BeforeRaiseAnswers(s: Whs, req: Request, resp: Resp, accepts: RouteTrees.Accepts,
                           methodName: int -> string)
    requires Started(s)
    requires Feed(s.before, req, resp).signal.Raise?
    ensures var b := Feed(s.before, req, resp);
      var r := ProcessRequest(s, req, resp, accepts, methodName);
      && r.Handled? && r.req == b.req
      && r.resp.status == StatusOf(b.signal.ex)
      && r.resp.body == BuildResponse(b.signal.ex, methodName).0
  {
  }

  /**
   * A URL no route matches goes to the not-found handler with the
   * request and response the before pipeline left; what the handler
   * returns does not matter, the after pipeline runs next.
   */
  lemma MissGoesToNotFound(s: Whs, req: Request, resp: Resp, accepts: RouteTrees.Accepts,
                           methodName: int -> string)
    requires Started(s)
    requires Feed(s.before, req, resp).signal == Continue
    requires var b := Feed(s.before, req, resp);
      RouteTrees.GetRoute(s.route.value.start, b.req.baseURL, b.req.verb, accepts).None?
    ensures var b := Feed(s.before, req, resp);
      var h := s.notFound.value(b.req, b.resp);
      ProcessRequest(s, req, resp, accepts, methodName) ==
        if Thrown(h) then Settle(h, methodName) else Settle(Feed(s.after, h.req, h.resp), methodName)
  {
    var b := Feed(s.before, req, resp);
    Routers.RouteCases(s.route.value, b.req, b.resp, accepts);
  }

  /**
   * A matched handler that returns, whether it said "go on" or "stop",
   * leads to the after pipeline with the state the handler left.
   */
  lemma HitRunsAfter(s: Whs, req: Request, resp: Resp, accepts: RouteTrees.Accepts,
                     methodName: int -> string)
    requires Started(s)
    requires Feed(s.before, req, resp).signal == Continue
    requires var b := Feed(s.before, req, resp);
      var o := Routers.Route(s.route.value, b.req, b.resp, accepts);
      o.signal == Continue || o.signal == Stop
    ensures var b := Feed(s.before, req, resp);
      var o := Routers.Route(s.route.value, b.req, b.resp, accepts);
      ProcessRequest(s, req, resp, accepts, methodName) == Settle(Feed(s.after, o.req, o.resp), methodName)
  {
  }

  /** A fresh server, started: the empty router misses, the default handler answers, the defaults merge. */
  lemma DefaultServerReply(version: string, now: string, etagLength: nat, req: Request, resp: Resp,
                           accepts: RouteTrees.Accepts, methodName: int -> string)
    ensures var s := Start(NewServer(), version, now, map[], etagLength);
      ProcessRequest(s, req, resp, accepts, methodName) ==
        Handled(req, Merged("whs/" + version, now, NotFoundHandler()(req, resp).resp))
  {
    var s := Start(NewServer(), version, now, map[], etagLength);
    var h := NotFoundHandler()(req, resp);
    FreshStart(version, now, etagLength, req, resp, h.req, h.resp);
    FreshReply(s, "whs/" + version, now, req, resp, accepts, methodName);
  }

  /** The reply of a started server shaped like a fresh one. */
  lemma FreshReply(s: Whs, server: string, now: string, req: Request, resp: Resp,
                   accepts: RouteTrees.Accepts, methodName: int -> string)
    requires Started(s)
    requires s.route == Some(Routers.EmptyRouter()) && s.notFound == Some(NotFoundHandler())
    requires Feed(s.before, req, resp) == Outcome(req, resp, Continue)
    requires var h := NotFoundHandler()(req, resp);
      Feed(s.after, h.req, h.resp) == MergeDefaults(server, now)(h.req, h.resp)
    ensures ProcessRequest(s, req, resp, accepts, methodName) ==
      Handled(req, Merged(server, now, NotFoundHandler()(req, resp).resp))
  {
    Routers.EmptyRouterNotFound(req, resp, accepts);
    assert RouteStage(s, req, resp, accepts) == NotFoundHandler()(req, resp);
  }

  /** What a fresh server is once started: empty router, default handler, an empty before pipeline and the defaults after. */
  lemma FreshStart(version: string, now: string, etagLength: nat, req: Request, resp: Resp, q: Request, r: Resp)
    ensures var s := Start(NewServer(), version, now, map[], etagLength);
      && s.route == Some(Routers.EmptyRouter()) && s.notFound == Some(NotFoundHandler())
      && Feed(s.before, req, resp) == Outcome(req, resp, Continue)
      && Feed(s.after, q, r) == MergeDefaults("whs/" + version, now)(q, r)
  {
    var s0 := NewServer();
    var s := Start(s0, version, now, map[], etagLength);
    assert s.before == s0.before;
    assert Feed(s.before, req, resp) == Outcome(req, resp, Continue);
    StartFeeds(s0, version, now, map[], etagLength, q, r);
    assert Feed(s0.after, q, r) == Outcome(q, r, Continue);
  }

  /**
   * A fresh server, started, answers every request with the default 404:
   * status 404, the URL in the body, "text/plain" when no Content-Type
   * was set, and the server name in the Server header when none was set.
   */
  lemma DefaultServerAnswers404(version: string, now: string, etagLength: nat, req: Request, resp: Resp,
                                accepts: RouteTrees.Accepts, methodName: int -> string)
    ensures var s := Start(NewServer(), version, now, map[], etagLength);
      var r := ProcessRequest(s, req, resp, accepts, methodName);
      && r.Handled? && r.req == req && r.resp.status == 404
      && r.resp.body == NotFoundText(req.baseURL)
      && (Responses.Get(resp.headers, MapCommonHeader(ContentType)).None? ==>
            Responses.Get(r.resp.headers, MapCommonHeader(ContentType)) == Some("text/plain"))
      && (Responses.Get(resp.headers, MapCommonHeader(Server)).None? ==>
            Responses.Get(r.resp.headers, MapCommonHeader(Server)) == Some("whs/" + version))
  {
    DefaultServerReply(version, now, etagLength, req, resp, accepts, methodName);
    var h := NotFoundHandler()(req, resp);
    var m := Merged("whs/" + version, now, h.resp);
    var tT, tS := MapCommonHeader(ContentType), MapCommonHeader(Server);
    NotFoundHandlerAnswers(req, resp);
    assert m.status == 404 && m.body == NotFoundText(req.baseURL);
    MergedHeaders("whs/" + version, now, h.resp);
    MergedKeepsOthers("whs/" + version, now, h.resp);
    MapCommonHeaderInjective(ContentType, Server);
    MapCommonHeaderInjective(ContentType, XPoweredBy);
    MapCommonHeaderInjective(ContentType, CacheControl);
    MapCommonHeaderInjective(ContentType, Date);
    assert Responses.Get(m.headers, tT) == Responses.Get(h.resp.headers, tT);
    MapCommonHeaderInjective(ContentLength, Server);
    MapCommonHeaderInjective(ContentEncoding, Server);
    assert Responses.Get(h.resp.headers, tS) == Responses.Get(resp.headers, tS);
  }
}
