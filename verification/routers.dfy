/**
 * `HttpRouter`: the runtime tree an `HttpRouteBuilder` builds, together with
 * the middleware list the builder created, and the router's call operator,
 * which looks the request's base URL up and calls the handler found or
 * throws `NotFoundException`.
 *
 * Handlers are indices into `middles`. The first half of the module proves
 * that every index a lookup can return is in range, from `use` through
 * `build` to `getRoute`, so the call never needs a bounds check.
 */
module Routers {
  import opened Base
  import opened Requests
  import opened Middlewares
  import RouteTrees
  import RouteBuilders
  import UrlUtils

  /* ---------------------------------------------------------------- */
  /* Handlers stay in range                                            */
  /* ---------------------------------------------------------------- */

  /** Every end node at or below `n` names a handler below `m`. */
  predicate EndsBelow(n: RouteBuilders.TreeNode, m: nat)
    decreases n
  {
    (n.End? ==> n.handler < m) && forall i :: 0 <= i < |n.children| ==> EndsBelow(n.children[i], m)
  }

  predicate AllEndsBelow(cs: seq<RouteBuilders.TreeNode>, m: nat)
  {
    forall i :: 0 <= i < |cs| ==> EndsBelow(cs[i], m)
  }

  lemma {:induction false} EndsBelowGrows(n: RouteBuilders.TreeNode, m: nat, m': nat)
    requires EndsBelow(n, m) && m <= m'
    ensures EndsBelow(n, m')
    decreases n
  {
    forall i | 0 <= i < |n.children| ensures EndsBelow(n.children[i], m') {
      EndsBelowGrows(n.children[i], m, m');
    }
  }

  /** An insertion with a handler in range keeps every handler in range. */
  lemma {:induction false} InsertKeepsBelow(p: RouteBuilders.Policy, cs: seq<RouteBuilders.TreeNode>,
                                             segs: seq<string>, verb: int, h: nat, m: nat)
    requires AllEndsBelow(cs, m) && h < m
    ensures AllEndsBelow(RouteBuilders.Insert(p, cs, segs, verb, h), m)
    decreases |segs|
  {
    var r := RouteBuilders.Insert(p, cs, segs, verb, h);
    if segs == [] {
      assert EndsBelow(RouteBuilders.End(verb, h, []), m);
    } else {
      var k := RouteBuilders.FirstSame(p, cs, segs[0]);
      if k < |cs| {
        var kids := RouteBuilders.Insert(p, cs[k].children, segs[1..], verb, h);
        InsertKeepsBelow(p, cs[k].children, segs[1..], verb, h, m);
        assert r == cs[k := cs[k].(children := kids)];
        assert EndsBelow(r[k], m);
      } else {
        var kids := RouteBuilders.Insert(p, [], segs[1..], verb, h);
        InsertKeepsBelow(p, [], segs[1..], verb, h, m);
        assert r == cs + [RouteBuilders.Segment(segs[0], kids)];
        assert EndsBelow(RouteBuilders.Segment(segs[0], kids), m);
      }
    }
  }

  /** The builder invariant: every end node names one of the middleware created so far. */
  predicate BuilderWired<W>(b: RouteBuilders.Builder<W>)
  {
    AllEndsBelow(b.children, |b.middles|)
  }

  lemma NewBuilderWired<W>()
    ensures BuilderWired(RouteBuilders.NewBuilder<W>())
  {
  }

  /** `use` keeps the builder wired: the new end node names the middleware it appends. */
  lemma UseKeepsWired<W>(p: RouteBuilders.Policy, b: RouteBuilders.Builder<W>, verb: int, path: string, w: W)
    requires BuilderWired(b)
    ensures BuilderWired(RouteBuilders.Use(p, b, verb, path, w))
  {
    var m := |b.middles| + 1;
    forall i | 0 <= i < |b.children| ensures EndsBelow(b.children[i], m) {
      EndsBelowGrows(b.children[i], |b.middles|, m);
    }
    InsertKeepsBelow(p, b.children, UrlUtils.SplitURL(path), verb, |b.middles|, m);
  }

  /** Any sequence of `use` calls from a fresh builder leaves it wired. */
  lemma {:induction false} UseAllWired<W>(p: RouteBuilders.Policy, b: RouteBuilders.Builder<W>, regs: seq<RouteBuilders.Registration<W>>)
    requires BuilderWired(b)
    ensures BuilderWired(RouteBuilders.UseAll(p, b, regs))
    decreases |regs|
  {
    if regs != [] {
      UseKeepsWired(p, b, regs[0].verb, regs[0].path, regs[0].ware);
      UseAllWired(p, RouteBuilders.Use(p, b, regs[0].verb, regs[0].path, regs[0].ware), regs[1..]);
    }
  }

  /** Every terminal at or below `n` names a handler below `m`. */
  predicate TermsBelow(n: RouteTrees.RouteNode, m: nat)
    decreases n
  {
    (n.Terminal? ==> n.handler < m) && forall i :: 0 <= i < |n.children| ==> TermsBelow(n.children[i], m)
  }

  /** `buildTreeNode` copies handlers, so the bound carries over to the runtime tree. */
  lemma {:induction false} BuildKeepsBelow(c: RouteBuilders.TreeNode, compiles: string -> bool, m: nat)
    requires EndsBelow(c, m) && RouteBuilders.BuildNode(c, compiles).Some?
    ensures TermsBelow(RouteBuilders.BuildNode(c, compiles).value, m)
    decreases c
  {
    var r := RouteBuilders.BuildNode(c, compiles).value;
    forall i | 0 <= i < |r.children| ensures TermsBelow(r.children[i], m) {
      BuildKeepsBelow(c.children[i], compiles, m);
    }
  }

  /** The same for a forest: the built nodes keep the bound of the nodes they come from. */
  lemma BuildAllBelow(cs: seq<RouteBuilders.TreeNode>, rs: seq<RouteTrees.RouteNode>, compiles: string -> bool, m: nat)
    requires RouteBuilders.BuildNodes(cs, compiles) == Some(rs)
    ensures AllEndsBelow(cs, m) ==> forall i :: 0 <= i < |rs| ==> TermsBelow(rs[i], m)
  {
    if AllEndsBelow(cs, m) {
      forall i | 0 <= i < |rs| ensures TermsBelow(rs[i], m) {
        BuildKeepsBelow(cs[i], compiles, m);
      }
    }
  }

  /** A node's lookup only ever returns a handler some terminal below it names. */
  lemma {:induction false} MatchBelow(n: RouteTrees.RouteNode, url: string, pos: nat, verb: int,
                                       accepts: RouteTrees.Accepts, m: nat)
    requires TermsBelow(n, m) && RouteTrees.Match(n, url, pos, verb, accepts).Some?
    ensures RouteTrees.Match(n, url, pos, verb, accepts).value.handler < m
    decreases n, 1
  {
    match n
    case Literal(t, cs) =>
      MatchChildrenBelow(cs, url, pos + |CStr(t)| + 1, verb, accepts, m);
    case Param(_, _, cs) =>
      MatchChildrenBelow(cs, url, RouteTrees.SegEnd(url, pos) + 1, verb, accepts, m);
    case Terminal(_, _, _) =>
  }

  lemma {:induction false} MatchChildrenBelow(cs: seq<RouteTrees.RouteNode>, url: string, pos: nat, verb: int,
                                               accepts: RouteTrees.Accepts, m: nat)
    requires forall i :: 0 <= i < |cs| ==> TermsBelow(cs[i], m)
    requires RouteTrees.MatchChildren(cs, url, pos, verb, accepts).Some?
    ensures RouteTrees.MatchChildren(cs, url, pos, verb, accepts).value.handler < m
    decreases cs, 0
  {
    if RouteTrees.Match(cs[0], url, pos, verb, accepts).Some? {
      MatchBelow(cs[0], url, pos, verb, accepts, m);
    } else {
      MatchChildrenBelow(cs[1..], url, pos, verb, accepts, m);
    }
  }

  /* ---------------------------------------------------------------- */
  /* The router                                                        */
  /* ---------------------------------------------------------------- */

  /** `start` is the built root; `middles` the middleware taken over from the builder. */
  datatype Router = Router(start: RouteTrees.RootNode, middles: seq<Ware>)

  /** Every terminal of the tree names a middleware the router holds. */
  predicate RouterWired(r: Router)
  {
    forall i :: 0 <= i < |r.start.children| ==> TermsBelow(r.start.children[i], |r.middles|)
  }

  /**
   * `HttpRouter(HttpRouteBuilder&&)`: builds the tree and takes the
   * builder's middleware. The source asserts that every parameter
   * declaration parses; here a failing one yields no router.
   */
  function NewRouter(b: RouteBuilders.Builder<Ware>, compiles: string -> bool): (r: Option<Router>)
    ensures r.Some? <==> forall i :: 0 <= i < |b.children| ==> RouteBuilders.Parses(b.children[i], compiles)
    ensures r.Some? ==> r.value.middles == b.middles && r.value.start.prefix == b.prefix
    ensures r.Some? && BuilderWired(b) ==> RouterWired(r.value)
  {
    match RouteBuilders.Build(b, compiles)
    case None => None
    case Some(root) =>
      BuildAllBelow(b.children, root.children, compiles, |b.middles|);
      Some(Router(root, b.middles))
  }

  /** The router `whs` makes when none was set up: the one built from a fresh builder. */
  function EmptyRouter(): (r: Router)
    ensures RouterWired(r) && r.middles == [] && r.start.children == []
  {
    Router(RouteTrees.RootNode("", []), [])
  }

  lemma EmptyRouterIsBuilt(compiles: string -> bool)
    ensures NewRouter(RouteBuilders.NewBuilder(), compiles) == Some(EmptyRouter())
  {
  }

  /** The exception `operator()` throws when no route matches. */
  function NotFound(req: Request): (ex: HttpException)
    ensures ex.NotFoundEx? && StatusOf(ex) == 404
    ensures ex.verb == req.verb && ex.url == req.baseURL
  {
    NotFoundEx(req.verb, req.baseURL)
  }

  /**
   * `HttpRouter::operator()`: looks the base URL up from the root; on a
   * hit the parameters bound on the way are added to the request and the
   * handler runs; otherwise `NotFoundException` is thrown with the request
   * and response untouched.
   */
  function Route(r: Router, req: Request, resp: Resp, accepts: RouteTrees.Accepts): (o: Outcome)
    requires RouterWired(r)
  {
    match RouteTrees.GetRoute(r.start, req.baseURL, req.verb, accepts)
    case None => Outcome(req, resp, Raise(NotFound(req)))
    case Some(hit) =>
      GetRouteBelow(r, req.baseURL, req.verb, accepts);
      r.middles[hit.handler](RouteTrees.Bind(req, hit.bindings), resp)
  }

  /** A lookup on a wired router returns a handler the router holds. */
  lemma GetRouteBelow(r: Router, url: string, verb: int, accepts: RouteTrees.Accepts)
    requires RouterWired(r)
    ensures RouteTrees.GetRoute(r.start, url, verb, accepts).Some? ==>
      RouteTrees.GetRoute(r.start, url, verb, accepts).value.handler < |r.middles|
  {
    var p := CStr(r.start.prefix);
    if RouteTrees.GetRoute(r.start, url, verb, accepts).Some? {
      MatchChildrenBelow(r.start.children, url, |p| + 1, verb, accepts, |r.middles|);
    }
  }

  /**
   * The two ways out of the router: a miss raises a 404 carrying the
   * method and URL and leaves request and response as they were; a hit
   * hands the handler the request with the route's parameters added
   * (nothing else about the request changes) and the response unchanged.
   */
  lemma RouteCases(r: Router, req: Request, resp: Resp, accepts: RouteTrees.Accepts)
    requires RouterWired(r)
    ensures var o := Route(r, req, resp, accepts);
      RouteTrees.GetRoute(r.start, req.baseURL, req.verb, accepts).None? ==>
        o.req == req && o.resp == resp && o.signal.Raise? && o.signal.ex.NotFoundEx?
        && StatusOf(o.signal.ex) == 404 && o.signal.ex.url == req.baseURL && o.signal.ex.verb == req.verb
    ensures var o := Route(r, req, resp, accepts);
      RouteTrees.GetRoute(r.start, req.baseURL, req.verb, accepts).Some? ==>
        var hit := RouteTrees.GetRoute(r.start, req.baseURL, req.verb, accepts).value;
        hit.handler < |r.middles| &&
        exists q: Request :: q == req.(params := q.params) && o == r.middles[hit.handler](q, resp)
  {
    GetRouteBelow(r, req.baseURL, req.verb, accepts);
    var found := RouteTrees.GetRoute(r.start, req.baseURL, req.verb, accepts);
    if found.Some? {
      var q := RouteTrees.Bind(req, found.value.bindings);
      assert q == req.(params := q.params);
    }
  }

  /** The router of a fresh builder serves nothing: every request is a 404. */
  lemma EmptyRouterNotFound(req: Request, resp: Resp, accepts: RouteTrees.Accepts)
    ensures Route(EmptyRouter(), req, resp, accepts) == Outcome(req, resp, Raise(NotFoundEx(req.verb, req.baseURL)))
  {
  }

  /**
   * A router holding only GET "/a": GET "/a" reaches the registered
   * middleware with the request as it came, GET "/b" raises a 404.
   */
  lemma RouteADispatch(w: Ware, req: Request, resp: Resp, compiles: string -> bool, accepts: RouteTrees.Accepts)
    requires req.verb == HttpGet
    ensures var b := RouteBuilders.Use(RouteBuilders.AsWritten, RouteBuilders.NewBuilder(), HttpGet, "/a", w);
      && NewRouter(b, compiles).Some?
      && RouterWired(NewRouter(b, compiles).value)
      && Route(NewRouter(b, compiles).value, req.(baseURL := "/a"), resp, accepts) == w(req.(baseURL := "/a"), resp)
      && Route(NewRouter(b, compiles).value, req.(baseURL := "/b"), resp, accepts).signal == Raise(NotFoundEx(HttpGet, "/b"))
  {
    var b := RouteBuilders.Use(RouteBuilders.AsWritten, RouteBuilders.NewBuilder(), HttpGet, "/a", w);
    UrlUtils.SplitURLOfJoin(["a"]);
    assert "/" + UrlUtils.Join(["a"]) == "/a";
    RouteABuilt(w, compiles);
    var root := RouteTrees.RootNode("", [RouteTrees.Literal("a", [RouteTrees.Terminal(HttpGet, 0, [])])]);
    assert RouteBuilders.Build(b, compiles) == Some(root);
    UseKeepsWired(RouteBuilders.AsWritten, RouteBuilders.NewBuilder<Ware>(), HttpGet, "/a", w);
    assert b.middles == [w];
    assert NewRouter(b, compiles) == Some(Router(root, [w]));
    RouteALookups(accepts);
    assert RouteTrees.Bind(req.(baseURL := "/a"), []) == req.(baseURL := "/a");
  }

  /** The builder and built tree for GET "/a". */
  lemma RouteABuilt(w: Ware, compiles: string -> bool)
    requires UrlUtils.SplitURL("/a") == ["a"]
    ensures RouteBuilders.Use(RouteBuilders.AsWritten, RouteBuilders.NewBuilder(), HttpGet, "/a", w).children ==
      [RouteBuilders.Segment("a", [RouteBuilders.End(HttpGet, 0, [])])]
    ensures RouteBuilders.BuildNodes([RouteBuilders.Segment("a", [RouteBuilders.End(HttpGet, 0, [])])], compiles) ==
      Some([RouteTrees.Literal("a", [RouteTrees.Terminal(HttpGet, 0, [])])])
  {
    var e := RouteBuilders.End(HttpGet, 0, []);
    assert ["a"][1..] == [];
    assert RouteBuilders.Insert(RouteBuilders.AsWritten, [], [], HttpGet, 0) == [e];
    assert RouteBuilders.BuildNodes([], compiles) == Some([]);
    assert RouteBuilders.BuildNode(e, compiles) == Some(RouteTrees.Terminal(HttpGet, 0, []));
    RouteBuilders.BuildNodesOf([e], [RouteTrees.Terminal(HttpGet, 0, [])], compiles);
    assert !UrlUtils.IsParam("a") by { UrlUtils.IsParamIff("a"); }
    assert RouteBuilders.BuildNode(RouteBuilders.Segment("a", [e]), compiles) ==
      Some(RouteTrees.Literal("a", [RouteTrees.Terminal(HttpGet, 0, [])]));
    RouteBuilders.BuildNodesOf([RouteBuilders.Segment("a", [e])], [RouteTrees.Literal("a", [RouteTrees.Terminal(HttpGet, 0, [])])], compiles);
  }

  /** The "/a" tree finds handler 0 for GET "/a" and nothing for "/b". */
  lemma RouteALookups(accepts: RouteTrees.Accepts)
    ensures var root := RouteTrees.RootNode("", [RouteTrees.Literal("a", [RouteTrees.Terminal(HttpGet, 0, [])])]);
      && RouteTrees.GetRoute(root, "/a", HttpGet, accepts) == Some(RouteTrees.Hit(0, []))
      && RouteTrees.GetRoute(root, "/b", HttpGet, accepts) == None
  {
    var t := RouteTrees.Terminal(HttpGet, 0, []);
    var root := RouteTrees.RootNode("", [RouteTrees.Literal("a", [t])]);
    RouteTrees.GetRouteRoot(root, "/a", HttpGet, accepts);
    RouteTrees.GetRouteRoot(root, "/b", HttpGet, accepts);
    assert [RouteTrees.Literal("a", [t])][1..] == [];
    RouteTrees.MatchLiteral("a", [t], "/a", 1, HttpGet, accepts);
    RouteTrees.MatchLiteral("a", [t], "/b", 1, HttpGet, accepts);
    assert "/a"[1..2] == "a" && "/b"[1..2] == "b";
    assert [t][1..] == [];
  }
}
