/**
 * Concrete routing cases from the router's own test table, and the two
 * insertion policies side by side on the path that tells them apart.
 */
module RouteOracles {
  import opened Base
  import opened RouteTrees
  import opened RouteBuilders
  import Requests

  /** Route "/a" for GET, as `use` and `build` produce it. */
  lemma RouteAShape()
    ensures Insert(Corrected, [], ["a"], Requests.HttpGet, 0) == [Segment("a", [End(Requests.HttpGet, 0, [])])]
    ensures BuildNodes([Segment("a", [End(Requests.HttpGet, 0, [])])], c => true) ==
      Some([Literal("a", [Terminal(Requests.HttpGet, 0, [])])])
  {
    var e := End(Requests.HttpGet, 0, []);
    assert ["a"][1..] == [];
    assert Insert(Corrected, [], [], Requests.HttpGet, 0) == [e];
    assert BuildNodes([], c => true) == Some([]);
    assert BuildNode(e, c => true) == Some(Terminal(Requests.HttpGet, 0, []));
    BuildNodesOf([e], [Terminal(Requests.HttpGet, 0, [])], c => true);
    assert !UrlUtils.IsParam("a") by { UrlUtils.IsParamIff("a"); }
    assert BuildNode(Segment("a", [e]), c => true) == Some(Literal("a", [Terminal(Requests.HttpGet, 0, [])]));
    BuildNodesOf([Segment("a", [e])], [Literal("a", [Terminal(Requests.HttpGet, 0, [])])], c => true);
  }

  /** The routes of the "/a" tree tried on one URL, after the root's '/'. */
  lemma RouteAAt(url: string, verb: int, accepts: Accepts)
    requires NUL !in url && |url| >= 2 && url[..2] == "/a"
    ensures var root := RootNode("", [Literal("a", [Terminal(Requests.HttpGet, 0, [])])]);
      GetRoute(root, url, verb, accepts) ==
        if (|url| == 2 || url[2] == '/') && 3 >= |url| && verb == Requests.HttpGet then Some(Hit(0, [])) else None
  {
    var t := Terminal(Requests.HttpGet, 0, []);
    var root := RootNode("", [Literal("a", [t])]);
    GetRouteRoot(root, url, verb, accepts);
    assert url[..0] == "" && url[0] == '/';
    assert [Literal("a", [t])][1..] == [];
    MatchLiteral("a", [t], url, 1, verb, accepts);
    assert url[1..2] == "a";
    assert [t][1..] == [];
  }

  /**
   * Route "/a": served for GET "/a" and "/a/", not for "/a/b", "/aa",
   * "/ab", nor for POST "/a".
   */
  lemma RouteACases(accepts: Accepts)
    ensures var root := RootNode("", [Literal("a", [Terminal(Requests.HttpGet, 0, [])])]);
      && GetRoute(root, "/a", Requests.HttpGet, accepts) == Some(Hit(0, []))
      && GetRoute(root, "/a/", Requests.HttpGet, accepts) == Some(Hit(0, []))
      && GetRoute(root, "/a/b", Requests.HttpGet, accepts) == None
      && GetRoute(root, "/aa", Requests.HttpGet, accepts) == None
      && GetRoute(root, "/ab", Requests.HttpGet, accepts) == None
      && GetRoute(root, "/a", Requests.HttpPost, accepts) == None
  {
    RouteAAt("/a", Requests.HttpGet, accepts);
    RouteAAt("/a/", Requests.HttpGet, accepts);
    RouteAAt("/a/b", Requests.HttpGet, accepts);
    RouteAAt("/aa", Requests.HttpGet, accepts);
    RouteAAt("/ab", Requests.HttpGet, accepts);
    RouteAAt("/a", Requests.HttpPost, accepts);
  }

  /** Route "/" for GET: the terminal hangs below the root; POST "/" is refused. */
  lemma RootPathCases(accepts: Accepts)
    ensures UrlUtils.SplitURL("/") == []
    ensures var root := RootNode("", [Terminal(Requests.HttpGet, 0, [])]);
      && GetRoute(root, "/", Requests.HttpGet, accepts) == Some(Hit(0, []))
      && GetRoute(root, "/", Requests.HttpPost, accepts) == None
      && GetRoute(root, "", Requests.HttpGet, accepts) == None
  {
    var t := Terminal(Requests.HttpGet, 0, []);
    var root := RootNode("", [t]);
    GetRouteRoot(root, "/", Requests.HttpGet, accepts);
    GetRouteRoot(root, "/", Requests.HttpPost, accepts);
    GetRouteRoot(root, "", Requests.HttpGet, accepts);
    assert "/"[..0] == "";
    assert [t][1..] == [];
  }

  /** `{a}` and `{b}` at the same depth are different texts: two sibling nodes. */
  lemma ParamSiblings(p: Policy, v: int)
    ensures Insert(p, Insert(p, [], ["{a}"], v, 0), ["{b}"], v, 1) ==
      [Segment("{a}", [End(v, 0, [])]), Segment("{b}", [End(v, 1, [])])]
  {
    assert ["{a}"][1..] == [] && ["{b}"][1..] == [];
    assert Insert(p, [], [], v, 0) == [End(v, 0, [])];
    assert Insert(p, [], [], v, 1) == [End(v, 1, [])];
    var first := Insert(p, [], ["{a}"], v, 0);
    assert first == [Segment("{a}", [End(v, 0, [])])];
    assert "{a}" != "{b}" by { assert "{a}"[1] != "{b}"[1]; }
    assert FirstSame(p, first, "{b}") == 1 by {
      assert first[1..] == [];
    }
  }

  /** The "/p/{a}/c" tree tried on a URL beginning "/p/b/c". */
  lemma ParamRouteAt(url: string, verb: int, accepts: Accepts)
    requires NUL !in url && |url| >= 6 && url[..6] == "/p/b/c"
    requires accepts(UrlUtils.DefaultPattern, "b")
    ensures var root := RootNode("", [Literal("p", [Param("a", UrlUtils.DefaultPattern,
                                        [Literal("c", [Terminal(Requests.HttpGet, 0, [])])])])]);
      GetRoute(root, url, verb, accepts) ==
        if (|url| == 6 || url[6] == '/') && 7 >= |url| && verb == Requests.HttpGet
        then Some(Hit(0, [("a", "b")])) else None
  {
    var t := Terminal(Requests.HttpGet, 0, []);
    var lc := Literal("c", [t]);
    var pa := Param("a", UrlUtils.DefaultPattern, [lc]);
    var root := RootNode("", [Literal("p", [pa])]);
    GetRouteRoot(root, url, verb, accepts);
    assert url[..0] == "" && url[0] == '/';
    assert [Literal("p", [pa])][1..] == [] && [pa][1..] == [] && [lc][1..] == [] && [t][1..] == [];
    assert GetRoute(root, url, verb, accepts) == Match(Literal("p", [pa]), url, 1, verb, accepts);
    MatchLiteral("p", [pa], url, 1, verb, accepts);
    assert url[1..2] == "p" && url[2] == '/';
    assert Match(Literal("p", [pa]), url, 1, verb, accepts) == Match(pa, url, 3, verb, accepts);
    assert SegEnd(url, 3) == 4 by {
      assert url[3] == 'b' && url[4] == '/';
    }
    assert url[3..4] == "b";
    MatchLiteral("c", [t], url, 5, verb, accepts);
    assert url[5..6] == "c";
    MatchSingle(lc, url, 5, verb, accepts);
    MatchSingle(t, url, 7, verb, accepts);
    var inner := Match(lc, url, 5, verb, accepts);
    if (|url| == 6 || url[6] == '/') && 7 >= |url| && verb == Requests.HttpGet {
      assert inner == Some(Hit(0, []));
      assert [] + [("a", "b")] == [("a", "b")];
    } else {
      assert inner == None;
    }
  }

  /** A single child is tried on its own. */
  lemma MatchSingle(n: RouteNode, url: string, pos: nat, verb: int, accepts: Accepts)
    ensures MatchChildren([n], url, pos, verb, accepts) == Match(n, url, pos, verb, accepts)
  {
    assert [n][1..] == [];
  }

  /**
   * Route "/p/{a}/c": "/p/b/c" binds a = "b"; "/p/b/c/d" and POST are
   * refused.
   */
  lemma ParamRouteCases(accepts: Accepts)
    requires accepts(UrlUtils.DefaultPattern, "b")
    ensures var root := RootNode("", [Literal("p", [Param("a", UrlUtils.DefaultPattern,
                                        [Literal("c", [Terminal(Requests.HttpGet, 0, [])])])])]);
      && GetRoute(root, "/p/b/c", Requests.HttpGet, accepts) == Some(Hit(0, [("a", "b")]))
      && GetRoute(root, "/p/b/c/d", Requests.HttpGet, accepts) == None
      && GetRoute(root, "/p/b/c", Requests.HttpPost, accepts) == None
  {
    ParamRouteAt("/p/b/c", Requests.HttpGet, accepts);
    ParamRouteAt("/p/b/c/d", Requests.HttpGet, accepts);
    ParamRouteAt("/p/b/c", Requests.HttpPost, accepts);
  }

  /**
   * The insertion as written: "/a" then "/a//b" (segments "a", "", "b").
   * The empty segment descends into the end node of "/a", so the second
   * route hangs below a terminal, drops out of the routes and is never
   * served, although it is counted as an end node.
   */
  lemma AsWrittenLosesRoute(v: int, accepts: Accepts)
    ensures var cs := Insert(AsWritten, Insert(AsWritten, [], ["a"], v, 0), ["a", "", "b"], v, 1);
      && cs == [Segment("a", [End(v, 0, [Segment("b", [End(v, 1, [])])])])]
      && Routes(cs) == [(["a"], v, 0)]
      && CountEnds(cs) == 2
    ensures GetRoute(RootNode("", [Literal("a", [Terminal(v, 0, [Literal("b", [Terminal(v, 1, [])])])])]),
                     "/a//b", v, accepts) == None
  {
    AsWrittenTrie(v);
    AsWrittenTrieRoutes(v);
    UnreachableBelowTerminal(v, accepts);
  }

  /** The trie the source builds for "/a" and then "/a//b". */
  lemma AsWrittenTrie(v: int)
    ensures Insert(AsWritten, Insert(AsWritten, [], ["a"], v, 0), ["a", "", "b"], v, 1)
      == [Segment("a", [End(v, 0, [Segment("b", [End(v, 1, [])])])])]
  {
    var e0, e1 := End(v, 0, []), End(v, 1, []);
    var sb := Segment("b", [e1]);
    assert Insert(AsWritten, [], ["a"], v, 0) == [Segment("a", [e0])] by {
      assert ["a"][1..] == [];
      assert Insert(AsWritten, [], [], v, 0) == [e0];
    }
    assert Insert(AsWritten, [], ["b"], v, 1) == [sb] by {
      assert ["b"][1..] == [];
      assert Insert(AsWritten, [], [], v, 1) == [e1];
    }
    assert Insert(AsWritten, [e0], ["", "b"], v, 1) == [End(v, 0, [sb])] by {
      assert FirstSame(AsWritten, [e0], "") == 0;
      assert ["", "b"][1..] == ["b"];
    }
    assert ["a", "", "b"][1..] == ["", "b"];
  }

  /** That trie serves one route and holds two end nodes. */
  lemma AsWrittenTrieRoutes(v: int)
    ensures var cs := [Segment("a", [End(v, 0, [Segment("b", [End(v, 1, [])])])])];
      Routes(cs) == [(["a"], v, 0)] && CountEnds(cs) == 2
  {
    var e1 := End(v, 1, []);
    var sb := Segment("b", [e1]);
    var cs := [Segment("a", [End(v, 0, [sb])])];
    assert Routes([End(v, 0, [sb])]) == [([], v, 0)] by { assert [End(v, 0, [sb])][1..] == []; }
    assert ["a"] + [] == ["a"];
    assert RoutesOf(cs[0]) == [(["a"], v, 0)];
    assert Routes(cs) == [(["a"], v, 0)] by { assert cs[1..] == []; }
    assert CountEnds([e1]) == 1 && CountEnds([sb]) == 1;
    assert CountEnds([End(v, 0, [sb])]) == 2;
    assert CountEnds(cs) == 2 by { assert cs[1..] == []; }
  }

  lemma UnreachableBelowTerminal(v: int, accepts: Accepts)
    ensures GetRoute(RootNode("", [Literal("a", [Terminal(v, 0, [Literal("b", [Terminal(v, 1, [])])])])]),
                     "/a//b", v, accepts) == None
  {
    var url := "/a//b";
    var t0 := Terminal(v, 0, [Literal("b", [Terminal(v, 1, [])])]);
    var root := RootNode("", [Literal("a", [t0])]);
    GetRouteRoot(root, url, v, accepts);
    assert url[..0] == "" && url[0] == '/';
    MatchSingle(Literal("a", [t0]), url, 1, v, accepts);
    MatchLiteral("a", [t0], url, 1, v, accepts);
    assert url[1..2] == "a" && url[2] == '/';
    MatchSingle(t0, url, 3, v, accepts);
  }

  /** The corrected insertion on the same registrations keeps and serves both routes. */
  lemma CorrectedKeepsRoute(v: int, accepts: Accepts)
    ensures var cs := Insert(Corrected, Insert(Corrected, [], ["a"], v, 0), ["a", "", "b"], v, 1);
      && cs == [Segment("a", [End(v, 0, []), Segment("", [Segment("b", [End(v, 1, [])])])])]
      && Routes(cs) == [(["a"], v, 0), (["a", "", "b"], v, 1)]
    ensures GetRoute(RootNode("", [Literal("a", [Terminal(v, 0, []), Literal("", [Literal("b", [Terminal(v, 1, [])])])])]),
                     "/a//b", v, accepts) == Some(Hit(1, []))
  {
    CorrectedTrie(v);
    CorrectedRoutes(v);
    ReachableCorrected(v, accepts);
  }

  lemma CorrectedTrie(v: int)
    ensures Insert(Corrected, Insert(Corrected, [], ["a"], v, 0), ["a", "", "b"], v, 1) ==
      [Segment("a", [End(v, 0, []), Segment("", [Segment("b", [End(v, 1, [])])])])]
  {
    var e0, e1 := End(v, 0, []), End(v, 1, []);
    var sb := Segment("b", [e1]);
    var se := Segment("", [sb]);
    assert Insert(Corrected, [], ["a"], v, 0) == [Segment("a", [e0])] by {
      assert ["a"][1..] == [];
      assert Insert(Corrected, [], [], v, 0) == [e0];
    }
    assert Insert(Corrected, [], ["b"], v, 1) == [sb] by {
      assert ["b"][1..] == [];
      assert Insert(Corrected, [], [], v, 1) == [e1];
    }
    assert Insert(Corrected, [], ["", "b"], v, 1) == [se] by {
      assert ["", "b"][1..] == ["b"];
    }
    assert Insert(Corrected, [e0], ["", "b"], v, 1) == [e0, se] by {
      assert FirstSame(Corrected, [e0], "") == 1 by { assert [e0][1..] == []; }
      assert ["", "b"][1..] == ["b"];
    }
    assert ["a", "", "b"][1..] == ["", "b"];
  }

  lemma CorrectedRoutes(v: int)
    ensures Routes([Segment("a", [End(v, 0, []), Segment("", [Segment("b", [End(v, 1, [])])])])]) ==
      [(["a"], v, 0), (["a", "", "b"], v, 1)]
  {
    var e0, e1 := End(v, 0, []), End(v, 1, []);
    var sb := Segment("b", [e1]);
    var se := Segment("", [sb]);
    var cs := [Segment("a", [e0, se])];
    assert Routes([e1]) == [([], v, 1)] by { assert [e1][1..] == []; }
    assert ["b"] + [] == ["b"] && [""] + ["b"] == ["", "b"] && ["a"] + ["", "b"] == ["a", "", "b"];
    assert Routes([sb]) == [(["b"], v, 1)] by { assert [sb][1..] == []; }
    assert RoutesOf(se) == [(["", "b"], v, 1)];
    assert Routes([se]) == [(["", "b"], v, 1)] by { assert [se][1..] == []; }
    assert Routes([e0, se]) == [([], v, 0), (["", "b"], v, 1)] by { assert [e0, se][1..] == [se]; }
    var rs: seq<Route> := [([], v, 0), (["", "b"], v, 1)];
    var u := Under("a", rs);
    assert rs[0].0 == [] && rs[1].0 == ["", "b"];
    assert u[0] == (["a"] + rs[0].0, v, 0);
    assert u[1] == (["a"] + rs[1].0, v, 1);
    assert ["a"] + rs[0].0 == ["a"] && ["a"] + rs[1].0 == ["a", "", "b"];
    assert |u| == 2;
    assert u == [(["a"], v, 0), (["a", "", "b"], v, 1)];
    assert RoutesOf(cs[0]) == u;
    assert cs[1..] == [];
  }

  lemma ReachableCorrected(v: int, accepts: Accepts)
    ensures GetRoute(RootNode("", [Literal("a", [Terminal(v, 0, []), Literal("", [Literal("b", [Terminal(v, 1, [])])])])]),
                     "/a//b", v, accepts) == Some(Hit(1, []))
  {
    var url := "/a//b";
    var t0, t1 := Terminal(v, 0, []), Terminal(v, 1, []);
    var lb := Literal("b", [t1]);
    var le := Literal("", [lb]);
    var root := RootNode("", [Literal("a", [t0, le])]);
    GetRouteRoot(root, url, v, accepts);
    assert url[..0] == "" && url[0] == '/';
    MatchSingle(Literal("a", [t0, le]), url, 1, v, accepts);
    MatchLiteral("a", [t0, le], url, 1, v, accepts);
    assert url[1..2] == "a" && url[2] == '/';
    assert Match(t0, url, 3, v, accepts) == None;
    assert MatchChildren([t0, le], url, 3, v, accepts) == MatchChildren([le], url, 3, v, accepts) by {
      assert [t0, le][1..] == [le];
    }
    MatchSingle(le, url, 3, v, accepts);
    MatchLiteral("", [lb], url, 3, v, accepts);
    assert url[3..3] == "" && url[3] == '/';
    MatchLiteral("b", [t1], url, 4, v, accepts);
    assert url[4..5] == "b";
    MatchSingle(lb, url, 4, v, accepts);
    MatchSingle(t1, url, 6, v, accepts);
  }
}
