/**
 * The compiled route tree the router walks (`HttpRouteRootNode`,
 * `HttpRouteStringNode`, `HttpRouteParamNode`, `HttpRouteEndNode`) and its
 * depth-first, first-success matcher `getRoute`.
 *
 * `Match` follows the pointer walk of the source position by position. The
 * second half of the module gives an independent reading of the same
 * matcher over the URL's `/`-separated segments (`RefMatch`) and proves the
 * two equal for every well-formed tree and every NUL-free URL.
 */
module RouteTrees {
  import opened Base
  import UrlUtils
  import Requests

  /**
   * A runtime node. A terminal keeps the children the builder gave it, but
   * never looks at them.
   */
  datatype RouteNode =
    | Literal(text: string, children: seq<RouteNode>)
    | Param(paramName: string, pattern: string, children: seq<RouteNode>)
    | Terminal(verb: int, handler: nat, children: seq<RouteNode>)

  /** The root: the router's URL prefix and the top-level nodes. */
  datatype RootNode = RootNode(prefix: string, children: seq<RouteNode>)

  /**
   * The regular-expression engine, left abstract: `accepts(pattern, s)`
   * holds when the compiled `pattern` matches `s`.
   */
  type Accepts = (string, string) -> bool

  /**
   * A successful lookup: the handler (an index into the router's
   * middleware list) and the route parameters bound on the way, in the
   * order `addParam` is called, the deepest first.
   */
  datatype Hit = Hit(handler: nat, bindings: seq<(string, string)>)

  /**
   * The loop walking a node's own text against the URL from `pos`: it
   * fails as soon as the URL ends or a character differs.
   */
  predicate TextAt(t: string, url: string, pos: nat)
    decreases |t|
  {
    |t| == 0 || (pos != |url| && At(url, pos) == t[0] && TextAt(t[1..], url, pos + 1))
  }

  /** The loop succeeds exactly when `t` occurs in `url` at `pos`. */
  lemma {:induction false} TextAtIff(t: string, url: string, pos: nat)
    requires pos <= |url|
    ensures TextAt(t, url, pos) <==> pos + |t| <= |url| && url[pos..pos + |t|] == t
    decreases |t|
  {
    if |t| > 0 && pos < |url| {
      TextAtIff(t[1..], url, pos + 1);
      if pos + |t| <= |url| {
        assert url[pos..pos + |t|] == [url[pos]] + url[pos + 1..pos + |t|];
      }
      assert t == [t[0]] + t[1..];
    }
  }

  /**
   * Where the segment starting at `pos` ends: the first '/' or NUL at or
   * after `pos`, or the end of the URL.
   */
  function SegEnd(url: string, pos: nat): (e: nat)
    requires pos <= |url|
    ensures pos <= e <= |url|
    ensures forall k :: pos <= k < e ==> url[k] != '/' && url[k] != NUL
    ensures e < |url| ==> url[e] == '/' || url[e] == NUL
    decreases |url| - pos
  {
    if pos == |url| || url[pos] == '/' || url[pos] == NUL then pos else SegEnd(url, pos + 1)
  }

  /**
   * `getRoute` of a literal, parameter or terminal node at position `pos`
   * (`current`; the end pointer is `|url|`).
   *
   * - literal: fails on exhausted input; its text must follow, then '/' or
   *   the end of the string; the children continue after the separator;
   * - parameter: the segment runs to the next '/' or the end and may be
   *   empty; the pattern must accept it; the binding is added only once a
   *   child has succeeded;
   * - terminal: succeeds when the input is used up and the method agrees.
   */
  function Match(n: RouteNode, url: string, pos: nat, verb: int, accepts: Accepts): Option<Hit>
    decreases n, 1
  {
    match n
    case Literal(t, cs) =>
      var name := CStr(t);
      if pos >= |url| || !TextAt(name, url, pos) then None
      else if At(url, pos + |name|) != '/' && At(url, pos + |name|) != NUL then None
      else MatchChildren(cs, url, pos + |name| + 1, verb, accepts)
    case Param(name, pattern, cs) =>
      if pos >= |url| then None
      else
        var e := SegEnd(url, pos);
        var seg := url[pos..e];
        if !accepts(pattern, seg) then None
        else
          (match MatchChildren(cs, url, e + 1, verb, accepts)
           case None => None
           case Some(hit) => Some(Hit(hit.handler, hit.bindings + [(name, seg)])))
    case Terminal(v, h, _) =>
      if pos >= |url| && verb == v then Some(Hit(h, [])) else None
  }

  /** The children in order; the first that succeeds decides. */
  function MatchChildren(cs: seq<RouteNode>, url: string, pos: nat, verb: int, accepts: Accepts): Option<Hit>
    decreases cs, 0
  {
    if cs == [] then None
    else
      match Match(cs[0], url, pos, verb, accepts)
      case Some(hit) => Some(hit)
      case None => MatchChildren(cs[1..], url, pos, verb, accepts)
  }

  /**
   * `HttpRouteRootNode::getRoute`: the prefix must be matched in full and
   * be followed by '/'; the children start after that '/'. The source skips
   * the prefix loop for an empty prefix, which `TextAt` of "" also does.
   */
  function GetRoute(root: RootNode, url: string, verb: int, accepts: Accepts): Option<Hit>
  {
    var p := CStr(root.prefix);
    if !TextAt(p, url, 0) || At(url, |p|) != '/' then None
    else MatchChildren(root.children, url, |p| + 1, verb, accepts)
  }

  /**
   * A literal node matches at `pos` exactly when its text follows there in
   * full and is followed by '/' or by the end of the string; the children
   * then continue after that separator.
   */
  lemma MatchLiteral(t: string, cs: seq<RouteNode>, url: string, pos: nat, verb: int, accepts: Accepts)
    requires NUL !in t && NUL !in url
    ensures Match(Literal(t, cs), url, pos, verb, accepts) ==
      if pos < |url| && pos + |t| <= |url| && url[pos..pos + |t|] == t && (pos + |t| == |url| || url[pos + |t|] == '/')
      then MatchChildren(cs, url, pos + |t| + 1, verb, accepts)
      else None
  {
    CStrOfPlain(t);
    if pos < |url| {
      TextAtIff(t, url, pos);
    }
  }

  /**
   * The root matches when the URL starts with the prefix followed by '/';
   * the children then start after that '/'. In particular, with an empty
   * prefix a URL that does not start with '/' never matches.
   */
  lemma GetRouteRoot(root: RootNode, url: string, verb: int, accepts: Accepts)
    requires NUL !in root.prefix
    ensures var p := root.prefix;
      GetRoute(root, url, verb, accepts) ==
        if |p| < |url| && url[..|p|] == p && url[|p|] == '/'
        then MatchChildren(root.children, url, |p| + 1, verb, accepts)
        else None
  {
    CStrOfPlain(root.prefix);
    TextAtIff(root.prefix, url, 0);
  }

  /** The same node over other children. */
  function WithChildren(n: RouteNode, kids: seq<RouteNode>): (r: RouteNode)
    ensures r.children == kids
  {
    match n
    case Literal(t, _) => Literal(t, kids)
    case Param(name, pattern, _) => Param(name, pattern, kids)
    case Terminal(v, h, _) => Terminal(v, h, kids)
  }

  /** The parameters a hit binds, applied to the request one `addParam` at a time. */
  function Bind(req: Requests.Request, bs: seq<(string, string)>): (r: Requests.Request)
    ensures r == req.(params := r.params)
    decreases |bs|
  {
    if bs == [] then req else Bind(Requests.AddParam(req, bs[0].0, bs[0].1), bs[1..])
  }

  /* ---------------------------------------------------------------- */
  /* The same matcher, read over segments                              */
  /* ---------------------------------------------------------------- */

  /** The segments still to be matched at `pos`: none once `pos` is past the end. */
  function Rest(url: string, pos: nat): seq<string>
  {
    if pos > |url| then [] else UrlUtils.SplitAll(url[pos..])
  }

  /** Nothing left, or only the empty segment after a trailing '/'. */
  predicate Exhausted(segs: seq<string>)
  {
    segs == [] || segs == [""]
  }

  /**
   * The matcher over a segment list: a literal must equal the next segment,
   * a parameter's pattern must accept it, and a terminal needs the list
   * exhausted. A literal or parameter never matches the empty segment that
   * a trailing '/' leaves.
   */
  function RefMatch(n: RouteNode, segs: seq<string>, verb: int, accepts: Accepts): Option<Hit>
    decreases n, 1
  {
    match n
    case Literal(t, cs) =>
      if Exhausted(segs) || segs[0] != t then None
      else RefChildren(cs, segs[1..], verb, accepts)
    case Param(name, pattern, cs) =>
      if Exhausted(segs) || !accepts(pattern, segs[0]) then None
      else
        (match RefChildren(cs, segs[1..], verb, accepts)
         case None => None
         case Some(hit) => Some(Hit(hit.handler, hit.bindings + [(name, segs[0])])))
    case Terminal(v, h, _) =>
      if Exhausted(segs) && verb == v then Some(Hit(h, [])) else None
  }

  function RefChildren(cs: seq<RouteNode>, segs: seq<string>, verb: int, accepts: Accepts): Option<Hit>
    decreases cs, 0
  {
    if cs == [] then None
    else
      match RefMatch(cs[0], segs, verb, accepts)
      case Some(hit) => Some(hit)
      case None => RefChildren(cs[1..], segs, verb, accepts)
  }

  /** Literal texts hold neither '/' nor NUL, as segments of a split URL never do. */
  predicate WellFormed(n: RouteNode)
    decreases n
  {
    (n.Literal? ==> '/' !in n.text && NUL !in n.text)
    && forall i :: 0 <= i < |n.children| ==> WellFormed(n.children[i])
  }

  /** One segment off the front: the text up to the separator, then what follows it. */
  lemma RestStep(url: string, pos: nat)
    requires NUL !in url && pos <= |url|
    ensures Rest(url, pos) == [url[pos..SegEnd(url, pos)]] + Rest(url, SegEnd(url, pos) + 1)
    ensures Rest(url, pos)[0] == url[pos..SegEnd(url, pos)]
    ensures Rest(url, pos)[1..] == Rest(url, SegEnd(url, pos) + 1)
  {
    var e := SegEnd(url, pos);
    var s := url[pos..];
    var r := UrlUtils.IndexOf(s, '/');
    if e < |url| {
      assert s[e - pos] == '/';
      assert r == e - pos;
      assert s[..r] == url[pos..e];
      assert s[r + 1..] == url[e + 1..];
    } else {
      assert forall j :: 0 <= j < |s| ==> s[j] != '/';
      assert r == -1;
      assert UrlUtils.SplitAll(s) == [s];
      assert url[pos..e] == s;
      assert Rest(url, e + 1) == [];
    }
  }

  /** The segment list is exhausted exactly when the position is at or past the end. */
  lemma ExhaustedRest(url: string, pos: nat)
    requires NUL !in url
    ensures Exhausted(Rest(url, pos)) <==> pos >= |url|
  {
    if pos < |url| {
      RestStep(url, pos);
      var e := SegEnd(url, pos);
      if e == pos {
        assert url[pos] == '/';
        RestStep(url, e + 1);
      }
    } else if pos == |url| {
      assert url[pos..] == "";
      assert UrlUtils.SplitAll("") == [""];
    }
  }

  /** A literal's text sits at `pos` and is followed by a separator exactly when it is the next segment. */
  lemma LiteralStep(t: string, url: string, pos: nat)
    requires NUL !in url && '/' !in t && NUL !in t && pos < |url|
    ensures (TextAt(t, url, pos) && (At(url, pos + |t|) == '/' || At(url, pos + |t|) == NUL))
        <==> url[pos..SegEnd(url, pos)] == t
    ensures url[pos..SegEnd(url, pos)] == t ==> SegEnd(url, pos) == pos + |t|
  {
    var e := SegEnd(url, pos);
    TextAtIff(t, url, pos);
    if TextAt(t, url, pos) && (At(url, pos + |t|) == '/' || At(url, pos + |t|) == NUL) {
      assert forall k :: pos <= k < pos + |t| ==> url[k] == t[k - pos];
      assert e == pos + |t|;
    }
  }

  /**
   * The pointer walk and the segment reading agree: on a NUL-free URL, a
   * well-formed node matches at `pos` exactly as it matches the segments
   * that remain at `pos`.
   */
  lemma {:induction false} MatchBySegments(n: RouteNode, url: string, pos: nat, verb: int, accepts: Accepts)
    requires WellFormed(n) && NUL !in url
    ensures Match(n, url, pos, verb, accepts) == RefMatch(n, Rest(url, pos), verb, accepts)
    decreases n, 1
  {
    ExhaustedRest(url, pos);
    if pos < |url| {
      match n
      case Literal(t, cs) =>
        MatchChildrenBySegments(cs, url, pos + |t| + 1, verb, accepts);
        LiteralBySegments(n, url, pos, verb, accepts);
      case Param(name, pattern, cs) =>
        RestStep(url, pos);
        MatchChildrenBySegments(cs, url, SegEnd(url, pos) + 1, verb, accepts);
      case Terminal(v, h, _) =>
    }
  }

  /** The literal case of `MatchBySegments`, given the claim for the children. */
  lemma LiteralBySegments(n: RouteNode, url: string, pos: nat, verb: int, accepts: Accepts)
    requires n.Literal? && WellFormed(n) && NUL !in url && pos < |url|
    requires MatchChildren(n.children, url, pos + |n.text| + 1, verb, accepts)
      == RefChildren(n.children, Rest(url, pos + |n.text| + 1), verb, accepts)
    ensures Match(n, url, pos, verb, accepts) == RefMatch(n, Rest(url, pos), verb, accepts)
  {
    var e := SegEnd(url, pos);
    var ok := url[pos..e] == n.text;
    LiteralMatchStep(n, url, pos, verb, accepts);
    LiteralRefStep(n, url, pos, verb, accepts);
    if ok {
      LiteralStep(n.text, url, pos);
    }
  }

  /** The pointer walk over a literal: its children after the next segment, if that segment is its text. */
  lemma LiteralMatchStep(n: RouteNode, url: string, pos: nat, verb: int, accepts: Accepts)
    requires n.Literal? && WellFormed(n) && NUL !in url && pos < |url|
    ensures var e := SegEnd(url, pos);
      Match(n, url, pos, verb, accepts) ==
        if url[pos..e] == n.text then MatchChildren(n.children, url, pos + |n.text| + 1, verb, accepts) else None
  {
    CStrOfPlain(n.text);
    LiteralStep(n.text, url, pos);
  }

  /** The segment reading of a literal: its children on the rest, if the next segment is its text. */
  lemma LiteralRefStep(n: RouteNode, url: string, pos: nat, verb: int, accepts: Accepts)
    requires n.Literal? && NUL !in url && pos < |url|
    ensures var e := SegEnd(url, pos);
      RefMatch(n, Rest(url, pos), verb, accepts) ==
        if url[pos..e] == n.text then RefChildren(n.children, Rest(url, e + 1), verb, accepts) else None
  {
    RestStep(url, pos);
    ExhaustedRest(url, pos);
  }

  lemma {:induction false} MatchChildrenBySegments(cs: seq<RouteNode>, url: string, pos: nat, verb: int, accepts: Accepts)
    requires forall i :: 0 <= i < |cs| ==> WellFormed(cs[i])
    requires NUL !in url
    ensures MatchChildren(cs, url, pos, verb, accepts) == RefChildren(cs, Rest(url, pos), verb, accepts)
    decreases cs, 0
  {
    if cs != [] {
      MatchBySegments(cs[0], url, pos, verb, accepts);
      MatchChildrenBySegments(cs[1..], url, pos, verb, accepts);
    }
  }

  /** Nothing distinguishes "no segment left" from "only the empty segment left". */
  lemma {:induction false} RefChildrenExhausted(cs: seq<RouteNode>, a: seq<string>, b: seq<string>, verb: int, accepts: Accepts)
    requires Exhausted(a) && Exhausted(b)
    ensures RefChildren(cs, a, verb, accepts) == RefChildren(cs, b, verb, accepts)
    decreases |cs|
  {
    if cs != [] {
      RefChildrenExhausted(cs[1..], a, b, verb, accepts);
    }
  }

  /**
   * The whole lookup: a URL is routed when it starts with the prefix and a
   * '/', and then exactly as the trie matches the `splitURL` segments of
   * the rest.
   */
  lemma GetRouteBySegments(root: RootNode, url: string, verb: int, accepts: Accepts)
    requires NUL !in url && NUL !in root.prefix
    requires forall i :: 0 <= i < |root.children| ==> WellFormed(root.children[i])
    ensures var p := root.prefix;
      GetRoute(root, url, verb, accepts) ==
        if |p| < |url| && url[..|p|] == p && url[|p|] == '/'
        then RefChildren(root.children, UrlUtils.SplitURL(url[|p|..]), verb, accepts)
        else None
  {
    var p := root.prefix;
    CStrOfPlain(p);
    TextAtIff(p, url, 0);
    if |p| < |url| && url[..|p|] == p && url[|p|] == '/' {
      MatchChildrenBySegments(root.children, url, |p| + 1, verb, accepts);
      var tail := url[|p|..];
      assert UrlUtils.IndexOf(tail, '/') == 0;
      if tail == "/" {
        assert url[|p| + 1..] == "";
        assert Rest(url, |p| + 1) == [""];
        RefChildrenExhausted(root.children, [], [""], verb, accepts);
      } else {
        assert tail[1..] == url[|p| + 1..];
      }
    }
  }
}
