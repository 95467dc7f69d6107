/**
 * `HttpRouteBuilder`: the mutable trie that `use` fills segment by segment,
 * and `build`, which freezes it into the runtime tree of `RouteTrees`.
 *
 * A builder node is a segment (literal or `{name[:re]}` parameter, told
 * apart by `isParam` of its text, as the node's `type` is) or an end node
 * carrying a method and a handler. Handlers are indices into the builder's
 * `middles` list, which the router takes over.
 */
module RouteBuilders {
  import opened Base
  import UrlUtils
  import RouteTrees

  datatype TreeNode =
    | Segment(name: string, children: seq<TreeNode>)
    | End(verb: int, handler: nat, children: seq<TreeNode>)

  /** `_myNodeName`: a segment's text; an end node leaves it empty. */
  function NodeName(n: TreeNode): string
  {
    if n.Segment? then n.name else ""
  }

  /**
   * How `insertChild` picks the child to descend into. The source compares
   * the segment with every child's name, end nodes included, so an empty
   * segment descends into an end node (`AsWritten`); `Corrected` only
   * descends into segment nodes.
   */
  datatype Policy = AsWritten | Corrected

  predicate Descends(p: Policy, c: TreeNode, seg: string)
  {
    NodeName(c) == seg && (c.Segment? || p == AsWritten)
  }

  /** The first child insertion descends into for `seg`, or `|cs|` for none. */
  function FirstSame(p: Policy, cs: seq<TreeNode>, seg: string): (k: nat)
    ensures k <= |cs|
    ensures k < |cs| ==> Descends(p, cs[k], seg)
    ensures forall j :: 0 <= j < k ==> !Descends(p, cs[j], seg)
    decreases |cs|
  {
    if cs == [] then 0 else if Descends(p, cs[0], seg) then 0 else 1 + FirstSame(p, cs[1..], seg)
  }

  /**
   * `insertChild`: with no segment left, a fresh end node is appended;
   * otherwise the walk descends into the first child the policy matches,
   * or appends a new segment node for the segment and continues below it.
   * Existing nodes keep everything but their children.
   */
  function Insert(p: Policy, cs: seq<TreeNode>, segs: seq<string>, verb: int, h: nat): (r: seq<TreeNode>)
    ensures |cs| <= |r| <= |cs| + 1
    ensures forall j :: 0 <= j < |cs| ==> r[j] == cs[j].(children := r[j].children)
    ensures segs == [] ==> r == cs + [End(verb, h, [])]
    ensures segs != [] && |r| == |cs| + 1 ==>
      r[|cs|].Segment? && r[|cs|].name == segs[0] && FirstSame(p, cs, segs[0]) == |cs|
    decreases |segs|
  {
    if segs == [] then cs + [End(verb, h, [])]
    else
      var k := FirstSame(p, cs, segs[0]);
      if k < |cs| then cs[k := cs[k].(children := Insert(p, cs[k].children, segs[1..], verb, h))]
      else cs + [Segment(segs[0], Insert(p, [], segs[1..], verb, h))]
  }

  /* ---------------------------------------------------------------- */
  /* The builder                                                       */
  /* ---------------------------------------------------------------- */

  /**
   * The builder: the root's name (the URL prefix), the root's children,
   * the middleware created by `use` in call order, and the number of end
   * nodes recorded in `endNodes`.
   */
  datatype Builder<W> = Builder(prefix: string, children: seq<TreeNode>, middles: seq<W>, endNodes: nat)

  /** The constructor: an empty root with an empty name. */
  function NewBuilder<W>(): (b: Builder<W>)
    ensures b.prefix == "" && b.children == [] && b.middles == [] && b.endNodes == 0
  {
    Builder("", [], [], 0)
  }

  /**
   * `use<Middle>(method, path, …)`: the new middleware is appended to
   * `middles` and the path's `splitURL` segments are inserted from the
   * root with that middleware as handler. The `use<Method, Middle>(path, …)`
   * overload forwards to this one unchanged. The source's `use` is
   * `Use(AsWritten, …)`; `Use(Corrected, …)` is the intended insertion.
   */
  function Use<W>(p: Policy, b: Builder<W>, verb: int, path: string, w: W): (r: Builder<W>)
    ensures r.prefix == b.prefix && r.middles == b.middles + [w] && r.endNodes == b.endNodes + 1
    ensures r.children == Insert(p, b.children, UrlUtils.SplitURL(path), verb, |b.middles|)
  {
    var h := |b.middles|;
    Builder(b.prefix, Insert(p, b.children, UrlUtils.SplitURL(path), verb, h), b.middles + [w], b.endNodes + 1)
  }

  /** `withURLPrefix`: renames the root, nothing else. */
  function WithURLPrefix<W>(b: Builder<W>, prefix: string): (r: Builder<W>)
    ensures r.prefix == prefix && r.children == b.children && r.middles == b.middles
    ensures r.endNodes == b.endNodes
  {
    b.(prefix := prefix)
  }

  /** `endNodesCount`. */
  function EndNodesCount<W>(b: Builder<W>): nat
  {
    b.endNodes
  }

  /** One `use` call: method, path and the middleware it creates. */
  datatype Registration<W> = Registration(verb: int, path: string, ware: W)

  function UseAll<W>(p: Policy, b: Builder<W>, regs: seq<Registration<W>>): Builder<W>
    decreases |regs|
  {
    if regs == [] then b else UseAll(p, Use(p, b, regs[0].verb, regs[0].path, regs[0].ware), regs[1..])
  }

  /* ---------------------------------------------------------------- */
  /* Counting end nodes                                                */
  /* ---------------------------------------------------------------- */

  function CountEnd(n: TreeNode): nat
    decreases n, 1
  {
    (if n.End? then 1 else 0) + CountEnds(n.children)
  }

  /** All end nodes of a forest, wherever they hang. */
  function CountEnds(cs: seq<TreeNode>): nat
    decreases cs, 0
  {
    if cs == [] then 0 else CountEnd(cs[0]) + CountEnds(cs[1..])
  }

  lemma {:induction false} CountEndsAppend(a: seq<TreeNode>, b: seq<TreeNode>)
    ensures CountEnds(a + b) == CountEnds(a) + CountEnds(b)
    decreases |a|
  {
    if a != [] {
      CountEndsAppend(a[1..], b);
      assert (a + b)[1..] == a[1..] + b;
    } else {
      assert a + b == b;
    }
  }

  lemma CountEndsUpdate(cs: seq<TreeNode>, k: nat, x: TreeNode)
    requires k < |cs|
    ensures CountEnds(cs[k := x]) + CountEnd(cs[k]) == CountEnds(cs) + CountEnd(x)
  {
    assert cs == cs[..k] + [cs[k]] + cs[k + 1..];
    assert cs[k := x] == cs[..k] + [x] + cs[k + 1..];
    CountEndsAppend(cs[..k] + [cs[k]], cs[k + 1..]);
    CountEndsAppend(cs[..k], [cs[k]]);
    CountEndsAppend(cs[..k] + [x], cs[k + 1..]);
    CountEndsAppend(cs[..k], [x]);
  }

  /** Every insertion adds exactly one end node, whatever the policy. */
  lemma {:induction false} InsertAddsOneEnd(p: Policy, cs: seq<TreeNode>, segs: seq<string>, verb: int, h: nat)
    ensures CountEnds(Insert(p, cs, segs, verb, h)) == CountEnds(cs) + 1
    decreases |segs|
  {
    if segs == [] {
      CountEndsAppend(cs, [End(verb, h, [])]);
    } else {
      var k := FirstSame(p, cs, segs[0]);
      if k < |cs| {
        var sub := Insert(p, cs[k].children, segs[1..], verb, h);
        InsertAddsOneEnd(p, cs[k].children, segs[1..], verb, h);
        CountEndsUpdate(cs, k, cs[k].(children := sub));
      } else {
        InsertAddsOneEnd(p, [], segs[1..], verb, h);
        CountEndsAppend(cs, [Segment(segs[0], Insert(p, [], segs[1..], verb, h))]);
      }
    }
  }

  /**
   * `endNodesCount` equals the number of `use` calls; the trie holds that
   * many end nodes and `middles` that many middleware.
   */
  lemma {:induction false} EndNodesCountIsUses<W>(p: Policy, b: Builder<W>, regs: seq<Registration<W>>)
    requires CountEnds(b.children) == b.endNodes
    ensures EndNodesCount(UseAll(p, b, regs)) == EndNodesCount(b) + |regs|
    ensures CountEnds(UseAll(p, b, regs).children) == EndNodesCount(UseAll(p, b, regs))
    ensures |UseAll(p, b, regs).middles| == |b.middles| + |regs|
    decreases |regs|
  {
    if regs != [] {
      var r := regs[0];
      InsertAddsOneEnd(p, b.children, UrlUtils.SplitURL(r.path), r.verb, |b.middles|);
      EndNodesCountIsUses(p, Use(p, b, r.verb, r.path, r.ware), regs[1..]);
    }
  }

  /* ---------------------------------------------------------------- */
  /* The routes a trie serves                                          */
  /* ---------------------------------------------------------------- */

  /** A route: its segments, its method and its handler. */
  type Route = (seq<string>, int, nat)

  /**
   * The routes the matcher can reach, in depth-first order: an end node is
   * a route, a segment node prefixes its name to its children's routes,
   * and nodes hanging below an end node are never visited.
   */
  function RoutesOf(n: TreeNode): seq<Route>
    decreases n, 1
  {
    match n
    case End(v, h, _) => [([], v, h)]
    case Segment(name, cs) => Under(name, Routes(cs))
  }

  function Routes(cs: seq<TreeNode>): seq<Route>
    decreases cs, 0
  {
    if cs == [] then [] else RoutesOf(cs[0]) + Routes(cs[1..])
  }

  /** Routes one level down, seen from the parent segment `name`. */
  function Under(name: string, rs: seq<Route>): (r: seq<Route>)
    ensures |r| == |rs|
    ensures forall i :: 0 <= i < |rs| ==> r[i] == ([name] + rs[i].0, rs[i].1, rs[i].2)
  {
    if rs == [] then [] else [([name] + rs[0].0, rs[0].1, rs[0].2)] + Under(name, rs[1..])
  }

  lemma UnderAppend(name: string, a: seq<Route>, b: seq<Route>)
    ensures Under(name, a + b) == Under(name, a) + Under(name, b)
  {
  }

  lemma {:induction false} RoutesAppend(a: seq<TreeNode>, b: seq<TreeNode>)
    ensures Routes(a + b) == Routes(a) + Routes(b)
    decreases |a|
  {
    if a != [] {
      RoutesAppend(a[1..], b);
      assert (a + b)[1..] == a[1..] + b;
    } else {
      assert a + b == b;
    }
  }

  lemma RoutesUpdate(cs: seq<TreeNode>, k: nat, x: TreeNode)
    requires k < |cs|
    ensures Routes(cs) == Routes(cs[..k]) + RoutesOf(cs[k]) + Routes(cs[k + 1..])
    ensures Routes(cs[k := x]) == Routes(cs[..k]) + RoutesOf(x) + Routes(cs[k + 1..])
  {
    assert cs == cs[..k] + [cs[k]] + cs[k + 1..];
    assert cs[k := x] == cs[..k] + [x] + cs[k + 1..];
    RoutesAppend(cs[..k] + [cs[k]], cs[k + 1..]);
    RoutesAppend(cs[..k], [cs[k]]);
    RoutesAppend(cs[..k] + [x], cs[k + 1..]);
    RoutesAppend(cs[..k], [x]);
    assert Routes([cs[k]]) == RoutesOf(cs[k]) by { assert [cs[k]][1..] == []; }
    assert Routes([x]) == RoutesOf(x) by { assert [x][1..] == []; }
  }

  /** Splicing an element into the middle part of a three-part sequence. */
  lemma Splice<T>(front: seq<T>, mid: seq<T>, back: seq<T>, j: nat, e: T)
    requires j <= |mid|
    ensures front + (mid[..j] + [e] + mid[j..]) + back ==
      (front + mid + back)[..|front| + j] + [e] + (front + mid + back)[|front| + j..]
  {
    var s := front + mid + back;
    assert s[..|front| + j] == front + mid[..j];
    assert s[|front| + j..] == mid[j..] + back;
  }

  /** Splicing a route into a child list shows up at the same place one level up. */
  lemma UnderSplice(name: string, rs: seq<Route>, j: nat, e: Route)
    requires j <= |rs|
    ensures Under(name, rs[..j] + [e] + rs[j..]) ==
      Under(name, rs)[..j] + [([name] + e.0, e.1, e.2)] + Under(name, rs)[j..]
  {
  }

  /**
   * With the corrected policy an insertion records exactly the registered
   * route: the routes afterwards are the routes before with the new one
   * inserted at some position `i`.
   */
  lemma {:induction false} InsertRecordsRoute(cs: seq<TreeNode>, segs: seq<string>, verb: int, h: nat)
    returns (i: nat)
    ensures i <= |Routes(cs)|
    ensures Routes(Insert(Corrected, cs, segs, verb, h)) == Routes(cs)[..i] + [(segs, verb, h)] + Routes(cs)[i..]
    decreases |segs|
  {
    if segs == [] {
      RoutesAppend(cs, [End(verb, h, [])]);
      assert Routes([End(verb, h, [])]) == [([], verb, h)];
      i := |Routes(cs)|;
      assert Routes(cs)[..i] == Routes(cs) && Routes(cs)[i..] == [];
    } else if FirstSame(Corrected, cs, segs[0]) < |cs| {
      i := InsertBelow(cs, segs, verb, h);
    } else {
      var sub := Insert(Corrected, [], segs[1..], verb, h);
      var j := InsertRecordsRoute([], segs[1..], verb, h);
      assert Routes(sub) == [(segs[1..], verb, h)];
      RoutesAppend(cs, [Segment(segs[0], sub)]);
      assert Routes([Segment(segs[0], sub)]) == RoutesOf(Segment(segs[0], sub)) by {
        assert [Segment(segs[0], sub)][1..] == [];
      }
      assert [segs[0]] + segs[1..] == segs;
      i := |Routes(cs)|;
      assert Routes(cs)[..i] == Routes(cs) && Routes(cs)[i..] == [];
    }
  }

  /** `InsertRecordsRoute` when the first segment descends into an existing child. */
  lemma {:induction false} InsertBelow(cs: seq<TreeNode>, segs: seq<string>, verb: int, h: nat)
    returns (i: nat)
    requires segs != [] && FirstSame(Corrected, cs, segs[0]) < |cs|
    ensures i <= |Routes(cs)|
    ensures Routes(Insert(Corrected, cs, segs, verb, h)) == Routes(cs)[..i] + [(segs, verb, h)] + Routes(cs)[i..]
    decreases |segs|, 0
  {
    var k := FirstSame(Corrected, cs, segs[0]);
    var c := cs[k];
    var sub := Insert(Corrected, c.children, segs[1..], verb, h);
    var c' := Segment(c.name, sub);
    InsertDescends(cs, segs, verb, h);
    var j := InsertRecordsRoute(c.children, segs[1..], verb, h);
    SegmentSplice(c, sub, j, segs, verb, h);
    RoutesUpdate(cs, k, c');
    Splice(Routes(cs[..k]), RoutesOf(c), Routes(cs[k + 1..]), j, (segs, verb, h));
    i := |Routes(cs[..k])| + j;
  }

  /** Descending into the child the corrected policy picks replaces that child only. */
  lemma InsertDescends(cs: seq<TreeNode>, segs: seq<string>, verb: int, h: nat)
    requires segs != [] && FirstSame(Corrected, cs, segs[0]) < |cs|
    ensures var k := FirstSame(Corrected, cs, segs[0]);
      && cs[k].Segment? && cs[k].name == segs[0]
      && Insert(Corrected, cs, segs, verb, h)
        == cs[k := Segment(cs[k].name, Insert(Corrected, cs[k].children, segs[1..], verb, h))]
  {
  }

  /** A route spliced into a segment's children appears, prefixed, at the same place in the segment's routes. */
  lemma SegmentSplice(c: TreeNode, sub: seq<TreeNode>, j: nat, segs: seq<string>, verb: int, h: nat)
    requires c.Segment? && segs != [] && c.name == segs[0]
    requires j <= |Routes(c.children)|
    requires Routes(sub) == Routes(c.children)[..j] + [(segs[1..], verb, h)] + Routes(c.children)[j..]
    ensures j <= |RoutesOf(c)|
    ensures RoutesOf(Segment(c.name, sub)) == RoutesOf(c)[..j] + [(segs, verb, h)] + RoutesOf(c)[j..]
  {
    UnderSplice(segs[0], Routes(c.children), j, (segs[1..], verb, h));
    assert [segs[0]] + segs[1..] == segs;
  }

  /** With the corrected policy every end node is reachable: `endNodesCount` routes in all. */
  lemma {:induction false} UseRecordsRoutes<W>(b: Builder<W>, regs: seq<Registration<W>>)
    requires |Routes(b.children)| == b.endNodes
    ensures |Routes(UseAll(Corrected, b, regs).children)| == EndNodesCount(UseAll(Corrected, b, regs))
    decreases |regs|
  {
    if regs != [] {
      var r := regs[0];
      var i := InsertRecordsRoute(b.children, UrlUtils.SplitURL(r.path), r.verb, |b.middles|);
      UseRecordsRoutes(Use(Corrected, b, r.verb, r.path, r.ware), regs[1..]);
    }
  }

  /**
   * Without empty segments the two policies insert alike: an end node's
   * name is empty, so a non-empty segment only ever matches a segment node.
   */
  lemma {:induction false} InsertPoliciesAgree(cs: seq<TreeNode>, segs: seq<string>, verb: int, h: nat)
    requires forall i :: 0 <= i < |segs| ==> segs[i] != ""
    ensures Insert(AsWritten, cs, segs, verb, h) == Insert(Corrected, cs, segs, verb, h)
    decreases |segs|
  {
    if segs != [] {
      FirstSameAgree(cs, segs[0]);
      var k := FirstSame(Corrected, cs, segs[0]);
      InsertPoliciesAgree(if k < |cs| then cs[k].children else [], segs[1..], verb, h);
    }
  }

  lemma {:induction false} FirstSameAgree(cs: seq<TreeNode>, seg: string)
    requires seg != ""
    ensures FirstSame(AsWritten, cs, seg) == FirstSame(Corrected, cs, seg)
    decreases |cs|
  {
    if cs != [] {
      assert Descends(AsWritten, cs[0], seg) == Descends(Corrected, cs[0], seg);
      FirstSameAgree(cs[1..], seg);
    }
  }

  /**
   * So the registrations of paths without empty segments (no "//" and no
   * trailing '/') leave every end node reachable with the source's policy too.
   */
  lemma {:induction false} UseAllPoliciesAgree<W>(b: Builder<W>, regs: seq<Registration<W>>)
    requires forall i, j :: 0 <= i < |regs| && 0 <= j < |UrlUtils.SplitURL(regs[i].path)| ==> UrlUtils.SplitURL(regs[i].path)[j] != ""
    ensures UseAll(AsWritten, b, regs) == UseAll(Corrected, b, regs)
    decreases |regs|
  {
    if regs != [] {
      var r := regs[0];
      InsertPoliciesAgree(b.children, UrlUtils.SplitURL(r.path), r.verb, |b.middles|);
      assert Use(AsWritten, b, r.verb, r.path, r.ware) == Use(Corrected, b, r.verb, r.path, r.ware);
      UseAllPoliciesAgree(Use(Corrected, b, r.verb, r.path, r.ware), regs[1..]);
    }
  }

  /* ---------------------------------------------------------------- */
  /* build                                                             */
  /* ---------------------------------------------------------------- */

  /** Every parameter declaration below (and at) `n` parses. */
  predicate Parses(n: TreeNode, compiles: string -> bool)
    decreases n
  {
    (n.Segment? && UrlUtils.IsParam(n.name) ==> UrlUtils.ParseParam(n.name, compiles).Some?)
    && forall i :: 0 <= i < |n.children| ==> Parses(n.children[i], compiles)
  }

  /**
   * `buildTreeNode` for one child: an end node becomes a terminal with its
   * method and handler, a parameter segment a parameter node with the name
   * and pattern `parseParam` extracts, any other segment a literal node with
   * its text; the children follow in the same order. The source asserts
   * that every parameter declaration parses; here a failing one makes the
   * whole build fail.
   */
  function BuildNode(c: TreeNode, compiles: string -> bool): (r: Option<RouteTrees.RouteNode>)
    ensures r.Some? <==> Parses(c, compiles)
    ensures r.Some? ==> BuildNodes(c.children, compiles) == Some(r.value.children)
    ensures r.Some? && c.End? ==> r.value.Terminal? && r.value.verb == c.verb && r.value.handler == c.handler
    ensures r.Some? && c.Segment? && !UrlUtils.IsParam(c.name) ==> r.value.Literal? && r.value.text == c.name
    ensures r.Some? && c.Segment? && UrlUtils.IsParam(c.name) ==>
      r.value.Param? && UrlUtils.ParseParam(c.name, compiles) == Some(UrlUtils.ParamSpec(r.value.paramName, r.value.pattern))
    decreases c, 1
  {
    match BuildNodes(c.children, compiles)
    case None => None
    case Some(kids) =>
      match c
      case End(v, h, _) => Some(RouteTrees.Terminal(v, h, kids))
      case Segment(name, _) =>
        if !UrlUtils.IsParam(name) then Some(RouteTrees.Literal(name, kids))
        else
          match UrlUtils.ParseParam(name, compiles)
          case None => None
          case Some(spec) => Some(RouteTrees.Param(spec.name, spec.pattern, kids))
  }

  /** `buildTreeNode`'s loop: one runtime node per builder child, in order. */
  function BuildNodes(cs: seq<TreeNode>, compiles: string -> bool): (r: Option<seq<RouteTrees.RouteNode>>)
    ensures r.Some? <==> forall i :: 0 <= i < |cs| ==> Parses(cs[i], compiles)
    ensures r.Some? ==> |r.value| == |cs| && forall i :: 0 <= i < |cs| ==> BuildNode(cs[i], compiles) == Some(r.value[i])
    decreases cs, 0
  {
    if cs == [] then Some([])
    else
      match BuildNode(cs[0], compiles)
      case None => None
      case Some(n) =>
        match BuildNodes(cs[1..], compiles)
        case None => None
        case Some(rest) => Some([n] + rest)
  }

  /** `build`: the root node named by the prefix, over the built children. */
  function Build<W>(b: Builder<W>, compiles: string -> bool): (r: Option<RouteTrees.RootNode>)
    ensures r.Some? <==> forall i :: 0 <= i < |b.children| ==> Parses(b.children[i], compiles)
    ensures r.Some? ==> r.value.prefix == b.prefix && BuildNodes(b.children, compiles) == Some(r.value.children)
  {
    match BuildNodes(b.children, compiles)
    case None => None
    case Some(kids) => Some(RouteTrees.RootNode(b.prefix, kids))
  }

  /** A forest's build is fixed by the builds of its members. */
  lemma BuildNodesOf(cs: seq<TreeNode>, rs: seq<RouteTrees.RouteNode>, compiles: string -> bool)
    requires |rs| == |cs| && forall i :: 0 <= i < |cs| ==> BuildNode(cs[i], compiles) == Some(rs[i])
    ensures BuildNodes(cs, compiles) == Some(rs)
  {
    var r := BuildNodes(cs, compiles);
    assert r.Some?;
    assert r.value == rs;
  }

  /** Rebuilding a node whose children were rebuilt only replaces its children. */
  lemma BuildNodeOfChildren(c: TreeNode, kids: seq<TreeNode>, compiles: string -> bool)
    requires BuildNode(c, compiles).Some? && BuildNodes(kids, compiles).Some?
    ensures BuildNode(c.(children := kids), compiles) ==
      Some(RouteTrees.WithChildren(BuildNode(c, compiles).value, BuildNodes(kids, compiles).value))
  {
  }

  /* ---------------------------------------------------------------- */
  /* Duplicate registrations                                           */
  /* ---------------------------------------------------------------- */

  /**
   * The trie already holds an end node for `verb` at the place an insertion
   * of `segs` with policy `p` would reach.
   */
  predicate HasRoute(p: Policy, cs: seq<TreeNode>, segs: seq<string>, verb: int)
    decreases |segs|
  {
    if segs == [] then exists j :: 0 <= j < |cs| && cs[j].End? && cs[j].verb == verb
    else
      var k := FirstSame(p, cs, segs[0]);
      k < |cs| && HasRoute(p, cs[k].children, segs[1..], verb)
  }

  /** An insertion creates the place it reaches. */
  lemma {:induction false} InsertHasRoute(p: Policy, cs: seq<TreeNode>, segs: seq<string>, verb: int, h: nat)
    ensures HasRoute(p, Insert(p, cs, segs, verb, h), segs, verb)
    decreases |segs|
  {
    var r := Insert(p, cs, segs, verb, h);
    if segs == [] {
      assert r[|cs|].End?;
    } else {
      var k := FirstSame(p, cs, segs[0]);
      InsertHasRoute(p, if k < |cs| then cs[k].children else [], segs[1..], verb, h);
      assert FirstSame(p, r, segs[0]) == k by {
        FirstSameAfterInsert(p, cs, r, segs[0]);
      }
    }
  }

  /** Insertions never change which child an earlier segment descends into. */
  lemma FirstSameAfterInsert(p: Policy, cs: seq<TreeNode>, r: seq<TreeNode>, seg: string)
    requires |cs| <= |r| <= |cs| + 1
    requires forall j :: 0 <= j < |cs| ==> r[j] == cs[j].(children := r[j].children)
    requires |r| == |cs| + 1 && r[|cs|].Segment? ==> r[|cs|].name != seg || FirstSame(p, cs, seg) == |cs|
    ensures FirstSame(p, cs, seg) < |cs| ==> FirstSame(p, r, seg) == FirstSame(p, cs, seg)
    ensures FirstSame(p, cs, seg) == |cs| && |r| == |cs| + 1 && r[|cs|].Segment? && r[|cs|].name == seg ==>
      FirstSame(p, r, seg) == |cs|
  {
    var k := FirstSame(p, cs, seg);
    var k' := FirstSame(p, r, seg);
    assert forall j :: 0 <= j < |cs| ==> (Descends(p, r[j], seg) <==> Descends(p, cs[j], seg));
    if k < |cs| {
      assert Descends(p, r[k], seg);
    }
  }

  /** Registering anything keeps every route already in place. */
  lemma {:induction false} InsertKeepsRoute(p: Policy, cs: seq<TreeNode>, segs: seq<string>, verb: int, h: nat, other: seq<string>, v: int)
    requires HasRoute(p, cs, other, v)
    ensures HasRoute(p, Insert(p, cs, segs, verb, h), other, v)
    decreases |other|
  {
    var r := Insert(p, cs, segs, verb, h);
    if other == [] {
      var j :| 0 <= j < |cs| && cs[j].End? && cs[j].verb == v;
      assert r[j].End? && r[j].verb == v;
    } else {
      var k := FirstSame(p, cs, other[0]);
      FirstSameAfterInsert(p, cs, r, other[0]);
      assert FirstSame(p, r, other[0]) == k;
      if segs != [] && FirstSame(p, cs, segs[0]) == k {
        InsertKeepsRoute(p, cs[k].children, segs[1..], verb, h, other[1..], v);
      } else {
        assert r[k] == cs[k];
      }
    }
  }

  /** An appended child is tried only when all the others failed. */
  lemma {:induction false} MatchChildrenSnoc(rs: seq<RouteTrees.RouteNode>, t: RouteTrees.RouteNode,
                                            url: string, pos: nat, verb: int, accepts: RouteTrees.Accepts)
    ensures RouteTrees.MatchChildren(rs + [t], url, pos, verb, accepts) ==
      if RouteTrees.MatchChildren(rs, url, pos, verb, accepts).Some?
      then RouteTrees.MatchChildren(rs, url, pos, verb, accepts)
      else RouteTrees.Match(t, url, pos, verb, accepts)
    decreases |rs|
  {
    if rs == [] {
      assert [t][1..] == [];
    } else {
      assert (rs + [t])[0] == rs[0];
      assert (rs + [t])[1..] == rs[1..] + [t];
      MatchChildrenSnoc(rs[1..], t, url, pos, verb, accepts);
    }
  }

  /** When no child matches, in particular child `j` does not. */
  lemma {:induction false} MatchChildrenNone(rs: seq<RouteTrees.RouteNode>, j: nat,
                                            url: string, pos: nat, verb: int, accepts: RouteTrees.Accepts)
    requires j < |rs| && RouteTrees.MatchChildren(rs, url, pos, verb, accepts).None?
    ensures RouteTrees.Match(rs[j], url, pos, verb, accepts).None?
    decreases |rs|
  {
    if j > 0 {
      MatchChildrenNone(rs[1..], j - 1, url, pos, verb, accepts);
    }
  }

  /** A terminal appended after one with the same method never changes a lookup. */
  lemma MatchChildrenSnocTerminal(rs: seq<RouteTrees.RouteNode>, j: nat, t: RouteTrees.RouteNode,
                                  url: string, pos: nat, verb: int, accepts: RouteTrees.Accepts)
    requires j < |rs| && rs[j].Terminal? && t.Terminal? && t.verb == rs[j].verb
    ensures RouteTrees.MatchChildren(rs + [t], url, pos, verb, accepts) == RouteTrees.MatchChildren(rs, url, pos, verb, accepts)
  {
    MatchChildrenSnoc(rs, t, url, pos, verb, accepts);
    if RouteTrees.MatchChildren(rs, url, pos, verb, accepts).None? {
      MatchChildrenNone(rs, j, url, pos, verb, accepts);
    }
  }

  /** Replacing a child by one that matches alike everywhere changes no lookup. */
  lemma {:induction false} MatchChildrenUpdate(rs: seq<RouteTrees.RouteNode>, k: nat, y: RouteTrees.RouteNode,
                                              url: string, verb: int, accepts: RouteTrees.Accepts)
    requires k < |rs|
    requires forall pos: nat :: RouteTrees.Match(y, url, pos, verb, accepts) == RouteTrees.Match(rs[k], url, pos, verb, accepts)
    ensures forall pos: nat :: (RouteTrees.MatchChildren(rs[k := y], url, pos, verb, accepts) ==
      RouteTrees.MatchChildren(rs, url, pos, verb, accepts))
    decreases |rs|
  {
    forall pos: nat
      ensures RouteTrees.MatchChildren(rs[k := y], url, pos, verb, accepts) == RouteTrees.MatchChildren(rs, url, pos, verb, accepts)
    {
      assert rs[k := y][1..] == if k == 0 then rs[1..] else rs[1..][k - 1 := y];
      if k > 0 {
        MatchChildrenUpdate(rs[1..], k - 1, y, url, verb, accepts);
      }
    }
  }

  /** A node whose children match alike everywhere matches alike everywhere. */
  lemma MatchSameChildren(x: RouteTrees.RouteNode, kids: seq<RouteTrees.RouteNode>,
                          url: string, verb: int, accepts: RouteTrees.Accepts)
    requires forall pos: nat :: (RouteTrees.MatchChildren(kids, url, pos, verb, accepts) ==
      RouteTrees.MatchChildren(x.children, url, pos, verb, accepts))
    ensures forall pos: nat :: (RouteTrees.Match(RouteTrees.WithChildren(x, kids), url, pos, verb, accepts) ==
      RouteTrees.Match(x, url, pos, verb, accepts))
  {
  }

  /**
   * Registering a method and path that are already in place appends a
   * terminal the matcher never reaches first: every lookup, at every
   * position, is unchanged.
   */
  lemma {:induction false} DuplicateInvisible(p: Policy, cs: seq<TreeNode>, segs: seq<string>, verb: int, h: nat, compiles: string -> bool,
                                             url: string, v: int, accepts: RouteTrees.Accepts)
    requires HasRoute(p, cs, segs, verb) && BuildNodes(cs, compiles).Some?
    ensures BuildNodes(Insert(p, cs, segs, verb, h), compiles).Some?
    ensures forall pos: nat ::
      RouteTrees.MatchChildren(BuildNodes(Insert(p, cs, segs, verb, h), compiles).value, url, pos, v, accepts) ==
      RouteTrees.MatchChildren(BuildNodes(cs, compiles).value, url, pos, v, accepts)
    decreases |segs|
  {
    var rs := BuildNodes(cs, compiles).value;
    var r := Insert(p, cs, segs, verb, h);
    if segs == [] {
      var j :| 0 <= j < |cs| && cs[j].End? && cs[j].verb == verb;
      var t := RouteTrees.Terminal(verb, h, []);
      assert BuildNodes([], compiles) == Some([]);
      assert BuildNode(End(verb, h, []), compiles) == Some(t);
      BuildNodesOf(r, rs + [t], compiles);
      forall pos: nat
        ensures RouteTrees.MatchChildren(rs + [t], url, pos, v, accepts) == RouteTrees.MatchChildren(rs, url, pos, v, accepts)
      {
        MatchChildrenSnocTerminal(rs, j, t, url, pos, v, accepts);
      }
    } else {
      var k := FirstSame(p, cs, segs[0]);
      var c := cs[k];
      var sub := Insert(p, c.children, segs[1..], verb, h);
      assert r == cs[k := c.(children := sub)];
      DuplicateInvisible(p, c.children, segs[1..], verb, h, compiles, url, v, accepts);
      var x := rs[k];
      var y := RouteTrees.WithChildren(x, BuildNodes(sub, compiles).value);
      BuildNodeOfChildren(c, sub, compiles);
      BuildNodesOf(r, rs[k := y], compiles);
      MatchSameChildren(x, BuildNodes(sub, compiles).value, url, v, accepts);
      MatchChildrenUpdate(rs, k, y, url, v, accepts);
    }
  }

  /**
   * At the level of the builder: once a method and path are registered,
   * registering them again (with another middleware) leaves every lookup
   * of the built router unchanged, so the first registration wins.
   */
  lemma UseDuplicateInvisible<W>(p: Policy, b: Builder<W>, verb: int, path: string, w: W, compiles: string -> bool,
                                 url: string, v: int, accepts: RouteTrees.Accepts)
    requires HasRoute(p, b.children, UrlUtils.SplitURL(path), verb) && Build(b, compiles).Some?
    ensures Build(Use(p, b, verb, path, w), compiles).Some?
    ensures RouteTrees.GetRoute(Build(Use(p, b, verb, path, w), compiles).value, url, v, accepts) ==
      RouteTrees.GetRoute(Build(b, compiles).value, url, v, accepts)
  {
    var b' := Use(p, b, verb, path, w);
    DuplicateInvisible(p, b.children, UrlUtils.SplitURL(path), verb, |b.middles|, compiles, url, v, accepts);
    var r, r' := Build(b, compiles).value, Build(b', compiles).value;
    var p := CStr(b.prefix);
    assert RouteTrees.MatchChildren(r'.children, url, |p| + 1, v, accepts)
      == RouteTrees.MatchChildren(r.children, url, |p| + 1, v, accepts);
    SamePrefixSameRoute(r, r', url, v, accepts);
  }

  /** Roots with one prefix whose children match alike after it route alike. */
  lemma SamePrefixSameRoute(r: RouteTrees.RootNode, r': RouteTrees.RootNode, url: string, v: int, accepts: RouteTrees.Accepts)
    requires r.prefix == r'.prefix
    requires RouteTrees.MatchChildren(r'.children, url, |CStr(r.prefix)| + 1, v, accepts)
      == RouteTrees.MatchChildren(r.children, url, |CStr(r.prefix)| + 1, v, accepts)
    ensures RouteTrees.GetRoute(r', url, v, accepts) == RouteTrees.GetRoute(r, url, v, accepts)
  {
  }

  /** Two registrations of the same method and path: the second is never served. */
  lemma SecondRegistrationShadowed<W>(p: Policy, b: Builder<W>, verb: int, path: string, w1: W, w2: W, compiles: string -> bool,
                                      url: string, v: int, accepts: RouteTrees.Accepts)
    requires Build(Use(p, b, verb, path, w1), compiles).Some?
    ensures Build(Use(p, Use(p, b, verb, path, w1), verb, path, w2), compiles).Some?
    ensures RouteTrees.GetRoute(Build(Use(p, Use(p, b, verb, path, w1), verb, path, w2), compiles).value, url, v, accepts) ==
      RouteTrees.GetRoute(Build(Use(p, b, verb, path, w1), compiles).value, url, v, accepts)
  {
    InsertHasRoute(p, b.children, UrlUtils.SplitURL(path), verb, |b.middles|);
    UseDuplicateInvisible(p, Use(p, b, verb, path, w1), verb, path, w2, compiles, url, v, accepts);
  }
}
