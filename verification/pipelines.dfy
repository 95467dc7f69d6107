/**
 * `PipelineBuilder` and `Pipeline`: an ordered list of middleware. The
 * pipeline stores it as an array ended by a null sentinel; everything that
 * walks the array stops at the first null.
 */
module Pipelines {
  import opened Base
  import opened Requests
  import opened Middlewares

  /* ---------------------------------------------------------------- */
  /* PipelineBuilder                                                   */
  /* ---------------------------------------------------------------- */

  /** `_wares`: (name, pointer) pairs in call order; a raw pointer may be null. */
  datatype PipelineBuilder<W> = PipelineBuilder(wares: seq<(string, Option<W>)>)

  const Unknown: string := "unknown"

  function NewPipelineBuilder<W>(): (b: PipelineBuilder<W>)
    ensures b.wares == []
  {
    PipelineBuilder([])
  }

  /** `addMiddleware(Middleware*)`: the pointer as given, named "unknown". */
  function AddPointer<W>(b: PipelineBuilder<W>, p: Option<W>): (r: PipelineBuilder<W>)
    ensures |r.wares| == |b.wares| + 1 && r.wares[..|b.wares|] == b.wares
    ensures r.wares[|b.wares|] == (Unknown, p)
  {
    PipelineBuilder(b.wares + [(Unknown, p)])
  }

  /** `addMiddleware<T>(name, args…)`: a freshly constructed middleware under `name`. */
  function AddNamed<W>(b: PipelineBuilder<W>, name: string, w: W): (r: PipelineBuilder<W>)
    ensures |r.wares| == |b.wares| + 1 && r.wares[..|b.wares|] == b.wares
    ensures r.wares[|b.wares|] == (name, Some(w))
  {
    PipelineBuilder(b.wares + [(name, Some(w))])
  }

  /** `addMiddleware<T>(args…)`: the same, named "unknown". */
  function AddConstructed<W>(b: PipelineBuilder<W>, w: W): (r: PipelineBuilder<W>)
    ensures r == AddNamed(b, Unknown, w)
  {
    PipelineBuilder(b.wares + [(Unknown, Some(w))])
  }

  /* ---------------------------------------------------------------- */
  /* Pipeline                                                          */
  /* ---------------------------------------------------------------- */

  /** The `wares` array, sentinel included. */
  datatype Pipeline<W> = Pipeline(slots: seq<Option<W>>)

  /** The array always ends in the null sentinel. */
  predicate Valid<W>(p: Pipeline<W>)
  {
    |p.slots| > 0 && p.slots[|p.slots| - 1] == None
  }

  /** The middleware a walk over the array sees: the entries before the first null. */
  function Active<W>(slots: seq<Option<W>>): (r: seq<W>)
    ensures |r| <= |slots|
    ensures forall i :: 0 <= i < |r| ==> slots[i] == Some(r[i])
    ensures |r| < |slots| ==> slots[|r|] == None
  {
    if slots == [] || slots[0].None? then [] else [slots[0].value] + Active(slots[1..])
  }

  /** When `ws` fills the slots up to a null (or the end), the walk sees exactly `ws`. */
  lemma ActiveIs<W>(slots: seq<Option<W>>, ws: seq<W>)
    requires |ws| <= |slots|
    requires forall i :: 0 <= i < |ws| ==> slots[i] == Some(ws[i])
    requires |ws| < |slots| ==> slots[|ws|] == None
    ensures Active(slots) == ws
  {
    var r := Active(slots);
    assert |r| == |ws|;
    forall i | 0 <= i < |r| ensures r[i] == ws[i] {
      assert slots[i] == Some(r[i]);
    }
  }

  /** `Pipeline()`: only the sentinel. */
  function EmptyPipeline<W>(): (p: Pipeline<W>)
    ensures Valid(p) && Active(p.slots) == []
  {
    Pipeline([None])
  }

  /** `Pipeline(const PipelineBuilder&)`: the builder's pointers in order, then the sentinel. */
  function FromBuilder<W>(b: PipelineBuilder<W>): (p: Pipeline<W>)
    ensures Valid(p) && |p.slots| == |b.wares| + 1
    ensures forall i :: 0 <= i < |b.wares| ==> p.slots[i] == b.wares[i].1
  {
    Pipeline(seq(|b.wares|, i requires 0 <= i < |b.wares| => b.wares[i].1) + [None])
  }

  /** A builder without null pointers gives a pipeline that runs all of them, in order. */
  lemma FromBuilderActive<W>(b: PipelineBuilder<W>)
    requires forall i :: 0 <= i < |b.wares| ==> b.wares[i].1.Some?
    ensures Active(FromBuilder(b).slots) == seq(|b.wares|, i requires 0 <= i < |b.wares| => b.wares[i].1.value)
  {
    var ws := seq(|b.wares|, i requires 0 <= i < |b.wares| => b.wares[i].1.value);
    ActiveIs(FromBuilder(b).slots, ws);
  }

  /** A null pointer in the builder hides itself and every later entry. */
  lemma NullHidesRest<W>(b: PipelineBuilder<W>, k: nat)
    requires k < |b.wares| && b.wares[k].1 == None
    ensures |Active(FromBuilder(b).slots)| <= k
  {
  }

  /**
   * `addMiddleware(m)`: finds the sentinel, copies the entries before it,
   * puts `m` there and a new sentinel after it.
   */
  function AddMiddleware<W>(p: Pipeline<W>, m: Option<W>): (r: Pipeline<W>)
    requires Valid(p)
    ensures Valid(r)
  {
    var i := |Active(p.slots)|;
    Pipeline(p.slots[..i] + [m] + [None])
  }

  /** Adding a middleware appends it after the ones already there; adding null adds nothing. */
  lemma AddMiddlewareAppends<W>(p: Pipeline<W>, m: Option<W>)
    requires Valid(p)
    ensures m.Some? ==> Active(AddMiddleware(p, m).slots) == Active(p.slots) + [m.value]
    ensures m.Some? ==> |Active(AddMiddleware(p, m).slots)| == |Active(p.slots)| + 1
    ensures m.None? ==> Active(AddMiddleware(p, m).slots) == Active(p.slots)
  {
    var ws := Active(p.slots);
    var slots := AddMiddleware(p, m).slots;
    assert |ws| < |p.slots|;
    if m.Some? {
      ActiveIs(slots, ws + [m.value]);
    } else {
      ActiveIs(slots, ws);
    }
  }

  /* ---------------------------------------------------------------- */
  /* feed                                                              */
  /* ---------------------------------------------------------------- */

  /**
   * The middleware run in order on the same request and response; a
   * `false` stops the run and is the result, an exception leaves it.
   */
  function Run(ws: seq<Ware>, req: Request, resp: Resp): (o: Outcome)
    ensures ws == [] ==> o == Outcome(req, resp, Continue)
  {
    if ws == [] then Outcome(req, resp, Continue)
    else
      var o := ws[0](req, resp);
      if o.signal == Continue then Run(ws[1..], o.req, o.resp) else o
  }

  /** `Pipeline::feed`: runs the middleware before the sentinel. */
  function Feed(p: Pipeline<Ware>, req: Request, resp: Resp): Outcome
  {
    Run(Active(p.slots), req, resp)
  }

  /**
   * Running two lists one after the other is running their concatenation:
   * the second starts only when the first ran to the end.
   */
  lemma {:induction false} RunAppend(a: seq<Ware>, b: seq<Ware>, req: Request, resp: Resp)
    ensures Run(a + b, req, resp) ==
      var o := Run(a, req, resp);
      if o.signal == Continue then Run(b, o.req, o.resp) else o
    decreases |a|
  {
    if a == [] {
      assert a + b == b;
    } else {
      assert (a + b)[0] == a[0] && (a + b)[1..] == a[1..] + b;
      var o := a[0](req, resp);
      if o.signal == Continue {
        RunAppend(a[1..], b, o.req, o.resp);
      }
    }
  }

  /** Every middleware that ran said "go on" except possibly the last: a stop is final. */
  lemma {:induction false} RunStopsAt(ws: seq<Ware>, req: Request, resp: Resp)
    ensures var o := Run(ws, req, resp);
      o.signal != Continue ==> exists k :: 0 <= k < |ws| && o == ws[k](Run(ws[..k], req, resp).req, Run(ws[..k], req, resp).resp)
    decreases |ws|
  {
    var o := Run(ws, req, resp);
    if ws != [] && o.signal != Continue {
      var o0 := ws[0](req, resp);
      assert Run(ws[..0], req, resp) == Outcome(req, resp, Continue);
      if o0.signal == Continue {
        RunStopsAt(ws[1..], o0.req, o0.resp);
        var k :| 0 <= k < |ws[1..]| && o == ws[1..][k](Run(ws[1..][..k], o0.req, o0.resp).req, Run(ws[1..][..k], o0.req, o0.resp).resp);
        RunAppend([ws[0]], ws[1..][..k], req, resp);
        assert [ws[0]] + ws[1..][..k] == ws[..k + 1];
        assert Run([ws[0]], req, resp) == o0 by { assert [ws[0]][1..] == []; }
        assert ws[k + 1] == ws[1..][k];
      }
    }
  }

  /** Feeding after `addMiddleware(w)` feeds the old pipeline, then `w` if it went through. */
  lemma FeedAfterAdd(p: Pipeline<Ware>, w: Ware, req: Request, resp: Resp)
    requires Valid(p)
    ensures Feed(AddMiddleware(p, Some(w)), req, resp) ==
      var o := Feed(p, req, resp);
      if o.signal == Continue then w(o.req, o.resp) else o
  {
    AddMiddlewareAppends(p, Some(w));
    RunAppend(Active(p.slots), [w], req, resp);
    var o := Feed(p, req, resp);
    assert Run([w], o.req, o.resp) == w(o.req, o.resp) by {
      var o' := w(o.req, o.resp);
      assert [w][1..] == [];
    }
  }

  /* ---------------------------------------------------------------- */
  /* The builder test                                                  */
  /* ---------------------------------------------------------------- */

  /** A middleware that adds `k` to the status and goes on. */
  function AddToStatus(k: int): Ware
  {
    (q: Request, r: Resp) => Outcome(q, Responses.SetStatus(r, r.status + k), Continue)
  }

  /** Four middleware adding 1, 2, 3 and 4, fed a response with status 0, leave status 10. */
  lemma PipelineStatusTen(req: Request, resp: Resp)
    requires resp.status == 0
    ensures var b := AddConstructed(AddConstructed(AddConstructed(AddConstructed(
        NewPipelineBuilder(), AddToStatus(1)), AddToStatus(2)), AddToStatus(3)), AddToStatus(4));
      Feed(FromBuilder(b), req, resp).resp.status == 10
  {
    var ws := [AddToStatus(1), AddToStatus(2), AddToStatus(3), AddToStatus(4)];
    var b := AddConstructed(AddConstructed(AddConstructed(AddConstructed(
        NewPipelineBuilder(), AddToStatus(1)), AddToStatus(2)), AddToStatus(3)), AddToStatus(4));
    ActiveIs(FromBuilder(b).slots, ws);
    var o1 := AddToStatus(1)(req, resp);
    var o2 := AddToStatus(2)(o1.req, o1.resp);
    var o3 := AddToStatus(3)(o2.req, o2.resp);
    var o4 := AddToStatus(4)(o3.req, o3.resp);
    assert o4.resp.status == 10;
    assert Run(ws, req, resp) == Run(ws[1..], o1.req, o1.resp);
    assert ws[1..] == [AddToStatus(2), AddToStatus(3), AddToStatus(4)];
    assert Run(ws[1..], o1.req, o1.resp) == Run(ws[2..], o2.req, o2.resp);
    assert ws[1..][1..] == ws[2..] == [AddToStatus(3), AddToStatus(4)];
    assert Run(ws[2..], o2.req, o2.resp) == Run(ws[3..], o3.req, o3.resp);
    assert ws[2..][1..] == ws[3..] == [AddToStatus(4)];
    assert Run(ws[3..], o3.req, o3.resp) == Run([], o4.req, o4.resp);
  }
}
