/** The chain walk of `Promise` as functions of the heap: `_handleSuccessAsyncRun`,
    `_handleSuccessAsyncAccept` and `handleError` (with `resolve` and `reject`, which only
    call them), the entry function's calls to its callbacks, and the completion stage of
    `execute()`. A walk yields the rewired heap, the continuations it ran, in order, and how it
    ended. Recursion is bounded by `fuel`: `OutOfFuel` only means the bound was too small. */
module PromiseWalk {
  import opened Wrappers
  import opened PromiseChain

  /** What a walk observably does. `RanHook(e)` is a call of the global uncaught-exception
      handler with a `FebsException` whose cause is `e`. */
  datatype Event =
    | RanSuccess(node: nat, arg: Value)
    | RanRunnable(node: nat)
    | RanFail(node: nat, err: Error)
    | RanFinish(node: nat)
    | RanHook(err: Error)

  /** How a walk ends: normally, by throwing, or never, because a splice searches a cyclic
      chain for its tail. */
  datatype Res = Ok | Threw(e: Error) | Loops | OutOfFuel

  datatype Walk = Walk(nodes: seq<Node>, trace: seq<Event>, res: Res)

  /** A walk run inside a handler that rethrows any exception as a new runtime exception
      whose cause is the original (Promise.java:398-400). */
  function Wrap(r: Res): (r': Res)
    ensures r'.Threw? <==> r.Threw?
    ensures r.Threw? ==> r'.e.Wrapped? && r'.e.cause == r.e
    ensures !r.Threw? ==> r' == r
  {
    if r.Threw? then Threw(Wrapped(r.e)) else r
  }

  /** The finish continuation of `n`, if it has one. */
  function FinishEvents(nd: Node, n: nat): (es: seq<Event>)
    ensures |es| <= 1 && (es != [] <==> nd.onFinish)
    ensures forall i :: 0 <= i < |es| ==> es[i] == RanFinish(n)
  {
    if nd.onFinish then [RanFinish(n)] else []
  }

  /** The walk only rewires links and only adds to the trace. */
  predicate Extends(ns: seq<Node>, tr: seq<Event>, w: Walk)
  {
    SameButLinks(ns, w.nodes) && |tr| <= |w.trace| && w.trace[..|tr|] == tr
  }

  lemma ExtendsTrans(ns: seq<Node>, tr: seq<Event>, w1: Walk, w2: Walk)
    requires Extends(ns, tr, w1) && Extends(w1.nodes, w1.trace, w2)
    ensures Extends(ns, tr, w2)
  {
    SameButLinksTrans(ns, w1.nodes, w2.nodes);
    assert w2.trace[..|tr|] == w2.trace[..|w1.trace|][..|tr|];
  }

  lemma ExtendsAppend(ns: seq<Node>, tr: seq<Event>, es: seq<Event>, w: Walk)
    requires Extends(ns, tr + es, w)
    ensures Extends(ns, tr, w)
  {
    assert w.trace[..|tr|] == w.trace[..|tr + es|][..|tr|];
  }

  lemma SameButLinksRefl(ns: seq<Node>)
    requires Linked(ns)
    ensures SameButLinks(ns, ns)
  {
    forall i | 0 <= i < |ns| ensures NodeIn(ns[i], |ns|) { }
  }

  // ---------------------------------------------------------------------------
  // The success path

  /** `_handleSuccessAsyncRun(arg)` on `n`: run the success continuation, or the runnable,
      and pass its result on; with neither, forward `arg` to the child unchanged; at the end
      of the chain run finish. Whatever escapes is wrapped once more. */
  function RunWalk(ns: seq<Node>, tr: seq<Event>, n: nat, arg: Value, fuel: nat): (w: Walk)
    requires Linked(ns) && n < |ns|
    ensures Extends(ns, tr, w)
    decreases fuel, 0
  {
    if fuel == 0 then
      SameButLinksRefl(ns);
      Walk(ns, tr, OutOfFuel)
    else
      SameButLinksRefl(ns);
      var nd := ns[n];
      var w :=
        if nd.onSuccess.Some? then
          var tr1 := tr + [RanSuccess(n, arg)];
          match nd.onSuccess.value
          case Throw(e) => Walk(ns, tr1, Threw(e))
          case Return(v) =>
            var w1 := AcceptWalk(ns, tr1, n, v, fuel - 1);
            ExtendsAppend(ns, tr, [RanSuccess(n, arg)], w1);
            w1
        else if nd.onRun.Some? then
          var tr1 := tr + [RanRunnable(n)];
          if nd.onRun.value.Some? then Walk(ns, tr1, Threw(nd.onRun.value.value))
          else
            var w1 := AcceptWalk(ns, tr1, n, Null, fuel - 1);
            ExtendsAppend(ns, tr, [RanRunnable(n)], w1);
            w1
        else if nd.child.Some? then RunWalk(ns, tr, nd.child.value, arg, fuel - 1)
        else Walk(ns, tr + FinishEvents(nd, n), Ok);
      w.(res := Wrap(w.res))
  }

  /** `_handleSuccessAsyncAccept(v)` on `n`: a returned promise is spliced in and resolved
      with itself; any other value goes to the child, or, without one, finish runs. An
      exception from the child's walk is wrapped. */
  function AcceptWalk(ns: seq<Node>, tr: seq<Event>, n: nat, v: Value, fuel: nat): (w: Walk)
    requires Linked(ns) && n < |ns| && ValueIn(v, |ns|)
    ensures Extends(ns, tr, w)
    decreases fuel, 1
  {
    SameButLinksRefl(ns);
    if v.Ref? then
      match Splice(ns, n, v.node)
      case None => Walk(ns, tr, Loops)
      case Some(ns1) =>
        SameButLinksKeepsLinked(ns, ns1);
        var w := RunWalk(ns1, tr, v.node, v, fuel);
        ExtendsTrans(ns, tr, Walk(ns1, tr, Ok), w);
        w.(res := Wrap(w.res))
    else if ns[n].child.Some? then
      var w := RunWalk(ns, tr, ns[n].child.value, v, fuel);
      w.(res := Wrap(w.res))
    else Walk(ns, tr + FinishEvents(ns[n], n), Ok)
  }

  // ---------------------------------------------------------------------------
  // The failure path

  /** `handleError(err)` on `n`. With a fail handler: if it throws, the child is rejected
      with the original `err` (or finish runs) and the walk then carries on as if the
      handler had returned null; if it returns, its value goes down the success path. With
      no handler the child is rejected with `err`; at the end of the chain the uncaught
      handler, when set, and finish run, but only if the node has a finish continuation.
      Nothing on this path is wrapped. */
  function ErrorWalk(ns: seq<Node>, tr: seq<Event>, n: nat, err: Error, hook: bool, fuel: nat): (w: Walk)
    requires Linked(ns) && n < |ns|
    ensures Extends(ns, tr, w)
    decreases fuel
  {
    SameButLinksRefl(ns);
    if fuel == 0 then Walk(ns, tr, OutOfFuel)
    else
      var nd := ns[n];
      if nd.onError.Some? then
        var tr1 := tr + [RanFail(n, err)];
        match nd.onError.value
        case Throw(_) =>
          var w1 :=
            if nd.child.Some? then ErrorWalk(ns, tr1, nd.child.value, err, hook, fuel - 1)
            else Walk(ns, tr1 + FinishEvents(nd, n), Ok);
          ExtendsAppend(ns, tr, [RanFail(n, err)], w1);
          if !w1.res.Ok? then w1
          else
            SameButLinksKeepsLinked(ns, w1.nodes);
            var w2 := FailNullWalk(w1.nodes, w1.trace, n, fuel - 1);
            ExtendsTrans(ns, tr, w1, w2);
            w2
        case Return(v) =>
          var w1 :=
            if v == Null then FailNullWalk(ns, tr1, n, fuel - 1)
            else FailValueWalk(ns, tr1, n, v, fuel - 1);
          ExtendsAppend(ns, tr, [RanFail(n, err)], w1);
          w1
      else if nd.child.Some? then ErrorWalk(ns, tr, nd.child.value, err, hook, fuel - 1)
      else if nd.onFinish then Walk(ns, tr + (if hook then [RanHook(err)] else []) + [RanFinish(n)], Ok)
      else Walk(ns, tr, Ok)
  }

  /** The `res == null` branch after a fail handler: the child is resolved with null, or,
      without one, finish runs. */
  function FailNullWalk(ns: seq<Node>, tr: seq<Event>, n: nat, fuel: nat): (w: Walk)
    requires Linked(ns) && n < |ns|
    ensures Extends(ns, tr, w)
  {
    SameButLinksRefl(ns);
    if ns[n].child.Some? then RunWalk(ns, tr, ns[n].child.value, Null, fuel)
    else Walk(ns, tr + FinishEvents(ns[n], n), Ok)
  }

  /** The `res != null` branch after a fail handler: a returned promise is spliced in and
      resolved with null; any other value goes to the child, or finish runs. */
  function FailValueWalk(ns: seq<Node>, tr: seq<Event>, n: nat, v: Value, fuel: nat): (w: Walk)
    requires Linked(ns) && n < |ns| && ValueIn(v, |ns|) && v != Null
    ensures Extends(ns, tr, w)
  {
    SameButLinksRefl(ns);
    if v.Ref? then
      match Splice(ns, n, v.node)
      case None => Walk(ns, tr, Loops)
      case Some(ns1) =>
        SameButLinksKeepsLinked(ns, ns1);
        var w := RunWalk(ns1, tr, v.node, Null, fuel);
        ExtendsTrans(ns, tr, Walk(ns1, tr, Ok), w);
        w
    else if ns[n].child.Some? then RunWalk(ns, tr, ns[n].child.value, v, fuel)
    else Walk(ns, tr + FinishEvents(ns[n], n), Ok)
  }

  // ---------------------------------------------------------------------------
  // The asynchronous stage of `execute()`

  /** The entry function calls its resolve and reject callbacks in order, each a walk from
      the root; the first walk that does not end normally ends the entry function, the
      exception propagating out of it. */
  function EntryWalk(ns: seq<Node>, tr: seq<Event>, root: nat, calls: seq<Settle>, hook: bool, fuel: nat): (w: Walk)
    requires Linked(ns) && root < |ns|
    requires forall i :: 0 <= i < |calls| ==> (calls[i].Resolve? ==> ValueIn(calls[i].v, |ns|))
    ensures Extends(ns, tr, w)
    ensures calls == [] ==> w == Walk(ns, tr, Ok)
    decreases |calls|
  {
    SameButLinksRefl(ns);
    if calls == [] then Walk(ns, tr, Ok)
    else
      var w1 :=
        match calls[0]
        case Resolve(v) => RunWalk(ns, tr, root, v, fuel)
        case Reject(e) => ErrorWalk(ns, tr, root, e, hook, fuel);
      if !w1.res.Ok? then w1
      else
        SameButLinksKeepsLinked(ns, w1.nodes);
        var w2 := EntryWalk(w1.nodes, w1.trace, root, calls[1..], hook, fuel);
        ExtendsTrans(ns, tr, w1, w2);
        w2
  }

  /** The `handle` stage. An exceptional stage re-walks the failure path from the root with
      the exception it received, then marks the root rejected and clears the links from the
      root; a normal one marks a pending root fulfilled and clears the links. A re-walk that
      never ends leaves the stage unfinished. */
  function Complete(ns: seq<Node>, tr: seq<Event>, root: nat, exc: Option<Error>, hook: bool, fuel: nat): (w: Walk)
    requires Linked(ns) && root < |ns|
    ensures |w.nodes| == |ns| && |tr| <= |w.trace| && w.trace[..|tr|] == tr
    ensures w.res.Ok? || w.res.Loops? || w.res.OutOfFuel?
    ensures w.res.Ok? ==> w.nodes[root].child.None?
    ensures w.res.Ok? ==> w.nodes[root].status == if exc.Some? then Rejected else
      if ns[root].status == Pending then Fulfilled else ns[root].status
  {
    if exc.Some? then
      var w1 := ErrorWalk(ns, tr, root, exc.value, hook, fuel);
      if w1.res.Loops? || w1.res.OutOfFuel? then w1
      else
        var ns1 := w1.nodes[root := w1.nodes[root].(status := Rejected)];
        Walk(ClearFrom(ns1, root), w1.trace, Ok)
    else
      var ns1 := if ns[root].status == Pending then ns[root := ns[root].(status := Fulfilled)] else ns;
      Walk(ClearFrom(ns1, root), tr, Ok)
  }

  /** The whole stage: the entry function runs, and what escapes it (a walk's exception, or
      its own) reaches `handle` as a `CompletionException` around the `RuntimeException` of
      the supplier; a stage whose entry walk never ends never completes. */
  function StageWalk(ns: seq<Node>, tr: seq<Event>, root: nat, e: Entry, hook: bool, fuel: nat): (w: Walk)
    requires Linked(ns) && root < |ns| && EntryIn(e, |ns|)
    ensures |w.nodes| == |ns| && |tr| <= |w.trace| && w.trace[..|tr|] == tr
  {
    var w1 := EntryWalk(ns, tr, root, e.calls, hook, fuel);
    SameButLinksKeepsLinked(ns, w1.nodes);
    match w1.res
    case Loops => w1
    case OutOfFuel => w1
    case Threw(x) =>
      var w2 := Complete(w1.nodes, w1.trace, root, Some(Wrapped(Wrapped(x))), hook, fuel);
      assert w2.trace[..|tr|] == w2.trace[..|w1.trace|][..|tr|];
      w2
    case Ok =>
      var exc := if e.ends.Some? then Some(Wrapped(Wrapped(e.ends.value))) else None;
      var w2 := Complete(w1.nodes, w1.trace, root, exc, hook, fuel);
      assert w2.trace[..|tr|] == w2.trace[..|w1.trace|][..|tr|];
      w2
  }
}
