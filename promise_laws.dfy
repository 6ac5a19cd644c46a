/** What the walk does on an acyclic chain, stated over the list of the chain's nodes instead
    of the heap: a reference semantics for the success and failure paths, the theorems that
    the heap walk computes it, and the promises of the library proved about it. */
module PromiseLaws {
  import opened Wrappers
  import opened PromiseChain
  import opened PromiseWalk

  /** The continuations a walk runs, in order, and how it ends. */
  datatype Run = Run(events: seq<Event>, res: Res)

  predicate ReturnsPromise(o: Option<Outcome>)
  {
    o.Some? && o.value.Return? && o.value.v.Ref?
  }

  /** No continuation of the chain returns a promise, so the walk splices nothing. */
  predicate NoNested(ns: seq<Node>, l: seq<nat>)
  {
    forall i :: 0 <= i < |l| ==>
      l[i] < |ns| && !ReturnsPromise(ns[l[i]].onSuccess) && !ReturnsPromise(ns[l[i]].onError)
  }

  predicate InHeap(ns: seq<Node>, l: seq<nat>)
  {
    forall i :: 0 <= i < |l| ==> l[i] < |ns|
  }

  lemma InHeapTail(ns: seq<Node>, l: seq<nat>, k: nat)
    requires InHeap(ns, l) && k <= |l|
    ensures InHeap(ns, l[k..])
  {
    forall i | 0 <= i < |l| - k ensures l[k..][i] < |ns| { assert l[k..][i] == l[k + i]; }
  }

  // ---------------------------------------------------------------------------
  // Reference semantics on the list of a chain

  /** The success path entered at `l[0]` with `arg`. */
  function SuccessRef(ns: seq<Node>, l: seq<nat>, arg: Value): Run
    requires |l| > 0 && InHeap(ns, l)
    decreases |l|, 1
  {
    var n := l[0];
    var nd := ns[n];
    if nd.onSuccess.Some? then
      match nd.onSuccess.value
      case Throw(e) => Run([RanSuccess(n, arg)], Threw(Wrapped(e)))
      case Return(v) =>
        var r := PassOn(ns, l, v);
        Run([RanSuccess(n, arg)] + r.events, Wrap(r.res))
    else if nd.onRun.Some? then
      if nd.onRun.value.Some? then Run([RanRunnable(n)], Threw(Wrapped(nd.onRun.value.value)))
      else
        var r := PassOn(ns, l, Null);
        Run([RanRunnable(n)] + r.events, Wrap(r.res))
    else PassOn(ns, l, arg)
  }

  /** Handing `v` on from `l[0]`: to the rest of the chain, or to finish at its end. */
  function PassOn(ns: seq<Node>, l: seq<nat>, v: Value): Run
    requires |l| > 0 && InHeap(ns, l)
    decreases |l|, 0
  {
    if |l| > 1 then
      InHeapTail(ns, l, 1);
      var r := SuccessRef(ns, l[1..], v);
      Run(r.events, Wrap(r.res))
    else Run(FinishEvents(ns[l[0]], l[0]), Ok)
  }

  /** The failure path entered at `l[0]` with `err`; `hook` says whether an uncaught handler
      is set. */
  function ErrorRef(ns: seq<Node>, l: seq<nat>, err: Error, hook: bool): Run
    requires |l| > 0 && InHeap(ns, l)
    decreases |l|
  {
    var n := l[0];
    var nd := ns[n];
    InHeapTail(ns, l, 1);
    if nd.onError.Some? then
      match nd.onError.value
      case Throw(_) =>
        var r1 := if |l| > 1 then ErrorRef(ns, l[1..], err, hook) else Run(FinishEvents(nd, n), Ok);
        if !r1.res.Ok? then Run([RanFail(n, err)] + r1.events, r1.res)
        else
          var r2 := AfterFail(ns, l, Null);
          Run([RanFail(n, err)] + r1.events + r2.events, r2.res)
      case Return(v) =>
        var r2 := AfterFail(ns, l, v);
        Run([RanFail(n, err)] + r2.events, r2.res)
    else if |l| > 1 then ErrorRef(ns, l[1..], err, hook)
    else Run((if nd.onFinish && hook then [RanHook(err)] else []) + FinishEvents(nd, n), Ok)
  }

  /** After a fail handler: its value (null when it threw) goes to the success path of the
      rest of the chain, or finish runs at the end. */
  function AfterFail(ns: seq<Node>, l: seq<nat>, v: Value): Run
    requires |l| > 0 && InHeap(ns, l)
  {
    if |l| > 1 then
      InHeapTail(ns, l, 1);
      SuccessRef(ns, l[1..], v)
    else Run(FinishEvents(ns[l[0]], l[0]), Ok)
  }

  // ---------------------------------------------------------------------------
  // The heap walk computes the reference semantics

  lemma NoNestedTail(ns: seq<Node>, l: seq<nat>)
    requires NoNested(ns, l) && |l| > 1
    ensures NoNested(ns, l[1..])
  {
    forall i | 0 <= i < |l| - 1 ensures l[1..][i] == l[i + 1] { }
  }

  lemma {:induction false} RunWalkChain(ns: seq<Node>, tr: seq<Event>, l: seq<nat>, arg: Value, fuel: nat)
    requires Linked(ns) && IsChain(ns, l) && NoNested(ns, l) && fuel >= |l|
    ensures RunWalk(ns, tr, l[0], arg, fuel) ==
      Walk(ns, tr + SuccessRef(ns, l, arg).events, SuccessRef(ns, l, arg).res)
    decreases |l|, 1
  {
    var n := l[0];
    var nd := ns[n];
    assert !ReturnsPromise(nd.onSuccess);
    if nd.onSuccess.Some? && nd.onSuccess.value.Return? {
      var v := nd.onSuccess.value.v;
      var r := PassOn(ns, l, v);
      AcceptChain(ns, tr + [RanSuccess(n, arg)], l, v, fuel - 1);
      RunWalkPassOn(ns, tr, n, arg, fuel, RanSuccess(n, arg), v, r.events, r.res);
    } else if nd.onSuccess.None? && nd.onRun.Some? && nd.onRun.value.None? {
      var r := PassOn(ns, l, Null);
      AcceptChain(ns, tr + [RanRunnable(n)], l, Null, fuel - 1);
      RunWalkPassOn(ns, tr, n, arg, fuel, RanRunnable(n), Null, r.events, r.res);
    } else if nd.onSuccess.None? && nd.onRun.None? && |l| > 1 {
      assert nd.child == Some(l[1]);
      ChainTail(ns, l);
      NoNestedTail(ns, l);
      RunWalkChain(ns, tr, l[1..], arg, fuel - 1);
    }
  }

  /** `_handleSuccessAsyncRun` at a continuation or runnable that returns `v`, once the walk
      that hands `v` on is known. */
  lemma RunWalkPassOn(ns: seq<Node>, tr: seq<Event>, n: nat, arg: Value, fuel: nat,
                      head: Event, v: Value, evs: seq<Event>, res: Res)
    requires Linked(ns) && n < |ns| && fuel > 0 && ValueIn(v, |ns|)
    requires || (ns[n].onSuccess == Some(Return(v)) && head == RanSuccess(n, arg))
             || (ns[n].onSuccess.None? && ns[n].onRun == Some(None) && v == Null && head == RanRunnable(n))
    requires AcceptWalk(ns, tr + [head], n, v, fuel - 1) == Walk(ns, tr + [head] + evs, res)
    ensures RunWalk(ns, tr, n, arg, fuel) == Walk(ns, tr + ([head] + evs), Wrap(res))
  {
    assert tr + [head] + evs == tr + ([head] + evs);
  }

  lemma {:induction false} AcceptChain(ns: seq<Node>, tr: seq<Event>, l: seq<nat>, v: Value, fuel: nat)
    requires Linked(ns) && IsChain(ns, l) && NoNested(ns, l) && fuel >= |l| - 1 && !v.Ref?
    ensures AcceptWalk(ns, tr, l[0], v, fuel) ==
      Walk(ns, tr + PassOn(ns, l, v).events, PassOn(ns, l, v).res)
    decreases |l|, 0
  {
    if |l| > 1 {
      assert ns[l[0]].child == Some(l[1]);
      ChainTail(ns, l);
      NoNestedTail(ns, l);
      RunWalkChain(ns, tr, l[1..], v, fuel);
    }
  }

  lemma AfterFailChain(ns: seq<Node>, tr: seq<Event>, l: seq<nat>, v: Value, fuel: nat)
    requires Linked(ns) && IsChain(ns, l) && NoNested(ns, l) && fuel >= |l| - 1 && !v.Ref?
    ensures v == Null ==> (FailNullWalk(ns, tr, l[0], fuel) ==
      Walk(ns, tr + AfterFail(ns, l, v).events, AfterFail(ns, l, v).res))
    ensures v != Null ==> (FailValueWalk(ns, tr, l[0], v, fuel) ==
      Walk(ns, tr + AfterFail(ns, l, v).events, AfterFail(ns, l, v).res))
  {
    if |l| > 1 {
      assert ns[l[0]].child == Some(l[1]);
      ChainTail(ns, l);
      NoNestedTail(ns, l);
      RunWalkChain(ns, tr, l[1..], v, fuel);
    }
  }

  lemma {:induction false} ErrorWalkChain(ns: seq<Node>, tr: seq<Event>, l: seq<nat>, err: Error, hook: bool, fuel: nat)
    requires Linked(ns) && IsChain(ns, l) && NoNested(ns, l) && fuel >= |l|
    ensures ErrorWalk(ns, tr, l[0], err, hook, fuel) ==
      Walk(ns, tr + ErrorRef(ns, l, err, hook).events, ErrorRef(ns, l, err, hook).res)
    decreases |l|
  {
    var n := l[0];
    var nd := ns[n];
    assert !ReturnsPromise(nd.onError);
    if |l| > 1 {
      assert nd.child == Some(l[1]);
      ChainTail(ns, l);
      NoNestedTail(ns, l);
    }
    if nd.onError.Some? && nd.onError.value.Throw? {
      if |l| > 1 {
        ErrorWalkChain(ns, tr + [RanFail(n, err)], l[1..], err, hook, fuel - 1);
      }
      ErrorThrowStep(ns, tr, l, err, hook, fuel);
    } else if nd.onError.Some? {
      var v := nd.onError.value.v;
      var r := AfterFail(ns, l, v);
      AfterFailChain(ns, tr + [RanFail(n, err)], l, v, fuel - 1);
      ErrorWalkAtReturn(ns, tr, n, err, hook, fuel, v, r.events, r.res);
    } else if |l| > 1 {
      ErrorWalkChain(ns, tr, l[1..], err, hook, fuel - 1);
    } else if nd.onFinish {
      assert FinishEvents(nd, n) == [RanFinish(n)];
      assert tr + (if hook then [RanHook(err)] else []) + [RanFinish(n)]
        == tr + ((if hook then [RanHook(err)] else []) + [RanFinish(n)]);
    }
  }

  /** `handleError` at a fail handler that returns `v`, once the walk that hands `v` on is
      known. */
  lemma ErrorWalkAtReturn(ns: seq<Node>, tr: seq<Event>, n: nat, err: Error, hook: bool, fuel: nat,
                          v: Value, evs: seq<Event>, res: Res)
    requires Linked(ns) && n < |ns| && fuel > 0 && ValueIn(v, |ns|)
    requires ns[n].onError == Some(Return(v))
    requires var tr1 := tr + [RanFail(n, err)];
      (if v == Null then FailNullWalk(ns, tr1, n, fuel - 1) else FailValueWalk(ns, tr1, n, v, fuel - 1))
        == Walk(ns, tr1 + evs, res)
    ensures ErrorWalk(ns, tr, n, err, hook, fuel) == Walk(ns, tr + ([RanFail(n, err)] + evs), res)
  {
    assert tr + [RanFail(n, err)] + evs == tr + ([RanFail(n, err)] + evs);
  }

  /** One step of `ErrorWalkChain` at a fail handler that throws, given the walk of the rest. */
  lemma ErrorThrowStep(ns: seq<Node>, tr: seq<Event>, l: seq<nat>, err: Error, hook: bool, fuel: nat)
    requires Linked(ns) && IsChain(ns, l) && NoNested(ns, l) && fuel >= |l|
    requires ns[l[0]].onError.Some? && ns[l[0]].onError.value.Throw?
    requires |l| > 1 ==> IsChain(ns, l[1..]) && NoNested(ns, l[1..])
    requires |l| > 1 ==> (ErrorWalk(ns, tr + [RanFail(l[0], err)], l[1], err, hook, fuel - 1) ==
      Walk(ns, tr + [RanFail(l[0], err)] + ErrorRef(ns, l[1..], err, hook).events,
           ErrorRef(ns, l[1..], err, hook).res))
    ensures ErrorWalk(ns, tr, l[0], err, hook, fuel) ==
      Walk(ns, tr + ErrorRef(ns, l, err, hook).events, ErrorRef(ns, l, err, hook).res)
  {
    var n := l[0];
    var nd := ns[n];
    if |l| > 1 {
      assert nd.child == Some(l[1]);
    }
    var r1 := if |l| > 1 then ErrorRef(ns, l[1..], err, hook) else Run(FinishEvents(nd, n), Ok);
    ErrorWalkAtThrow(ns, tr, n, err, hook, fuel, r1.events, r1.res);
    ErrorRefAtThrow(ns, l, err, hook);
    if r1.res.Ok? {
      FailNullAfterThrow(ns, tr, l, err, fuel, r1.events);
    } else {
      assert tr + [RanFail(n, err)] + r1.events == tr + ([RanFail(n, err)] + r1.events);
    }
  }

  /** The second half of a throwing fail handler's walk: the child resolved with null. */
  lemma FailNullAfterThrow(ns: seq<Node>, tr: seq<Event>, l: seq<nat>, err: Error, fuel: nat, evs: seq<Event>)
    requires Linked(ns) && IsChain(ns, l) && NoNested(ns, l) && fuel >= |l| && fuel > 0
    ensures var r2 := AfterFail(ns, l, Null);
      FailNullWalk(ns, tr + [RanFail(l[0], err)] + evs, l[0], fuel - 1) ==
        Walk(ns, tr + ([RanFail(l[0], err)] + evs + r2.events), r2.res)
  {
    var tr1 := tr + [RanFail(l[0], err)] + evs;
    AfterFailChain(ns, tr1, l, Null, fuel - 1);
    var r2 := AfterFail(ns, l, Null);
    assert tr1 + r2.events == tr + ([RanFail(l[0], err)] + evs + r2.events);
  }

  /** The reference failure path at a fail handler that throws. */
  lemma ErrorRefAtThrow(ns: seq<Node>, l: seq<nat>, err: Error, hook: bool)
    requires |l| > 0 && InHeap(ns, l)
    requires ns[l[0]].onError.Some? && ns[l[0]].onError.value.Throw?
    ensures |l| > 1 ==> InHeap(ns, l[1..])
    ensures var r1 := if |l| > 1 then ErrorRef(ns, l[1..], err, hook) else Run(FinishEvents(ns[l[0]], l[0]), Ok);
      var r2 := AfterFail(ns, l, Null);
      ErrorRef(ns, l, err, hook) ==
        if r1.res.Ok? then Run([RanFail(l[0], err)] + r1.events + r2.events, r2.res)
        else Run([RanFail(l[0], err)] + r1.events, r1.res)
  {
    InHeapTail(ns, l, 1);
  }

  /** `handleError` at a fail handler that throws, once the walk below it is known and has
      left the links alone: the child is rejected, and if that ends normally the walk goes on
      as after a handler that returned null. */
  lemma ErrorWalkAtThrow(ns: seq<Node>, tr: seq<Event>, n: nat, err: Error, hook: bool, fuel: nat,
                         evs: seq<Event>, res: Res)
    requires Linked(ns) && n < |ns| && fuel > 0
    requires ns[n].onError.Some? && ns[n].onError.value.Throw?
    requires var tr1 := tr + [RanFail(n, err)];
      (if ns[n].child.Some? then ErrorWalk(ns, tr1, ns[n].child.value, err, hook, fuel - 1)
       else Walk(ns, tr1 + FinishEvents(ns[n], n), Ok)) == Walk(ns, tr1 + evs, res)
    ensures ErrorWalk(ns, tr, n, err, hook, fuel) ==
      if res.Ok? then FailNullWalk(ns, tr + [RanFail(n, err)] + evs, n, fuel - 1)
      else Walk(ns, tr + [RanFail(n, err)] + evs, res)
  {
  }

  // ---------------------------------------------------------------------------
  // The success path

  /** The continuation that the success path runs at `nd` throws. */
  predicate SuccessThrows(nd: Node)
  {
    if nd.onSuccess.Some? then nd.onSuccess.value.Throw? else nd.onRun.Some? && nd.onRun.value.Some?
  }

  /** `nd` has a success continuation of either kind. */
  predicate HasSuccess(nd: Node)
  {
    nd.onSuccess.Some? || nd.onRun.Some?
  }

  /** The nodes of `l` whose success continuations the success path runs, in chain order. */
  function SuccessNodes(ns: seq<Node>, l: seq<nat>): (r: seq<nat>)
    requires InHeap(ns, l)
    ensures |r| <= |l|
  {
    if l == [] then []
    else
      InHeapTail(ns, l, 1);
      (if HasSuccess(ns[l[0]]) then [l[0]] else []) + SuccessNodes(ns, l[1..])
  }

  /** The nodes whose success continuations a trace shows running, in order. */
  function RanNodes(ev: seq<Event>): seq<nat>
  {
    if ev == [] then []
    else
      (if ev[0].RanSuccess? || ev[0].RanRunnable? then [ev[0].node] else []) + RanNodes(ev[1..])
  }

  lemma {:induction false} RanNodesAppend(a: seq<Event>, b: seq<Event>)
    ensures RanNodes(a + b) == RanNodes(a) + RanNodes(b)
  {
    if a != [] {
      assert (a + b)[1..] == a[1..] + b;
      RanNodesAppend(a[1..], b);
    } else {
      assert a + b == b;
    }
  }

  /** A trace of the success path: success continuations and finish only. */
  predicate OnlySuccessEvents(ev: seq<Event>)
  {
    forall i :: 0 <= i < |ev| ==> ev[i].RanSuccess? || ev[i].RanRunnable? || ev[i].RanFinish?
  }

  /** The success path never runs a fail handler or the uncaught handler; it ends normally
      exactly when no continuation on it throws, and otherwise with the wrapped exception. */
  lemma {:induction false} SuccessPathOutcome(ns: seq<Node>, l: seq<nat>, arg: Value)
    requires |l| > 0 && InHeap(ns, l)
    ensures OnlySuccessEvents(SuccessRef(ns, l, arg).events)
    ensures SuccessRef(ns, l, arg).res.Ok? || SuccessRef(ns, l, arg).res.Threw?
    ensures SuccessRef(ns, l, arg).res.Ok? <==> forall i :: 0 <= i < |l| ==> !SuccessThrows(ns[l[i]])
    decreases |l|
  {
    var nd := ns[l[0]];
    if |l| > 1 {
      InHeapTail(ns, l, 1);
      SuccessPathOutcome(ns, l[1..], if nd.onSuccess.Some? && nd.onSuccess.value.Return? then nd.onSuccess.value.v else if nd.onSuccess.None? && nd.onRun.Some? then Null else arg);
      assert forall i :: 1 <= i < |l| ==> l[i] == l[1..][i - 1];
    }
  }

  /** The events of a success continuation that returns, and the value it hands on. */
  function Head(nd: Node, n: nat, arg: Value): seq<Event>
  {
    if nd.onSuccess.Some? then [RanSuccess(n, arg)] else if nd.onRun.Some? then [RanRunnable(n)] else []
  }

  function Passed(nd: Node, arg: Value): Value
  {
    if nd.onSuccess.Some? && nd.onSuccess.value.Return? then nd.onSuccess.value.v
    else if nd.onSuccess.None? && nd.onRun.Some? then Null
    else arg
  }

  /** One step of the success path at a node whose continuation does not throw. */
  lemma SuccessStep(ns: seq<Node>, l: seq<nat>, arg: Value)
    requires |l| > 1 && InHeap(ns, l) && !SuccessThrows(ns[l[0]])
    ensures InHeap(ns, l[1..])
    ensures var r := SuccessRef(ns, l, arg);
      var q := SuccessRef(ns, l[1..], Passed(ns[l[0]], arg));
      && r.events == Head(ns[l[0]], l[0], arg) + q.events
      && (r.res.Ok? <==> q.res.Ok?)
  {
    InHeapTail(ns, l, 1);
    var nd := ns[l[0]];
    var q := SuccessRef(ns, l[1..], Passed(nd, arg));
    assert PassOn(ns, l, Passed(nd, arg)) == Run(q.events, Wrap(q.res));
    if !HasSuccess(nd) {
      assert Head(nd, l[0], arg) + q.events == q.events;
    }
  }

  /** A finish continuation shows up only as the last event of a walk that ended normally,
      and it is `t`'s. */
  predicate FinishOnlyLast(r: Run, t: nat)
  {
    forall i :: 0 <= i < |r.events| && r.events[i].RanFinish? ==>
      r.res.Ok? && i == |r.events| - 1 && r.events[i] == RanFinish(t)
  }

  /** When the walk ended normally and `t` has a finish continuation, it ran last. */
  predicate FinishRanLast(r: Run, t: nat, hasFinish: bool)
  {
    r.res.Ok? && hasFinish ==> |r.events| > 0 && r.events[|r.events| - 1] == RanFinish(t)
  }

  /** Finish runs at most once on the success path: only when the walk ends normally, only
      as its last step, and only the finish of the chain's last node, which then always runs. */
  lemma {:induction false} SuccessFinishLast(ns: seq<Node>, l: seq<nat>, arg: Value)
    requires |l| > 0 && InHeap(ns, l)
    ensures FinishOnlyLast(SuccessRef(ns, l, arg), l[|l| - 1])
    ensures FinishRanLast(SuccessRef(ns, l, arg), l[|l| - 1], ns[l[|l| - 1]].onFinish)
    decreases |l|
  {
    var nd := ns[l[0]];
    if |l| > 1 && !SuccessThrows(nd) {
      InHeapTail(ns, l, 1);
      SuccessFinishLast(ns, l[1..], Passed(nd, arg));
      SuccessFinishStep(ns, l, arg);
    }
  }

  /** The step of SuccessFinishLast: what holds of the rest of the chain holds of the chain. */
  lemma SuccessFinishStep(ns: seq<Node>, l: seq<nat>, arg: Value)
    requires |l| > 1 && InHeap(ns, l) && !SuccessThrows(ns[l[0]])
    requires InHeap(ns, l[1..])
    requires var q := SuccessRef(ns, l[1..], Passed(ns[l[0]], arg));
      FinishOnlyLast(q, l[|l| - 1]) && FinishRanLast(q, l[|l| - 1], ns[l[|l| - 1]].onFinish)
    ensures FinishOnlyLast(SuccessRef(ns, l, arg), l[|l| - 1])
    ensures FinishRanLast(SuccessRef(ns, l, arg), l[|l| - 1], ns[l[|l| - 1]].onFinish)
  {
    var nd := ns[l[0]];
    SuccessStep(ns, l, arg);
    var r := SuccessRef(ns, l, arg);
    var q := SuccessRef(ns, l[1..], Passed(nd, arg));
    var h := Head(nd, l[0], arg);
    assert forall i :: 0 <= i < |h| ==> !r.events[i].RanFinish?;
    assert forall i :: |h| <= i < |r.events| ==> r.events[i] == q.events[i - |h|];
  }

  /** On a success path that ends normally, every success continuation of the chain runs
      exactly once, in chain order, and nodes without one are skipped. */
  lemma {:induction false} SuccessRunsEachOnce(ns: seq<Node>, l: seq<nat>, arg: Value)
    requires |l| > 0 && InHeap(ns, l)
    requires SuccessRef(ns, l, arg).res.Ok?
    ensures RanNodes(SuccessRef(ns, l, arg).events) == SuccessNodes(ns, l)
    decreases |l|
  {
    var n := l[0];
    var nd := ns[n];
    InHeapTail(ns, l, 1);
    var v := if nd.onSuccess.Some? && nd.onSuccess.value.Return? then nd.onSuccess.value.v
      else if nd.onSuccess.None? && nd.onRun.Some? then Null else arg;
    SuccessPathOutcome(ns, l, arg);
    assert !SuccessThrows(nd);
    var p := PassOn(ns, l, v);
    if |l| > 1 {
      SuccessRunsEachOnce(ns, l[1..], v);
      assert p.events == SuccessRef(ns, l[1..], v).events;
    } else {
      assert RanNodes(FinishEvents(nd, n)) == [];
      assert SuccessNodes(ns, l[1..]) == [];
    }
    if HasSuccess(nd) {
      var head := if nd.onSuccess.Some? then RanSuccess(n, arg) else RanRunnable(n);
      assert SuccessRef(ns, l, arg).events == [head] + p.events;
      RanNodesAppend([head], p.events);
    }
  }

  /** Nodes without a success continuation hand the value on unchanged: the walk from the
      start of the chain runs the same continuations, with the same values, as the walk from
      the first node that has one. */
  lemma {:induction false} SuccessSkipsPlainNodes(ns: seq<Node>, l: seq<nat>, k: nat, arg: Value)
    requires k < |l| && InHeap(ns, l)
    requires forall i :: 0 <= i < k ==> !HasSuccess(ns[l[i]])
    ensures InHeap(ns, l[k..])
    ensures SuccessRef(ns, l, arg).events == SuccessRef(ns, l[k..], arg).events
    decreases k
  {
    InHeapTail(ns, l, k);
    if k > 0 {
      InHeapTail(ns, l, 1);
      assert forall i :: 0 <= i < k - 1 ==> l[1..][i] == l[i + 1];
      SuccessSkipsPlainNodes(ns, l[1..], k - 1, arg);
      assert l[1..][k - 1..] == l[k..];
    }
  }

  /** The plain value a continuation returns is what the next success continuation on the
      chain receives, however many nodes without one lie between. (A returned promise is
      spliced in instead; see `NestedRunsFirst`.) */
  lemma ValueReachesNextContinuation(ns: seq<Node>, l: seq<nat>, k: nat, arg: Value, v: Value)
    requires 0 < k < |l| && InHeap(ns, l)
    requires ns[l[0]].onSuccess == Some(Return(v)) && !v.Ref?
    requires forall i :: 0 < i < k ==> !HasSuccess(ns[l[i]])
    requires ns[l[k]].onSuccess.Some?
    ensures |SuccessRef(ns, l, arg).events| > 1
    ensures SuccessRef(ns, l, arg).events[..2] == [RanSuccess(l[0], arg), RanSuccess(l[k], v)]
  {
    InHeapTail(ns, l, 1);
    var t := l[1..];
    assert forall i :: 0 <= i < k - 1 ==> t[i] == l[i + 1];
    SuccessSkipsPlainNodes(ns, t, k - 1, v);
    assert t[k - 1..][0] == l[k];
  }

  // ---------------------------------------------------------------------------
  // The failure path

  /** The fail handler of `nd` exists and returns normally. */
  predicate Recovers(nd: Node)
  {
    nd.onError.Some? && nd.onError.value.Return?
  }

  predicate NoHook(ev: seq<Event>)
  {
    forall i :: 0 <= i < |ev| ==> !ev[i].RanHook?
  }

  lemma AfterFailNoHook(ns: seq<Node>, l: seq<nat>, v: Value)
    requires |l| > 0 && InHeap(ns, l)
    ensures OnlySuccessEvents(AfterFail(ns, l, v).events)
  {
    if |l| > 1 {
      InHeapTail(ns, l, 1);
      SuccessPathOutcome(ns, l[1..], v);
    }
  }

  /** The uncaught handler is set, no fail handler before the last node returns normally,
      and the last node has a finish continuation but no fail handler. */
  predicate HookCond(ns: seq<Node>, l: seq<nat>, hook: bool)
    requires |l| > 0 && InHeap(ns, l)
  {
    && hook
    && ns[l[|l| - 1]].onError.None?
    && ns[l[|l| - 1]].onFinish
    && forall i :: 0 <= i < |l| - 1 ==> !Recovers(ns[l[i]])
  }

  lemma HookCondStep(ns: seq<Node>, l: seq<nat>, hook: bool)
    requires |l| > 1 && InHeap(ns, l) && !Recovers(ns[l[0]])
    ensures InHeap(ns, l[1..])
    ensures HookCond(ns, l, hook) <==> HookCond(ns, l[1..], hook)
  {
    InHeapTail(ns, l, 1);
    assert l[1..][|l| - 2] == l[|l| - 1];
    assert forall i :: 1 <= i < |l| ==> l[i] == l[1..][i - 1];
  }

  /** The uncaught handler runs, with the original error, exactly when `HookCond` holds: a
      fail handler that returns normally stops the failure path, one that throws passes the
      error on, and a last node with a handler runs finish without the uncaught handler. When
      it runs, it runs once, right before the last node's finish. */
  lemma {:induction false} HookRunsIff(ns: seq<Node>, l: seq<nat>, err: Error, hook: bool)
    requires |l| > 0 && InHeap(ns, l)
    ensures RanHook(err) in ErrorRef(ns, l, err, hook).events <==> HookCond(ns, l, hook)
    ensures HookOnceThenFinish(ErrorRef(ns, l, err, hook).events, err, l[|l| - 1])
    decreases |l|
  {
    HookOnceBeforeFinish(ns, l, err, hook);
    var nd := ns[l[0]];
    InHeapTail(ns, l, 1);
    if |l| > 1 {
      HookRunsIff(ns, l[1..], err, hook);
    }
    if Recovers(nd) {
      HookReturnCase(ns, l, err, hook);
    } else if nd.onError.Some? {
      if |l| > 1 { HookCondStep(ns, l, hook); }
      HookThrowCase(ns, l, err, hook);
    } else if |l| > 1 {
      HookCondStep(ns, l, hook);
    }
  }

  lemma HookReturnCase(ns: seq<Node>, l: seq<nat>, err: Error, hook: bool)
    requires |l| > 0 && InHeap(ns, l) && Recovers(ns[l[0]])
    ensures RanHook(err) !in ErrorRef(ns, l, err, hook).events && !HookCond(ns, l, hook)
  {
    var v := ns[l[0]].onError.value.v;
    AfterFailNoHook(ns, l, v);
    var ev := ErrorRef(ns, l, err, hook).events;
    assert ev == [RanFail(l[0], err)] + AfterFail(ns, l, v).events;
    assert forall i :: 1 <= i < |ev| ==> ev[i] == AfterFail(ns, l, v).events[i - 1];
  }

  lemma HookThrowCase(ns: seq<Node>, l: seq<nat>, err: Error, hook: bool)
    requires |l| > 0 && InHeap(ns, l) && ns[l[0]].onError.Some? && ns[l[0]].onError.value.Throw?
    requires |l| > 1 ==> InHeap(ns, l[1..])
    requires |l| > 1 ==> (HookCond(ns, l, hook) <==> HookCond(ns, l[1..], hook))
    requires |l| > 1 ==>
      (RanHook(err) in ErrorRef(ns, l[1..], err, hook).events <==> HookCond(ns, l[1..], hook))
    ensures RanHook(err) in ErrorRef(ns, l, err, hook).events <==> HookCond(ns, l, hook)
  {
    var n := l[0];
    var nd := ns[n];
    var r := ErrorRef(ns, l, err, hook);
    var r1 := if |l| > 1 then ErrorRef(ns, l[1..], err, hook) else Run(FinishEvents(nd, n), Ok);
    assert RanHook(err) !in FinishEvents(nd, n);
    if r1.res.Ok? {
      var r2 := AfterFail(ns, l, Null);
      AfterFailNoHook(ns, l, Null);
      assert RanHook(err) !in r2.events;
      assert r.events == [RanFail(n, err)] + r1.events + r2.events;
    } else {
      assert r.events == [RanFail(n, err)] + r1.events;
    }
  }

  /** The uncaught handler runs at most once in `ev`, with `err`, and each time it runs the
      finish continuation of `last` runs right after it. */
  predicate HookOnceThenFinish(ev: seq<Event>, err: Error, last: nat)
  {
    && (forall i :: 0 <= i < |ev| && ev[i].RanHook? ==>
          ev[i] == RanHook(err) && i + 1 < |ev| && ev[i + 1] == RanFinish(last))
    && (forall i, j :: 0 <= i < j < |ev| && ev[i].RanHook? ==> !ev[j].RanHook?)
  }

  lemma HookOnceAfter(x: Event, ev: seq<Event>, err: Error, last: nat)
    requires !x.RanHook? && HookOnceThenFinish(ev, err, last)
    ensures HookOnceThenFinish([x] + ev, err, last)
  {
    var ev' := [x] + ev;
    assert forall i :: 1 <= i < |ev'| ==> ev'[i] == ev[i - 1];
  }

  lemma HookOnceBefore(ev: seq<Event>, more: seq<Event>, err: Error, last: nat)
    requires HookOnceThenFinish(ev, err, last) && NoHook(more)
    ensures HookOnceThenFinish(ev + more, err, last)
  {
    var ev' := ev + more;
    assert forall i :: |ev| <= i < |ev'| ==> ev'[i] == more[i - |ev|];
  }

  /** On one failure path the uncaught handler runs at most once, with the original error,
      and immediately before the finish continuation of the chain's last node. */
  lemma {:induction false} HookOnceBeforeFinish(ns: seq<Node>, l: seq<nat>, err: Error, hook: bool)
    requires |l| > 0 && InHeap(ns, l)
    ensures HookOnceThenFinish(ErrorRef(ns, l, err, hook).events, err, l[|l| - 1])
    decreases |l|
  {
    var n := l[0];
    var nd := ns[n];
    var last := l[|l| - 1];
    InHeapTail(ns, l, 1);
    if |l| > 1 {
      HookOnceBeforeFinish(ns, l[1..], err, hook);
      assert l[1..][|l| - 2] == last;
    }
    if nd.onError.Some? {
      match nd.onError.value {
        case Throw(_) =>
          var r1 := if |l| > 1 then ErrorRef(ns, l[1..], err, hook) else Run(FinishEvents(nd, n), Ok);
          assert HookOnceThenFinish(r1.events, err, last);
          HookOnceAfter(RanFail(n, err), r1.events, err, last);
          if r1.res.Ok? {
            var r2 := AfterFail(ns, l, Null);
            AfterFailNoHook(ns, l, Null);
            HookOnceBefore([RanFail(n, err)] + r1.events, r2.events, err, last);
          }
        case Return(v) =>
          AfterFailNoHook(ns, l, v);
          var ev := [RanFail(n, err)] + AfterFail(ns, l, v).events;
          assert forall i :: 1 <= i < |ev| ==> ev[i] == AfterFail(ns, l, v).events[i - 1];
      }
    }
  }

  /** A failure that no node handles reaches the last node: the uncaught handler runs there
      when it is set and the node has a finish continuation, and finish runs whenever the
      node has one, with or without the handler. */
  lemma UnhandledRunsHookThenFinish(ns: seq<Node>, l: seq<nat>, err: Error, hook: bool)
    requires |l| > 0 && InHeap(ns, l)
    requires forall i :: 0 <= i < |l| ==> ns[l[i]].onError.None?
    ensures var last := l[|l| - 1];
      ErrorRef(ns, l, err, hook) ==
        Run((if hook && ns[last].onFinish then [RanHook(err)] else []) + FinishEvents(ns[last], last), Ok)
  {
    ErrorSkipsPlainNodes(ns, l, |l| - 1, err, hook);
    assert l[|l| - 1..] == [l[|l| - 1]];
  }

  /** Nodes without a fail handler hand the error on unchanged: the failure path from the
      start of the chain is the failure path from the first node that has one. */
  lemma {:induction false} ErrorSkipsPlainNodes(ns: seq<Node>, l: seq<nat>, k: nat, err: Error, hook: bool)
    requires k < |l| && InHeap(ns, l)
    requires forall i :: 0 <= i < k ==> ns[l[i]].onError.None?
    ensures InHeap(ns, l[k..])
    ensures ErrorRef(ns, l, err, hook) == ErrorRef(ns, l[k..], err, hook)
    decreases k
  {
    InHeapTail(ns, l, k);
    if k > 0 {
      InHeapTail(ns, l, 1);
      assert forall i :: 0 <= i < k - 1 ==> l[1..][i] == l[i + 1];
      ErrorSkipsPlainNodes(ns, l[1..], k - 1, err, hook);
      assert l[1..][k - 1..] == l[k..];
    }
  }

  /** The first fail handler on the chain receives the error; when it returns `v` normally,
      the walk switches to the success path: the rest of the chain runs its success
      continuations starting from `v`, and no later fail handler or uncaught handler runs. */
  lemma FirstHandlerRecovers(ns: seq<Node>, l: seq<nat>, k: nat, err: Error, hook: bool, v: Value)
    requires k + 1 < |l| && InHeap(ns, l)
    requires forall i :: 0 <= i < k ==> ns[l[i]].onError.None?
    requires ns[l[k]].onError == Some(Return(v))
    ensures InHeap(ns, l[k + 1..])
    ensures var ev := ErrorRef(ns, l, err, hook).events;
      ev == [RanFail(l[k], err)] + SuccessRef(ns, l[k + 1..], v).events
    ensures var ev := ErrorRef(ns, l, err, hook).events;
      forall i :: 1 <= i < |ev| ==> !ev[i].RanFail? && !ev[i].RanHook?
  {
    ErrorSkipsPlainNodes(ns, l, k, err, hook);
    var t := l[k..];
    InHeapTail(ns, l, k + 1);
    assert t[0] == l[k] && t[1..] == l[k + 1..];
    SuccessPathOutcome(ns, l[k + 1..], v);
  }

  /** A fail handler that throws does not stop the error: the rest of the chain is first
      walked on the failure path with the original error and then, as if the handler had
      returned null, on the success path. Here a handler at node 0 throws and node 1 has a
      success continuation and a finish continuation: node 1's finish runs twice, and its
      success continuation runs after the failure path already finished. */
  lemma FailHandlerThrowsWalksRestTwice(e: Error, x: Error, d: int)
    ensures var a := Node(None, None, Some(Throw(x)), false, None, Some(1), Pending, Null, None, false);
      var b := Node(Some(Return(Data(d))), None, None, true, None, None, Pending, Null, Some(0), false);
      ErrorWalk([a, b], [], 0, e, false, 2) ==
        Walk([a, b], [RanFail(0, e), RanFinish(1), RanSuccess(1, Null), RanFinish(1)], Ok)
  {
    var a := Node(None, None, Some(Throw(x)), false, None, Some(1), Pending, Null, None, false);
    var b := Node(Some(Return(Data(d))), None, None, true, None, None, Pending, Null, Some(0), false);
    var ns := [a, b];
    assert IsChain(ns, [0, 1]);
    assert NoNested(ns, [0, 1]);
    ErrorWalkChain(ns, [], [0, 1], e, false, 2);
    assert [0, 1][1..] == [1];
  }

  // ---------------------------------------------------------------------------
  // A continuation that returns a promise

  lemma {:induction false} SuccessRefIgnoresLinks(ns: seq<Node>, ns': seq<Node>, l: seq<nat>, arg: Value)
    requires SameButLinks(ns, ns') && |l| > 0 && InHeap(ns, l)
    ensures InHeap(ns', l) && SuccessRef(ns', l, arg) == SuccessRef(ns, l, arg)
    decreases |l|
  {
    var nd := ns[l[0]];
    assert ns'[l[0]] == nd.(child := ns'[l[0]].child);
    if |l| > 1 {
      InHeapTail(ns, l, 1);
      SuccessRefIgnoresLinks(ns, ns', l[1..], Passed(nd, arg));
    }
  }

  /** The splice set-up shared by both paths: `n` heads the chain `[n] + rest`, `p` heads the
      disjoint chain `lp`, and no continuation on either returns a further promise. */
  predicate SpliceReady(ns: seq<Node>, n: nat, rest: seq<nat>, lp: seq<nat>)
  {
    && Linked(ns) && n < |ns| && IsChain(ns, [n] + rest) && IsChain(ns, lp)
    && (forall i :: 0 <= i < |lp| ==> lp[i] != n && lp[i] !in rest)
    && NoNested(ns, lp + rest)
  }

  lemma SplicedChain(ns: seq<Node>, n: nat, rest: seq<nat>, lp: seq<nat>)
    requires SpliceReady(ns, n, rest, lp)
    ensures Splice(ns, n, lp[0]).Some?
    ensures var ns' := Splice(ns, n, lp[0]).value;
      Linked(ns') && IsChain(ns', lp + rest) && NoNested(ns', lp + rest)
  {
    SpliceChain(ns, n, rest, lp);
    var ns' := Splice(ns, n, lp[0]).value;
    SameButLinksKeepsLinked(ns, ns');
    var m := [n] + lp + rest;
    ChainTail(ns', m);
    assert m[1..] == lp + rest;
    forall i | 0 <= i < |lp + rest|
      ensures ns'[(lp + rest)[i]] == ns[(lp + rest)[i]].(child := ns'[(lp + rest)[i]].child)
    {
    }
  }

  /** When a success continuation at `n` returns the promise `p`, `p`'s chain runs first and
      then what followed `n`, in order, all resolved from `p` itself; an exception is wrapped
      once more on the way out. */
  lemma NestedRunsFirst(ns: seq<Node>, tr: seq<Event>, n: nat, rest: seq<nat>, lp: seq<nat>, fuel: nat)
    requires SpliceReady(ns, n, rest, lp) && fuel >= |lp| + |rest|
    ensures Splice(ns, n, lp[0]).Some?
    ensures var ns' := Splice(ns, n, lp[0]).value;
      var r := SuccessRef(ns, lp + rest, Ref(lp[0]));
      AcceptWalk(ns, tr, n, Ref(lp[0]), fuel) == Walk(ns', tr + r.events, Wrap(r.res))
  {
    SplicedChain(ns, n, rest, lp);
    var ns' := Splice(ns, n, lp[0]).value;
    RunWalkChain(ns', tr, lp + rest, Ref(lp[0]), fuel);
    SuccessRefIgnoresLinks(ns, ns', lp + rest, Ref(lp[0]));
  }

  /** When a fail handler at `n` returns the promise `p`, `p`'s chain and then the rest run
      on the success path, resolved from null. */
  lemma NestedAfterFailRunsFirst(ns: seq<Node>, tr: seq<Event>, n: nat, rest: seq<nat>, lp: seq<nat>, fuel: nat)
    requires SpliceReady(ns, n, rest, lp) && fuel >= |lp| + |rest|
    ensures Splice(ns, n, lp[0]).Some?
    ensures var ns' := Splice(ns, n, lp[0]).value;
      var r := SuccessRef(ns, lp + rest, Null);
      FailValueWalk(ns, tr, n, Ref(lp[0]), fuel) == Walk(ns', tr + r.events, r.res)
  {
    SplicedChain(ns, n, rest, lp);
    var ns' := Splice(ns, n, lp[0]).value;
    RunWalkChain(ns', tr, lp + rest, Null, fuel);
    SuccessRefIgnoresLinks(ns, ns', lp + rest, Null);
  }

  // ---------------------------------------------------------------------------
  // The stage

  /** How a finished stage leaves the root: it is rejected only when something escaped the
      entry function, a walk's exception or the function's own; otherwise a pending root is
      fulfilled, even when the entry function called `reject`. Either way the root ends
      without a child. */
  lemma StageStatus(ns: seq<Node>, tr: seq<Event>, root: nat, e: Entry, hook: bool, fuel: nat)
    requires Linked(ns) && root < |ns| && EntryIn(e, |ns|)
    ensures var w1 := EntryWalk(ns, tr, root, e.calls, hook, fuel);
      var w := StageWalk(ns, tr, root, e, hook, fuel);
      w.res.Ok? ==>
        && w.nodes[root].child.None?
        && w.nodes[root].status ==
          if w1.res.Threw? || e.ends.Some? then Rejected
          else if ns[root].status == Pending then Fulfilled
          else ns[root].status
  {
    var w1 := EntryWalk(ns, tr, root, e.calls, hook, fuel);
    assert w1.nodes[root] == ns[root].(child := w1.nodes[root].child);
  }

  /** On an acyclic chain without nested promises the entry function's calls leave the links
      as they were: resolving and rejecting only walk the chain. */
  lemma {:induction false} EntryWalkKeepsLinks(ns: seq<Node>, tr: seq<Event>, l: seq<nat>, calls: seq<Settle>, hook: bool, fuel: nat)
    requires Linked(ns) && IsChain(ns, l) && NoNested(ns, l) && fuel >= |l|
    requires forall i :: 0 <= i < |calls| ==> (calls[i].Resolve? ==> ValueIn(calls[i].v, |ns|))
    ensures EntryWalk(ns, tr, l[0], calls, hook, fuel).nodes == ns
    decreases |calls|
  {
    if calls != [] {
      match calls[0] {
        case Resolve(v) => RunWalkChain(ns, tr, l, v, fuel);
        case Reject(e) => ErrorWalkChain(ns, tr, l, e, hook, fuel);
      }
      var w1 :=
        match calls[0]
        case Resolve(v) => RunWalk(ns, tr, l[0], v, fuel)
        case Reject(e) => ErrorWalk(ns, tr, l[0], e, hook, fuel);
      if w1.res.Ok? {
        EntryWalkKeepsLinks(ns, w1.trace, l, calls[1..], hook, fuel);
      }
    }
  }

  /** Setting the root's status keeps every chain a chain. */
  lemma ChainIgnoresStatus(ns: seq<Node>, l: seq<nat>, root: nat, st: Status)
    requires Linked(ns) && IsChain(ns, l) && root < |ns|
    ensures Linked(ns[root := ns[root].(status := st)])
    ensures IsChain(ns[root := ns[root].(status := st)], l)
  {
    var ns1 := ns[root := ns[root].(status := st)];
    assert forall i :: 0 <= i < |ns| ==> ns1[i].child == ns[i].child;
    assert forall i :: 0 <= i < |ns| ==> NodeIn(ns1[i], |ns|) by {
      forall i | 0 <= i < |ns| ensures NodeIn(ns1[i], |ns|) {
        assert NodeIn(ns[i], |ns|);
      }
    }
  }

  /** When a stage completes, every node of the root's chain is left without a child, so the
      chain can be collected; the walk rewires nothing on such a chain. */
  lemma StageClearsChain(ns: seq<Node>, tr: seq<Event>, l: seq<nat>, e: Entry, hook: bool, fuel: nat)
    requires Linked(ns) && IsChain(ns, l) && NoNested(ns, l) && fuel >= |l| && EntryIn(e, |ns|)
    ensures var w := StageWalk(ns, tr, l[0], e, hook, fuel);
      w.res.Ok? ==> forall i :: 0 <= i < |l| ==> w.nodes[l[i]].child.None?
  {
    var root := l[0];
    EntryWalkKeepsLinks(ns, tr, l, e.calls, hook, fuel);
    var w1 := EntryWalk(ns, tr, root, e.calls, hook, fuel);
    var exc :=
      if w1.res.Threw? then Some(Wrapped(Wrapped(w1.res.e)))
      else if e.ends.Some? then Some(Wrapped(Wrapped(e.ends.value)))
      else None;
    if w1.res.Ok? || w1.res.Threw? {
      assert StageWalk(ns, tr, root, e, hook, fuel) == Complete(ns, w1.trace, root, exc, hook, fuel);
      if exc.Some? {
        ErrorWalkChain(ns, w1.trace, l, exc.value, hook, fuel);
        ChainIgnoresStatus(ns, l, root, Rejected);
        ClearChain(ns[root := ns[root].(status := Rejected)], l);
      } else if ns[root].status == Pending {
        ChainIgnoresStatus(ns, l, root, Fulfilled);
        ClearChain(ns[root := ns[root].(status := Fulfilled)], l);
      } else {
        ClearChain(ns, l);
      }
    }
  }

  /** The heap of `HookTwiceInOneStage`: root 0 with a fail handler that throws `y`, node 1
      whose success continuation throws `x`, node 2 with a finish continuation. */
  function TwiceHeap(e: Error, x: Error, y: Error): (ns: seq<Node>)
    ensures Linked(ns) && IsChain(ns, [0, 1, 2]) && NoNested(ns, [0, 1, 2])
  {
    [Node(None, None, Some(Throw(y)), false, Some(Entry([Reject(e)], None)), Some(1), Pending, Null, None, false),
     Node(Some(Throw(x)), None, None, false, None, Some(2), Pending, Null, Some(0), false),
     Node(None, None, None, true, None, None, Pending, Null, Some(0), false)]
  }

  /** One failure path on that heap: the handler runs, the uncaught handler and finish run at
      node 2, then node 1's continuation throws on the success path. */
  lemma TwiceErrorRef(e: Error, x: Error, y: Error, err: Error)
    ensures ErrorRef(TwiceHeap(e, x, y), [0, 1, 2], err, true) ==
      Run([RanFail(0, err), RanHook(err), RanFinish(2), RanSuccess(1, Null)], Threw(Wrapped(x)))
  {
    var ns := TwiceHeap(e, x, y);
    var l := [0, 1, 2];
    assert l[1..] == [1, 2] && [1, 2][1..] == [2];
    assert ErrorRef(ns, [2], err, true) == Run([RanHook(err), RanFinish(2)], Ok);
    assert ErrorRef(ns, [1, 2], err, true) == Run([RanHook(err), RanFinish(2)], Ok);
    assert AfterFail(ns, l, Null) == Run([RanSuccess(1, Null)], Threw(Wrapped(x)));
  }

  /** The uncaught handler can run twice in one stage. The entry function rejects; the root's
      fail handler throws, so the rest of the chain is walked on the failure path (the handler
      runs at the end) and then on the success path, where node 1 throws. That exception
      escapes the entry function and `handle` rejects the root again with it, wrapped three
      times, and the same two walks repeat. */
  lemma HookTwiceInOneStage(e: Error, x: Error, y: Error)
    ensures var w := StageWalk(TwiceHeap(e, x, y), [], 0, Entry([Reject(e)], None), true, 3);
      var x3 := Wrapped(Wrapped(Wrapped(x)));
      && w.res == Ok
      && w.trace == [RanFail(0, e), RanHook(e), RanFinish(2), RanSuccess(1, Null),
                     RanFail(0, x3), RanHook(x3), RanFinish(2), RanSuccess(1, Null)]
  {
    var ns := TwiceHeap(e, x, y);
    var l := [0, 1, 2];
    var x3 := Wrapped(Wrapped(Wrapped(x)));
    var tr1 := [RanFail(0, e), RanHook(e), RanFinish(2), RanSuccess(1, Null)];
    ErrorWalkChain(ns, [], l, e, true, 3);
    TwiceErrorRef(e, x, y, e);
    assert EntryWalk(ns, [], 0, [Reject(e)], true, 3) == Walk(ns, tr1, Threw(Wrapped(x)));
    ErrorWalkChain(ns, tr1, l, x3, true, 3);
    TwiceErrorRef(e, x, y, x3);
    assert ErrorWalk(ns, tr1, 0, x3, true, 3).trace == tr1 + [RanFail(0, x3), RanHook(x3), RanFinish(2), RanSuccess(1, Null)];
  }
}
