/** The promise objects of `Promise` as one mutable heap: building chains (`then`, `fail`,
    `finish`), the root delegation of `getStatus`, `getTag` and `setTag`, the `execute()`
    guard, the walk methods that rewire `child` links in place, and the completion stage. The
    thread pool is replaced by running the stage at once, inside `Execute`. */
module PromiseHeap {
  import opened Wrappers
  import opened PromiseChain
  import opened PromiseWalk

  /** Every root (a promise made by `new Promise(...)`) has its entry function. */
  predicate RootsHaveEntry(ns: seq<Node>)
  {
    forall i :: 0 <= i < |ns| && ns[i].ancestor.None? ==> ns[i].entry.Some?
  }

  /** The heap invariant: references in range, every `ancestor` a root, roots with entries. */
  predicate WellFormed(ns: seq<Node>)
  {
    Linked(ns) && FlatAncestors(ns) && RootsHaveEntry(ns)
  }

  lemma WellFormedLinks(ns: seq<Node>, ns': seq<Node>)
    requires WellFormed(ns) && SameButLinks(ns, ns')
    ensures WellFormed(ns')
    ensures forall m :: 0 <= m < |ns| ==> RootOf(ns', m) == RootOf(ns, m)
  {
    SameButLinksKeepsLinked(ns, ns');
    forall i | 0 <= i < |ns|
      ensures ns'[i].ancestor == ns[i].ancestor && ns'[i].entry == ns[i].entry
    {
      assert ns'[i] == ns[i].(child := ns'[i].child);
    }
  }

  /** The root's guard of `execute()`: it is pending and not yet started. */
  predicate CanExecute(ns: seq<Node>, n: nat)
    requires Linked(ns) && n < |ns|
  {
    ns[RootOf(ns, n)].status == Pending && !ns[RootOf(ns, n)].inExecute
  }

  /** The outcome of `execute()`: it throws "Promise is not in pending status", or it starts
      the stage, which ends as `Res` says (`Ok` once the completion stage has run). */
  datatype Started = NotPending | Done(end: Res)

  class Promises {
    var nodes: seq<Node>
    /** The continuations run so far, in order. */
    var trace: seq<Event>
    /** `globalObjectSet`: promises made by `new Promise(...)` whose stage has not completed. */
    var registry: set<nat>
    /** Whether `globalUncaughtExceptionHandler` is set. */
    var hook: bool

    ghost predicate Valid()
      reads this
    {
      WellFormed(nodes)
    }

    constructor ()
      ensures Valid() && nodes == [] && trace == [] && registry == {} && !hook
    {
      nodes := [];
      trace := [];
      registry := {};
      hook := false;
    }

    /** `setUncaughtExceptionHandler`. */
    method SetUncaughtExceptionHandler(installed: bool)
      modifies this
      ensures hook == installed
      ensures nodes == old(nodes) && trace == old(trace) && registry == old(registry)
    {
      hook := installed;
    }

    // -------------------------------------------------------------------------
    // Building chains

    /** `new Promise(listener)`: a fresh pending root, registered in the global set. */
    method NewPromise(e: Entry) returns (p: nat)
      requires Valid() && EntryIn(e, |nodes|)
      modifies this
      ensures Valid()
      ensures p == |old(nodes)| && nodes == old(nodes) + [NewRoot(e)]
      ensures registry == old(registry) + {p}
      ensures trace == old(trace) && hook == old(hook)
    {
      p := |nodes|;
      nodes := nodes + [NewRoot(e)];
      registry := registry + {p};
      assert forall i :: 0 <= i < p ==> nodes[i] == old(nodes)[i];
    }

    /** The private constructor `new Promise(ancestor)` appended as the new child of `n`, its
        ancestor being the root of `n`'s chain, never `n` itself unless `n` is that root. */
    method AddChild(n: nat, nd: Node) returns (c: nat)
      requires Valid() && n < |nodes|
      requires nd.ancestor == nodes[n].ancestor && nd.entry == nodes[n].entry && NodeIn(nd, |nodes|)
      modifies this
      ensures Valid()
      ensures c == |old(nodes)|
      ensures nodes == old(nodes)[n := nd.(child := Some(c))] + [NewChild(RootOf(old(nodes), n))]
      ensures RootOf(nodes, c) == RootOf(nodes, n) == RootOf(old(nodes), n)
      ensures forall m :: 0 <= m < |old(nodes)| ==> RootOf(nodes, m) == RootOf(old(nodes), m)
      ensures trace == old(trace) && registry == old(registry) && hook == old(hook)
    {
      var root := RootOf(nodes, n);
      c := |nodes|;
      var ns := nodes[n := nd.(child := Some(c))];
      nodes := ns + [NewChild(root)];
      assert forall i :: 0 <= i < c ==> nodes[i] == ns[i];
      assert forall i :: 0 <= i < c && i != n ==> nodes[i] == old(nodes)[i];
      assert nodes[n].ancestor == old(nodes)[n].ancestor;
      forall i | 0 <= i < |nodes|
        ensures NodeIn(nodes[i], |nodes|)
      {
        if i < c && i != n {
          assert NodeIn(old(nodes)[i], c);
        }
      }
    }

    /** `then(IResolve)`: installs the continuation, clears any runnable, and returns a
        fresh child. */
    method Then(n: nat, o: Outcome) returns (c: nat)
      requires Valid() && n < |nodes| && OutcomeIn(Some(o), |nodes|)
      modifies this
      ensures Valid()
      ensures c == |old(nodes)|
      ensures nodes == old(nodes)[n := old(nodes)[n].(onSuccess := Some(o), onRun := None, child := Some(c))]
        + [NewChild(RootOf(old(nodes), n))]
      ensures RootOf(nodes, c) == RootOf(nodes, n)
      ensures trace == old(trace) && registry == old(registry) && hook == old(hook)
    {
      assert NodeIn(nodes[n], |nodes|);
      c := AddChild(n, nodes[n].(onRun := None, onSuccess := Some(o)));
    }

    /** `then(Runnable)`: installs the runnable (`Some(e)`: it throws `e`), clears any
        `IResolve`, and returns a fresh child. */
    method ThenRun(n: nat, r: Option<Error>) returns (c: nat)
      requires Valid() && n < |nodes|
      modifies this
      ensures Valid()
      ensures c == |old(nodes)|
      ensures nodes == old(nodes)[n := old(nodes)[n].(onSuccess := None, onRun := Some(r), child := Some(c))]
        + [NewChild(RootOf(old(nodes), n))]
      ensures RootOf(nodes, c) == RootOf(nodes, n)
      ensures trace == old(trace) && registry == old(registry) && hook == old(hook)
    {
      assert NodeIn(nodes[n], |nodes|);
      c := AddChild(n, nodes[n].(onRun := Some(r), onSuccess := None));
    }

    /** `fail(IReject)`: installs the fail handler and returns a fresh child. */
    method Fail(n: nat, o: Outcome) returns (c: nat)
      requires Valid() && n < |nodes| && OutcomeIn(Some(o), |nodes|)
      modifies this
      ensures Valid()
      ensures c == |old(nodes)|
      ensures nodes == old(nodes)[n := old(nodes)[n].(onError := Some(o), child := Some(c))]
        + [NewChild(RootOf(old(nodes), n))]
      ensures RootOf(nodes, c) == RootOf(nodes, n)
      ensures trace == old(trace) && registry == old(registry) && hook == old(hook)
    {
      assert NodeIn(nodes[n], |nodes|);
      c := AddChild(n, nodes[n].(onError := Some(o)));
    }

    /** `finish(IFinish)`: installs the finish continuation; the `PromiseExecutor` it
        returns only delegates to `n`, so `n` stands for it. */
    method Finish(n: nat) returns (x: nat)
      requires Valid() && n < |nodes|
      modifies this
      ensures Valid() && x == n
      ensures nodes == old(nodes)[n := old(nodes)[n].(onFinish := true)]
      ensures trace == old(trace) && registry == old(registry) && hook == old(hook)
    {
      nodes := nodes[n := nodes[n].(onFinish := true)];
      assert forall i :: 0 <= i < |nodes| && i != n ==> nodes[i] == old(nodes)[i];
      x := n;
    }

    // -------------------------------------------------------------------------
    // Root delegation

    /** `getStatus()`. */
    function GetStatus(n: nat): (s: Status)
      reads this
      requires Valid() && n < |nodes|
      ensures nodes[n].ancestor.None? ==> s == nodes[n].status
      ensures nodes[n].ancestor.Some? ==> s == nodes[nodes[n].ancestor.value].status
    {
      nodes[RootOf(nodes, n)].status
    }

    /** `getTag()`. */
    function GetTag(n: nat): (t: Value)
      reads this
      requires Valid() && n < |nodes|
      ensures nodes[n].ancestor.None? ==> t == nodes[n].tag
      ensures nodes[n].ancestor.Some? ==> t == nodes[nodes[n].ancestor.value].tag
    {
      nodes[RootOf(nodes, n)].tag
    }

    /** `setTag(tag)`: writes the root's tag, so every node of the chain reads it back. */
    method SetTag(n: nat, t: Value)
      requires Valid() && n < |nodes| && ValueIn(t, |nodes|)
      modifies this
      ensures Valid()
      ensures nodes == old(nodes)[RootOf(old(nodes), n) := old(nodes)[RootOf(old(nodes), n)].(tag := t)]
      ensures forall m :: 0 <= m < |nodes| && RootOf(nodes, m) == RootOf(nodes, n) ==> GetTag(m) == t
      ensures forall m :: 0 <= m < |nodes| ==> GetStatus(m) == old(GetStatus(m))
      ensures trace == old(trace) && registry == old(registry) && hook == old(hook)
    {
      var root := RootOf(nodes, n);
      nodes := nodes[root := nodes[root].(tag := t)];
      assert forall i :: 0 <= i < |nodes| ==> nodes[i].ancestor == old(nodes)[i].ancestor;
      assert forall i :: 0 <= i < |nodes| && i != root ==> nodes[i] == old(nodes)[i];
    }

    // -------------------------------------------------------------------------
    // The walk

    /** `_handleSuccessAsyncRun`. */
    method HandleSuccessRun(n: nat, arg: Value, fuel: nat) returns (res: Res)
      requires Valid() && n < |nodes|
      modifies this
      ensures Valid()
      ensures Walk(nodes, trace, res) == RunWalk(old(nodes), old(trace), n, arg, fuel)
      ensures registry == old(registry) && hook == old(hook)
      decreases fuel, 0
    {
      if fuel == 0 {
        return OutOfFuel;
      }
      var nd := nodes[n];
      if nd.onSuccess.Some? {
        trace := trace + [RanSuccess(n, arg)];
        match nd.onSuccess.value
        case Throw(e) =>
          res := Threw(e);
        case Return(v) =>
          res := HandleSuccessAccept(n, v, fuel - 1);
      } else if nd.onRun.Some? {
        trace := trace + [RanRunnable(n)];
        if nd.onRun.value.Some? {
          res := Threw(nd.onRun.value.value);
        } else {
          res := HandleSuccessAccept(n, Null, fuel - 1);
        }
      } else if nd.child.Some? {
        res := HandleSuccessRun(nd.child.value, arg, fuel - 1);
      } else {
        if nd.onFinish {
          trace := trace + [RanFinish(n)];
        }
        res := Ok;
      }
      res := Wrap(res);
    }

    /** `_handleSuccessAsyncAccept`. */
    method HandleSuccessAccept(n: nat, v: Value, fuel: nat) returns (res: Res)
      requires Valid() && n < |nodes| && ValueIn(v, |nodes|)
      modifies this
      ensures Valid()
      ensures Walk(nodes, trace, res) == AcceptWalk(old(nodes), old(trace), n, v, fuel)
      ensures registry == old(registry) && hook == old(hook)
      decreases fuel, 1
    {
      if v.Ref? {
        var spliced := SpliceNested(n, v.node);
        if !spliced {
          return Loops;
        }
        res := HandleSuccessRun(nodes[n].child.value, v, fuel);
        res := Wrap(res);
      } else if nodes[n].child.Some? {
        res := HandleSuccessRun(nodes[n].child.value, v, fuel);
        res := Wrap(res);
      } else {
        if nodes[n].onFinish {
          trace := trace + [RanFinish(n)];
        }
        res := Ok;
      }
    }

    /** The splice: `p` becomes the child of `n`, and when `n` had a child, the tail of `p`'s
        chain, found by following links, takes it over. `false` when the tail search meets a
        cycle, where the loop of the source never ends. */
    method SpliceNested(n: nat, p: nat) returns (spliced: bool)
      requires Valid() && n < |nodes| && p < |nodes|
      modifies this
      ensures Valid()
      ensures spliced <==> Splice(old(nodes), n, p).Some?
      ensures nodes == if spliced then Splice(old(nodes), n, p).value else old(nodes)
      ensures trace == old(trace) && registry == old(registry) && hook == old(hook)
    {
      if nodes[n].child.None? {
        nodes := SetChild(nodes, n, Some(p));
        WellFormedLinks(old(nodes), nodes);
        return true;
      }
      var ns := nodes;
      assert Linked(ns) && p < |ns|;
      var pChild: nat := p;
      var steps: nat := 0;
      while ns[pChild].child.Some? && steps < |ns|
        invariant Linked(ns) && pChild < |ns| && steps <= |ns|
        invariant TailFrom(ns, p, |ns|) == TailFrom(ns, pChild, |ns| - steps)
        decreases |ns| - steps
      {
        pChild := ns[pChild].child.value;
        steps := steps + 1;
      }
      if ns[pChild].child.Some? {
        return false;
      }
      var oldP := nodes[n].child;
      nodes := SetChild(nodes, n, Some(p));
      nodes := SetChild(nodes, pChild, oldP);
      SameButLinksTrans(old(nodes), old(nodes)[n := old(nodes)[n].(child := Some(p))], nodes);
      WellFormedLinks(old(nodes), nodes);
      spliced := true;
    }

    /** `handleError` (and `reject`, which only calls it). */
    method HandleError(n: nat, err: Error, fuel: nat) returns (res: Res)
      requires Valid() && n < |nodes|
      modifies this
      ensures Valid()
      ensures Walk(nodes, trace, res) == ErrorWalk(old(nodes), old(trace), n, err, old(hook), fuel)
      ensures registry == old(registry) && hook == old(hook)
      decreases fuel, 1
    {
      if fuel == 0 {
        return OutOfFuel;
      }
      var nd := nodes[n];
      if nd.onError.Some? {
        if nd.onError.value.Throw? {
          res := FailHandlerThrew(n, err, fuel);
        } else {
          res := FailHandlerReturned(n, err, fuel);
        }
      } else if nd.child.Some? {
        res := HandleError(nd.child.value, err, fuel - 1);
      } else {
        if nd.onFinish {
          if hook {
            trace := trace + [RanHook(err)];
          }
          trace := trace + [RanFinish(n)];
        }
        res := Ok;
      }
    }

    /** `handleError` at a fail handler that throws: the exception is dropped, the child is
        rejected with the original error (or finish runs), and then, `res` still being null,
        the child is resolved with null as well. */
    method FailHandlerThrew(n: nat, err: Error, fuel: nat) returns (res: Res)
      requires Valid() && n < |nodes| && fuel > 0
      requires nodes[n].onError.Some? && nodes[n].onError.value.Throw?
      modifies this
      ensures Valid()
      ensures Walk(nodes, trace, res) == ErrorWalk(old(nodes), old(trace), n, err, old(hook), fuel)
      ensures registry == old(registry) && hook == old(hook)
      decreases fuel, 0
    {
      var nd := nodes[n];
      trace := trace + [RanFail(n, err)];
      if nd.child.Some? {
        res := HandleError(nd.child.value, err, fuel - 1);
      } else {
        if nd.onFinish {
          trace := trace + [RanFinish(n)];
        }
        res := Ok;
      }
      if res.Ok? {
        res := ResolveAfterFail(n, fuel - 1);
      }
    }

    /** `handleError` at a fail handler that returns: its result is handed on. */
    method FailHandlerReturned(n: nat, err: Error, fuel: nat) returns (res: Res)
      requires Valid() && n < |nodes| && fuel > 0
      requires nodes[n].onError.Some? && nodes[n].onError.value.Return?
      modifies this
      ensures Valid()
      ensures Walk(nodes, trace, res) == ErrorWalk(old(nodes), old(trace), n, err, old(hook), fuel)
      ensures registry == old(registry) && hook == old(hook)
    {
      var v := nodes[n].onError.value.v;
      trace := trace + [RanFail(n, err)];
      if v == Null {
        res := ResolveAfterFail(n, fuel - 1);
      } else {
        res := AcceptAfterFail(n, v, fuel - 1);
      }
    }

    /** The `res == null` branch after a fail handler. */
    method ResolveAfterFail(n: nat, fuel: nat) returns (res: Res)
      requires Valid() && n < |nodes|
      modifies this
      ensures Valid()
      ensures Walk(nodes, trace, res) == FailNullWalk(old(nodes), old(trace), n, fuel)
      ensures registry == old(registry) && hook == old(hook)
    {
      if nodes[n].child.Some? {
        res := HandleSuccessRun(nodes[n].child.value, Null, fuel);
      } else {
        if nodes[n].onFinish {
          trace := trace + [RanFinish(n)];
        }
        res := Ok;
      }
    }

    /** The `res != null` branch after a fail handler. */
    method AcceptAfterFail(n: nat, v: Value, fuel: nat) returns (res: Res)
      requires Valid() && n < |nodes| && ValueIn(v, |nodes|) && v != Null
      modifies this
      ensures Valid()
      ensures Walk(nodes, trace, res) == FailValueWalk(old(nodes), old(trace), n, v, fuel)
      ensures registry == old(registry) && hook == old(hook)
    {
      if v.Ref? {
        var spliced := SpliceNested(n, v.node);
        if !spliced {
          return Loops;
        }
        res := HandleSuccessRun(nodes[n].child.value, Null, fuel);
      } else if nodes[n].child.Some? {
        res := HandleSuccessRun(nodes[n].child.value, v, fuel);
      } else {
        if nodes[n].onFinish {
          trace := trace + [RanFinish(n)];
        }
        res := Ok;
      }
    }

    // -------------------------------------------------------------------------
    // `execute()` and its stage

    /** The do-while loops of `handle`: from the root, null each `child` and move to the old
        child until there is none. */
    method ClearLinks(root: nat)
      requires Valid() && root < |nodes|
      modifies this
      ensures Valid()
      ensures nodes == ClearFrom(old(nodes), root)
      ensures trace == old(trace) && registry == old(registry) && hook == old(hook)
    {
      var p: Option<nat> := Some(root);
      while p.Some?
        invariant WellFormed(nodes) && SameButLinks(old(nodes), nodes)
        invariant p.Some? ==> p.value < |nodes| && ClearFrom(nodes, p.value) == ClearFrom(old(nodes), root)
        invariant p.None? ==> nodes == ClearFrom(old(nodes), root)
        invariant trace == old(trace) && registry == old(registry) && hook == old(hook)
        decreases LinkCount(nodes) + (if p.Some? then 1 else 0)
      {
        var p1 := nodes[p.value].child;
        var before := nodes;
        var after := SetChild(nodes, p.value, None);
        if p1.Some? {
          LinkCountDrop(nodes, p.value);
        } else {
          assert after == before;
        }
        nodes := after;
        SameButLinksTrans(old(nodes), before, nodes);
        WellFormedLinks(before, nodes);
        p := p1;
      }
    }

    /** The `handle` stage: an exceptional stage re-walks the failure path from the root,
        then marks it rejected; a normal one marks a pending root fulfilled; both then clear
        the links from the root. */
    method CompleteStage(root: nat, exc: Option<Error>, fuel: nat) returns (res: Res)
      requires Valid() && root < |nodes|
      modifies this
      ensures Valid()
      ensures Walk(nodes, trace, res) == Complete(old(nodes), old(trace), root, exc, old(hook), fuel)
      ensures forall m :: 0 <= m < |nodes| ==> RootOf(nodes, m) == RootOf(old(nodes), m)
      ensures nodes[root].inExecute == old(nodes)[root].inExecute
      ensures registry == old(registry) && hook == old(hook)
    {
      if exc.Some? {
        ghost var n0 := nodes;
        res := HandleError(root, exc.value, fuel);
        WellFormedLinks(n0, nodes);
        assert nodes[root] == n0[root].(child := nodes[root].child);
        if res.Loops? || res.OutOfFuel? {
          return;
        }
        SetStatus(root, Rejected);
      } else if nodes[root].status == Pending {
        SetStatus(root, Fulfilled);
      }
      ghost var n1 := nodes;
      ClearLinks(root);
      WellFormedLinks(n1, nodes);
      assert nodes[root] == n1[root].(child := nodes[root].child);
      res := Ok;
    }

    method SetStatus(root: nat, s: Status)
      requires Valid() && root < |nodes|
      modifies this
      ensures Valid()
      ensures nodes == old(nodes)[root := old(nodes)[root].(status := s)]
      ensures forall m :: 0 <= m < |nodes| ==> RootOf(nodes, m) == RootOf(old(nodes), m)
      ensures trace == old(trace) && registry == old(registry) && hook == old(hook)
    {
      nodes := nodes[root := nodes[root].(status := s)];
      assert forall i :: 0 <= i < |nodes| && i != root ==> nodes[i] == old(nodes)[i];
    }

    /** The entry function of the root calls its callbacks in order; the first walk that
        does not end normally ends it. */
    method RunEntry(root: nat, calls: seq<Settle>, fuel: nat) returns (res: Res)
      requires Valid() && root < |nodes|
      requires forall i :: 0 <= i < |calls| ==> (calls[i].Resolve? ==> ValueIn(calls[i].v, |nodes|))
      modifies this
      ensures Valid()
      ensures Walk(nodes, trace, res) == EntryWalk(old(nodes), old(trace), root, calls, old(hook), fuel)
      ensures forall m :: 0 <= m < |nodes| ==> RootOf(nodes, m) == RootOf(old(nodes), m)
      ensures nodes[root].inExecute == old(nodes)[root].inExecute
      ensures nodes[root].status == old(nodes)[root].status
      ensures registry == old(registry) && hook == old(hook)
    {
      var i := 0;
      res := Ok;
      while i < |calls| && res.Ok?
        invariant 0 <= i <= |calls|
        invariant Valid() && |nodes| == |old(nodes)|
        invariant SameButLinks(old(nodes), nodes)
        invariant EntryWalk(old(nodes), old(trace), root, calls, hook, fuel) ==
          if res.Ok? then EntryWalk(nodes, trace, root, calls[i..], hook, fuel) else Walk(nodes, trace, res)
        invariant registry == old(registry) && hook == old(hook)
        decreases |calls| - i
      {
        ghost var before := nodes;
        assert calls[i..][0] == calls[i] && calls[i..][1..] == calls[i + 1..];
        match calls[i] {
          case Resolve(v) =>
            res := HandleSuccessRun(root, v, fuel);
          case Reject(e) =>
            res := HandleError(root, e, fuel);
        }
        SameButLinksTrans(old(nodes), before, nodes);
        i := i + 1;
      }
      WellFormedLinks(old(nodes), nodes);
      assert nodes[root] == old(nodes)[root].(child := nodes[root].child);
    }

    /** `execute()` on any node of a chain: the root's guard, then the stage. The entry
        function's calls run first; what escapes it reaches the completion stage wrapped in
        a `RuntimeException` and a `CompletionException`. A stage whose walk never ends
        neither completes nor leaves the global set. */
    method Execute(n: nat, fuel: nat) returns (r: Started)
      requires Valid() && n < |nodes|
      modifies this
      ensures Valid()
      ensures r.NotPending? <==> !CanExecute(old(nodes), n)
      ensures r.NotPending? ==> nodes == old(nodes) && trace == old(trace) && registry == old(registry)
      ensures r.Done? ==>
        var root := RootOf(old(nodes), n);
        var started := old(nodes)[root := old(nodes)[root].(inExecute := true)];
        var entry := old(nodes)[root].entry.value;
        var w := EntryWalk(started, old(trace), root, entry.calls, old(hook), fuel);
        && Walk(nodes, trace, r.end) == StageWalk(started, old(trace), root, entry, old(hook), fuel)
        && registry == (if w.res.Ok? || w.res.Threw? then old(registry) - {root} else old(registry))
      ensures r.Done? ==> forall m :: 0 <= m < |nodes| && RootOf(nodes, m) == RootOf(nodes, n) ==> !CanExecute(nodes, m)
      ensures hook == old(hook)
    {
      var root := RootOf(nodes, n);
      if nodes[root].status != Pending || nodes[root].inExecute {
        return NotPending;
      }
      nodes := nodes[root := nodes[root].(inExecute := true)];
      assert forall i :: 0 <= i < |nodes| ==> nodes[i].ancestor == old(nodes)[i].ancestor;
      assert forall i :: 0 <= i < |nodes| && i != root ==> nodes[i] == old(nodes)[i];
      var res := RunStage(root, fuel);
      r := Done(res);
    }

    /** The asynchronous stage of a started root: its entry function, then, unless a walk
        never ends, `handle`, which first takes the root out of the global set. */
    method RunStage(root: nat, fuel: nat) returns (res: Res)
      requires Valid() && root < |nodes| && nodes[root].ancestor.None?
      modifies this
      ensures Valid()
      ensures var entry := old(nodes)[root].entry.value;
        var w := EntryWalk(old(nodes), old(trace), root, entry.calls, old(hook), fuel);
        && Walk(nodes, trace, res) == StageWalk(old(nodes), old(trace), root, entry, old(hook), fuel)
        && registry == (if w.res.Ok? || w.res.Threw? then old(registry) - {root} else old(registry))
      ensures forall m :: 0 <= m < |nodes| ==> RootOf(nodes, m) == RootOf(old(nodes), m)
      ensures nodes[root].inExecute == old(nodes)[root].inExecute
      ensures hook == old(hook)
    {
      var entry := nodes[root].entry.value;
      res := RunEntry(root, entry.calls, fuel);
      if res.Loops? || res.OutOfFuel? {
        return;
      }
      registry := registry - {root};
      var exc := if res.Threw? then Some(Wrapped(Wrapped(res.e)))
        else if entry.ends.Some? then Some(Wrapped(Wrapped(entry.ends.value))) else None;
      res := CompleteStage(root, exc, fuel);
    }
  }
}
