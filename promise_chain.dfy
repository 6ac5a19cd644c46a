/** The node heap of `Promise`: every promise object is an index into a sequence of nodes, and
    the `child` links thread nodes into chains. User continuations are declared data: each one
    either returns a value (possibly another promise) or throws. */
module PromiseChain {
  import opened Wrappers

  datatype Status = Pending | Fulfilled | Rejected

  /** A Java exception. `Wrapped(e)` is an exception whose cause is `e`: `new
      RuntimeException(e)`, or the `CompletionException` that an asynchronous stage wraps
      around what its supplier threw. */
  datatype Error = Thrown(code: int) | Wrapped(cause: Error)

  /** A value passed along a chain: null, some plain object, or a promise object. */
  datatype Value = Null | Data(d: int) | Ref(node: nat)

  /** What one invocation of an `IResolve` or `IReject` continuation does. */
  datatype Outcome = Return(v: Value) | Throw(e: Error)

  /** One call that the `IExecute` entry function makes to the callbacks it is handed. */
  datatype Settle = Resolve(v: Value) | Reject(e: Error)

  /** The entry function given to `new Promise(...)`: the callbacks it calls, in order, and
      whether it then throws. */
  datatype Entry = Entry(calls: seq<Settle>, ends: Option<Error>)

  /** One promise object. `onSuccess` is an `IResolve`, `onRun` a `Runnable` (it returns
      nothing; `Some(e)` means it throws `e`), `onError` an `IReject`, `onFinish` whether an
      `IFinish` is set, `entry` the `IExecute` of a promise made by `new Promise(...)`. */
  datatype Node = Node(
    onSuccess: Option<Outcome>,
    onRun: Option<Option<Error>>,
    onError: Option<Outcome>,
    onFinish: bool,
    entry: Option<Entry>,
    child: Option<nat>,
    status: Status,
    tag: Value,
    ancestor: Option<nat>,
    inExecute: bool)

  /** `new Promise(listener)`: a root with no continuations. */
  function NewRoot(e: Entry): Node
  {
    Node(None, None, None, false, Some(e), None, Pending, Null, None, false)
  }

  /** `new Promise(ancestor)`, the private constructor used by `then` and `fail`. */
  function NewChild(root: nat): Node
  {
    Node(None, None, None, false, None, None, Pending, Null, Some(root), false)
  }

  // ---------------------------------------------------------------------------
  // References stay inside the heap

  predicate ValueIn(v: Value, size: nat)
  {
    v.Ref? ==> v.node < size
  }

  predicate OutcomeIn(o: Option<Outcome>, size: nat)
  {
    o.Some? && o.value.Return? ==> ValueIn(o.value.v, size)
  }

  predicate EntryIn(e: Entry, size: nat)
  {
    forall i :: 0 <= i < |e.calls| ==> (e.calls[i].Resolve? ==> ValueIn(e.calls[i].v, size))
  }

  predicate NodeIn(nd: Node, size: nat)
  {
    && OutcomeIn(nd.onSuccess, size)
    && OutcomeIn(nd.onError, size)
    && (nd.entry.Some? ==> EntryIn(nd.entry.value, size))
    && (nd.child.Some? ==> nd.child.value < size)
    && (nd.ancestor.Some? ==> nd.ancestor.value < size)
    && ValueIn(nd.tag, size)
  }

  /** Every reference held anywhere in the heap names a node of the heap. */
  predicate Linked(ns: seq<Node>)
  {
    forall i :: 0 <= i < |ns| ==> NodeIn(ns[i], |ns|)
  }

  /** `ns'` differs from `ns` at most in `child` links, and those stay inside the heap. */
  predicate SameButLinks(ns: seq<Node>, ns': seq<Node>)
  {
    && |ns'| == |ns|
    && forall i :: 0 <= i < |ns| ==>
         && ns'[i] == ns[i].(child := ns'[i].child)
         && (ns'[i].child.Some? ==> ns'[i].child.value < |ns|)
  }

  lemma SameButLinksKeepsLinked(ns: seq<Node>, ns': seq<Node>)
    requires Linked(ns) && SameButLinks(ns, ns')
    ensures Linked(ns')
  {
    forall i | 0 <= i < |ns'|
      ensures NodeIn(ns'[i], |ns'|)
    {
      assert ns'[i] == ns[i].(child := ns'[i].child);
    }
  }

  lemma SameButLinksTrans(a: seq<Node>, b: seq<Node>, c: seq<Node>)
    requires SameButLinks(a, b) && SameButLinks(b, c)
    ensures SameButLinks(a, c)
  {
    forall i | 0 <= i < |a|
      ensures c[i] == a[i].(child := c[i].child)
    {
      assert b[i] == a[i].(child := b[i].child);
    }
  }

  /** Redirecting one link to a node of the heap changes nothing else. */
  function SetChild(ns: seq<Node>, n: nat, c: Option<nat>): (r: seq<Node>)
    requires n < |ns| && (c.Some? ==> c.value < |ns|)
    requires forall i :: 0 <= i < |ns| && ns[i].child.Some? ==> ns[i].child.value < |ns|
    ensures SameButLinks(ns, r) && r[n].child == c
    ensures forall i :: 0 <= i < |ns| && i != n ==> r[i] == ns[i]
  {
    ns[n := ns[n].(child := c)]
  }

  // ---------------------------------------------------------------------------
  // The root of a chain (`ancestor`)

  /** The node whose `status`, `tag` and `_inExecute` a node uses: `ancestor`, or the node
      itself when it has none. */
  function RootOf(ns: seq<Node>, n: nat): (r: nat)
    requires n < |ns| && Linked(ns)
    ensures r < |ns|
    ensures ns[n].ancestor.None? ==> r == n
  {
    if ns[n].ancestor.None? then n else ns[n].ancestor.value
  }

  /** Every `ancestor` is itself a root: no node delegates to a node that delegates further. */
  predicate FlatAncestors(ns: seq<Node>)
    requires Linked(ns)
  {
    forall i :: 0 <= i < |ns| && ns[i].ancestor.Some? ==> ns[ns[i].ancestor.value].ancestor.None?
  }

  // ---------------------------------------------------------------------------
  // Chains

  predicate Distinct(l: seq<nat>)
  {
    forall i, j :: 0 <= i < j < |l| ==> l[i] != l[j]
  }

  /** `l` lists the nodes reached from `l[0]` by following `child` links, and the last of them
      has no child: an acyclic, finite chain. */
  predicate IsChain(ns: seq<Node>, l: seq<nat>)
  {
    && |l| > 0
    && (forall i :: 0 <= i < |l| ==> l[i] < |ns|)
    && (forall i :: 0 <= i < |l| - 1 ==> ns[l[i]].child == Some(l[i + 1]))
    && ns[l[|l| - 1]].child.None?
    && Distinct(l)
  }

  lemma ChainTail(ns: seq<Node>, l: seq<nat>)
    requires IsChain(ns, l) && |l| > 1
    ensures IsChain(ns, l[1..])
  {
    var t := l[1..];
    forall i | 0 <= i < |t| - 1
      ensures ns[t[i]].child == Some(t[i + 1])
    {
      assert t[i] == l[i + 1] && t[i + 1] == l[i + 2];
    }
  }

  /** A chain is determined by its first node. */
  lemma {:induction false} ChainUnique(ns: seq<Node>, l: seq<nat>, l': seq<nat>)
    requires IsChain(ns, l) && IsChain(ns, l') && l[0] == l'[0]
    ensures l == l'
    decreases |l|
  {
    assert |l| > 1 ==> ns[l[0]].child == Some(l[1]);
    assert |l'| > 1 ==> ns[l'[0]].child == Some(l'[1]);
    assert ns[l[0]].child.None? <==> |l| == 1;
    assert ns[l'[0]].child.None? <==> |l'| == 1;
    if |l| > 1 {
      assert ns[l[0]].child == Some(l[1]) && ns[l'[0]].child == Some(l'[1]);
      ChainTail(ns, l);
      ChainTail(ns, l');
      ChainUnique(ns, l[1..], l'[1..]);
      assert l == [l[0]] + l[1..] && l' == [l'[0]] + l'[1..];
    }
  }

  // ---------------------------------------------------------------------------
  // A chain has at most as many nodes as the heap

  function Without(l: seq<nat>, x: nat): (r: seq<nat>)
    ensures forall y :: y in r <==> y in l && y != x
    ensures |r| <= |l|
  {
    if l == [] then [] else (if l[0] == x then [] else [l[0]]) + Without(l[1..], x)
  }

  lemma {:induction false} WithoutDistinct(l: seq<nat>, x: nat)
    requires Distinct(l)
    ensures Distinct(Without(l, x))
    ensures |Without(l, x)| >= |l| - 1
    ensures x !in l ==> |Without(l, x)| == |l|
  {
    if l != [] {
      var t := l[1..];
      assert Distinct(t) by {
        forall i, j | 0 <= i < j < |t| ensures t[i] != t[j] {
          assert t[i] == l[i + 1] && t[j] == l[j + 1];
        }
      }
      WithoutDistinct(t, x);
      assert l[0] !in t by {
        forall j | 0 <= j < |t| ensures t[j] != l[0] { assert t[j] == l[j + 1]; }
      }
      var h: seq<nat> := if l[0] == x then [] else [l[0]];
      var r := h + Without(t, x);
      assert Distinct(r) by {
        forall i, j | 0 <= i < j < |r| ensures r[i] != r[j] {
          if h != [] && i == 0 {
            assert r[j] in Without(t, x);
          }
        }
      }
      if l[0] == x {
        assert x !in t;
      }
    }
  }

  /** Pigeonhole: distinct indices below `size` number at most `size`. */
  lemma {:induction false} DistinctBelow(l: seq<nat>, size: nat)
    requires Distinct(l) && forall i :: 0 <= i < |l| ==> l[i] < size
    ensures |l| <= size
    decreases size
  {
    if |l| > 0 {
      assert l[0] < size;
      var r := Without(l, size - 1);
      WithoutDistinct(l, size - 1);
      forall i | 0 <= i < |r|
        ensures r[i] < size - 1
      {
        assert r[i] in l;
      }
      DistinctBelow(r, size - 1);
    }
  }

  // ---------------------------------------------------------------------------
  // The tail search of the splice: follow child links from the nested promise until a node
  // without a child (Promise.java:409-411)

  /** The node reached from `p` that has no child, looking at most `steps` links ahead;
      `None` when there is none within reach. */
  function TailFrom(ns: seq<Node>, p: nat, steps: nat): (r: Option<nat>)
    requires p < |ns| && Linked(ns)
    ensures r.Some? ==> r.value < |ns| && ns[r.value].child.None?
    decreases steps
  {
    if ns[p].child.None? then Some(p)
    else if steps == 0 then None
    else TailFrom(ns, ns[p].child.value, steps - 1)
  }

  lemma {:induction false} TailFromChain(ns: seq<Node>, l: seq<nat>, steps: nat)
    requires Linked(ns) && IsChain(ns, l) && steps >= |l| - 1
    ensures TailFrom(ns, l[0], steps) == Some(l[|l| - 1])
    decreases |l|
  {
    if |l| > 1 {
      assert ns[l[0]].child == Some(l[1]);
      ChainTail(ns, l);
      TailFromChain(ns, l[1..], steps - 1);
    }
  }

  /** The bounded search is exact on a chain: looking `|ns|` links ahead always finds the
      tail of an acyclic chain. A search that fails has therefore met a cycle, on which the
      loop of the source never ends. */
  lemma TailOfChain(ns: seq<Node>, l: seq<nat>)
    requires Linked(ns) && IsChain(ns, l)
    ensures TailFrom(ns, l[0], |ns|) == Some(l[|l| - 1])
  {
    DistinctBelow(l, |ns|);
    TailFromChain(ns, l, |ns|);
  }

  /** The splice of `_handleSuccessAsyncAccept` and `handleError` when a continuation returns
      the promise `p`: with no child, `p` simply becomes the child; otherwise `p` becomes the
      child and the old child hangs off the tail of `p`'s chain. `None` when the tail search
      never ends. */
  function Splice(ns: seq<Node>, n: nat, p: nat): (r: Option<seq<Node>>)
    requires Linked(ns) && n < |ns| && p < |ns|
    ensures r.Some? ==> SameButLinks(ns, r.value) && r.value[n].child == Some(p)
  {
    if ns[n].child.None? then Some(SetChild(ns, n, Some(p)))
    else match TailFrom(ns, p, |ns|)
      case None => None
      case Some(t) =>
        var oldP := ns[n].child;
        var ns1 := SetChild(ns, n, Some(p));
        var ns2 := SetChild(ns1, t, oldP);
        assert t != n;
        SameButLinksTrans(ns, ns1, ns2);
        Some(ns2)
  }

  /** Splicing the chain `lp` of `p` after `n`, whose chain is `[n] + rest`, gives the chain
      `[n] + lp + rest`: the nested nodes run first, then the old remainder, in order. */
  lemma SpliceChain(ns: seq<Node>, n: nat, rest: seq<nat>, lp: seq<nat>)
    requires Linked(ns) && n < |ns| && IsChain(ns, [n] + rest) && IsChain(ns, lp)
    requires forall i :: 0 <= i < |lp| ==> lp[i] != n && lp[i] !in rest
    ensures Splice(ns, n, lp[0]).Some?
    ensures IsChain(Splice(ns, n, lp[0]).value, [n] + lp + rest)
  {
    var l := [n] + rest;
    assert l[0] == n && forall k :: 1 <= k < |l| ==> l[k] == rest[k - 1];
    var t := lp[|lp| - 1];
    TailOfChain(ns, lp);
    var ns' := Splice(ns, n, lp[0]).value;
    assert t != n;
    if rest == [] {
      assert ns'[t].child.None?;
    } else {
      assert ns[n].child == Some(rest[0]) by { assert l[1] == rest[0]; }
      assert ns'[t].child == Some(rest[0]);
      assert forall k :: 0 <= k < |rest| ==> rest[k] != t;
    }
    SpliceLinks(ns, ns', n, t, rest, lp);
    ConcatDistinct(n, lp, rest);
  }

  /** The links of the spliced heap, given what the splice changed. */
  lemma SpliceLinks(ns: seq<Node>, ns': seq<Node>, n: nat, t: nat, rest: seq<nat>, lp: seq<nat>)
    requires |ns'| == |ns| && n < |ns| && IsChain(ns, [n] + rest) && IsChain(ns, lp)
    requires t == lp[|lp| - 1] && t != n
    requires forall i :: 0 <= i < |ns| && i != n && i != t ==> ns'[i] == ns[i]
    requires ns'[n].child == Some(lp[0])
    requires ns'[t].child == if rest == [] then None else Some(rest[0])
    requires forall i :: 0 <= i < |lp| ==> lp[i] != n && lp[i] !in rest
    requires forall k :: 0 <= k < |rest| ==> rest[k] != t
    ensures var m := [n] + lp + rest;
      && (forall i :: 0 <= i < |m| ==> m[i] < |ns'|)
      && (forall i :: 0 <= i < |m| - 1 ==> ns'[m[i]].child == Some(m[i + 1]))
      && ns'[m[|m| - 1]].child.None?
  {
    var l := [n] + rest;
    var m := [n] + lp + rest;
    assert forall k :: 0 <= k < |m| ==>
      m[k] == (if k == 0 then n else if k <= |lp| then lp[k - 1] else l[k - |lp|]);
    forall i | 0 <= i < |m| - 1
      ensures ns'[m[i]].child == Some(m[i + 1])
    {
      if 0 < i < |lp| {
        assert ns[lp[i - 1]].child == Some(lp[i]);
        assert lp[i - 1] != t && lp[i - 1] != n;
      } else if i == |lp| {
        assert m[i + 1] == l[1] == rest[0];
      } else if i > |lp| {
        var k := i - |lp|;
        assert ns[l[k]].child == Some(l[k + 1]);
        assert l[k] == rest[k - 1] && l[k] != l[0];
      }
    }
    if rest != [] {
      var k := |l| - 1;
      assert l[k] == rest[k - 1] && l[k] != l[0] && m[|m| - 1] == l[k];
    }
  }

  lemma ConcatDistinct(n: nat, lp: seq<nat>, rest: seq<nat>)
    requires Distinct([n] + rest) && Distinct(lp)
    requires forall i :: 0 <= i < |lp| ==> lp[i] != n && lp[i] !in rest
    ensures Distinct([n] + lp + rest)
  {
    var l := [n] + rest;
    var m := [n] + lp + rest;
    assert forall k :: 0 <= k < |m| ==>
      m[k] == (if k == 0 then n else if k <= |lp| then lp[k - 1] else l[k - |lp|]);
    forall i, j | 0 <= i < j < |m|
      ensures m[i] != m[j]
    {
      if i == 0 && j <= |lp| {
        assert m[j] == lp[j - 1];
      } else if i == 0 {
        assert m[j] == l[j - |lp|] && l[0] == n;
      } else if i <= |lp| && j <= |lp| {
        assert m[i] == lp[i - 1] && m[j] == lp[j - 1];
      } else if i <= |lp| {
        assert m[i] == lp[i - 1] && m[j] == rest[j - |lp| - 1];
      } else {
        assert m[i] == l[i - |lp|] && m[j] == l[j - |lp|];
      }
    }
  }

  // ---------------------------------------------------------------------------
  // Link clearing of the completion stage (the do-while loops of `handle`)

  /** The number of nodes that have a child. */
  function LinkCount(ns: seq<Node>): (c: nat)
    ensures c <= |ns|
  {
    if ns == [] then 0 else (if ns[0].child.Some? then 1 else 0) + LinkCount(ns[1..])
  }

  lemma {:induction false} LinkCountDrop(ns: seq<Node>, p: nat)
    requires p < |ns| && ns[p].child.Some?
    ensures LinkCount(ns[p := ns[p].(child := None)]) == LinkCount(ns) - 1
  {
    var ns' := ns[p := ns[p].(child := None)];
    if p == 0 {
      assert ns'[1..] == ns[1..];
    } else {
      assert ns'[1..] == ns[1..][p - 1 := ns[p].(child := None)];
      LinkCountDrop(ns[1..], p - 1);
    }
  }

  /** Starting at `p`, null each node's child and move to the old child, until a node had no
      child. It ends even on a cycle: every step but the last removes a link. */
  function ClearFrom(ns: seq<Node>, p: nat): (r: seq<Node>)
    requires p < |ns| && forall i :: 0 <= i < |ns| && ns[i].child.Some? ==> ns[i].child.value < |ns|
    ensures SameButLinks(ns, r)
    ensures forall i :: 0 <= i < |ns| ==> r[i].child.None? || r[i].child == ns[i].child
    ensures r[p].child.None?
    decreases LinkCount(ns)
  {
    var c := ns[p].child;
    var ns' := SetChild(ns, p, None);
    if c.None? then ns'
    else
      LinkCountDrop(ns, p);
      var r := ClearFrom(ns', c.value);
      SameButLinksTrans(ns, ns', r);
      r
  }

  /** On an acyclic chain the clearing nulls exactly the links of the chain's nodes. */
  lemma {:induction false} ClearChain(ns: seq<Node>, l: seq<nat>)
    requires Linked(ns) && IsChain(ns, l)
    ensures forall i :: 0 <= i < |l| ==> ClearFrom(ns, l[0])[l[i]].child.None?
    ensures forall j :: 0 <= j < |ns| && j !in l ==> ClearFrom(ns, l[0])[j] == ns[j]
    decreases |l|
  {
    var ns' := SetChild(ns, l[0], None);
    if |l| > 1 {
      assert ns[l[0]].child == Some(l[1]);
      var t := l[1..];
      assert IsChain(ns', t) by {
        ChainTail(ns, l);
        forall i | 0 <= i < |t| ensures t[i] != l[0] { assert t[i] == l[i + 1]; }
      }
      SameButLinksKeepsLinked(ns, ns');
      ClearChain(ns', t);
      assert ClearFrom(ns, l[0]) == ClearFrom(ns', t[0]);
      forall i | 0 <= i < |l|
        ensures ClearFrom(ns, l[0])[l[i]].child.None?
      {
        if i > 0 { assert l[i] == t[i - 1]; }
      }
      forall j | 0 <= j < |ns| && j !in l
        ensures ClearFrom(ns, l[0])[j] == ns[j]
      {
        assert j !in t;
      }
    }
  }
}
