# febs-java: promise chains and the header table, in Dafny

This project models two sequential parts of the febs Java library and proves what they
promise.

**The promise chain engine of `Promise.java`, without its thread pool.** The model covers:

- A chain of promises is a singly linked list of nodes. `then(IResolve)`, `then(Runnable)`
  and `fail` install a continuation on a node and hang a fresh child below it.
- Every node points at the root of its chain (`ancestor`). The root owns the status, the
  tag and the `_inExecute` guard.
- `execute()` starts the root's entry function. The entry function resolves or rejects, and
  this walks the chain:
  - `_handleSuccessAsyncRun` and `_handleSuccessAsyncAccept` run the success path;
  - `handleError` runs the failure path;
  - a continuation that returns a promise has that promise's chain spliced in place.
- The `handle` stage then completes the root and nulls every `child` link from the root
  down.

The model's pieces:

- **Heap.** The Java objects form an arena `seq<Node>`, and a reference is an index into it
  (module `PromiseChain`).
- **Continuations as data.** A user continuation is declared data: it returns a value, a
  reference to a promise, or throws. With that, the walk is deterministic.
- **The walk.** Module `PromiseWalk` states the walk as functions that return the new heap,
  the trace of continuations run, and how the walk ended.
- **The imperative engine.** Class `PromiseHeap.Promises` is the engine itself: methods that
  update the heap in place, each proved equal to those functions.
- **The laws.** Module `PromiseLaws` defines a reference semantics over the list of a chain's
  nodes. It proves that the heap walk computes it, and proves the library's promises about
  it.

**The header table of `libs/net/Headers.java`.** Header names are canonicalised by
`upperCaseFirst`:

- the name is split on `-` the way Java's `String.split` does, dropping trailing empty
  pieces;
- each segment gets an upper-case first letter and a lower-case rest;
- the segments are joined with `-` again.

Canonicalising throws on an empty segment. The table is a map from the canonical name to a
list of values, created by the first update. Module `HeaderKey` holds the canonicalisation,
with a loop method proved equal to a recursive definition. Module `Headers` holds the lookups
and class `HeaderTable` with its updates.

Where the behaviour is surprising, the model follows the code:

- **A fail handler that throws.** It first rejects its child with the original error. It
  then resolves that child with null as well, so the rest of the chain is walked twice.
- **The uncaught-exception hook.** It fires only at a childless node that has no fail
  handler and does have a finish continuation. On one failure path it fires at most once,
  right before that node's finish. One `execute()` can still fire it twice: when the
  root's fail handler throws and the success path that follows also throws, `handle`
  rejects the root again and the failure path repeats (`HookTwiceInOneStage`).
- **Rejecting through the callback.** A rejection made through the reject callback ends
  with the root *fulfilled*. Only an exception escaping the entry function rejects the
  root.

## Model

In the source column, `Promise.java` stands for `src/main/java/cn/brainpoint/febs/Promise.java`
and `Headers.java` for `src/main/java/cn/brainpoint/febs/libs/net/Headers.java`; the cells
carry the full paths.

| member | source | states |
|---|---|---|
| HeaderKey.LowerStr | src/main/java/cn/brainpoint/febs/libs/net/Headers.java:187-189 | `toLowerCase` keeps the length and lowers each character in place |
| HeaderKey.DropTrailingEmpty | src/main/java/cn/brainpoint/febs/libs/net/Headers.java:177 | `split` keeps a prefix of the pieces, drops only empty pieces, and never ends with an empty piece |
| HeaderKey.CanonSegment | src/main/java/cn/brainpoint/febs/libs/net/Headers.java:184-190 | a segment's canonical form has the same length and letters up to case, an upper-case first letter when it is cased, and a lower-case rest |
| HeaderKey.CanonSegmentUnique | src/main/java/cn/brainpoint/febs/libs/net/Headers.java:184-190 | two canonical segments that agree up to case are equal |
| HeaderKey.CanonSegmentIdempotent | src/main/java/cn/brainpoint/febs/libs/net/Headers.java:184-190 | canonicalising a canonical segment changes nothing |
| HeaderKey.CanonSegmentOfLowerWord | src/main/java/cn/brainpoint/febs/libs/net/Headers.java:185-187 | a lower-case word gets its first letter capitalised and keeps the rest ("custom" gives "Custom") |
| HeaderKey.JavaSplitJoin | src/main/java/cn/brainpoint/febs/libs/net/Headers.java:177 | splitting a `-`-join of non-empty dash-free segments gives the segments back |
| HeaderKey.UpperCaseFirst | src/main/java/cn/brainpoint/febs/libs/net/Headers.java:176-194 | the `StringBuilder` loop returns exactly the canonical key, and throws exactly where the canonical key is undefined |
| HeaderKey.AppendSegment | src/main/java/cn/brainpoint/febs/libs/net/Headers.java:180-190 | one loop step appends a dash when the builder is non-empty, then the segment with its first character upper-cased when it is a cased letter and the rest lower-cased |
| HeaderKey.CanonKeyFails | src/main/java/cn/brainpoint/febs/libs/net/Headers.java:177-184 | canonicalising throws if and only if the key is empty, or an empty segment (a leading `-` or a `--`) comes before further text |
| HeaderKey.CanonKeyOfJoin | src/main/java/cn/brainpoint/febs/libs/net/Headers.java:177-193 | a key made of non-empty dash-free segments canonicalises to the join of its segments' canonical forms |
| HeaderKey.CanonKeyIdempotent | src/main/java/cn/brainpoint/febs/libs/net/Headers.java:176-194 | a non-empty canonical key canonicalises to itself |
| HeaderKey.CanonKeyLower | src/main/java/cn/brainpoint/febs/libs/net/Headers.java:176-194 | lower-casing a key first does not change its canonical form |
| HeaderKey.CanonKeyCaseInsensitive | src/main/java/cn/brainpoint/febs/libs/net/Headers.java:176-194 | keys equal up to case have the same canonical form, and throw alike |
| Headers.HeaderKeySet | src/main/java/cn/brainpoint/febs/libs/net/Headers.java:42-48 | a key is in the set exactly when a table exists and holds it |
| Headers.HeaderLength | src/main/java/cn/brainpoint/febs/libs/net/Headers.java:33-35 | the number of keys, 0 before any table exists |
| Headers.HeadersOf | src/main/java/cn/brainpoint/febs/libs/net/Headers.java:56-66 | throws exactly when a table exists and the key cannot be canonicalised; anything but the empty list comes from a stored canonical key |
| Headers.HeaderOf | src/main/java/cn/brainpoint/febs/libs/net/Headers.java:74-88 | the first value `getHeaders` would give; null when no table, no key, a null list or an empty list |
| Headers.HeaderTable.constructor | src/main/java/cn/brainpoint/febs/libs/net/Headers.java:21-22 | a new table object has no map yet |
| Headers.HeaderTable.FromMap | src/main/java/cn/brainpoint/febs/libs/net/Headers.java:24-26 | the caller's map is stored as given, keys not canonicalised |
| Headers.HeaderTable.SetHeader | src/main/java/cn/brainpoint/febs/libs/net/Headers.java:97-118 | creates the map when missing; the canonical key then holds exactly `[value]` and no other key changes; throws exactly when the key cannot be canonicalised |
| Headers.HeaderTable.AddHeader | src/main/java/cn/brainpoint/febs/libs/net/Headers.java:127-142 | the canonical key holds its old values followed by `value`, or `[value]` when it had none; no other key changes |
| Headers.HeaderTable.SetHeaderValues | src/main/java/cn/brainpoint/febs/libs/net/Headers.java:151-162 | the canonical key holds the given values in order, replacing any list; no other key changes |
| Headers.HeaderTable.RemoveHeader | src/main/java/cn/brainpoint/febs/libs/net/Headers.java:169-174 | deletes the canonical key; without a map it does nothing and cannot throw |
| Headers.LookupAfterSet | src/main/java/cn/brainpoint/febs/libs/net/Headers.java:97-118 | after `setHeader`, every spelling of the key reads `[value]` and its first value; every other key reads as before |
| Headers.LookupAfterAdd | src/main/java/cn/brainpoint/febs/libs/net/Headers.java:127-142 | after `addHeader`, the key reads its old values followed by `value`; every other key reads as before |
| Headers.LookupAfterRemove | src/main/java/cn/brainpoint/febs/libs/net/Headers.java:169-174 | after `removeHeader`, `getHeaders` gives an empty list and `getHeader` null for every spelling of the key; other keys read as before |
| Headers.LookupIgnoresCase | src/main/java/cn/brainpoint/febs/libs/net/Headers.java:56-88 | names that differ only in case read the same entry |
| Headers.StoreKeepsCanonical | src/main/java/cn/brainpoint/febs/libs/net/Headers.java:97-162 | storing under a canonicalised key keeps every key of the map canonical |
| Headers.StoredKeyFound | src/main/java/cn/brainpoint/febs/libs/net/Headers.java:56-66 | in a map built through the setters, each stored non-empty key is found under its own spelling |
| PromiseChain.RootOf | src/main/java/cn/brainpoint/febs/Promise.java:200-216 | the node whose fields `getStatus`, `getTag` and `setTag` use is in the heap, and a root is its own root |
| PromiseHeap.Promises.GetStatus | src/main/java/cn/brainpoint/febs/Promise.java:199-202 | a node with an ancestor reads the ancestor's status, a root its own |
| PromiseHeap.Promises.GetTag | src/main/java/cn/brainpoint/febs/Promise.java:204-207 | a node with an ancestor reads the ancestor's tag, a root its own |
| PromiseChain.TailFrom | src/main/java/cn/brainpoint/febs/Promise.java:409-411 | a tail the search finds has no child |
| PromiseChain.TailOfChain | src/main/java/cn/brainpoint/febs/Promise.java:409-411 | on an acyclic chain the search always ends, at the chain's last node |
| PromiseChain.Splice | src/main/java/cn/brainpoint/febs/Promise.java:405-418 | the splice changes only `child` links, and `n`'s child becomes the nested head |
| PromiseChain.SpliceChain | src/main/java/cn/brainpoint/febs/Promise.java:405-418 | splicing chain `lp` below `n` gives the chain `n`, then `lp`, then what followed `n`, in order |
| PromiseChain.ClearFrom | src/main/java/cn/brainpoint/febs/Promise.java:280-285 | clearing changes only `child` links, each of them to null, starting with the root's |
| PromiseChain.ClearChain | src/main/java/cn/brainpoint/febs/Promise.java:277-299 | every node of the chain ends with a null `child`, and nodes outside the chain are untouched |
| PromiseWalk.RunWalk | src/main/java/cn/brainpoint/febs/Promise.java:384-401 | the success walk only rewires `child` links and only appends to the trace |
| PromiseWalk.AcceptWalk | src/main/java/cn/brainpoint/febs/Promise.java:403-445 | passing a result on only rewires `child` links and only appends to the trace |
| PromiseWalk.ErrorWalk | src/main/java/cn/brainpoint/febs/Promise.java:452-502 | the failure walk only rewires `child` links and only appends to the trace |
| PromiseWalk.FailNullWalk | src/main/java/cn/brainpoint/febs/Promise.java:486-491 | the null result of a fail handler: links and trace only extended |
| PromiseWalk.FailValueWalk | src/main/java/cn/brainpoint/febs/Promise.java:465-485 | a non-null result of a fail handler: links and trace only extended |
| PromiseWalk.EntryWalk | src/main/java/cn/brainpoint/febs/Promise.java:256-265 | the entry function's resolve and reject calls only rewire links and extend the trace; with no calls nothing happens |
| PromiseWalk.Complete | src/main/java/cn/brainpoint/febs/Promise.java:269-301 | a completed stage leaves the root without a child, rejected when exceptional, otherwise fulfilled when it was pending and unchanged otherwise |
| PromiseWalk.StageWalk | src/main/java/cn/brainpoint/febs/Promise.java:255-301 | the whole stage keeps the heap size and only appends to the trace |
| PromiseLaws.RunWalkChain | src/main/java/cn/brainpoint/febs/Promise.java:384-401 | on an acyclic chain without nested promises, the heap's success walk runs exactly the reference success path |
| PromiseLaws.AcceptChain | src/main/java/cn/brainpoint/febs/Promise.java:425-444 | passing a plain value on runs exactly the reference semantics |
| PromiseLaws.AfterFailChain | src/main/java/cn/brainpoint/febs/Promise.java:481-491 | after a fail handler returns null or a plain value, the walk runs exactly the reference semantics |
| PromiseLaws.ErrorWalkChain | src/main/java/cn/brainpoint/febs/Promise.java:452-502 | on an acyclic chain without nested promises, the heap's failure walk runs exactly the reference failure path |
| PromiseLaws.SuccessPathOutcome | src/main/java/cn/brainpoint/febs/Promise.java:384-401 | the success path runs no fail handler and no hook; it ends normally if and only if no continuation on it throws |
| PromiseLaws.SuccessFinishLast | src/main/java/cn/brainpoint/febs/Promise.java:392-396 | a finish continuation runs only as the last event of a normal walk, and it is the chain's last node's; it does run there when that node has one |
| PromiseLaws.SuccessRunsEachOnce | src/main/java/cn/brainpoint/febs/Promise.java:384-401 | a normal success walk runs each success continuation of the chain once, in chain order, and no other |
| PromiseLaws.SuccessSkipsPlainNodes | src/main/java/cn/brainpoint/febs/Promise.java:392-393 | nodes without a success continuation forward the value unchanged: the walk is the walk from the first node that has one |
| PromiseLaws.ValueReachesNextContinuation | src/main/java/cn/brainpoint/febs/Promise.java:386-393 | a plain value (not a promise) that a continuation returns is the argument of the next success continuation, however many plain nodes lie between; a returned promise is spliced in instead (`NestedRunsFirst`) |
| PromiseLaws.AfterFailNoHook | src/main/java/cn/brainpoint/febs/Promise.java:465-492 | after a fail handler returns, no fail handler and no hook runs |
| PromiseLaws.HookRunsIff | src/main/java/cn/brainpoint/febs/Promise.java:493-501 | the uncaught hook runs if and only if it is set, no fail handler on the way returns normally, and the chain's last node has no fail handler and has a finish continuation; it then runs once, right before that node's finish |
| PromiseLaws.HookOnceBeforeFinish | src/main/java/cn/brainpoint/febs/Promise.java:493-501 | on one failure path the uncaught hook runs at most once, with the original error, and the finish continuation of the chain's last node runs right after it |
| PromiseLaws.UnhandledRunsHookThenFinish | src/main/java/cn/brainpoint/febs/Promise.java:493-501 | when no node of the chain has a fail handler, the failure path runs exactly the hook (when it is set and the last node has finish) and then the last node's finish, and ends normally |
| PromiseLaws.HookTwiceInOneStage | src/main/java/cn/brainpoint/febs/Promise.java:255-285 | one `execute()` can run the hook twice: a rejection whose throwing fail handler lets the success path throw is rejected again by `handle`, and the failure path repeats |
| PromiseLaws.ErrorSkipsPlainNodes | src/main/java/cn/brainpoint/febs/Promise.java:493-494 | nodes without a fail handler pass the same error on: the walk is the walk from the first node that has one |
| PromiseLaws.FirstHandlerRecovers | src/main/java/cn/brainpoint/febs/Promise.java:465-492 | the first fail handler, when it returns, switches to the success path with its return value; no later fail handler or hook runs |
| PromiseLaws.FailHandlerThrowsWalksRestTwice | src/main/java/cn/brainpoint/febs/Promise.java:457-491 | a fail handler that throws rejects its child and then resolves it with null, so the child's finish runs twice |
| PromiseLaws.SplicedChain | src/main/java/cn/brainpoint/febs/Promise.java:405-418 | after the splice, the nested chain followed by the old rest is again an acyclic chain |
| PromiseLaws.NestedRunsFirst | src/main/java/cn/brainpoint/febs/Promise.java:403-424 | a continuation returning promise `p` runs `p`'s chain and then the old rest, resolved with `p` itself, with any exception wrapped once more |
| PromiseLaws.NestedAfterFailRunsFirst | src/main/java/cn/brainpoint/febs/Promise.java:466-480 | a fail handler returning promise `p` runs `p`'s chain and then the old rest, resolved with null |
| PromiseLaws.StageStatus | src/main/java/cn/brainpoint/febs/Promise.java:269-301 | a finished stage rejects the root only when something escaped the entry function; otherwise a pending root ends fulfilled, even after a reject call; the root ends without a child |
| PromiseLaws.EntryWalkKeepsLinks | src/main/java/cn/brainpoint/febs/Promise.java:256-262 | on an acyclic chain without nested promises, the entry function's resolve and reject calls leave every link as it was |
| PromiseLaws.StageClearsChain | src/main/java/cn/brainpoint/febs/Promise.java:269-299 | on an acyclic chain without nested promises, a completed stage leaves every node of the root's chain without a child |
| PromiseHeap.Promises.constructor | src/main/java/cn/brainpoint/febs/Promise.java:35-36 | no promises, no trace, an empty global set, no hook |
| PromiseHeap.Promises.SetUncaughtExceptionHandler | src/main/java/cn/brainpoint/febs/Promise.java:84-86 | installs or removes the hook and changes nothing else |
| PromiseHeap.Promises.NewPromise | src/main/java/cn/brainpoint/febs/Promise.java:237-240 | appends a pending root with the entry function and registers it in the global set |
| PromiseHeap.Promises.AddChild | src/main/java/cn/brainpoint/febs/Promise.java:228-230 | the new child's ancestor is the chain's root, never an intermediate node; every node keeps its root |
| PromiseHeap.Promises.Then | src/main/java/cn/brainpoint/febs/Promise.java:318-323 | installs the continuation, clears any runnable, and links and returns a fresh child of the same root |
| PromiseHeap.Promises.ThenRun | src/main/java/cn/brainpoint/febs/Promise.java:331-336 | installs the runnable, clears any continuation, and links and returns a fresh child of the same root |
| PromiseHeap.Promises.Fail | src/main/java/cn/brainpoint/febs/Promise.java:345-349 | installs the fail handler and links and returns a fresh child of the same root |
| PromiseHeap.Promises.Finish | src/main/java/cn/brainpoint/febs/Promise.java:354-357 | installs the finish continuation and changes nothing else |
| PromiseHeap.Promises.SetTag | src/main/java/cn/brainpoint/febs/Promise.java:209-216 | writes the root's tag, so every node of the chain reads it back; no status changes |
| PromiseHeap.Promises.HandleSuccessRun | src/main/java/cn/brainpoint/febs/Promise.java:384-401 | the recursive method leaves exactly the heap, trace and outcome of the success walk |
| PromiseHeap.Promises.HandleSuccessAccept | src/main/java/cn/brainpoint/febs/Promise.java:403-445 | the method leaves exactly the heap, trace and outcome of passing the result on |
| PromiseHeap.Promises.SpliceNested | src/main/java/cn/brainpoint/febs/Promise.java:405-418 | the tail-search loop and the rewiring give exactly the spliced heap; it reports a cycle where the Java loop never ends |
| PromiseHeap.Promises.HandleError | src/main/java/cn/brainpoint/febs/Promise.java:452-502 | the method leaves exactly the heap, trace and outcome of the failure walk |
| PromiseHeap.Promises.FailHandlerThrew | src/main/java/cn/brainpoint/febs/Promise.java:455-491 | a fail handler that throws passes the original error to the child (or runs finish), and then, `res` still being null, the child is resolved with null (or finish runs again), exactly as the failure walk records |
| PromiseHeap.Promises.FailHandlerReturned | src/main/java/cn/brainpoint/febs/Promise.java:458-491 | a fail handler that returns hands its value on: null resolves the child (or runs finish), a promise is spliced in before the child, any other value resolves the child; exactly as the failure walk records |
| PromiseHeap.Promises.ResolveAfterFail | src/main/java/cn/brainpoint/febs/Promise.java:486-491 | resolving after a fail handler returned null matches the walk |
| PromiseHeap.Promises.AcceptAfterFail | src/main/java/cn/brainpoint/febs/Promise.java:465-485 | passing on a fail handler's non-null result matches the walk |
| PromiseHeap.Promises.ClearLinks | src/main/java/cn/brainpoint/febs/Promise.java:280-285 | the do-while loop leaves exactly the cleared heap |
| PromiseHeap.Promises.CompleteStage | src/main/java/cn/brainpoint/febs/Promise.java:269-301 | the `handle` stage leaves exactly the heap and trace of the completion step, and keeps every node's root |
| PromiseHeap.Promises.RunEntry | src/main/java/cn/brainpoint/febs/Promise.java:256-265 | the entry function's calls, in order, leave exactly the heap and trace of the entry walk; root status and guard unchanged |
| PromiseHeap.Promises.RunStage | src/main/java/cn/brainpoint/febs/Promise.java:255-301 | runs the entry function and the `handle` stage: the heap, trace and outcome are exactly those of the stage walk, the root leaves the global set once the stage reaches `handle`, roots of all nodes are unchanged |
| PromiseHeap.Promises.Execute | src/main/java/cn/brainpoint/febs/Promise.java:246-309 | throws "not in pending status" if and only if the root is not pending or already started, and then changes nothing; otherwise runs the stage, takes the root out of the global set once the stage reaches `handle`, and leaves no node of the chain executable |

## Left out

- Thread-pool dispatch. `CompletableFuture.supplyAsync` on the executor, and `Febs.java`, are not part of this model. `Execute` runs the entry function and then the `handle` stage at once, in the caller's step.
- `_cf`. The stored future and its nulling in `handle` are not modelled.
- `Promise.all` and `Promise.join`. Both are polling loops across threads, so they are left out.
- `PromiseFuture.java` is not part of this model.
- `compareTo`. It depends on identity hash codes, so it is left out.
- `globalObjectSet`. It is kept only as a set of root indices.
- The concurrent skip list behind `globalObjectSet` is not modelled.
- The interfaces `IExecute`, `IResolve`, `IReject`, `IResolveNoRet`, `IFinish` and `IPromise` are not part of this model. Continuations are declared outcomes instead:
  - a success continuation or fail handler returns a value or a promise, or throws;
  - a runnable returns or throws;
  - the entry function makes a fixed sequence of resolve/reject calls, then returns or throws.
- Finish continuations and the uncaught hook are modelled as not throwing. Only their runs are recorded.
- Code in the entry function that catches the exception of a walk it started (through the resolve or reject callback) is not modelled. An exception from a walk ends the entry function.
- The object passed to the hook, a `FebsException` around the error, is recorded as the error itself.
- Exceptions carry no message; an error is an integer code, wrapped once per rethrow.
- PromiseHeap.Promises.Execute: the walk carries a fuel bound, and a walk that runs out of fuel reports `OutOfFuel`. The bound stands in for the Java stack, and the proofs about chains take fuel at least the chain's length.
- PromiseHeap.Promises.SpliceNested: where the Java tail search loops forever on a cycle, the model stops and reports `Loops`.
- The laws are stated for acyclic chains. `NestedRunsFirst` and `NestedAfterFailRunsFirst` state one splice, not chains whose nested promises return promises themselves.
- A returned promise is assumed to be a node that already exists in the heap when the walk starts.
- Headers.HeaderTable.SetHeader: the in-place `set(0, …)` and `clear()` on a list that the caller may share through the `Headers(Map)` constructor are modelled as storing a new list. Aliasing between the caller's lists and the table is not captured.
- Headers.HeadersOf: `getHeaders` hands out the stored list itself, not a copy. A caller that keeps it sees later `addHeader` and `setHeader` calls on that key, and a caller that edits it edits the table. The model returns the list's value at the time of the call.
- Headers.HeaderTable.AddHeader: appends to the stored list in place, so the change shows through every reference to that list, whether held by a `getHeaders` caller or shared through `Headers(Map)`. The model stores the extended list as a new value.
- Headers.HeaderTable.FromMap: `Headers(Map)` keeps the caller's map itself, not a copy. Later edits by the caller to that map or its lists change the table, and the table's updates show in the caller's map. The model copies the map's value into the table.
- A null collection passed to `setHeader(key, values)` (a `NullPointerException` in `new ArrayList<>(value)`) is not modelled.
- `Character.toUpperCase` and `toLowerCase` are modelled for ASCII letters only; every other character is uncased.
- `String.toLowerCase()` without a `Locale` uses the JVM's default locale. The model assumes a default locale in which lower-casing maps ASCII to ASCII. Under a Turkish or Azeri locale `'I'` lower-cases to a dotless `'ı'`, so "X-TITLE" and "x-title" canonicalise differently, and the case-insensitivity of `CanonKeyCaseInsensitive` and `LookupIgnoresCase` does not hold there.
- `getHeaderKeySet` returns a live view of the key set; the model returns its value.
