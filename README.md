# gtask, modelled in Dafny

gtask is a small Go library that runs graphs of dependent tasks on a bounded
pool of goroutines. A `Task` has an identifier, a body, an optional timeout,
a `state` (0 init, 1 success, 2 fail) and an ordered list of `Children`.
`AddChildren` and `Depends` build the child edges. `Walk` visits every task
reachable from a root once. `ToGraph` collects a root's nodes together with
the number of child edges that enter each node (its in-degree).

A `TokenBucket` is a buffered channel pre-filled with tokens. It caps how
many task bodies run at once. `Get` takes a token and `Put` returns one;
with `fastFail`, `Get` reports `ErrNoBucket` instead of blocking. The
`GoPool` runs one task with `do`:

- in zombie mode, a task whose state is already 2 fails at once with `ErrParentFail`;
- otherwise `do` takes a token and runs the body;
- a panic in the body becomes an error plus a stack trace;
- an expired deadline becomes `ErrTaskTimeout`.

`Do` runs whole graphs. It launches each root. When a task finishes, its
result is sent and the task is marked failed if the result failed. Every
child edge then decrements the child's in-degree, and a child whose count
drops to zero or below is launched. In zombie mode that child first takes
the failed state of the task that launched it. `Once` is a retry-until-success
memo: `Do(f)` calls `f` until one call returns nil, and `Reset` re-arms it.

The model is sequential. The tasks of a program are one `Tasks` object that
holds the children relation and the states, keyed by identifier. The pool's
goroutines become a first-in first-out worklist of launched tasks. The
result channel becomes the sequence of results in the order they are sent.
What a task body does is an `Outcome` supplied for each task: it returned
an error or nil, it panicked with a value and a trace, or its deadline
expired.

Files:

- `errors.dfy`: `Option`, `Result` and the library's errors.
- `tasks.dfy`: task.go. Reachability, acyclicity as the existence of a topological ranking, `Walk` and `ToGraph`.
- `token_bucket.dfy`: token-bucket.go.
- `schedule.dfy`: the scheduler's counts and worklist invariants, on values.
- `go_pool.dfy`: go-pool.go.
- `once.dfy`: once.go.

## Model

| member | source | states |
|---|---|---|
| Tasks.Tasks.AddChildren | task.go:32-36 | the task's children are its old children followed by the arguments in order; no other task's children change |
| Tasks.Tasks.Depends | task.go:38-42 | each parent's children gain one copy of `t` per occurrence of that parent in the arguments; every other task is unchanged |
| Tasks.WalkFrom | task.go:44-53 | an already-walked task visits nothing; otherwise it is visited first; the visits are distinct, were not walked before, are reachable from the task, and the walked set is closed under children of visited tasks |
| Tasks.Walk | task.go:55-58 | from a fresh visited set, `f` is called exactly once on each task reachable from the root, the root first |
| Tasks.Tally | task.go:66-72 | the walk callback adds the task to the nodes and keeps every in-degree equal to the number of edges into it from the nodes |
| Tasks.ToGraph | task.go:60-74 | the graph's nodes are exactly the tasks reachable from the root; each in-degree counts the child edges into it from the nodes; a key exists only for a positive count; the counts sum to the nodes' edge count |
| Tasks.ToGraphDeterministic | task.go:60-74 | two graphs of the same root over the same tasks are equal |
| TokenBuckets.TokenBucket.constructor | token-bucket.go:15-19 | a channel of `size` slots filled with `size` tokens |
| TokenBuckets.NewTokenBucket | token-bucket.go:11-20 | panics above `LimitSize` (and for a negative size, as `make` does); otherwise a full bucket of that capacity |
| TokenBuckets.TokenBucket.Get | token-bucket.go:24-35 | with a free token, takes it and returns nil; with none (fast-fail only), returns `ErrNoBucket` and changes no count |
| TokenBuckets.TokenBucket.Put | token-bucket.go:37-39 | returns one token and stays within capacity |
| TokenBuckets.TokenBucket.GetPutRounds | token-bucket.go:24-39 | any number of Get/Put rounds keep the count within capacity and end at the starting count |
| TokenBuckets.ZeroCapacityRefuses | token-bucket.go:29-34 | a bucket of capacity 0 refuses every fast-fail Get with `ErrNoBucket` |
| GoPools.NewGoPool | go-pool.go:22-28 | a pool over a full bucket of `n` tokens, with zombie mode and fast-fail off; panics where `NewTokenBucket` does |
| GoPools.GoPool.Go | go-pool.go:30-40 | without a token, returns the wrapped Get error and runs nothing; with one, takes it and gives it back; the token count is unchanged |
| GoPools.Completion | go-pool.go:64-82 | a body that ran fails exactly when it did not return nil; a timeout reports `ErrTaskTimeout`; a panic reports its stack trace |
| GoPools.Report | go-pool.go:42-84 | the result names the task; it fails exactly when zombie mode meets a failed state, no token was free, or the body did not return nil |
| GoPools.GoPool.DoTask | go-pool.go:42-84 | returns `Report` of the task; takes no token when zombie mode short-circuits, records a refusal when no token is free, otherwise takes a token and returns it |
| GoPools.SlotLogCounts | go-pool.go:46-55 | over any run of `do` calls, every admitted call acquires a token exactly when one is free, releases as many as it acquires, and is refused otherwise |
| GoPools.GoPool.RunTask | go-pool.go:101-106 | runs `do` on the task in its current state and sets the state to 2 exactly when the result failed |
| GoPools.GoPool.LaunchChildren | go-pool.go:107-115 | the counts and launched children are those of `Decrements` over the task's children; each launched child takes state 2 when zombie mode is on and the task failed; no other state changes |
| Schedules.DecrementsCounts | go-pool.go:107-114 | when no count can go negative, each child edge subtracts one from its child's count, and a child is launched exactly once, exactly when its count reaches zero |
| Schedules.PendingStart | go-pool.go:89-94 | the in-degrees `ToGraph` gives are the counts of pending parent edges, and the root is the only node with none |
| Schedules.PendingStep | go-pool.go:107-109 | completing a task takes one from the pending count for each of its child edges |
| Schedules.Liveness | go-pool.go:99-117 | once nothing is ready on an acyclic graph, every node has run |
| GoPools.GoPool.Turn | go-pool.go:99-117 | one completion of the recursive closure keeps the worklist, count, ordering and state invariants and the token log |
| GoPools.GoPool.Drain | go-pool.go:99-120 | the worklist loop from the root ends with every node of the graph run once, in a parents-first order, with one result each and the token log of those runs |
| GoPools.GoPool.RunGraph | go-pool.go:99-120 | on an acyclic graph: each node runs exactly once, the root first, after all its in-graph parents; each result is `Report` of its task in its launch state; a task runs in state 2 when zombie mode is on and its launcher failed; failed results leave state 2; tasks outside the graph keep their state |
| GoPools.GoPool.RunSegment | go-pool.go:99-120 | one graph's run sends one result per node, each node named once |
| GoPools.BuildGraphs | go-pool.go:87-94 | the graph of each root, and their total node count |
| GoPools.FlattenSize | go-pool.go:95-97 | when each graph sends one result per node, the results fill the channel exactly to its capacity |
| GoPools.GoPool.RunGraphs | go-pool.go:118-120 | each graph runs from its root in turn; the results are the runs' results one after another, each covering its graph |
| GoPools.GoPool.Do | go-pool.go:86-126 | one graph per root; the channel capacity is the total node count and exactly that many results are sent; each graph's results name each of its nodes once; tokens are all returned |
| Onces.Once.Do | once.go:28-43 | once done, returns nil without invoking `f`; otherwise invokes `f`, returns its error, and becomes done exactly when that error is nil |
| Onces.Once.Reset | once.go:47-51 | the next `Do` invokes its callback again |
| Onces.Once.DoEach | once.go:28-43 | a run of `Do` calls invokes callbacks up to and including the first success, and ends done exactly when one succeeded |
| Onces.InvocationsUntilSuccess | once.go:16-22 | when the first success is at position `k`, exactly `k + 1` callbacks are invoked |
| Onces.InvocationsAllFail | once.go:16-22 | when every callback fails, every one of them is invoked |
| Onces.OnceReset | once_test.go:8-42 | three successful `Do` calls invoke the callback once; after `Reset`, three more invoke it once more |
| Onces.OnceError | once_test.go:44-70 | two failing calls then three succeeding ones invoke the callback three times |

## Left out

- Goroutines, channels and the `sync.WaitGroup` of `Do`: the model runs launched tasks one at a time, first in first out, and the graphs of one `Do` one after the other. The channel is modelled as the ordered sequence of results, and its closing is not modelled.
- Interleavings: in the source, concurrent task goroutines decrement the same `indgrees` map and write `state` without locking. Go reports that as a fatal concurrent map write. The model treats each completion as atomic.
- Contexts, timers and cancellation: a deadline or a cancelled caller context is the `Expired` outcome. The race between a late panic or return and the deadline is not modelled: an expired task reports only `ErrTaskTimeout`.
- `recover` and `debug.Stack()`: a panic is the `Crashed` outcome, carrying the panic value and a non-empty trace. The wording of the formatted error messages is kept only as the error's constructor and arguments.
- GoPools.GoPool.Do: cyclic task graphs (the source leaves ring detection as a to-do) are excluded by requiring an acyclic children relation.
- GoPools.GoPool.Do: states per-graph coverage of the results rather than `Report` per result; the per-result statement is `RunGraph`'s.
- TokenBuckets.TokenBucket.Get: a blocking `Get` on an empty channel would wait forever in a sequential model, so it may only be called while a token is free. A pool method therefore requires fast-fail or a free token.
- TokenBuckets.TokenBucket.Put: a `Put` into a full channel would block, so it may only be called while a token is out.
- GoPools.GoPool.Go: the function `f` itself is not modelled; the token is returned as soon as it is taken, standing for the deferred `Put` after `f` ends.
- Tasks are identified by their `Identifier`; two distinct `Task` values sharing one identifier are not modelled.
- The state value 1 (success) is never written by the source and is never produced by the model.
- In zombie mode a launched child takes the failed state of the parent whose completion launched it, i.e. the last parent to finish. An earlier failed parent does not mark the child. The model follows this as written; see `RunGraph`'s launch-state clause.
- Task states are shared across all graphs and all calls of `Do` and are never reset. A task failed in one graph therefore starts the next graph in state 2.
- `DefaultGoPool` and the package-level `Go` and `Do` wrappers (go-pool.go:128-136) only forward to a pool of 100000 tokens.
- pool.go is not part of this model.
- The mutex and atomic loads of `Once` are not modelled; its calls are sequential.
