/** The pool and its graph scheduler (go-pool.go), made sequential: the
    goroutines that `Do` spawns become a first-in first-out worklist of
    launched tasks, the result channel becomes the sequence of results in
    the order they are sent, and the work functions, deadlines and panics
    of task bodies become an `Outcome` given for each task. */
module GoPools {
  import opened Errors
  import opened Tasks
  import opened TokenBuckets
  import opened Schedules

  /** A captured stack trace; `debug.Stack()` is never empty. */
  type Trace = s: string | s != "" witness "goroutine 1 [running]"

  /** How a task body ended, as far as `do` can observe it: it returned an
      error or nil, it panicked, or the deadline or the caller's
      cancellation fired before it finished. */
  datatype Outcome = Returned(err: Option<Error>) | Crashed(value: string, trace: Trace) | Expired

  datatype RunResult = RunResult(identifier: string, err: Option<Error>, buf: string)

  /** The test `Do` applies to a result before marking the task failed. */
  predicate Failed(r: RunResult)
  {
    r.err.Some? || r.buf != ""
  }

  /** The result of a task body that was given a token and ran. */
  function Completion(id: string, o: Outcome): (r: RunResult)
    ensures r.identifier == id
    ensures Failed(r) <==> o != Returned(None)
    ensures o.Expired? ==> r.err == Some(ErrTaskTimeout)
    ensures o.Crashed? ==> r.buf == o.trace
  {
    match o
    case Returned(err) => RunResult(id, err, "")
    case Crashed(value, trace) => RunResult(id, Some(RunPanicked(id, value)), trace)
    case Expired => RunResult(id, Some(ErrTaskTimeout), "")
  }

  /** The result `do` reports for task `id` launched in `state`, when the
      bucket has (`free`) or has not a token. */
  function Report(zombieMode: bool, state: int, free: bool, id: string, o: Outcome): (r: RunResult)
    ensures r.identifier == id
    ensures Failed(r) <==> (zombieMode && state == 2) || !free || o != Returned(None)
  {
    if zombieMode && state == 2 then RunResult(id, Some(ErrParentFail), "")
    else if !free then RunResult(id, Some(ErrNoBucket), "")
    else Completion(id, o)
  }

  /** The bucket events of one run of `do`. */
  function Slots(zombieMode: bool, state: int, free: bool): seq<TokenBuckets.Event>
  {
    if zombieMode && state == 2 then []
    else if !free then [Refused]
    else [Acquired, Released]
  }

  /** The bucket events of runs launched in the given states, in order. */
  function SlotLog(zombieMode: bool, free: bool, states: seq<int>): seq<TokenBuckets.Event>
  {
    if states == [] then []
    else SlotLog(zombieMode, free, states[..|states| - 1]) + Slots(zombieMode, states[|states| - 1], free)
  }

  /** A run's events extend the log of the runs before it. */
  lemma SlotLogAppend(zombieMode: bool, free: bool, h0: seq<TokenBuckets.Event>, h: seq<TokenBuckets.Event>,
                      h': seq<TokenBuckets.Event>, states: seq<int>, s: int)
    requires h == h0 + SlotLog(zombieMode, free, states) && h' == h + Slots(zombieMode, s, free)
    ensures h' == h0 + SlotLog(zombieMode, free, states + [s])
  {
    assert (states + [s])[..|states|] == states;
  }

  function CountOf(h: seq<TokenBuckets.Event>, e: TokenBuckets.Event): nat
  {
    if h == [] then 0 else CountOf(h[..|h| - 1], e) + (if h[|h| - 1] == e then 1 else 0)
  }

  /** The number of runs that did not short-circuit. */
  function Admitted(zombieMode: bool, states: seq<int>): nat
  {
    if states == [] then 0
    else Admitted(zombieMode, states[..|states| - 1]) + (if zombieMode && states[|states| - 1] == 2 then 0 else 1)
  }

  lemma CountOfAppend(a: seq<TokenBuckets.Event>, b: seq<TokenBuckets.Event>, e: TokenBuckets.Event)
    ensures CountOf(a + b, e) == CountOf(a, e) + CountOf(b, e)
    decreases |b|
  {
    if b == [] {
      assert a + b == a;
    } else {
      assert (a + b)[..|a + b| - 1] == a + b[..|b| - 1];
      CountOfAppend(a, b[..|b| - 1], e);
    }
  }

  /** Every run that does not short-circuit takes one token and gives it
      back when a token is free; a short-circuited run takes none. */
  lemma {:induction false} SlotLogCounts(zombieMode: bool, free: bool, states: seq<int>)
    ensures CountOf(SlotLog(zombieMode, free, states), Acquired) == (if free then Admitted(zombieMode, states) else 0)
    ensures CountOf(SlotLog(zombieMode, free, states), Released) == CountOf(SlotLog(zombieMode, free, states), Acquired)
    ensures CountOf(SlotLog(zombieMode, free, states), Refused) == (if free then 0 else Admitted(zombieMode, states))
  {
    if states != [] {
      var init := states[..|states| - 1];
      var last := states[|states| - 1];
      SlotLogCounts(zombieMode, free, init);
      var s := Slots(zombieMode, last, free);
      CountOfAppend(SlotLog(zombieMode, free, init), s, Acquired);
      CountOfAppend(SlotLog(zombieMode, free, init), s, Released);
      CountOfAppend(SlotLog(zombieMode, free, init), s, Refused);
      assert s == [] || s == [Refused] || s == [Acquired, Released];
      assert [Acquired, Released][..1] == [Acquired];
      assert [Refused][..0] == [];
      assert [Acquired][..0] == [];
    }
  }

  /** The states a graph's run has given its tasks, against the states
      `st0` before it: a task ran in its own state, or in the failed state
      when zombie mode is on and its launcher had failed, and a launched
      task already holds the state it will run in. */
  ghost predicate LaunchStates(zombieMode: bool, st0: map<string, int>, st: map<string, int>, order: seq<string>,
                               launchStates: seq<int>, launchedBy: seq<int>, ready: seq<string>, readyBy: seq<int>)
  {
    |launchStates| == |order| && |launchedBy| == |order| && |readyBy| == |ready| &&
    (|order| > 0 ==> launchStates[0] == Get(st0, order[0])) &&
    (forall i :: 0 < i < |order| && 0 <= launchedBy[i] < |order| ==>
      launchStates[i] == (if zombieMode && Get(st, order[launchedBy[i]]) == 2 then 2 else Get(st0, order[i]))) &&
    (|order| > 0 ==> forall k :: 0 <= k < |ready| && 0 <= readyBy[k] < |order| ==>
      Get(st, ready[k]) == (if zombieMode && Get(st, order[readyBy[k]]) == 2 then 2 else Get(st0, ready[k])))
  }

  /** A task that ran holds the failed state when its result failed and
      its launch state otherwise; a task neither run nor launched keeps its
      state. */
  ghost predicate TaskStates(st0: map<string, int>, st: map<string, int>, order: seq<string>,
                             launchStates: seq<int>, results: seq<RunResult>, ready: seq<string>)
  {
    |launchStates| == |order| && |results| == |order| &&
    (|order| == 0 ==> st == st0) &&
    (forall i :: 0 <= i < |order| ==> Get(st, order[i]) == (if Failed(results[i]) then 2 else launchStates[i])) &&
    (forall y :: y !in order && y !in ready ==> Get(st, y) == Get(st0, y))
  }

  /** Running the first ready task `x` in its state, marking it failed when
      its result `r` is, and launching `launched` with the failed state of
      `x` in zombie mode: `x` ran in the state it was launched with, and
      the launched tasks hold the states they will run in. */
  lemma LaunchStatesStep(zombieMode: bool, st0: map<string, int>, st: map<string, int>, st1: map<string, int>,
                         st2: map<string, int>, order: seq<string>, launchStates: seq<int>, launchedBy: seq<int>,
                         results: seq<RunResult>, ready: seq<string>, readyBy: seq<int>, r: RunResult, launched: seq<string>,
                         newBy: seq<int>)
    requires LaunchStates(zombieMode, st0, st, order, launchStates, launchedBy, ready, readyBy)
    requires TaskStates(st0, st, order, launchStates, results, ready)
    requires ready != [] && Distinct(ready) && forall k :: 0 <= k < |ready| ==> ready[k] !in order
    requires |order| == 0 ==> |ready| == 1
    requires |order| > 0 ==> forall k :: 0 <= k < |ready| ==> 0 <= readyBy[k] < |order|
    requires forall i :: 0 < i < |order| ==> 0 <= launchedBy[i] < i
    requires forall y :: y in launched ==> y !in order && y != ready[0] && y !in ready
    requires st1 == if Failed(r) then st[ready[0] := 2] else st
    requires forall y :: y !in launched ==> Get(st2, y) == Get(st1, y)
    requires forall y :: y in launched ==> Get(st2, y) == (if zombieMode && Get(st1, ready[0]) == 2 then 2 else Get(st1, y))
    requires NextBy(readyBy, |launched|, |order|, newBy)
    ensures LaunchStates(zombieMode, st0, st2, order + [ready[0]], launchStates + [Get(st, ready[0])], launchedBy + [readyBy[0]],
                         ready[1..] + launched, newBy)
  {
    var x := ready[0];
    var rest := ready[1..];
    assert ready == [x] + rest;
    var order', ready' := order + [x], rest + launched;
    var readyBy' := newBy;
    forall k | 0 <= k < |ready'| && 0 <= readyBy'[k] < |order'|
      ensures Get(st2, ready'[k]) == (if zombieMode && Get(st2, order'[readyBy'[k]]) == 2 then 2 else Get(st0, ready'[k]))
    {
      if k < |rest| {
        assert ready'[k] == ready[k + 1] && readyBy'[k] == readyBy[k + 1];
      } else {
        var y := launched[k - |rest|];
        assert ready'[k] == y && readyBy'[k] == |order| && order'[|order|] == x;
        assert Get(st1, y) == Get(st0, y);
      }
    }
    var ls', lb' := launchStates + [Get(st, x)], launchedBy + [readyBy[0]];
    assert |order'| > 0 ==> ls'[0] == Get(st0, order'[0]);
    forall i | 0 < i < |order'| && 0 <= lb'[i] < |order'|
      ensures ls'[i] == (if zombieMode && Get(st2, order'[lb'[i]]) == 2 then 2 else Get(st0, order'[i]))
    {
      if i == |order| {
        assert order'[lb'[i]] == order[readyBy[0]];
      } else {
        assert order'[lb'[i]] == order[launchedBy[i]];
      }
    }
  }

  /** The same run leaves `x` failed exactly when its result failed, and
      changes no task outside the worklist. */
  lemma TaskStatesStep(zombieMode: bool, st0: map<string, int>, st: map<string, int>, st1: map<string, int>,
                       st2: map<string, int>, order: seq<string>, launchStates: seq<int>,
                       results: seq<RunResult>, ready: seq<string>, r: RunResult, launched: seq<string>)
    requires TaskStates(st0, st, order, launchStates, results, ready)
    requires ready != [] && forall k :: 0 <= k < |ready| ==> ready[k] !in order
    requires |order| == 0 ==> |ready| == 1
    requires forall y :: y in launched ==> y !in order && y != ready[0] && y !in ready
    requires st1 == if Failed(r) then st[ready[0] := 2] else st
    requires forall y :: y !in launched ==> Get(st2, y) == Get(st1, y)
    ensures TaskStates(st0, st2, order + [ready[0]], launchStates + [Get(st, ready[0])], results + [r], ready[1..] + launched)
  {
    assert ready == [ready[0]] + ready[1..];
  }

  /** The results and bucket events of the runs so far: run `i` reported
      `Report` for task `order[i]` in its launch state, and the bucket's
      history grew from `h0` by the events of those runs. */
  ghost predicate Logged(zombieMode: bool, free: bool, h0: seq<TokenBuckets.Event>, h: seq<TokenBuckets.Event>,
                         order: seq<string>, launchStates: seq<int>, results: seq<RunResult>, work: string -> Outcome)
  {
    h == h0 + SlotLog(zombieMode, free, launchStates) &&
    |results| == |order| && |launchStates| == |order| &&
    forall i :: 0 <= i < |order| ==> results[i] == Report(zombieMode, launchStates[i], free, order[i], work(order[i]))
  }

  /** One more run extends the log by its result and its events. */
  lemma LoggedStep(zombieMode: bool, free: bool, h0: seq<TokenBuckets.Event>, h: seq<TokenBuckets.Event>,
                   h': seq<TokenBuckets.Event>, order: seq<string>, launchStates: seq<int>, results: seq<RunResult>,
                   work: string -> Outcome, x: string, state: int, r: RunResult,
                   order': seq<string>, launchStates': seq<int>, results': seq<RunResult>)
    requires Logged(zombieMode, free, h0, h, order, launchStates, results, work)
    requires h' == h + Slots(zombieMode, state, free) && r == Report(zombieMode, state, free, x, work(x))
    requires order' == order + [x] && launchStates' == launchStates + [state] && results' == results + [r]
    ensures Logged(zombieMode, free, h0, h', order', launchStates', results', work)
  {
    SlotLogAppend(zombieMode, free, h0, h, h', launchStates, state);
  }

  /** The launch side of a graph's run: the launchers and the states. */
  ghost predicate Launches(zombieMode: bool, g: Children, st0: map<string, int>, st: map<string, int>,
                           order: seq<string>, ready: seq<string>, readyBy: seq<int>, launchedBy: seq<int>,
                           launchStates: seq<int>, results: seq<RunResult>)
  {
    LaunchedBy(g, order, launchedBy) && ReadyBy(g, order, ready, readyBy) &&
    LaunchStates(zombieMode, st0, st, order, launchStates, launchedBy, ready, readyBy) &&
    TaskStates(st0, st, order, launchStates, results, ready)
  }

  /** A turn keeps the launch side: the first ready task runs in its state
      `st`, is marked failed (`st1`) when its result `r` is, and its
      completion launches `launched`, new to the worklist, with the states
      `st2`. `newBy` is the launcher list after the turn. */
  lemma LaunchesStep(zombieMode: bool, g: Children, st0: map<string, int>, st: map<string, int>,
                     order: seq<string>, ready: seq<string>, readyBy: seq<int>, launchedBy: seq<int>,
                     launchStates: seq<int>, results: seq<RunResult>,
                     r: RunResult, st1: map<string, int>, st2: map<string, int>, launched: seq<string>)
    returns (newBy: seq<int>)
    requires Launches(zombieMode, g, st0, st, order, ready, readyBy, launchedBy, launchStates, results)
    requires ready != [] && Distinct(ready) && (forall k :: 0 <= k < |ready| ==> ready[k] !in order)
    requires |order| == 0 ==> |ready| == 1
    requires forall k :: 1 <= k < |ready| ==> ready[k] !in Kids(g, ready[0])
    requires forall y :: y in launched ==> y in Kids(g, ready[0]) && y !in order && y != ready[0] && y !in ready
    requires st1 == if Failed(r) then st[ready[0] := 2] else st
    requires forall y :: y !in launched ==> Get(st2, y) == Get(st1, y)
    requires forall y :: y in launched ==> Get(st2, y) == (if zombieMode && Get(st1, ready[0]) == 2 then 2 else Get(st1, y))
    ensures Launches(zombieMode, g, st0, st2, order + [ready[0]], ready[1..] + launched, newBy, launchedBy + [readyBy[0]],
                     launchStates + [Get(st, ready[0])], results + [r])
  {
    newBy := readyBy[1..] + seq(|launched|, _ => |order|);
    LaunchedByStep(g, order, launchedBy, ready, readyBy);
    ReadyByStep(g, order, ready, readyBy, launched, newBy);
    LaunchStatesStep(zombieMode, st0, st, st1, st2, order, launchStates, launchedBy, results, ready, readyBy, r, launched, newBy);
    TaskStatesStep(zombieMode, st0, st, st1, st2, order, launchStates, results, ready, r, launched);
  }

  /** The invariant of a graph's worklist run: its worklist side and its
      launch side. Contracts compare it with `true` so that it is checked
      as one formula rather than conjunct by conjunct. */
  ghost predicate Scheduled(zombieMode: bool, g: Children, nodes: set<string>, root: string,
                            st0: map<string, int>, st: map<string, int>, pending: map<string, int>, indeg: map<string, int>,
                            done: set<string>, order: seq<string>, ready: seq<string>, readyBy: seq<int>,
                            launchedBy: seq<int>, launchStates: seq<int>, results: seq<RunResult>)
  {
    Ordered(g, nodes, root, pending, indeg, done, order, ready) &&
    Launches(zombieMode, g, st0, st, order, ready, readyBy, launchedBy, launchStates, results)
  }

  /** One turn of the worklist keeps the invariant: the first ready task `x`
      runs in its state `st`, is marked failed (`st1`) when its result `r`
      is, and the loop over its children yields `counts` and `launched` and
      the states `st2`. `newBy` is the launcher list after the turn. */
  lemma ScheduledStep(zombieMode: bool, g: Children, nodes: set<string>, root: string,
                      st0: map<string, int>, st: map<string, int>, pending: map<string, int>, indeg: map<string, int>,
                      done: set<string>, order: seq<string>, ready: seq<string>, readyBy: seq<int>,
                      launchedBy: seq<int>, launchStates: seq<int>, results: seq<RunResult>,
                      r: RunResult, st1: map<string, int>, st2: map<string, int>, counts: map<string, int>, launched: seq<string>,
                      pending': map<string, int>, done': set<string>, order': seq<string>, ready': seq<string>,
                      launchedBy': seq<int>, launchStates': seq<int>, results': seq<RunResult>)
    returns (newBy: seq<int>)
    requires Closed(g, nodes) && ready != []
    requires Scheduled(zombieMode, g, nodes, root, st0, st, pending, indeg, done, order, ready, readyBy, launchedBy, launchStates, results) == true
    requires st1 == if Failed(r) then st[ready[0] := 2] else st
    requires Launch(counts, launched) == Decrements(Kids(g, ready[0]), indeg)
    requires forall y :: y !in launched ==> Get(st2, y) == Get(st1, y)
    requires forall y :: y in launched ==> Get(st2, y) == (if zombieMode && Get(st1, ready[0]) == 2 then 2 else Get(st1, y))
    requires pending' == Pending(g, nodes, done + {ready[0]}) && done' == done + {ready[0]} && order' == order + [ready[0]]
    requires ready' == ready[1..] + launched && launchedBy' == launchedBy + [readyBy[0]]
    requires launchStates' == launchStates + [Get(st, ready[0])] && results' == results + [r]
    ensures ready[0] in nodes && ready[0] !in done
    ensures Scheduled(zombieMode, g, nodes, root, st0, st2, pending', counts, done', order', ready', newBy, launchedBy',
                      launchStates', results') == true
  {
    OrderedStep(g, nodes, root, pending, indeg, done, order, ready);
    newBy := LaunchesStep(zombieMode, g, st0, st, order, ready, readyBy, launchedBy, launchStates, results, r, st1, st2, launched);
  }

  /** Before the first turn only the root is launched, by nobody, and the
      counts are the graph's in-degrees. */
  lemma ScheduledStart(zombieMode: bool, g: Children, nodes: set<string>, root: string, st0: map<string, int>,
                       indgrees: map<string, int>)
    requires root in nodes
    requires forall c :: c in nodes ==> Get(indgrees, c) == Pending(g, nodes, {})[c]
    requires forall c :: c in nodes ==> (c == root <==> Pending(g, nodes, {})[c] == 0)
    ensures Scheduled(zombieMode, g, nodes, root, st0, st0, Pending(g, nodes, {}), indgrees, {}, [], [root], [-1], [], [], []) == true
  {
  }

  /** A finished run of a graph: every node ran exactly once, parents
      first, the root first, each task after the root launched by its last
      parent to run, in the state it was launched with, and each ran task
      left failed exactly when its result failed. */
  ghost predicate Ran(zombieMode: bool, g: Children, nodes: set<string>, root: string, st0: map<string, int>,
                      st: map<string, int>, order: seq<string>, launchedBy: seq<int>, launchStates: seq<int>,
                      results: seq<RunResult>)
  {
    Distinct(order) && (forall x :: x in order <==> x in nodes) && ParentsFirst(g, nodes, order) &&
    |order| > 0 && order[0] == root && LaunchedBy(g, order, launchedBy) &&
    LaunchStates(zombieMode, st0, st, order, launchStates, launchedBy, [], []) &&
    TaskStates(st0, st, order, launchStates, results, [])
  }

  /** When nothing is ready the run is finished: on an acyclic graph no
      node is left waiting. */
  lemma ScheduledEnd(zombieMode: bool, g: Children, nodes: set<string>, root: string, rank: map<string, nat>,
                     st0: map<string, int>, st: map<string, int>, pending: map<string, int>, indeg: map<string, int>,
                     done: set<string>, order: seq<string>, readyBy: seq<int>,
                     launchedBy: seq<int>, launchStates: seq<int>, results: seq<RunResult>)
    requires IsRanking(g, rank)
    requires Scheduled(zombieMode, g, nodes, root, st0, st, pending, indeg, done, order, [], readyBy, launchedBy, launchStates, results) == true
    ensures Ran(zombieMode, g, nodes, root, st0, st, order, launchedBy, launchStates, results)
  {
    Liveness(g, nodes, done, rank);
  }

  /** What a finished run of a graph says, spelled out task by task. */
  lemma RanFacts(zombieMode: bool, g: Children, nodes: set<string>, root: string, st0: map<string, int>,
                 st: map<string, int>, order: seq<string>, launchedBy: seq<int>, launchStates: seq<int>,
                 results: seq<RunResult>, free: bool, h0: seq<TokenBuckets.Event>, h: seq<TokenBuckets.Event>,
                 work: string -> Outcome)
    requires Ran(zombieMode, g, nodes, root, st0, st, order, launchedBy, launchStates, results)
    requires Logged(zombieMode, free, h0, h, order, launchStates, results, work)
    ensures h == h0 + SlotLog(zombieMode, free, launchStates)
    ensures Distinct(order) && forall x :: x in order <==> x in nodes
    ensures |order| == |nodes| && |results| == |order| && |launchStates| == |order| && |launchedBy| == |order|
    ensures |order| > 0 && order[0] == root && launchStates[0] == Get(st0, root)
    ensures forall i :: 0 <= i < |order| ==>
      results[i].identifier == order[i] && results[i] == Report(zombieMode, launchStates[i], free, order[i], work(order[i]))
    ensures forall i, p :: 0 <= i < |order| && p in nodes && order[i] in Kids(g, p) ==> p in order[..i]
    ensures forall i :: 0 < i < |order| ==> 0 <= launchedBy[i] < i && order[i] in Kids(g, order[launchedBy[i]])
    ensures forall i, j :: 0 <= j < i < |order| && order[i] in Kids(g, order[j]) ==> j <= launchedBy[i]
    ensures forall i :: 0 < i < |order| ==>
      launchStates[i] == (if zombieMode && Get(st, order[launchedBy[i]]) == 2 then 2 else Get(st0, order[i]))
    ensures forall i :: 0 <= i < |order| ==> Get(st, order[i]) == (if Failed(results[i]) then 2 else launchStates[i])
    ensures forall y :: y !in nodes ==> Get(st, y) == Get(st0, y)
  {
    DistinctSize(order, nodes);
  }

  /** The identifiers of a sequence of results. */
  function Ids(rs: seq<RunResult>): (ids: seq<string>)
    ensures |ids| == |rs| && forall i :: 0 <= i < |rs| ==> ids[i] == rs[i].identifier
  {
    if rs == [] then [] else Ids(rs[..|rs| - 1]) + [rs[|rs| - 1].identifier]
  }

  /** The results of several graphs' runs, one run after the other. */
  function Flatten(segments: seq<seq<RunResult>>): seq<RunResult>
  {
    if segments == [] then [] else Flatten(segments[..|segments| - 1]) + segments[|segments| - 1]
  }

  /** The sum of the graphs' node counts: the capacity `Do` gives its
      result channel. */
  function NodeCount(graphs: seq<TaskGraph>): nat
  {
    if graphs == [] then 0 else NodeCount(graphs[..|graphs| - 1]) + |graphs[|graphs| - 1].nodes|
  }

  /** The results of a graph's run name each node of the graph once. */
  ghost predicate Covers(rs: seq<RunResult>, graph: TaskGraph)
  {
    |rs| == |graph.nodes| && Distinct(Ids(rs)) && forall x :: x in Ids(rs) <==> x in graph.nodes
  }

  /** When each graph's run sends one result per node, the channel is
      filled exactly to its capacity. */
  lemma {:induction false} FlattenSize(segments: seq<seq<RunResult>>, graphs: seq<TaskGraph>)
    requires |segments| == |graphs| && forall k :: 0 <= k < |graphs| ==> |segments[k]| == |graphs[k].nodes|
    ensures |Flatten(segments)| == NodeCount(graphs)
  {
    if segments != [] {
      FlattenSize(segments[..|segments| - 1], graphs[..|graphs| - 1]);
    }
  }

  lemma GraphsOfAppend(g: Children, roots: seq<string>, graphs: seq<TaskGraph>, graph: TaskGraph)
    requires |graphs| < |roots| && forall j :: 0 <= j < |graphs| ==> IsGraphOf(g, roots[j], graphs[j])
    requires IsGraphOf(g, roots[|graphs|], graph)
    ensures forall j :: 0 <= j < |graphs| + 1 ==> IsGraphOf(g, roots[j], (graphs + [graph])[j])
  {
    forall j | 0 <= j < |graphs| + 1
      ensures IsGraphOf(g, roots[j], (graphs + [graph])[j])
    {
      if j < |graphs| {
        assert (graphs + [graph])[j] == graphs[j];
      }
    }
  }

  lemma CoversAppend(segments: seq<seq<RunResult>>, graphs: seq<TaskGraph>, rs: seq<RunResult>)
    requires |segments| < |graphs| && forall j :: 0 <= j < |segments| ==> Covers(segments[j], graphs[j])
    requires Covers(rs, graphs[|segments|])
    ensures forall j :: 0 <= j < |segments| + 1 ==> Covers((segments + [rs])[j], graphs[j])
  {
    forall j | 0 <= j < |segments| + 1
      ensures Covers((segments + [rs])[j], graphs[j])
    {
      if j < |segments| {
        assert (segments + [rs])[j] == segments[j];
      }
    }
  }

  /** The first loop of `Do`: the graph of each root, and the sum of their
      node counts. */
  method BuildGraphs(g: Children, roots: seq<string>) returns (capacity: int, graphs: seq<TaskGraph>)
    ensures |graphs| == |roots| && capacity == NodeCount(graphs)
    ensures forall k :: 0 <= k < |roots| ==> IsGraphOf(g, roots[k], graphs[k])
  {
    graphs, capacity := [], 0;
    var k := 0;
    while k < |roots|
      invariant 0 <= k <= |roots| && |graphs| == k && capacity == NodeCount(graphs)
      invariant forall j :: 0 <= j < k ==> IsGraphOf(g, roots[j], graphs[j])
    {
      var graph := ToGraph(g, roots[k]);
      assert (graphs + [graph])[..k] == graphs;
      GraphsOfAppend(g, roots, graphs, graph);
      graphs, capacity := graphs + [graph], capacity + |graph.nodes|;
      k := k + 1;
    }
  }

  class GoPool {
    const bucket: TokenBucket
    var zombieMode: bool  // TaskOptions.ZombieMode
    var fastFail: bool

    constructor (b: TokenBucket)
      ensures bucket == b && !zombieMode && !fastFail
    {
      bucket := b;
      zombieMode := false;
      fastFail := false;
    }

    /** A Get on the bucket can return: a token is free, or Get fails fast. */
    ghost predicate Ready()
      reads this, bucket
    {
      bucket.Valid() && (fastFail || bucket.tokens > 0)
    }

    /** `Go(ctx, f)`: runs `f` in a token's slot and returns the token
        after it; when no token can be had, returns the wrapped error and
        neither runs `f` nor returns a token. */
    method Go() returns (err: Option<Error>)
      requires Ready()
      modifies bucket`tokens, bucket`history
      ensures Ready() && bucket.tokens == old(bucket.tokens)
      ensures old(bucket.tokens) == 0 ==> err == Some(GetTokenFailed(ErrNoBucket)) && bucket.history == old(bucket.history) + [Refused]
      ensures old(bucket.tokens) > 0 ==> err == None && bucket.history == old(bucket.history) + [Acquired, Released]
    {
      var e := bucket.Get(fastFail);
      if e.Some? {
        return Some(GetTokenFailed(e.value));
      }
      // f() runs here, on its own goroutine in the source
      bucket.Put();
      err := None;
    }

    /** `do(ctx, task)` for a task launched in `state` whose body would
        end with `outcome`. */
    method DoTask(id: string, state: int, outcome: Outcome) returns (r: RunResult)
      requires Ready()
      modifies bucket`tokens, bucket`history
      ensures Ready() && bucket.tokens == old(bucket.tokens)
      ensures r == Report(zombieMode, state, old(bucket.tokens) > 0, id, outcome)
      ensures bucket.history == old(bucket.history) + Slots(zombieMode, state, old(bucket.tokens) > 0)
    {
      r := RunResult(id, None, "");
      if zombieMode && state == 2 {
        r := r.(err := Some(ErrParentFail));
        return;
      }
      var err := bucket.Get(fastFail);
      if err.Some? {
        r := r.(err := err);
        return;
      }
      match outcome {
        case Returned(e) =>
          r := r.(err := e);
        case Crashed(value, trace) =>
          r := r.(buf := trace, err := Some(RunPanicked(id, value)));
        case Expired =>
          r := r.(err := Some(ErrTaskTimeout));
      }
      bucket.Put();
    }
    /** `do` on task `x` in its current state, and the failed state set on
        `x` when its result failed. */
    method RunTask(tasks: Tasks, x: string, outcome: Outcome) returns (r: RunResult, state: int)
      requires Ready()
      modifies tasks`state, bucket`tokens, bucket`history
      ensures Ready() && bucket.tokens == old(bucket.tokens)
      ensures state == Get(old(tasks.state), x)
      ensures r == Report(zombieMode, state, old(bucket.tokens) > 0, x, outcome)
      ensures bucket.history == old(bucket.history) + Slots(zombieMode, state, old(bucket.tokens) > 0)
      ensures tasks.state == if Failed(r) then old(tasks.state)[x := 2] else old(tasks.state)
    {
      state := Get(tasks.state, x);
      r := DoTask(x, state, outcome);
      if Failed(r) {
        tasks.state := tasks.state[x := 2];
      }
    }

    /** The loop of `Do`'s `recursive` closure over `x.Children` once task
        `x` has completed: each child edge decrements the child's count, and
        a child whose count drops to zero or below is launched, after it
        takes the failed state of `x` in zombie mode. */
    method LaunchChildren(tasks: Tasks, x: string, indeg: map<string, int>)
      returns (indeg': map<string, int>, launched: seq<string>)
      requires x !in Kids(tasks.children, x)
      modifies tasks`state
      ensures Launch(indeg', launched) == Decrements(Kids(tasks.children, x), indeg)
      ensures forall y :: y !in launched ==> Get(tasks.state, y) == Get(old(tasks.state), y)
      ensures forall y :: y in launched ==>
        Get(tasks.state, y) == (if zombieMode && Get(old(tasks.state), x) == 2 then 2 else Get(old(tasks.state), y))
    {
      var kids := Kids(tasks.children, x);
      assert kids[..0] == [];
      indeg', launched := indeg, [];
      var i := 0;
      while i < |kids|
        invariant 0 <= i <= |kids| && x !in launched
        invariant Launch(indeg', launched) == Decrements(kids[..i], indeg)
        invariant forall y :: y !in launched ==> Get(tasks.state, y) == Get(old(tasks.state), y)
        invariant forall y :: y in launched ==>
          Get(tasks.state, y) == (if zombieMode && Get(old(tasks.state), x) == 2 then 2 else Get(old(tasks.state), y))
      {
        var child := kids[i];
        assert kids[..i + 1][..i] == kids[..i];
        indeg' := indeg'[child := Get(indeg', child) - 1];
        if Get(indeg', child) <= 0 {
          if zombieMode && Get(tasks.state, x) == 2 {
            tasks.state := tasks.state[child := 2];
          }
          launched := launched + [child];
        }
        i := i + 1;
      }
      assert kids[..i] == kids;
    }

    /** `Do`'s `recursive` closure on one graph, as a worklist: the root is
        launched first; each launched task is run by `do`, its result sent,
        its state set to failed when the result is, and its children
        launched by `LaunchChildren`. `order` lists the tasks in the order
        they ran, `launchStates` the state each ran in, `launchedBy` the run
        whose completion launched each one (-1 for the root). On an acyclic
        graph every node runs exactly once, after all its in-graph parents. */
    method RunGraph(tasks: Tasks, graph: TaskGraph, work: string -> Outcome)
      returns (results: seq<RunResult>, ghost order: seq<string>, ghost launchStates: seq<int>, ghost launchedBy: seq<int>)
      requires IsGraphOf(tasks.children, graph.head, graph) && Acyclic(tasks.children)
      requires Ready()
      modifies tasks`state, bucket`tokens, bucket`history
      ensures Ready() && bucket.tokens == old(bucket.tokens)
      ensures bucket.history == old(bucket.history) + SlotLog(zombieMode, old(bucket.tokens) > 0, launchStates)
      ensures Distinct(order) && forall x :: x in order <==> x in graph.nodes
      ensures |order| == |graph.nodes| && |results| == |order| && |launchStates| == |order| && |launchedBy| == |order|
      ensures |order| > 0 && order[0] == graph.head && launchStates[0] == Get(old(tasks.state), graph.head)
      ensures forall i :: 0 <= i < |order| ==>
        results[i].identifier == order[i] &&
        results[i] == Report(zombieMode, launchStates[i], old(bucket.tokens) > 0, order[i], work(order[i]))
      ensures forall i, p :: 0 <= i < |order| && p in graph.nodes && order[i] in Kids(tasks.children, p) ==> p in order[..i]
      ensures forall i :: 0 < i < |order| ==>
        0 <= launchedBy[i] < i && order[i] in Kids(tasks.children, order[launchedBy[i]])
      ensures forall i, j :: 0 <= j < i < |order| && order[i] in Kids(tasks.children, order[j]) ==> j <= launchedBy[i]
      ensures forall i :: 0 < i < |order| ==>
        launchStates[i] == (if zombieMode && Get(tasks.state, order[launchedBy[i]]) == 2 then 2 else Get(old(tasks.state), order[i]))
      ensures forall i :: 0 <= i < |order| ==>
        Get(tasks.state, order[i]) == (if Failed(results[i]) then 2 else launchStates[i])
      ensures forall y :: y !in graph.nodes ==> Get(tasks.state, y) == Get(old(tasks.state), y)
    {
      ghost var rank :| IsRanking(tasks.children, rank);
      PendingStart(tasks.children, graph.head, graph);
      results, order, launchStates, launchedBy := Drain(tasks, rank, graph.head, graph.nodes, graph.indgrees, work);
      RanFacts(zombieMode, tasks.children, graph.nodes, graph.head, old(tasks.state), tasks.state, order, launchedBy,
               launchStates, results, old(bucket.tokens) > 0, old(bucket.history), bucket.history, work);
    }

    /** `Do(ctx, tasks...)`: builds the graph of each root task, sizes the
        result channel to hold one result per node of every graph, and runs
        each graph from its root. The graphs run one after the other here,
        and the body of a task run as part of graph `k` ends with
        `work(k, id)`. Every graph's run sends one result for each of its
        nodes, so the channel ends up holding exactly `capacity` results. */
    method Do(tasks: Tasks, roots: seq<string>, work: (nat, string) -> Outcome)
      returns (capacity: int, results: seq<RunResult>, graphs: seq<TaskGraph>, ghost segments: seq<seq<RunResult>>)
      requires Acyclic(tasks.children) && Ready()
      modifies tasks`state, bucket`tokens, bucket`history
      ensures Ready() && bucket.tokens == old(bucket.tokens)
      ensures |graphs| == |roots| && forall k :: 0 <= k < |roots| ==> IsGraphOf(tasks.children, roots[k], graphs[k])
      ensures capacity == NodeCount(graphs) && |results| == capacity
      ensures |segments| == |roots| && results == Flatten(segments)
      ensures forall k :: 0 <= k < |roots| ==> Covers(segments[k], graphs[k])
    {
      capacity, graphs := BuildGraphs(tasks.children, roots);
      results, segments := RunGraphs(tasks, graphs, work);
      FlattenSize(segments, graphs);
    }

    /** One graph's run, as `Do` sees it: one result per node. */
    method RunSegment(tasks: Tasks, graph: TaskGraph, work: string -> Outcome) returns (rs: seq<RunResult>)
      requires IsGraphOf(tasks.children, graph.head, graph) && Acyclic(tasks.children)
      requires Ready()
      modifies tasks`state, bucket`tokens, bucket`history
      ensures Ready() && bucket.tokens == old(bucket.tokens)
      ensures Covers(rs, graph)
    {
      ghost var order, launchStates, launchedBy;
      rs, order, launchStates, launchedBy := RunGraph(tasks, graph, work);
      assert Ids(rs) == order;
    }

    /** The second loop of `Do`: each graph run from its root, in turn. */
    method RunGraphs(tasks: Tasks, graphs: seq<TaskGraph>, work: (nat, string) -> Outcome)
      returns (results: seq<RunResult>, ghost segments: seq<seq<RunResult>>)
      requires Acyclic(tasks.children) && Ready()
      requires forall k :: 0 <= k < |graphs| ==> IsGraphOf(tasks.children, graphs[k].head, graphs[k])
      modifies tasks`state, bucket`tokens, bucket`history
      ensures Ready() && bucket.tokens == old(bucket.tokens)
      ensures |segments| == |graphs| && results == Flatten(segments)
      ensures forall k :: 0 <= k < |graphs| ==> Covers(segments[k], graphs[k])
    {
      ghost var g := tasks.children;
      results, segments := [], [];
      var k := 0;
      while k < |graphs|
        invariant 0 <= k <= |graphs| && |segments| == k && tasks.children == g
        invariant Ready() && bucket.tokens == old(bucket.tokens)
        invariant results == Flatten(segments)
        invariant forall j :: 0 <= j < k ==> Covers(segments[j], graphs[j])
      {
        var graphIndex := k;
        var rs := RunSegment(tasks, graphs[k], x => work(graphIndex, x));
        assert (segments + [rs])[..k] == segments;
        CoversAppend(segments, graphs, rs);
        segments, results := segments + [rs], results + rs;
        k := k + 1;
      }
    }

    /** One turn of the worklist: the first ready task runs in its state,
        is marked failed when its result is, and its completion launches
        the children left with nothing pending. */
    method Turn(tasks: Tasks, ghost g: Children, ghost rank: map<string, nat>, ghost nodes: set<string>, ghost root: string,
                ghost st0: map<string, int>, ghost free: bool, ghost h0: seq<TokenBuckets.Event>,
                ghost pending: map<string, int>, indeg: map<string, int>, ghost done: set<string>, ghost order: seq<string>,
                ready: seq<string>, ghost readyBy: seq<int>, ghost launchedBy: seq<int>, ghost launchStates: seq<int>,
                results: seq<RunResult>, work: string -> Outcome)
      returns (indeg': map<string, int>, ready': seq<string>, results': seq<RunResult>,
               ghost pending': map<string, int>, ghost done': set<string>, ghost order': seq<string>,
               ghost readyBy': seq<int>, ghost launchedBy': seq<int>, ghost launchStates': seq<int>)
      requires g == tasks.children && IsRanking(g, rank) && Closed(g, nodes) && ready != []
      requires Ready() && free == (bucket.tokens > 0)
      requires Logged(zombieMode, free, h0, bucket.history, order, launchStates, results, work)
      requires Scheduled(zombieMode, g, nodes, root, st0, tasks.state, pending, indeg, done, order, ready, readyBy,
                         launchedBy, launchStates, results) == true
      modifies tasks`state, bucket`tokens, bucket`history
      ensures Ready() && bucket.tokens == old(bucket.tokens)
      ensures ready[0] in nodes && ready[0] !in done && done' == done + {ready[0]}
      ensures Logged(zombieMode, free, h0, bucket.history, order', launchStates', results', work)
      ensures Scheduled(zombieMode, g, nodes, root, st0, tasks.state, pending', indeg', done', order', ready',
                        readyBy', launchedBy', launchStates', results') == true
    {
      var x := ready[0];
      NoSelfLoop(g, rank, x);
      ghost var st := tasks.state;
      ghost var h := bucket.history;
      var r, state := RunTask(tasks, x, work(x));
      ghost var st1 := tasks.state;
      var launched;
      indeg', launched := LaunchChildren(tasks, x, indeg);
      ready', results' := ready[1..] + launched, results + [r];
      pending', done', order' := Pending(g, nodes, done + {x}), done + {x}, order + [x];
      launchedBy', launchStates' := launchedBy + [readyBy[0]], launchStates + [state];
      LoggedStep(zombieMode, free, h0, h, bucket.history, order, launchStates, results, work, x, state, r,
                 order', launchStates', results');
      readyBy' := ScheduledStep(zombieMode, g, nodes, root, st0, st, pending, indeg, done, order, ready, readyBy,
                                launchedBy, launchStates, results, r, st1, tasks.state, indeg', launched,
                                pending', done', order', ready', launchedBy', launchStates', results');
    }

    /** The worklist loop of `RunGraph`, from the root alone launched until
        nothing is ready. */
    method Drain(tasks: Tasks, ghost rank: map<string, nat>, root: string, ghost nodes: set<string>,
                 indgrees: map<string, int>, work: string -> Outcome)
      returns (results: seq<RunResult>, ghost order: seq<string>, ghost launchStates: seq<int>, ghost launchedBy: seq<int>)
      requires IsRanking(tasks.children, rank) && Closed(tasks.children, nodes) && root in nodes
      requires forall c :: c in nodes ==> Get(indgrees, c) == Pending(tasks.children, nodes, {})[c]
      requires forall c :: c in nodes ==> (c == root <==> Pending(tasks.children, nodes, {})[c] == 0)
      requires Ready()
      modifies tasks`state, bucket`tokens, bucket`history
      ensures Ready() && bucket.tokens == old(bucket.tokens)
      ensures Logged(zombieMode, old(bucket.tokens) > 0, old(bucket.history), bucket.history, order, launchStates, results, work)
      ensures Ran(zombieMode, tasks.children, nodes, root, old(tasks.state), tasks.state, order, launchedBy, launchStates, results)
    {
      ghost var g := tasks.children;
      ghost var st0 := tasks.state;
      ghost var free := bucket.tokens > 0;
      ghost var h0 := bucket.history;
      var indeg, ready := indgrees, [root];
      ghost var readyBy: seq<int> := [-1];
      ghost var done: set<string> := {};
      ghost var pending := Pending(g, nodes, done);
      results, order, launchStates, launchedBy := [], [], [], [];
      ScheduledStart(zombieMode, g, nodes, root, st0, indgrees);
      while ready != []
        invariant Ready() && bucket.tokens == old(bucket.tokens) && free == (bucket.tokens > 0)
        invariant Logged(zombieMode, free, h0, bucket.history, order, launchStates, results, work)
        invariant Scheduled(zombieMode, g, nodes, root, st0, tasks.state, pending, indeg, done, order, ready, readyBy,
                            launchedBy, launchStates, results) == true
        decreases nodes - done
      {
        indeg, ready, results, pending, done, order, readyBy, launchedBy, launchStates :=
          Turn(tasks, g, rank, nodes, root, st0, free, h0, pending, indeg, done, order, ready, readyBy,
               launchedBy, launchStates, results, work);
      }
      ScheduledEnd(zombieMode, g, nodes, root, rank, st0, tasks.state, pending, indeg, done, order, readyBy,
                   launchedBy, launchStates, results);
    }
  }

  /** `NewGoPool(n)`: a pool over a bucket of `n` tokens, zombie mode and
      fast-fail off; panics where `NewTokenBucket` does. */
  method NewGoPool(n: int) returns (r: Result<GoPool>)
    ensures n > LimitSize ==> r == Panic(ErrSizeTooLarge)
    ensures n < 0 ==> r == Panic(ErrNegativeSize)
    ensures 0 <= n <= LimitSize ==>
      (r.Ok? && fresh(r.value) && fresh(r.value.bucket) && r.value.bucket.Valid() &&
       r.value.bucket.capacity == n && r.value.bucket.tokens == n &&
       !r.value.zombieMode && !r.value.fastFail)
  {
    var b := NewTokenBucket(n);
    if b.Panic? {
      return Panic(b.reason);
    }
    var p := new GoPool(b.value);
    return Ok(p);
  }
}
