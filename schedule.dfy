/** The bookkeeping of the graph scheduler in go-pool.go, on values: the
    per-node count of parent edges still to complete, the launch loop over a
    task's children, and the invariants of the worklist that runs a graph. */
module Schedules {
  import opened Tasks

  /** For each node of a graph, the number of its child edges that come
      from nodes not yet in `done`: the count `Do` keeps in `indgrees`. */
  ghost function Pending(g: Children, nodes: set<string>, done: set<string>): (m: map<string, int>)
    ensures m.Keys == nodes
  {
    map c | c in nodes :: InDegree(g, nodes, c) - InDegree(g, done, c)
  }

  /** Before anything runs, the counts are `ToGraph`'s in-degrees and the
      root is the one node of its graph with none pending. */
  lemma PendingStart(g: Children, root: string, graph: TaskGraph)
    requires IsGraphOf(g, root, graph) && Acyclic(g)
    ensures root in graph.nodes && Closed(g, graph.nodes)
    ensures forall c :: c in graph.nodes ==> Get(graph.indgrees, c) == Pending(g, graph.nodes, {})[c]
    ensures forall c :: c in graph.nodes ==> (c == root <==> Pending(g, graph.nodes, {})[c] == 0)
  {
    ReachableSelf(g, root);
    forall x, c | x in graph.nodes && c in Kids(g, x)
      ensures c in graph.nodes
    {
      ReachablePath(g, root, x, c);
    }
    forall c | c in graph.nodes
      ensures c == root <==> InDegree(g, graph.nodes, c) == 0
    {
      InDegreeZero(g, graph.nodes, c);
      if c == root {
        forall p | p in graph.nodes
          ensures root !in Kids(g, p)
        {
          RootHasNoParent(g, root, p);
        }
      } else {
        ReachableHasParent(g, root, c);
      }
    }
  }

  /** Completing `x` takes one from the count of each of its child edges. */
  lemma PendingStep(g: Children, nodes: set<string>, done: set<string>, x: string)
    requires done <= nodes && x in nodes && x !in done && Closed(g, nodes)
    ensures forall c :: c in nodes ==>
      multiset(Kids(g, x))[c] <= Pending(g, nodes, done)[c] &&
      Pending(g, nodes, done + {x})[c] == Pending(g, nodes, done)[c] - multiset(Kids(g, x))[c]
  {
    forall c | c in nodes
      ensures multiset(Kids(g, x))[c] <= Pending(g, nodes, done)[c]
      ensures Pending(g, nodes, done + {x})[c] == Pending(g, nodes, done)[c] - multiset(Kids(g, x))[c]
    {
      SumOverAdd(g, done, EdgesInto(c), x);
      InDegreeMonotone(g, nodes, done + {x}, c);
    }
  }

  /** A node with nothing pending has every parent in the graph done. */
  lemma PendingParents(g: Children, nodes: set<string>, done: set<string>, c: string)
    requires done <= nodes && c in nodes && Pending(g, nodes, done)[c] == 0
    ensures forall p :: p in nodes && c in Kids(g, p) ==> p in done
  {
    ParentsCounted(g, nodes, done, c);
  }

  /** Once nothing is ready, every node of an acyclic graph has run: a node
      still waiting would have a parent still waiting, of lower rank. */
  lemma Liveness(g: Children, nodes: set<string>, done: set<string>, rank: map<string, nat>)
    requires IsRanking(g, rank) && done <= nodes
    requires forall c :: c in nodes ==> (c in done <==> Pending(g, nodes, done)[c] == 0)
    ensures nodes <= done
  {
    forall c | c in nodes
      ensures c in done
    {
      Waiting(g, nodes, done, rank, c);
    }
  }

  lemma {:induction false} Waiting(g: Children, nodes: set<string>, done: set<string>, rank: map<string, nat>, c: string)
    requires IsRanking(g, rank) && done <= nodes && c in nodes
    requires forall y :: y in nodes ==> (y in done <==> Pending(g, nodes, done)[y] == 0)
    ensures c in done
    decreases if c in rank then rank[c] else 0
  {
    if c !in done {
      InDegreeMonotone(g, nodes, done, c);
      UncountedParent(g, nodes, done, c);
      var p :| p in nodes && p !in done && c in Kids(g, p);
      Waiting(g, nodes, done, rank, p);
    }
  }

  /** What the loop over a task's children leaves: the decremented counts
      and the children launched, in order. */
  datatype Launch = Launch(counts: map<string, int>, launched: seq<string>)

  /** Each child edge decrements its child's count; a child whose count
      drops to zero or below is launched. */
  function Decrements(kids: seq<string>, indeg: map<string, int>): Launch
  {
    if kids == [] then Launch(indeg, [])
    else
      var before := Decrements(kids[..|kids| - 1], indeg);
      var c := kids[|kids| - 1];
      var counts := before.counts[c := Get(before.counts, c) - 1];
      Launch(counts, if Get(counts, c) <= 0 then before.launched + [c] else before.launched)
  }

  /** When no count can go below zero, every child edge is subtracted from
      its child's count and a child is launched exactly once, and exactly
      when its count reaches zero. */
  lemma {:induction false} DecrementsCounts(kids: seq<string>, indeg: map<string, int>)
    requires forall c :: c in kids ==> multiset(kids)[c] <= Get(indeg, c)
    ensures forall c :: Get(Decrements(kids, indeg).counts, c) == Get(indeg, c) - multiset(kids)[c]
    ensures Distinct(Decrements(kids, indeg).launched)
    ensures forall c :: c in Decrements(kids, indeg).launched <==> c in kids && Get(indeg, c) == multiset(kids)[c]
    decreases |kids|
  {
    if kids != [] {
      var init := kids[..|kids| - 1];
      var c := kids[|kids| - 1];
      assert kids == init + [c];
      assert multiset(kids) == multiset(init) + multiset{c};
      DecrementsCounts(init, indeg);
    }
  }

  /** The loop over the children of `x`, read against the graph: with
      `pending` the counts before `x` completed, it subtracts the child
      edges of `x` and launches, once each, exactly the children left with
      nothing pending, none of which had run or been launched before. */
  lemma DecrementsPending(g: Children, nodes: set<string>, done: set<string>, x: string,
                          pending: map<string, int>, indeg: map<string, int>, ready: seq<string>)
    requires x in nodes && forall c :: c in Kids(g, x) ==> c in nodes
    requires pending.Keys == nodes
    requires forall c :: c in nodes ==> Get(indeg, c) == pending[c] && multiset(Kids(g, x))[c] <= pending[c]
    requires forall c :: c in nodes ==> ((c in done || c == x || c in ready) <==> pending[c] == 0)
    ensures forall c :: c in nodes ==> Get(Decrements(Kids(g, x), indeg).counts, c) == pending[c] - multiset(Kids(g, x))[c]
    ensures forall c :: c in nodes ==>
      ((c in done || c == x || c in ready || c in Decrements(Kids(g, x), indeg).launched) <==> multiset(Kids(g, x))[c] == pending[c])
    ensures Distinct(Decrements(Kids(g, x), indeg).launched)
    ensures forall y :: y in Decrements(Kids(g, x), indeg).launched ==>
      y in Kids(g, x) && y in nodes && y !in done && y != x && y !in ready
  {
    DecrementsCounts(Kids(g, x), indeg);
  }

  /** Two sequences without repeats and without common elements join into
      one without repeats. */
  lemma DistinctAppend(a: seq<string>, b: seq<string>)
    requires Distinct(a) && Distinct(b) && forall y :: y in b ==> y !in a
    ensures Distinct(a + b)
  {
    forall i, j | 0 <= i < j < |a + b|
      ensures (a + b)[i] != (a + b)[j]
    {
      if j >= |a| && i < |a| {
        assert (a + b)[j] in b;
      }
    }
  }

  /** A sequence without repeats lists as many elements as its set has. */
  lemma {:induction false} DistinctSize(s: seq<string>, t: set<string>)
    requires Distinct(s) && forall x :: x in s <==> x in t
    ensures |s| == |t|
    decreases |s|
  {
    if s != [] {
      var last := s[|s| - 1];
      var init := s[..|s| - 1];
      assert forall x :: x in init <==> x in t - {last} by {
        assert s == init + [last];
      }
      DistinctSize(init, t - {last});
    }
  }

  /** The worklist of one graph's run: `order` lists the tasks that
      completed (`done` as a set) and `ready` the tasks launched and not yet
      run, neither with repeats, and no task in both. */
  ghost predicate Worklist(nodes: set<string>, done: set<string>, order: seq<string>, ready: seq<string>)
  {
    done <= nodes && (forall y :: y in done <==> y in order) && Distinct(order) &&
    Distinct(ready) && forall k :: 0 <= k < |ready| ==> ready[k] in nodes && ready[k] !in done
  }

  /** `indeg` holds the pending counts, and a node is completed or launched
      exactly when none of its parent edges is still pending. */
  ghost predicate Counted(g: Children, nodes: set<string>, pending: map<string, int>, indeg: map<string, int>,
                          done: set<string>, ready: seq<string>)
  {
    pending == Pending(g, nodes, done) &&
    (forall c :: c in nodes ==> Get(indeg, c) == pending[c]) &&
    (forall c :: c in nodes ==> ((c in done || c in ready) <==> pending[c] == 0))
  }

  /** Every task ran after all its parents in the graph. */
  ghost predicate ParentsFirst(g: Children, nodes: set<string>, order: seq<string>)
  {
    forall i, p :: 0 <= i < |order| && p in nodes && order[i] in Kids(g, p) ==> p in order[..i]
  }

  /** Every task after the root was launched by the completion of one of
      its parents that ran before it, and by the last of its parents to run;
      `launchedBy` holds positions in `order`. */
  ghost predicate LaunchedBy(g: Children, order: seq<string>, launchedBy: seq<int>)
  {
    |launchedBy| == |order| &&
    (forall i :: 0 < i < |order| ==> 0 <= launchedBy[i] < i && order[i] in Kids(g, order[launchedBy[i]])) &&
    (forall i, j :: 0 <= j < i < |order| && order[i] in Kids(g, order[j]) ==> j <= launchedBy[i])
  }

  /** The same for the launched tasks not yet run. */
  ghost predicate ReadyBy(g: Children, order: seq<string>, ready: seq<string>, readyBy: seq<int>)
  {
    |readyBy| == |ready| &&
    (|order| > 0 ==> forall k :: 0 <= k < |ready| ==> 0 <= readyBy[k] < |order| && ready[k] in Kids(g, order[readyBy[k]])) &&
    (forall k, j :: 0 <= k < |ready| && 0 <= j < |order| && ready[k] in Kids(g, order[j]) ==> j <= readyBy[k])
  }

  /** Running the first ready task `x` and launching what its completion
      releases: the counts drop by the child edges of `x`, and exactly the
      children left with nothing pending are launched, once each; none of
      them had completed or been launched before. */
  lemma CountedStep(g: Children, nodes: set<string>, pending: map<string, int>, indeg: map<string, int>,
                    done: set<string>, order: seq<string>, ready: seq<string>)
    requires Closed(g, nodes) && ready != []
    requires Worklist(nodes, done, order, ready) && Counted(g, nodes, pending, indeg, done, ready)
    ensures var x := ready[0];
      var l := Decrements(Kids(g, x), indeg);
      (forall y :: y in l.launched ==> y in Kids(g, x) && y in nodes && y !in done && y != x && y !in ready) &&
      Distinct(l.launched) &&
      (forall p :: p in nodes && x in Kids(g, p) ==> p in done) &&
      (forall k :: 1 <= k < |ready| ==> ready[k] !in Kids(g, x)) &&
      Counted(g, nodes, Pending(g, nodes, done + {x}), l.counts, done + {x}, ready[1..] + l.launched)
  {
    var x := ready[0];
    var rest := ready[1..];
    assert ready == [x] + rest;
    PendingParents(g, nodes, done, x);
    PendingStep(g, nodes, done, x);
    DecrementsPending(g, nodes, done, x, pending, indeg, rest);
    forall k | 1 <= k < |ready|
      ensures ready[k] !in Kids(g, x)
    {
      PendingParents(g, nodes, done, ready[k]);
    }
  }

  /** Moving the first ready task to the completed ones and appending newly
      launched tasks that are new to both keeps the worklist. */
  lemma WorklistStep(nodes: set<string>, done: set<string>, order: seq<string>, ready: seq<string>, launched: seq<string>)
    requires ready != [] && Worklist(nodes, done, order, ready) && Distinct(launched)
    requires forall y :: y in launched ==> y in nodes && y !in done && y != ready[0] && y !in ready
    ensures Worklist(nodes, done + {ready[0]}, order + [ready[0]], ready[1..] + launched)
  {
    var rest := ready[1..];
    assert ready == [ready[0]] + rest;
    DistinctAppend(rest, launched);
  }

  /** A task that runs once all its parents have keeps parents first. */
  lemma ParentsFirstStep(g: Children, nodes: set<string>, order: seq<string>, x: string)
    requires ParentsFirst(g, nodes, order)
    requires forall p :: p in nodes && x in Kids(g, p) ==> p in order
    ensures ParentsFirst(g, nodes, order + [x])
  {
    forall i | 0 <= i < |order|
      ensures (order + [x])[..i] == order[..i]
    {
    }
  }

  /** The run of the first ready task records its launcher. */
  lemma LaunchedByStep(g: Children, order: seq<string>, launchedBy: seq<int>, ready: seq<string>, readyBy: seq<int>)
    requires ready != [] && LaunchedBy(g, order, launchedBy) && ReadyBy(g, order, ready, readyBy)
    ensures LaunchedBy(g, order + [ready[0]], launchedBy + [readyBy[0]])
  {
  }

  /** The tasks launched by the completion of the first ready task `x` are
      recorded as launched by it (`newBy` is the launcher list after the
      run); a ready task that is not a child of `x` (none is: all parents of
      a ready task have completed) keeps its launcher. */
  lemma ReadyByStep(g: Children, order: seq<string>, ready: seq<string>, readyBy: seq<int>, launched: seq<string>,
                    newBy: seq<int>)
    requires ready != [] && ReadyBy(g, order, ready, readyBy)
    requires |order| == 0 ==> |ready| == 1
    requires forall k :: 1 <= k < |ready| ==> ready[k] !in Kids(g, ready[0])
    requires forall y :: y in launched ==> y in Kids(g, ready[0])
    requires NextBy(readyBy, |launched|, |order|, newBy)
    ensures ReadyBy(g, order + [ready[0]], ready[1..] + launched, newBy)
  {
  }

  /** The worklist side of a graph's run: the worklist, the counts, parents
      first, and the root launched first and alone. */
  ghost predicate Ordered(g: Children, nodes: set<string>, root: string, pending: map<string, int>,
                          indeg: map<string, int>, done: set<string>, order: seq<string>, ready: seq<string>)
  {
    Worklist(nodes, done, order, ready) && Counted(g, nodes, pending, indeg, done, ready) &&
    ParentsFirst(g, nodes, order) && (|order| == 0 ==> ready == [root]) && (|order| > 0 ==> order[0] == root)
  }

  /** A turn keeps the worklist side: the first ready task `x` completes,
      and the children its completion releases are new to the worklist. */
  lemma OrderedStep(g: Children, nodes: set<string>, root: string, pending: map<string, int>,
                    indeg: map<string, int>, done: set<string>, order: seq<string>, ready: seq<string>)
    requires Closed(g, nodes) && ready != [] && Ordered(g, nodes, root, pending, indeg, done, order, ready)
    ensures var x := ready[0];
      var l := Decrements(Kids(g, x), indeg);
      x in nodes && x !in done && Distinct(ready) && (forall k :: 0 <= k < |ready| ==> ready[k] !in order) &&
      (|order| == 0 ==> |ready| == 1) &&
      (forall y :: y in l.launched ==> y in Kids(g, x) && y !in order && y != x && y !in ready) &&
      (forall k :: 1 <= k < |ready| ==> ready[k] !in Kids(g, x)) &&
      Ordered(g, nodes, root, Pending(g, nodes, done + {x}), l.counts, done + {x}, order + [x], ready[1..] + l.launched)
  {
    var x := ready[0];
    CountedStep(g, nodes, pending, indeg, done, order, ready);
    var l := Decrements(Kids(g, x), indeg);
    WorklistStep(nodes, done, order, ready, l.launched);
    ParentsFirstStep(g, nodes, order, x);
  }

  /** `newBy` drops the first launcher of `readyBy` and records `n` tasks
      launched by run number `i`. */
  ghost predicate NextBy(readyBy: seq<int>, n: nat, i: int, newBy: seq<int>)
  {
    |readyBy| > 0 && |newBy| == |readyBy| - 1 + n &&
    (forall k :: 0 <= k < |readyBy| - 1 ==> newBy[k] == readyBy[k + 1]) &&
    (forall k :: |readyBy| - 1 <= k < |newBy| ==> newBy[k] == i)
  }
}
