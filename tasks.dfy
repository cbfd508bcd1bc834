/** Tasks, their child edges, the reachability walk and the per-root graph
    (task.go). A task is known by its identifier: the children relation maps
    an identifier to the ordered identifiers of its children, and an
    identifier the map does not hold has no children. */
module Tasks {

  type Children = map<string, seq<string>>

  /** The `Children` slice of task `id`. */
  function Kids(g: Children, id: string): seq<string>
  {
    if id in g then g[id] else []
  }

  /** Value lookup with Go's zero value for a missing key. */
  function Get(m: map<string, int>, k: string): int
  {
    if k in m then m[k] else 0
  }

  predicate Distinct(s: seq<string>)
  {
    forall i, j :: 0 <= i < j < |s| ==> s[i] != s[j]
  }

  // ---------------------------------------------------------------------
  // Reachability and acyclicity

  /** Every identifier that occurs in the relation, as parent or as child. */
  ghost function Universe(g: Children): set<string>
  {
    g.Keys + set x, c | x in g && c in g[x] :: c
  }

  ghost predicate Path(g: Children, p: seq<string>)
  {
    |p| >= 1 && forall i :: 0 <= i < |p| - 1 ==> p[i + 1] in Kids(g, p[i])
  }

  /** `b` can be reached from `a` by following zero or more child edges. */
  ghost predicate Reachable(g: Children, a: string, b: string)
  {
    exists p :: Path(g, p) && p[0] == a && p[|p| - 1] == b
  }

  /** A set that contains the children of each of its members. */
  ghost predicate Closed(g: Children, s: set<string>)
  {
    forall x, c :: x in s && c in Kids(g, x) ==> c in s
  }

  /** A topological ranking: every child ranks strictly above its parent. */
  ghost predicate IsRanking(g: Children, rank: map<string, nat>)
  {
    forall x, c :: c in Kids(g, x) ==> x in rank && c in rank && rank[x] < rank[c]
  }

  /** The child edges form no cycle. */
  ghost predicate Acyclic(g: Children)
  {
    exists rank :: IsRanking(g, rank)
  }

  lemma ReachableSelf(g: Children, a: string)
    ensures Reachable(g, a, a)
  {
    assert Path(g, [a]);
  }

  lemma ReachableViaChild(g: Children, a: string, c: string, x: string)
    requires c in Kids(g, a) && Reachable(g, c, x)
    ensures Reachable(g, a, x)
  {
    var p :| Path(g, p) && p[0] == c && p[|p| - 1] == x;
    var q := [a] + p;
    assert forall i :: 0 < i < |q| ==> q[i] == p[i - 1];
    assert Path(g, q);
  }

  /** Reachability is transitive across one more edge. */
  lemma {:induction false} ReachablePath(g: Children, a: string, x: string, c: string)
    requires Reachable(g, a, x) && c in Kids(g, x)
    ensures Reachable(g, a, c)
  {
    var p :| Path(g, p) && p[0] == a && p[|p| - 1] == x;
    var q := p + [c];
    assert Path(g, q);
  }

  /** A closed set holding `a` holds everything reachable from `a`. */
  lemma {:induction false} ClosedHoldsReachable(g: Children, s: set<string>, a: string, x: string)
    requires a in s && Closed(g, s) && Reachable(g, a, x)
    ensures x in s
  {
    var p :| Path(g, p) && p[0] == a && p[|p| - 1] == x;
    var i := 0;
    while i < |p| - 1
      invariant 0 <= i <= |p| - 1
      invariant p[i] in s
    {
      assert p[i + 1] in Kids(g, p[i]);
      i := i + 1;
    }
  }

  /** A reachable node other than the root has a reachable parent. */
  lemma ReachableHasParent(g: Children, root: string, x: string)
    requires Reachable(g, root, x) && x != root
    ensures exists p :: Reachable(g, root, p) && x in Kids(g, p)
  {
    var q :| Path(g, q) && q[0] == root && q[|q| - 1] == x;
    var n := |q|;
    assert n >= 2;
    var p := q[..n - 1];
    assert Path(g, p);
    assert x in Kids(g, q[n - 2]);
    assert Reachable(g, root, q[n - 2]);
  }

  /** Under a ranking, a node reachable from `a` ranks no lower than `a`. */
  lemma {:induction false} RankAlongPath(g: Children, rank: map<string, nat>, a: string, x: string)
    requires IsRanking(g, rank) && Reachable(g, a, x) && a in rank && x != a
    ensures x in rank && rank[a] < rank[x]
  {
    var p :| Path(g, p) && p[0] == a && p[|p| - 1] == x;
    var i := 1;
    assert p[1] in Kids(g, p[0]);
    while i < |p| - 1
      invariant 1 <= i <= |p| - 1
      invariant p[i] in rank && rank[a] < rank[p[i]]
    {
      assert p[i + 1] in Kids(g, p[i]);
      i := i + 1;
    }
  }

  /** Under a ranking no task is its own child. */
  lemma NoSelfLoop(g: Children, rank: map<string, nat>, x: string)
    requires IsRanking(g, rank)
    ensures x !in Kids(g, x)
  {
    assert x in Kids(g, x) ==> x in rank;
  }

  /** On an acyclic relation no reachable node has the root as a child. */
  lemma RootHasNoParent(g: Children, root: string, p: string)
    requires Acyclic(g) && Reachable(g, root, p)
    ensures root !in Kids(g, p)
  {
    var rank :| IsRanking(g, rank);
    if p == root {
      NoSelfLoop(g, rank, root);
    } else if root in rank {
      RankAlongPath(g, rank, root, p);
    } else {
      assert root in Kids(g, p) ==> root in rank;
    }
  }

  // ---------------------------------------------------------------------
  // Sums over a set of tasks

  /** What is summed over a task: the edges it has into `c`, or all its edges. */
  datatype Weight = EdgesInto(c: string) | AllEdges

  function WeightOf(g: Children, w: Weight, x: string): nat
  {
    match w
    case EdgesInto(c) => multiset(Kids(g, x))[c]
    case AllEdges => |Kids(g, x)|
  }

  ghost function SumOver(g: Children, s: set<string>, w: Weight): nat
    decreases s
  {
    if s == {} then 0 else
    var x :| x in s; WeightOf(g, w, x) + SumOver(g, s - {x}, w)
  }

  /** The number of child edges from members of `s` that point to `c`. */
  ghost function InDegree(g: Children, s: set<string>, c: string): nat
  {
    SumOver(g, s, EdgesInto(c))
  }

  /** The number of child edges of the members of `s`. */
  ghost function ChildCount(g: Children, s: set<string>): nat
  {
    SumOver(g, s, AllEdges)
  }

  /** The sum of the values of a map. */
  ghost function Total(m: map<string, int>): int
    decreases m.Keys
  {
    if m.Keys == {} then 0 else
    var k :| k in m; m[k] + Total(m - {k})
  }

  /** Any member can be taken out of a sum first. */
  lemma {:induction false} SumOverPick(g: Children, s: set<string>, w: Weight, y: string)
    requires y in s
    ensures SumOver(g, s, w) == WeightOf(g, w, y) + SumOver(g, s - {y}, w)
    decreases s
  {
    var x :| x in s && SumOver(g, s, w) == WeightOf(g, w, x) + SumOver(g, s - {x}, w);
    if x != y {
      SumOverPick(g, s - {x}, w, y);
      SumOverPick(g, s - {y}, w, x);
      assert s - {x} - {y} == s - {y} - {x};
    }
  }

  lemma SumOverAdd(g: Children, s: set<string>, w: Weight, y: string)
    requires y !in s
    ensures SumOver(g, s + {y}, w) == SumOver(g, s, w) + WeightOf(g, w, y)
  {
    SumOverPick(g, s + {y}, w, y);
    assert s + {y} - {y} == s;
  }

  /** A sum over `s` splits into the sum over a subset and over the rest. */
  lemma {:induction false} SumOverSplit(g: Children, s: set<string>, d: set<string>, w: Weight)
    requires d <= s
    ensures SumOver(g, s, w) == SumOver(g, d, w) + SumOver(g, s - d, w)
    decreases d
  {
    if d != {} {
      var y :| y in d;
      SumOverSplit(g, s - {y}, d - {y}, w);
      SumOverPick(g, s, w, y);
      SumOverPick(g, d, w, y);
      assert s - {y} - (d - {y}) == s - d;
    } else {
      assert s - d == s;
    }
  }

  /** `InDegree` is zero exactly when no member of the set has `c` as a child. */
  lemma {:induction false} InDegreeZero(g: Children, s: set<string>, c: string)
    ensures InDegree(g, s, c) == 0 <==> forall p :: p in s ==> c !in Kids(g, p)
    decreases s
  {
    if s != {} {
      var y :| y in s;
      SumOverPick(g, s, EdgesInto(c), y);
      InDegreeZero(g, s - {y}, c);
    }
  }

  lemma InDegreeMonotone(g: Children, s: set<string>, d: set<string>, c: string)
    requires d <= s
    ensures InDegree(g, d, c) <= InDegree(g, s, c)
  {
    SumOverSplit(g, s, d, EdgesInto(c));
  }

  /** Once the members of `d` account for every edge into `c` that `s` holds,
      every parent of `c` in `s` is in `d`. */
  lemma ParentsCounted(g: Children, s: set<string>, d: set<string>, c: string)
    requires d <= s && InDegree(g, d, c) == InDegree(g, s, c)
    ensures forall p :: p in s && c in Kids(g, p) ==> p in d
  {
    SumOverSplit(g, s, d, EdgesInto(c));
    InDegreeZero(g, s - d, c);
  }

  /** Conversely, a member of `s` outside `d` that has `c` as a child leaves
      an edge of `s` into `c` uncounted by `d`. */
  lemma {:induction false} UncountedParent(g: Children, s: set<string>, d: set<string>, c: string)
    requires d <= s && InDegree(g, d, c) < InDegree(g, s, c)
    ensures exists p :: p in s && p !in d && c in Kids(g, p)
  {
    SumOverSplit(g, s, d, EdgesInto(c));
    InDegreeZero(g, s - d, c);
  }

  lemma {:induction false} TotalPick(m: map<string, int>, k: string)
    requires k in m
    ensures Total(m) == m[k] + Total(m - {k})
    decreases m.Keys
  {
    var x :| x in m && Total(m) == m[x] + Total(m - {x});
    if x != k {
      TotalPick(m - {x}, k);
      TotalPick(m - {k}, x);
      assert m - {x} - {k} == m - {k} - {x};
    }
  }

  /** Incrementing one entry (creating it at zero if absent) adds one to the total. */
  lemma TotalIncrement(m: map<string, int>, k: string)
    ensures Total(m[k := Get(m, k) + 1]) == Total(m) + 1
  {
    var m' := m[k := Get(m, k) + 1];
    TotalPick(m', k);
    if k in m {
      TotalPick(m, k);
      assert m' - {k} == m - {k};
    } else {
      assert m' - {k} == m;
    }
  }

  // ---------------------------------------------------------------------
  // The tasks in memory

  /** All tasks of a program, by identifier: their `Children` slices and
      their `state` fields (0 init, 1 success, 2 fail; absent means 0). */
  class Tasks {
    var children: Children
    var state: map<string, int>

    constructor ()
      ensures children == map[] && state == map[]
    {
      children := map[];
      state := map[];
    }

    /** `t.AddChildren(kids...)`: appends the children in argument order. */
    method AddChildren(t: string, kids: seq<string>)
      modifies this`children
      ensures Kids(children, t) == Kids(old(children), t) + kids
      ensures forall x :: x != t ==> Kids(children, x) == Kids(old(children), x)
      ensures children.Keys == old(children).Keys + (if kids == [] then {} else {t})
    {
      var i := 0;
      while i < |kids|
        invariant 0 <= i <= |kids|
        invariant Kids(children, t) == Kids(old(children), t) + kids[..i]
        invariant forall x :: x != t ==> Kids(children, x) == Kids(old(children), x)
        invariant children.Keys == old(children).Keys + (if i == 0 then {} else {t})
      {
        children := children[t := Kids(children, t) + [kids[i]]];
        i := i + 1;
        assert kids[..i] == kids[..i - 1] + [kids[i - 1]];
      }
      assert kids[..i] == kids;
    }

    /** `t.Depends(parents...)`: appends `t` to the children of each parent,
        once per occurrence of that parent in the argument list. */
    method Depends(t: string, parents: seq<string>)
      modifies this`children
      ensures forall p :: Kids(children, p) == Kids(old(children), p) + Repeat(t, multiset(parents)[p])
      ensures forall p :: p in children <==> p in old(children) || p in parents
    {
      ghost var g0 := children;
      var i := 0;
      assert forall p :: Kids(children, p) == Kids(g0, p) + Repeat(t, 0);
      while i < |parents|
        invariant 0 <= i <= |parents|
        invariant forall p :: Kids(children, p) == Kids(g0, p) + Repeat(t, multiset(parents[..i])[p])
        invariant forall p :: p in children <==> p in g0 || p in parents[..i]
      {
        ghost var before := children;
        AddChildren(parents[i], [t]);
        DependsRound(g0, before, children, t, parents, i);
        DependsKeys(g0, before, children, parents, i);
        i := i + 1;
      }
      assert parents[..i] == parents;
    }
  }

  /** One round of `Depends`, for one task `p`: adding `t` under
      `parents[i]` adds one copy of `t` under `p` exactly when `p` is that
      parent. */
  lemma DependsStep(k0: seq<string>, k1: seq<string>, k2: seq<string>, t: string, parents: seq<string>, i: nat, p: string)
    requires i < |parents|
    requires k1 == k0 + Repeat(t, multiset(parents[..i])[p])
    requires k2 == if p == parents[i] then k1 + [t] else k1
    ensures k2 == k0 + Repeat(t, multiset(parents[..i + 1])[p])
  {
    assert parents[..i + 1] == parents[..i] + [parents[i]];
    var n := multiset(parents[..i])[p];
    if p == parents[i] {
      assert multiset(parents[..i + 1])[p] == n + 1;
      assert Repeat(t, n + 1) == Repeat(t, n) + [t];
    } else {
      assert multiset(parents[..i + 1])[p] == n;
    }
  }

  /** One round of `Depends` over all tasks: adding `t` under `parents[i]`
      extends the counts of the first `i` parents to the first `i + 1`. */
  lemma DependsRound(g0: Children, before: Children, after: Children, t: string, parents: seq<string>, i: nat)
    requires i < |parents|
    requires forall p :: Kids(before, p) == Kids(g0, p) + Repeat(t, multiset(parents[..i])[p])
    requires Kids(after, parents[i]) == Kids(before, parents[i]) + [t]
    requires forall x :: x != parents[i] ==> Kids(after, x) == Kids(before, x)
    ensures forall p :: Kids(after, p) == Kids(g0, p) + Repeat(t, multiset(parents[..i + 1])[p])
  {
    forall p
      ensures Kids(after, p) == Kids(g0, p) + Repeat(t, multiset(parents[..i + 1])[p])
    {
      DependsStep(Kids(g0, p), Kids(before, p), Kids(after, p), t, parents, i, p);
    }
  }

  /** The same round adds `parents[i]` to the tasks that have children. */
  lemma DependsKeys(g0: Children, before: Children, after: Children, parents: seq<string>, i: nat)
    requires i < |parents|
    requires forall p :: p in before <==> p in g0 || p in parents[..i]
    requires after.Keys == before.Keys + {parents[i]}
    ensures forall p :: p in after <==> p in g0 || p in parents[..i + 1]
  {
    assert parents[..i + 1] == parents[..i] + [parents[i]];
  }

  /** `n` copies of `x`. */
  function Repeat(x: string, n: nat): (r: seq<string>)
    ensures |r| == n
  {
    if n == 0 then [] else Repeat(x, n - 1) + [x]
  }

  // ---------------------------------------------------------------------
  // The walk

  /** What a walk from `id` that found `walked` already visited promises:
      `visits` are the calls of `f`, `walked'` the visited set it leaves. */
  ghost predicate Visited(g: Children, id: string, walked: set<string>, walked': set<string>, visits: seq<string>)
  {
    && (forall x :: x in walked' <==> x in walked || x in visits)
    && (forall x :: x in visits ==> x !in walked)
    && Distinct(visits)
    && (forall x :: x in visits ==> Reachable(g, id, x))
    && (forall x, c :: x in visits && c in Kids(g, x) ==> c in walked')
  }

  /** The state of the walk from `id` part way through its children: as
      `Visited`, except that the children of `id` itself may still be
      unwalked. */
  ghost predicate Walking(g: Children, id: string, walked: set<string>, walked': set<string>, visits: seq<string>)
  {
    && |visits| > 0 && visits[0] == id
    && (forall x :: x in walked' <==> x in walked || x in visits)
    && (forall x :: x in visits ==> x !in walked)
    && Distinct(visits)
    && (forall x :: x in visits ==> Reachable(g, id, x))
    && (forall x, c :: x in visits && x != id && c in Kids(g, x) ==> c in walked')
  }

  /** Walking a child of `id` from the visited set `mid` extends the walk
      from `id` by the child's visits. */
  lemma WalkStep(g: Children, id: string, walked: set<string>, mid: set<string>, visits: seq<string>,
                 i: nat, w: set<string>, v: seq<string>)
    requires i < |Kids(g, id)| && forall j :: 0 <= j < i ==> Kids(g, id)[j] in mid
    requires Walking(g, id, walked, mid, visits) == true
    requires Visited(g, Kids(g, id)[i], mid, w, v) == true
    requires Kids(g, id)[i] in w
    ensures Walking(g, id, walked, w, visits + v) == true
    ensures walked + {id} <= mid <= w
    ensures forall j :: 0 <= j < i + 1 ==> Kids(g, id)[j] in w
  {
    var child := Kids(g, id)[i];
    forall x | x in v
      ensures Reachable(g, id, x)
    {
      ReachableViaChild(g, id, child, x);
    }
    var visits' := visits + v;
    assert forall j :: 0 <= j < |visits| ==> visits'[j] == visits[j] && visits[j] in mid;
    assert forall j :: |visits| <= j < |visits'| ==> visits'[j] == v[j - |visits|] && visits'[j] !in mid;
  }

  /** Walking a child of `id` once `id` is walked leaves fewer tasks to
      walk: the measure of the recursion. */
  lemma WalkShrinks(g: Children, id: string, walked: set<string>, mid: set<string>, i: nat)
    requires i < |Kids(g, id)| && id !in walked && walked + {id} <= mid
    ensures Universe(g) + {Kids(g, id)[i]} - mid < Universe(g) + {id} - walked
  {
    var child := Kids(g, id)[i];
    assert id in g && child in g[id];
    assert child in Universe(g);
  }

  /** `t.walk(walked, f)`: visits `id` unless already walked, then its
      children in order. `visits` is the sequence of calls of `f`. */
  method WalkFrom(g: Children, id: string, walked: set<string>) returns (walked': set<string>, visits: seq<string>)
    ensures id in walked ==> walked' == walked && visits == []
    ensures id !in walked ==> |visits| > 0 && visits[0] == id
    ensures Visited(g, id, walked, walked', visits) == true
    decreases Universe(g) + {id} - walked
  {
    if id in walked {
      return walked, [];
    }
    visits := [id];
    walked' := walked + {id};
    ReachableSelf(g, id);
    var kids := Kids(g, id);
    var i := 0;
    while i < |kids|
      invariant 0 <= i <= |kids|
      invariant walked + {id} <= walked'
      invariant Walking(g, id, walked, walked', visits) == true
      invariant forall j :: 0 <= j < i ==> kids[j] in walked'
    {
      WalkShrinks(g, id, walked, walked', i);
      var w, v := WalkFrom(g, kids[i], walked');
      WalkStep(g, id, walked, walked', visits, i, w, v);
      visits, walked' := visits + v, w;
      i := i + 1;
    }
    WalkDone(g, id, walked, walked', visits);
  }

  /** Once every child of `id` is walked, the walk from `id` is complete. */
  lemma WalkDone(g: Children, id: string, walked: set<string>, walked': set<string>, visits: seq<string>)
    requires Walking(g, id, walked, walked', visits) == true
    requires forall c :: c in Kids(g, id) ==> c in walked'
    ensures Visited(g, id, walked, walked', visits) == true
  {
  }

  /** `t.Walk(f)`: the walk from `root` with a fresh visited set calls `f`
      once on each identifier reachable from `root`, and on nothing else. */
  method Walk(g: Children, root: string) returns (visits: seq<string>)
    ensures |visits| > 0 && visits[0] == root
    ensures Distinct(visits)
    ensures forall x :: x in visits <==> Reachable(g, root, x)
  {
    var walked;
    walked, visits := WalkFrom(g, root, {});
    assert Closed(g, walked);
    forall x | Reachable(g, root, x)
      ensures x in visits
    {
      ClosedHoldsReachable(g, walked, root, x);
    }
  }

  // ---------------------------------------------------------------------
  // The graph of one root

  /** `TaskGraph`: the root, the in-degree tally and the node set. */
  datatype TaskGraph = TaskGraph(head: string, indgrees: map<string, int>, nodes: set<string>)

  /** What `ToGraph` promises: the nodes are exactly the identifiers
      reachable from the root, and the in-degree of an identifier is the
      number of child edges into it from the nodes (a key exists exactly
      for the identifiers with a positive count). */
  ghost predicate IsGraphOf(g: Children, root: string, graph: TaskGraph)
  {
    && graph.head == root
    && (forall x :: x in graph.nodes <==> Reachable(g, root, x))
    && (forall c :: Get(graph.indgrees, c) == InDegree(g, graph.nodes, c))
    && (forall c :: c in graph.indgrees <==> InDegree(g, graph.nodes, c) > 0)
  }

  /** The callback `ToGraph` passes to `Walk`: adds the visited task to the
      node set and counts one in-degree per child edge of the task. */
  method Tally(g: Children, task: string, nodes: set<string>, indgrees: map<string, int>)
    returns (nodes': set<string>, indgrees': map<string, int>)
    requires task !in nodes
    requires forall c :: Get(indgrees, c) == InDegree(g, nodes, c)
    requires forall c :: c in indgrees ==> indgrees[c] > 0
    requires Total(indgrees) == ChildCount(g, nodes)
    ensures nodes' == nodes + {task}
    ensures forall c :: Get(indgrees', c) == InDegree(g, nodes', c)
    ensures forall c :: c in indgrees' ==> indgrees'[c] > 0
    ensures Total(indgrees') == ChildCount(g, nodes')
  {
    nodes' := nodes + {task};
    indgrees' := indgrees;
    var kids := Kids(g, task);
    var i := 0;
    while i < |kids|
      invariant 0 <= i <= |kids|
      invariant forall c :: Get(indgrees', c) == InDegree(g, nodes, c) + multiset(kids[..i])[c]
      invariant forall c :: c in indgrees' ==> indgrees'[c] > 0
      invariant Total(indgrees') == ChildCount(g, nodes) + i
    {
      var id := kids[i];
      TotalIncrement(indgrees', id);
      TallyStep(g, nodes, kids, i, indgrees');
      indgrees' := indgrees'[id := Get(indgrees', id) + 1];
      i := i + 1;
    }
    assert kids[..i] == kids;
    forall c
      ensures InDegree(g, nodes', c) == InDegree(g, nodes, c) + multiset(kids)[c]
    {
      SumOverAdd(g, nodes, EdgesInto(c), task);
    }
    SumOverAdd(g, nodes, AllEdges, task);
  }

  /** Counting the edge into `kids[i]` extends the tally of the first `i`
      child edges of a task to the first `i + 1`. */
  lemma TallyStep(g: Children, nodes: set<string>, kids: seq<string>, i: nat, m: map<string, int>)
    requires i < |kids| && forall c :: Get(m, c) == InDegree(g, nodes, c) + multiset(kids[..i])[c]
    ensures forall c :: Get(m[kids[i] := Get(m, kids[i]) + 1], c) == InDegree(g, nodes, c) + multiset(kids[..i + 1])[c]
  {
    assert kids[..i + 1] == kids[..i] + [kids[i]];
  }

  /** `t.ToGraph()`: walks from the root, tallying each visited task. */
  method ToGraph(g: Children, root: string) returns (graph: TaskGraph)
    ensures IsGraphOf(g, root, graph)
    ensures root in graph.nodes
    ensures Total(graph.indgrees) == ChildCount(g, graph.nodes)
  {
    var visits := Walk(g, root);
    var nodes: set<string> := {};
    var indgrees: map<string, int> := map[];
    var k := 0;
    while k < |visits|
      invariant 0 <= k <= |visits|
      invariant forall x :: x in nodes <==> x in visits[..k]
      invariant forall c :: Get(indgrees, c) == InDegree(g, nodes, c)
      invariant forall c :: c in indgrees ==> indgrees[c] > 0
      invariant Total(indgrees) == ChildCount(g, nodes)
    {
      var task := visits[k];
      assert task !in nodes by {
        assert forall j :: 0 <= j < k ==> visits[j] != task;
      }
      nodes, indgrees := Tally(g, task, nodes, indgrees);
      assert visits[..k + 1] == visits[..k] + [task];
      k := k + 1;
    }
    assert visits[..k] == visits;
    graph := TaskGraph(root, indgrees, nodes);
    ReachableSelf(g, root);
  }

  /** Two graphs built from the same root over the same tasks are equal:
      `ToGraph` called twice gives the same nodes and in-degrees. */
  lemma ToGraphDeterministic(g: Children, root: string, a: TaskGraph, b: TaskGraph)
    requires IsGraphOf(g, root, a) && IsGraphOf(g, root, b)
    ensures a == b
  {
    assert a.nodes == b.nodes;
    assert a.indgrees.Keys == b.indgrees.Keys;
    assert forall c :: c in a.indgrees ==> a.indgrees[c] == Get(a.indgrees, c) == Get(b.indgrees, c) == b.indgrees[c];
  }
}
