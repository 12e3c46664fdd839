/** The dependency-graph analyser (server/algorithms/graph.ts).

    A task list defines a directed graph: an edge u -> v whenever a task with
    id v lists u in dependsOn (the dependency points at its dependent). Its
    nodes are every task id and every dependency id, also ids that name no
    task. The recursive closures of the source (dfs, findDependents, visit)
    are recursive methods here; the sets they capture and mutate are passed
    in and handed back. */
module Graph {
  import opened Schema

  // ---------------------------------------------------------------------------
  // The graph as the specification sees it

  ghost predicate Edge(tasks: seq<Task>, u: string, v: string) {
    exists i :: 0 <= i < |tasks| && tasks[i].id == v && u in tasks[i].dependsOn
  }

  ghost predicate IsPath(tasks: seq<Task>, p: seq<string>) {
    |p| >= 1 && forall k :: 0 <= k < |p| - 1 ==> Edge(tasks, p[k], p[k + 1])
  }

  ghost predicate IsCycle(tasks: seq<Task>, p: seq<string>) {
    |p| >= 2 && IsPath(tasks, p) && p[0] == p[|p| - 1]
  }

  /** The dependency graph has a directed cycle. */
  ghost predicate Cyclic(tasks: seq<Task>) {
    exists p :: IsCycle(tasks, p)
  }

  /** `b` can be reached from `a` along one edge or more. */
  ghost predicate Reaches(tasks: seq<Task>, a: string, b: string) {
    exists p :: IsPath(tasks, p) && |p| >= 2 && p[0] == a && p[|p| - 1] == b
  }

  function DepSet(t: Task): set<string> {
    set d | d in t.dependsOn
  }

  /** Every task id and every dependency id: the keys of the adjacency map. */
  function Nodes(tasks: seq<Task>): (r: set<string>)
    ensures forall i :: 0 <= i < |tasks| ==> tasks[i].id in r && DepSet(tasks[i]) <= r
  {
    if |tasks| == 0 then {}
    else Nodes(tasks[..|tasks| - 1]) + {tasks[|tasks| - 1].id} + DepSet(tasks[|tasks| - 1])
  }

  /** Both ends of an edge are nodes. */
  lemma EdgeInNodes(tasks: seq<Task>, u: string, v: string)
    requires Edge(tasks, u, v)
    ensures u in Nodes(tasks) && v in Nodes(tasks)
  {
    var i :| 0 <= i < |tasks| && tasks[i].id == v && u in tasks[i].dependsOn;
    assert u in DepSet(tasks[i]);
  }

  lemma EdgeOfTask(tasks: seq<Task>, i: int, u: string)
    requires 0 <= i < |tasks| && u in tasks[i].dependsOn
    ensures Edge(tasks, u, tasks[i].id)
  {
  }

  lemma EdgePrefix(tasks: seq<Task>, i: int)
    requires 0 <= i < |tasks|
    ensures forall u, v :: Edge(tasks[..i + 1], u, v) <==>
                           Edge(tasks[..i], u, v) || (v == tasks[i].id && u in tasks[i].dependsOn)
  {
    var a, b := tasks[..i + 1], tasks[..i];
    forall u, v ensures Edge(a, u, v) <==> Edge(b, u, v) || (v == tasks[i].id && u in tasks[i].dependsOn) {
      if Edge(a, u, v) {
        var k :| 0 <= k < |a| && a[k].id == v && u in a[k].dependsOn;
        if k < i { assert b[k] == a[k]; }
      }
      if Edge(b, u, v) {
        var k :| 0 <= k < |b| && b[k].id == v && u in b[k].dependsOn;
        assert a[k] == b[k];
      }
      if v == tasks[i].id && u in tasks[i].dependsOn {
        assert a[i] == tasks[i];
      }
    }
  }

  /** A task that depends on itself closes a cycle of length one. */
  lemma SelfDependencyIsCycle(tasks: seq<Task>, i: int)
    requires 0 <= i < |tasks| && tasks[i].id in tasks[i].dependsOn
    ensures Cyclic(tasks)
  {
    var p := [tasks[i].id, tasks[i].id];
    EdgeOfTask(tasks, i, tasks[i].id);
    assert IsCycle(tasks, p);
  }

  /** An id that names no task has no incoming edge (nobody can be its
      dependency), so it lies on no cycle. */
  lemma UnknownIdOnNoCycle(tasks: seq<Task>, x: string, p: seq<string>)
    requires x !in Ids(tasks)
    requires IsCycle(tasks, p)
    ensures x !in p
  {
    forall k | 0 <= k < |p| ensures p[k] != x {
      var j := if k == 0 then |p| - 2 else k - 1;
      assert p[j + 1] == p[k];
      assert Edge(tasks, p[j], p[j + 1]);
    }
  }

  // ---------------------------------------------------------------------------
  // The adjacency map hasCycle builds

  type Adjacency<N> = map<N, seq<N>>

  ghost predicate AdjEdge<N(!new)>(g: Adjacency<N>, u: N, v: N) {
    u in g && v in g[u]
  }

  ghost predicate AdjPath<N(!new)>(g: Adjacency<N>, p: seq<N>) {
    |p| >= 1 && forall k :: 0 <= k < |p| - 1 ==> AdjEdge(g, p[k], p[k + 1])
  }

  ghost predicate AdjCyclic<N(!new)>(g: Adjacency<N>) {
    exists p :: |p| >= 2 && AdjPath(g, p) && p[0] == p[|p| - 1]
  }

  /** Every neighbour is itself a key. */
  ghost predicate Closed<N(!new)>(g: Adjacency<N>) {
    forall u, v {:trigger AdjEdge(g, u, v)} :: AdjEdge(g, u, v) ==> v in g
  }

  ghost predicate SameEdges(g: Adjacency<string>, tasks: seq<Task>) {
    forall u, v :: AdjEdge(g, u, v) <==> Edge(tasks, u, v)
  }

  lemma SameEdgesCyclic(g: Adjacency<string>, tasks: seq<Task>)
    requires SameEdges(g, tasks)
    ensures AdjCyclic(g) <==> Cyclic(tasks)
  {
    if AdjCyclic(g) {
      var p :| |p| >= 2 && AdjPath(g, p) && p[0] == p[|p| - 1];
      assert IsCycle(tasks, p);
    }
    if Cyclic(tasks) {
      var p :| IsCycle(tasks, p);
      assert AdjPath(g, p);
    }
  }

  /** The inner loop of the first loop of hasCycle: every dependency of
      `task` gets a key (appended to `keys` when new) and `task.id` is pushed
      onto its list. */
  method AddDependencies(keys: seq<string>, g: Adjacency<string>, task: Task)
    returns (keys': seq<string>, g': Adjacency<string>)
    requires forall x :: x in keys <==> x in g
    requires forall a, b :: 0 <= a < b < |keys| ==> keys[a] != keys[b]
    ensures forall x :: x in keys' <==> x in g'
    ensures forall a, b :: 0 <= a < b < |keys'| ==> keys'[a] != keys'[b]
    ensures g'.Keys == g.Keys + DepSet(task)
    ensures forall u, v :: AdjEdge(g', u, v) <==> AdjEdge(g, u, v) || (v == task.id && u in task.dependsOn)
  {
    keys', g' := keys, g;
    var j := 0;
    while j < |task.dependsOn|
      invariant 0 <= j <= |task.dependsOn|
      invariant forall x :: x in keys' <==> x in g'
      invariant forall a, b :: 0 <= a < b < |keys'| ==> keys'[a] != keys'[b]
      invariant g'.Keys == g.Keys + set d | d in task.dependsOn[..j]
      invariant forall u, v :: AdjEdge(g', u, v) <==>
                               AdjEdge(g, u, v) || (v == task.id && u in task.dependsOn[..j])
    {
      var depId := task.dependsOn[j];
      assert task.dependsOn[..j + 1] == task.dependsOn[..j] + [depId];
      ghost var before := g';
      if depId !in g' {
        g' := g'[depId := []];
        keys' := keys' + [depId];
      }
      ghost var mid := g';
      g' := g'[depId := g'[depId] + [task.id]];
      forall u, v ensures AdjEdge(g', u, v) <==> AdjEdge(before, u, v) || (u == depId && v == task.id) {
        if u == depId {
          assert g'[u] == mid[u] + [task.id];
          assert v in mid[u] <==> AdjEdge(before, u, v);
        } else {
          assert AdjEdge(g', u, v) <==> AdjEdge(before, u, v);
        }
      }
      j := j + 1;
    }
    assert task.dependsOn[..j] == task.dependsOn;
  }

  lemma EdgeStep(tasks: seq<Task>, i: int, g0: Adjacency<string>, g: Adjacency<string>)
    requires 0 <= i < |tasks|
    requires forall u, v :: AdjEdge(g0, u, v) <==> Edge(tasks[..i], u, v)
    requires forall u, v :: AdjEdge(g, u, v) <==> AdjEdge(g0, u, v) || (v == tasks[i].id && u in tasks[i].dependsOn)
    ensures forall u, v :: AdjEdge(g, u, v) <==> Edge(tasks[..i + 1], u, v)
  {
    EdgePrefix(tasks, i);
  }

  lemma NodesStep(tasks: seq<Task>, i: int, g0: Adjacency<string>, g: Adjacency<string>)
    requires 0 <= i < |tasks|
    requires g0.Keys == Nodes(tasks[..i]) + {tasks[i].id}
    requires g.Keys == g0.Keys + DepSet(tasks[i])
    ensures g.Keys == Nodes(tasks[..i + 1])
  {
    assert tasks[..i + 1][..i] == tasks[..i];
  }

  /** `if (!graph.has(x)) graph.set(x, [])`, with `keys` recording the
      insertion order. */
  method AddKey<N(==, !new)>(keys: seq<N>, g: Adjacency<N>, x: N) returns (keys': seq<N>, g': Adjacency<N>)
    requires forall y :: y in keys <==> y in g
    requires forall a, b :: 0 <= a < b < |keys| ==> keys[a] != keys[b]
    ensures forall y :: y in keys' <==> y in g'
    ensures forall a, b :: 0 <= a < b < |keys'| ==> keys'[a] != keys'[b]
    ensures g'.Keys == g.Keys + {x}
    ensures forall u, v :: AdjEdge(g', u, v) <==> AdjEdge(g, u, v)
  {
    keys', g' := keys, g;
    if x !in g {
      g' := g[x := []];
      keys' := keys + [x];
    }
  }

  /** Every edge ends at a task id, and every task id is a node. */
  lemma EdgesClosed(tasks: seq<Task>, g: Adjacency<string>)
    requires g.Keys == Nodes(tasks) && SameEdges(g, tasks)
    ensures Closed(g)
  {
    forall u, v | AdjEdge(g, u, v) ensures v in g {
      var k :| 0 <= k < |tasks| && tasks[k].id == v && u in tasks[k].dependsOn;
    }
  }

  /** The first loop of hasCycle: an adjacency list from each dependency id to
      the ids of the tasks that depend on it, with a key for every node;
      `keys` is the insertion order Map.keys() iterates in. */
  method BuildGraph(tasks: seq<Task>) returns (keys: seq<string>, g: Adjacency<string>)
    ensures g.Keys == Nodes(tasks)
    ensures Closed(g)
    ensures SameEdges(g, tasks)
    ensures forall x :: x in keys <==> x in g
    ensures forall i, j :: 0 <= i < j < |keys| ==> keys[i] != keys[j]
  {
    keys, g := [], map[];
    var i := 0;
    while i < |tasks|
      invariant 0 <= i <= |tasks|
      invariant forall x :: x in keys <==> x in g
      invariant forall a, b :: 0 <= a < b < |keys| ==> keys[a] != keys[b]
      invariant g.Keys == Nodes(tasks[..i])
      invariant SameEdges(g, tasks[..i])
    {
      var task := tasks[i];
      keys, g := AddKey(keys, g, task.id);
      ghost var g0 := g;
      keys, g := AddDependencies(keys, g, task);
      EdgeStep(tasks, i, g0, g);
      NodesStep(tasks, i, g0, g);
      i := i + 1;
    }
    assert tasks[..i] == tasks;
    EdgesClosed(tasks, g);
  }

  // ---------------------------------------------------------------------------
  // hasCycle: three-colour depth-first search

  /** Every edge out of a ranked node leads to a ranked node of smaller rank. */
  ghost predicate Ranked<N(!new)>(g: Adjacency<N>, rank: map<N, int>) {
    forall u, v {:trigger AdjEdge(g, u, v)} :: u in rank && AdjEdge(g, u, v) ==> v in rank && rank[v] < rank[u]
  }

  /** The search state between calls. The grey nodes (recursionStack) are
      exactly the nodes of `path`, a path of the graph ending at the node being
      explored; the black nodes are the keys of `rank`, numbered in finishing
      order; visited is grey plus black. */
  ghost predicate DfsState<N(!new)>(g: Adjacency<N>, visited: set<N>, onStack: set<N>,
                           path: seq<N>, rank: map<N, int>, clock: int)
  {
    && visited <= g.Keys
    && onStack == (set x | x in path)
    && (path == [] || AdjPath(g, path))
    && visited == onStack + rank.Keys
    && onStack !! rank.Keys
    && (forall u :: u in rank ==> rank[u] < clock)
    && Ranked(g, rank)
  }

  lemma CycleOnStack<N(!new)>(g: Adjacency<N>, path: seq<N>, node: N)
    requires AdjPath(g, path) && node in path
    requires AdjEdge(g, path[|path| - 1], node)
    ensures AdjCyclic(g)
  {
    var k :| 0 <= k < |path| && path[k] == node;
    var p := path[k..] + [node];
    assert AdjPath(g, p) by {
      forall m | 0 <= m < |p| - 1 ensures AdjEdge(g, p[m], p[m + 1]) {
        if m < |p| - 2 { assert p[m] == path[k + m] && p[m + 1] == path[k + m + 1]; }
      }
    }
  }

  lemma {:induction false} RankedPath<N(!new)>(g: Adjacency<N>, rank: map<N, int>, p: seq<N>)
    requires Ranked(g, rank) && AdjPath(g, p) && |p| >= 2 && p[0] in rank
    ensures p[|p| - 1] in rank && rank[p[|p| - 1]] < rank[p[0]]
    decreases |p|
  {
    assert AdjEdge(g, p[0], p[1]);
    if |p| > 2 {
      var q := p[1..];
      assert AdjPath(g, q) by {
        forall m | 0 <= m < |q| - 1 ensures AdjEdge(g, q[m], q[m + 1]) {
          assert q[m] == p[m + 1] && q[m + 1] == p[m + 2];
        }
      }
      RankedPath(g, rank, q);
    }
  }

  /** A graph whose every node carries a rank that strictly decreases along
      each edge has no cycle. */
  lemma RankedAcyclic<N(!new)>(g: Adjacency<N>, rank: map<N, int>)
    requires Ranked(g, rank) && g.Keys <= rank.Keys
    ensures !AdjCyclic(g)
  {
    if AdjCyclic(g) {
      var p :| |p| >= 2 && AdjPath(g, p) && p[0] == p[|p| - 1];
      assert AdjEdge(g, p[0], p[1]);
      RankedPath(g, rank, p);
    }
  }

  /** Turning a white node grey extends the recursion-stack path. */
  lemma EnterNode<N(!new)>(g: Adjacency<N>, visited: set<N>, onStack: set<N>,
                  path: seq<N>, rank: map<N, int>, clock: int, node: N)
    requires DfsState(g, visited, onStack, path, rank, clock)
    requires node in g && node !in visited
    requires path != [] ==> AdjEdge(g, path[|path| - 1], node)
    ensures DfsState(g, visited + {node}, onStack + {node}, path + [node], rank, clock)
  {
    var path' := path + [node];
    assert node !in rank.Keys;
    assert (set x | x in path') == (set x | x in path) + {node};
    forall m | 0 <= m < |path'| - 1 ensures AdjEdge(g, path'[m], path'[m + 1]) {
      if m < |path'| - 2 { assert path'[m] == path[m] && path'[m + 1] == path[m + 1]; }
    }
  }

  /** Turning a grey node black once all its neighbours are black: it gets
      the next rank, larger than every neighbour's. */
  lemma FinishNode<N(!new)>(g: Adjacency<N>, visited: set<N>, onStack: set<N>,
                   path: seq<N>, rank: map<N, int>, clock: int, node: N)
    requires DfsState(g, visited, onStack + {node}, path + [node], rank, clock)
    requires node !in onStack && node !in path && node in g
    requires forall v :: v in g[node] ==> v in rank
    ensures DfsState(g, visited, onStack, path, rank[node := clock], clock + 1)
  {
    var rank' := rank[node := clock];
    assert node !in rank;
    assert rank'.Keys == rank.Keys + {node};
    forall u, v | u in rank' && AdjEdge(g, u, v) ensures v in rank' && rank'[v] < rank'[u] {
      if u == node {
        assert v in rank;
      }
    }
    assert path == [] || AdjPath(g, path) by {
      if path != [] {
        forall m | 0 <= m < |path| - 1 ensures AdjEdge(g, path[m], path[m + 1]) {
          assert path[m] == (path + [node])[m] && path[m + 1] == (path + [node])[m + 1];
        }
      }
    }
    assert (set x | x in path + [node]) == (set x | x in path) + {node};
  }

  /** dfs(nodeId). It reports a cycle only when it meets a grey node (the
      recursion stack then closes a cycle), and when it reports none, nodeId
      and everything it explored are black, and the ranking invariant holds. */
  method Dfs<N(==, !new)>(g: Adjacency<N>, node: N, visited: set<N>, onStack: set<N>,
             ghost path: seq<N>, ghost rank: map<N, int>, ghost clock: int)
    returns (found: bool, visited': set<N>, ghost rank': map<N, int>, ghost clock': int)
    requires Closed(g) && node in g
    requires DfsState(g, visited, onStack, path, rank, clock)
    requires path != [] ==> AdjEdge(g, path[|path| - 1], node)
    ensures found ==> AdjCyclic(g)
    ensures !found ==> && DfsState(g, visited', onStack, path, rank', clock')
                       && node in rank' && visited <= visited' && rank.Keys <= rank'.Keys
    decreases g.Keys - visited
  {
    if node in onStack {
      CycleOnStack(g, path, node);
      return true, visited, rank, clock;
    }
    if node in visited {
      return false, visited, rank, clock;
    }
    EnterNode(g, visited, onStack, path, rank, clock, node);
    visited' := visited + {node};
    var stack := onStack + {node};
    ghost var path' := path + [node];
    rank', clock' := rank, clock;
    var neighbors := g[node];
    var i := 0;
    while i < |neighbors|
      invariant 0 <= i <= |neighbors|
      invariant DfsState(g, visited', stack, path', rank', clock')
      invariant visited + {node} <= visited'
      invariant rank.Keys <= rank'.Keys
      invariant forall j :: 0 <= j < i ==> neighbors[j] in rank'
    {
      var f;
      ghost var prevRank := rank';
      assert AdjEdge(g, node, neighbors[i]);
      assert g.Keys - visited' < g.Keys - visited by {
        assert node in g.Keys - visited && node !in g.Keys - visited';
      }
      f, visited', rank', clock' := Dfs(g, neighbors[i], visited', stack, path', rank', clock');
      if f {
        return true, visited', rank', clock';
      }
      assert prevRank.Keys <= rank'.Keys;
      i := i + 1;
    }
    FinishNode(g, visited', onStack, path, rank', clock', node);
    rank', clock' := rank'[node := clock'], clock' + 1;
    found := false;
  }

  /** The second loop of hasCycle: a search from every key not yet visited,
      in key order. It reports a cycle exactly when the graph has one. */
  method SearchAll<N(==, !new)>(g: Adjacency<N>, keys: seq<N>) returns (found: bool)
    requires Closed(g)
    requires forall x :: x in keys <==> x in g
    ensures found <==> AdjCyclic(g)
  {
    var visited: set<N> := {};
    ghost var rank: map<N, int>, clock := map[], 0;
    var i := 0;
    while i < |keys|
      invariant 0 <= i <= |keys|
      invariant DfsState(g, visited, {}, [], rank, clock)
      invariant forall j :: 0 <= j < i ==> keys[j] in visited
    {
      if keys[i] !in visited {
        found, visited, rank, clock := Dfs(g, keys[i], visited, {}, [], rank, clock);
        if found {
          return;
        }
      }
      i := i + 1;
    }
    assert g.Keys <= rank.Keys by {
      forall x | x in g ensures x in rank {
        var j :| 0 <= j < |keys| && keys[j] == x;
      }
    }
    RankedAcyclic(g, rank);
    found := false;
  }

  /** hasCycle: true exactly when the dependency graph has a directed cycle
      (a self-dependency included). */
  method HasCycle(tasks: seq<Task>) returns (r: bool)
    ensures r <==> Cyclic(tasks)
  {
    var keys, g := BuildGraph(tasks);
    SameEdgesCyclic(g, tasks);
    r := SearchAll(g, keys);
  }

  // ---------------------------------------------------------------------------
  // wouldCreateCycle

  /** The task list with `depId` appended to the dependsOn of every task whose
      id is `taskId` (the map of wouldCreateCycle). */
  function WithExtraDependency(tasks: seq<Task>, taskId: string, depId: string): (r: seq<Task>)
    ensures |r| == |tasks|
    ensures forall i :: 0 <= i < |tasks| ==>
              r[i] == if tasks[i].id == taskId
                      then tasks[i].(dependsOn := tasks[i].dependsOn + [depId])
                      else tasks[i]
  {
    seq(|tasks|, i requires 0 <= i < |tasks| =>
      if tasks[i].id == taskId then tasks[i].(dependsOn := tasks[i].dependsOn + [depId]) else tasks[i])
  }

  /** The extended list has the old edges plus depId -> taskId, the latter only
      when some task carries taskId. */
  lemma ExtraDependencyEdges(tasks: seq<Task>, taskId: string, depId: string)
    ensures forall u, v :: Edge(WithExtraDependency(tasks, taskId, depId), u, v) <==>
                           Edge(tasks, u, v) || (u == depId && v == taskId && taskId in Ids(tasks))
  {
    var r := WithExtraDependency(tasks, taskId, depId);
    forall u, v ensures Edge(r, u, v) <==> Edge(tasks, u, v) || (u == depId && v == taskId && taskId in Ids(tasks)) {
      if Edge(r, u, v) {
        var i :| 0 <= i < |r| && r[i].id == v && u in r[i].dependsOn;
        if tasks[i].id == taskId {
          assert u in tasks[i].dependsOn + [depId];
          if u != depId { assert u in tasks[i].dependsOn; }
        }
      }
      if Edge(tasks, u, v) {
        var i :| 0 <= i < |tasks| && tasks[i].id == v && u in tasks[i].dependsOn;
        assert u in r[i].dependsOn;
      }
      if u == depId && v == taskId && taskId in Ids(tasks) {
        var i := IdsWitness(tasks, taskId);
        assert u in r[i].dependsOn;
      }
    }
  }

  lemma PathStep(tasks: seq<Task>, p: seq<string>, v: string)
    requires IsPath(tasks, p) && Edge(tasks, p[|p| - 1], v)
    ensures IsPath(tasks, p + [v])
  {
    var q := p + [v];
    forall k | 0 <= k < |q| - 1 ensures Edge(tasks, q[k], q[k + 1]) {
      if k < |p| - 1 { assert q[k] == p[k] && q[k + 1] == p[k + 1]; }
    }
  }

  /** A path of the extended graph that never leaves depId except at its last
      node uses no new edge, so it is a path of the original graph. */
  lemma OldPath(tasks: seq<Task>, taskId: string, depId: string, q: seq<string>)
    requires IsPath(WithExtraDependency(tasks, taskId, depId), q)
    requires forall j :: 0 <= j < |q| - 1 ==> q[j] != depId
    ensures IsPath(tasks, q)
  {
    ExtraDependencyEdges(tasks, taskId, depId);
    var r := WithExtraDependency(tasks, taskId, depId);
    forall k | 0 <= k < |q| - 1 ensures Edge(tasks, q[k], q[k + 1]) {
      assert Edge(r, q[k], q[k + 1]);
    }
  }

  /** Rotating a cycle to start after position k gives a path from p[k+1]
      around to p[k]. */
  lemma RotateCycle(tasks: seq<Task>, p: seq<string>, k: int) returns (q: seq<string>)
    requires IsCycle(tasks, p) && 0 <= k < |p| - 1
    ensures IsPath(tasks, q) && q[0] == p[k + 1] && q[|q| - 1] == p[k]
  {
    q := p[k + 1..] + p[1..k + 1];
    var a := |p| - (k + 1);
    forall m | 0 <= m < |q| - 1 ensures Edge(tasks, q[m], q[m + 1]) {
      if m < a - 1 {
        assert q[m] == p[k + 1 + m] && q[m + 1] == p[k + 2 + m];
      } else if m == a - 1 {
        assert q[m] == p[0] && q[m + 1] == p[1];
      } else {
        assert q[m] == p[m - a + 1] && q[m + 1] == p[m - a + 2];
      }
    }
  }

  lemma PathPrefix(tasks: seq<Task>, q: seq<string>, m: int)
    requires IsPath(tasks, q) && 0 <= m < |q|
    ensures IsPath(tasks, q[..m + 1])
  {
    var q' := q[..m + 1];
    forall j | 0 <= j < |q'| - 1 ensures Edge(tasks, q'[j], q'[j + 1]) {
      assert q'[j] == q[j] && q'[j + 1] == q[j + 1];
    }
  }

  /** A cycle of the extended graph that uses the new edge at position k
      yields, once rotated to start at taskId, a path of the original graph
      from taskId to depId (or taskId == depId). */
  lemma RotatedCycle(tasks: seq<Task>, taskId: string, depId: string, p: seq<string>, k: int)
    requires IsCycle(WithExtraDependency(tasks, taskId, depId), p)
    requires 0 <= k < |p| - 1 && p[k] == depId && p[k + 1] == taskId
    ensures taskId == depId || Reaches(tasks, taskId, depId)
  {
    var r := WithExtraDependency(tasks, taskId, depId);
    var q := RotateCycle(r, p, k);
    var m := FirstIndex(q, depId);
    if m > 0 {
      PathPrefix(r, q, m);
      var q' := q[..m + 1];
      OldPath(tasks, taskId, depId, q');
      assert q'[0] == taskId && q'[|q'| - 1] == depId;
    }
  }

  function FirstIndex(q: seq<string>, x: string): (m: int)
    requires x in q
    ensures 0 <= m < |q| && q[m] == x && forall j :: 0 <= j < m ==> q[j] != x
  {
    if q[0] == x then 0 else 1 + FirstIndex(q[1..], x)
  }

  /** Appending depId to taskId's dependencies creates a cycle exactly when the
      graph already had one, or taskId names a task and either depends on
      itself now or already reaches depId (depId transitively depends on it). */
  lemma ExtraDependencyCyclic(tasks: seq<Task>, taskId: string, depId: string)
    ensures Cyclic(WithExtraDependency(tasks, taskId, depId)) <==>
            Cyclic(tasks) || (taskId in Ids(tasks) && (taskId == depId || Reaches(tasks, taskId, depId)))
  {
    var r := WithExtraDependency(tasks, taskId, depId);
    ExtraDependencyEdges(tasks, taskId, depId);
    if Cyclic(r) && !Cyclic(tasks) {
      var p :| IsCycle(r, p);
      if forall k :: 0 <= k < |p| - 1 ==> !(p[k] == depId && p[k + 1] == taskId) {
        forall k | 0 <= k < |p| - 1 ensures Edge(tasks, p[k], p[k + 1]) {
          assert Edge(r, p[k], p[k + 1]);
        }
        assert IsCycle(tasks, p);
        assert false;
      }
      var k :| 0 <= k < |p| - 1 && p[k] == depId && p[k + 1] == taskId;
      assert Edge(r, p[k], p[k + 1]);
      RotatedCycle(tasks, taskId, depId, p, k);
    }
    if Cyclic(tasks) {
      var p :| IsCycle(tasks, p);
      forall k | 0 <= k < |p| - 1 ensures Edge(r, p[k], p[k + 1]) {
        assert Edge(tasks, p[k], p[k + 1]);
      }
      assert IsCycle(r, p);
    }
    if taskId in Ids(tasks) && taskId == depId {
      assert Edge(r, depId, taskId);
      assert IsCycle(r, [taskId, taskId]);
    }
    if taskId in Ids(tasks) && Reaches(tasks, taskId, depId) {
      var p :| IsPath(tasks, p) && |p| >= 2 && p[0] == taskId && p[|p| - 1] == depId;
      forall k | 0 <= k < |p| - 1 ensures Edge(r, p[k], p[k + 1]) {
        assert Edge(tasks, p[k], p[k + 1]);
      }
      assert Edge(r, depId, taskId);
      PathStep(r, p, taskId);
      assert IsCycle(r, p + [taskId]);
    }
  }

  /** wouldCreateCycle: hasCycle on the list with the dependency added. */
  method WouldCreateCycle(tasks: seq<Task>, taskId: string, depId: string) returns (r: bool)
    ensures r <==> Cyclic(tasks) || (taskId in Ids(tasks) && (taskId == depId || Reaches(tasks, taskId, depId)))
  {
    r := HasCycle(WithExtraDependency(tasks, taskId, depId));
    ExtraDependencyCyclic(tasks, taskId, depId);
  }
  // ---------------------------------------------------------------------------
  // getDependentTasks

  lemma ReachesStep(tasks: seq<Task>, a: string, b: string, c: string)
    requires a == b || Reaches(tasks, a, b)
    requires Edge(tasks, b, c)
    ensures Reaches(tasks, a, c)
  {
    if a == b {
      assert IsPath(tasks, [a, c]);
    } else {
      var p :| IsPath(tasks, p) && |p| >= 2 && p[0] == a && p[|p| - 1] == b;
      PathStep(tasks, p, c);
      assert (p + [c])[0] == a;
    }
  }

  /** The end of an edge names a task. */
  lemma ReachedIsTask(tasks: seq<Task>, a: string, b: string)
    requires Reaches(tasks, a, b)
    ensures b in Ids(tasks)
  {
    var p :| IsPath(tasks, p) && |p| >= 2 && p[0] == a && p[|p| - 1] == b;
    assert Edge(tasks, p[|p| - 2], p[|p| - 1]);
  }

  /** The ids that transitively depend on `taskId`. */
  ghost function DependentIds(tasks: seq<Task>, taskId: string): (r: set<string>)
    ensures r <= Ids(tasks)
  {
    set x | x in Ids(tasks) && Reaches(tasks, taskId, x)
  }

  /** tasks.filter keeping the tasks whose id is in `s`. */
  function FilterIds(tasks: seq<Task>, s: set<string>): (r: seq<Task>)
    ensures |r| <= |tasks|
    ensures forall t :: t in r <==> t in tasks && t.id in s
  {
    if |tasks| == 0 then []
    else if tasks[0].id in s then [tasks[0]] + FilterIds(tasks[1..], s)
    else FilterIds(tasks[1..], s)
  }

  /** findDependents(id): every task found depending on `id` and not yet in
      `dependents` is added and explored. The ids it adds are reachable from
      `root`; the successors of `id`, and of every id it adds, end up in the
      set. */
  method FindDependents(tasks: seq<Task>, id: string, dependents: set<string>, ghost root: string)
    returns (dependents': set<string>)
    requires dependents <= Ids(tasks)
    requires id == root || Reaches(tasks, root, id)
    requires forall y :: y in dependents ==> Reaches(tasks, root, y)
    ensures dependents <= dependents' <= Ids(tasks)
    ensures forall y :: y in dependents' ==> Reaches(tasks, root, y)
    ensures forall v :: Edge(tasks, id, v) ==> v in dependents'
    ensures forall y, v :: y in dependents' - dependents && Edge(tasks, y, v) ==> v in dependents'
    decreases Ids(tasks) - dependents
  {
    dependents' := dependents;
    var i := 0;
    while i < |tasks|
      invariant 0 <= i <= |tasks|
      invariant dependents <= dependents' <= Ids(tasks)
      invariant forall y :: y in dependents' ==> Reaches(tasks, root, y)
      invariant forall k :: 0 <= k < i && id in tasks[k].dependsOn ==> tasks[k].id in dependents'
      invariant forall y, v :: y in dependents' - dependents && Edge(tasks, y, v) ==> v in dependents'
    {
      var task := tasks[i];
      if id in task.dependsOn && task.id !in dependents' {
        EdgeOfTask(tasks, i, id);
        ReachesStep(tasks, root, id, task.id);
        assert Ids(tasks) - (dependents' + {task.id}) < Ids(tasks) - dependents by {
          assert task.id in Ids(tasks) - dependents;
        }
        dependents' := FindDependents(tasks, task.id, dependents' + {task.id}, root);
      }
      i := i + 1;
    }
  }

  /** Closure under edges reaches every node on a path out of the root. */
  lemma {:induction false} ClosedContainsPath(tasks: seq<Task>, root: string, s: set<string>, p: seq<string>)
    requires forall v :: Edge(tasks, root, v) ==> v in s
    requires forall y, v :: y in s && Edge(tasks, y, v) ==> v in s
    requires IsPath(tasks, p) && |p| >= 2 && p[0] == root
    ensures p[|p| - 1] in s
    decreases |p|
  {
    if |p| == 2 {
      assert Edge(tasks, p[0], p[1]);
    } else {
      var q := p[..|p| - 1];
      assert IsPath(tasks, q) by {
        forall k | 0 <= k < |q| - 1 ensures Edge(tasks, q[k], q[k + 1]) {
          assert q[k] == p[k] && q[k + 1] == p[k + 1];
        }
      }
      ClosedContainsPath(tasks, root, s, q);
      assert Edge(tasks, p[|p| - 2], p[|p| - 1]);
    }
  }

  /** getDependentTasks: the tasks, in list order, whose id transitively
      depends on `taskId`. */
  method GetDependentTasks(tasks: seq<Task>, taskId: string) returns (r: seq<Task>)
    ensures r == FilterIds(tasks, DependentIds(tasks, taskId))
  {
    var dependents := FindDependents(tasks, taskId, {}, taskId);
    assert dependents == DependentIds(tasks, taskId) by {
      forall x | x in DependentIds(tasks, taskId) ensures x in dependents {
        var p :| IsPath(tasks, p) && |p| >= 2 && p[0] == taskId && p[|p| - 1] == x;
        ClosedContainsPath(tasks, taskId, dependents, p);
      }
    }
    r := FilterIds(tasks, dependents);
  }

  /** A dependent's own dependents are dependents too. */
  lemma DependentsClosed(tasks: seq<Task>, taskId: string, t: Task, t': Task)
    requires t in FilterIds(tasks, DependentIds(tasks, taskId))
    requires t' in tasks && t.id in t'.dependsOn
    ensures t' in FilterIds(tasks, DependentIds(tasks, taskId))
  {
    var i :| 0 <= i < |tasks| && tasks[i] == t';
    EdgeOfTask(tasks, i, t.id);
    ReachesStep(tasks, taskId, t.id, t'.id);
  }

  /** Every direct dependent of taskId is in the result. */
  lemma DirectDependentsIncluded(tasks: seq<Task>, taskId: string, t: Task)
    requires t in tasks && taskId in t.dependsOn
    ensures t in FilterIds(tasks, DependentIds(tasks, taskId))
  {
    var i :| 0 <= i < |tasks| && tasks[i] == t;
    EdgeOfTask(tasks, i, taskId);
    ReachesStep(tasks, taskId, taskId, t.id);
  }

  /** Without cycles a task is never among its own dependents. */
  lemma AcyclicNotOwnDependent(tasks: seq<Task>, taskId: string)
    requires !Cyclic(tasks)
    ensures forall t :: t in FilterIds(tasks, DependentIds(tasks, taskId)) ==> t.id != taskId
  {
    forall t | t in FilterIds(tasks, DependentIds(tasks, taskId)) ensures t.id != taskId {
      if t.id == taskId {
        var p :| IsPath(tasks, p) && |p| >= 2 && p[0] == taskId && p[|p| - 1] == taskId;
        assert IsCycle(tasks, p);
      }
    }
  }
  // ---------------------------------------------------------------------------
  // tasksToGraphNodes

  /** The node shape the dependency-graph view draws. */
  datatype GraphNode = GraphNode(id: string, title: string, completed: bool, value: int, dependsOn: seq<string>)

  function TasksToGraphNodes(tasks: seq<Task>): (r: seq<GraphNode>)
    ensures |r| == |tasks|
    ensures forall i :: 0 <= i < |tasks| ==>
              && r[i].id == tasks[i].id && r[i].title == tasks[i].title
              && r[i].completed == tasks[i].completed && r[i].value == tasks[i].value
              && r[i].dependsOn == tasks[i].dependsOn
  {
    seq(|tasks|, i requires 0 <= i < |tasks| =>
      GraphNode(tasks[i].id, tasks[i].title, tasks[i].completed, tasks[i].value, tasks[i].dependsOn))
  }

  ghost predicate NodeEdge(nodes: seq<GraphNode>, u: string, v: string) {
    exists i :: 0 <= i < |nodes| && nodes[i].id == v && u in nodes[i].dependsOn
  }

  /** The drawn graph has exactly the dependency edges of the task list. */
  lemma GraphNodesSameEdges(tasks: seq<Task>)
    ensures forall u, v :: NodeEdge(TasksToGraphNodes(tasks), u, v) <==> Edge(tasks, u, v)
  {
    var nodes := TasksToGraphNodes(tasks);
    forall u, v ensures NodeEdge(nodes, u, v) <==> Edge(tasks, u, v) {
      if NodeEdge(nodes, u, v) {
        var i :| 0 <= i < |nodes| && nodes[i].id == v && u in nodes[i].dependsOn;
        EdgeOfTask(tasks, i, u);
      }
      if Edge(tasks, u, v) {
        var i :| 0 <= i < |tasks| && tasks[i].id == v && u in tasks[i].dependsOn;
        assert nodes[i].id == v && u in nodes[i].dependsOn;
      }
    }
  }

  // ---------------------------------------------------------------------------
  // topologicalSort

  /** new Map(tasks.map(t => [t.id, t])): a later task overwrites an earlier
      one with the same id. */
  function TaskMap(tasks: seq<Task>): (m: map<string, Task>)
    ensures m.Keys == Ids(tasks)
    ensures forall x :: x in m ==> m[x].id == x
  {
    if |tasks| == 0 then map[]
    else
      var n := |tasks| - 1;
      assert tasks[..n] + [tasks[n]] == tasks;
      IdsSnoc(tasks[..n], tasks[n]);
      TaskMap(tasks[..n])[tasks[n].id := tasks[n]]
  }

  /** The entry for x is the last task carrying x. */
  lemma {:induction false} TaskMapLast(tasks: seq<Task>, x: string) returns (i: int)
    requires x in TaskMap(tasks)
    ensures 0 <= i < |tasks| && tasks[i] == TaskMap(tasks)[x]
    ensures forall j :: i < j < |tasks| ==> tasks[j].id != x
    decreases |tasks|
  {
    var n := |tasks| - 1;
    if tasks[n].id == x {
      i := n;
    } else {
      var prefix := tasks[..n];
      assert TaskMap(tasks) == TaskMap(prefix)[tasks[n].id := tasks[n]];
      i := TaskMapLast(prefix, x);
      assert tasks[i] == prefix[i];
      forall j | i < j < |tasks| ensures tasks[j].id != x {
        if j < n {
          assert prefix[j] == tasks[j];
          assert prefix[j].id != x;
        } else {
          assert j == n;
        }
      }
    }
  }

  lemma TaskMapInTasks(tasks: seq<Task>, x: string)
    requires x in TaskMap(tasks)
    ensures TaskMap(tasks)[x] in tasks
  {
    var i := TaskMapLast(tasks, x);
  }

  /** What visit relies on about its task map: each entry carries its own
      id, and each dependency of an entry has an edge into it. */
  ghost predicate MapOfTasks(tasks: seq<Task>, taskMap: map<string, Task>) {
    && (forall x :: x in taskMap ==> taskMap[x].id == x)
    && (forall x, d :: x in taskMap && d in taskMap[x].dependsOn ==> Edge(tasks, d, x))
  }

  lemma {:induction false} TaskMapEntryEdge(tasks: seq<Task>, x: string, d: string)
    requires x in TaskMap(tasks) && d in TaskMap(tasks)[x].dependsOn
    ensures Edge(tasks, d, x)
  {
    var i := TaskMapLast(tasks, x);
    EdgeOfTask(tasks, i, d);
  }

  lemma {:induction false} TaskMapEdges(tasks: seq<Task>, m: map<string, Task>)
    requires m == TaskMap(tasks)
    ensures forall x, d :: x in m && d in m[x].dependsOn ==> Edge(tasks, d, x)
  {
    forall x, d | x in m && d in m[x].dependsOn ensures Edge(tasks, d, x) {
      TaskMapEntryEdge(tasks, x, d);
    }
  }

  lemma {:induction false} TaskMapOfTasks(tasks: seq<Task>)
    ensures MapOfTasks(tasks, TaskMap(tasks))
  {
    TaskMapEdges(tasks, TaskMap(tasks));
  }

  /** With unique ids, the map gives back each task. */
  lemma TaskMapUnique(tasks: seq<Task>, k: int)
    requires UniqueIds(tasks) && 0 <= k < |tasks|
    ensures TaskMap(tasks)[tasks[k].id] == tasks[k]
  {
    var i := TaskMapLast(tasks, tasks[k].id);
  }

  /** Every task precedes each task that lists it as a dependency. */
  ghost predicate TopologicallyOrdered(s: seq<Task>) {
    forall a, b :: 0 <= a < |s| && 0 <= b < |s| && s[a].id in s[b].dependsOn ==> a < b
  }

  /** An output entry is the map's entry for its id. */
  ghost predicate Placed(taskMap: map<string, Task>, t: Task) {
    t.id in taskMap && taskMap[t.id] == t
  }

  /** The output built so far: map entries, one per visited id that names a
      task, in dependency order; every dependency of an entry is visited. */
  ghost predicate SortState(taskMap: map<string, Task>, visited: set<string>, sorted: seq<Task>) {
    && (forall k :: 0 <= k < |sorted| ==> Placed(taskMap, sorted[k]))
    && UniqueIds(sorted)
    && Ids(sorted) == visited * taskMap.Keys
    && TopologicallyOrdered(sorted)
    && (forall k, d :: 0 <= k < |sorted| && d in sorted[k].dependsOn ==> d in visited)
  }

  /** Meeting a node of `temp` again closes a cycle: `stack` is the chain of
      pending visits, oldest first, each one a dependency of the one before,
      and taskId, a dependency of the newest, is stack[k]. */
  lemma TempCycle(tasks: seq<Task>, taskId: string, stack: seq<string>, k: int)
    requires stack != [] && Edge(tasks, taskId, stack[|stack| - 1])
    requires forall j :: 0 <= j < |stack| - 1 ==> Edge(tasks, stack[j + 1], stack[j])
    requires 0 <= k < |stack| && stack[k] == taskId
    ensures Cyclic(tasks)
  {
    var n := |stack|;
    var p := seq(n - k + 1, m requires 0 <= m <= n - k => if m == 0 then taskId else stack[n - m]);
    forall m | 0 <= m < |p| - 1 ensures Edge(tasks, p[m], p[m + 1]) {
      if m > 0 {
        var j := n - m - 1;
        assert p[m] == stack[j + 1] && p[m + 1] == stack[j];
      }
    }
    assert IsCycle(tasks, p);
  }

  /** The pending visits: `stack` lists them oldest first, each one a
      dependency of the one before, and `pos` says where each sits. */
  ghost predicate Pending(tasks: seq<Task>, temp: set<string>, stack: seq<string>, pos: map<string, int>) {
    && temp == pos.Keys
    && (forall x :: x in pos ==> 0 <= pos[x] < |stack| && stack[pos[x]] == x)
    && (forall j :: 0 <= j < |stack| - 1 ==> Edge(tasks, stack[j + 1], stack[j]))
  }

  lemma PushPending(tasks: seq<Task>, temp: set<string>, stack: seq<string>, pos: map<string, int>, taskId: string)
    requires Pending(tasks, temp, stack, pos) && taskId !in temp
    requires stack != [] ==> Edge(tasks, taskId, stack[|stack| - 1])
    ensures Pending(tasks, temp + {taskId}, stack + [taskId], pos[taskId := |stack|])
  {
    var stack', pos' := stack + [taskId], pos[taskId := |stack|];
    forall x | x in pos' ensures 0 <= pos'[x] < |stack'| && stack'[pos'[x]] == x {
      if x != taskId { assert stack'[pos[x]] == stack[pos[x]]; }
    }
    forall j | 0 <= j < |stack'| - 1 ensures Edge(tasks, stack'[j + 1], stack'[j]) {
      if j < |stack| - 1 { assert stack'[j + 1] == stack[j + 1] && stack'[j] == stack[j]; }
    }
  }

  lemma PushOrdered(sorted: seq<Task>, task: Task)
    requires TopologicallyOrdered(sorted)
    requires forall b :: 0 <= b < |sorted| ==> task.id !in sorted[b].dependsOn
    requires task.id !in task.dependsOn
    ensures TopologicallyOrdered(sorted + [task])
  {
    var s := sorted + [task];
    forall a, b | 0 <= a < |s| && 0 <= b < |s| && s[a].id in s[b].dependsOn ensures a < b {
      if b < |sorted| {
        assert s[b] == sorted[b];
        assert s[a] == sorted[a];
      }
    }
  }

  lemma PushUnique(sorted: seq<Task>, task: Task)
    requires UniqueIds(sorted) && task.id !in Ids(sorted)
    ensures UniqueIds(sorted + [task])
  {
    var s := sorted + [task];
    forall a, b | 0 <= a < b < |s| ensures s[a].id != s[b].id {
      assert s[a] == sorted[a];
      if b < |sorted| { assert s[b] == sorted[b]; }
    }
  }

  lemma PushPlaced(taskMap: map<string, Task>, sorted: seq<Task>, task: Task)
    requires forall k :: 0 <= k < |sorted| ==> Placed(taskMap, sorted[k])
    requires Placed(taskMap, task)
    ensures forall k :: 0 <= k < |sorted + [task]| ==> Placed(taskMap, (sorted + [task])[k])
  {
    var s := sorted + [task];
    forall k | 0 <= k < |s| ensures Placed(taskMap, s[k]) {
      if k < |sorted| { assert s[k] == sorted[k]; }
    }
  }

  lemma PushDependencies(visited: set<string>, sorted: seq<Task>, task: Task)
    requires forall k, d :: 0 <= k < |sorted| && d in sorted[k].dependsOn ==> d in visited
    requires forall d :: d in task.dependsOn ==> d in visited
    ensures forall k, d :: 0 <= k < |sorted + [task]| && d in (sorted + [task])[k].dependsOn ==> d in visited + {task.id}
  {
    var s := sorted + [task];
    forall k, d | 0 <= k < |s| && d in s[k].dependsOn ensures d in visited + {task.id} {
      if k < |sorted| { assert s[k] == sorted[k]; }
    }
  }

  lemma PushIds(taskMap: map<string, Task>, visited: set<string>, sorted: seq<Task>, task: Task)
    requires Ids(sorted) == visited * taskMap.Keys && task.id in taskMap
    ensures Ids(sorted + [task]) == (visited + {task.id}) * taskMap.Keys
  {
    IdsSnoc(sorted, task);
  }

  /** Pushing a visited task whose dependencies are all visited keeps the
      output state. */
  lemma PushTask(taskMap: map<string, Task>, visited: set<string>, sorted: seq<Task>, taskId: string)
    requires SortState(taskMap, visited, sorted)
    requires taskId in taskMap && taskId !in visited && taskMap[taskId].id == taskId
    requires forall d :: d in taskMap[taskId].dependsOn ==> d in visited
    ensures SortState(taskMap, visited + {taskId}, sorted + [taskMap[taskId]])
  {
    var task := taskMap[taskId];
    PushIds(taskMap, visited, sorted, task);
    PushUnique(sorted, task);
    PushOrdered(sorted, task);
    PushDependencies(visited, sorted, task);
    PushPlaced(taskMap, sorted, task);
  }

  /** visit(taskId): dependencies first, then the task itself. `temp` holds
      the pending visits, `stack` lists them oldest first and `pos` says where
      each one sits in it. A false result means a cycle was met. On success
      taskId is visited, and the ids newly visited all lie outside `temp`. */
  method Visit(tasks: seq<Task>, taskMap: map<string, Task>, taskId: string, temp: set<string>,
               visited: set<string>, sorted: seq<Task>,
               ghost stack: seq<string>, ghost pos: map<string, int>)
    returns (ok: bool, visited': set<string>, sorted': seq<Task>)
    requires MapOfTasks(tasks, taskMap)
    requires taskId in Nodes(tasks) && visited <= Nodes(tasks) && temp <= Nodes(tasks)
    requires Pending(tasks, temp, stack, pos)
    requires stack != [] ==> Edge(tasks, taskId, stack[|stack| - 1])
    requires SortState(taskMap, visited, sorted)
    ensures !ok ==> Cyclic(tasks)
    ensures ok ==> && SortState(taskMap, visited', sorted')
                   && visited <= visited' <= Nodes(tasks) && taskId in visited'
                   && (visited' - visited) !! temp
    decreases Nodes(tasks) - (visited + temp), 0
  {
    if taskId in temp {
      TempCycle(tasks, taskId, stack, pos[taskId]);
      return false, visited, sorted;
    }
    if taskId in visited {
      return true, visited, sorted;
    }
    var temp' := temp + {taskId};
    PushPending(tasks, temp, stack, pos, taskId);
    visited', sorted' := visited, sorted;
    if taskId in taskMap {
      var task := taskMap[taskId];
      assert Nodes(tasks) - (visited + temp') < Nodes(tasks) - (visited + temp) by {
        assert taskId in Nodes(tasks) - (visited + temp);
      }
      ok, visited', sorted' := VisitDependencies(tasks, taskMap, taskId, temp', visited, sorted,
                                                 stack + [taskId], pos[taskId := |stack|]);
      if !ok {
        return;
      }
      PushTask(taskMap, visited', sorted', taskId);
      sorted' := sorted' + [task];
    } else {
      assert Ids(sorted') == (visited' + {taskId}) * taskMap.Keys;
    }
    visited' := visited' + {taskId};
    ok := true;
  }

  /** The loop of visit over the dependencies of the task with id taskId,
      the newest pending visit. */
  method VisitDependencies(tasks: seq<Task>, taskMap: map<string, Task>, taskId: string, temp: set<string>,
                           visited: set<string>, sorted: seq<Task>,
                           ghost stack: seq<string>, ghost pos: map<string, int>)
    returns (ok: bool, visited': set<string>, sorted': seq<Task>)
    requires MapOfTasks(tasks, taskMap) && taskId in taskMap
    requires visited <= Nodes(tasks) && temp <= Nodes(tasks)
    requires Pending(tasks, temp, stack, pos)
    requires stack != [] && stack[|stack| - 1] == taskId
    requires SortState(taskMap, visited, sorted)
    ensures !ok ==> Cyclic(tasks)
    ensures ok ==> && SortState(taskMap, visited', sorted')
                   && visited <= visited' <= Nodes(tasks)
                   && (visited' - visited) !! temp
                   && forall d :: d in taskMap[taskId].dependsOn ==> d in visited'
    decreases Nodes(tasks) - (visited + temp), 1
  {
    var task := taskMap[taskId];
    visited', sorted' := visited, sorted;
    ghost var done: set<string> := {};
    var j := 0;
    while j < |task.dependsOn|
      invariant 0 <= j <= |task.dependsOn|
      invariant SortState(taskMap, visited', sorted')
      invariant visited <= visited' <= Nodes(tasks)
      invariant (visited' - visited) !! temp
      invariant done <= visited'
      invariant forall k :: 0 <= k < j ==> task.dependsOn[k] in done
    {
      var depId := task.dependsOn[j];
      EdgeInNodes(tasks, depId, taskId);
      var depOk;
      depOk, visited', sorted' := Visit(tasks, taskMap, depId, temp, visited', sorted', stack, pos);
      if !depOk {
        return false, visited', sorted';
      }
      done := done + {depId};
      j := j + 1;
    }
    ok := true;
  }

  /** Distinct ids make the multiset of a list its set, counted once. */
  lemma {:induction false} UniqueCount(s: seq<Task>, t: Task)
    requires UniqueIds(s)
    ensures multiset(s)[t] == if t in s then 1 else 0
    decreases |s|
  {
    if |s| > 0 {
      var n := |s| - 1;
      assert s == s[..n] + [s[n]];
      assert UniqueIds(s[..n]) by {
        forall a, b | 0 <= a < b < n ensures s[..n][a].id != s[..n][b].id {
          assert s[..n][a] == s[a] && s[..n][b] == s[b];
        }
      }
      UniqueCount(s[..n], t);
      if t == s[n] {
        forall k | 0 <= k < n ensures s[..n][k] != t {
          assert s[..n][k] == s[k];
        }
      }
    }
  }

  lemma SameMembers(r: seq<Task>, tasks: seq<Task>, t: Task)
    requires UniqueIds(tasks)
    requires forall k :: 0 <= k < |r| ==> r[k] in tasks
    requires Ids(tasks) <= Ids(r)
    ensures t in r <==> t in tasks
  {
    if t in tasks {
      var i :| 0 <= i < |tasks| && tasks[i] == t;
      var k := IdsWitness(r, t.id);
      var j :| 0 <= j < |tasks| && tasks[j] == r[k];
      assert tasks[j].id == tasks[i].id;
    }
  }

  /** Two lists with unique ids, the same ids, and the elements of one
      drawn from the other, are permutations of each other. */
  lemma SameIdsPermutation(r: seq<Task>, tasks: seq<Task>)
    requires UniqueIds(r) && UniqueIds(tasks)
    requires forall k :: 0 <= k < |r| ==> r[k] in tasks
    requires Ids(tasks) <= Ids(r)
    ensures multiset(r) == multiset(tasks)
  {
    forall t ensures multiset(r)[t] == multiset(tasks)[t] {
      UniqueCount(r, t);
      UniqueCount(tasks, t);
      SameMembers(r, tasks, t);
    }
  }

  /** topologicalSort: None exactly when the dependency graph has a cycle;
      otherwise one entry per task id, drawn from the list, every task after
      the tasks it depends on, and with unique ids a permutation of the
      list. */
  method TopologicalSort(tasks: seq<Task>) returns (r: Option<seq<Task>>)
    ensures r.None? <==> Cyclic(tasks)
    ensures r.Some? ==> && TopologicallyOrdered(r.value)
                        && (forall k :: 0 <= k < |r.value| ==> r.value[k] in tasks)
                        && UniqueIds(r.value) && Ids(r.value) == Ids(tasks)
    ensures r.Some? && UniqueIds(tasks) ==> multiset(r.value) == multiset(tasks)
  {
    var cyclic := HasCycle(tasks);
    if cyclic {
      return None;
    }
    var sorted: seq<Task> := [];
    var visited: set<string> := {};
    var taskMap := TaskMap(tasks);
    TaskMapOfTasks(tasks);
    assert Ids(sorted) == {};
    var i := 0;
    while i < |tasks|
      invariant 0 <= i <= |tasks|
      invariant SortState(taskMap, visited, sorted)
      invariant visited <= Nodes(tasks)
      invariant forall k :: 0 <= k < i ==> tasks[k].id in visited
    {
      if tasks[i].id !in visited {
        var ok;
        ok, visited, sorted := Visit(tasks, taskMap, tasks[i].id, {}, visited, sorted, [], map[]);
        if !ok {
          assert false;
          return None;
        }
      }
      i := i + 1;
    }
    forall x | x in Ids(tasks) ensures x in visited {
      var k := IdsWitness(tasks, x);
    }
    assert Ids(sorted) == Ids(tasks);
    forall k | 0 <= k < |sorted| ensures sorted[k] in tasks {
      assert Placed(taskMap, sorted[k]);
      TaskMapInTasks(tasks, sorted[k].id);
    }
    if UniqueIds(tasks) {
      SameIdsPermutation(sorted, tasks);
    }
    r := Some(sorted);
  }
}
