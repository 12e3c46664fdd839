/** topologicalSortForScheduling (server/algorithms/scheduler.ts): the
    order the knapsack table takes the active tasks in. Unlike topologicalSort
    it marks a task visited before it visits the dependencies, so it never
    fails: on a cycle it still emits every active task, once. It follows only
    dependencies whose first task in the full list is incomplete and whose
    id names an active task. */
module SchedulingOrder {
  import opened Schema
  import opened Graph

  /** The test visit applies before following depId: the first task with
      that id in the full list exists and is incomplete, and the id names an
      active task (`keys` are the ids of the active tasks). */
  predicate Followed(allTasks: seq<Task>, keys: set<string>, depId: string) {
    var depTask := Find(allTasks, depId);
    depTask.Some? && !depTask.value.completed && depId in keys
  }

  /** The dependencies visit follows, in order. */
  function FollowedDeps(allTasks: seq<Task>, keys: set<string>, deps: seq<string>): (r: seq<string>)
    ensures forall d :: d in r <==> d in deps && Followed(allTasks, keys, d)
  {
    if |deps| == 0 then []
    else if Followed(allTasks, keys, deps[0]) then [deps[0]] + FollowedDeps(allTasks, keys, deps[1..])
    else FollowedDeps(allTasks, keys, deps[1..])
  }

  /** The graph visit walks: the active tasks with only their followed
      dependencies. */
  function Pruned(allTasks: seq<Task>, active: seq<Task>, keys: set<string>): (r: seq<Task>)
    ensures |r| == |active|
    ensures forall i :: 0 <= i < |r| ==> r[i].id == active[i].id
    ensures forall i, d :: 0 <= i < |r| && d in active[i].dependsOn && Followed(allTasks, keys, d) ==> d in r[i].dependsOn
  {
    seq(|active|, i requires 0 <= i < |active| => active[i].(dependsOn := FollowedDeps(allTasks, keys, active[i].dependsOn)))
  }

  /** The active subgraph has a cycle. */
  ghost predicate ActiveCyclic(allTasks: seq<Task>, active: seq<Task>) {
    Cyclic(Pruned(allTasks, active, Ids(active)))
  }

  /** Among the output, every followed dependency comes before its
      dependent. */
  ghost predicate FollowedOrder(allTasks: seq<Task>, keys: set<string>, s: seq<Task>) {
    forall a, b :: 0 <= a < |s| && 0 <= b < |s| && s[a].id in s[b].dependsOn && Followed(allTasks, keys, s[a].id) ==> a < b
  }

  /** Every followed dependency of an output entry is itself in the output. */
  ghost predicate FollowedEmitted(allTasks: seq<Task>, keys: set<string>, s: seq<Task>) {
    forall b, d :: 0 <= b < |s| && d in s[b].dependsOn && Followed(allTasks, keys, d) ==> d in Ids(s)
  }

  /** Each followed dependency of a map entry is an edge of the walked graph. */
  ghost predicate WalksMap(allTasks: seq<Task>, taskMap: map<string, Task>, pruned: seq<Task>) {
    && (forall x :: x in taskMap ==> taskMap[x].id == x)
    && (forall x, d :: x in taskMap && d in taskMap[x].dependsOn && Followed(allTasks, taskMap.Keys, d) ==> Edge(pruned, d, x))
  }

  /** The output built so far: map entries, unique, one per visited and
      finished active id; and, unless the walked graph has a cycle, every
      followed dependency of an entry emitted before it. */
  ghost predicate OrderState(allTasks: seq<Task>, taskMap: map<string, Task>, pruned: seq<Task>,
                             visited: set<string>, temp: set<string>, sorted: seq<Task>) {
    && temp <= visited
    && (forall k :: 0 <= k < |sorted| ==> Placed(taskMap, sorted[k]))
    && UniqueIds(sorted)
    && Ids(sorted) == (visited - temp) * taskMap.Keys
    && (Cyclic(pruned) || (FollowedOrder(allTasks, taskMap.Keys, sorted) && FollowedEmitted(allTasks, taskMap.Keys, sorted)))
  }

  lemma {:induction false} PrunedEntryEdge(allTasks: seq<Task>, active: seq<Task>, x: string, d: string)
    requires x in TaskMap(active) && d in TaskMap(active)[x].dependsOn && Followed(allTasks, Ids(active), d)
    ensures Edge(Pruned(allTasks, active, Ids(active)), d, x)
  {
    var i := TaskMapLast(active, x);
    var p := Pruned(allTasks, active, Ids(active));
    assert p[i].id == x && d in p[i].dependsOn;
  }

  lemma {:induction false} TaskMapWalks(allTasks: seq<Task>, active: seq<Task>)
    ensures WalksMap(allTasks, TaskMap(active), Pruned(allTasks, active, Ids(active)))
  {
    var m := TaskMap(active);
    forall x, d | x in m && d in m[x].dependsOn && Followed(allTasks, m.Keys, d)
      ensures Edge(Pruned(allTasks, active, Ids(active)), d, x)
    {
      PrunedEntryEdge(allTasks, active, x, d);
    }
  }

  /** The order of the new entry against the old ones. */
  lemma FollowedPush(allTasks: seq<Task>, keys: set<string>, sorted: seq<Task>, task: Task)
    requires FollowedOrder(allTasks, keys, sorted) && FollowedEmitted(allTasks, keys, sorted)
    requires task.id !in Ids(sorted)
    requires forall d :: d in task.dependsOn && Followed(allTasks, keys, d) ==> d in Ids(sorted)
    ensures FollowedOrder(allTasks, keys, sorted + [task]) && FollowedEmitted(allTasks, keys, sorted + [task])
  {
    var s := sorted + [task];
    IdsSnoc(sorted, task);
    assert forall b :: 0 <= b < |sorted| ==> !(task.id in sorted[b].dependsOn && Followed(allTasks, keys, task.id));
    forall a, b | 0 <= a < |s| && 0 <= b < |s| && s[a].id in s[b].dependsOn && Followed(allTasks, keys, s[a].id)
      ensures a < b
    {
      if b < |sorted| {
        assert s[b] == sorted[b];
        if a < |sorted| {
          assert s[a] == sorted[a];
        }
      }
    }
    forall b, d | 0 <= b < |s| && d in s[b].dependsOn && Followed(allTasks, keys, d) ensures d in Ids(s) {
      if b < |sorted| { assert s[b] == sorted[b]; }
    }
  }

  /** Emitting the finished task keeps the output state: each followed
      dependency was visited, so it is emitted already or pending, and a
      pending one closes a cycle. */
  lemma PushFinished(allTasks: seq<Task>, taskMap: map<string, Task>, pruned: seq<Task>,
                     visited: set<string>, temp: set<string>, sorted: seq<Task>,
                     stack: seq<string>, pos: map<string, int>, taskId: string)
    requires WalksMap(allTasks, taskMap, pruned) && taskId in taskMap
    requires OrderState(allTasks, taskMap, pruned, visited, temp + {taskId}, sorted)
    requires taskId in visited && taskId !in temp
    requires Pending(pruned, temp + {taskId}, stack, pos)
    requires stack != [] && stack[|stack| - 1] == taskId
    requires forall d :: d in taskMap[taskId].dependsOn && Followed(allTasks, taskMap.Keys, d) ==> d in visited
    ensures OrderState(allTasks, taskMap, pruned, visited, temp, sorted + [taskMap[taskId]])
  {
    var task := taskMap[taskId];
    var keys := taskMap.Keys;
    PushUnique(sorted, task);
    PushPlaced(taskMap, sorted, task);
    IdsSnoc(sorted, task);
    forall d | d in task.dependsOn && Followed(allTasks, keys, d) ensures Cyclic(pruned) || d in Ids(sorted) {
      if d in temp + {taskId} {
        TempCycle(pruned, d, stack, pos[d]);
      }
    }
    if !Cyclic(pruned) {
      FollowedPush(allTasks, keys, sorted, task);
    }
  }

  /** visit(taskId): mark it, visit the followed dependencies, then emit the
      task. `temp` (ghost) holds the visits in progress, `stack` lists them
      oldest first and `pos` says where each sits. */
  method Visit(allTasks: seq<Task>, taskMap: map<string, Task>, ghost pruned: seq<Task>, taskId: string,
               visited: set<string>, sorted: seq<Task>,
               ghost temp: set<string>, ghost stack: seq<string>, ghost pos: map<string, int>)
    returns (visited': set<string>, sorted': seq<Task>)
    requires WalksMap(allTasks, taskMap, pruned)
    requires OrderState(allTasks, taskMap, pruned, visited, temp, sorted)
    requires Pending(pruned, temp, stack, pos)
    requires stack != [] ==> Edge(pruned, taskId, stack[|stack| - 1])
    ensures visited <= visited' && taskId in visited'
    ensures OrderState(allTasks, taskMap, pruned, visited', temp, sorted')
    decreases taskMap.Keys - visited, 0
  {
    if taskId in visited {
      return visited, sorted;
    }
    visited' := visited + {taskId};
    sorted' := sorted;
    if taskId !in taskMap {
      return;
    }
    var task := taskMap[taskId];
    PushPending(pruned, temp, stack, pos, taskId);
    visited', sorted' := VisitDependencies(allTasks, taskMap, pruned, taskId, visited', sorted',
                                           temp + {taskId}, stack + [taskId], pos[taskId := |stack|]);
    PushFinished(allTasks, taskMap, pruned, visited', temp, sorted', stack + [taskId], pos[taskId := |stack|], taskId);
    sorted' := sorted' + [task];
  }

  /** The loop of visit over the dependencies of taskId, the newest visit in
      progress. */
  method VisitDependencies(allTasks: seq<Task>, taskMap: map<string, Task>, ghost pruned: seq<Task>, taskId: string,
                           visited: set<string>, sorted: seq<Task>,
                           ghost temp: set<string>, ghost stack: seq<string>, ghost pos: map<string, int>)
    returns (visited': set<string>, sorted': seq<Task>)
    requires WalksMap(allTasks, taskMap, pruned) && taskId in taskMap
    requires OrderState(allTasks, taskMap, pruned, visited, temp, sorted)
    requires Pending(pruned, temp, stack, pos)
    requires stack != [] && stack[|stack| - 1] == taskId
    ensures visited <= visited'
    ensures OrderState(allTasks, taskMap, pruned, visited', temp, sorted')
    ensures forall d :: d in taskMap[taskId].dependsOn && Followed(allTasks, taskMap.Keys, d) ==> d in visited'
    decreases taskMap.Keys - visited, 1
  {
    var task := taskMap[taskId];
    visited', sorted' := visited, sorted;
    var j := 0;
    while j < |task.dependsOn|
      invariant 0 <= j <= |task.dependsOn|
      invariant visited <= visited'
      invariant OrderState(allTasks, taskMap, pruned, visited', temp, sorted')
      invariant forall k :: 0 <= k < j && Followed(allTasks, taskMap.Keys, task.dependsOn[k]) ==> task.dependsOn[k] in visited'
    {
      var depId := task.dependsOn[j];
      if Followed(allTasks, taskMap.Keys, depId) {
        visited', sorted' := Visit(allTasks, taskMap, pruned, depId, visited', sorted', temp, stack, pos);
      }
      j := j + 1;
    }
  }

  /** Once every active id is visited and no visit is in progress, the
      output holds each active id once. */
  lemma {:induction false} SortFinished(allTasks: seq<Task>, activeTasks: seq<Task>, visited: set<string>, sorted: seq<Task>)
    requires OrderState(allTasks, TaskMap(activeTasks), Pruned(allTasks, activeTasks, Ids(activeTasks)), visited, {}, sorted)
    requires Ids(activeTasks) <= visited
    ensures UniqueIds(sorted) && Ids(sorted) == Ids(activeTasks)
    ensures forall k :: 0 <= k < |sorted| ==> sorted[k] in activeTasks
    ensures UniqueIds(activeTasks) ==> multiset(sorted) == multiset(activeTasks)
    ensures !ActiveCyclic(allTasks, activeTasks) ==> FollowedOrder(allTasks, Ids(activeTasks), sorted)
  {
    var taskMap := TaskMap(activeTasks);
    assert Ids(sorted) == Ids(activeTasks);
    forall k | 0 <= k < |sorted| ensures sorted[k] in activeTasks {
      assert Placed(taskMap, sorted[k]);
      TaskMapInTasks(activeTasks, sorted[k].id);
    }
    if UniqueIds(activeTasks) {
      SameIdsPermutation(sorted, activeTasks);
    }
  }

  /** topologicalSortForScheduling: every active task once, drawn from the
      active list (a permutation of it when the ids are unique), and every
      followed dependency before its dependent unless the active subgraph
      has a cycle. */
  method TopologicalSortForScheduling(activeTasks: seq<Task>, allTasks: seq<Task>) returns (sorted: seq<Task>)
    ensures UniqueIds(sorted) && Ids(sorted) == Ids(activeTasks)
    ensures forall k :: 0 <= k < |sorted| ==> sorted[k] in activeTasks
    ensures UniqueIds(activeTasks) ==> multiset(sorted) == multiset(activeTasks)
    ensures !ActiveCyclic(allTasks, activeTasks) ==> FollowedOrder(allTasks, Ids(activeTasks), sorted)
  {
    sorted := [];
    var visited: set<string> := {};
    var taskMap := TaskMap(activeTasks);
    ghost var pruned := Pruned(allTasks, activeTasks, Ids(activeTasks));
    TaskMapWalks(allTasks, activeTasks);
    assert Ids(sorted) == {};
    var i := 0;
    while i < |activeTasks|
      invariant 0 <= i <= |activeTasks|
      invariant OrderState(allTasks, taskMap, pruned, visited, {}, sorted)
      invariant Ids(activeTasks[..i]) <= visited
    {
      visited, sorted := Visit(allTasks, taskMap, pruned, activeTasks[i].id, visited, sorted, {}, [], map[]);
      assert activeTasks[..i + 1][..i] == activeTasks[..i];
      i := i + 1;
    }
    assert activeTasks[..i] == activeTasks;
    SortFinished(allTasks, activeTasks, visited, sorted);
  }
}
