# SecondBrain core in Dafny

SecondBrain is a personal task planner. Each task has a duration, an
energy cost, a value and a list of the task ids it depends on. The server
answers three kinds of question about those tasks:

- **Dependency graph** (`server/algorithms/graph.ts`): does the graph have
  a cycle, would adding a dependency create one, which tasks depend
  transitively on a given task, and a dependency-first topological order.
- **Scheduler** (`server/algorithms/scheduler.ts`): which incomplete tasks
  to do within a time budget and an energy budget. There are two
  schedulers: a greedy one by value per minute, and a dynamic-programming
  (knapsack) table over the tasks taken in dependency order. A dispatcher
  chooses between them by the number of incomplete tasks.
- **Security health** (`server/algorithms/security.ts`): a 0..100 score
  from the user's habits, with messages and badges, and a second list of
  advice drawn from the task list.

The tasks live in an in-memory store (`MemStorage` in
`server/storage.ts`). It keeps one JavaScript `Map` per record kind and
starts with four sample tasks and one security metric.

The model has these modules:

- `Schema`: the records of `shared/schema.ts` and their validity ranges.
- `OrderedMap`: a JavaScript `Map`, modelled as an insertion-ordered list
  of key/value entries.
- `Sorting`: a stable sort by an integer key.
- `SampleData`: the store's sample tasks.
- `Storage`: the store itself, as a class whose fields are its tables.
- `Graph`, `SchedulingOrder`, `Knapsack`, `Scheduler`, `Security`: the
  algorithms.

Where the source works step by step, the model does too:

- **Recursive closures** (`dfs`, `findDependents`, both `visit`s) become
  recursive methods. Each has pre- and postconditions and a `decreases`
  clause, and takes and hands back the sets the closure captures.
- **Loops** become `while` loops with invariants: the adjacency-map build,
  the greedy rounds and the first-fit scan, the DP table fill, the sample
  `forEach`, and the sort.

Each method is proved against a ghost specification: `Cyclic`, `Reaches`,
`TopologicallyOrdered`, the DP cell function `Cell`, and the first-fit
step `GreedyStep`. Pure computations are functions with lemmas.

Two behaviours of the code are worth stating, because a reading of its
prose alone suggests otherwise:

- In `hasCycle`, a dependency id that names no task gets an adjacency
  entry of its own. Its edges lead out of it, to the tasks that list it,
  and no edge leads into it: it is a source, not a sink. It still lies
  on no cycle (`Graph.UnknownIdOnNoCycle`). The model follows the code.
- The "no recommendations" fallback of `calculateSecurityHealth` is
  modelled but unreachable. A score below 90 needs a deduction, and every
  deduction pushes a message (`Security.CalculateSecurityHealth`).

## Model

| member | source | states |
|---|---|---|
| Schema.Ids | shared/schema.ts:7-18 | The set of ids contains every task's id. |
| Schema.Find | server/algorithms/scheduler.ts:13 | `find` by id: none exactly when no task has the id; otherwise the first task that has it. |
| Schema.FindIndex | server/algorithms/scheduler.ts:142 | `findIndex` by id: -1 exactly when the id is absent; otherwise the first position that has it. |
| Schema.Incomplete | server/algorithms/scheduler.ts:99 | The filter `!t.completed`: a task is in it exactly when it is in the list and not completed. |
| Schema.IdsCard | shared/schema.ts:7-8 | A list has at most as many distinct ids as entries, with equality exactly when the ids are unique. |
| Schema.IncompleteUnique | server/algorithms/scheduler.ts:99 | Filtering a list with unique ids keeps the ids unique. |
| Schema.SumsNonNegative | server/algorithms/scheduler.ts:72-74 | The totals of valid tasks are not negative. |
| OrderedMap.IndexOf | server/storage.ts:44-49 | The position of a key in the map: -1 exactly when the key is absent, otherwise its first entry. |
| OrderedMap.Get | server/storage.ts:137 | `Map.get`: some value exactly when the key is present; with unique keys it is that entry's value. |
| OrderedMap.Set | server/storage.ts:147 | `Map.set`: a present key keeps its place and the key order is unchanged; an absent key is appended last; keys stay unique. |
| OrderedMap.Delete | server/storage.ts:161 | `Map.delete`: the remaining keys are the old ones other than the deleted key, and the remaining entries are the old entries without it. |
| OrderedMap.DeleteUnique | server/storage.ts:161 | Deleting keeps the keys unique and shrinks the map by one exactly when the key was present. |
| OrderedMap.GetSet | server/storage.ts:147 | After `set(k, v)`, `get(k)` is `v` and every other key reads what it read before. |
| OrderedMap.GetDelete | server/storage.ts:161 | After `delete(k)`, `get(k)` is none and every other key reads what it read before. |
| OrderedMap.ValuesMembers | server/storage.ts:131 | `Array.from(map.values())` lists exactly the values some key maps to. |
| Sorting.StableSort | server/storage.ts:131-133 | The result is ordered by the key, a permutation of the input, and entries with equal keys keep their relative order. |
| Sorting.InsertAt | server/storage.ts:131-133 | Inserting after the entries with a key not larger keeps the list sorted, adds the entry, and makes it the last one with its key. |
| SampleData.SampleShape | server/storage.ts:64-113 | There are four valid sample tasks, ids "1" to "4"; task 3 depends on task 4, and task 4 is the only completed one. |
| SampleData.SampleAcyclic | server/storage.ts:64-113 | The sample dependency graph has no cycle. |
| SampleData.SampleEdge | server/storage.ts:97 | The only dependency edge among the sample tasks runs from 4 to 3. |
| Storage.NewTask | server/storage.ts:141-147 | The created task has the fresh id and creation time and exactly the client's fields; a validated insert gives a valid task. |
| Storage.ApplyPatch | server/storage.ts:155 | An update keeps the id and creation time, and valid input stays valid. |
| Storage.PatchLaws | server/storage.ts:155 | An empty update is the identity, a full update replaces every client field, and applying an update twice is applying it once. |
| Storage.NewTelemetry | server/storage.ts:206-212 | The created record has the fresh id and creation time and exactly the client's fields (session, task, estimate, actual time, completion). |
| Storage.OfSession | server/storage.ts:200-201 | A record is kept exactly when it is in the table and belongs to the session. |
| Storage.ListedTasks | server/storage.ts:130-138 | Over a well-formed table, the listed tasks have unique ids, an id is listed exactly when it is stored, and `get` agrees with a search by id over the list. |
| Storage.DeleteKeepsKeyed | server/storage.ts:161 | Deleting keeps every task stored under its own id. |
| Storage.MemStorage.constructor | server/storage.ts:51-127 | The store starts with the four sample tasks in order and one metric (score 95, 8 tasks, 1 late night, 0 exposures); its other tables are empty. |
| Storage.MemStorage.PutAll | server/storage.ts:115 | Setting tasks with new, distinct ids appends them in order and changes no other table. |
| Storage.MemStorage.GetTask | server/storage.ts:136-138 | Some task exactly when the id is stored; it is one of the listed tasks and carries that id. |
| Storage.MemStorage.GetTasks | server/storage.ts:130-134 | Every stored task exactly once, newest first, with ties in insertion order; a task is listed exactly when looking up its id returns it. |
| Storage.MemStorage.CreateTask | server/storage.ts:140-149 | The new task is stored under its id and every other id keeps its task; a new id goes last; the other tables are unchanged. |
| Storage.MemStorage.UpdateTask | server/storage.ts:151-158 | An unknown id gives none and changes nothing; otherwise the patched task replaces the stored one in place, and every other id keeps its task. |
| Storage.MemStorage.DeleteTask | server/storage.ts:160-162 | The result is whether the id was stored; afterwards it is not, the other entries keep their tasks and order, and the size drops by one exactly when it existed. |
| Storage.MemStorage.GetSessionTelemetry | server/storage.ts:199-203 | Exactly the session's records, oldest first, with ties in insertion order. |
| Storage.MemStorage.CreateSessionTelemetry | server/storage.ts:205-214 | The new record is stored under its id, a new id goes last, and the other tables are unchanged. |
| Graph.Nodes | server/algorithms/graph.ts:14-25 | Every task id and every dependency id is a node. |
| Graph.EdgeInNodes | server/algorithms/graph.ts:14-25 | Both ends of every edge are nodes. |
| Graph.SelfDependencyIsCycle | server/algorithms/graph.ts:18-23 | A task that depends on itself makes the graph cyclic. |
| Graph.UnknownIdOnNoCycle | server/algorithms/graph.ts:18-23 | An id that names no task lies on no cycle. |
| Graph.SameEdgesCyclic | server/algorithms/graph.ts:12-25 | An adjacency map with the same edges as the task list is cyclic exactly when the task list is. |
| Graph.BuildGraph | server/algorithms/graph.ts:12-25 | The adjacency map has a key for every node, every neighbour is a key, and its edges are exactly the dependency edges. |
| Graph.RankedAcyclic | server/algorithms/graph.ts:30-56 | A graph with a rank that strictly decreases along every edge has no cycle. |
| Graph.Dfs | server/algorithms/graph.ts:30-56 | A true result means the graph has a cycle; a false result means the node is finished and ranked below all its successors. |
| Graph.SearchAll | server/algorithms/graph.ts:58-65 | Running the search from every key finds a cycle exactly when the graph has one. |
| Graph.HasCycle | server/algorithms/graph.ts:10-68 | The result is true exactly when the dependency graph has a directed cycle. |
| Graph.WithExtraDependency | server/algorithms/graph.ts:79-87 | Every task with the given id gets the extra dependency, and every other task is unchanged. |
| Graph.ExtraDependencyEdges | server/algorithms/graph.ts:79-87 | The extended list has the old edges plus depId to taskId, the latter only when a task has taskId. |
| Graph.ExtraDependencyCyclic | server/algorithms/graph.ts:73-90 | The extended graph is cyclic exactly when the old one was, or taskId names a task and either equals depId or already reaches it. |
| Graph.WouldCreateCycle | server/algorithms/graph.ts:73-90 | The result is true exactly when the graph is already cyclic, or taskId names a task that is depId or reaches it. |
| Graph.FilterIds | server/algorithms/graph.ts:108 | A task is kept exactly when it is in the list and its id is in the set. |
| Graph.FindDependents | server/algorithms/graph.ts:98-105 | The dependent set only grows, holds only ids reachable from the root, and is closed under edges from the ids it added. |
| Graph.ClosedContainsPath | server/algorithms/graph.ts:98-105 | A set closed under edges from the root contains the end of every path from the root. |
| Graph.GetDependentTasks | server/algorithms/graph.ts:95-109 | The result is the tasks, in list order, whose ids transitively depend on taskId. |
| Graph.DependentsClosed | server/algorithms/graph.ts:95-109 | A task that depends on a dependent is itself a dependent. |
| Graph.DirectDependentsIncluded | server/algorithms/graph.ts:95-109 | Every task that lists taskId directly is a dependent. |
| Graph.AcyclicNotOwnDependent | server/algorithms/graph.ts:95-109 | Without cycles, no task is among its own dependents. |
| Graph.TasksToGraphNodes | server/algorithms/graph.ts:114-122 | One node per task, in order, carrying its id, title, completion, value and dependencies. |
| Graph.GraphNodesSameEdges | server/algorithms/graph.ts:114-122 | The nodes describe exactly the dependency edges of the task list. |
| Graph.TaskMap | server/algorithms/graph.ts:137 | The map's keys are exactly the task ids, and every entry is stored under its own id. |
| Graph.TaskMapUnique | server/algorithms/graph.ts:137 | With unique ids, the map gives back every task. |
| Graph.TempCycle | server/algorithms/graph.ts:139-143 | Meeting a task that is still on the visiting stack means the graph has a cycle. |
| Graph.Visit | server/algorithms/graph.ts:139-158 | Failure means the graph has a cycle; success means the task is visited and the output stays dependency-ordered. |
| Graph.VisitDependencies | server/algorithms/graph.ts:145-153 | Failure means a cycle; success means every dependency of the task has been visited. |
| Graph.SameIdsPermutation | server/algorithms/graph.ts:128-169 | Two lists with unique, equal ids, one drawn from the other, are permutations of each other. |
| Graph.TopologicalSort | server/algorithms/graph.ts:128-169 | None exactly when there is a cycle. Otherwise the result has one entry per id, drawn from the list, each task after its dependencies, and it is a permutation of the list when the ids are unique. |
| SchedulingOrder.FollowedDeps | server/algorithms/scheduler.ts:194-200 | The dependencies visited are exactly those whose first task is incomplete and active. |
| SchedulingOrder.Pruned | server/algorithms/scheduler.ts:194-200 | The walked graph keeps each active task with exactly its followed dependencies. |
| SchedulingOrder.TaskMapWalks | server/algorithms/scheduler.ts:184 | Every followed dependency of a map entry is an edge of the walked graph. |
| SchedulingOrder.Visit | server/algorithms/scheduler.ts:186-203 | The task is visited, and the output stays unique and followed-dependency-first unless the active graph is cyclic. |
| SchedulingOrder.SortFinished | server/algorithms/scheduler.ts:205-210 | Once every active id is visited, the output has each active task once, drawn from the list, and is ordered unless the graph is cyclic. |
| SchedulingOrder.TopologicalSortForScheduling | server/algorithms/scheduler.ts:181-211 | Every active id exactly once and each entry an active task; a permutation when the ids are unique; followed dependencies come first unless the active graph has a cycle. |
| Knapsack.Select | server/algorithms/scheduler.ts:161 | The selection maps each index of the mask to its task, in order. |
| Knapsack.CellIsSound | server/algorithms/scheduler.ts:128-157 | Every cell's mask is an ascending selection whose value is its sum, which fits both budgets and passed the dependency test for each task. |
| Knapsack.CellMonotone | server/algorithms/scheduler.ts:134 | A cell's value never drops as more tasks are considered. |
| Knapsack.CellTieKeepsSkip | server/algorithms/scheduler.ts:146-152 | Taking a task needs a strict gain; on a tie, the cell keeps the skip option. |
| Knapsack.CellOptimal | server/algorithms/scheduler.ts:86-93 | With no dependencies, no selection that fits the budgets is worth more than the cell. |
| Knapsack.DepsClosedTasks | server/algorithms/scheduler.ts:141-144 | Every dependency of a selected task is not an active task, or is completed, or was selected earlier. |
| Knapsack.SelectUnique | server/algorithms/scheduler.ts:161 | Distinct indices into a list with unique ids select unique ids. |
| Knapsack.DpMissesOptimum | server/algorithms/scheduler.ts:86-93 | With dependencies, a three-task list exists where the table keeps value 51 although a dependency-respecting selection worth 101 fits. |
| Knapsack.FillTable | server/algorithms/scheduler.ts:121-157 | After the fill loop, every cell of the last row equals its specification `Cell`. |
| Knapsack.FillRow | server/algorithms/scheduler.ts:131-156 | One row of the table is filled and the other rows are unchanged. |
| Knapsack.SolveTable | server/algorithms/scheduler.ts:121-165 | The selection is the final cell's own mask mapped to tasks, and the value is that cell's; it fits both budgets and its totals are its sums; its ids are unique, it holds incomplete tasks, and prerequisites come first; it is optimal when there are no dependencies. |
| Knapsack.ScheduleKnapsackDP | server/algorithms/scheduler.ts:94-175 | None exactly where the code throws (a negative budget, or repeated active ids). No active tasks gives the empty result. The pre-ordering holds every active id once, dependencies first when the active graph is acyclic. On success with active tasks it is a permutation of the active tasks, and the selection is the final cell's mask over it, with the cell's value. The other guarantees are the table's. |
| Scheduler.CanScheduleTask | server/algorithms/scheduler.ts:6-16 | True exactly when every dependency id names a task, and the first such task is completed or already selected. |
| Scheduler.CanScheduleUnique | server/algorithms/scheduler.ts:12-15 | With unique ids, "the first task with the id" is just "the task with the id". |
| Scheduler.UnknownDependencyBlocks | server/algorithms/scheduler.ts:13-14 | A dependency on an id that names no task blocks the task. |
| Scheduler.GetSchedulableTasks | server/algorithms/scheduler.ts:21-25 | A task is schedulable exactly when it is in the list, incomplete, not selected, and its dependencies are met. |
| Scheduler.DenserIsRatio | server/algorithms/scheduler.ts:53-57 | The cross-multiplied comparison orders tasks exactly as value over duration does. |
| Scheduler.DenserTrans | server/algorithms/scheduler.ts:53-57 | The density order is transitive. |
| Scheduler.PickFirstFit | server/algorithms/scheduler.ts:53-69 | -1 exactly when no candidate fits. Otherwise, the fitting candidate that comes first in a stable sort by density. |
| Scheduler.GreedyTraceSafe | server/algorithms/scheduler.ts:46-70 | Every greedy pick is an incomplete task of the list, new, and has its dependencies met by earlier picks. |
| Scheduler.SelectionBound | server/algorithms/scheduler.ts:46-70 | A selection of distinct incomplete tasks is no longer than the incomplete tasks. |
| Scheduler.ScheduleGreedy | server/algorithms/scheduler.ts:34-84 | Budgets, selection and stopping rule (itemized after this table). |
| Scheduler.GreedyPrerequisitesFirst | server/algorithms/scheduler.ts:32 | The greedy's dependency check gives the same prerequisites-first guarantee as the table. |
| Scheduler.ScheduleOptimal | server/algorithms/scheduler.ts:216-230 | The table for at most 40 incomplete tasks, the greedy beyond. With the table, the pre-ordering holds every active id once and dependencies first when acyclic, the selection is the final cell's mask over it, and nothing fitting is worth more when there are no dependencies. With the greedy, every round is the first-fit pick among the schedulable tasks, and when it stops no schedulable task fits what is left. Either way the totals are sums, the budgets hold, ids are unique and prerequisites come first. |
| Security.ToLower | server/algorithms/security.ts:17 | Same length, each ASCII letter lowered. |
| Security.Contains | server/algorithms/security.ts:17 | `includes`: true exactly when the pattern occurs at some offset. |
| Security.NatToStringRoundTrip | server/algorithms/security.ts:58 | Reading back the decimal digits of a count gives the count. |
| Security.Count | server/algorithms/security.ts:16-19 | `filter(p).length`: at most the length, and positive exactly when some element passes. |
| Security.CountMono | server/algorithms/security.ts:19 | A stronger predicate counts fewer elements. |
| Security.CountLateNight | server/algorithms/security.ts:23-26 | Positive exactly when some session starts after 11 PM or before 6 AM local time. |
| Security.Observe | server/algorithms/security.ts:15-29 | The completed security tasks never exceed the security tasks. |
| Security.TextInjective | server/algorithms/security.ts:37-143 | Different messages have different wordings. |
| Security.Deductions | server/algorithms/security.ts:35-59 | Between 0 and 50, and 0 exactly when no risky habit applies. |
| Security.Bonuses | server/algorithms/security.ts:62-68 | Between 0 and 2, and 2 exactly when both good habits apply. |
| Security.ScoreRange | server/algorithms/security.ts:62-71 | The score lies in 50..100, is 100 with no deductions, and is below 90 only with some deduction. |
| Security.DeductionMessages | server/algorithms/security.ts:35-59 | Each message is present exactly when its deduction applies, and the list is empty exactly when nothing is deducted. |
| Security.Badges | server/algorithms/security.ts:79-100 | The four badges in order, each earned exactly under its rule. |
| Security.ApplyDeductions | server/algorithms/security.ts:11-59 | The score is 100 less the deductions; the messages are the deduction messages. |
| Security.ApplyBonuses | server/algorithms/security.ts:61-71 | The score gains five per bonus, is capped at 100, and is clamped to 0..100. |
| Security.CalculateSecurityHealth | server/algorithms/security.ts:7-114 | Score, messages, badges and activity counts (itemized after this table). |
| Security.CountOverdueHighValue | server/algorithms/security.ts:129-135 | Positive exactly when some incomplete task worth 80 or more is past its due date. |
| Security.GetSecurityRecommendations | server/algorithms/security.ts:119-147 | At most three messages, each present exactly when its rule fires, in rule order. |

`Scheduler.ScheduleGreedy` states:

- the totals are the sums of the selection, and fit each budget that is
  not negative;
- every pick is the first fit among the tasks schedulable at that round;
- when the loop ends, no schedulable task fits what is left;
- the ids are unique, and every pick is incomplete and has its
  dependencies completed or picked earlier.

`Security.CalculateSecurityHealth` states:

- the score is 100 less the deductions plus five per bonus, capped at 100,
  and lies in 50..100;
- the excellence message is first exactly when the score is 90 or more;
- the list is never empty, and the fallback message never appears;
- the badges are the four badges from the counts;
- the activity counts are the counts, with the security tasks completed
  at most all tasks completed.

## Left out

- HTTP routes, the client, analytics, sessions other than the telemetry
  table, and the `IStorage` interface are outside the model. So are the
  focus-session, security-metric and user operations of `MemStorage`;
  their tables are fields of the class, and only the constructor writes
  `securityMetrics`.
- Promises and `async` are dropped: every storage operation completes
  synchronously.
- `randomUUID()` and `new Date()` are parameters (`id`, `now`, `metricId`).
  `new Date(s.startedAt).getHours()` is a parameter `localHour`, since the
  local time zone is outside the model.
- Timestamps are integers (milliseconds since the epoch); the sample
  dates are midnight UTC.
- The `explanation` strings of the schedulers are not modelled; the
  `algorithm` tag is the `Algorithm` datatype.
- Recommendation strings are the `Advice` datatype, with `Text` giving each
  wording; the counted messages print the count in decimal.
- `toLowerCase` lowers only ASCII letters; other Unicode case mappings are
  not modelled.
- Floating-point division is replaced by cross-multiplication: the
  value/duration ratio of the greedy, the security-task ratio, and the
  high-energy share.
- `Math.round` of the score is the identity, because the score is always an
  integer.
- `Array.prototype.sort` is modelled by a stable insertion sort, which is
  what the engine's stable sort guarantees. The greedy's sort-then-first-fit
  is modelled by one scan that picks the fitting candidate the stable sort
  would put first.
- The JavaScript `Map` is an insertion-ordered list of entries; `Set` of
  indices in the table is an ascending sequence, which is its iteration
  order there.
- Knapsack.ScheduleKnapsackDP: optimality is proved only when no active
  task has dependencies. `Knapsack.DpMissesOptimum` shows that the doc
  comment's optimality claim fails with them.
- Knapsack.ScheduleKnapsackDP returns None where the code throws: a
  negative budget with an active task (there is no cell `dp[n][T][E]`),
  or repeated active ids (the pre-ordering is shorter than `n`).
- Numbers are modelled as Dafny integers: task fields, timestamps and
  budgets. The source accepts fractional values. The insert schema's
  `z.number()` bounds allow 1.5, and the budgets reach the schedulers
  unchecked. With a fractional time budget the DP table has no cell
  `dp[n][T][E]`, so reading its mask throws. The model does not capture
  that failure or fractional durations in the greedy.
- Every task field is assumed present. The insert schema comes from
  columns with defaults (`dependsOn`, `completed`, and the numbers), and
  a client may omit those fields. A task stored without `dependsOn` would
  make the graph and scheduler code throw when it reads
  `task.dependsOn`. The model's `InsertTask` is total, so it does not
  capture a created task with a missing field.
- Scheduler.ScheduleGreedy, Scheduler.ScheduleOptimal,
  Knapsack.ScheduleKnapsackDP and Knapsack.SolveTable require valid tasks
  (positive durations, values and energy within the schema's bounds).
  Every create and update is parsed through the insert schema
  (server/routes.ts:46, :74; shared/schema.ts:24-26), and the density
  comparison depends on it.
- Storage.MemStorage.UpdateTask: a patch field is either absent or a
  value. A key explicitly set to `undefined`, which the spread would copy,
  is not modelled.
