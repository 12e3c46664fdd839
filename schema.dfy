/** Record shapes shared by the server (shared/schema.ts), and the small
    sequence helpers every other module uses. Timestamps are milliseconds
    since the epoch; a nullable column is an Option. */
module Schema {

  datatype Option<T> = None | Some(value: T)

  /** A stored task row. */
  datatype Task = Task(
    id: string,
    title: string,
    notes: Option<string>,
    dueDate: Option<int>,
    durationMinutes: int,
    energyCost: int,
    value: int,
    dependsOn: seq<string>,
    completed: bool,
    createdAt: int)

  /** The fields a client supplies when it creates a task (the insert schema:
      everything except id and createdAt). */
  datatype InsertTask = InsertTask(
    title: string,
    notes: Option<string>,
    dueDate: Option<int>,
    durationMinutes: int,
    energyCost: int,
    value: int,
    dependsOn: seq<string>,
    completed: bool)

  /** A partial insert record: the fields an update supplies. */
  datatype TaskPatch = TaskPatch(
    title: Option<string>,
    notes: Option<Option<string>>,
    dueDate: Option<Option<int>>,
    durationMinutes: Option<int>,
    energyCost: Option<int>,
    value: Option<int>,
    dependsOn: Option<seq<string>>,
    completed: Option<bool>)

  datatype FocusSession = FocusSession(
    id: string,
    startedAt: int,
    endedAt: Option<int>,
    totalDuration: int,
    tasksCompleted: int,
    interruptions: int,
    pauseCount: int,
    taskIds: seq<string>)

  datatype SessionTelemetry = SessionTelemetry(
    id: string,
    sessionId: string,
    taskId: string,
    estimatedMinutes: int,
    actualSeconds: int,
    completedInSession: bool,
    createdAt: int)

  datatype SecurityMetric = SecurityMetric(
    id: string,
    date: int,
    healthScore: int,
    securityTasksCompleted: int,
    lateNightWorkSessions: int,
    sensitiveDataExposures: int)

  datatype User = User(id: string, username: string, password: string)

  datatype Algorithm = Greedy | KnapsackDP

  /** What a scheduler returns (the explanation text is not modelled). */
  datatype ScheduleResult = ScheduleResult(
    selectedTasks: seq<Task>,
    totalDuration: int,
    totalEnergy: int,
    totalValue: int,
    algorithm: Algorithm)

  /** The bounds the insert schema enforces on every stored task. */
  predicate ValidTask(t: Task) {
    && 1 <= t.durationMinutes <= 480
    && 1 <= t.energyCost <= 5
    && 1 <= t.value <= 100
  }

  /** The same bounds on the fields a client supplies. */
  predicate ValidInsert(t: InsertTask) {
    && 1 <= t.durationMinutes <= 480
    && 1 <= t.energyCost <= 5
    && 1 <= t.value <= 100
  }

  /** A partial insert record meets the bounds on each field it supplies. */
  predicate ValidPatch(p: TaskPatch) {
    && (p.durationMinutes.Some? ==> 1 <= p.durationMinutes.value <= 480)
    && (p.energyCost.Some? ==> 1 <= p.energyCost.value <= 5)
    && (p.value.Some? ==> 1 <= p.value.value <= 100)
  }

  predicate AllValid(tasks: seq<Task>) {
    forall i :: 0 <= i < |tasks| ==> ValidTask(tasks[i])
  }

  predicate UniqueIds(tasks: seq<Task>) {
    forall i, j :: 0 <= i < j < |tasks| ==> tasks[i].id != tasks[j].id
  }

  /** The set of ids carried by a task list. */
  function Ids(tasks: seq<Task>): (r: set<string>)
    ensures forall i :: 0 <= i < |tasks| ==> tasks[i].id in r
  {
    if |tasks| == 0 then {}
    else Ids(tasks[..|tasks| - 1]) + {tasks[|tasks| - 1].id}
  }

  /** Every id in the set comes from some task. */
  lemma {:induction false} IdsWitness(tasks: seq<Task>, x: string) returns (i: int)
    requires x in Ids(tasks)
    ensures 0 <= i < |tasks| && tasks[i].id == x
    decreases |tasks|
  {
    var n := |tasks| - 1;
    if tasks[n].id == x {
      i := n;
    } else {
      i := IdsWitness(tasks[..n], x);
      assert tasks[..n][i] == tasks[i];
    }
  }

  lemma IdsSnoc(s: seq<Task>, t: Task)
    ensures Ids(s + [t]) == Ids(s) + {t.id}
  {
    assert (s + [t])[..|s|] == s;
  }

  lemma {:induction false} IdsCons(tasks: seq<Task>)
    requires |tasks| > 0
    ensures Ids(tasks) == {tasks[0].id} + Ids(tasks[1..])
    decreases |tasks|
  {
    var n := |tasks| - 1;
    if n > 0 {
      IdsCons(tasks[..n]);
      assert tasks[..n][1..] == tasks[1..][..n - 1];
      assert tasks[..n][0] == tasks[0];
      assert tasks[1..][n - 1] == tasks[n];
    }
  }

  /** Array.prototype.find on the id: the first task carrying `id`. */
  function Find(tasks: seq<Task>, id: string): (r: Option<Task>)
    ensures r.None? <==> id !in Ids(tasks)
    ensures r.Some? ==> r.value in tasks && r.value.id == id
    ensures r.Some? ==> exists i :: 0 <= i < |tasks| && tasks[i] == r.value
                                 && forall j :: 0 <= j < i ==> tasks[j].id != id
  {
    if |tasks| == 0 then None
    else if tasks[0].id == id then Some(tasks[0])
    else
      var r := Find(tasks[1..], id);
      assert r.Some? ==> exists i :: 1 <= i < |tasks| && tasks[i] == r.value
                                  && forall j :: 1 <= j < i ==> tasks[j].id != id by {
        if r.Some? {
          var i :| 0 <= i < |tasks[1..]| && tasks[1..][i] == r.value
                   && forall j :: 0 <= j < i ==> tasks[1..][j].id != id;
          assert tasks[i + 1] == r.value;
          assert forall j :: 1 <= j < i + 1 ==> tasks[j].id != id by {
            forall j | 1 <= j < i + 1 ensures tasks[j].id != id {
              assert tasks[j] == tasks[1..][j - 1];
            }
          }
        }
      }
      IdsCons(tasks);
      r
  }

  /** With unique ids, the first match is the only match. */
  lemma FindUnique(tasks: seq<Task>, i: int)
    requires UniqueIds(tasks) && 0 <= i < |tasks|
    ensures Find(tasks, tasks[i].id) == Some(tasks[i])
  {
    var r := Find(tasks, tasks[i].id);
    var k :| 0 <= k < |tasks| && tasks[k] == r.value
             && forall j :: 0 <= j < k ==> tasks[j].id != tasks[i].id;
  }

  /** Array.prototype.findIndex on the id: the first index carrying `id`, or -1. */
  function FindIndex(tasks: seq<Task>, id: string): (k: int)
    ensures -1 <= k < |tasks|
    ensures k == -1 <==> id !in Ids(tasks)
    ensures k >= 0 ==> tasks[k].id == id && forall j :: 0 <= j < k ==> tasks[j].id != id
  {
    if |tasks| == 0 then -1
    else if tasks[0].id == id then 0
    else
      var k := FindIndex(tasks[1..], id);
      IdsCons(tasks);
      if k == -1 then -1 else k + 1
  }

  /** Array.prototype.filter keeping the incomplete tasks. */
  function Incomplete(tasks: seq<Task>): (r: seq<Task>)
    ensures |r| <= |tasks|
    ensures forall t :: t in r <==> t in tasks && !t.completed
  {
    if |tasks| == 0 then []
    else if tasks[0].completed then Incomplete(tasks[1..])
    else [tasks[0]] + Incomplete(tasks[1..])
  }

  /** A filter keeps away an id its input does not carry. */
  lemma {:induction false} IncompleteAvoids(tasks: seq<Task>, x: string)
    requires forall i :: 0 <= i < |tasks| ==> tasks[i].id != x
    ensures forall i :: 0 <= i < |Incomplete(tasks)| ==> Incomplete(tasks)[i].id != x
  {
    if |tasks| > 0 {
      IncompleteAvoids(tasks[1..], x);
    }
  }

  /** A filter keeps unique ids unique. */
  lemma {:induction false} IncompleteUnique(tasks: seq<Task>)
    requires UniqueIds(tasks)
    ensures UniqueIds(Incomplete(tasks))
  {
    if |tasks| > 0 {
      var rest := tasks[1..];
      assert UniqueIds(rest) by {
        forall i, j | 0 <= i < j < |rest| ensures rest[i].id != rest[j].id {
          assert rest[i] == tasks[i + 1] && rest[j] == tasks[j + 1];
        }
      }
      IncompleteUnique(rest);
      assert forall i :: 0 <= i < |rest| ==> rest[i].id != tasks[0].id by {
        forall i | 0 <= i < |rest| ensures rest[i].id != tasks[0].id {
          assert rest[i] == tasks[i + 1];
        }
      }
      IncompleteAvoids(rest, tasks[0].id);
    }
  }

  /** An id no entry carries is not among the ids. */
  lemma {:induction false} IdsExclude(s: seq<Task>, x: string)
    requires forall j :: 0 <= j < |s| ==> s[j].id != x
    ensures x !in Ids(s)
    decreases |s|
  {
    if |s| > 0 {
      IdsExclude(s[..|s| - 1], x);
    }
  }

  /** A list has unique ids exactly when its last id is new and the rest
      has unique ids. */
  lemma UniqueSnoc(s: seq<Task>)
    requires |s| > 0
    ensures UniqueIds(s) <==> UniqueIds(s[..|s| - 1]) && s[|s| - 1].id !in Ids(s[..|s| - 1])
  {
    var n := |s| - 1;
    var p := s[..n];
    if UniqueIds(s) {
      forall a, b | 0 <= a < b < n ensures p[a].id != p[b].id {
        assert p[a] == s[a] && p[b] == s[b];
      }
      IdsExclude(p, s[n].id);
    }
    if UniqueIds(p) && s[n].id !in Ids(p) {
      forall a, b | 0 <= a < b < |s| ensures s[a].id != s[b].id {
        assert s[a] == p[a];
        if b < n { assert s[b] == p[b]; }
      }
    }
  }

  /** A list carries at most as many ids as it has entries, and exactly as
      many when its ids are unique. */
  lemma {:induction false} IdsCard(s: seq<Task>)
    ensures |Ids(s)| <= |s|
    ensures |Ids(s)| == |s| <==> UniqueIds(s)
    decreases |s|
  {
    if |s| > 0 {
      var n := |s| - 1;
      IdsCard(s[..n]);
      UniqueSnoc(s);
      if s[n].id in Ids(s[..n]) {
        assert Ids(s) == Ids(s[..n]);
      } else {
        assert |Ids(s)| == |Ids(s[..n])| + 1;
      }
    }
  }

  /** The totals `reduce` computes over a selection. */
  function SumDuration(s: seq<Task>): int {
    if |s| == 0 then 0 else SumDuration(s[..|s| - 1]) + s[|s| - 1].durationMinutes
  }

  function SumEnergy(s: seq<Task>): int {
    if |s| == 0 then 0 else SumEnergy(s[..|s| - 1]) + s[|s| - 1].energyCost
  }

  function SumValue(s: seq<Task>): int {
    if |s| == 0 then 0 else SumValue(s[..|s| - 1]) + s[|s| - 1].value
  }

  /** Appending a task adds its duration, energy and value to the totals. */
  lemma SumsSnoc(s: seq<Task>, t: Task)
    ensures SumDuration(s + [t]) == SumDuration(s) + t.durationMinutes
    ensures SumEnergy(s + [t]) == SumEnergy(s) + t.energyCost
    ensures SumValue(s + [t]) == SumValue(s) + t.value
  {
    assert (s + [t])[..|s|] == s;
  }

  /** The totals of valid tasks are never negative. */
  lemma {:induction false} SumsNonNegative(s: seq<Task>)
    requires AllValid(s)
    ensures SumDuration(s) >= 0 && SumEnergy(s) >= 0 && SumValue(s) >= 0
    decreases |s|
  {
    if |s| > 0 {
      var n := |s| - 1;
      assert AllValid(s[..n]) by {
        forall i | 0 <= i < n ensures ValidTask(s[..n][i]) {
          assert s[..n][i] == s[i];
        }
      }
      SumsNonNegative(s[..n]);
    }
  }
}
