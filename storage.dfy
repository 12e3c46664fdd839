/** The in-memory store of server/storage.ts (MemStorage): one JavaScript
    Map per record kind, changed in place by the write operations. Fresh
    ids (randomUUID) and the current time (new Date()) are parameters. */
module Storage {
  import opened Schema
  import opened OrderedMap
  import opened Sorting
  import opened SampleData

  /** The fields a client supplies for a telemetry record. */
  datatype InsertSessionTelemetry = InsertSessionTelemetry(
    sessionId: string,
    taskId: string,
    estimatedMinutes: int,
    actualSeconds: int,
    completedInSession: bool)

  // ---------------------------------------------------------------------------
  // Records built from client input

  /** { ...insertTask, id, createdAt }. */
  function NewTask(t: InsertTask, id: string, createdAt: int): (r: Task)
    ensures r.id == id && r.createdAt == createdAt && ToInsert(r) == t
    ensures ValidInsert(t) ==> ValidTask(r)
  {
    Task(id, t.title, t.notes, t.dueDate, t.durationMinutes, t.energyCost, t.value,
         t.dependsOn, t.completed, createdAt)
  }

  /** The client-supplied fields of a task. */
  function ToInsert(t: Task): InsertTask {
    InsertTask(t.title, t.notes, t.dueDate, t.durationMinutes, t.energyCost, t.value,
               t.dependsOn, t.completed)
  }

  function Pick<X>(o: Option<X>, current: X): X {
    if o.Some? then o.value else current
  }

  /** { ...task, ...updates }: a supplied field replaces the stored one. */
  function ApplyPatch(t: Task, p: TaskPatch): (r: Task)
    ensures r.id == t.id && r.createdAt == t.createdAt
    ensures ValidTask(t) && ValidPatch(p) ==> ValidTask(r)
  {
    Task(t.id, Pick(p.title, t.title), Pick(p.notes, t.notes), Pick(p.dueDate, t.dueDate),
         Pick(p.durationMinutes, t.durationMinutes), Pick(p.energyCost, t.energyCost),
         Pick(p.value, t.value), Pick(p.dependsOn, t.dependsOn), Pick(p.completed, t.completed),
         t.createdAt)
  }

  const EmptyPatch := TaskPatch(None, None, None, None, None, None, None, None)

  /** A patch that supplies every field. */
  function FullPatch(t: InsertTask): TaskPatch {
    TaskPatch(Some(t.title), Some(t.notes), Some(t.dueDate), Some(t.durationMinutes),
              Some(t.energyCost), Some(t.value), Some(t.dependsOn), Some(t.completed))
  }

  /** An update that supplies nothing changes nothing, one that supplies
      everything replaces every client field, and applying the same update
      twice is applying it once. */
  lemma PatchLaws(t: Task, p: TaskPatch, i: InsertTask)
    ensures ApplyPatch(t, EmptyPatch) == t
    ensures ApplyPatch(t, FullPatch(i)) == NewTask(i, t.id, t.createdAt)
    ensures ApplyPatch(ApplyPatch(t, p), p) == ApplyPatch(t, p)
  {
  }

  /** { ...insertTelemetry, id, createdAt }. */
  function NewTelemetry(t: InsertSessionTelemetry, id: string, createdAt: int): (r: SessionTelemetry)
    ensures r.id == id && r.createdAt == createdAt && ToInsertTelemetry(r) == t
  {
    SessionTelemetry(id, t.sessionId, t.taskId, t.estimatedMinutes, t.actualSeconds,
                     t.completedInSession, createdAt)
  }

  /** The client-supplied fields of a telemetry record. */
  function ToInsertTelemetry(t: SessionTelemetry): InsertSessionTelemetry {
    InsertSessionTelemetry(t.sessionId, t.taskId, t.estimatedMinutes, t.actualSeconds, t.completedInSession)
  }

  // ---------------------------------------------------------------------------
  // Read orders and filters

  /** b.createdAt - a.createdAt as a comparator: newest first. */
  function NewestFirst(t: Task): int {
    -t.createdAt
  }

  /** a.createdAt - b.createdAt as a comparator: oldest first. */
  function OldestFirst(t: SessionTelemetry): int {
    t.createdAt
  }

  /** filter(t => t.sessionId === sessionId). */
  function OfSession(s: seq<SessionTelemetry>, sessionId: string): (r: seq<SessionTelemetry>)
    ensures forall x :: x in r <==> x in s && x.sessionId == sessionId
  {
    if |s| == 0 then []
    else if s[0].sessionId == sessionId then [s[0]] + OfSession(s[1..], sessionId)
    else OfSession(s[1..], sessionId)
  }

  // ---------------------------------------------------------------------------
  // The tables

  /** Every task is stored under its own id. */
  predicate TasksKeyed(s: Entries<Task>) {
    forall i :: 0 <= i < |s| ==> s[i].1.id == s[i].0
  }

  /** Every telemetry record is stored under its own id. */
  predicate TelemetryKeyed(s: Entries<SessionTelemetry>) {
    forall i :: 0 <= i < |s| ==> s[i].1.id == s[i].0
  }

  lemma SetKeepsKeyed(s: Entries<Task>, t: Task)
    requires TasksKeyed(s)
    ensures TasksKeyed(Set(s, t.id, t))
  {
  }

  lemma SetKeepsTelemetryKeyed(s: Entries<SessionTelemetry>, t: SessionTelemetry)
    requires TelemetryKeyed(s)
    ensures TelemetryKeyed(Set(s, t.id, t))
  {
  }

  lemma DeleteKeepsKeyed(s: Entries<Task>, id: string)
    requires TasksKeyed(s)
    ensures TasksKeyed(Delete(s, id))
  {
    var r := Delete(s, id);
    forall i | 0 <= i < |r| ensures r[i].1.id == r[i].0 {
      assert r[i] in s;
    }
  }

  /** A task found under a key carries that key as its id. */
  lemma GetKeyed(s: Entries<Task>, k: string)
    requires TasksKeyed(s)
    ensures Get(s, k).Some? ==> Get(s, k).value.id == k
  {
  }

  /** Over a well-formed table, the listed tasks carry unique ids, exactly
      the stored keys, and a lookup by key is a search by id over the list. */
  lemma ListedTasks(s: Entries<Task>, id: string)
    requires UniqueKeys(s) && TasksKeyed(s)
    ensures UniqueIds(ValuesOf(s))
    ensures id in Ids(ValuesOf(s)) <==> Has(s, id)
    ensures Get(s, id) == Find(ValuesOf(s), id)
  {
    var r := ValuesOf(s);
    if id in Ids(r) {
      var i := IdsWitness(r, id);
      assert Keys(s)[i] == id;
    }
    if Has(s, id) {
      var i := IndexOf(s, id);
      FindUnique(r, i);
    }
  }

  class MemStorage {
    var tasks: Entries<Task>
    var focusSessions: Entries<FocusSession>
    var sessionTelemetry: Entries<SessionTelemetry>
    var securityMetrics: Entries<SecurityMetric>
    var users: Entries<User>

    /** Each table holds each key once, and its records under their own ids. */
    ghost predicate Valid()
      reads this
    {
      && UniqueKeys(tasks) && TasksKeyed(tasks)
      && UniqueKeys(sessionTelemetry) && TelemetryKeyed(sessionTelemetry)
    }

    /** Construction: empty maps, then the four sample tasks set in order
        and the initial security metric. */
    constructor (metricId: string, now: int)
      ensures Valid()
      ensures ValuesOf(tasks) == SampleTasks
      ensures focusSessions == [] && sessionTelemetry == [] && users == []
      ensures securityMetrics == [(metricId, SecurityMetric(metricId, now, 95, 8, 1, 0))]
    {
      tasks := [];
      focusSessions := [];
      sessionTelemetry := [];
      securityMetrics := [];
      users := [];
      new;
      SampleIdsUnique();
      PutAll(SampleTasks);
      var initialMetric := SecurityMetric(metricId, now, 95, 8, 1, 0);
      securityMetrics := Set(securityMetrics, initialMetric.id, initialMetric);
    }

    /** tasks.forEach(task => this.tasks.set(task.id, task)) for tasks
        whose ids are distinct and not yet stored: they are listed last, in
        order. */
    method PutAll(ts: seq<Task>)
      requires Valid()
      requires UniqueIds(ts) && forall i :: 0 <= i < |ts| ==> !Has(tasks, ts[i].id)
      modifies this
      ensures Valid()
      ensures ValuesOf(tasks) == ValuesOf(old(tasks)) + ts
      ensures focusSessions == old(focusSessions) && sessionTelemetry == old(sessionTelemetry)
      ensures securityMetrics == old(securityMetrics) && users == old(users)
    {
      var i := 0;
      while i < |ts|
        invariant 0 <= i <= |ts|
        invariant Valid()
        invariant ValuesOf(tasks) == ValuesOf(old(tasks)) + ts[..i]
        invariant forall j :: i <= j < |ts| ==> !Has(tasks, ts[j].id)
        invariant focusSessions == old(focusSessions) && sessionTelemetry == old(sessionTelemetry)
        invariant securityMetrics == old(securityMetrics) && users == old(users)
      {
        var t := ts[i];
        SetKeepsKeyed(tasks, t);
        Snoc(tasks, t.id, t);
        tasks := Set(tasks, t.id, t);
        TakeOneMore(ts, i);
        i := i + 1;
      }
      TakeAll(ts);
    }

    /** getTask: the stored task, or none. */
    function GetTask(id: string): (r: Option<Task>)
      reads this
      ensures r.Some? <==> Has(tasks, id)
      ensures r.Some? ==> r.value in ValuesOf(tasks)
      ensures Valid() && r.Some? ==> r.value.id == id
    {
      Get(tasks, id)
    }

    /** getTasks: every stored task once, newest first; tasks created at the
        same moment stay in insertion order. */
    method GetTasks() returns (r: seq<Task>)
      requires Valid()
      ensures forall i, j :: 0 <= i < j < |r| ==> r[i].createdAt >= r[j].createdAt
      ensures multiset(r) == multiset(ValuesOf(tasks))
      ensures SameOrderPerKey(r, ValuesOf(tasks), NewestFirst)
      ensures |r| == |tasks|
      ensures forall t :: t in r <==> GetTask(t.id) == Some(t)
    {
      var all := ValuesOf(tasks);
      r := StableSort(all, NewestFirst);
      assert forall i, j :: 0 <= i < j < |r| ==> NewestFirst(r[i]) <= NewestFirst(r[j]);
      assert |r| == |multiset(r)| == |multiset(all)| == |all|;
      forall t ensures t in r <==> GetTask(t.id) == Some(t) {
        assert t in r <==> t in all by {
          assert t in multiset(r) <==> t in multiset(all);
        }
        ValuesMembers(tasks, t);
        if t in all {
          var k :| Get(tasks, k) == Some(t);
          GetKeyed(tasks, k);
        }
      }
    }

    /** createTask: the new task is stored under its id, with the given
        fields and creation time; every other id keeps its task. */
    method CreateTask(insertTask: InsertTask, id: string, now: int) returns (task: Task)
      requires Valid()
      modifies this
      ensures Valid()
      ensures task == NewTask(insertTask, id, now)
      ensures tasks == Set(old(tasks), id, task)
      ensures forall x :: GetTask(x) == if x == id then Some(task) else old(GetTask(x))
      ensures !Has(old(tasks), id) ==> ValuesOf(tasks) == ValuesOf(old(tasks)) + [task]
      ensures focusSessions == old(focusSessions) && sessionTelemetry == old(sessionTelemetry)
      ensures securityMetrics == old(securityMetrics) && users == old(users)
    {
      task := NewTask(insertTask, id, now);
      SetKeepsKeyed(tasks, task);
      Snoc(tasks, id, task);
      forall x ensures Get(Set(tasks, id, task), x) == if x == id then Some(task) else Get(tasks, x) {
        GetSet(tasks, id, task, x);
      }
      tasks := Set(tasks, id, task);
    }

    /** updateTask: none, and nothing changes, for an id that is not
        stored; otherwise the patched task replaces the stored one in its
        place and every other id keeps its task. */
    method UpdateTask(id: string, updates: TaskPatch) returns (r: Option<Task>)
      requires Valid()
      modifies this
      ensures Valid()
      ensures !Has(old(tasks), id) ==> r == None && tasks == old(tasks)
      ensures Has(old(tasks), id) ==> r == Some(ApplyPatch(old(GetTask(id)).value, updates))
      ensures forall x :: GetTask(x) == if x == id then r else old(GetTask(x))
      ensures Keys(tasks) == Keys(old(tasks))
      ensures focusSessions == old(focusSessions) && sessionTelemetry == old(sessionTelemetry)
      ensures securityMetrics == old(securityMetrics) && users == old(users)
    {
      var task := GetTask(id);
      if task.None? {
        return None;
      }
      var updatedTask := ApplyPatch(task.value, updates);
      SetKeepsKeyed(tasks, updatedTask);
      forall x ensures Get(Set(tasks, id, updatedTask), x) == if x == id then Some(updatedTask) else Get(tasks, x) {
        GetSet(tasks, id, updatedTask, x);
      }
      tasks := Set(tasks, id, updatedTask);
      r := Some(updatedTask);
    }

    /** deleteTask: whether the id was stored; afterwards it is not, and
        every other id keeps its task and its place. */
    method DeleteTask(id: string) returns (existed: bool)
      requires Valid()
      modifies this
      ensures Valid()
      ensures existed <==> Has(old(tasks), id)
      ensures tasks == Delete(old(tasks), id)
      ensures forall x :: GetTask(x) == if x == id then None else old(GetTask(x))
      ensures |tasks| == if existed then |old(tasks)| - 1 else |old(tasks)|
      ensures focusSessions == old(focusSessions) && sessionTelemetry == old(sessionTelemetry)
      ensures securityMetrics == old(securityMetrics) && users == old(users)
    {
      existed := Has(tasks, id);
      DeleteUnique(tasks, id);
      DeleteKeepsKeyed(tasks, id);
      forall x ensures Get(Delete(tasks, id), x) == if x == id then None else Get(tasks, x) {
        GetDelete(tasks, id, x);
      }
      tasks := Delete(tasks, id);
    }

    /** getSessionTelemetry: exactly the records of the session, oldest
        first; records created at the same moment stay in insertion order. */
    method GetSessionTelemetry(sessionId: string) returns (r: seq<SessionTelemetry>)
      requires Valid()
      ensures forall x :: x in r <==> x in ValuesOf(sessionTelemetry) && x.sessionId == sessionId
      ensures forall i, j :: 0 <= i < j < |r| ==> r[i].createdAt <= r[j].createdAt
      ensures multiset(r) == multiset(OfSession(ValuesOf(sessionTelemetry), sessionId))
      ensures SameOrderPerKey(r, OfSession(ValuesOf(sessionTelemetry), sessionId), OldestFirst)
    {
      var matching := OfSession(ValuesOf(sessionTelemetry), sessionId);
      r := StableSort(matching, OldestFirst);
      forall x ensures x in r <==> x in matching {
        assert x in multiset(r) <==> x in multiset(matching);
      }
    }

    /** createSessionTelemetry: the new record is stored under its id. */
    method CreateSessionTelemetry(insertTelemetry: InsertSessionTelemetry, id: string, now: int)
        returns (telemetry: SessionTelemetry)
      requires Valid()
      modifies this
      ensures Valid()
      ensures telemetry == NewTelemetry(insertTelemetry, id, now)
      ensures sessionTelemetry == Set(old(sessionTelemetry), id, telemetry)
      ensures !Has(old(sessionTelemetry), id) ==> ValuesOf(sessionTelemetry) == ValuesOf(old(sessionTelemetry)) + [telemetry]
      ensures tasks == old(tasks) && focusSessions == old(focusSessions)
      ensures securityMetrics == old(securityMetrics) && users == old(users)
    {
      telemetry := NewTelemetry(insertTelemetry, id, now);
      SetKeepsTelemetryKeyed(sessionTelemetry, telemetry);
      Snoc(sessionTelemetry, id, telemetry);
      sessionTelemetry := Set(sessionTelemetry, id, telemetry);
    }
  }
}
