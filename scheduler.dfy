/** The budgeted scheduler of server/algorithms/scheduler.ts: the filters
    that decide what may be scheduled, the value-density greedy, and the
    dispatcher that picks the greedy or the knapsack table by the number of
    incomplete tasks. The knapsack table and the order it takes the tasks in
    are the modules Knapsack and SchedulingOrder. */
module Scheduler {
  import opened Schema
  import Knapsack
  import SchedulingOrder


  // ---------------------------------------------------------------------------
  // canScheduleTask, getSchedulableTasks

  /** i is the first index whose task carries id. */
  ghost predicate FirstWith(tasks: seq<Task>, id: string, i: int) {
    0 <= i < |tasks| && tasks[i].id == id && forall j :: 0 <= j < i ==> tasks[j].id != id
  }

  /** The check every dependency must pass: allTasks.find gives a task, and
      it is completed or already selected. */
  predicate DependencyMet(allTasks: seq<Task>, selectedIds: set<string>, depId: string) {
    var depTask := Find(allTasks, depId);
    depTask.Some? && (depTask.value.completed || depId in selectedIds)
  }

  lemma FindIsFirst(tasks: seq<Task>, id: string, i: int)
    requires FirstWith(tasks, id, i)
    ensures Find(tasks, id) == Some(tasks[i])
  {
    var k :| 0 <= k < |tasks| && tasks[k] == Find(tasks, id).value
             && forall j :: 0 <= j < k ==> tasks[j].id != id;
    if k < i {
    } else if i < k {
    }
  }

  /** find's result passes the check exactly when the first task with the
      id does. */
  lemma DependencyMetFirst(allTasks: seq<Task>, selectedIds: set<string>, d: string)
    ensures DependencyMet(allTasks, selectedIds, d) <==>
            exists i :: FirstWith(allTasks, d, i) && (allTasks[i].completed || d in selectedIds)
  {
    var f := Find(allTasks, d);
    if f.Some? {
      var i :| 0 <= i < |allTasks| && allTasks[i] == f.value
               && forall j :: 0 <= j < i ==> allTasks[j].id != d;
      assert FirstWith(allTasks, d, i);
      forall i' | FirstWith(allTasks, d, i') ensures allTasks[i'] == f.value {
        FindIsFirst(allTasks, d, i');
      }
    } else {
      forall i' | FirstWith(allTasks, d, i') ensures false {
        FindIsFirst(allTasks, d, i');
      }
    }
  }

  /** canScheduleTask: every dependency id names a task, and the first task
      with that id is completed or already selected. */
  function CanScheduleTask(task: Task, allTasks: seq<Task>, selectedIds: set<string>): (r: bool)
    ensures r <==> forall d :: d in task.dependsOn ==>
                     exists i :: FirstWith(allTasks, d, i) && (allTasks[i].completed || d in selectedIds)
  {
    var r := |task.dependsOn| == 0 ||
             forall d :: d in task.dependsOn ==> DependencyMet(allTasks, selectedIds, d);
    forall d | d in task.dependsOn
      ensures DependencyMet(allTasks, selectedIds, d) <==>
              exists i :: FirstWith(allTasks, d, i) && (allTasks[i].completed || d in selectedIds)
    {
      DependencyMetFirst(allTasks, selectedIds, d);
    }
    r
  }

  /** With unique ids, the first task with an id is the only one. */
  lemma CanScheduleUnique(task: Task, allTasks: seq<Task>, selectedIds: set<string>)
    requires UniqueIds(allTasks)
    ensures CanScheduleTask(task, allTasks, selectedIds) <==>
            forall d :: d in task.dependsOn ==>
              exists i :: 0 <= i < |allTasks| && allTasks[i].id == d && (allTasks[i].completed || d in selectedIds)
  {
    forall d | d in task.dependsOn
      ensures (exists i :: FirstWith(allTasks, d, i) && (allTasks[i].completed || d in selectedIds)) <==>
              exists i :: 0 <= i < |allTasks| && allTasks[i].id == d && (allTasks[i].completed || d in selectedIds)
    {
      if i :| 0 <= i < |allTasks| && allTasks[i].id == d && (allTasks[i].completed || d in selectedIds) {
        assert FirstWith(allTasks, d, i);
      }
    }
  }

  /** A dependency id that names no task blocks the task for good. */
  lemma UnknownDependencyBlocks(task: Task, allTasks: seq<Task>, selectedIds: set<string>, d: string)
    requires d in task.dependsOn && d !in Ids(allTasks)
    ensures !CanScheduleTask(task, allTasks, selectedIds)
  {
    assert forall i :: FirstWith(allTasks, d, i) ==> d in Ids(allTasks);
  }

  /** A task the greedy may take next. */
  predicate Schedulable(tasks: seq<Task>, selectedIds: set<string>, t: Task) {
    !t.completed && t.id !in selectedIds && CanScheduleTask(t, tasks, selectedIds)
  }

  /** getSchedulableTasks: the filter, in input order. */
  function GetSchedulableTasks(tasks: seq<Task>, selectedIds: set<string>): (r: seq<Task>)
    ensures |r| <= |tasks|
    ensures forall t :: t in r <==> t in tasks && Schedulable(tasks, selectedIds, t)
  {
    SchedulableAmong(tasks, tasks, selectedIds)
  }

  /** The filter over a suffix `s` of the list, checking against all of it. */
  function SchedulableAmong(s: seq<Task>, tasks: seq<Task>, selectedIds: set<string>): (r: seq<Task>)
    ensures |r| <= |s|
    ensures forall t :: t in r <==> t in s && Schedulable(tasks, selectedIds, t)
  {
    if |s| == 0 then []
    else if Schedulable(tasks, selectedIds, s[0]) then [s[0]] + SchedulableAmong(s[1..], tasks, selectedIds)
    else SchedulableAmong(s[1..], tasks, selectedIds)
  }

  // ---------------------------------------------------------------------------
  // scheduleGreedy

  predicate Fits(t: Task, timeLeft: int, energyLeft: int) {
    t.durationMinutes <= timeLeft && t.energyCost <= energyLeft
  }

  /** a.value / a.durationMinutes > b.value / b.durationMinutes, by
      cross-multiplication (durations are positive). */
  predicate Denser(a: Task, b: Task) {
    a.value * b.durationMinutes > b.value * a.durationMinutes
  }

  /** Cross-multiplication decides the same order as the quotients. */
  lemma DenserIsRatio(a: Task, b: Task)
    requires a.durationMinutes > 0 && b.durationMinutes > 0
    ensures Denser(a, b) <==> (a.value as real) / (a.durationMinutes as real) > (b.value as real) / (b.durationMinutes as real)
  {
    var ra := (a.value as real) / (a.durationMinutes as real);
    var rb := (b.value as real) / (b.durationMinutes as real);
    var da, db := a.durationMinutes as real, b.durationMinutes as real;
    assert a.value as real == ra * da;
    assert b.value as real == rb * db;
    assert (a.value * b.durationMinutes) as real == ra * (da * db);
    assert (b.value * a.durationMinutes) as real == rb * (da * db);
  }

  lemma MulMono(x: int, y: int, z: int)
    requires x > y && z > 0
    ensures x * z > y * z
  {
  }

  lemma MulMonoWeak(x: int, y: int, z: int)
    requires x <= y && z > 0
    ensures x * z <= y * z
  {
  }

  /** Strictly denser than b, which is at least as dense as a: denser than a. */
  lemma DenserTrans(a: Task, b: Task, c: Task)
    requires a.durationMinutes > 0 && b.durationMinutes > 0 && c.durationMinutes > 0
    requires Denser(c, b) && !Denser(a, b)
    ensures Denser(c, a)
  {
    var va, vb, vc := a.value, b.value, c.value;
    var da, db, dc := a.durationMinutes, b.durationMinutes, c.durationMinutes;
    MulMono(vc * db, vb * dc, da);
    MulMonoWeak(va * db, vb * da, dc);
    assert vc * db * da > va * db * dc;
    assert (vc * da) * db > (va * dc) * db;
    if vc * da <= va * dc {
      MulMonoWeak(vc * da, va * dc, db);
    }
  }

  /** cands[k] is the task `sort` by descending density (a stable sort) and
      then the first-fit loop pick: it fits, no fitting candidate is denser,
      and every fitting candidate before it is strictly less dense. */
  ghost predicate FirstFit(cands: seq<Task>, timeLeft: int, energyLeft: int, k: int) {
    && 0 <= k < |cands|
    && Fits(cands[k], timeLeft, energyLeft)
    && (forall j :: 0 <= j < |cands| && Fits(cands[j], timeLeft, energyLeft) ==> !Denser(cands[j], cands[k]))
    && (forall j :: 0 <= j < k && Fits(cands[j], timeLeft, energyLeft) ==> Denser(cands[k], cands[j]))
  }

  /** The sort and the first-fit loop of one greedy round, as one scan:
      -1 when no candidate fits. */
  method PickFirstFit(cands: seq<Task>, timeLeft: int, energyLeft: int) returns (k: int)
    requires forall j :: 0 <= j < |cands| ==> cands[j].durationMinutes > 0
    ensures k == -1 <==> forall j :: 0 <= j < |cands| ==> !Fits(cands[j], timeLeft, energyLeft)
    ensures k != -1 ==> FirstFit(cands, timeLeft, energyLeft, k)
  {
    k := -1;
    var j := 0;
    while j < |cands|
      invariant 0 <= j <= |cands|
      invariant -1 <= k < j
      invariant k == -1 <==> forall i :: 0 <= i < j ==> !Fits(cands[i], timeLeft, energyLeft)
      invariant k != -1 ==> Fits(cands[k], timeLeft, energyLeft)
      invariant k != -1 ==> forall i :: 0 <= i < j && Fits(cands[i], timeLeft, energyLeft) ==> !Denser(cands[i], cands[k])
      invariant k != -1 ==> forall i :: 0 <= i < k && Fits(cands[i], timeLeft, energyLeft) ==> Denser(cands[k], cands[i])
    {
      if Fits(cands[j], timeLeft, energyLeft) && (k == -1 || Denser(cands[j], cands[k])) {
        if k != -1 {
          forall i | 0 <= i < j && Fits(cands[i], timeLeft, energyLeft) ensures Denser(cands[j], cands[i]) {
            DenserTrans(cands[i], cands[k], cands[j]);
          }
        }
        k := j;
      }
      j := j + 1;
    }
  }

  /** Round k of the greedy took sel[k]: the first-fit pick among the tasks
      schedulable after sel[..k], with the budgets that were left. */
  ghost predicate GreedyStep(tasks: seq<Task>, timeBudget: int, energyBudget: int, sel: seq<Task>, k: int, p: int) {
    && 0 <= k < |sel|
    && var cands := GetSchedulableTasks(tasks, Ids(sel[..k]));
       && 0 <= p < |cands| && sel[k] == cands[p]
       && FirstFit(cands, timeBudget - SumDuration(sel[..k]), energyBudget - SumEnergy(sel[..k]), p)
  }

  lemma GreedyStepSnoc(tasks: seq<Task>, timeBudget: int, energyBudget: int, sel: seq<Task>, t: Task, k: int, p: int)
    requires GreedyStep(tasks, timeBudget, energyBudget, sel, k, p)
    ensures GreedyStep(tasks, timeBudget, energyBudget, sel + [t], k, p)
  {
    assert (sel + [t])[..k] == sel[..k];
  }

  lemma GreedyStepLast(tasks: seq<Task>, timeBudget: int, energyBudget: int, sel: seq<Task>, t: Task, p: int)
    requires var cands := GetSchedulableTasks(tasks, Ids(sel));
             0 <= p < |cands| && t == cands[p]
             && FirstFit(cands, timeBudget - SumDuration(sel), energyBudget - SumEnergy(sel), p)
    ensures GreedyStep(tasks, timeBudget, energyBudget, sel + [t], |sel|, p)
  {
    assert (sel + [t])[..|sel|] == sel;
  }

  /** What each step of a greedy run guarantees about the selection: each
      task is a distinct, incomplete task of the list whose dependencies are
      completed or selected before it. */
  lemma {:induction false} GreedyTraceSafe(tasks: seq<Task>, timeBudget: int, energyBudget: int, sel: seq<Task>, picks: seq<int>)
    requires |picks| == |sel|
    requires forall k :: 0 <= k < |sel| ==> GreedyStep(tasks, timeBudget, energyBudget, sel, k, picks[k])
    ensures forall k :: 0 <= k < |sel| ==> sel[k] in tasks && !sel[k].completed
    ensures forall k :: 0 <= k < |sel| ==> sel[k].id !in Ids(sel[..k])
    ensures forall k :: 0 <= k < |sel| ==> CanScheduleTask(sel[k], tasks, Ids(sel[..k]))
  {
    forall k | 0 <= k < |sel|
      ensures sel[k] in tasks && !sel[k].completed && sel[k].id !in Ids(sel[..k])
      ensures CanScheduleTask(sel[k], tasks, Ids(sel[..k]))
    {
      assert GreedyStep(tasks, timeBudget, energyBudget, sel, k, picks[k]);
      var cands := GetSchedulableTasks(tasks, Ids(sel[..k]));
      assert sel[k] in cands;
    }
  }

  /** Every selected id is new when it is taken: the ids are unique. */
  lemma FreshEachStepUnique(sel: seq<Task>)
    requires forall k :: 0 <= k < |sel| ==> sel[k].id !in Ids(sel[..k])
    ensures UniqueIds(sel)
  {
    forall a, b | 0 <= a < b < |sel| ensures sel[a].id != sel[b].id {
      assert sel[..b][a] == sel[a];
    }
  }

  /** The selection holds only incomplete tasks of the list, each id once,
      so it is no longer than the incomplete tasks. */
  lemma SelectionBound(tasks: seq<Task>, sel: seq<Task>)
    requires UniqueIds(sel)
    requires forall k :: 0 <= k < |sel| ==> sel[k] in tasks && !sel[k].completed
    ensures |sel| <= |Incomplete(tasks)|
  {
    var inc := Incomplete(tasks);
    forall x | x in Ids(sel) ensures x in Ids(inc) {
      var k := IdsWitness(sel, x);
      assert sel[k] in inc;
      var i :| 0 <= i < |inc| && inc[i] == sel[k];
    }
    IdsCard(sel);
    IdsCard(inc);
    assert |Ids(sel)| <= |Ids(inc)| by {
      SubsetCard(Ids(sel), Ids(inc));
    }
  }

  lemma SubsetCard(a: set<string>, b: set<string>)
    requires a <= b
    ensures |a| <= |b|
  {
    assert b == a + (b - a);
  }

  /** The state of the while loop of scheduleGreedy. */
  ghost predicate GreedyState(tasks: seq<Task>, timeBudget: int, energyBudget: int,
                              selected: seq<Task>, selectedIds: set<string>, timeLeft: int, energyLeft: int,
                              picks: seq<int>) {
    && selectedIds == Ids(selected)
    && timeLeft == timeBudget - SumDuration(selected)
    && energyLeft == energyBudget - SumEnergy(selected)
    && (timeBudget >= 0 ==> timeLeft >= 0)
    && (energyBudget >= 0 ==> energyLeft >= 0)
    && |picks| == |selected|
    && (forall k :: 0 <= k < |selected| ==> GreedyStep(tasks, timeBudget, energyBudget, selected, k, picks[k]))
  }

  /** One round that selects `task`, the first-fit pick. */
  lemma GreedyRound(tasks: seq<Task>, timeBudget: int, energyBudget: int,
                    selected: seq<Task>, selectedIds: set<string>, timeLeft: int, energyLeft: int,
                    picks: seq<int>, p: int)
    requires GreedyState(tasks, timeBudget, energyBudget, selected, selectedIds, timeLeft, energyLeft, picks)
    requires FirstFit(GetSchedulableTasks(tasks, selectedIds), timeLeft, energyLeft, p)
    ensures var task := GetSchedulableTasks(tasks, selectedIds)[p];
            GreedyState(tasks, timeBudget, energyBudget, selected + [task], selectedIds + {task.id},
                        timeLeft - task.durationMinutes, energyLeft - task.energyCost, picks + [p])
  {
    var task := GetSchedulableTasks(tasks, selectedIds)[p];
    var sel' := selected + [task];
    IdsSnoc(selected, task);
    SumsSnoc(selected, task);
    forall k | 0 <= k < |sel'| ensures GreedyStep(tasks, timeBudget, energyBudget, sel', k, (picks + [p])[k]) {
      if k < |selected| {
        GreedyStepSnoc(tasks, timeBudget, energyBudget, selected, task, k, picks[k]);
      } else {
        GreedyStepLast(tasks, timeBudget, energyBudget, selected, task, p);
      }
    }
  }

  /** scheduleGreedy. Each round takes the first-fit pick among the tasks
      schedulable so far (`picks` records its position among them); the loop
      ends when no schedulable task fits what is left. The selection has
      unique ids, holds incomplete tasks of the list whose dependencies are
      completed or selected earlier, fits both budgets when they are not
      negative, and the totals are its sums. */
  method ScheduleGreedy(tasks: seq<Task>, timeBudgetMinutes: int, energyBudget: int)
    returns (r: ScheduleResult, ghost picks: seq<int>)
    requires AllValid(tasks)
    ensures r.algorithm == Greedy
    ensures r.totalDuration == SumDuration(r.selectedTasks)
    ensures r.totalEnergy == SumEnergy(r.selectedTasks)
    ensures r.totalValue == SumValue(r.selectedTasks)
    ensures timeBudgetMinutes >= 0 ==> r.totalDuration <= timeBudgetMinutes
    ensures energyBudget >= 0 ==> r.totalEnergy <= energyBudget
    ensures |picks| == |r.selectedTasks|
    ensures forall k :: 0 <= k < |r.selectedTasks| ==>
              GreedyStep(tasks, timeBudgetMinutes, energyBudget, r.selectedTasks, k, picks[k])
    ensures forall t :: t in GetSchedulableTasks(tasks, Ids(r.selectedTasks)) ==>
              !Fits(t, timeBudgetMinutes - r.totalDuration, energyBudget - r.totalEnergy)
    ensures UniqueIds(r.selectedTasks)
    ensures forall k :: 0 <= k < |r.selectedTasks| ==> r.selectedTasks[k] in tasks && !r.selectedTasks[k].completed
    ensures forall k :: 0 <= k < |r.selectedTasks| ==>
              CanScheduleTask(r.selectedTasks[k], tasks, Ids(r.selectedTasks[..k]))
    ensures |r.selectedTasks| <= |Incomplete(tasks)|
  {
    var selected: seq<Task> := [];
    var selectedIds: set<string> := {};
    var timeLeft := timeBudgetMinutes;
    var energyLeft := energyBudget;
    picks := [];
    var madeProgress := true;
    while madeProgress
      invariant GreedyState(tasks, timeBudgetMinutes, energyBudget, selected, selectedIds, timeLeft, energyLeft, picks)
      invariant selectedIds <= Ids(tasks)
      invariant !madeProgress ==>
                  forall t :: t in GetSchedulableTasks(tasks, selectedIds) ==> !Fits(t, timeLeft, energyLeft)
      decreases Ids(tasks) - selectedIds, if madeProgress then 1 else 0
    {
      madeProgress := false;
      var schedulableTasks := GetSchedulableTasks(tasks, selectedIds);
      forall j | 0 <= j < |schedulableTasks| ensures schedulableTasks[j].durationMinutes > 0 {
        assert schedulableTasks[j] in tasks;
      }
      var k := PickFirstFit(schedulableTasks, timeLeft, energyLeft);
      if k != -1 {
        var task := schedulableTasks[k];
        assert task in tasks;
        GreedyRound(tasks, timeBudgetMinutes, energyBudget, selected, selectedIds, timeLeft, energyLeft, picks, k);
        selected := selected + [task];
        selectedIds := selectedIds + {task.id};
        timeLeft := timeLeft - task.durationMinutes;
        energyLeft := energyLeft - task.energyCost;
        picks := picks + [k];
        madeProgress := true;
      } else {
        forall t | t in schedulableTasks ensures !Fits(t, timeLeft, energyLeft) {
          var j :| 0 <= j < |schedulableTasks| && schedulableTasks[j] == t;
        }
      }
    }
    GreedyTraceSafe(tasks, timeBudgetMinutes, energyBudget, selected, picks);
    FreshEachStepUnique(selected);
    SelectionBound(tasks, selected);
    r := ScheduleResult(selected, SumDuration(selected), SumEnergy(selected), SumValue(selected), Greedy);
  }

  // ---------------------------------------------------------------------------
  // scheduleOptimal

  /** The greedy's dependency check implies the guarantee the table gives. */
  lemma GreedyPrerequisitesFirst(tasks: seq<Task>, sel: seq<Task>)
    requires forall k :: 0 <= k < |sel| ==> CanScheduleTask(sel[k], tasks, Ids(sel[..k]))
    ensures Knapsack.PrerequisitesFirst(tasks, sel)
  {
    forall k, d | 0 <= k < |sel| && d in sel[k].dependsOn
      ensures d !in Ids(Incomplete(tasks)) || (Find(tasks, d).Some? && Find(tasks, d).value.completed)
              || d in Ids(sel[..k])
    {
      assert CanScheduleTask(sel[k], tasks, Ids(sel[..k]));
      var i :| FirstWith(tasks, d, i) && (tasks[i].completed || d in Ids(sel[..k]));
      FindIsFirst(tasks, d, i);
    }
  }

  /** scheduleOptimal: the table for at most 40 incomplete tasks, the greedy
      beyond. None is the table's failure (see Knapsack.ScheduleKnapsackDP).
      With the table, the ghost sortedTasks is its pre-ordering, the
      selection is read off its final cell, and without dependencies no
      fitting selection is worth more. With the greedy, the ghost picks are
      its first-fit rounds and no schedulable task fits what is left. */
  method ScheduleOptimal(tasks: seq<Task>, timeBudgetMinutes: int, energyBudget: int)
      returns (r: Option<ScheduleResult>, ghost sortedTasks: seq<Task>, ghost picks: seq<int>)
    requires AllValid(tasks)
    ensures |Incomplete(tasks)| <= 40 ==>
      && UniqueIds(sortedTasks) && Ids(sortedTasks) == Ids(Incomplete(tasks))
      && (!SchedulingOrder.ActiveCyclic(tasks, Incomplete(tasks)) ==>
            SchedulingOrder.FollowedOrder(tasks, Ids(Incomplete(tasks)), sortedTasks))
    ensures |Incomplete(tasks)| > 40 ==>
      && r.Some? && |picks| == |r.value.selectedTasks|
      && (forall k :: 0 <= k < |r.value.selectedTasks| ==>
            GreedyStep(tasks, timeBudgetMinutes, energyBudget, r.value.selectedTasks, k, picks[k]))
      && (forall t :: t in GetSchedulableTasks(tasks, Ids(r.value.selectedTasks)) ==>
            !Fits(t, timeBudgetMinutes - r.value.totalDuration, energyBudget - r.value.totalEnergy))
    ensures 0 < |Incomplete(tasks)| <= 40 && r.Some? ==>
      && multiset(sortedTasks) == multiset(Incomplete(tasks))
      && var final := Knapsack.Cell(tasks, sortedTasks, |sortedTasks|, timeBudgetMinutes, energyBudget);
         && Knapsack.IsMask(final.mask, |sortedTasks|)
         && r.value.selectedTasks == Knapsack.Select(sortedTasks, final.mask)
         && r.value.totalValue == final.value
    ensures |Incomplete(tasks)| <= 40 && r.Some? && (forall t :: t in Incomplete(tasks) ==> t.dependsOn == []) ==>
      forall m :: Knapsack.IsMask(m, |sortedTasks|) && SumDuration(Knapsack.Select(sortedTasks, m)) <= timeBudgetMinutes
                  && SumEnergy(Knapsack.Select(sortedTasks, m)) <= energyBudget
                  ==> SumValue(Knapsack.Select(sortedTasks, m)) <= r.value.totalValue
    ensures |Incomplete(tasks)| <= 40 ==>
              (r.None? <==> |Incomplete(tasks)| > 0
                            && (timeBudgetMinutes < 0 || energyBudget < 0 || !UniqueIds(Incomplete(tasks))))
              && (r.Some? ==> r.value.algorithm == KnapsackDP)
    ensures |Incomplete(tasks)| > 40 ==> r.Some? && r.value.algorithm == Greedy
    ensures |Incomplete(tasks)| == 0 ==> r == Some(ScheduleResult([], 0, 0, 0, KnapsackDP))
    ensures r.Some? ==>
      var res := r.value;
      && res.totalDuration == SumDuration(res.selectedTasks)
      && res.totalEnergy == SumEnergy(res.selectedTasks)
      && res.totalValue == SumValue(res.selectedTasks)
      && (timeBudgetMinutes >= 0 ==> res.totalDuration <= timeBudgetMinutes)
      && (energyBudget >= 0 ==> res.totalEnergy <= energyBudget)
      && UniqueIds(res.selectedTasks)
      && (forall k :: 0 <= k < |res.selectedTasks| ==> res.selectedTasks[k] in tasks && !res.selectedTasks[k].completed)
      && Knapsack.PrerequisitesFirst(tasks, res.selectedTasks)
  {
    var activeTasks := Incomplete(tasks);
    if |activeTasks| <= 40 {
      r, sortedTasks := Knapsack.ScheduleKnapsackDP(tasks, timeBudgetMinutes, energyBudget);
      picks := [];
      return;
    }
    sortedTasks := [];
    var result;
    result, picks := ScheduleGreedy(tasks, timeBudgetMinutes, energyBudget);
    GreedyPrerequisitesFirst(tasks, result.selectedTasks);
    r := Some(result);
  }
}
