/** scheduleKnapsackDP (server/algorithms/scheduler.ts): a table over
    (task prefix, time, energy) whose cells each keep one value and one
    selection. Cell is the value the table holds, defined the way the fill
    loop computes it; the lemmas below say what every cell guarantees. A
    JavaScript Set of indices, built by copying and adding a larger index,
    iterates in ascending order, so a selection is an ascending seq<int>. */
module Knapsack {
  import opened Schema
  import opened SchedulingOrder

  datatype DPState = DPState(value: int, mask: seq<int>)

  /** One dependency as the table checks it against the selection of the
      cell it extends: it names no pre-ordered task, or that task's index is
      in the selection, or the first task of the full list with the id is
      completed. */
  predicate DepSatisfied(allTasks: seq<Task>, sortedTasks: seq<Task>, mask: seq<int>, depId: string) {
    var depIndex := FindIndex(sortedTasks, depId);
    depIndex == -1 || depIndex in mask || (Find(allTasks, depId).Some? && Find(allTasks, depId).value.completed)
  }

  predicate DepsInMask(allTasks: seq<Task>, sortedTasks: seq<Task>, task: Task, mask: seq<int>) {
    forall d :: d in task.dependsOn ==> DepSatisfied(allTasks, sortedTasks, mask, d)
  }

  /** dp[i][t][e]: the cell for the first i pre-ordered tasks, t minutes and
      e energy. Taking task i - 1 extends the cell for the remaining budget
      and must beat skipping it strictly. */
  function Cell(allTasks: seq<Task>, sortedTasks: seq<Task>, i: nat, t: int, e: int): DPState
    requires i <= |sortedTasks|
  {
    if i == 0 then DPState(0, [])
    else
      var skip := Cell(allTasks, sortedTasks, i - 1, t, e);
      var task := sortedTasks[i - 1];
      if t >= task.durationMinutes && e >= task.energyCost then
        var prev := Cell(allTasks, sortedTasks, i - 1, t - task.durationMinutes, e - task.energyCost);
        if DepsInMask(allTasks, sortedTasks, task, prev.mask) && prev.value + task.value > skip.value then
          DPState(prev.value + task.value, prev.mask + [i - 1])
        else skip
      else skip
  }

  // ---------------------------------------------------------------------------
  // Selections

  /** m is an ascending list of indices below i. */
  predicate IsMask(m: seq<int>, i: int) {
    && (forall k :: 0 <= k < |m| ==> 0 <= m[k] < i)
    && (forall k, l :: 0 <= k < l < |m| ==> m[k] < m[l])
  }

  /** finalState.mask mapped to the tasks. */
  function Select(sortedTasks: seq<Task>, m: seq<int>): (r: seq<Task>)
    requires IsMask(m, |sortedTasks|)
    ensures |r| == |m| && forall k :: 0 <= k < |m| ==> r[k] == sortedTasks[m[k]]
  {
    seq(|m|, k requires 0 <= k < |m| => sortedTasks[m[k]])
  }

  lemma SelectSnoc(sortedTasks: seq<Task>, m: seq<int>, x: int)
    requires IsMask(m + [x], |sortedTasks|) && 0 <= x < |sortedTasks|
    ensures IsMask(m, |sortedTasks|)
    ensures Select(sortedTasks, m + [x]) == Select(sortedTasks, m) + [sortedTasks[x]]
  {
    assert forall k :: 0 <= k < |m| ==> (m + [x])[k] == m[k];
  }

  lemma SelectPrefix(sortedTasks: seq<Task>, m: seq<int>, k: int)
    requires IsMask(m, |sortedTasks|) && 0 <= k <= |m|
    ensures IsMask(m[..k], |sortedTasks|)
    ensures Select(sortedTasks, m[..k]) == Select(sortedTasks, m)[..k]
  {
  }

  /** Every selected task passed the dependency test against the indices
      selected before it. */
  ghost predicate DepsClosed(allTasks: seq<Task>, sortedTasks: seq<Task>, m: seq<int>) {
    forall k :: 0 <= k < |m| && 0 <= m[k] < |sortedTasks| ==> DepsInMask(allTasks, sortedTasks, sortedTasks[m[k]], m[..k])
  }

  /** The guarantees of one cell: an ascending selection of indices below i
      whose values sum to the cell value, which fits t and e, and in which
      each task passed the dependency test. */
  ghost predicate CellSound(allTasks: seq<Task>, sortedTasks: seq<Task>, i: nat, t: int, e: int, c: DPState)
    requires i <= |sortedTasks|
  {
    && IsMask(c.mask, i)
    && c.value == SumValue(Select(sortedTasks, c.mask))
    && SumDuration(Select(sortedTasks, c.mask)) <= t
    && SumEnergy(Select(sortedTasks, c.mask)) <= e
    && DepsClosed(allTasks, sortedTasks, c.mask)
  }

  /** The take branch of the fill loop fires for cell (i, t, e). */
  predicate Takes(allTasks: seq<Task>, sortedTasks: seq<Task>, i: nat, t: int, e: int)
    requires 0 < i <= |sortedTasks|
  {
    var task := sortedTasks[i - 1];
    && t >= task.durationMinutes && e >= task.energyCost
    && var prev := Cell(allTasks, sortedTasks, i - 1, t - task.durationMinutes, e - task.energyCost);
       DepsInMask(allTasks, sortedTasks, task, prev.mask)
       && prev.value + task.value > Cell(allTasks, sortedTasks, i - 1, t, e).value
  }

  lemma CellUnfold(allTasks: seq<Task>, sortedTasks: seq<Task>, i: nat, t: int, e: int)
    requires 0 < i <= |sortedTasks|
    ensures !Takes(allTasks, sortedTasks, i, t, e) ==> Cell(allTasks, sortedTasks, i, t, e) == Cell(allTasks, sortedTasks, i - 1, t, e)
    ensures Takes(allTasks, sortedTasks, i, t, e) ==>
      var task := sortedTasks[i - 1];
      var prev := Cell(allTasks, sortedTasks, i - 1, t - task.durationMinutes, e - task.energyCost);
      Cell(allTasks, sortedTasks, i, t, e) == DPState(prev.value + task.value, prev.mask + [i - 1])
  {
  }

  /** Appending an index whose task passes the test against the selection
      keeps the selection dependency-closed. */
  lemma DepsClosedSnoc(allTasks: seq<Task>, sortedTasks: seq<Task>, m: seq<int>, x: int)
    requires 0 <= x < |sortedTasks| && DepsClosed(allTasks, sortedTasks, m)
    requires DepsInMask(allTasks, sortedTasks, sortedTasks[x], m)
    ensures DepsClosed(allTasks, sortedTasks, m + [x])
  {
    var m' := m + [x];
    assert m'[..|m|] == m;
    forall k | 0 <= k < |m'| && 0 <= m'[k] < |sortedTasks|
      ensures DepsInMask(allTasks, sortedTasks, sortedTasks[m'[k]], m'[..k])
    {
      if k < |m| {
        assert m'[..k] == m[..k];
      }
    }
  }

  lemma ExtendSound(allTasks: seq<Task>, sortedTasks: seq<Task>, i: nat, t: int, e: int, prev: DPState)
    requires 0 < i <= |sortedTasks|
    requires var task := sortedTasks[i - 1];
             CellSound(allTasks, sortedTasks, i - 1, t - task.durationMinutes, e - task.energyCost, prev)
             && DepsInMask(allTasks, sortedTasks, task, prev.mask)
    ensures var task := sortedTasks[i - 1];
            CellSound(allTasks, sortedTasks, i, t, e, DPState(prev.value + task.value, prev.mask + [i - 1]))
  {
    var m := prev.mask + [i - 1];
    assert IsMask(m, i);
    SelectSnoc(sortedTasks, prev.mask, i - 1);
    SumsSnoc(Select(sortedTasks, prev.mask), sortedTasks[i - 1]);
    DepsClosedSnoc(allTasks, sortedTasks, prev.mask, i - 1);
  }

  lemma WidenSound(allTasks: seq<Task>, sortedTasks: seq<Task>, i: nat, t: int, e: int, c: DPState)
    requires 0 < i <= |sortedTasks|
    requires CellSound(allTasks, sortedTasks, i - 1, t, e, c)
    ensures CellSound(allTasks, sortedTasks, i, t, e, c)
  {
  }

  lemma TakeStep(allTasks: seq<Task>, sortedTasks: seq<Task>, i: nat, t: int, e: int)
    requires 0 < i <= |sortedTasks| && Takes(allTasks, sortedTasks, i, t, e)
    requires var task := sortedTasks[i - 1];
             var t', e' := t - task.durationMinutes, e - task.energyCost;
             CellSound(allTasks, sortedTasks, i - 1, t', e', Cell(allTasks, sortedTasks, i - 1, t', e'))
    ensures CellSound(allTasks, sortedTasks, i, t, e, Cell(allTasks, sortedTasks, i, t, e))
  {
    var task := sortedTasks[i - 1];
    CellUnfold(allTasks, sortedTasks, i, t, e);
    ExtendSound(allTasks, sortedTasks, i, t, e, Cell(allTasks, sortedTasks, i - 1, t - task.durationMinutes, e - task.energyCost));
  }

  lemma SkipStep(allTasks: seq<Task>, sortedTasks: seq<Task>, i: nat, t: int, e: int)
    requires 0 < i <= |sortedTasks| && !Takes(allTasks, sortedTasks, i, t, e)
    requires CellSound(allTasks, sortedTasks, i - 1, t, e, Cell(allTasks, sortedTasks, i - 1, t, e))
    ensures CellSound(allTasks, sortedTasks, i, t, e, Cell(allTasks, sortedTasks, i, t, e))
  {
    CellUnfold(allTasks, sortedTasks, i, t, e);
    WidenSound(allTasks, sortedTasks, i, t, e, Cell(allTasks, sortedTasks, i - 1, t, e));
  }

  /** Every cell is sound: the mask of dp[i][t][e] lies in {0..i-1}, its
      value is the sum over the mask, the mask fits both budgets and is
      dependency-closed. */
  lemma {:induction false} CellIsSound(allTasks: seq<Task>, sortedTasks: seq<Task>, i: nat, t: int, e: int)
    requires i <= |sortedTasks| && t >= 0 && e >= 0
    ensures CellSound(allTasks, sortedTasks, i, t, e, Cell(allTasks, sortedTasks, i, t, e))
    decreases i
  {
    if i == 0 {
      assert Select(sortedTasks, []) == [];
    } else if Takes(allTasks, sortedTasks, i, t, e) {
      var task := sortedTasks[i - 1];
      CellIsSound(allTasks, sortedTasks, i - 1, t - task.durationMinutes, e - task.energyCost);
      TakeStep(allTasks, sortedTasks, i, t, e);
    } else {
      CellIsSound(allTasks, sortedTasks, i - 1, t, e);
      SkipStep(allTasks, sortedTasks, i, t, e);
    }
  }

  /** The value of a cell never falls as more tasks are considered. */
  lemma {:induction false} CellMonotone(allTasks: seq<Task>, sortedTasks: seq<Task>, i: nat, j: nat, t: int, e: int)
    requires i <= j <= |sortedTasks|
    ensures Cell(allTasks, sortedTasks, i, t, e).value <= Cell(allTasks, sortedTasks, j, t, e).value
    decreases j
  {
    if i < j {
      CellMonotone(allTasks, sortedTasks, i, j - 1, t, e);
    }
  }

  /** Taking a task needs a strict gain: on a tie the cell keeps the skip
      option, and otherwise it extends the remaining-budget cell by i - 1. */
  lemma CellTieKeepsSkip(allTasks: seq<Task>, sortedTasks: seq<Task>, i: nat, t: int, e: int)
    requires 0 < i <= |sortedTasks|
    ensures var c := Cell(allTasks, sortedTasks, i, t, e);
            var skip := Cell(allTasks, sortedTasks, i - 1, t, e);
            c == skip || (c.value > skip.value && |c.mask| > 0 && c.mask[|c.mask| - 1] == i - 1)
  {
  }

  // ---------------------------------------------------------------------------
  // Optimality without dependencies

  /** What the strict-gain rule guarantees about a cell's value: it is at
      least the skip option, and at least the take option whenever the task
      fits and passes the dependency test. */
  lemma CellChoices(allTasks: seq<Task>, sortedTasks: seq<Task>, i: nat, t: int, e: int)
    requires 0 < i <= |sortedTasks|
    ensures Cell(allTasks, sortedTasks, i, t, e).value >= Cell(allTasks, sortedTasks, i - 1, t, e).value
    ensures var task := sortedTasks[i - 1];
            var prev := Cell(allTasks, sortedTasks, i - 1, t - task.durationMinutes, e - task.energyCost);
            t >= task.durationMinutes && e >= task.energyCost && DepsInMask(allTasks, sortedTasks, task, prev.mask)
            ==> Cell(allTasks, sortedTasks, i, t, e).value >= prev.value + task.value
  {
  }

  /** Dropping the last index of a selection that ends in i - 1. */
  lemma SplitLast(sortedTasks: seq<Task>, i: nat, m: seq<int>)
    requires 0 < i <= |sortedTasks| && AllValid(sortedTasks)
    requires IsMask(m, i) && |m| > 0 && m[|m| - 1] == i - 1
    ensures IsMask(m[..|m| - 1], i - 1)
    ensures var rest := Select(sortedTasks, m[..|m| - 1]);
            var task := sortedTasks[i - 1];
            && SumDuration(Select(sortedTasks, m)) == SumDuration(rest) + task.durationMinutes
            && SumEnergy(Select(sortedTasks, m)) == SumEnergy(rest) + task.energyCost
            && SumValue(Select(sortedTasks, m)) == SumValue(rest) + task.value
            && SumDuration(rest) >= 0 && SumEnergy(rest) >= 0
  {
    var m' := m[..|m| - 1];
    assert m == m' + [i - 1];
    SelectSnoc(sortedTasks, m', i - 1);
    SumsSnoc(Select(sortedTasks, m'), sortedTasks[i - 1]);
    SelectValid(sortedTasks, m');
    SumsNonNegative(Select(sortedTasks, m'));
  }

  /** With no dependencies, the table is the textbook two-budget 0/1
      knapsack: no selection of the first i tasks that fits t and e is worth
      more than the cell. */
  lemma {:induction false} CellOptimal(allTasks: seq<Task>, sortedTasks: seq<Task>, i: nat, t: int, e: int, m: seq<int>)
    requires i <= |sortedTasks| && AllValid(sortedTasks)
    requires forall j :: 0 <= j < |sortedTasks| ==> sortedTasks[j].dependsOn == []
    requires IsMask(m, i)
    requires SumDuration(Select(sortedTasks, m)) <= t && SumEnergy(Select(sortedTasks, m)) <= e
    ensures SumValue(Select(sortedTasks, m)) <= Cell(allTasks, sortedTasks, i, t, e).value
    decreases i
  {
    if i == 0 {
      assert m == [];
      assert Select(sortedTasks, m) == [];
    } else if |m| > 0 && m[|m| - 1] == i - 1 {
      var task := sortedTasks[i - 1];
      SplitLast(sortedTasks, i, m);
      CellOptimal(allTasks, sortedTasks, i - 1, t - task.durationMinutes, e - task.energyCost, m[..|m| - 1]);
      CellChoices(allTasks, sortedTasks, i, t, e);
    } else {
      assert IsMask(m, i - 1);
      CellOptimal(allTasks, sortedTasks, i - 1, t, e, m);
      CellChoices(allTasks, sortedTasks, i, t, e);
    }
  }

  lemma SelectValid(sortedTasks: seq<Task>, m: seq<int>)
    requires AllValid(sortedTasks) && IsMask(m, |sortedTasks|)
    ensures AllValid(Select(sortedTasks, m))
  {
  }

  /** The doc comment calls the table optimal, but with dependencies one
      selection per cell can lose the optimum. Pre-ordered C (1 minute,
      value 50), A (1 minute, value 1), B (1 minute, value 100, depends on
      A), the order visit gives for this list since C and A have no
      dependencies: with 2 minutes the table keeps {C, A} worth 51, while
      {A, B} fits, passes every dependency test, and is worth 101. */
  const TaskC := Task("C", "C", None, None, 1, 1, 50, [], false, 0)
  const TaskA := Task("A", "A", None, None, 1, 1, 1, [], false, 0)
  const TaskB := Task("B", "B", None, None, 1, 1, 100, ["A"], false, 0)
  const Cex := [TaskC, TaskA, TaskB]

  lemma CexLookups()
    ensures FindIndex(Cex, "A") == 1 && Find(Cex, "A") == Some(TaskA)
  {
    assert Cex[0].id != "A" && Cex[1].id == "A";
    assert Cex[1..][0] == TaskA;
  }

  lemma CexTable()
    ensures Cell(Cex, Cex, 3, 2, 5) == DPState(51, [0, 1])
  {
    CexLookups();
    assert Cell(Cex, Cex, 1, 2, 5) == DPState(50, [0]);
    assert Cell(Cex, Cex, 1, 1, 4) == DPState(50, [0]);
    assert Cell(Cex, Cex, 2, 2, 5) == DPState(51, [0, 1]);
    assert Cell(Cex, Cex, 1, 0, 3) == DPState(0, []);
    assert Cell(Cex, Cex, 2, 1, 4) == DPState(50, [0]);
    assert !DepSatisfied(Cex, Cex, [0], "A");
  }

  lemma CexSelect()
    ensures IsMask([1, 2], 3) && Select(Cex, [1, 2]) == [TaskA, TaskB]
  {
  }

  lemma CexDeps()
    ensures DepsClosed(Cex, Cex, [1, 2])
  {
    CexLookups();
    assert [1, 2][..1] == [1];
    assert DepSatisfied(Cex, Cex, [1], "A");
  }

  lemma CexSums()
    ensures SumDuration([TaskA, TaskB]) == 2 && SumEnergy([TaskA, TaskB]) == 2
    ensures SumValue([TaskA, TaskB]) == 101
  {
    assert [TaskA, TaskB][..1] == [TaskA];
    assert [TaskA][..0] == [];
    assert SumDuration([TaskA]) == 1;
    assert SumEnergy([TaskA]) == SumEnergy([]) + TaskA.energyCost == 1;
    assert SumValue([TaskA]) == 1;
  }

  lemma DpMissesOptimum()
    ensures Cell(Cex, Cex, |Cex|, 2, 5).value == 51
    ensures IsMask([1, 2], |Cex|) && DepsClosed(Cex, Cex, [1, 2])
    ensures SumDuration(Select(Cex, [1, 2])) <= 2 && SumEnergy(Select(Cex, [1, 2])) <= 5
    ensures SumValue(Select(Cex, [1, 2])) == 101
  {
    CexTable();
    CexSelect();
    CexDeps();
    CexSums();
  }

  // ---------------------------------------------------------------------------
  // scheduleKnapsackDP

  /** Row i of the table holds the cells for every t < tEnd. */
  ghost predicate RowDone(allTasks: seq<Task>, sortedTasks: seq<Task>, dp: array3<DPState>, i: nat, tEnd: int)
    reads dp
    requires i < dp.Length0 && i <= |sortedTasks|
  {
    forall t, e :: 0 <= t < tEnd && t < dp.Length1 && 0 <= e < dp.Length2 ==> dp[i, t, e] == Cell(allTasks, sortedTasks, i, t, e)
  }

  /** The fill loop: row i from row i - 1, for every t in 0..T and e in 0..E. */
  method FillTable(allTasks: seq<Task>, sortedTasks: seq<Task>, n: nat, T: nat, E: nat) returns (dp: array3<DPState>)
    requires n <= |sortedTasks| && AllValid(sortedTasks)
    ensures dp.Length0 == n + 1 && dp.Length1 == T + 1 && dp.Length2 == E + 1
    ensures RowDone(allTasks, sortedTasks, dp, n, T + 1)
  {
    dp := new DPState[n + 1, T + 1, E + 1]((i, t, e) => DPState(0, []));
    var i := 1;
    while i <= n
      invariant 1 <= i <= n + 1
      invariant RowDone(allTasks, sortedTasks, dp, i - 1, T + 1)
    {
      FillRow(allTasks, sortedTasks, dp, i, T, E);
      i := i + 1;
    }
  }

  /** One row of the fill loop. */
  method FillRow(allTasks: seq<Task>, sortedTasks: seq<Task>, dp: array3<DPState>, i: nat, T: nat, E: nat)
    requires 0 < i <= |sortedTasks| && AllValid(sortedTasks)
    requires dp.Length0 > i && dp.Length1 == T + 1 && dp.Length2 == E + 1
    requires RowDone(allTasks, sortedTasks, dp, i - 1, T + 1)
    modifies dp
    ensures RowDone(allTasks, sortedTasks, dp, i, T + 1)
    ensures forall j, t, e :: 0 <= j < dp.Length0 && j != i && 0 <= t < dp.Length1 && 0 <= e < dp.Length2 ==>
              dp[j, t, e] == old(dp[j, t, e])
  {
    var task := sortedTasks[i - 1];
    var t := 0;
    while t <= T
      invariant 0 <= t <= T + 1
      invariant RowDone(allTasks, sortedTasks, dp, i - 1, T + 1)
      invariant RowDone(allTasks, sortedTasks, dp, i, t)
      invariant forall j, t', e :: 0 <= j < dp.Length0 && j != i && 0 <= t' < dp.Length1 && 0 <= e < dp.Length2 ==>
                  dp[j, t', e] == old(dp[j, t', e])
    {
      FillCells(allTasks, sortedTasks, dp, i, t, E);
      t := t + 1;
    }
  }

  /** The cells dp[i][t][0..E]. */
  method FillCells(allTasks: seq<Task>, sortedTasks: seq<Task>, dp: array3<DPState>, i: nat, t: nat, E: nat)
    requires 0 < i <= |sortedTasks| && AllValid(sortedTasks)
    requires dp.Length0 > i && t < dp.Length1 && dp.Length2 == E + 1
    requires RowDone(allTasks, sortedTasks, dp, i - 1, dp.Length1)
    modifies dp
    ensures forall e :: 0 <= e <= E ==> dp[i, t, e] == Cell(allTasks, sortedTasks, i, t, e)
    ensures forall j, t', e :: 0 <= j < dp.Length0 && 0 <= t' < dp.Length1 && 0 <= e < dp.Length2 && (j != i || t' != t) ==>
              dp[j, t', e] == old(dp[j, t', e])
  {
    var task := sortedTasks[i - 1];
    assert ValidTask(task);
    var e := 0;
    while e <= E
      invariant 0 <= e <= E + 1
      invariant forall e' :: 0 <= e' < e ==> dp[i, t, e'] == Cell(allTasks, sortedTasks, i, t, e')
      invariant forall j, t', e' :: 0 <= j < dp.Length0 && 0 <= t' < dp.Length1 && 0 <= e' < dp.Length2 && (j != i || t' != t) ==>
                  dp[j, t', e'] == old(dp[j, t', e'])
    {
      var cell := dp[i - 1, t, e];
      if t >= task.durationMinutes && e >= task.energyCost {
        var prevState := dp[i - 1, t - task.durationMinutes, e - task.energyCost];
        if DepsInMask(allTasks, sortedTasks, task, prevState.mask) {
          var valueWithTask := prevState.value + task.value;
          if valueWithTask > cell.value {
            cell := DPState(valueWithTask, prevState.mask + [i - 1]);
          }
        }
      }
      dp[i, t, e] := cell;
      e := e + 1;
    }
  }

  /** A selected task's dependency, as the table checks it, holds for the
      selected list: the dependency is not an active task, the first task
      with its id is completed, or it was selected earlier. */
  lemma {:induction false} DepsClosedTasks(allTasks: seq<Task>, sortedTasks: seq<Task>, m: seq<int>)
    requires IsMask(m, |sortedTasks|) && DepsClosed(allTasks, sortedTasks, m)
    ensures var sel := Select(sortedTasks, m);
            forall k, d :: 0 <= k < |sel| && d in sel[k].dependsOn ==>
              d !in Ids(sortedTasks) || (Find(allTasks, d).Some? && Find(allTasks, d).value.completed)
              || d in Ids(sel[..k])
  {
    var sel := Select(sortedTasks, m);
    forall k, d | 0 <= k < |sel| && d in sel[k].dependsOn
      ensures d !in Ids(sortedTasks) || (Find(allTasks, d).Some? && Find(allTasks, d).value.completed)
              || d in Ids(sel[..k])
    {
      assert DepSatisfied(allTasks, sortedTasks, m[..k], d);
      var j := FindIndex(sortedTasks, d);
      if j != -1 && j in m[..k] {
        var l :| 0 <= l < k && m[l] == j;
        assert sel[..k][l] == sortedTasks[j];
      }
    }
  }

  /** Every dependency of a selected task is not an incomplete task, or
      the first task with its id is completed, or it was selected earlier. */
  ghost predicate PrerequisitesFirst(tasks: seq<Task>, sel: seq<Task>) {
    forall k, d :: 0 <= k < |sel| && d in sel[k].dependsOn ==>
      d !in Ids(Incomplete(tasks)) || (Find(tasks, d).Some? && Find(tasks, d).value.completed)
      || d in Ids(sel[..k])
  }

  /** scheduleKnapsackDP. None where the source throws: some task is active
      and a budget is negative (the table has no cell [n][T][E]) or the
      active ids repeat (the pre-ordering is shorter than n and the fill loop
      reads a missing task). The ghost sortedTasks is the pre-ordering: every
      active id once, dependencies first when the active graph is acyclic. */
  method ScheduleKnapsackDP(tasks: seq<Task>, timeBudgetMinutes: int, energyBudget: int)
      returns (r: Option<ScheduleResult>, ghost sortedTasks: seq<Task>)
    requires AllValid(tasks)
    ensures r.None? <==> |Incomplete(tasks)| > 0
                          && (timeBudgetMinutes < 0 || energyBudget < 0 || !UniqueIds(Incomplete(tasks)))
    ensures |Incomplete(tasks)| == 0 ==> r == Some(ScheduleResult([], 0, 0, 0, KnapsackDP))
    ensures r.Some? ==>
      var res := r.value;
      && res.algorithm == KnapsackDP
      && res.totalDuration == SumDuration(res.selectedTasks)
      && res.totalEnergy == SumEnergy(res.selectedTasks)
      && res.totalValue == SumValue(res.selectedTasks)
      && UniqueIds(res.selectedTasks)
      && (forall k :: 0 <= k < |res.selectedTasks| ==> res.selectedTasks[k] in tasks && !res.selectedTasks[k].completed)
      && PrerequisitesFirst(tasks, res.selectedTasks)
    ensures r.Some? && |Incomplete(tasks)| > 0 ==>
      && r.value.totalDuration <= timeBudgetMinutes && r.value.totalEnergy <= energyBudget
      && multiset(sortedTasks) == multiset(Incomplete(tasks))
      && var final := Cell(tasks, sortedTasks, |sortedTasks|, timeBudgetMinutes, energyBudget);
         && IsMask(final.mask, |sortedTasks|)
         && r.value.selectedTasks == Select(sortedTasks, final.mask)
         && r.value.totalValue == final.value
    ensures UniqueIds(sortedTasks) && Ids(sortedTasks) == Ids(Incomplete(tasks))
    ensures !ActiveCyclic(tasks, Incomplete(tasks)) ==> FollowedOrder(tasks, Ids(Incomplete(tasks)), sortedTasks)
    ensures r.Some? && (forall t :: t in Incomplete(tasks) ==> t.dependsOn == []) ==>
      forall m :: IsMask(m, |sortedTasks|) && SumDuration(Select(sortedTasks, m)) <= timeBudgetMinutes
                  && SumEnergy(Select(sortedTasks, m)) <= energyBudget
                  ==> SumValue(Select(sortedTasks, m)) <= r.value.totalValue
  {
    var activeTasks := Incomplete(tasks);
    var n := |activeTasks|;
    sortedTasks := [];
    if n == 0 {
      assert Select(sortedTasks, []) == [];
      return Some(ScheduleResult([], 0, 0, 0, KnapsackDP)), sortedTasks;
    }
    var sorted := TopologicalSortForScheduling(activeTasks, tasks);
    sortedTasks := sorted;
    IdsCard(sortedTasks);
    IdsCard(activeTasks);
    if timeBudgetMinutes < 0 || energyBudget < 0 || |sorted| < n {
      return None, sortedTasks;
    }
    assert AllValid(sorted);
    var res := SolveTable(tasks, sorted, timeBudgetMinutes, energyBudget);
    r := Some(res);
  }

  /** Builds the table over a pre-ordering of the active tasks and reads
      the selection of the final cell dp[n][T][E]. */
  method SolveTable(tasks: seq<Task>, sorted: seq<Task>, T: nat, E: nat) returns (res: ScheduleResult)
    requires AllValid(sorted) && UniqueIds(sorted)
    requires forall k :: 0 <= k < |sorted| ==> sorted[k] in Incomplete(tasks)
    requires Ids(sorted) == Ids(Incomplete(tasks))
    ensures res.algorithm == KnapsackDP
    ensures res.totalDuration == SumDuration(res.selectedTasks) <= T
    ensures res.totalEnergy == SumEnergy(res.selectedTasks) <= E
    ensures res.totalValue == SumValue(res.selectedTasks) == Cell(tasks, sorted, |sorted|, T, E).value
    ensures IsMask(Cell(tasks, sorted, |sorted|, T, E).mask, |sorted|)
    ensures res.selectedTasks == Select(sorted, Cell(tasks, sorted, |sorted|, T, E).mask)
    ensures UniqueIds(res.selectedTasks)
    ensures forall k :: 0 <= k < |res.selectedTasks| ==> res.selectedTasks[k] in tasks && !res.selectedTasks[k].completed
    ensures PrerequisitesFirst(tasks, res.selectedTasks)
    ensures (forall t :: t in Incomplete(tasks) ==> t.dependsOn == []) ==>
      forall m :: IsMask(m, |sorted|) && SumDuration(Select(sorted, m)) <= T && SumEnergy(Select(sorted, m)) <= E
                  ==> SumValue(Select(sorted, m)) <= res.totalValue
  {
    var n := |sorted|;
    var dp := FillTable(tasks, sorted, n, T, E);
    var finalState := dp[n, T, E];
    CellIsSound(tasks, sorted, n, T, E);
    DepsClosedTasks(tasks, sorted, finalState.mask);
    SelectUnique(sorted, finalState.mask);
    SelectActive(tasks, sorted, finalState.mask);
    FinalOptimal(tasks, sorted, T, E);
    var selectedTasks := Select(sorted, finalState.mask);
    res := ScheduleResult(selectedTasks, SumDuration(selectedTasks), SumEnergy(selectedTasks),
                          SumValue(selectedTasks), KnapsackDP);
  }

  lemma SelectActive(tasks: seq<Task>, sorted: seq<Task>, m: seq<int>)
    requires IsMask(m, |sorted|)
    requires forall k :: 0 <= k < |sorted| ==> sorted[k] in Incomplete(tasks)
    ensures forall k :: 0 <= k < |m| ==> Select(sorted, m)[k] in tasks && !Select(sorted, m)[k].completed
  {
  }

  lemma FinalOptimal(tasks: seq<Task>, sorted: seq<Task>, T: nat, E: nat)
    requires AllValid(sorted)
    requires forall k :: 0 <= k < |sorted| ==> sorted[k] in Incomplete(tasks)
    ensures (forall t :: t in Incomplete(tasks) ==> t.dependsOn == []) ==>
      forall m :: IsMask(m, |sorted|) && SumDuration(Select(sorted, m)) <= T && SumEnergy(Select(sorted, m)) <= E
                  ==> SumValue(Select(sorted, m)) <= Cell(tasks, sorted, |sorted|, T, E).value
  {
    if forall t :: t in Incomplete(tasks) ==> t.dependsOn == [] {
      forall m | IsMask(m, |sorted|) && SumDuration(Select(sorted, m)) <= T && SumEnergy(Select(sorted, m)) <= E
        ensures SumValue(Select(sorted, m)) <= Cell(tasks, sorted, |sorted|, T, E).value
      {
        CellOptimal(tasks, sorted, |sorted|, T, E, m);
      }
    }
  }

  /** Distinct indices into a list with unique ids select unique ids. */
  lemma SelectUnique(sortedTasks: seq<Task>, m: seq<int>)
    requires UniqueIds(sortedTasks) && IsMask(m, |sortedTasks|)
    ensures UniqueIds(Select(sortedTasks, m))
  {
  }
}
