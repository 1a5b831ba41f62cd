/** Progress is bounded: what any sequence of steps can still do to a run is paid for by a budget fixed at creation. */
module RunMeasure {
  import opened Lifecycle
  import opened RunTables
  import opened RunInvariant
  import opened RunMachine

  // ---- sums over the rows ------------------------------------------------------

  ghost function Total(m: map<TaskId, int>): int {
    if m == map[] then 0 else var t :| t in m; m[t] + Total(m - {t})
  }

  lemma {:induction false} TotalSplit(m: map<TaskId, int>, t: TaskId)
    requires t in m
    ensures Total(m) == m[t] + Total(m - {t})
    decreases |m|
  {
    var u :| u in m && Total(m) == m[u] + Total(m - {u});
    if u != t {
      TotalSplit(m - {u}, t);
      TotalSplit(m - {t}, u);
      assert m - {u} - {t} == m - {t} - {u};
    }
  }

  lemma {:induction false} TotalMonotone(m: map<TaskId, int>, m': map<TaskId, int>)
    requires m.Keys == m'.Keys && forall t | t in m :: m'[t] <= m[t]
    ensures Total(m') <= Total(m)
    ensures (exists t | t in m :: m'[t] < m[t]) ==> Total(m') < Total(m)
    decreases |m|
  {
    if m != map[] {
      var t :| t in m && ((exists u | u in m :: m'[u] < m[u]) ==> m'[t] < m[t]);
      TotalSplit(m, t);
      TotalSplit(m', t);
      TotalMonotone(m - {t}, m' - {t});
    } else {
      assert m' == map[];
    }
  }

  lemma {:induction false} TotalNonNegative(m: map<TaskId, int>)
    requires forall t | t in m :: m[t] >= 0
    ensures Total(m) >= 0
    decreases |m|
  {
    if m != map[] {
      var t :| t in m && Total(m) == m[t] + Total(m - {t});
      TotalNonNegative(m - {t});
    }
  }

  // ---- the measure -------------------------------------------------------------

  function Rank(s: TaskState): int {
    match s
    case Pending => 2
    case Running => 2
    case Ready => 1
    case Retrying => 1
    case _ => 0
  }

  /** Two per attempt still allowed, plus how far the row is from rest. */
  function RowMeasure(row: TaskRun): int {
    2 * (row.maxAttempts - row.attempt) + Rank(row.state)
  }

  function RowBudget(row: TaskRun): int {
    2 * row.maxAttempts + 2
  }

  ghost function Measure(rows: Rows): int {
    Total(map t | t in rows :: RowMeasure(rows[t]))
  }

  ghost function Budget(rows: Rows): int {
    Total(map t | t in rows :: RowBudget(rows[t]))
  }

  /** The row has been claimed, returned, finished, released, blocked or cancelled. A renewed lease or a lowered
      dependency count is not progress by itself. */
  predicate Progressed(row: TaskRun, row': TaskRun) {
    row'.state != row.state || row'.attempt != row.attempt
  }

  ghost predicate SomeProgress(rows: Rows, rows': Rows) {
    exists t | t in rows && t in rows' :: Progressed(rows[t], rows'[t])
  }

  lemma MoveMeasure(row: TaskRun, row': TaskRun)
    requires Moves(row, row')
    ensures RowMeasure(row') <= RowMeasure(row) && RowBudget(row') == RowBudget(row)
    ensures Progressed(row, row') ==> RowMeasure(row') < RowMeasure(row)
  {
  }

  lemma MovesLowerMeasure(rows: Rows, rows': Rows)
    requires rows'.Keys == rows.Keys && forall t | t in rows :: Moves(rows[t], rows'[t])
    ensures Measure(rows') <= Measure(rows)
    ensures SomeProgress(rows, rows') ==> Measure(rows') < Measure(rows)
  {
    var m, m' := map t | t in rows :: RowMeasure(rows[t]), map t | t in rows' :: RowMeasure(rows'[t]);
    forall t | t in m ensures m'[t] <= m[t] && (Progressed(rows[t], rows'[t]) ==> m'[t] < m[t]) {
      MoveMeasure(rows[t], rows'[t]);
    }
    TotalMonotone(m, m');
  }

  lemma MovesKeepBudget(rows: Rows, rows': Rows)
    requires rows'.Keys == rows.Keys && forall t | t in rows :: Moves(rows[t], rows'[t])
    ensures Budget(rows') == Budget(rows)
  {
    assert (map t | t in rows :: RowBudget(rows[t])) == (map t | t in rows' :: RowBudget(rows'[t]));
  }

  /** Every step either changes no state and no attempt counter, or strictly lowers the measure. */
  lemma StepLowersMeasure(run: Run, step: RunStep)
    requires Inv(run) && Enabled(run, step)
    ensures Measure(Apply(run, step).rows) <= Measure(run.rows)
    ensures SomeProgress(run.rows, Apply(run, step).rows) ==> Measure(Apply(run, step).rows) < Measure(run.rows)
    ensures Budget(Apply(run, step).rows) == Budget(run.rows)
  {
    var rows' := Apply(run, step).rows;
    StepKeepsKeys(run, step);
    forall t | t in run.rows ensures Moves(run.rows[t], rows'[t]) {
      StepMoves(run, step, t);
    }
    MovesLowerMeasure(run.rows, rows');
    MovesKeepBudget(run.rows, rows');
  }

  lemma MeasureWithinBudget(run: Run)
    requires Inv(run)
    ensures 0 <= Measure(run.rows) <= Budget(run.rows)
  {
    forall t | t in run.rows ensures 0 <= RowMeasure(run.rows[t]) <= RowBudget(run.rows[t]) {
      assert RowOk(run.parents, run.rows, t);
    }
    TotalNonNegative(map t | t in run.rows :: RowMeasure(run.rows[t]));
    TotalMonotone(map t | t in run.rows :: RowBudget(run.rows[t]), map t | t in run.rows :: RowMeasure(run.rows[t]));
  }

  // ---- bounds on every trace ----------------------------------------------------

  ghost function ProgressSteps(run: Run, steps: seq<RunStep>): nat
    decreases |steps|
  {
    if steps == [] then 0
    else
      var run' := Apply(run, steps[0]);
      (if SomeProgress(run.rows, run'.rows) then 1 else 0) + ProgressSteps(run', steps[1..])
  }

  lemma {:induction false} TraceSpendsMeasure(run: Run, steps: seq<RunStep>)
    requires Inv(run) && Allowed(run, steps)
    ensures ProgressSteps(run, steps) + Measure(Replay(run, steps).rows) <= Measure(run.rows)
    decreases |steps|
  {
    if steps != [] {
      StepLowersMeasure(run, steps[0]);
      StepKeeps(run, steps[0]);
      TraceSpendsMeasure(Apply(run, steps[0]), steps[1..]);
    }
  }

  /** However claims, reports, reaps and a cancellation interleave, at most `2 * maxAttempts + 2` steps per task,
      summed over the run, ever make progress. */
  lemma ProgressIsBounded(run: Run, steps: seq<RunStep>)
    requires Reachable(run) && Allowed(run, steps)
    ensures ProgressSteps(run, steps) <= Budget(run.rows)
  {
    ReachableInv(run);
    TraceSpendsMeasure(run, steps);
    MeasureWithinBudget(run);
    TraceKeeps(run, steps);
    MeasureWithinBudget(Replay(run, steps));
  }

  function ClaimsOf(t: TaskId, steps: seq<RunStep>): nat {
    if steps == [] then 0
    else (if steps[0].Claim? && t in steps[0].chosen then 1 else 0) + ClaimsOf(t, steps[1..])
  }

  lemma StepCountsClaim(run: Run, step: RunStep, t: TaskId)
    requires Inv(run) && Enabled(run, step) && t in run.rows
    ensures t in Apply(run, step).rows
    ensures Apply(run, step).rows[t].attempt == run.rows[t].attempt + ClaimsOf(t, [step])
    ensures Apply(run, step).rows[t].maxAttempts == run.rows[t].maxAttempts
  {
    StepMoves(run, step, t);
    assert [step][1..] == [];
    if !step.Claim? {
      OnlyClaimsClaim(run, step, t);
    }
  }

  lemma {:induction false} ClaimsAreAttempts(run: Run, steps: seq<RunStep>, t: TaskId)
    requires Inv(run) && Allowed(run, steps) && t in run.rows
    ensures t in Replay(run, steps).rows
    ensures Replay(run, steps).rows[t].attempt == run.rows[t].attempt + ClaimsOf(t, steps)
    ensures Replay(run, steps).rows[t].maxAttempts == run.rows[t].maxAttempts
    decreases |steps|
  {
    if steps != [] {
      StepCountsClaim(run, steps[0], t);
      StepKeeps(run, steps[0]);
      ClaimsAreAttempts(Apply(run, steps[0]), steps[1..], t);
    }
  }

  /** No task is ever handed out more often than its retry policy allows. */
  lemma ClaimedAtMostBudget(run: Run, steps: seq<RunStep>, t: TaskId)
    requires Reachable(run) && Allowed(run, steps) && t in run.rows
    ensures run.rows[t].attempt + ClaimsOf(t, steps) <= run.rows[t].task.policy.MaxAttempts()
  {
    ReachableInv(run);
    ClaimsAreAttempts(run, steps, t);
    TraceKeeps(run, steps);
    assert RowOk(run.parents, run.rows, t);
    assert RowOk(Replay(run, steps).parents, Replay(run, steps).rows, t);
  }
}
