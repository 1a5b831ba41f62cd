/** A lease that expires on the last attempt. The reaper requeues the task like any other, but the budget constraint
    refuses every later claim of it: until the run is cancelled the task is READY and stays so. */
module Stranding {
  import opened Lifecycle
  import opened Retry
  import opened Graphs
  import opened RunTables
  import opened RunInvariant
  import opened RunReports
  import opened RunMachine
  import opened RunTheorems

  predicate Stranded(run: Run, t: TaskId) {
    t in run.rows && run.rows[t].state.Ready? && run.rows[t].Exhausted()
  }

  /** What the reaper returns to the queue can be claimed again exactly when attempts are left. */
  lemma ReapedIsClaimableIff(run: Run, now: Time, t: TaskId)
    requires Reachable(run) && t in run.rows && Expired(run.rows[t], now)
    ensures Claimable(ReapRun(run, now), {t}) <==> run.rows[t].attempt < run.rows[t].task.policy.MaxAttempts()
    ensures Stranded(ReapRun(run, now), t) <==> run.rows[t].attempt == run.rows[t].task.policy.MaxAttempts()
  {
    AttemptLogTruthful(run, t, 0);
    assert t in {t};
  }

  lemma LevelsNeverCancel(run: Run, u: TaskId, w: WorkerId, now: Time, draw: real, t: TaskId)
    requires t in run.rows
    ensures t in FailTask(run, u, w, now, draw).rows
    ensures FailTask(run, u, w, now, draw).rows[t].state.Cancelled? ==> run.rows[t].state.Cancelled?
  {
    var outcome := FailureState(run, u, w, draw);
    if outcome.Some? && outcome.value != Retrying {
      LevelsOnlyBlock(run.parents, run.rows[u := run.rows[u].Released(outcome.value)], {u}, t);
    }
  }

  lemma OnlyCancelCancels(run: Run, step: RunStep, t: TaskId)
    requires !step.Cancel? && t in run.rows
    ensures t in Apply(run, step).rows
    ensures Apply(run, step).rows[t].state.Cancelled? ==> run.rows[t].state.Cancelled?
  {
    if step.ReportFailure? {
      LevelsNeverCancel(run, step.broken, step.failer, step.at, step.draw, t);
    }
  }

  lemma StrandedStays(run: Run, step: RunStep, t: TaskId)
    requires Inv(run) && Enabled(run, step) && Stranded(run, t) && !step.Cancel?
    ensures t in Apply(run, step).rows && Apply(run, step).rows[t] == run.rows[t]
  {
    StepMoves(run, step, t);
    OnlyCancelCancels(run, step, t);
  }

  lemma {:induction false} StrandedThroughout(run: Run, steps: seq<RunStep>, t: TaskId)
    requires Inv(run) && Allowed(run, steps) && Stranded(run, t) && Cancel !in steps
    ensures Inv(Replay(run, steps)) && t in Replay(run, steps).rows && Replay(run, steps).rows[t] == run.rows[t]
    decreases |steps|
  {
    if steps != [] {
      StrandedStays(run, steps[0], t);
      StepKeeps(run, steps[0]);
      StrandedThroughout(Apply(run, steps[0]), steps[1..], t);
    }
  }

  lemma NotOver(run: Run, t: TaskId)
    requires CachedOk(run) && t in run.rows && !run.rows[t].state.IsTerminal()
    ensures !run.state.IsTerminal()
  {
    ColumnVerdict(run);
  }

  /** Once stranded, a task is never executed, finished or released by anything but a cancellation, and its run never
      ends. */
  lemma StrandedForever(run: Run, steps: seq<RunStep>, t: TaskId)
    requires Reachable(run) && Allowed(run, steps) && Stranded(run, t) && Cancel !in steps
    ensures t in Replay(run, steps).rows && Replay(run, steps).rows[t] == run.rows[t]
    ensures !Replay(run, steps).state.IsTerminal()
  {
    ReachableInv(run);
    StrandedThroughout(run, steps, t);
    NotOver(Replay(run, steps), t);
  }

  /** It does happen: a task without retries whose only worker dies. */
  lemma StrandingHappens(w: WorkerId)
    ensures exists run: Run :: Reachable(run) && Stranded(run, 0)
  {
    var start := OneTaskRun(NoRetry);
    var claimed := ClaimOnly(start, w, 1.0);
    var reaped := ReapOnly(claimed, 2.0);
    assert Stranded(reaped, 0);
  }

  // ---- short scenarios with one task ------------------------------------------------

  predicate Recorded(attempts: Attempts, k: AttemptKey, w: WorkerId) {
    k in attempts && attempts[k].worker == w
  }

  lemma ReachableLog(run: Run)
    requires Reachable(run)
    ensures AttemptsOk(run.rows, run.attempts)
  {
    ReachableInv(run);
  }

  lemma ClaimRecords(run: Run, chosen: set<TaskId>, w: WorkerId, until: Time, t: TaskId)
    requires t in chosen && t in run.rows
    ensures Recorded(ClaimRows(run, chosen, w, until).attempts, AttemptKey(t, run.rows[t].attempt + 1), w) == true
  {
    WasOpened(run.rows, chosen, w, t);
  }

  lemma ClaimStep(run: Run, w: WorkerId, until: Time)
    requires Reachable(run) && 0 in run.rows && run.rows[0].state.Ready? && !run.rows[0].Exhausted()
    ensures Reachable(ClaimRows(run, {0}, w, until)) == true
  {
    StepFromReachable(run, Claim({0}, w, until));
  }

  lemma ClaimedRows(run: Run, w: WorkerId, until: Time)
    requires 0 in run.rows
    ensures ClaimRows(run, {0}, w, until).rows == run.rows[0 := ClaimRow(run.rows[0], w, until)]
  {
  }

  lemma ClaimOnly(run: Run, w: WorkerId, until: Time) returns (run': Run)
    requires Reachable(run) && 0 in run.rows && run.rows[0].state.Ready? && !run.rows[0].Exhausted()
    ensures Reachable(run') && run'.rows == run.rows[0 := ClaimRow(run.rows[0], w, until)] && run'.state == run.state
    ensures Recorded(run'.attempts, AttemptKey(0, run.rows[0].attempt + 1), w) == true
    ensures LogGrows(run.attempts, run'.attempts)
  {
    run' := ClaimRows(run, {0}, w, until);
    ClaimStep(run, w, until);
    ClaimedRows(run, w, until);
    ReachableLog(run);
    ClaimGrowsLog(run.rows, run.attempts, {0}, w);
    ClaimRecords(run, {0}, w, until, 0);
  }

  lemma ApplyReap(run: Run, now: Time)
    ensures Apply(run, Reap(now)) == ReapRun(run, now)
  {
  }

  lemma ReapStep(run: Run, now: Time)
    requires Reachable(run)
    ensures Reachable(ReapRun(run, now)) == true
  {
    ApplyReap(run, now);
    StepFromReachable(run, Reap(now));
  }

  lemma ReapOnly(run: Run, now: Time) returns (run': Run)
    requires Reachable(run) && 0 in run.rows && Expired(run.rows[0], now)
    requires AttemptKey(0, run.rows[0].attempt) in run.attempts
    ensures Reachable(run') && 0 in run'.rows && run'.rows[0] == run.rows[0].Released(Ready)
    ensures run'.rows.Keys == run.rows.Keys && run'.state == run.state
    ensures LogGrows(run.attempts, run'.attempts)
    ensures AttemptKey(0, run.rows[0].attempt) in run'.attempts
            && run'.attempts[AttemptKey(0, run.rows[0].attempt)].finished
  {
    run' := ReapRun(run, now);
    ReapStep(run, now);
    ReapGrowsLog(run, now);
    ReapCloses(run, 0, now);
  }

  lemma ReapCloses(run: Run, t: TaskId, now: Time)
    requires t in run.rows && Expired(run.rows[t], now) && AttemptKey(t, run.rows[t].attempt) in run.attempts
    ensures AttemptKey(t, run.rows[t].attempt) in ReapRun(run, now).attempts
    ensures ReapRun(run, now).attempts[AttemptKey(t, run.rows[t].attempt)].finished
  {
  }

  lemma OneTaskRun(policy: RetryPolicy) returns (run: Run)
    requires policy.WellFormed()
    ensures Reachable(run) && run.rows == map[0 := NewRow(TaskDef(policy, 0), 0, 0.0)] && run.state.RunPending?
  {
    var tasks := map[0 := TaskDef(policy, 0)];
    var parents: Graph<TaskId> := map[0 := {}];
    TopologicalMeansAcyclic(parents, [0]);
    assert 0 in tasks && tasks[0].policy.WellFormed();
    assert Accepted(tasks, parents);
    FreshIsReachable(tasks, parents, 0.0);
    run := CreateRun(tasks, parents, 0.0).value;
  }
}
