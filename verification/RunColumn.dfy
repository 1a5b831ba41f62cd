/** What the cached run state says while work remains, and where it leaves the declared run transitions. Claims and
    lease expiry do not refresh it; reports and cancellations do. */
module RunColumn {
  import opened Wrappers
  import opened Lifecycle
  import opened Graphs
  import opened RunTables
  import opened RunInvariant
  import opened RunReports
  import opened RunMachine
  import opened RunTheorems

  predicate Unended(s: TaskState) {
    s.Pending? || s.Ready? || s.Running?
  }

  predicate Waiting(s: TaskState) {
    s.Pending? || s.Ready?
  }

  predicate AllWaiting(rows: Rows) {
    forall t | t in rows :: Waiting(rows[t].state)
  }

  /** A run shown as PENDING has nothing that ended, though tasks of it may be running. */
  predicate PendingOk(run: Run) {
    run.state.RunPending? ==> forall t | t in run.rows :: Unended(run.rows[t].state)
  }

  lemma RefreshPendingOk(run: Run)
    requires run.rows != map[]
    ensures PendingOk(Refresh(run))
    ensures Refresh(run).state.RunPending? <==> AllWaiting(run.rows)
  {
    var states := StateSet(run.rows);
    var some :| some in run.rows;
    assert run.rows[some].state in states;
    assert forall t | t in run.rows :: run.rows[t].state in states;
  }

  lemma ClaimKeepsPendingOk(run: Run, chosen: set<TaskId>, w: WorkerId, until: Time)
    requires PendingOk(run)
    ensures PendingOk(ClaimRows(run, chosen, w, until))
  {
  }

  lemma ReapKeepsPendingOk(run: Run, now: Time)
    requires PendingOk(run)
    ensures PendingOk(ReapRun(run, now))
  {
  }

  lemma StepKeepsPendingOk(run: Run, step: RunStep)
    requires PendingOk(run) && Apply(run, step).rows != map[]
    ensures PendingOk(Apply(run, step))
  {
    match step
    case Claim(chosen, w, until) => ClaimKeepsPendingOk(run, chosen, w, until);
    case Renew(_, _, _) =>
    case ReportSuccess(t, w) => RefreshPendingOk(SucceedTask(run, t, w));
    case ReportFailure(t, w, now, draw) => RefreshPendingOk(FailTask(run, t, w, now, draw));
    case Reap(now) => ReapKeepsPendingOk(run, now);
    case Cancel => RefreshPendingOk(run.(rows := CancelRows(run.rows)));
  }

  lemma {:induction false} TraceKeepsPendingOk(run: Run, steps: seq<RunStep>)
    requires Inv(run) && Allowed(run, steps) && PendingOk(run)
    ensures PendingOk(Replay(run, steps))
    decreases |steps|
  {
    if steps != [] {
      StepKeeps(run, steps[0]);
      StepKeepsPendingOk(run, steps[0]);
      TraceKeepsPendingOk(Apply(run, steps[0]), steps[1..]);
    }
  }

  lemma FreshPendingOk(tasks: map<TaskId, TaskDef>, parents: Graph<TaskId>, now: Time)
    requires tasks != map[]
    ensures CreateRun(tasks, parents, now).Success? && PendingOk(CreateRun(tasks, parents, now).value) == true
  {
  }

  /** In every reachable state, a run shown as PENDING has no task that ended. */
  lemma PendingShowsNothingEnded(run: Run)
    requires Reachable(run)
    ensures PendingOk(run)
  {
    var tasks: map<TaskId, TaskDef>, parents: Graph<TaskId>, now: Time, steps: seq<RunStep> :|
      Accepted(tasks, parents) && LeadsTo(CreateRun(tasks, parents, now), steps, run);
    FreshPendingOk(tasks, parents, now);
    var start := CreateRun(tasks, parents, now).value;
    assert Inv(start) == true by { CreateKeeps(tasks, parents, now); }
    TraceKeepsPendingOk(start, steps);
  }

  lemma AgreesIff(run: Run)
    requires run.rows != map[] && CachedOk(run)
    ensures run.state == RollUp(StateSet(run.rows)) <==>
            run.state.IsTerminal() || (run.state.RunPending? <==> AllWaiting(run.rows))
  {
    RefreshPendingOk(run);
    assert Refresh(run).state == RollUp(StateSet(run.rows));
  }

  /** The column agrees with the state derived from the rows exactly when it is terminal, or says PENDING for the very
      runs in which nothing was started that has not returned to the queue. */
  lemma StoredIsDerivedIff(run: Run)
    requires Reachable(run)
    ensures run.state == RollUp(StateSet(run.rows)) <==>
            run.state.IsTerminal() || (run.state.RunPending? <==> AllWaiting(run.rows))
  {
    ReachableInv(run);
    AgreesIff(run);
  }

  // ---- where the column leaves its table ------------------------------------------

  /** The step moves the column along no declared transition. */
  predicate LeavesTable(before: RunState, after: RunState) {
    after != before && after !in RunTransitions(before)
  }

  /** Every other task lies below `t`. */
  ghost predicate AllBelow(run: Run, t: TaskId) {
    forall u | u in run.rows && u != t :: Reaches(run.parents, t, u)
  }

  predicate OthersWait(run: Run, t: TaskId) {
    forall u | u in run.rows && u != t :: Waiting(run.rows[u].state)
  }

  /** The reports that move the column along no declared transition. A success, or a failure for good, ends a run that
      was never shown RUNNING; a retry, or a report that is refused and refreshes the column all the same, brings a run
      shown RUNNING back to PENDING. */
  ghost predicate Strays(run: Run, step: RunStep) {
    match step
    case ReportSuccess(t, w) =>
      if Holds(run, t, w) then run.state.RunPending? && run.rows.Keys == {t}
      else run.state.RunRunning? && AllWaiting(run.rows)
    case ReportFailure(t, w, _, _) =>
      if !Holds(run, t, w) then run.state.RunRunning? && AllWaiting(run.rows)
      else if run.rows[t].Exhausted() then run.state.RunPending? && AllBelow(run, t)
      else run.state.RunRunning? && OthersWait(run, t)
    case _ => false
  }

  /** The column is what a refresh would make it. */
  predicate Refreshed(run: Run) {
    && (run.state.IsTerminal() <==> AllTerminal(run.rows))
    && (run.state.RunSucceeded? <==> forall u | u in run.rows :: run.rows[u].state.Succeeded?)
    && (run.state.RunPending? <==> AllWaiting(run.rows))
    && (run.state.RunCancelled? ==> exists u | u in run.rows :: run.rows[u].state.Cancelled?)
  }

  lemma CancelledShows(run: Run)
    requires run.state == RollUp(StateSet(run.rows)) && run.state.RunCancelled?
    ensures exists u | u in run.rows :: run.rows[u].state.Cancelled?
  {
    assert Cancelled in StateSet(run.rows);
  }

  lemma RefreshedVerdict(run: Run)
    requires Reachable(run) && run.state == RollUp(StateSet(run.rows))
             && (run.state.RunPending? <==> AllWaiting(run.rows))
    ensures Refreshed(run) == true
  {
    CachedStateTellsTheEnd(run);
    if run.state.RunCancelled? { CancelledShows(run); }
    assert Refreshed(run);
  }

  lemma ReportRefreshes(run: Run, step: RunStep)
    requires Apply(run, step).rows != map[] && (step.ReportSuccess? || step.ReportFailure?)
    ensures Apply(run, step).state == RollUp(StateSet(Apply(run, step).rows))
    ensures Apply(run, step).state.RunPending? <==> AllWaiting(Apply(run, step).rows)
  {
    if step.ReportSuccess? {
      RefreshPendingOk(SucceedTask(run, step.finished, step.finisher));
    } else {
      RefreshPendingOk(FailTask(run, step.broken, step.failer, step.at, step.draw));
    }
  }

  lemma ReportedColumn(run: Run, step: RunStep)
    requires Reachable(run) && Enabled(run, step) && (step.ReportSuccess? || step.ReportFailure?)
    ensures Refreshed(Apply(run, step)) == true && Apply(run, step).rows.Keys == run.rows.Keys
  {
    ReachableInv(run);
    StepKeepsKeys(run, step);
    StepFromReachable(run, step);
    ReportRefreshes(run, step);
    RefreshedVerdict(Apply(run, step));
  }

  lemma HolderIsActive(run: Run, t: TaskId)
    requires Reachable(run) && t in run.rows && run.rows[t].worker.Some?
    ensures run.state.RunPending? || run.state.RunRunning?
    ensures run.rows[t].state.Running?
  {
    StoredRowsHonest(run, t);
    CachedStateTellsTheEnd(run);
  }

  /** One row succeeded, the others only went on waiting or were released. */
  predicate OneSucceeded(rows: Rows, rows': Rows, t: TaskId) {
    && rows'.Keys == rows.Keys && t in rows && rows'[t].state.Succeeded?
    && forall u | u in rows && u != t ::
         rows'[u].state == rows[u].state || (rows[u].state.Pending? && rows'[u].state.Ready?)
  }

  lemma SuccessRowsOf(run: Run, t: TaskId, w: WorkerId)
    requires Holds(run, t, w)
    ensures OneSucceeded(run.rows, Apply(run, ReportSuccess(t, w)).rows, t)
  {
  }

  lemma SuccessColumn(run: Run, run': Run, t: TaskId)
    requires OneSucceeded(run.rows, run'.rows, t) && Refreshed(run')
    requires PendingOk(run) && (run.state.RunPending? || run.state.RunRunning?)
    ensures LeavesTable(run.state, run'.state) <==> run.state.RunPending? && run.rows.Keys == {t}
  {
    assert !Waiting(run'.rows[t].state);
    if run.state.RunPending? && run.rows.Keys != {t} {
      var u :| u in run.rows.Keys && u != t;
      assert !run'.rows[u].state.IsTerminal();
    }
  }

  /** An accepted success takes the column from PENDING to SUCCEEDED without passing RUNNING exactly in a run of one
      task, and leaves the declared transitions in no other way. */
  lemma SuccessLeavesTableIff(run: Run, t: TaskId, w: WorkerId)
    requires Reachable(run) && Holds(run, t, w)
    ensures LeavesTable(run.state, Apply(run, ReportSuccess(t, w)).state) <==>
            run.state.RunPending? && run.rows.Keys == {t}
  {
    HolderIsActive(run, t);
    PendingShowsNothingEnded(run);
    ReportedColumn(run, ReportSuccess(t, w));
    SuccessRowsOf(run, t, w);
    SuccessColumn(run, Apply(run, ReportSuccess(t, w)), t);
  }

  lemma RetryColumn(run: Run, run': Run, t: TaskId)
    requires t in run.rows && t in run'.rows && run'.rows == run.rows[t := run'.rows[t]] && run'.rows[t].state.Ready?
    requires Refreshed(run') && (run.state.RunPending? || run.state.RunRunning?)
    ensures LeavesTable(run.state, run'.state) <==> run.state.RunRunning? && OthersWait(run, t)
  {
    assert !run'.rows[t].state.IsTerminal();
    assert forall u | u in run'.rows && u != t :: run'.rows[u] == run.rows[u];
    assert forall u | u in run.rows && u != t :: run'.rows[u] == run.rows[u];
  }

  /** An accepted failure that retries takes the column from RUNNING back to PENDING exactly when no other task is
      running or has ended, and leaves the declared transitions in no other way. */
  lemma RetryLeavesTableIff(run: Run, t: TaskId, w: WorkerId, now: Time, draw: real)
    requires Reachable(run) && FailureState(run, t, w, draw) == Some(Retrying)
    ensures LeavesTable(run.state, Apply(run, ReportFailure(t, w, now, draw)).state) <==>
            run.state.RunRunning? && OthersWait(run, t)
  {
    HolderIsActive(run, t);
    ReportedColumn(run, ReportFailure(t, w, now, draw));
    RetryColumn(run, Apply(run, ReportFailure(t, w, now, draw)), t);
  }

  /** One row was dead-lettered, what lies below it is blocked, and the others are as they were. */
  ghost predicate OneDead(run: Run, rows': Rows, t: TaskId) {
    && rows'.Keys == run.rows.Keys && t in run.rows && rows'[t].state.DeadLetter?
    && forall u | u in run.rows && u != t ::
         if Reaches(run.parents, t, u) then rows'[u].state.Blocked? else rows'[u].state == run.rows[u].state
  }

  lemma DeadRowsOf(run: Run, t: TaskId, w: WorkerId, now: Time, draw: real)
    requires Core(run) && Holds(run, t, w) && FailureState(run, t, w, draw) == Some(DeadLetter)
    ensures OneDead(run, FailTask(run, t, w, now, draw).rows, t)
  {
    TerminalFailureRows(run, t);
    NoSelfReach(run.parents, t);
    FailedRows(run, t, w, now, draw);
  }

  lemma FailedRows(run: Run, t: TaskId, w: WorkerId, now: Time, draw: real)
    requires t in run.rows && FailureState(run, t, w, draw) == Some(DeadLetter)
    ensures FailTask(run, t, w, now, draw).rows
            == BlockLevels(run.parents, run.rows[t := run.rows[t].Released(DeadLetter)], {t})
  {
  }

  lemma DeadColumn(run: Run, run': Run, t: TaskId)
    requires OneDead(run, run'.rows, t) && Refreshed(run')
    requires PendingOk(run) && (run.state.RunPending? || run.state.RunRunning?)
    ensures LeavesTable(run.state, run'.state) <==> run.state.RunPending? && AllBelow(run, t)
  {
    assert !Waiting(run'.rows[t].state) && !run'.rows[t].state.Succeeded?;
    if run.state.RunPending? {
      assert forall u | u in run.rows && u != t :: run'.rows[u].state.IsTerminal() <==> Reaches(run.parents, t, u);
    }
  }

  /** An accepted failure on the last attempt takes the column from PENDING to FAILED without passing RUNNING exactly
      when every other task lies below the one that failed, and leaves the declared transitions in no other way. */
  lemma TerminalFailureLeavesTableIff(run: Run, t: TaskId, w: WorkerId, now: Time, draw: real)
    requires Reachable(run) && FailureState(run, t, w, draw) == Some(DeadLetter)
    ensures LeavesTable(run.state, Apply(run, ReportFailure(t, w, now, draw)).state) <==>
            run.state.RunPending? && AllBelow(run, t)
  {
    HolderIsActive(run, t);
    PendingShowsNothingEnded(run);
    ReportedColumn(run, ReportFailure(t, w, now, draw));
    ReachableInv(run);
    DeadRowsOf(run, t, w, now, draw);
    DeadColumn(run, Apply(run, ReportFailure(t, w, now, draw)), t);
  }

  lemma RefusedColumn(run: Run, run': Run)
    requires run' == Refresh(run) && Refreshed(run') && PendingOk(run) && run.rows != map[]
    requires (run.state.IsTerminal() <==> AllTerminal(run.rows)) && CachedOk(run)
    ensures LeavesTable(run.state, run'.state) <==> run.state.RunRunning? && AllWaiting(run.rows)
  {
  }

  lemma RefusedIsRefresh(run: Run, step: RunStep)
    requires Core(run)
    requires match step
             case ReportSuccess(t, w) => !Holds(run, t, w)
             case ReportFailure(t, w, _, _) => !Holds(run, t, w)
             case _ => false
    ensures Apply(run, step) == Refresh(run)
  {
    if step.ReportFailure? {
      FailureOutcome(run, step.broken, step.failer, step.draw);
    }
  }

  /** A refused report changes no row, but refreshes the column. That takes it from RUNNING back to PENDING exactly when
      everything is back in the queue, and leaves the declared transitions in no other way. */
  lemma RefusedLeavesTableIff(run: Run, step: RunStep)
    requires Reachable(run)
    requires match step
             case ReportSuccess(t, w) => !Holds(run, t, w)
             case ReportFailure(t, w, _, _) => !Holds(run, t, w)
             case _ => false
    ensures LeavesTable(run.state, Apply(run, step).state) <==> run.state.RunRunning? && AllWaiting(run.rows)
  {
    ReachableInv(run);
    PendingShowsNothingEnded(run);
    ColumnVerdict(run);
    ReportedColumn(run, step);
    RefusedIsRefresh(run, step);
    RefusedColumn(run, Apply(run, step));
  }

  lemma CancelColumn(run: Run)
    requires CachedOk(run) && (run.state.IsTerminal() <==> AllTerminal(run.rows))
    ensures run.state.IsTerminal() ==> CancelRun(run).state == run.state
    ensures !run.state.IsTerminal() ==> CancelRun(run).state.RunCancelled?
  {
    var rows' := CancelRows(run.rows);
    if run.state.IsTerminal() {
      assert rows' == run.rows;
    } else {
      var t :| t in run.rows && !run.rows[t].state.IsTerminal();
      assert rows'[t].state == Cancelled && Cancelled in StateSet(rows');
    }
  }

  lemma ApplyCancel(run: Run)
    ensures Apply(run, Cancel) == CancelRun(run)
  {
  }

  /** A cancellation never leaves the table: it ends every run that has not ended as CANCELLED. */
  lemma CancelKeepsTable(run: Run)
    requires Reachable(run)
    ensures Apply(run, Cancel).state == if run.state.IsTerminal() then run.state else RunCancelled
    ensures !LeavesTable(run.state, Apply(run, Cancel).state)
  {
    assert CachedOk(run) by { ReachableInv(run); }
    CachedStateTellsTheEnd(run);
    CancelColumn(run);
    ApplyCancel(run);
  }

  /** The steps that move the column along no declared transition are exactly these. */
  lemma ColumnLeavesTableIff(run: Run, step: RunStep)
    requires Reachable(run) && Enabled(run, step)
    ensures LeavesTable(run.state, Apply(run, step).state) <==> Strays(run, step)
  {
    match step
    case ReportSuccess(t, w) =>
      if Holds(run, t, w) { SuccessLeavesTableIff(run, t, w); } else { RefusedLeavesTableIff(run, step); }
    case ReportFailure(t, w, now, draw) =>
      if !Holds(run, t, w) {
        RefusedLeavesTableIff(run, step);
      } else {
        HeldFailure(run, t, w, draw);
        if run.rows[t].Exhausted() {
          TerminalFailureLeavesTableIff(run, t, w, now, draw);
        } else {
          RetryLeavesTableIff(run, t, w, now, draw);
        }
      }
    case Cancel => CancelKeepsTable(run);
    case _ =>
  }

  lemma HeldFailure(run: Run, t: TaskId, w: WorkerId, draw: real)
    requires Reachable(run) && Holds(run, t, w)
    ensures FailureState(run, t, w, draw) == Some(if run.rows[t].Exhausted() then DeadLetter else Retrying)
  {
    ReachableInv(run);
    FailureOutcome(run, t, w, draw);
    assert RowOk(run.parents, run.rows, t);
  }
}
