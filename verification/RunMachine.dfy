/** One run as a state machine: the committed transactions that touch it, in any order, and what holds of every run of
    it. Clock readings, jitter draws and the choice of rows and workers are arbitrary inputs of the steps. */
module RunMachine {
  import opened Wrappers
  import opened Lifecycle
  import opened Graphs
  import opened RunTables
  import opened RunInvariant
  import opened RunReports

  /** A report is committed together with the refresh of the cached state. */
  datatype RunStep =
    | Claim(chosen: set<TaskId>, claimer: WorkerId, until: Time)
    | Renew(renewed: TaskId, renewer: WorkerId, extended: Time)
    | ReportSuccess(finished: TaskId, finisher: WorkerId)
    | ReportFailure(broken: TaskId, failer: WorkerId, at: Time, draw: real)
    | Reap(now: Time)
    | Cancel

  /** A claim takes effect only if every row it selected is READY and within budget; otherwise it aborts. */
  ghost predicate Enabled(run: Run, step: RunStep) {
    step.Claim? ==> Claimable(run, step.chosen)
  }

  function Apply(run: Run, step: RunStep): Run {
    match step
    case Claim(chosen, w, until) => ClaimRows(run, chosen, w, until)
    case Renew(t, w, until) => RenewTask(run, t, w, until)
    case ReportSuccess(t, w) => Refresh(SucceedTask(run, t, w))
    case ReportFailure(t, w, now, draw) => Refresh(FailTask(run, t, w, now, draw))
    case Reap(now) => ReapRun(run, now)
    case Cancel => CancelRun(run)
  }

  lemma RefreshKeepsCore(run: Run)
    requires Core(run)
    ensures Core(Refresh(run))
  {
  }

  lemma StepKeepsCore(run: Run, step: RunStep)
    requires Core(run) && Enabled(run, step)
    ensures Core(Apply(run, step))
  {
    match step
    case Claim(chosen, w, until) => ClaimKeepsCore(run, chosen, w, until);
    case Renew(t, w, until) => RenewKeepsCore(run, t, w, until);
    case ReportSuccess(t, w) =>
      SucceedKeeps(run, t, w);
      RefreshKeepsCore(SucceedTask(run, t, w));
    case ReportFailure(t, w, now, draw) =>
      FailKeeps(run, t, w, now, draw);
      RefreshKeepsCore(FailTask(run, t, w, now, draw));
    case Reap(now) => ReapKeepsCore(run, now);
    case Cancel => CancelKeeps(run);
  }

  lemma StepKeepsCached(run: Run, step: RunStep)
    requires CachedOk(run) && Enabled(run, step)
    ensures CachedOk(Apply(run, step))
  {
    match step
    case Claim(chosen, w, until) => ClaimKeepsCached(run, chosen, w, until);
    case Renew(t, w, until) => RenewKeepsCached(run, t, w, until);
    case Reap(now) => ReapKeepsCached(run, now);
    case _ =>
  }

  lemma StepKeeps(run: Run, step: RunStep)
    requires Inv(run) && Enabled(run, step)
    ensures Inv(Apply(run, step))
  {
    StepKeepsCore(run, step);
    StepKeepsCached(run, step);
  }

  // ---- traces --------------------------------------------------------------

  ghost predicate Allowed(run: Run, steps: seq<RunStep>)
    decreases |steps|
  {
    steps == [] || (Enabled(run, steps[0]) && Allowed(Apply(run, steps[0]), steps[1..]))
  }

  function Replay(run: Run, steps: seq<RunStep>): Run
    decreases |steps|
  {
    if steps == [] then run else Replay(Apply(run, steps[0]), steps[1..])
  }

  /** A state some allowed sequence of steps leads to from the creation of a run of an accepted workflow. */
  ghost predicate Reachable(run: Run) {
    exists tasks: map<TaskId, TaskDef>, parents: Graph<TaskId>, now: Time, steps: seq<RunStep> ::
      Accepted(tasks, parents) && LeadsTo(CreateRun(tasks, parents, now), steps, run)
  }

  ghost predicate LeadsTo(created: Result<Run, CreateError>, steps: seq<RunStep>, run: Run) {
    created.Success? && Allowed(created.value, steps) && Replay(created.value, steps) == run
  }

  /** What publishing a workflow guarantees about its tasks and edges. */
  ghost predicate Accepted(tasks: map<TaskId, TaskDef>, parents: Graph<TaskId>) {
    && tasks != map[]
    && parents.Keys == tasks.Keys && Closed(parents) && Acyclic(parents)
    && forall t | t in tasks :: tasks[t].policy.WellFormed()
  }

  lemma {:induction false} TraceKeeps(run: Run, steps: seq<RunStep>)
    requires Inv(run) && Allowed(run, steps)
    ensures Inv(Replay(run, steps))
    decreases |steps|
  {
    if steps != [] {
      StepKeeps(run, steps[0]);
      TraceKeeps(Apply(run, steps[0]), steps[1..]);
    }
  }

  lemma ReachableInv(run: Run)
    requires Reachable(run)
    ensures Inv(run)
  {
    var tasks: map<TaskId, TaskDef>, parents: Graph<TaskId>, now: Time, steps: seq<RunStep> :|
      Accepted(tasks, parents) && LeadsTo(CreateRun(tasks, parents, now), steps, run);
    CreateKeeps(tasks, parents, now);
    TraceKeeps(CreateRun(tasks, parents, now).value, steps);
  }

  lemma {:induction false} AppendStep(run: Run, steps: seq<RunStep>, step: RunStep)
    requires Allowed(run, steps) && Enabled(Replay(run, steps), step)
    ensures Allowed(run, steps + [step]) && Replay(run, steps + [step]) == Apply(Replay(run, steps), step)
    decreases |steps|
  {
    if steps == [] {
      assert [step][1..] == [];
    } else {
      assert (steps + [step])[0] == steps[0] && (steps + [step])[1..] == steps[1..] + [step];
      AppendStep(Apply(run, steps[0]), steps[1..], step);
    }
  }

  /** One more allowed step from a reachable state leads to a reachable state. */
  lemma StepFromReachable(run: Run, step: RunStep)
    requires Reachable(run) && Enabled(run, step)
    ensures Reachable(Apply(run, step))
  {
    var tasks: map<TaskId, TaskDef>, parents: Graph<TaskId>, now: Time, steps: seq<RunStep> :|
      Accepted(tasks, parents) && LeadsTo(CreateRun(tasks, parents, now), steps, run);
    var created := CreateRun(tasks, parents, now);
    AppendStep(created.value, steps, step);
    assert LeadsTo(created, steps + [step], Apply(run, step));
  }

  lemma FreshIsReachable(tasks: map<TaskId, TaskDef>, parents: Graph<TaskId>, now: Time)
    requires Accepted(tasks, parents)
    ensures CreateRun(tasks, parents, now).Success? && Reachable(CreateRun(tasks, parents, now).value)
  {
    var created := CreateRun(tasks, parents, now);
    assert LeadsTo(created, [], created.value);
  }

  // ---- how one row moves -----------------------------------------------------

  /** The only changes a step ever makes to a row. Of an update only what its step is given is left open: the claimer
      and the lease, and when a retry falls due. */
  predicate Moves(row: TaskRun, row': TaskRun) {
    match (row.state, row'.state) {
      case (Pending, Pending) =>
        row' == row || (row.pendingDeps > 1 && row' == row.(pendingDeps := row.pendingDeps - 1))
      case (Pending, Ready) => row.pendingDeps == 1 && row' == row.(state := Ready, pendingDeps := 0)
      case (Pending, Blocked) => row' == row.(state := Blocked)
      case (Ready, Running) =>
        row.attempt < row.maxAttempts && row'.worker.Some? && row'.lease.Some?
        && row' == row.(state := Running, worker := row'.worker, lease := row'.lease, attempt := row.attempt + 1)
      case (Running, Running) => row' == row.(lease := row'.lease) && (row.lease.Some? ==> row'.lease.Some?)
      case (Running, Ready) => row' == row.Released(Ready).(scheduledAt := row'.scheduledAt)
      case (Running, Succeeded) => row' == row.Released(Succeeded)
      case (Running, DeadLetter) => row' == row.Released(DeadLetter) && row.attempt == row.maxAttempts
      case (_, Cancelled) => if row.state.IsActive() then row' == row.Released(Cancelled) else row' == row
      case (_, _) => row' == row
    }
  }

  lemma ClaimMoves(run: Run, chosen: set<TaskId>, w: WorkerId, until: Time, t: TaskId)
    requires Claimable(run, chosen) && t in run.rows
    ensures Moves(run.rows[t], ClaimRows(run, chosen, w, until).rows[t])
  {
  }

  lemma SuccessMoves(run: Run, t: TaskId, w: WorkerId, c: TaskId)
    requires Core(run) && c in run.rows
    ensures c in SucceedTask(run, t, w).rows && Moves(run.rows[c], SucceedTask(run, t, w).rows[c])
  {
    if Holds(run, t, w) {
      SuccessEffect(run, t, w);
      assert AfterSuccess(run.parents, run.rows, SucceedTask(run, t, w).rows, t, c);
    }
  }

  lemma DeadLetterMoves(run: Run, t: TaskId, c: TaskId)
    requires Core(run) && c in run.rows && t in run.rows && run.rows[t].state.Running?
    requires run.rows[t].attempt == run.rows[t].maxAttempts
    ensures var rows' := BlockLevels(run.parents, run.rows[t := run.rows[t].Released(DeadLetter)], {t});
            c in rows' && Moves(run.rows[c], rows'[c])
  {
    TerminalFailureRows(run, t);
  }

  lemma FailureMoves(run: Run, t: TaskId, w: WorkerId, now: Time, draw: real, c: TaskId)
    requires Core(run) && c in run.rows
    ensures c in FailTask(run, t, w, now, draw).rows && Moves(run.rows[c], FailTask(run, t, w, now, draw).rows[c])
  {
    FailureOutcome(run, t, w, draw);
    if Holds(run, t, w) && run.rows[t].attempt == run.rows[t].maxAttempts {
      DeadLetterMoves(run, t, c);
    }
  }

  lemma ReapMoves(run: Run, now: Time, t: TaskId)
    requires t in run.rows
    ensures t in ReapRun(run, now).rows && Moves(run.rows[t], ReapRun(run, now).rows[t])
  {
  }

  lemma CancelMoves(run: Run, t: TaskId)
    requires t in run.rows
    ensures t in CancelRun(run).rows && Moves(run.rows[t], CancelRun(run).rows[t])
  {
  }

  lemma RenewMoves(run: Run, t: TaskId, w: WorkerId, until: Time, c: TaskId)
    requires c in run.rows
    ensures c in RenewTask(run, t, w, until).rows && Moves(run.rows[c], RenewTask(run, t, w, until).rows[c])
  {
  }

  lemma StepMoves(run: Run, step: RunStep, t: TaskId)
    requires Inv(run) && Enabled(run, step) && t in run.rows
    ensures t in Apply(run, step).rows && Moves(run.rows[t], Apply(run, step).rows[t])
  {
    match step
    case Claim(chosen, w, until) => ClaimMoves(run, chosen, w, until, t);
    case Renew(u, w, until) => RenewMoves(run, u, w, until, t);
    case ReportSuccess(u, w) => SuccessMoves(run, u, w, t);
    case ReportFailure(u, w, now, draw) => FailureMoves(run, u, w, now, draw, t);
    case Reap(now) => ReapMoves(run, now, t);
    case Cancel => CancelMoves(run, t);
  }

  lemma FailureTakesNothing(run: Run, u: TaskId, w: WorkerId, now: Time, draw: real, t: TaskId)
    requires t in run.rows
    ensures t in FailTask(run, u, w, now, draw).rows
    ensures FailTask(run, u, w, now, draw).rows[t].attempt == run.rows[t].attempt
    ensures FailTask(run, u, w, now, draw).rows[t].worker == run.rows[t].worker
            || FailTask(run, u, w, now, draw).rows[t].worker == None
  {
    var outcome := FailureState(run, u, w, draw);
    if outcome.Some? && outcome.value != Retrying {
      LevelsOnlyBlock(run.parents, run.rows[u := run.rows[u].Released(outcome.value)], {u}, t);
    }
  }

  /** Only a claim starts an attempt or gives a row to a worker. */
  lemma OnlyClaimsClaim(run: Run, step: RunStep, t: TaskId)
    requires !step.Claim? && t in run.rows
    ensures t in Apply(run, step).rows
    ensures Apply(run, step).rows[t].attempt == run.rows[t].attempt
    ensures Apply(run, step).rows[t].worker == run.rows[t].worker || Apply(run, step).rows[t].worker == None
  {
    if step.ReportFailure? {
      FailureTakesNothing(run, step.broken, step.failer, step.at, step.draw, t);
    }
  }

  lemma EdgesFixed(run: Run, step: RunStep)
    ensures Apply(run, step).parents == run.parents
  {
  }

  lemma SameKeys(run: Run, run': Run)
    requires Inv(run) && Inv(run') && run'.parents == run.parents
    ensures run'.rows.Keys == run.rows.Keys
  {
  }

  lemma StepKeepsKeys(run: Run, step: RunStep)
    requires Inv(run) && Enabled(run, step)
    ensures Apply(run, step).rows.Keys == run.rows.Keys && Apply(run, step).parents == run.parents
  {
    StepKeeps(run, step);
    EdgesFixed(run, step);
    SameKeys(run, Apply(run, step));
  }
}
