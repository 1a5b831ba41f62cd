/** Short runs of the whole system, with one task each, that show what can happen. */
module Scenarios {
  import opened Wrappers
  import opened Lifecycle
  import opened Retry
  import opened Graphs
  import opened RunTables
  import opened RunMachine
  import opened Stranding
  import opened RunColumn
  import opened Protocol
  import opened ClaimQueue
  import opened Endings

  // ---- the steps ------------------------------------------------------------------------

  const ALONE: Graph<TaskId> := map[0 := {}]

  function Only(policy: RetryPolicy): map<TaskId, TaskDef> {
    map[0 := TaskDef(policy, 0)]
  }

  /** The run has this row alone, and is stored as `column`. */
  predicate HasRow(run: Run, row: TaskRun, column: RunState) {
    run.rows == map[0 := row] && run.state == column
  }

  /** The system has one run, of one task. */
  predicate OneRow(sys: System, row: TaskRun, column: RunState) {
    sys.runs.Keys == {0} && HasRow(sys.runs[0], row, column)
  }

  lemma OnlyAccepted(policy: RetryPolicy, now: Time)
    requires policy.WellFormed()
    ensures Accepted(Only(policy), ALONE) && CreateRun(Only(policy), ALONE, now).Success?
    ensures HasRow(CreateRun(Only(policy), ALONE, now).value, NewRow(TaskDef(policy, 0), 0, now), RunPending)
  {
    TopologicalMeansAcyclic(ALONE, [0]);
    assert 0 in Only(policy) && Only(policy)[0].policy.WellFormed();
  }

  lemma NothingYet()
    ensures Occurs(EMPTY)
  {
    assert Legals(EMPTY, []) && Through(EMPTY, []) == EMPTY;
  }

  lemma SubmitOne(sys: System, r: RunId, policy: RetryPolicy, now: Time) returns (sys': System)
    requires Occurs(sys) && r !in sys.runs && policy.WellFormed()
    ensures Occurs(sys') == true && sys'.batches == sys.batches && sys'.runs.Keys == sys.runs.Keys + {r}
    ensures HasRow(sys'.runs[r], NewRow(TaskDef(policy, 0), 0, now), RunPending)
    ensures forall q | q in sys.runs :: sys'.runs[q] == sys.runs[q]
  {
    OnlyAccepted(policy, now);
    sys' := Next(sys, Submit(r, Only(policy), ALONE, now));
    OccursNext(sys, Submit(r, Only(policy), ALONE, now));
  }

  lemma FirstSubmitted(policy: RetryPolicy) returns (sys: System)
    requires policy.WellFormed()
    ensures Occurs(sys) == true && sys.batches == map[]
    ensures OneRow(sys, NewRow(TaskDef(policy, 0), 0, 0.0), RunPending)
  {
    NothingYet();
    sys := SubmitOne(EMPTY, 0, policy, 0.0);
  }

  lemma OneSelected(sys: System, row: TaskRun, column: RunState)
    requires OneRow(sys, row, column) && row.state.Ready? && !row.Exhausted()
    ensures IsSelection(sys.runs, row.scheduledAt, 1, {}, {RowKey(0, 0)}) && !OverBudget(sys.runs, {RowKey(0, 0)})
  {
    assert sys.runs[0].rows[0] == row;
    assert Candidates(sys.runs, row.scheduledAt, {}) == {RowKey(0, 0)};
  }

  lemma OneClaimed(sys: System, row: TaskRun, column: RunState, w: WorkerId, until: Time)
    requires OneRow(sys, row, column)
    ensures var runs := ClaimAll(sys.runs, {RowKey(0, 0)}, w, until);
            runs.Keys == {0} && HasRow(runs[0], ClaimRow(row, w, until), column) == true
  {
    OnlyChosen(0);
    RowClaimed(sys.runs[0], row, column, w, until);
    ClaimAllAt(sys.runs, {RowKey(0, 0)}, w, until, 0);
  }

  lemma RowClaimed(run: Run, row: TaskRun, column: RunState, w: WorkerId, until: Time)
    requires HasRow(run, row, column)
    ensures HasRow(ClaimRows(run, {0}, w, until), ClaimRow(row, w, until), column) == true
  {
    assert run.rows[0] == row;
    ClaimedRows(run, w, until);
    assert HasRow(ClaimRows(run, {0}, w, until), ClaimRow(row, w, until), column);
  }

  lemma ClaimAllAt(runs: Runs, chosen: set<RowKey>, w: WorkerId, until: Time, r: RunId)
    requires r in runs
    ensures ClaimAll(runs, chosen, w, until).Keys == runs.Keys
    ensures ClaimAll(runs, chosen, w, until)[r] == ClaimRows(runs[r], ChosenIn(chosen, r), w, until)
  {
  }

  lemma OnlyChosen(r: RunId)
    ensures ChosenIn({RowKey(r, 0)}, r) == {0}
  {
    assert RowKey(r, 0).task in ChosenIn({RowKey(r, 0)}, r);
  }

  /** A worker claims the task. */
  lemma ClaimOne(sys: System, row: TaskRun, column: RunState, w: WorkerId, until: Time) returns (sys': System)
    requires Occurs(sys) && OneRow(sys, row, column) && row.state.Ready? && !row.Exhausted() && BatchOf(sys, w) == []
    ensures Occurs(sys') == true && OneRow(sys', ClaimRow(row, w, until), column)
    ensures sys'.batches == sys.batches[w := [Ticket(RowKey(0, 0), row.attempt + 1)]]
  {
    OneSelected(sys, row, column);
    OneClaimed(sys, row, column, w, until);
    OneTicket(sys, row, column);
    var e := ClaimBatch(w, 1, row.scheduledAt, until, {}, {RowKey(0, 0)}, [RowKey(0, 0)]);
    OccursNext(sys, e);
    NextOfClaim(sys, e);
    sys' := AfterClaim(sys, w, until, {RowKey(0, 0)}, [RowKey(0, 0)]);
  }

  lemma OneTicket(sys: System, row: TaskRun, column: RunState)
    requires OneRow(sys, row, column)
    ensures TicketsOf(sys.runs, [RowKey(0, 0)]) == [Ticket(RowKey(0, 0), row.attempt + 1)]
    ensures ListsExactly([RowKey(0, 0)], {RowKey(0, 0)}) == true
  {
    assert sys.runs[0].rows[0] == row;
    assert ListsExactly([RowKey(0, 0)], {RowKey(0, 0)});
  }

  /** Its lease is reaped. */
  lemma SweepOne(sys: System, row: TaskRun, column: RunState, now: Time) returns (sys': System)
    requires Occurs(sys) && OneRow(sys, row, column) && Expired(row, now)
    ensures Occurs(sys') == true && OneRow(sys', row.Released(Ready), column) && sys'.batches == sys.batches
  {
    assert sys.runs[0].rows[0] == row;
    sys' := Next(sys, Sweep(now));
    OccursNext(sys, Sweep(now));
    assert ReapRun(sys.runs[0], now).rows == map[0 := row.Released(Ready)];
  }

  lemma OneState(rows: Rows, row: TaskRun)
    requires rows == map[0 := row]
    ensures StateSet(rows) == {row.state}
  {
    assert rows[0] == row;
  }

  /** A report by a worker that lost the task is refused, and refreshes the column. */
  lemma RefuseOne(sys: System, row: TaskRun, column: RunState, w: WorkerId) returns (sys': System)
    requires Occurs(sys) && OneRow(sys, row, column) && row.worker != Some(w)
    requires BatchOf(sys, w) != [] && BatchOf(sys, w)[0].key == RowKey(0, 0)
    ensures sys' == Next(sys, Report(w, Worked)) && Legal(sys, Report(w, Worked))
    ensures Occurs(sys') == true && OneRow(sys', row, RollUp({row.state}))
    ensures sys'.batches == sys.batches[w := BatchOf(sys, w)[1..]]
  {
    assert sys.runs[0].rows[0] == row;
    OneState(sys.runs[0].rows, row);
    sys' := Next(sys, Report(w, Worked));
    OccursNext(sys, Report(w, Worked));
    RefusedRun(sys.runs[0], w);
    ReportedRun(sys, w, Worked, 0);
  }

  lemma RefusedRun(run: Run, w: WorkerId)
    requires !Holds(run, 0, w)
    ensures Apply(run, ReportSuccess(0, w)) == Refresh(run)
  {
  }

  // ---- the stored state leaves its table --------------------------------------------------

  /** The report takes the column of a run from one state to another along no declared transition. */
  ghost predicate StraysBy(sys: System, e: Event, before: RunState, after: RunState) {
    && Occurs(sys) && e.Report? && Legal(sys, e) && 0 in sys.runs && 0 in Next(sys, e).runs
    && sys.runs[0].state == before && Next(sys, e).runs[0].state == after && LeavesTable(before, after)
  }

  lemma ClaimedOnce(policy: RetryPolicy, w: WorkerId) returns (sys: System)
    requires policy.WellFormed()
    ensures Occurs(sys) == true && sys.batches == map[w := [Ticket(RowKey(0, 0), 1)]]
    ensures OneRow(sys, ClaimRow(NewRow(TaskDef(policy, 0), 0, 0.0), w, 1.0), RunPending)
  {
    var submitted := FirstSubmitted(policy);
    sys := ClaimOne(submitted, NewRow(TaskDef(policy, 0), 0, 0.0), RunPending, w, 1.0);
  }

  lemma ReportOfOne(sys: System, w: WorkerId, outcome: Outcome)
    requires Occurs(sys) && sys.runs.Keys == {0} && BatchOf(sys, w) != [] && BatchOf(sys, w)[0].key == RowKey(0, 0)
    ensures Reachable(sys.runs[0]) && Legal(sys, Report(w, outcome)) && 0 in Next(sys, Report(w, outcome)).runs
    ensures Next(sys, Report(w, outcome)).runs[0] == Apply(sys.runs[0], ReportStep(RowKey(0, 0), w, outcome))
  {
    EveryRunIsReachable(sys);
    ReportedRun(sys, w, outcome, 0);
  }

  /** A claim leaves the column at PENDING. */
  lemma StoredLags(w: WorkerId) returns (sys: System)
    ensures Occurs(sys) && sys.runs.Keys == {0}
    ensures sys.runs[0].state.RunPending? && RollUp(StateSet(sys.runs[0].rows)).RunRunning?
  {
    sys := ClaimedOnce(NoRetry, w);
    OneState(sys.runs[0].rows, sys.runs[0].rows[0]);
  }

  /** A task succeeds whose run was never shown as RUNNING. */
  lemma SuccessStrays(w: WorkerId) returns (sys: System)
    ensures StraysBy(sys, Report(w, Worked), RunPending, RunSucceeded)
  {
    sys := ClaimedOnce(NoRetry, w);
    assert sys.runs[0].rows[0].state.Running?;
    ReportOfOne(sys, w, Worked);
    SuccessColumnOfOne(sys.runs[0], w);
  }

  lemma SuccessColumnOfOne(run: Run, w: WorkerId)
    requires Reachable(run) && run.rows.Keys == {0} && run.state.RunPending? && Holds(run, 0, w)
    ensures LeavesTable(RunPending, Apply(run, ReportSuccess(0, w)).state)
    ensures Apply(run, ReportSuccess(0, w)).state.RunSucceeded?
  {
    SuccessLeavesTableIff(run, 0, w);
    SuccessRowsOf(run, 0, w);
    ReportedColumn(run, ReportSuccess(0, w));
  }

  /** Or fails for good. */
  lemma TerminalFailureStrays(w: WorkerId, at: Time, draw: real) returns (sys: System)
    ensures StraysBy(sys, Report(w, Broke(at, draw)), RunPending, RunFailed)
  {
    sys := ClaimedOnce(NoRetry, w);
    assert sys.runs[0].rows[0].state.Running?;
    ReportOfOne(sys, w, Broke(at, draw));
    DeadColumnOfOne(sys.runs[0], w, at, draw);
  }

  lemma DeadColumnOfOne(run: Run, w: WorkerId, at: Time, draw: real)
    requires Reachable(run) && run.rows.Keys == {0} && run.state.RunPending?
    requires Holds(run, 0, w) && run.rows[0].Exhausted()
    ensures LeavesTable(RunPending, Apply(run, ReportFailure(0, w, at, draw)).state)
    ensures Apply(run, ReportFailure(0, w, at, draw)).state.RunFailed?
  {
    HeldFailure(run, 0, w, draw);
    TerminalFailureLeavesTableIff(run, 0, w, at, draw);
    ReportedColumn(run, ReportFailure(0, w, at, draw));
    ReachableInv(run);
    DeadRowsOf(run, 0, w, at, draw);
  }

  /** The first worker loses the task to the second, and reports all the same. */
  lemma ShownRunning(policy: RetryPolicy, first: WorkerId, second: WorkerId) returns (sys: System, row: TaskRun)
    requires policy.WellFormed() && policy.MaxAttempts() > 1 && first != second
    ensures row == ClaimRow(ClaimRow(NewRow(TaskDef(policy, 0), 0, 0.0), first, 1.0).Released(Ready), second, 3.0)
    ensures Occurs(sys) == true && OneRow(sys, row, RunRunning) && BatchOf(sys, second) == [Ticket(RowKey(0, 0), 2)]
  {
    var claimed := ClaimedOnce(policy, first);
    var once := ClaimRow(NewRow(TaskDef(policy, 0), 0, 0.0), first, 1.0);
    var reaped := SweepOne(claimed, once, RunPending, 2.0);
    var again := ClaimOne(reaped, once.Released(Ready), RunPending, second, 3.0);
    row := ClaimRow(once.Released(Ready), second, 3.0);
    sys := RefuseOne(again, row, RunPending, first);
    OneRollsUp();
  }

  /** A run shown as RUNNING goes back to PENDING when the second worker has lost the task too and its report is
      refused. */
  lemma RefusedStrays(first: WorkerId, second: WorkerId) returns (sys: System)
    requires first != second
    ensures StraysBy(sys, Report(second, Worked), RunRunning, RunPending)
  {
    var shown, row := ShownRunning(FixedDelay(0.0, 2), first, second);
    sys := SweepOne(shown, row, RunRunning, 4.0);
    var after := RefuseOne(sys, row.Released(Ready), RunRunning, second);
    OneRollsUp();
  }

  lemma OneRollsUp()
    ensures RollUp({Ready}) == RunPending && RollUp({Running}) == RunRunning
  {
  }

  /** And when the second worker fails and the task is to be retried. */
  lemma RetryStrays(first: WorkerId, second: WorkerId, at: Time, draw: real) returns (sys: System)
    requires first != second
    ensures StraysBy(sys, Report(second, Broke(at, draw)), RunRunning, RunPending)
  {
    var shown, row := ShownRunning(FixedDelay(0.0, 3), first, second);
    sys := shown;
    assert sys.runs[0].rows[0] == row;
    ReportOfOne(sys, second, Broke(at, draw));
    RetryColumnOfOne(sys.runs[0], second, at, draw);
  }

  lemma RetryColumnOfOne(run: Run, w: WorkerId, at: Time, draw: real)
    requires Reachable(run) && run.rows.Keys == {0} && run.state.RunRunning?
    requires Holds(run, 0, w) && !run.rows[0].Exhausted()
    ensures LeavesTable(RunRunning, Apply(run, ReportFailure(0, w, at, draw)).state)
    ensures Apply(run, ReportFailure(0, w, at, draw)).state.RunPending?
  {
    HeldFailure(run, 0, w, draw);
    RetryLeavesTableIff(run, 0, w, at, draw);
    ReportedColumn(run, ReportFailure(0, w, at, draw));
  }

  // ---- a lost task ------------------------------------------------------------------------

  /** A worker that dies on a last attempt loses the task, even before its lease is reaped. */
  lemma LostWhileRunning(w: WorkerId) returns (sys: System)
    ensures Occurs(sys) && Lost(sys, 0, 0) && sys.runs[0].rows[0].state.Running?
  {
    var claimed := ClaimedOnce(NoRetry, w);
    assert claimed.runs[0].rows[0].state.Running?;
    sys := Next(claimed, Crash(w));
    OccursNext(claimed, Crash(w));
  }

  // ---- a queue that stands still ------------------------------------------------------------

  /** Run 0 has a task that spent its only attempt, and run 1 one that was submitted later and could be claimed. */
  ghost predicate Standing(sys: System) {
    && Occurs(sys) && sys.runs.Keys == {0, 1}
    && sys.runs[0].rows.Keys == {0} && Stranded(sys.runs[0], 0)
    && sys.runs[0].rows[0].scheduledAt == 0.0 && sys.runs[0].rows[0].task.priority == 0
    && sys.runs[1].rows == map[0 := NewRow(TaskDef(NoRetry, 0), 0, 3.0)]
  }

  lemma QueueCanStand(w: WorkerId) returns (sys: System)
    ensures Standing(sys)
  {
    var claimed := ClaimedOnce(NoRetry, w);
    var once := ClaimRow(NewRow(TaskDef(NoRetry, 0), 0, 0.0), w, 1.0);
    var reaped := SweepOne(claimed, once, RunPending, 2.0);
    assert reaped.runs[0].rows[0] == once.Released(Ready);
    sys := SubmitOne(reaped, 1, NoRetry, 3.0);
  }

  lemma StandingCandidates(sys: System, now: Time, locked: set<RowKey>)
    requires Standing(sys) && now >= 3.0
    ensures Candidates(sys.runs, now, locked) == {RowKey(0, 0), RowKey(1, 0)} - locked
    ensures Spent(sys.runs, RowKey(0, 0)) && !Spent(sys.runs, RowKey(1, 0))
    ensures Before(RowOf(sys.runs, RowKey(0, 0)), RowOf(sys.runs, RowKey(1, 0)))
  {
    assert sys.runs[1].rows[0] == NewRow(TaskDef(NoRetry, 0), 0, 3.0);
  }

  /** There every claim fails that does not skip the spent row as locked, whoever makes it and however much it would
      take, so the other task is handed to no one; a claim made while another holds the spent row gets through. */
  lemma StandingStill(sys: System, e: Event)
    requires Standing(sys) && e.ClaimBatch? && Legal(sys, e) && e.limit >= 1 && e.now >= 3.0
    ensures RowKey(0, 0) !in e.locked ==> OverBudget(sys.runs, e.chosen) && Next(sys, e) == sys
    ensures RowKey(0, 0) in e.locked && RowKey(1, 0) !in e.locked ==>
              e.chosen == {RowKey(1, 0)} && !OverBudget(sys.runs, e.chosen)
  {
    StandingCandidates(sys, e.now, e.locked);
    if RowKey(0, 0) !in e.locked {
      SpentHeadStopsTheQueue(sys, e, RowKey(0, 0));
    } else if RowKey(1, 0) !in e.locked {
      assert Candidates(sys.runs, e.now, e.locked) == {RowKey(1, 0)};
      OnlyChoice(e.chosen, RowKey(1, 0));
    }
  }

  lemma OnlyChoice(chosen: set<RowKey>, k: RowKey)
    requires chosen <= {k} && |chosen| == 1
    ensures chosen == {k}
  {
    assert {k} == chosen + ({k} - chosen);
  }
}
