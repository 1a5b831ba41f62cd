/** What every event leaves in the tables, said column by column. */
module Effects {
  import opened Wrappers
  import opened Lifecycle
  import opened Retry
  import opened Graphs
  import opened RunTables
  import opened RunInvariant
  import opened RunReports
  import opened RunMachine
  import opened Protocol

  /** The row is RUNNING for this worker. */
  predicate HeldBy(runs: Runs, k: RowKey, w: WorkerId) {
    Has(runs, k) && RowOf(runs, k).state == Running && RowOf(runs, k).worker == Some(w)
  }

  /** Nothing but the tables of one run has changed. */
  ghost predicate OnlyRun(runs: Runs, runs': Runs, r: RunId) {
    forall q | q != r :: (q in runs' <==> q in runs) && (q in runs ==> runs'[q] == runs[q])
  }

  // ---- submission ------------------------------------------------------------

  /** A task with no entry among the edges waits for nothing. */
  lemma SubmitOutcome(sys: System, r: RunId, tasks: map<TaskId, TaskDef>, parents: Graph<TaskId>, at: Time)
    requires tasks != map[]
    ensures var sys' := Next(sys, Submit(r, tasks, parents, at));
            && OnlyRun(sys.runs, sys'.runs, r) && r in sys'.runs && sys'.batches == sys.batches
            && sys'.runs[r].parents == parents && sys'.runs[r].attempts == map[] && sys'.runs[r].state == RunPending
            && sys'.runs[r].rows.Keys == tasks.Keys
            && forall t | t in tasks ::
                 var waits := if t in parents then parents[t] else {};
                 sys'.runs[r].rows[t] == TaskRun(tasks[t], if waits == {} then Ready else Pending, |waits|, 0,
                                                 tasks[t].policy.MaxAttempts(), at, None, None)
  {
  }

  // ---- claims ----------------------------------------------------------------

  /** The claim got through: no row it chose was over its budget. */
  predicate Claimed(runs: Runs, chosen: set<RowKey>) {
    forall k | k in chosen :: Has(runs, k) && RowOf(runs, k).attempt < RowOf(runs, k).maxAttempts
  }

  lemma ClaimedIff(runs: Runs, chosen: set<RowKey>)
    requires forall k | k in chosen :: Has(runs, k)
    ensures Claimed(runs, chosen) <==> !OverBudget(runs, chosen)
  {
  }

  /** The rows chosen, and no others, are RUNNING for the claimer until the end of its lease, one attempt on. */
  lemma ClaimOutcome(sys: System, e: Event, k: RowKey)
    requires e.ClaimBatch? && Legal(sys, e) && Has(sys.runs, k)
    ensures var row, sys' := RowOf(sys.runs, k), Next(sys, e);
            && Has(sys'.runs, k)
            && RowOf(sys'.runs, k)
               == if k in e.chosen && Claimed(sys.runs, e.chosen)
                  then row.(state := Running, worker := Some(e.claimer), lease := Some(e.leaseEnd),
                            attempt := row.attempt + 1)
                  else row
  {
    SelectionIsReady(sys.runs, e.now, e.limit, e.locked, e.chosen);
    ClaimedIff(sys.runs, e.chosen);
    ClaimedRow(sys.runs, e.chosen, e.claimer, e.leaseEnd, k);
  }

  /** Each starts one attempt, open and recorded for the claimer; no other attempt is touched. */
  lemma ClaimAttempts(sys: System, e: Event, r: RunId, k: AttemptKey)
    requires e.ClaimBatch? && Legal(sys, e) && r in sys.runs
    ensures r in Next(sys, e).runs
    ensures var run, run' := sys.runs[r], Next(sys, e).runs[r];
            if && RowKey(r, k.task) in e.chosen && Claimed(sys.runs, e.chosen)
               && k.number == RowOf(sys.runs, RowKey(r, k.task)).attempt + 1
            then k in run'.attempts && run'.attempts[k] == Attempt(e.claimer, Running, false)
            else (k in run'.attempts <==> k in run.attempts)
                 && (k in run.attempts ==> run'.attempts[k] == run.attempts[k])
  {
    SelectionIsReady(sys.runs, e.now, e.limit, e.locked, e.chosen);
    ClaimedIff(sys.runs, e.chosen);
    assert k.task in ChosenIn(e.chosen, r) <==> RowKey(r, k.task) in e.chosen;
    if Claimed(sys.runs, e.chosen) {
      assert k in StartedKeys(sys.runs[r].rows, ChosenIn(e.chosen, r)) <==>
             RowKey(r, k.task) in e.chosen && k.number == RowOf(sys.runs, RowKey(r, k.task)).attempt + 1;
    }
  }

  // ---- renewal ---------------------------------------------------------------

  /** A renewal by the holder moves the end of the lease and nothing else; any other changes nothing. */
  lemma RenewalOutcome(sys: System, w: WorkerId, k: RowKey, until: Time)
    ensures var sys' := Next(sys, Heartbeat(w, k, until));
            if HeldBy(sys.runs, k, w) then
              var run := sys.runs[k.run];
              sys' == sys.(runs := sys.runs[k.run :=
                             run.(rows := run.rows[k.task := run.rows[k.task].(lease := Some(until))])])
            else sys' == sys
  {
    assert HeldBy(sys.runs, k, w) <==> k.run in sys.runs && Holds(sys.runs[k.run], k.task, w);
    if k.run in sys.runs && !HeldBy(sys.runs, k, w) {
      assert sys.runs[k.run := sys.runs[k.run]] == sys.runs;
    }
  }

  // ---- expiry ----------------------------------------------------------------

  /** A sweep changes the rows RUNNING on a lease that has ended, and no others: it makes them READY, without worker or
      lease. */
  lemma SweepOutcome(sys: System, now: Time, k: RowKey)
    requires Has(sys.runs, k)
    ensures var row, sys' := RowOf(sys.runs, k), Next(sys, Sweep(now));
            && Has(sys'.runs, k)
            && RowOf(sys'.runs, k)
               == if row.state == Running && row.lease.Some? && row.lease.value < now
                  then row.(state := Ready, worker := None, lease := None) else row
  {
  }

  /** What a sweep makes of one attempt of a row. */
  predicate SweptAttempt(row: TaskRun, now: Time, n: nat, before: Attempt, after: Attempt) {
    if row.state == Running && row.lease.Some? && row.lease.value < now && n == row.attempt
    then row.worker.Some? && before == Attempt(row.worker.value, Running, false)
         && after == Attempt(row.worker.value, Failed, true)
    else after == before
  }

  lemma SweptAttemptOf(run: Run, now: Time, t: TaskId, n: nat)
    requires Core(run) && t in run.rows && AttemptKey(t, n) in run.attempts
    ensures AttemptKey(t, n) in ReapRun(run, now).attempts
    ensures SweptAttempt(run.rows[t], now, n, run.attempts[AttemptKey(t, n)],
                         ReapRun(run, now).attempts[AttemptKey(t, n)])
  {
    assert AttemptOk(run.rows[t], n, run.attempts[AttemptKey(t, n)]);
  }

  /** The attempt such a row was on is open, and is closed as FAILED. No other attempt is touched. */
  lemma SweepAttempts(sys: System, now: Time, r: RunId, t: TaskId, n: nat)
    requires Occurs(sys) && r in sys.runs && t in sys.runs[r].rows && AttemptKey(t, n) in sys.runs[r].attempts
    ensures r in Next(sys, Sweep(now)).runs && AttemptKey(t, n) in Next(sys, Sweep(now)).runs[r].attempts
    ensures SweptAttempt(sys.runs[r].rows[t], now, n, sys.runs[r].attempts[AttemptKey(t, n)],
                         Next(sys, Sweep(now)).runs[r].attempts[AttemptKey(t, n)]) == true
  {
    SweptRun(sys, now, r);
    assert Core(sys.runs[r]) == true by {
      EveryRunIsReachable(sys);
      ReachableInv(sys.runs[r]);
    }
    SweptAttemptOf(sys.runs[r], now, t, n);
  }

  lemma SweptRun(sys: System, now: Time, r: RunId)
    requires r in sys.runs
    ensures r in Next(sys, Sweep(now)).runs && Next(sys, Sweep(now)).runs[r] == ReapRun(sys.runs[r], now)
  {
  }

  // ---- reports ---------------------------------------------------------------

  /** A refresh touches neither rows nor attempts. */
  lemma SuccessTables(run: Run, t: TaskId, w: WorkerId)
    ensures Apply(run, ReportSuccess(t, w)).rows == SucceedTask(run, t, w).rows
    ensures Apply(run, ReportSuccess(t, w)).attempts == SucceedTask(run, t, w).attempts
  {
  }

  lemma FailureTables(run: Run, t: TaskId, w: WorkerId, at: Time, draw: real)
    ensures Apply(run, ReportFailure(t, w, at, draw)).rows == FailTask(run, t, w, at, draw).rows
    ensures Apply(run, ReportFailure(t, w, at, draw)).attempts == FailTask(run, t, w, at, draw).attempts
  {
  }

  /** The attempt `n` of `t` ended as `s`, and no other attempt is touched. */
  ghost predicate Ended(run: Run, run': Run, t: TaskId, w: WorkerId, s: TaskState) {
    t in run.rows && AttemptKey(t, run.rows[t].attempt) in run.attempts
    && run.attempts[AttemptKey(t, run.rows[t].attempt)] == Attempt(w, Running, false)
    && run'.attempts == run.attempts[AttemptKey(t, run.rows[t].attempt) := Attempt(w, s, true)]
  }

  lemma HolderIsOnAttempt(run: Run, t: TaskId, w: WorkerId)
    requires Core(run) && Holds(run, t, w)
    ensures AttemptKey(t, run.rows[t].attempt) in run.attempts
    ensures run.attempts[AttemptKey(t, run.rows[t].attempt)] == Attempt(w, Running, false)
  {
    var k := AttemptKey(t, run.rows[t].attempt);
    assert RowOk(run.parents, run.rows, t);
    assert k in run.attempts <==> Numbered(run.rows, k);
    assert AttemptOk(run.rows[t], k.number, run.attempts[k]);
  }

  /** What a success makes of one row: its own is SUCCEEDED, and one that waited for it counts one dependency less and
      is READY with none left. */
  predicate SuccessRow(parents: Graph<TaskId>, row: TaskRun, row': TaskRun, t: TaskId, c: TaskId) {
    if c == t then row' == row.(state := Succeeded, worker := None, lease := None)
    else if c in parents && t in parents[c] && row.state == Pending then
      row.pendingDeps >= 1
      && row' == row.(pendingDeps := row.pendingDeps - 1, state := if row.pendingDeps == 1 then Ready else Pending)
    else row' == row
  }

  ghost predicate SuccessRows(parents: Graph<TaskId>, rows: Rows, rows': Rows, t: TaskId) {
    && rows'.Keys == rows.Keys
    && forall c | c in rows :: SuccessRow(parents, rows[c], rows'[c], t, c)
  }

  lemma SuccessRowOf(parents: Graph<TaskId>, rows: Rows, rows': Rows, t: TaskId, c: TaskId)
    requires t in rows && c in rows && c in rows' && c in parents && RowOk(parents, rows, c)
    requires AfterSuccess(parents, rows, rows', t, c)
    ensures SuccessRow(parents, rows[c], rows'[c], t, c)
  {
  }

  lemma SuccessRowsOf(run: Run, t: TaskId, w: WorkerId)
    requires RowsOk(run.parents, run.rows) && Holds(run, t, w)
    ensures SuccessRows(run.parents, run.rows, SucceedTask(run, t, w).rows, t)
  {
    SuccessEffect(run, t, w);
    forall c | c in run.rows
      ensures SuccessRow(run.parents, run.rows[c], SucceedTask(run, t, w).rows[c], t, c) == true
    {
      SuccessRowOf(run.parents, run.rows, SucceedTask(run, t, w).rows, t, c);
    }
  }

  lemma SuccessAttempts(run: Run, t: TaskId, w: WorkerId)
    requires Core(run) && Holds(run, t, w)
    ensures Ended(run, SucceedTask(run, t, w), t, w, Succeeded)
  {
    HolderIsOnAttempt(run, t, w);
  }

  lemma SuccessStep(run: Run, t: TaskId, w: WorkerId)
    requires Core(run) == true && Holds(run, t, w)
    ensures SuccessRows(run.parents, run.rows, Apply(run, ReportSuccess(t, w)).rows, t) == true
    ensures Ended(run, Apply(run, ReportSuccess(t, w)), t, w, Succeeded) == true
  {
    SuccessTables(run, t, w);
    assert RowsOk(run.parents, run.rows) == true by { assert Core(run); }
    SuccessRowsOf(run, t, w);
    SuccessAttempts(run, t, w);
  }

  lemma AttemptsLeft(run: Run, t: TaskId, w: WorkerId, draw: real)
    requires Core(run) && Holds(run, t, w) && run.rows[t].attempt < run.rows[t].maxAttempts
    ensures NextDelayOf(run.rows[t].task.policy, run.rows[t].attempt, draw).After?
    ensures FailureState(run, t, w, draw) == Some(Retrying)
  {
    assert RowOk(run.parents, run.rows, t);
    NextDelayOutcome(run.rows[t].task.policy, run.rows[t].attempt, draw);
  }

  lemma RetryAttempts(run: Run, t: TaskId, w: WorkerId, at: Time, draw: real)
    requires Core(run) && Holds(run, t, w) && FailureState(run, t, w, draw) == Some(Retrying)
    ensures Ended(run, FailTask(run, t, w, at, draw), t, w, Retrying)
  {
    HolderIsOnAttempt(run, t, w);
  }

  lemma RetryRows(run: Run, t: TaskId, w: WorkerId, at: Time, draw: real)
    requires Holds(run, t, w) && NextDelayOf(run.rows[t].task.policy, run.rows[t].attempt, draw).After?
    ensures var delay := NextDelayOf(run.rows[t].task.policy, run.rows[t].attempt, draw).seconds;
            FailTask(run, t, w, at, draw).rows
            == run.rows[t := run.rows[t].(state := Ready, worker := None, lease := None, scheduledAt := at + delay)]
  {
  }

  /** With attempts left, the row is READY again, due after the delay its policy gives for this attempt. */
  lemma RetryStep(run: Run, t: TaskId, w: WorkerId, at: Time, draw: real)
    requires Core(run) == true && Holds(run, t, w) && run.rows[t].attempt < run.rows[t].maxAttempts
    ensures var delay := NextDelayOf(run.rows[t].task.policy, run.rows[t].attempt, draw);
            delay.After?
            && Apply(run, ReportFailure(t, w, at, draw)).rows
               == run.rows[t := run.rows[t].(state := Ready, worker := None, lease := None,
                                             scheduledAt := at + delay.seconds)]
    ensures Ended(run, Apply(run, ReportFailure(t, w, at, draw)), t, w, Retrying) == true
  {
    FailureTables(run, t, w, at, draw);
    AttemptsLeft(run, t, w, draw);
    RetryRows(run, t, w, at, draw);
    RetryAttempts(run, t, w, at, draw);
  }

  /** The row is in the dead letters, and all that was waiting below it is BLOCKED. */
  ghost predicate DeadRows(parents: Graph<TaskId>, rows: Rows, rows': Rows, t: TaskId) {
    && rows'.Keys == rows.Keys
    && forall c | c in rows ::
         if c == t then rows'[c] == rows[c].(state := DeadLetter, worker := None, lease := None)
         else if Reaches(parents, t, c) && rows[c].state == Pending then rows'[c] == rows[c].(state := Blocked)
         else rows'[c] == rows[c]
  }

  lemma BlockedBelow(parents: Graph<TaskId>, rows: Rows, t: TaskId)
    requires t in rows
    ensures DeadRows(parents, rows, RunReports.BlockDescendants(parents, rows[t := rows[t].Released(DeadLetter)], t), t)
  {
  }

  lemma DeadRowsOf(run: Run, t: TaskId, w: WorkerId, at: Time, draw: real)
    requires Core(run) && Holds(run, t, w) && FailureState(run, t, w, draw) == Some(DeadLetter)
    ensures DeadRows(run.parents, run.rows, FailTask(run, t, w, at, draw).rows, t) == true
  {
    TerminalFailureRows(run, t);
    BlockedBelow(run.parents, run.rows, t);
  }

  lemma DeadAttempts(run: Run, t: TaskId, w: WorkerId, at: Time, draw: real)
    requires Core(run) && Holds(run, t, w) && FailureState(run, t, w, draw) == Some(DeadLetter)
    ensures Ended(run, FailTask(run, t, w, at, draw), t, w, DeadLetter) == true
  {
    HolderIsOnAttempt(run, t, w);
  }

  /** With none left it is a dead letter, and so nothing below it will ever run. */
  lemma DeadLetterStep(run: Run, t: TaskId, w: WorkerId, at: Time, draw: real)
    requires Core(run) == true && Holds(run, t, w) && run.rows[t].attempt == run.rows[t].maxAttempts
    ensures DeadRows(run.parents, run.rows, Apply(run, ReportFailure(t, w, at, draw)).rows, t) == true
    ensures Ended(run, Apply(run, ReportFailure(t, w, at, draw)), t, w, DeadLetter) == true
  {
    FailureTables(run, t, w, at, draw);
    FailureOutcome(run, t, w, draw);
    DeadRowsOf(run, t, w, at, draw);
    DeadAttempts(run, t, w, at, draw);
  }

  /** A report whose lease was lost writes nothing but the roll-up of the rows. */
  lemma LostReportStep(run: Run, t: TaskId, w: WorkerId, at: Time, draw: real)
    requires Core(run) && !Holds(run, t, w)
    ensures Apply(run, ReportSuccess(t, w)).rows == run.rows
    ensures Apply(run, ReportSuccess(t, w)).attempts == run.attempts
    ensures Apply(run, ReportFailure(t, w, at, draw)).rows == run.rows
    ensures Apply(run, ReportFailure(t, w, at, draw)).attempts == run.attempts
  {
    FailureOutcome(run, t, w, draw);
  }

  lemma FirstTicket(sys: System, w: WorkerId)
    requires Occurs(sys) && BatchOf(sys, w) != []
    ensures Has(sys.runs, BatchOf(sys, w)[0].key) && Inv(sys.runs[BatchOf(sys, w)[0].key.run]) == true
  {
    EveryRunIsReachable(sys);
    assert TicketOk(sys.runs, w, sys.batches[w][0]);
    ReachableInv(sys.runs[BatchOf(sys, w)[0].key.run]);
  }

  /** The report is on the first ticket its worker holds, and uses it up. */
  lemma ReportOutcome(sys: System, w: WorkerId, outcome: Outcome)
    requires Occurs(sys) && BatchOf(sys, w) != []
    ensures var k, sys' := BatchOf(sys, w)[0].key, Next(sys, Report(w, outcome));
            && Has(sys.runs, k) && Inv(sys.runs[k.run]) == true
            && sys'.batches == sys.batches[w := BatchOf(sys, w)[1..]]
            && OnlyRun(sys.runs, sys'.runs, k.run) && k.run in sys'.runs
            && sys'.runs[k.run] == Apply(sys.runs[k.run],
                 match outcome
                 case Worked => ReportSuccess(k.task, w)
                 case Broke(at, draw) => ReportFailure(k.task, w, at, draw))
  {
    FirstTicket(sys, w);
  }

  // ---- cancellation ----------------------------------------------------------

  /** Whatever was still to be done or under way is CANCELLED; the attempts keep their records. */
  lemma CancelOutcome(sys: System, r: RunId)
    requires r in sys.runs
    ensures var run, sys' := sys.runs[r], Next(sys, CancelAll(r));
            && OnlyRun(sys.runs, sys'.runs, r) && r in sys'.runs && sys'.batches == sys.batches
            && sys'.runs[r].attempts == run.attempts && sys'.runs[r].parents == run.parents
            && sys'.runs[r].rows
               == map t | t in run.rows ::
                    if run.rows[t].state in {Pending, Ready, Running, Retrying}
                    then run.rows[t].(state := Cancelled, worker := None, lease := None) else run.rows[t]
  {
    assert forall t | t in sys.runs[r].rows ::
        sys.runs[r].rows[t].state.IsActive() <==> sys.runs[r].rows[t].state in {Pending, Ready, Running, Retrying};
  }
}
