/** What holds in every reachable state of a run, and over every run of the machine. */
module RunTheorems {
  import opened Wrappers
  import opened Lifecycle
  import opened Retry
  import opened Graphs
  import opened RunTables
  import opened RunInvariant
  import opened RunReports
  import opened RunMachine

  // ---- deadlock freedom ------------------------------------------------------

  predicate AllTerminal(rows: Rows) {
    forall t | t in rows :: rows[t].state.IsTerminal()
  }

  predicate NothingToDo(rows: Rows) {
    forall t | t in rows :: !rows[t].state.Ready? && !rows[t].state.Running?
  }

  /** A waiting task whose parents are all settled: one of them never succeeded, and that settled the task too. */
  lemma WaitingParentIsWaiting(run: Run, n: TaskId) returns (p: TaskId)
    requires Core(run) && NothingToDo(run.rows) && n in run.rows && run.rows[n].state.Pending?
    ensures p in run.parents[n] && p in run.rows && run.rows[p].state.Pending?
  {
    assert RowOk(run.parents, run.rows, n);
    p :| p in Unmet(run.parents, run.rows, n);
    assert RowOk(run.parents, run.rows, p);
    assert !Poison(run.rows[p].state);
    assert run.rows[n].state.IsActive();
  }

  lemma NothingWaitsOnNothing(run: Run)
    requires Core(run) && NothingToDo(run.rows)
    ensures AllTerminal(run.rows)
  {
    var waiting := set t | t in run.rows && run.rows[t].state.Pending?;
    forall n | n in waiting ensures run.parents[n] * waiting != {} {
      var p := WaitingParentIsWaiting(run, n);
      assert p in run.parents[n] * waiting;
    }
    NeverStuck(run.parents, waiting);
    forall t | t in run.rows ensures run.rows[t].state.IsTerminal() {
      assert RowOk(run.parents, run.rows, t);
      assert t !in waiting;
    }
  }

  lemma QuietIffOver(run: Run)
    requires Core(run)
    ensures NothingToDo(run.rows) <==> AllTerminal(run.rows)
  {
    if NothingToDo(run.rows) {
      NothingWaitsOnNothing(run);
    }
  }

  /** In every reachable state with nothing READY and nothing RUNNING the run is over: no task is left PENDING. */
  lemma DeadlockFree(run: Run)
    requires Reachable(run)
    ensures NothingToDo(run.rows) <==> AllTerminal(run.rows)
  {
    assert Core(run) by { ReachableInv(run); }
    QuietIffOver(run);
  }

  // ---- ordering --------------------------------------------------------------

  /** No task is ever offered, executed or finished before all of its ancestors succeeded, and a PENDING row's counter
      is the number of its parents still to succeed, never zero. */
  lemma OrderingSafe(run: Run, t: TaskId)
    requires Reachable(run) && t in run.rows
    ensures PastWaiting(run.rows[t].state) ==>
              forall a | Reaches(run.parents, a, t) :: a in run.rows && run.rows[a].state.Succeeded?
    ensures t in run.parents
    ensures run.rows[t].state.Pending? ==> run.rows[t].pendingDeps == |Unmet(run.parents, run.rows, t)| > 0
  {
    ReachableInv(run);
    assert RowOk(run.parents, run.rows, t);
    forall a | PastWaiting(run.rows[t].state) && Reaches(run.parents, a, t)
      ensures a in run.rows && run.rows[a].state.Succeeded?
    {
      AncestorsSucceeded(run, a, t);
    }
  }

  // ---- failure propagation ---------------------------------------------------

  ghost predicate BelowDeadLetter(run: Run, t: TaskId) {
    exists x | x in run.rows :: run.rows[x].state.DeadLetter? && Reaches(run.parents, x, t)
  }

  lemma BelowIsBlocked(run: Run, x: TaskId, t: TaskId)
    requires Core(run) && x in run.rows && run.rows[x].state.DeadLetter? && Reaches(run.parents, x, t)
    ensures t in run.rows && run.rows[t].state.Blocked?
  {
    var blocked := set b | b in run.rows && run.rows[b].state.Blocked?;
    forall p, c | Edge(run.parents, p, c) && (p == x || p in blocked) ensures c in blocked {
      assert RowOk(run.parents, run.rows, c);
    }
    ClosedSetHoldsDescendants(run.parents, blocked, x, t);
  }

  lemma BlockedIsBelow(run: Run)
    requires Core(run)
    ensures forall t | t in run.rows && run.rows[t].state.Blocked? :: BelowDeadLetter(run, t)
  {
    var orphans := set t | t in run.rows && run.rows[t].state.Blocked? && !BelowDeadLetter(run, t);
    if orphans != {} {
      var n := FirstOf(run.parents, orphans);
      assert RowOk(run.parents, run.rows, n);
      var p :| p in run.parents[n] && p in run.rows && Poison(run.rows[p].state);
      assert Edge(run.parents, p, n);
      if run.rows[p].state.DeadLetter? {
        EdgeReaches(run.parents, p, n);
      } else {
        assert p !in run.parents[n] * orphans;
        var x :| x in run.rows && run.rows[x].state.DeadLetter? && Reaches(run.parents, x, p);
        ReachesThenEdge(run.parents, x, p, n);
      }
    }
    forall t | t in run.rows && run.rows[t].state.Blocked? ensures BelowDeadLetter(run, t) {
      assert t !in orphans;
    }
  }

  /** In every reachable state the BLOCKED rows are exactly the strict descendants of the DEAD_LETTER rows. */
  lemma FailurePropagatesExactly(run: Run, t: TaskId)
    requires Reachable(run) && t in run.rows
    ensures run.rows[t].state.Blocked? <==> BelowDeadLetter(run, t)
  {
    ReachableInv(run);
    BlockedIsBelow(run);
    if BelowDeadLetter(run, t) {
      var x :| x in run.rows && run.rows[x].state.DeadLetter? && Reaches(run.parents, x, t);
      BelowIsBlocked(run, x, t);
    }
  }

  // ---- lifecycle -------------------------------------------------------------

  lemma MoveIsTransition(row: TaskRun, row': TaskRun)
    requires Moves(row, row')
    ensures row'.state == row.state || StoredTransition(row.state, row'.state)
    ensures !(row.state.Ready? && row'.state.Blocked?)
  {
  }

  /** Between the states that are stored, the table allows no change that rows never make. */
  lemma TableIsTight(from: TaskState, to: TaskState)
    requires from != to && StoredTransition(from, to)
    requires from !in {Failed, Retrying} && to !in {Failed, Retrying}
    ensures exists row: TaskRun, row': TaskRun :: row.state == from && row'.state == to && Moves(row, row')
  {
    var last := to == DeadLetter;
    var idle := TaskRun(TaskDef(NoRetry, 0), from, 1, if last then 1 else 0, 1, 0.0, None, None);
    var row := if from == Running then idle.(worker := Some(0), lease := Some(0.0)) else idle;
    var row' :=
      match to
      case Ready => if from == Pending then row.(state := Ready, pendingDeps := 0) else row.Released(Ready)
      case Running => row.(state := Running, worker := Some(0), lease := Some(0.0), attempt := 1)
      case Blocked => row.(state := Blocked)
      case _ => row.Released(to);
    assert Moves(row, row');
  }

  /** Every change of a stored state is an edge of the transition table, or RUNNING to READY by way of RETRYING;
      and READY to BLOCKED, which the update's filter admits, is never taken. */
  lemma LifecycleRefined(run: Run, step: RunStep, t: TaskId)
    requires Reachable(run) && Enabled(run, step) && t in run.rows
    ensures t in Apply(run, step).rows
    ensures var s, s' := run.rows[t].state, Apply(run, step).rows[t].state;
            (s' == s || StoredTransition(s, s')) && !(s.Ready? && s'.Blocked?)
  {
    ReachableInv(run);
    StepMoves(run, step, t);
    MoveIsTransition(run.rows[t], Apply(run, step).rows[t]);
  }

  /** A worker and a lease are recorded exactly while a task is RUNNING, FAILED and RETRYING are never stored,
      and a dead-lettered task has spent its whole budget. */
  lemma StoredRowsHonest(run: Run, t: TaskId)
    requires Reachable(run) && t in run.rows
    ensures run.rows[t].state.Running? <==> run.rows[t].worker.Some?
    ensures run.rows[t].state.Running? <==> run.rows[t].lease.Some?
    ensures !run.rows[t].state.Failed? && !run.rows[t].state.Retrying?
    ensures run.rows[t].state.DeadLetter? ==> run.rows[t].attempt == run.rows[t].task.policy.MaxAttempts()
  {
    ReachableInv(run);
    assert RowOk(run.parents, run.rows, t);
  }

  // ---- the attempt log -------------------------------------------------------

  /** The log never forgets or rewrites: attempts only get added, a closed one never changes, an open one keeps its
      worker. */
  ghost predicate LogGrows(attempts: Attempts, attempts': Attempts) {
    forall k | k in attempts :: k in attempts' && attempts'[k].worker == attempts[k].worker
                                && (attempts[k].finished ==> attempts'[k] == attempts[k])
  }

  lemma ClaimGrowsLog(rows: Rows, attempts: Attempts, chosen: set<TaskId>, w: WorkerId)
    requires AttemptsOk(rows, attempts)
    ensures LogGrows(attempts, attempts + OpenedAttempts(rows, chosen, w))
  {
    forall k | k in attempts ensures k !in OpenedAttempts(rows, chosen, w) {
      assert Numbered(rows, k);
    }
  }

  lemma SuccessGrowsLog(run: Run, t: TaskId, w: WorkerId)
    ensures LogGrows(run.attempts, SucceedTask(run, t, w).attempts)
  {
  }

  lemma FailureGrowsLog(run: Run, t: TaskId, w: WorkerId, now: Time, draw: real)
    ensures LogGrows(run.attempts, FailTask(run, t, w, now, draw).attempts)
  {
  }

  lemma ReapGrowsLog(run: Run, now: Time)
    ensures LogGrows(run.attempts, ReapRun(run, now).attempts)
  {
  }

  lemma StepGrowsLog(run: Run, step: RunStep)
    requires AttemptsOk(run.rows, run.attempts)
    ensures LogGrows(run.attempts, Apply(run, step).attempts)
  {
    match step
    case Claim(chosen, w, _) => ClaimGrowsLog(run.rows, run.attempts, chosen, w);
    case Renew(_, _, _) =>
    case ReportSuccess(t, w) => SuccessGrowsLog(run, t, w);
    case ReportFailure(t, w, now, draw) => FailureGrowsLog(run, t, w, now, draw);
    case Reap(now) => ReapGrowsLog(run, now);
    case Cancel =>
  }

  /** In every reachable state the attempts of a task are numbered 1 to its counter, the counter never exceeds the
      budget, an open attempt is the latest one of a RUNNING or CANCELLED task, and a recorded success is the latest
      attempt of a SUCCEEDED task. */
  lemma AttemptLogTruthful(run: Run, t: TaskId, n: nat)
    requires Reachable(run) && t in run.rows
    ensures AttemptKey(t, n) in run.attempts <==> 1 <= n <= run.rows[t].attempt
    ensures run.rows[t].attempt <= run.rows[t].maxAttempts == run.rows[t].task.policy.MaxAttempts()
    ensures AttemptKey(t, n) in run.attempts ==>
              var a := run.attempts[AttemptKey(t, n)];
              && (!a.finished ==>
                    n == run.rows[t].attempt && (run.rows[t].state.Running? || run.rows[t].state.Cancelled?))
              && (run.rows[t].state.Running? && n == run.rows[t].attempt ==>
                    !a.finished && run.rows[t].worker == Some(a.worker))
              && (a.state.Succeeded? <==> run.rows[t].state.Succeeded? && n == run.rows[t].attempt)
              && (a.state.DeadLetter? <==> run.rows[t].state.DeadLetter? && n == run.rows[t].attempt)
  {
    ReachableInv(run);
    assert RowOk(run.parents, run.rows, t);
    assert AttemptKey(t, n) in run.attempts <==> Numbered(run.rows, AttemptKey(t, n));
  }

  /** The unique-attempt conflict never fires: a claim numbers its attempts past every one recorded. */
  lemma ClaimNeverConflicts(run: Run, t: TaskId)
    requires Reachable(run) && t in run.rows
    ensures AttemptKey(t, run.rows[t].attempt + 1) !in run.attempts
  {
    AttemptLogTruthful(run, t, run.rows[t].attempt + 1);
  }

  // ---- the cached run state --------------------------------------------------

  lemma ColumnVerdict(run: Run)
    requires run.rows != map[] && CachedOk(run)
    ensures run.state.IsTerminal() <==> AllTerminal(run.rows)
    ensures run.state.IsTerminal() ==> run.state == RollUp(StateSet(run.rows))
    ensures run.state.RunSucceeded? <==> forall t | t in run.rows :: run.rows[t].state.Succeeded?
  {
    var states := StateSet(run.rows);
    var some :| some in run.rows;
    assert run.rows[some].state in states;
    RollUpTerminal(states);
    assert forall t | t in run.rows :: run.rows[t].state in states;
  }

  /** Where a run failed, some task was dead-lettered: whatever is blocked is below one. */
  lemma FailedHasDeadLetter(run: Run)
    requires Core(run) && RollUp(StateSet(run.rows)).RunFailed?
    ensures exists t | t in run.rows :: run.rows[t].state.DeadLetter?
  {
    var states := StateSet(run.rows);
    RollUpTerminal(states);
    var s :| s in states && s in {Failed, DeadLetter, Blocked};
    var t :| t in run.rows && run.rows[t].state == s;
    assert RowOk(run.parents, run.rows, t);
    if s.Blocked? {
      BlockedIsBelow(run);
      assert BelowDeadLetter(run, t);
    }
  }

  /** The cached column says terminal exactly when every task is terminal, and then says which way the run ended;
      FAILED means some task was dead-lettered, and SUCCEEDED that all succeeded. */
  lemma CachedStateTellsTheEnd(run: Run)
    requires Reachable(run)
    ensures run.state.IsTerminal() <==> AllTerminal(run.rows)
    ensures run.state.IsTerminal() ==> run.state == RollUp(StateSet(run.rows))
    ensures run.state.RunSucceeded? <==> forall t | t in run.rows :: run.rows[t].state.Succeeded?
    ensures run.state.RunFailed? ==> exists t | t in run.rows :: run.rows[t].state.DeadLetter?
  {
    ReachableInv(run);
    ColumnVerdict(run);
    if run.state.RunFailed? {
      FailedHasDeadLetter(run);
    }
  }

  lemma TerminalRowStays(run: Run, step: RunStep, t: TaskId)
    requires Inv(run) && Enabled(run, step) && t in run.rows && run.rows[t].state.IsTerminal()
    ensures t in Apply(run, step).rows && Apply(run, step).rows[t] == run.rows[t]
  {
    StepMoves(run, step, t);
  }

  lemma TerminalRowsStay(run: Run, step: RunStep)
    requires Inv(run) && Enabled(run, step) && AllTerminal(run.rows)
    ensures Apply(run, step).rows == run.rows
  {
    StepKeepsKeys(run, step);
    forall t | t in run.rows ensures Apply(run, step).rows[t] == run.rows[t] {
      TerminalRowStays(run, step, t);
    }
  }

  lemma SameRowsSameVerdict(run: Run, run': Run)
    requires CachedOk(run) && CachedOk(run') && run.state.IsTerminal() && run'.rows == run.rows
    ensures run'.state == run.state
  {
  }

  /** A terminal verdict is final: no step changes any row or the verdict afterwards. */
  lemma VerdictIsFinal(run: Run, step: RunStep)
    requires Reachable(run) && run.state.IsTerminal() && Enabled(run, step)
    ensures Apply(run, step).rows == run.rows && Apply(run, step).state == run.state
  {
    ReachableInv(run);
    ColumnVerdict(run);
    TerminalRowsStay(run, step);
    StepKeeps(run, step);
    SameRowsSameVerdict(run, Apply(run, step));
  }
}
