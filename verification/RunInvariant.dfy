/** What every step keeps about the rows of one run. */
module RunInvariant {
  import opened Wrappers
  import opened Lifecycle
  import opened Graphs
  import opened RunTables

  predicate Poison(s: TaskState) {
    s.DeadLetter? || s.Blocked?
  }

  /** States a row reaches only once everything it depends on has succeeded. */
  predicate PastWaiting(s: TaskState) {
    s.Ready? || s.Running? || s.Succeeded? || s.DeadLetter?
  }

  function Unmet(parents: Graph<TaskId>, rows: Rows, t: TaskId): set<TaskId>
    requires t in parents
  {
    set p | p in parents[t] && !(p in rows && rows[p].state.Succeeded?)
  }

  ghost predicate PoisonedParent(parents: Graph<TaskId>, rows: Rows, t: TaskId)
    requires t in parents
  {
    exists p | p in parents[t] :: p in rows && Poison(rows[p].state)
  }

  predicate BudgetOk(row: TaskRun) {
    && row.task.policy.WellFormed()
    && row.maxAttempts == row.task.policy.MaxAttempts()
    && row.attempt <= row.maxAttempts
    && (row.state.Pending? || row.state.Blocked? ==> row.attempt == 0)
    && (row.state.Running? || row.state.Succeeded? ==> row.attempt >= 1)
    && (row.state.DeadLetter? ==> row.attempt == row.maxAttempts)
  }

  predicate LeaseOk(row: TaskRun) {
    && (row.worker.Some? <==> row.state.Running?)
    && (row.lease.Some? <==> row.state.Running?)
  }

  ghost predicate RowOk(parents: Graph<TaskId>, rows: Rows, t: TaskId)
    requires t in rows && t in parents
  {
    var s := rows[t].state;
    && BudgetOk(rows[t])
    && LeaseOk(rows[t])
    && !s.Failed? && !s.Retrying?
    && (PastWaiting(s) ==> Unmet(parents, rows, t) == {})
    && (s.Pending? ==> rows[t].pendingDeps == |Unmet(parents, rows, t)| > 0)
    && (s.Blocked? <==> PoisonedParent(parents, rows, t))
  }

  ghost predicate RowsOk(parents: Graph<TaskId>, rows: Rows) {
    && rows.Keys == parents.Keys
    && forall t | t in rows :: RowOk(parents, rows, t)
  }

  /** A cancellation leaves nothing active behind. */
  predicate CancelOk(rows: Rows) {
    (exists t | t in rows :: rows[t].state.Cancelled?) ==> forall t | t in rows :: rows[t].state.IsTerminal()
  }

  predicate AttemptOk(row: TaskRun, number: nat, a: Attempt) {
    && (a.state.Running? || a.state.Succeeded? || a.state.Retrying? || a.state.Failed? || a.state.DeadLetter?)
    && (a.finished <==> !a.state.Running?)
    && (!a.finished ==> number == row.attempt && (row.state.Running? || row.state.Cancelled?))
    && (row.state.Running? && number == row.attempt ==> !a.finished && row.worker == Some(a.worker))
    && (a.state.Succeeded? <==> row.state.Succeeded? && number == row.attempt)
    && (a.state.DeadLetter? <==> row.state.DeadLetter? && number == row.attempt)
  }

  predicate Numbered(rows: Rows, k: AttemptKey) {
    k.task in rows && 1 <= k.number <= rows[k.task].attempt
  }

  /** The attempts of a row are numbered 1 up to its counter, and say how each one ended. */
  ghost predicate AttemptsOk(rows: Rows, attempts: Attempts) {
    && (forall k :: k in attempts <==> Numbered(rows, k))
    && (forall k | k in attempts :: AttemptOk(rows[k.task], k.number, attempts[k]))
  }

  /** The cached column may lag while work remains, but never about whether and how the run ended. */
  predicate CachedOk(run: Run) {
    var derived := RollUp(StateSet(run.rows));
    run.state.IsTerminal() || derived.IsTerminal() ==> run.state == derived
  }

  /** Everything but the cached column, which a report leaves to the refresh that follows it. */
  ghost predicate Core(run: Run) {
    && run.rows != map[]
    && Closed(run.parents) && Acyclic(run.parents)
    && RowsOk(run.parents, run.rows)
    && CancelOk(run.rows)
    && AttemptsOk(run.rows, run.attempts)
  }

  ghost predicate Inv(run: Run) {
    Core(run) && CachedOk(run)
  }

  // ---- framing -----------------------------------------------------------

  /** The two versions look alike to a child: the same rows have succeeded, the same ones are poisoned. */
  ghost predicate AlikeToChildren(rows: Rows, rows': Rows) {
    && rows'.Keys == rows.Keys
    && forall t | t in rows ::
         && (rows[t].state.Succeeded? <==> rows'[t].state.Succeeded?)
         && (Poison(rows[t].state) <==> Poison(rows'[t].state))
  }

  lemma AlikeSameParents(parents: Graph<TaskId>, rows: Rows, rows': Rows, t: TaskId)
    requires t in parents && AlikeToChildren(rows, rows')
    ensures Unmet(parents, rows', t) == Unmet(parents, rows, t)
    ensures PoisonedParent(parents, rows', t) <==> PoisonedParent(parents, rows, t)
  {
  }

  /** A move between READY and RUNNING, with budget and lease in order. */
  predicate Swap(row: TaskRun, row': TaskRun) {
    && (row.state.Ready? || row.state.Running?)
    && (row'.state.Ready? || row'.state.Running?)
    && BudgetOk(row') && LeaseOk(row')
  }

  ghost predicate OnlySwaps(rows: Rows, rows': Rows) {
    rows'.Keys == rows.Keys && forall t | t in rows :: rows'[t] == rows[t] || Swap(rows[t], rows'[t])
  }

  lemma SwappedRowOk(parents: Graph<TaskId>, rows: Rows, rows': Rows, t: TaskId)
    requires t in parents && t in rows && RowOk(parents, rows, t)
    requires AlikeToChildren(rows, rows') && (rows'[t] == rows[t] || Swap(rows[t], rows'[t]))
    ensures RowOk(parents, rows', t)
  {
    AlikeSameParents(parents, rows, rows', t);
  }

  /** Such moves disturb no other row, and wake nothing in a cancelled run. */
  lemma SwapKeepsRows(parents: Graph<TaskId>, rows: Rows, rows': Rows)
    requires RowsOk(parents, rows) && OnlySwaps(rows, rows')
    ensures RowsOk(parents, rows')
  {
    assert AlikeToChildren(rows, rows');
    forall t | t in rows ensures RowOk(parents, rows', t) {
      SwappedRowOk(parents, rows, rows', t);
    }
  }

  lemma SwapKeepsCancel(rows: Rows, rows': Rows)
    requires CancelOk(rows) && OnlySwaps(rows, rows')
    ensures CancelOk(rows')
  {
    if t :| t in rows' && rows'[t].state.Cancelled? {
      assert rows[t].state.Cancelled?;
    }
  }

  lemma ActiveMeansNoneCancelled(rows: Rows, t: TaskId)
    requires CancelOk(rows) && t in rows && rows[t].state.IsActive()
    ensures forall u | u in rows :: !rows[u].state.Cancelled?
  {
  }

  /** With an active row before and after, neither the old nor the new roll-up is terminal. */
  lemma StillActive(run: Run, run': Run, t: TaskId, t': TaskId)
    requires CachedOk(run) && run'.state == run.state
    requires t in run.rows && run.rows[t].state.IsActive()
    requires t' in run'.rows && run'.rows[t'].state.IsActive()
    ensures CachedOk(run')
  {
    assert run.rows[t].state in StateSet(run.rows);
    assert run'.rows[t'].state in StateSet(run'.rows);
    RollUpTerminal(StateSet(run.rows));
    RollUpTerminal(StateSet(run'.rows));
  }

  // ---- a fresh run -------------------------------------------------------

  ghost predicate Fresh(tasks: map<TaskId, TaskDef>, parents: Graph<TaskId>, rows: Rows, now: Time) {
    rows.Keys == tasks.Keys && forall t | t in tasks :: rows[t] == NewRow(tasks[t], UnmetAtStart(parents, t), now)
  }

  lemma FreshRowOk(tasks: map<TaskId, TaskDef>, parents: Graph<TaskId>, rows: Rows, now: Time, t: TaskId)
    requires parents.Keys == tasks.Keys && Closed(parents) && Fresh(tasks, parents, rows, now)
    requires t in rows && tasks[t].policy.WellFormed()
    ensures RowOk(parents, rows, t)
  {
    assert Unmet(parents, rows, t) == parents[t];
  }

  lemma FreshRowsOk(tasks: map<TaskId, TaskDef>, parents: Graph<TaskId>, rows: Rows, now: Time)
    requires parents.Keys == tasks.Keys && Closed(parents) && Fresh(tasks, parents, rows, now)
    requires forall t | t in tasks :: tasks[t].policy.WellFormed()
    ensures RowsOk(parents, rows) && CancelOk(rows) && AttemptsOk(rows, map[])
  {
    forall t | t in rows ensures RowOk(parents, rows, t) {
      FreshRowOk(tasks, parents, rows, now, t);
    }
  }

  /** The run of an accepted workflow starts in order, with a task ready to claim. */
  lemma CreateKeeps(tasks: map<TaskId, TaskDef>, parents: Graph<TaskId>, now: Time)
    requires tasks != map[]
    requires parents.Keys == tasks.Keys && Closed(parents) && Acyclic(parents)
    requires forall t | t in tasks :: tasks[t].policy.WellFormed()
    ensures CreateRun(tasks, parents, now).Success?
    ensures Inv(CreateRun(tasks, parents, now).value)
    ensures Ready in StateSet(CreateRun(tasks, parents, now).value.rows)
  {
    var run := CreateRun(tasks, parents, now).value;
    assert Fresh(tasks, parents, run.rows, now);
    FreshRowsOk(tasks, parents, run.rows, now);
    var t := FirstOf(parents, parents.Keys);
    assert parents[t] * parents.Keys == parents[t];
    FreshCachedOk(run, t);
  }

  lemma FreshCachedOk(run: Run, t: TaskId)
    requires t in run.rows && run.rows[t].state.Ready? && run.state.RunPending?
    ensures CachedOk(run) && Ready in StateSet(run.rows)
  {
    assert run.rows[t].state in StateSet(run.rows);
    RollUpTerminal(StateSet(run.rows));
  }

  // ---- claim, renew, reap, retry -------------------------------------------

  /** The rows a claim may take within its budget. */
  ghost predicate Claimable(run: Run, chosen: set<TaskId>) {
    forall t | t in chosen :: t in run.rows && run.rows[t].state.Ready? && !run.rows[t].Exhausted()
  }

  lemma WasOpened(rows: Rows, chosen: set<TaskId>, w: WorkerId, t: TaskId)
    requires t in chosen && t in rows
    ensures AttemptKey(t, rows[t].attempt + 1) in OpenedAttempts(rows, chosen, w)
    ensures OpenedAttempts(rows, chosen, w)[AttemptKey(t, rows[t].attempt + 1)] == Attempt(w, Running, false)
  {
  }

  lemma ClaimKeepsLog(rows: Rows, attempts: Attempts, rows': Rows, chosen: set<TaskId>, w: WorkerId, until: Time)
    requires AttemptsOk(rows, attempts) && rows'.Keys == rows.Keys
    requires forall t | t in chosen :: t in rows && rows[t].state.Ready?
    requires forall t | t in rows :: rows'[t] == if t in chosen then ClaimRow(rows[t], w, until) else rows[t]
    ensures AttemptsOk(rows', attempts + OpenedAttempts(rows, chosen, w))
  {
    var added := OpenedAttempts(rows, chosen, w);
    var attempts' := attempts + added;
    forall k ensures k in added <==> k.task in chosen && k.number == rows[k.task].attempt + 1 {
      if k.task in chosen && k.number == rows[k.task].attempt + 1 {
        assert k == AttemptKey(k.task, rows[k.task].attempt + 1);
      }
    }
    forall k ensures k in attempts' <==> Numbered(rows', k) {
      assert k in attempts <==> Numbered(rows, k);
    }
    forall k | k in attempts' ensures AttemptOk(rows'[k.task], k.number, attempts'[k]) {
      assert k in attempts <==> Numbered(rows, k);
    }
  }

  lemma ClaimOnlySwaps(parents: Graph<TaskId>, rows: Rows, rows': Rows, chosen: set<TaskId>, w: WorkerId, until: Time)
    requires RowsOk(parents, rows) && rows'.Keys == rows.Keys
    requires forall t | t in chosen :: t in rows && rows[t].state.Ready? && !rows[t].Exhausted()
    requires forall t | t in rows :: rows'[t] == if t in chosen then ClaimRow(rows[t], w, until) else rows[t]
    ensures OnlySwaps(rows, rows')
  {
    forall t | t in rows ensures rows'[t] == rows[t] || Swap(rows[t], rows'[t]) {
      assert RowOk(parents, rows, t);
    }
  }

  lemma ReapOnlySwaps(parents: Graph<TaskId>, rows: Rows, rows': Rows, now: Time)
    requires RowsOk(parents, rows) && rows'.Keys == rows.Keys
    requires forall t | t in rows :: rows'[t] == if Expired(rows[t], now) then rows[t].Released(Ready) else rows[t]
    ensures OnlySwaps(rows, rows')
  {
    forall t | t in rows ensures rows'[t] == rows[t] || Swap(rows[t], rows'[t]) {
      assert RowOk(parents, rows, t);
    }
  }

  lemma ClaimKeepsCore(run: Run, chosen: set<TaskId>, w: WorkerId, until: Time)
    requires Core(run) && Claimable(run, chosen)
    ensures Core(ClaimRows(run, chosen, w, until))
  {
    var run' := ClaimRows(run, chosen, w, until);
    ClaimOnlySwaps(run.parents, run.rows, run'.rows, chosen, w, until);
    SwapKeepsRows(run.parents, run.rows, run'.rows);
    SwapKeepsCancel(run.rows, run'.rows);
    ClaimKeepsLog(run.rows, run.attempts, run'.rows, chosen, w, until);
    var t :| t in run.rows;
    assert t in run'.rows;
  }

  lemma ClaimKeepsCached(run: Run, chosen: set<TaskId>, w: WorkerId, until: Time)
    requires CachedOk(run) && Claimable(run, chosen)
    ensures CachedOk(ClaimRows(run, chosen, w, until))
  {
    var run' := ClaimRows(run, chosen, w, until);
    if t :| t in chosen {
      StillActive(run, run', t, t);
    } else {
      assert run'.rows == run.rows;
    }
  }

  lemma RenewKeepsRows(parents: Graph<TaskId>, rows: Rows, attempts: Attempts, rows': Rows, t: TaskId, until: Time)
    requires RowsOk(parents, rows) && CancelOk(rows) && AttemptsOk(rows, attempts)
    requires t in rows && rows[t].state.Running? && rows' == rows[t := rows[t].(lease := Some(until))]
    ensures RowsOk(parents, rows') && CancelOk(rows') && AttemptsOk(rows', attempts)
  {
    assert Swap(rows[t], rows'[t]) by { assert RowOk(parents, rows, t); }
    SwapKeepsRows(parents, rows, rows');
    SwapKeepsCancel(rows, rows');
    LogReadsNoLease(rows, rows', attempts);
  }

  lemma LogReadsNoLease(rows: Rows, rows': Rows, attempts: Attempts)
    requires AttemptsOk(rows, attempts) && rows'.Keys == rows.Keys
    requires forall t | t in rows ::
               rows'[t].attempt == rows[t].attempt && rows'[t].worker == rows[t].worker
                   && rows'[t].state == rows[t].state
    ensures AttemptsOk(rows', attempts)
  {
    forall k ensures k in attempts <==> Numbered(rows', k) {
      assert k in attempts <==> Numbered(rows, k);
    }
    forall k | k in attempts ensures AttemptOk(rows'[k.task], k.number, attempts[k]) {
      assert AttemptOk(rows[k.task], k.number, attempts[k]);
    }
  }

  lemma RenewKeepsCore(run: Run, t: TaskId, w: WorkerId, until: Time)
    requires Core(run)
    ensures Core(RenewTask(run, t, w, until))
  {
    if Holds(run, t, w) {
      RenewKeepsRows(run.parents, run.rows, run.attempts, RenewTask(run, t, w, until).rows, t, until);
    }
  }

  lemma RenewKeepsCached(run: Run, t: TaskId, w: WorkerId, until: Time)
    requires CachedOk(run)
    ensures CachedOk(RenewTask(run, t, w, until))
  {
    if Holds(run, t, w) {
      StillActive(run, RenewTask(run, t, w, until), t, t);
    }
  }

  lemma ReapKeepsLog(run: Run, now: Time)
    requires AttemptsOk(run.rows, run.attempts)
    ensures AttemptsOk(ReapRun(run, now).rows, ReapRun(run, now).attempts)
  {
    var run' := ReapRun(run, now);
    forall k ensures k in run'.attempts <==> Numbered(run'.rows, k) {
      assert k in run.attempts <==> Numbered(run.rows, k);
    }
    forall k | k in run'.attempts ensures AttemptOk(run'.rows[k.task], k.number, run'.attempts[k]) {
      assert AttemptOk(run.rows[k.task], k.number, run.attempts[k]);
    }
  }

  lemma ReapKeepsCore(run: Run, now: Time)
    requires Core(run)
    ensures Core(ReapRun(run, now))
  {
    var run' := ReapRun(run, now);
    ReapOnlySwaps(run.parents, run.rows, run'.rows, now);
    SwapKeepsRows(run.parents, run.rows, run'.rows);
    SwapKeepsCancel(run.rows, run'.rows);
    ReapKeepsLog(run, now);
    var t :| t in run.rows;
    assert t in run'.rows;
  }

  lemma ReapKeepsCached(run: Run, now: Time)
    requires CachedOk(run)
    ensures CachedOk(ReapRun(run, now))
  {
    var run' := ReapRun(run, now);
    if t :| t in run.rows && Expired(run.rows[t], now) {
      StillActive(run, run', t, t);
    } else {
      assert run'.rows == run.rows;
    }
  }

  /** Closing the latest attempt of a row that leaves RUNNING keeps the log truthful. */
  lemma CloseKeepsLog(rows: Rows, attempts: Attempts, rows': Rows, t: TaskId, s: TaskState)
    requires AttemptsOk(rows, attempts)
    requires t in rows && rows[t].state.Running? && rows[t].attempt >= 1
    requires rows'.Keys == rows.Keys && forall u | u in rows :: rows'[u].attempt == rows[u].attempt
    requires s.Succeeded? || s.Retrying? || s.Failed? || s.DeadLetter?
    requires rows'[t].state == if s.Retrying? then Ready else s
    requires forall u | u in rows && u != t ::
               rows'[u] == rows[u]
               || (!(rows[u].state.Running? || rows[u].state.Cancelled? || rows[u].state.Succeeded?
                   || rows[u].state.DeadLetter?)
                   && (rows'[u].state.Ready? || rows'[u].state.Pending? || rows'[u].state.Blocked?))
    ensures AttemptsOk(rows', CloseAttempt(attempts, t, rows[t].attempt, s))
  {
    var k0 := AttemptKey(t, rows[t].attempt);
    assert Numbered(rows, k0);
    var attempts' := CloseAttempt(attempts, t, rows[t].attempt, s);
    forall k ensures k in attempts' <==> Numbered(rows', k) {
      assert k in attempts <==> Numbered(rows, k);
    }
    forall k | k in attempts' ensures AttemptOk(rows'[k.task], k.number, attempts'[k]) {
      assert k in attempts;
      assert AttemptOk(rows[k.task], k.number, attempts[k]);
    }
  }
}
