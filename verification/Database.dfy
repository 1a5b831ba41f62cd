/** The repositories over the tables. Each method is one committed transaction; an UPDATE is one assignment.
    A method that would violate a constraint changes nothing and returns the error. */
module Database {
  import opened Wrappers
  import opened Lifecycle
  import opened Retry
  import opened Graphs
  import opened RunTables
  import opened Protocol
  import opened Effects

  datatype ClaimError = BudgetExceeded | DuplicateAttempt

  datatype RunError = RunExists | NoSuchTasks

  /** The row's next attempt is already on record. */
  predicate OnRecord(runs: Runs, k: RowKey) {
    Has(runs, k) && AttemptKey(k.task, RowOf(runs, k).attempt + 1) in runs[k.run].attempts
  }

  predicate Duplicated(runs: Runs, chosen: set<RowKey>) {
    exists k | k in chosen :: OnRecord(runs, k)
  }

  /** What the success of `t` does to the rows that were waiting for it. */
  predicate OneDependencyMet(parents: Graph<TaskId>, rows: Rows, rows': Rows, t: TaskId) {
    && rows'.Keys == rows.Keys
    && forall c | c in rows ::
         if !Edge(parents, t, c) || !rows[c].state.Pending? then rows'[c] == rows[c]
         else if rows[c].pendingDeps > 1 then rows'[c] == rows[c].(pendingDeps := rows[c].pendingDeps - 1)
         else rows'[c] == rows[c].(pendingDeps := 0, state := Ready)
  }

  /** The rows after a success are the only ones it allows. */
  lemma DependencyMetOnce(parents: Graph<TaskId>, rows: Rows, rows': Rows, t: TaskId)
    requires OneDependencyMet(parents, rows, rows', t)
    ensures rows' == Release(parents, Decrement(parents, rows, t), t)
  {
  }

  /** The rows RUNNING on a lease that has ended. */
  function ExpiredRows(runs: Runs, now: Time): (expired: set<RowKey>)
    ensures forall k :: k in expired <==>
              Has(runs, k) && RowOf(runs, k).state == Running
              && exists end :: RowOf(runs, k).lease == Some(end) && end < now
  {
    set r, t | r in runs && t in runs[r].rows && Expired(runs[r].rows[t], now) :: RowKey(r, t)
  }

  /** A sweep takes those rows from their workers, and leaves every other row alone. */
  lemma SweptRows(runs: Runs, now: Time)
    ensures forall k | Has(runs, k) ::
              Has(ReapAll(runs, now), k)
              && RowOf(ReapAll(runs, now), k)
                 == if k in ExpiredRows(runs, now)
                    then RowOf(runs, k).(state := Ready, worker := None, lease := None) else RowOf(runs, k)
  {
  }

  /** The chosen rows are RUNNING for the worker until the end of its lease, one attempt on; no other row changed. */
  ghost predicate Taken(runs: Runs, runs': Runs, chosen: set<RowKey>, w: WorkerId, until: Time) {
    forall k | Has(runs, k) ::
      Has(runs', k)
      && RowOf(runs', k)
         == if k in chosen
            then RowOf(runs, k).(state := Running, worker := Some(w), lease := Some(until),
                                 attempt := RowOf(runs, k).attempt + 1)
            else RowOf(runs, k)
  }

  lemma ClaimTakes(runs: Runs, chosen: set<RowKey>, w: WorkerId, until: Time)
    ensures Taken(runs, ClaimAll(runs, chosen, w, until), chosen, w, until) == true
  {
    forall k | Has(runs, k) ensures k.task in ChosenIn(chosen, k.run) <==> k in chosen {}
  }

  // ---- choosing what to claim -----------------------------------------------------

  /** `best` is preceded by no other. */
  ghost predicate NoneBefore(runs: Runs, all: set<RowKey>, best: RowKey) {
    Has(runs, best) && forall k | k in all :: Has(runs, k) && !Before(RowOf(runs, k), RowOf(runs, best))
  }

  method First(runs: Runs, all: set<RowKey>) returns (best: RowKey)
    requires all != {} && forall k | k in all :: Has(runs, k)
    ensures best in all && NoneBefore(runs, all, best)
  {
    best :| best in all;
    var rest := all - {best};
    while rest != {}
      invariant best in all && rest <= all && NoneBefore(runs, all - rest, best)
      decreases |rest|
    {
      var k :| k in rest;
      if Before(RowOf(runs, k), RowOf(runs, best)) {
        best := k;
      }
      rest := rest - {k};
    }
    assert all - rest == all;
  }

  // Here and below, a predicate compared with `true` is one the verifier should keep folded.

  /** `chosen` are the first rows of `all`, and `rest` the others. */
  ghost predicate Picking(runs: Runs, all: set<RowKey>, chosen: set<RowKey>, rest: set<RowKey>) {
    && chosen + rest == all && chosen * rest == {}
    && (forall k | k in all :: Has(runs, k))
    && forall c, k | c in chosen && k in rest :: Has(runs, c) && Has(runs, k) && !Before(RowOf(runs, k), RowOf(runs, c))
  }

  lemma PickNext(runs: Runs, all: set<RowKey>, order: seq<RowKey>, chosen: set<RowKey>, rest: set<RowKey>, next: RowKey)
    requires Picking(runs, all, chosen, rest) && ListsExactly(order, chosen)
    requires next in rest && NoneBefore(runs, rest, next)
    ensures Picking(runs, all, chosen + {next}, rest - {next}) == true
    ensures ListsExactly(order + [next], chosen + {next}) == true
    ensures |chosen + {next}| == |chosen| + 1
  {
    assert next !in chosen * rest;
    assert Picking(runs, all, chosen + {next}, rest - {next});
  }

  lemma PickedIsSelection(runs: Runs, now: Time, limit: nat, locked: set<RowKey>, chosen: set<RowKey>,
        rest: set<RowKey>)
    requires Picking(runs, Candidates(runs, now, locked), chosen, rest)
    requires |chosen| <= limit && (rest == {} || |chosen| == limit)
    ensures IsSelection(runs, now, limit, locked, chosen)
  {
    assert |Candidates(runs, now, locked)| == |chosen| + |rest|;
  }

  /** Picks the first row of what is left until the limit is reached. */
  method PickFirst(runs: Runs, ghost all: set<RowKey>, order: seq<RowKey>, chosen: set<RowKey>, rest: set<RowKey>)
    returns (order': seq<RowKey>, chosen': set<RowKey>, rest': set<RowKey>)
    requires Picking(runs, all, chosen, rest) && ListsExactly(order, chosen) && rest != {}
    ensures Picking(runs, all, chosen', rest') == true && ListsExactly(order', chosen') == true
    ensures |chosen'| == |chosen| + 1 && |rest'| < |rest|
  {
    var next := First(runs, rest);
    PickNext(runs, all, order, chosen, rest, next);
    order', chosen', rest' := order + [next], chosen + {next}, rest - {next};
  }

  /** ORDER BY priority DESC, scheduled_at LIMIT n over the rows not locked by a concurrent claim. */
  method Select(runs: Runs, now: Time, limit: nat, locked: set<RowKey>)
    returns (order: seq<RowKey>, chosen: set<RowKey>)
    ensures IsSelection(runs, now, limit, locked, chosen) == true && ListsExactly(order, chosen) == true
    ensures forall c | c in chosen ::
              Has(runs, c) && c !in locked && RowOf(runs, c).state == Ready && RowOf(runs, c).scheduledAt <= now
    ensures |chosen| <= limit
    ensures forall k | Has(runs, k) && k !in locked && k !in chosen && RowOf(runs, k).state == Ready
                       && RowOf(runs, k).scheduledAt <= now ::
              |chosen| == limit
              && forall c | c in chosen ::
                   var taken, left := RowOf(runs, c), RowOf(runs, k);
                   || taken.task.priority > left.task.priority
                   || (taken.task.priority == left.task.priority && taken.scheduledAt <= left.scheduledAt)
  {
    var rest := Candidates(runs, now, locked);
    ghost var all := rest;
    order, chosen := [], {};
    assert Picking(runs, all, chosen, rest) && ListsExactly(order, chosen);
    while rest != {} && |chosen| < limit
      invariant Picking(runs, all, chosen, rest) == true && ListsExactly(order, chosen) == true
      invariant |chosen| <= limit && all == Candidates(runs, now, locked)
      decreases |rest|
    {
      order, chosen, rest := PickFirst(runs, all, order, chosen, rest);
    }
    PickedIsSelection(runs, now, limit, locked, chosen, rest);
    SelectionIff(runs, now, limit, locked, chosen);
  }

  class Tables {
    var runs: Runs

    constructor ()
      ensures runs == map[]
    {
      runs := map[];
    }

    // ---- runs ------------------------------------------------------------------

    method CreateRun(r: RunId, tasks: map<TaskId, TaskDef>, parents: Graph<TaskId>, now: Time)
      returns (error: Option<RunError>)
      modifies this
      ensures error == if r in old(runs) then Some(RunExists)
                       else if tasks == map[] then Some(NoSuchTasks) else None
      ensures error.Some? ==> runs == old(runs)
      ensures error.None? ==> RunTables.CreateRun(tasks, parents, now).Success?
                              && runs == old(runs)[r := RunTables.CreateRun(tasks, parents, now).value]
    {
      if r in runs { return Some(RunExists); }
      var rows: Rows := map[];
      var todo := tasks.Keys;
      while todo != {}
        invariant todo <= tasks.Keys && rows.Keys == tasks.Keys - todo
        invariant forall t | t in rows :: rows[t] == NewRow(tasks[t], UnmetAtStart(parents, t), now)
        decreases |todo|
      {
        var t :| t in todo;
        rows := rows[t := NewRow(tasks[t], UnmetAtStart(parents, t), now)];
        todo := todo - {t};
      }
      if tasks == map[] { return Some(NoSuchTasks); }
      assert rows == map t | t in tasks :: NewRow(tasks[t], UnmetAtStart(parents, t), now);
      runs := runs[r := Run(parents, rows, map[], RunPending)];
      return None;
    }

    /** Reads the states of the rows, in any order, and rolls them up. */
    method RefreshRunState(r: RunId) returns (derived: RunState)
      modifies this
      ensures runs == if r in old(runs) then old(runs)[r := Refresh(old(runs)[r])] else old(runs)
      ensures derived == if r in runs then runs[r].state else RunPending
    {
      if r !in runs { return DeriveRunState([]); }
      var states: seq<TaskState> := [];
      var todo := runs[r].rows.Keys;
      while todo != {}
        invariant todo <= runs[r].rows.Keys && runs == old(runs)
        invariant forall t | t in runs[r].rows && t !in todo :: runs[r].rows[t].state in states
        invariant forall s | s in states :: exists t | t in runs[r].rows :: runs[r].rows[t].state == s
        decreases |todo|
      {
        var t :| t in todo;
        states := states + [runs[r].rows[t].state];
        todo := todo - {t};
      }
      assert (set s | s in states) == StateSet(runs[r].rows);
      derived := DeriveRunState(states);
      DeriveIsRollUp(states);
      runs := runs[r := runs[r].(state := derived)];
    }

    method Cancel(r: RunId) returns (count: nat)
      modifies this
      ensures runs == OnRun(old(runs), r, RunMachine.Cancel)
      ensures r in old(runs) ==> count == |set t | t in old(runs)[r].rows && old(runs)[r].rows[t].state.IsActive()|
      ensures r !in old(runs) ==> count == 0
    {
      if r !in runs { return 0; }
      var active := set t | t in runs[r].rows && runs[r].rows[t].state.IsActive();
      runs := runs[r := runs[r].(rows := CancelRows(runs[r].rows))];
      var _ := RefreshRunState(r);
      count := |active|;
    }

    // ---- claiming --------------------------------------------------------------

    /** The claim: all of the selection or nothing. `chosen` is the selection the query made. */
    method ClaimBatch(w: WorkerId, limit: nat, now: Time, until: Time, locked: set<RowKey>)
      returns (result: Result<seq<Ticket>, ClaimError>, ghost chosen: set<RowKey>)
      modifies this
      ensures IsSelection(old(runs), now, limit, locked, chosen)
      ensures OverBudget(old(runs), chosen) <==> result == Failure(BudgetExceeded)
      ensures result == Failure(DuplicateAttempt) <==> Duplicated(old(runs), chosen) && !OverBudget(old(runs), chosen)
      ensures result.Failure? ==> runs == old(runs)
      ensures result.Success? ==> runs == ClaimAll(old(runs), chosen, w, until)
      ensures result.Success? ==> Taken(old(runs), runs, chosen, w, until) == true
      ensures result.Success? ==> exists order ::
              ListsExactly(order, chosen) && result.value == TicketsOf(old(runs), order)
    {
      var order, picked := Select(runs, now, limit, locked);
      chosen := picked;
      if exists k | k in picked :: Has(runs, k) && RowOf(runs, k).Exhausted() {
        return Failure(BudgetExceeded), chosen;
      }
      SelectionIsReady(runs, now, limit, locked, chosen);
      var batch: seq<Ticket> := [];
      for i := 0 to |order|
        invariant runs == old(runs) && batch == TicketsOf(runs, order[..i])
      {
        assert order[i] in order;
        batch := batch + [Ticket(order[i], RowOf(runs, order[i]).attempt + 1)];
      }
      assert order[..|order|] == order;
      if exists k | k in picked :: OnRecord(runs, k) {
        return Failure(DuplicateAttempt), chosen;
      }
      ClaimTakes(runs, picked, w, until);
      runs := ClaimAll(runs, picked, w, until);
      return Success(batch), chosen;
    }

    method RenewLease(k: RowKey, w: WorkerId, until: Time) returns (renewed: bool)
      modifies this
      ensures runs == OnRun(old(runs), k.run, RunMachine.Renew(k.task, w, until))
      ensures renewed <==> HeldBy(old(runs), k, w)
      ensures runs == if !renewed then old(runs) else
                        old(runs)[k.run := old(runs)[k.run].(rows :=
                          old(runs)[k.run].rows[k.task := RowOf(old(runs), k).(lease := Some(until))])]
    {
      if k.run !in runs { return false; }
      var run := runs[k.run];
      renewed := k.task in run.rows && run.rows[k.task].worker == Some(w) && run.rows[k.task].state.Running?;
      if renewed {
        runs := runs[k.run := run.(rows := run.rows[k.task := run.rows[k.task].(lease := Some(until))])];
      }
    }

    // ---- completion ------------------------------------------------------------

    /** False means the lease was lost: nothing is written. */
    method RecordSuccess(k: RowKey, w: WorkerId) returns (accepted: bool)
      modifies this
      ensures accepted <==> HeldBy(old(runs), k, w)
      ensures runs == if k.run in old(runs) then old(runs)[k.run := SucceedTask(old(runs)[k.run], k.task, w)]
              else old(runs)
    {
      if k.run !in runs { return false; }
      var run := runs[k.run];
      if !(k.task in run.rows && run.rows[k.task].worker == Some(w) && run.rows[k.task].state.Running?) {
        return false;
      }
      var attempt := run.rows[k.task].attempt;
      runs := runs[k.run := run.(rows := run.rows[k.task := run.rows[k.task].Released(Succeeded)])];
      CloseAttempt(k, attempt, Succeeded);
      ghost var rows := runs[k.run].rows;
      UnblockChildren(k);
      DependencyMetOnce(run.parents, rows, runs[k.run].rows, k.task);
      return true;
    }

    /** The resulting state, or None when the lease was already lost. */
    method RecordFailure(k: RowKey, w: WorkerId, now: Time, draw: real) returns (outcome: Option<TaskState>)
      modifies this
      ensures outcome == if k.run in old(runs) then FailureState(old(runs)[k.run], k.task, w, draw) else None
      ensures runs == if k.run in old(runs) then old(runs)[k.run := FailTask(old(runs)[k.run], k.task, w, now, draw)]
              else old(runs)
      ensures Has(old(runs), k) && RowOf(old(runs), k).worker == Some(w) ==>
                var row := RowOf(old(runs), k);
                var delay := NextDelayOf(row.task.policy, row.attempt, draw);
                && (outcome == Some(Retrying) <==> delay.After?)
                && (outcome == Some(DeadLetter) <==> delay.Exhausted? && row.attempt >= row.maxAttempts)
                && (outcome == Some(Failed) <==> delay.Exhausted? && row.attempt < row.maxAttempts)
      ensures !(Has(old(runs), k) && RowOf(old(runs), k).worker == Some(w)) ==> outcome == None && runs == old(runs)
      ensures outcome == Some(Retrying) ==>
                var row := RowOf(old(runs), k);
                var delay := NextDelayOf(row.task.policy, row.attempt, draw);
                && delay.After? && row.worker == Some(w) && Has(runs, k)
                && RowOf(runs, k)
                   == row.(state := Ready, worker := None, lease := None, scheduledAt := now + delay.seconds)
                && forall c | Has(old(runs), c) && c != k :: Has(runs, c) && RowOf(runs, c) == RowOf(old(runs), c)
    {
      if k.run !in runs { return None; }
      var run := runs[k.run];
      if k.task !in run.rows || run.rows[k.task].worker != Some(w) {
        return None;
      }
      var row := run.rows[k.task];
      match NextDelayOf(row.task.policy, row.attempt, draw)
      case AttemptNotPositive =>
        return None;
      case Exhausted =>
        var terminal := if row.attempt >= row.maxAttempts then DeadLetter else Failed;
        runs := runs[k.run := run.(rows := run.rows[k.task := row.Released(terminal)])];
        CloseAttempt(k, row.attempt, terminal);
        BlockDescendants(k);
        return Some(terminal);
      case After(delay) =>
        runs := runs[k.run := run.(rows := run.rows[k.task := row.Released(Ready).(scheduledAt := now + delay)])];
        CloseAttempt(k, row.attempt, Retrying);
        return Some(Retrying);
    }

    // ---- lease expiry ----------------------------------------------------------

    /** Returns every expired row of every run to the queue, closes the attempts those workers left open, and counts
        them. */
    method ReapExpiredLeases(now: Time) returns (count: nat)
      modifies this
      ensures runs == ReapAll(old(runs), now) && count == |ExpiredRows(old(runs), now)|
      ensures forall k | Has(old(runs), k) ::
                Has(runs, k)
                && RowOf(runs, k)
                   == if k in ExpiredRows(old(runs), now)
                      then RowOf(old(runs), k).(state := Ready, worker := None, lease := None)
                      else RowOf(old(runs), k)
    {
      count := |ExpiredRows(runs, now)|;
      var todo := runs.Keys;
      while todo != {}
        invariant runs.Keys == old(runs).Keys && todo <= runs.Keys
        invariant forall r | r in runs :: runs[r] == if r in todo then old(runs)[r] else ReapRun(old(runs)[r], now)
        decreases |todo|
      {
        var r :| r in todo;
        ReapExpiredIn(r, now);
        todo := todo - {r};
      }
      assert runs == ReapAll(old(runs), now);
      SweptRows(old(runs), now);
    }

    method ReapExpiredIn(r: RunId, now: Time)
      requires r in runs
      modifies this
      ensures runs == old(runs)[r := ReapRun(old(runs)[r], now)]
    {
      var run := runs[r];
      var expired := set t | t in run.rows && Expired(run.rows[t], now);
      var rows: Rows := map t | t in run.rows :: if t in expired then run.rows[t].Released(Ready) else run.rows[t];
      var attempts := run.attempts;
      var todo := expired;
      while todo != {}
        invariant todo <= expired && attempts.Keys == run.attempts.Keys
        invariant forall k | k in attempts ::
          attempts[k] == if && k.task in expired - todo && k.number == run.rows[k.task].attempt
              && !run.attempts[k].finished
                         then run.attempts[k].(state := Failed, finished := true) else run.attempts[k]
        decreases |todo|
      {
        var t :| t in todo;
        attempts := RunTables.CloseAttempt(attempts, t, run.rows[t].attempt, Failed);
        todo := todo - {t};
      }
      assert rows == ReapRun(run, now).rows;
      assert attempts == ReapRun(run, now).attempts;
      runs := runs[r := run.(rows := rows, attempts := attempts)];
    }

    // ---- internals -------------------------------------------------------------

    method CloseAttempt(k: RowKey, number: nat, s: TaskState)
      requires k.run in runs
      modifies this
      ensures k.run in runs && runs[k.run].attempts.Keys == old(runs)[k.run].attempts.Keys
      ensures forall q | q in old(runs)[k.run].attempts ::
                runs[k.run].attempts[q]
                == if q == AttemptKey(k.task, number) && !old(runs)[k.run].attempts[q].finished
                   then Attempt(old(runs)[k.run].attempts[q].worker, s, true) else old(runs)[k.run].attempts[q]
      ensures var run := old(runs)[k.run];
              runs == old(runs)[k.run := run.(attempts := RunTables.CloseAttempt(run.attempts, k.task, number, s))]
    {
      var key := AttemptKey(k.task, number);
      var run := runs[k.run];
      if key in run.attempts && !run.attempts[key].finished {
        var closed := run.attempts[key].(state := s, finished := true);
        runs := runs[k.run := run.(attempts := run.attempts[key := closed])];
      }
    }

    /** Two statements over the waiting children. Together they release exactly those whose last missing dependency this
        was, count one dependency less for the others, and touch nothing else. */
    method UnblockChildren(k: RowKey)
      requires k.run in runs
      modifies this
      ensures k.run in runs && runs == old(runs)[k.run := old(runs)[k.run].(rows := runs[k.run].rows)]
      ensures OneDependencyMet(old(runs)[k.run].parents, old(runs)[k.run].rows, runs[k.run].rows, k.task)
    {
      var run := runs[k.run];
      var rows := run.rows;
      rows := map c | c in rows ::
        if Edge(run.parents, k.task, c) && rows[c].state.Pending? && rows[c].pendingDeps > 0
        then rows[c].(pendingDeps := rows[c].pendingDeps - 1) else rows[c];
      rows := map c | c in rows ::
        if Edge(run.parents, k.task, c) && rows[c].state.Pending? && rows[c].pendingDeps == 0
        then rows[c].(state := Ready) else rows[c];
      runs := runs[k.run := run.(rows := rows)];
    }

    /** Level by level, until a level has no children or changes no row. */
    method BlockDescendants(k: RowKey)
      requires k.run in runs
      modifies this
      ensures var run := old(runs)[k.run];
              runs == old(runs)[k.run := run.(rows := BlockLevels(run.parents, run.rows, {k.task}))]
    {
      var parents := runs[k.run].parents;
      var rows := runs[k.run].rows;
      var frontier := {k.task};
      while frontier != {}
        invariant runs == old(runs)
        invariant BlockLevels(parents, rows, frontier) == BlockLevels(parents, runs[k.run].rows, {k.task})
        decreases |Blockable(rows)|, |frontier|
      {
        var children := Children(parents, frontier);
        if children == {} {
          assert children * Blockable(rows) == {};
          break;
        }
        var hit := set t | t in rows && t in children && (rows[t].state.Pending? || rows[t].state.Ready?);
        assert hit == children * Blockable(rows);
        if |hit| == 0 { break; }
        BlockingShrinks(rows, hit);
        rows := BlockRows(rows, hit);
        frontier := children;
      }
      assert frontier == {} ==> Children(parents, frontier) == {};
      runs := runs[k.run := runs[k.run].(rows := rows)];
    }
  }
}
