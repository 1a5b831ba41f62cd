/** The rows of a run are the in-memory cursor in another form: every committed step is a step of the cursor or none. */
module CursorSimulation {
  import opened Wrappers
  import opened Lifecycle
  import opened Graphs
  import opened DagCursors
  import opened RunTables
  import opened RunInvariant
  import opened RunReports
  import opened RunMachine
  import opened RunTheorems

  function ProgressOf(run: Run): Progress<TaskId> {
    Progress(set t | t in run.rows && run.rows[t].state.Succeeded?, set t | t in run.rows
        && run.rows[t].state.DeadLetter?)
  }

  lemma UnmetIsDifference(run: Run, t: TaskId)
    requires t in run.parents
    ensures Unmet(run.parents, run.rows, t) == run.parents[t] - ProgressOf(run).succeeded
  {
  }

  /** A fresh run starts where a fresh cursor does. */
  lemma FreshProgress(tasks: map<TaskId, TaskDef>, parents: Graph<TaskId>, now: Time)
    requires Accepted(tasks, parents)
    ensures CreateRun(tasks, parents, now).Success?
    ensures ProgressOf(CreateRun(tasks, parents, now).value) == Progress({}, {})
  {
  }

  lemma PendingCounts(run: Run, t: TaskId)
    requires Core(run) && t in run.rows
    ensures t in run.parents
    ensures run.rows[t].state.Pending? ==> run.rows[t].pendingDeps == |run.parents[t] - ProgressOf(run).succeeded|
  {
    assert RowOk(run.parents, run.rows, t);
    UnmetIsDifference(run, t);
  }

  lemma BlockedIsPoisoned(run: Run, t: TaskId)
    requires Core(run) && t in run.rows
    ensures run.rows[t].state.Blocked? <==> Poisoned(run.parents, ProgressOf(run).failed, t)
  {
    if run.rows[t].state.Blocked? {
      BlockedIsBelow(run);
      var x :| x in run.rows && run.rows[x].state.DeadLetter? && Reaches(run.parents, x, t);
      assert x in ProgressOf(run).failed;
    }
    if Poisoned(run.parents, ProgressOf(run).failed, t) {
      var x :| x in ProgressOf(run).failed && Reaches(run.parents, x, t);
      BelowIsBlocked(run, x, t);
    }
  }

  lemma OfferedIsReady(run: Run, t: TaskId)
    requires Core(run) && t in run.rows && forall u | u in run.rows :: !run.rows[u].state.Cancelled?
    ensures t in run.parents
    ensures run.rows[t].state.Ready? || run.rows[t].state.Running? <==> IsReady(run.parents, ProgressOf(run), t)
  {
    var p := ProgressOf(run);
    assert RowOk(run.parents, run.rows, t);
    UnmetIsDifference(run, t);
    EmptyDifference(run.parents[t], p.succeeded);
    if run.parents[t] <= p.succeeded {
      forall q | q in run.parents[t] ensures q in run.rows && run.rows[q].state.Succeeded? {
        assert q in p.succeeded;
      }
    }
  }

  /** A PENDING row counts what the cursor counts, the BLOCKED rows are the cursor's blocked tasks, and until a
      cancellation the tasks handed out or waiting to be are the cursor's ready tasks. */
  lemma RowsMirrorCursor(run: Run, t: TaskId)
    requires Reachable(run) && t in run.rows
    ensures t in run.parents
    ensures run.rows[t].state.Pending? ==> run.rows[t].pendingDeps == |run.parents[t] - ProgressOf(run).succeeded|
    ensures run.rows[t].state.Blocked? <==> Poisoned(run.parents, ProgressOf(run).failed, t)
    ensures (forall u | u in run.rows :: !run.rows[u].state.Cancelled?) ==>
              (run.rows[t].state.Ready? || run.rows[t].state.Running? <==> IsReady(run.parents, ProgressOf(run), t))
  {
    ReachableInv(run);
    PendingCounts(run, t);
    BlockedIsPoisoned(run, t);
    if forall u | u in run.rows :: !run.rows[u].state.Cancelled? {
      OfferedIsReady(run, t);
    }
  }

  /** What a success does to one row, seen as the cursor sees it. */
  lemma SuccessReleases(run: Run, t: TaskId, w: WorkerId, c: TaskId)
    requires Core(run) && Holds(run, t, w) && c in run.rows
    ensures c in SucceedTask(run, t, w).rows
    ensures run.rows[c].state.Pending? && SucceedTask(run, t, w).rows[c].state.Ready?
       <==> Unblocks(run.parents, ProgressOf(run).succeeded, t, c)
    ensures SucceedTask(run, t, w).rows[c].state.Succeeded? <==> c == t || run.rows[c].state.Succeeded?
    ensures SucceedTask(run, t, w).rows[c].state.DeadLetter? <==> run.rows[c].state.DeadLetter?
  {
    SuccessEffect(run, t, w);
    assert AfterSuccess(run.parents, run.rows, SucceedTask(run, t, w).rows, t, c);
    assert RowOk(run.parents, run.rows, c);
    assert RowOk(run.parents, run.rows, t);
    UnmetIsDifference(run, c);
    if Edge(run.parents, t, c) {
      OneMoreSucceeded(run.parents, ProgressOf(run).succeeded, t, c);
      EmptyDifference(run.parents[c], ProgressOf(run).succeeded + {t});
      if Unblocks(run.parents, ProgressOf(run).succeeded, t, c) {
        UnblockedIsPending(run, t, c);
      }
    }
  }

  lemma UnblockedIsPending(run: Run, t: TaskId, c: TaskId)
    requires RowsOk(run.parents, run.rows) && CancelOk(run.rows)
    requires t in run.rows && run.rows[t].state.Running? && c in run.rows
    requires Unblocks(run.parents, ProgressOf(run).succeeded, t, c)
    ensures run.rows[c].state.Pending?
  {
    assert RowOk(run.parents, run.rows, c);
    assert t in Unmet(run.parents, run.rows, c);
    ActiveMeansNoneCancelled(run.rows, t);
    assert !PoisonedParent(run.parents, run.rows, c) by {
      forall p | p in run.parents[c] && p in run.rows ensures !Poison(run.rows[p].state) {
        assert p in ProgressOf(run).succeeded + {t};
      }
    }
  }

  /** The two versions differ, to the cursor, by the success of `t` alone. */
  ghost predicate SucceededToo(rows: Rows, rows': Rows, t: TaskId) {
    && rows'.Keys == rows.Keys
    && forall c | c in rows :: (rows'[c].state.Succeeded? <==> c == t || rows[c].state.Succeeded?)
                               && (rows'[c].state.DeadLetter? <==> rows[c].state.DeadLetter?)
  }

  lemma SucceededTooIsMark(run: Run, run': Run, t: TaskId)
    requires SucceededToo(run.rows, run'.rows, t) && t in run.rows && !run.rows[t].state.DeadLetter?
    ensures ProgressOf(run') == MarkSucceeded(ProgressOf(run), t)
  {
    assert ProgressOf(run').succeeded == ProgressOf(run).succeeded + {t};
    assert ProgressOf(run').failed == ProgressOf(run).failed - {t};
  }

  lemma SuccessRows(run: Run, t: TaskId, w: WorkerId)
    requires Core(run) && Holds(run, t, w)
    ensures SucceededToo(run.rows, SucceedTask(run, t, w).rows, t)
    ensures forall c | c in run.rows ::
              run.rows[c].state.Pending? && SucceedTask(run, t, w).rows[c].state.Ready?
              <==> Unblocks(run.parents, ProgressOf(run).succeeded, t, c)
  {
    SuccessEffect(run, t, w);
    forall c | c in run.rows
      ensures SucceedTask(run, t, w).rows[c].state.Succeeded? <==> c == t || run.rows[c].state.Succeeded?
      ensures SucceedTask(run, t, w).rows[c].state.DeadLetter? <==> run.rows[c].state.DeadLetter?
      ensures run.rows[c].state.Pending? && SucceedTask(run, t, w).rows[c].state.Ready?
         <==> Unblocks(run.parents, ProgressOf(run).succeeded, t, c)
    {
      SuccessReleases(run, t, w, c);
    }
  }

  /** An accepted success is the cursor's `mark_succeeded`, never refused as still blocked, and moves to READY exactly
      the tasks the cursor returns. */
  lemma SuccessIsMarkSucceeded(run: Run, t: TaskId, w: WorkerId)
    requires Reachable(run) && Holds(run, t, w)
    ensures t in run.parents && run.parents[t] <= ProgressOf(run).succeeded && t !in ProgressOf(run).succeeded
    ensures var run' := Apply(run, ReportSuccess(t, w));
            && ProgressOf(run') == MarkSucceeded(ProgressOf(run), t)
            && run'.rows.Keys == run.rows.Keys
            && (forall c | c in run.rows ::
                  run.rows[c].state.Pending? && run'.rows[c].state.Ready?
                  <==> Unblocks(run.parents, ProgressOf(run).succeeded, t, c))
  {
    ReachableInv(run);
    HolderIsUnblocked(run, t, w);
    SuccessRows(run, t, w);
    SucceededTooIsMark(run, Apply(run, ReportSuccess(t, w)), t);
  }

  lemma HolderIsUnblocked(run: Run, t: TaskId, w: WorkerId)
    requires Core(run) && Holds(run, t, w)
    ensures run.parents[t] <= ProgressOf(run).succeeded
  {
    assert RowOk(run.parents, run.rows, t);
    forall p | p in run.parents[t] ensures p in ProgressOf(run).succeeded {
      assert p !in Unmet(run.parents, run.rows, t);
    }
  }

  ghost predicate SameProgress(rows: Rows, rows': Rows) {
    && rows'.Keys == rows.Keys
    && forall t | t in rows :: (rows'[t].state.Succeeded? <==> rows[t].state.Succeeded?)
                               && (rows'[t].state.DeadLetter? <==> rows[t].state.DeadLetter?)
  }

  lemma SameProgressSameCursor(run: Run, run': Run)
    requires SameProgress(run.rows, run'.rows)
    ensures ProgressOf(run') == ProgressOf(run)
  {
    assert ProgressOf(run').succeeded == ProgressOf(run).succeeded;
    assert ProgressOf(run').failed == ProgressOf(run).failed;
  }

  lemma DeadLetterIsMark(run: Run, run': Run, t: TaskId)
    requires t in run.rows && run.rows[t].state.Running? && WaitingBelow(run.parents, run.rows, t)
    requires run'.rows == BlockDescendants(run.parents, run.rows[t := run.rows[t].Released(DeadLetter)], t)
    ensures ProgressOf(run') == MarkFailed(ProgressOf(run), t)
  {
    assert ProgressOf(run').succeeded == ProgressOf(run).succeeded;
    assert ProgressOf(run').failed == ProgressOf(run).failed + {t};
  }

  lemma LastFailure(run: Run, t: TaskId, w: WorkerId, now: Time, draw: real)
    requires Core(run) && Holds(run, t, w) && FailureState(run, t, w, draw) == Some(DeadLetter)
    ensures ProgressOf(FailTask(run, t, w, now, draw)) == MarkFailed(ProgressOf(run), t)
  {
    TerminalFailureRows(run, t);
    DeadLetterIsMark(run, FailTask(run, t, w, now, draw), t);
  }

  lemma OtherFailure(run: Run, t: TaskId, w: WorkerId, now: Time, draw: real)
    requires FailureState(run, t, w, draw) == None
             || (Holds(run, t, w) && FailureState(run, t, w, draw) == Some(Retrying))
    ensures ProgressOf(FailTask(run, t, w, now, draw)) == ProgressOf(run)
  {
    SameProgressSameCursor(run, FailTask(run, t, w, now, draw));
  }

  lemma RefreshIsSilent(run: Run, t: TaskId, w: WorkerId, now: Time, draw: real)
    ensures ProgressOf(Apply(run, ReportFailure(t, w, now, draw))) == ProgressOf(FailTask(run, t, w, now, draw))
  {
  }

  lemma FailureProgress(run: Run, t: TaskId, w: WorkerId, now: Time, draw: real)
    requires Core(run) && t in run.rows
    ensures ProgressOf(FailTask(run, t, w, now, draw))
         == if Holds(run, t, w) && run.rows[t].attempt == run.rows[t].maxAttempts
            then MarkFailed(ProgressOf(run), t) else ProgressOf(run)
  {
    FailureOutcome(run, t, w, draw);
    if Holds(run, t, w) && run.rows[t].attempt == run.rows[t].maxAttempts {
      LastFailure(run, t, w, now, draw);
    } else {
      OtherFailure(run, t, w, now, draw);
    }
  }

  /** A failure on the last attempt is the cursor's `mark_failed`; any other failure report leaves the cursor alone. */
  lemma FailureIsMarkFailed(run: Run, t: TaskId, w: WorkerId, now: Time, draw: real)
    requires Reachable(run) && t in run.rows
    ensures ProgressOf(Apply(run, ReportFailure(t, w, now, draw)))
         == if Holds(run, t, w) && run.rows[t].attempt == run.rows[t].maxAttempts
            then MarkFailed(ProgressOf(run), t) else ProgressOf(run)
  {
    ReachableInv(run);
    FailureProgress(run, t, w, now, draw);
    RefreshIsSilent(run, t, w, now, draw);
  }

  lemma SilentRows(run: Run, step: RunStep)
    requires Enabled(run, step) && !step.ReportSuccess? && !step.ReportFailure?
    ensures SameProgress(run.rows, Apply(run, step).rows)
  {
  }

  /** Claims, renewals, reaps and cancellations are invisible to the cursor. */
  lemma OtherStepsAreSilent(run: Run, step: RunStep)
    requires Enabled(run, step) && !step.ReportSuccess? && !step.ReportFailure?
    ensures ProgressOf(Apply(run, step)) == ProgressOf(run)
  {
    SilentRows(run, step);
    SameProgressSameCursor(run, Apply(run, step));
  }
}
