/** What reports and cancellation keep: success releases children, terminal failure blocks every descendant. */
module RunReports {
  import opened Wrappers
  import opened Lifecycle
  import opened Retry
  import opened Graphs
  import opened RunTables
  import opened RunInvariant

  // ---- what the invariant says about ancestors and descendants -------------

  lemma {:induction false} WalkToReleased(run: Run, w: seq<TaskId>, a: TaskId, t: TaskId)
    requires Core(run) && WalkFromTo(run.parents, w, a, t)
    requires t in run.rows && PastWaiting(run.rows[t].state)
    ensures a in run.rows && run.rows[a].state.Succeeded?
  {
    var p := w[|w| - 2];
    assert Edge(run.parents, p, w[|w| - 1]);
    assert RowOk(run.parents, run.rows, t);
    assert p !in Unmet(run.parents, run.rows, t);
    if |w| > 2 {
      WalkToReleased(run, w[..|w| - 1], a, p);
    }
  }

  /** Ordering: a task that was ever released has only succeeded ancestors. */
  lemma AncestorsSucceeded(run: Run, a: TaskId, t: TaskId)
    requires Core(run) && Reaches(run.parents, a, t)
    requires t in run.rows && PastWaiting(run.rows[t].state)
    ensures a in run.rows && run.rows[a].state.Succeeded?
  {
    var w :| WalkFromTo(run.parents, w, a, t);
    WalkToReleased(run, w, a, t);
  }

  lemma {:induction false} ReachedIsRow(run: Run, a: TaskId, t: TaskId)
    requires Core(run) && Reaches(run.parents, a, t)
    ensures t in run.rows && a in run.rows
  {
    var w :| WalkFromTo(run.parents, w, a, t);
    assert Edge(run.parents, w[0], w[1]);
    assert Edge(run.parents, w[|w| - 2], w[|w| - 1]);
  }

  /** While a task is RUNNING, everything below it is still waiting or already blocked. */
  lemma DescendantsWait(run: Run, x: TaskId, t: TaskId)
    requires Core(run) && x in run.rows && run.rows[x].state.Running?
    requires Reaches(run.parents, x, t)
    ensures t in run.rows && (run.rows[t].state.Pending? || run.rows[t].state.Blocked?)
  {
    ReachedIsRow(run, x, t);
    if PastWaiting(run.rows[t].state) {
      AncestorsSucceeded(run, x, t);
    }
    assert RowOk(run.parents, run.rows, t);
    assert run.rows[x].state.IsActive();
  }

  // ---- success -----------------------------------------------------------

  /** The net effect of the three success statements on one row. */
  ghost predicate AfterSuccess(parents: Graph<TaskId>, rows: Rows, rows': Rows, t: TaskId, c: TaskId)
    requires t in rows && c in rows && c in rows' && c in parents
  {
    if c == t then rows'[c] == rows[t].Released(Succeeded)
    else if Edge(parents, t, c) && rows[c].state.Pending? then
      var left := |Unmet(parents, rows, c)| - 1;
      left >= 0 && rows'[c] == rows[c].(pendingDeps := left, state := if left == 0 then Ready else Pending)
    else rows'[c] == rows[c]
  }

  lemma SuccessEffectRow(parents: Graph<TaskId>, rows: Rows, t: TaskId, c: TaskId)
    requires t in rows && rows[t].state.Running? && c in rows && c in parents && RowOk(parents, rows, c)
    ensures var done := rows[t := rows[t].Released(Succeeded)];
            AfterSuccess(parents, rows, Release(parents, Decrement(parents, done, t), t), t, c)
  {
    if Edge(parents, t, c) {
      assert t in Unmet(parents, rows, c);
    }
  }

  lemma SuccessEffect(run: Run, t: TaskId, w: WorkerId)
    requires RowsOk(run.parents, run.rows) && Holds(run, t, w)
    ensures SucceedTask(run, t, w).rows.Keys == run.rows.Keys
    ensures forall c | c in run.rows :: AfterSuccess(run.parents, run.rows, SucceedTask(run, t, w).rows, t, c)
  {
    forall c | c in run.rows ensures AfterSuccess(run.parents, run.rows, SucceedTask(run, t, w).rows, t, c) {
      SuccessEffectRow(run.parents, run.rows, t, c);
    }
  }

  lemma SuccessRowOk(parents: Graph<TaskId>, rows: Rows, rows': Rows, t: TaskId, c: TaskId)
    requires RowsOk(parents, rows) && rows'.Keys == rows.Keys
    requires t in rows && rows[t].state.Running? && c in rows
    requires forall d | d in rows :: AfterSuccess(parents, rows, rows', t, d)
    ensures RowOk(parents, rows', c)
  {
    assert RowOk(parents, rows, c);
    assert RowOk(parents, rows, t);
    forall p | p in rows
      ensures rows'[p].state.Succeeded? <==> rows[p].state.Succeeded? || p == t
      ensures Poison(rows'[p].state) <==> Poison(rows[p].state)
    {
      assert AfterSuccess(parents, rows, rows', t, p);
    }
    assert Unmet(parents, rows', c) == Unmet(parents, rows, c) - {t};
    assert PoisonedParent(parents, rows', c) <==> PoisonedParent(parents, rows, c);
    assert AfterSuccess(parents, rows, rows', t, c);
  }

  lemma SuccessKeepsRows(parents: Graph<TaskId>, rows: Rows, rows': Rows, t: TaskId)
    requires RowsOk(parents, rows) && CancelOk(rows) && rows'.Keys == rows.Keys
    requires t in rows && rows[t].state.Running?
    requires forall c | c in rows :: AfterSuccess(parents, rows, rows', t, c)
    ensures RowsOk(parents, rows') && CancelOk(rows')
  {
    forall c | c in rows ensures RowOk(parents, rows', c) {
      SuccessRowOk(parents, rows, rows', t, c);
    }
    assert rows[t].state.IsActive();
    forall c | c in rows ensures !rows'[c].state.Cancelled? {
      assert AfterSuccess(parents, rows, rows', t, c);
    }
  }

  lemma SucceedKeeps(run: Run, t: TaskId, w: WorkerId)
    requires Core(run)
    ensures Core(SucceedTask(run, t, w))
  {
    if Holds(run, t, w) {
      var run' := SucceedTask(run, t, w);
      SuccessEffect(run, t, w);
      SuccessKeepsRows(run.parents, run.rows, run'.rows, t);
      SuccessKeepsLog(run, t, w);
      assert t in run'.rows;
    }
  }

  lemma SuccessKeepsLog(run: Run, t: TaskId, w: WorkerId)
    requires RowsOk(run.parents, run.rows) && AttemptsOk(run.rows, run.attempts) && Holds(run, t, w)
    ensures AttemptsOk(SucceedTask(run, t, w).rows, SucceedTask(run, t, w).attempts)
  {
    var run' := SucceedTask(run, t, w);
    SuccessEffect(run, t, w);
    assert RowOk(run.parents, run.rows, t);
    forall c | c in run.rows
      ensures run'.rows[c].attempt == run.rows[c].attempt
      ensures c != t ==> run'.rows[c] == run.rows[c]
                         || (run.rows[c].state.Pending? && (run'.rows[c].state.Ready? || run'.rows[c].state.Pending?))
    {
      assert AfterSuccess(run.parents, run.rows, run'.rows, t, c);
    }
    assert AfterSuccess(run.parents, run.rows, run'.rows, t, t);
    CloseKeepsLog(run.rows, run.attempts, run'.rows, t, Succeeded);
  }

  // ---- terminal failure ----------------------------------------------------

  /** What the level-by-level loop is for. */
  ghost function BlockDescendants(parents: Graph<TaskId>, rows: Rows, x: TaskId): Rows {
    map t | t in rows ::
      if Reaches(parents, x, t) && rows[t].state.Pending? then rows[t].(state := Blocked) else rows[t]
  }

  /** All that lies below `x` is waiting or blocked, and the levels above `frontier` are done. */
  ghost predicate Blocking(parents: Graph<TaskId>, rows: Rows, frontier: set<TaskId>, x: TaskId) {
    && (forall t | Reaches(parents, x, t) :: t in rows && (rows[t].state.Pending? || rows[t].state.Blocked?))
    && (forall f | f in frontier :: f == x || Reaches(parents, x, f))
    && (forall p, c | Edge(parents, p, c) && (p == x || (p in rows && rows[p].state.Blocked?)) ::
          c in Children(parents, frontier) || (c in rows && rows[c].state.Blocked?))
  }

  lemma ChildrenAreBelow(parents: Graph<TaskId>, rows: Rows, frontier: set<TaskId>, x: TaskId, c: TaskId)
    requires Blocking(parents, rows, frontier, x) && c in Children(parents, frontier)
    ensures Reaches(parents, x, c)
  {
    var f :| f in parents[c] * frontier;
    assert Edge(parents, f, c);
    if f == x { EdgeReaches(parents, x, c); } else { ReachesThenEdge(parents, x, f, c); }
  }

  lemma NextLevel(parents: Graph<TaskId>, rows: Rows, frontier: set<TaskId>, x: TaskId)
    requires Blocking(parents, rows, frontier, x)
    ensures Blocking(parents, BlockRows(rows, Children(parents, frontier) * Blockable(rows)),
                     Children(parents, frontier), x)
  {
    var children := Children(parents, frontier);
    var rows' := BlockRows(rows, children * Blockable(rows));
    forall c | c in children ensures Reaches(parents, x, c) {
      ChildrenAreBelow(parents, rows, frontier, x, c);
    }
    forall p, c | Edge(parents, p, c) && (p == x || (p in rows' && rows'[p].state.Blocked?))
      ensures c in Children(parents, children) || (c in rows' && rows'[c].state.Blocked?)
    {
      if p in children {
        assert p in parents[c] * children;
      } else if c in children {
        assert Reaches(parents, x, c);
      }
    }
  }

  /** The early exit never misses a descendant: a level that changes no row is a level below which all is blocked. */
  lemma {:induction false} LevelsBlockAllDescendants(parents: Graph<TaskId>, rows: Rows, frontier: set<TaskId>,
        x: TaskId)
    requires Blocking(parents, rows, frontier, x)
    ensures BlockLevels(parents, rows, frontier) == BlockDescendants(parents, rows, x)
    decreases |Blockable(rows)|
  {
    var children := Children(parents, frontier);
    var hit := children * Blockable(rows);
    forall c | c in children ensures Reaches(parents, x, c) {
      ChildrenAreBelow(parents, rows, frontier, x, c);
    }
    if hit == {} {
      var blocked := set t | t in rows && rows[t].state.Blocked?;
      forall p, c | Edge(parents, p, c) && (p == x || p in blocked) ensures c in blocked {
        if c in children { assert c !in hit; }
      }
      forall t | Reaches(parents, x, t) ensures t in blocked {
        ClosedSetHoldsDescendants(parents, blocked, x, t);
      }
      assert BlockDescendants(parents, rows, x) == rows;
    } else {
      BlockingShrinks(rows, hit);
      NextLevel(parents, rows, frontier, x);
      LevelsBlockAllDescendants(parents, BlockRows(rows, hit), children, x);
      assert BlockDescendants(parents, BlockRows(rows, hit), x) == BlockDescendants(parents, rows, x);
    }
  }

  /** The loop changes nothing of a row but its state, and that only from PENDING or READY to BLOCKED; such a child of
      the frontier it never leaves as it was. */
  lemma {:induction false} LevelsOnlyBlock(parents: Graph<TaskId>, rows: Rows, frontier: set<TaskId>, t: TaskId)
    requires t in rows
    ensures t in BlockLevels(parents, rows, frontier)
    ensures BlockLevels(parents, rows, frontier)[t] == rows[t]
            || (rows[t].state in {Pending, Ready}
                && BlockLevels(parents, rows, frontier)[t] == rows[t].(state := Blocked))
    ensures t in parents && parents[t] * frontier != {} && rows[t].state in {Pending, Ready} ==>
              BlockLevels(parents, rows, frontier)[t].state == Blocked
    decreases |Blockable(rows)|
  {
    var children := Children(parents, frontier);
    var hit := children * Blockable(rows);
    assert t in hit <==> t in parents && parents[t] * frontier != {} && rows[t].state in {Pending, Ready};
    if hit != {} {
      BlockingShrinks(rows, hit);
      LevelsOnlyBlock(parents, BlockRows(rows, hit), children, t);
    }
  }

  /** For a holder, a failure is terminal exactly when the budget is spent, and then it is DEAD_LETTER. */
  lemma FailureOutcome(run: Run, t: TaskId, w: WorkerId, draw: real)
    requires Core(run)
    ensures FailureState(run, t, w, draw)
         == if !Holds(run, t, w) then None
            else if run.rows[t].attempt == run.rows[t].maxAttempts then Some(DeadLetter)
            else Some(Retrying)
  {
    if t in run.rows {
      assert RowOk(run.parents, run.rows, t);
      NextDelayOutcome(run.rows[t].task.policy, run.rows[t].attempt, draw);
    }
  }

  lemma TerminalFailureRows(run: Run, t: TaskId)
    requires Core(run) && t in run.rows && run.rows[t].state.Running?
    ensures var dead := run.rows[t := run.rows[t].Released(DeadLetter)];
            BlockLevels(run.parents, dead, {t}) == BlockDescendants(run.parents, dead, t)
    ensures WaitingBelow(run.parents, run.rows, t)
  {
    var dead := run.rows[t := run.rows[t].Released(DeadLetter)];
    NoSelfReach(run.parents, t);
    forall d | Reaches(run.parents, t, d)
      ensures d in run.rows && (run.rows[d].state.Pending? || run.rows[d].state.Blocked?)
    {
      DescendantsWait(run, t, d);
    }
    forall p, c | Edge(run.parents, p, c) && (p == t || (p in dead && dead[p].state.Blocked?))
      ensures c in Children(run.parents, {t}) || (c in dead && dead[c].state.Blocked?)
    {
      if p == t {
        assert t in run.parents[c] * {t};
      } else {
        assert RowOk(run.parents, run.rows, c);
        assert run.rows[p].state.Blocked?;
      }
    }
    LevelsBlockAllDescendants(run.parents, dead, {t}, t);
  }

  /** All that lies below `t` still waits or is blocked, and `t` is not below itself. */
  ghost predicate WaitingBelow(parents: Graph<TaskId>, rows: Rows, t: TaskId) {
    forall d | Reaches(parents, t, d) :: d != t && d in rows && (rows[d].state.Pending? || rows[d].state.Blocked?)
  }

  lemma DeadParents(parents: Graph<TaskId>, rows: Rows, rows': Rows, t: TaskId, c: TaskId)
    requires Closed(parents) && parents.Keys == rows.Keys && t in rows && c in rows
    requires rows[t].state.Running? && WaitingBelow(parents, rows, t)
    requires rows' == BlockDescendants(parents, rows[t := rows[t].Released(DeadLetter)], t)
    ensures Unmet(parents, rows', c) == Unmet(parents, rows, c)
    ensures PoisonedParent(parents, rows', c) <==> PoisonedParent(parents, rows, c) || Reaches(parents, t, c)
  {
    if Reaches(parents, t, c) {
      var p := LastEdge(parents, t, c);
      assert p in parents[c] && Poison(rows'[p].state);
    } else {
      forall p | p in parents[c] ensures rows'[p] == rows[p] {
        assert Edge(parents, p, c);
        if p == t { EdgeReaches(parents, t, c); }
        if Reaches(parents, t, p) { ReachesThenEdge(parents, t, p, c); }
      }
    }
  }

  lemma DeadRowOk(parents: Graph<TaskId>, rows: Rows, rows': Rows, t: TaskId, c: TaskId)
    requires Closed(parents) && parents.Keys == rows.Keys && t in rows && c in rows
    requires RowOk(parents, rows, c) && BudgetOk(rows[t])
    requires rows[t].state.Running? && rows[t].attempt == rows[t].maxAttempts && WaitingBelow(parents, rows, t)
    requires rows' == BlockDescendants(parents, rows[t := rows[t].Released(DeadLetter)], t)
    ensures RowOk(parents, rows', c)
  {
    DeadParents(parents, rows, rows', t, c);
  }

  lemma DeadRowsOk(parents: Graph<TaskId>, rows: Rows, rows': Rows, t: TaskId)
    requires Closed(parents) && RowsOk(parents, rows) && t in rows
    requires rows[t].state.Running? && rows[t].attempt == rows[t].maxAttempts
    requires WaitingBelow(parents, rows, t)
    requires rows' == BlockDescendants(parents, rows[t := rows[t].Released(DeadLetter)], t)
    ensures RowsOk(parents, rows')
  {
    assert RowOk(parents, rows, t);
    forall c | c in rows' ensures RowOk(parents, rows', c) {
      DeadRowOk(parents, rows, rows', t, c);
    }
  }

  /** While a row was active nothing was cancelled, so nothing is afterwards unless this step did it. */
  lemma NothingCancelled(rows: Rows, rows': Rows, t: TaskId)
    requires CancelOk(rows) && t in rows && rows[t].state.IsActive() && rows'.Keys == rows.Keys
    requires forall c | c in rows :: rows'[c].state.Cancelled? ==> rows[c].state.Cancelled?
    ensures CancelOk(rows')
  {
  }

  lemma DeadLetterKeepsLog(parents: Graph<TaskId>, rows: Rows, attempts: Attempts, rows': Rows, t: TaskId)
    requires AttemptsOk(rows, attempts) && t in rows && rows[t].state.Running? && rows[t].attempt >= 1
    requires WaitingBelow(parents, rows, t)
    requires rows' == BlockDescendants(parents, rows[t := rows[t].Released(DeadLetter)], t)
    ensures AttemptsOk(rows', CloseAttempt(attempts, t, rows[t].attempt, DeadLetter))
  {
    CloseKeepsLog(rows, attempts, rows', t, DeadLetter);
  }

  lemma DeadLetterKeepsRows(parents: Graph<TaskId>, rows: Rows, rows': Rows, t: TaskId)
    requires Closed(parents) && RowsOk(parents, rows) && CancelOk(rows)
    requires t in rows && rows[t].state.Running? && rows[t].attempt == rows[t].maxAttempts
    requires WaitingBelow(parents, rows, t)
    requires rows' == BlockDescendants(parents, rows[t := rows[t].Released(DeadLetter)], t)
    ensures RowsOk(parents, rows') && CancelOk(rows') && t in rows'
  {
    DeadRowsOk(parents, rows, rows', t);
    NothingCancelled(rows, rows', t);
  }

  lemma DeadLetterKeeps(run: Run, t: TaskId, w: WorkerId, now: Time, draw: real)
    requires Core(run) && FailureState(run, t, w, draw) == Some(DeadLetter) && Holds(run, t, w)
    requires run.rows[t].attempt == run.rows[t].maxAttempts
    ensures Core(FailTask(run, t, w, now, draw))
  {
    var rows' := FailTask(run, t, w, now, draw).rows;
    TerminalFailureRows(run, t);
    assert run.rows[t].attempt >= 1 by { assert RowOk(run.parents, run.rows, t); }
    DeadLetterKeepsRows(run.parents, run.rows, rows', t);
    DeadLetterKeepsLog(run.parents, run.rows, run.attempts, rows', t);
  }

  lemma RetryKeepsRows(parents: Graph<TaskId>, rows: Rows, rows': Rows, t: TaskId, at: Time)
    requires RowsOk(parents, rows) && CancelOk(rows) && t in rows && rows[t].state.Running?
    requires rows' == rows[t := rows[t].Released(Ready).(scheduledAt := at)]
    ensures RowsOk(parents, rows') && CancelOk(rows')
  {
    assert Swap(rows[t], rows'[t]) by { assert RowOk(parents, rows, t); }
    SwapKeepsRows(parents, rows, rows');
    SwapKeepsCancel(rows, rows');
  }

  lemma RetryKeepsLog(run: Run, t: TaskId, at: Time)
    requires AttemptsOk(run.rows, run.attempts) && t in run.rows && run.rows[t].state.Running?
             && run.rows[t].attempt >= 1
    ensures AttemptsOk(run.rows[t := run.rows[t].Released(Ready).(scheduledAt := at)],
                       CloseAttempt(run.attempts, t, run.rows[t].attempt, Retrying))
  {
    CloseKeepsLog(run.rows, run.attempts, run.rows[t := run.rows[t].Released(Ready).(scheduledAt := at)], t, Retrying);
  }

  lemma RetryKeeps(run: Run, t: TaskId, w: WorkerId, now: Time, draw: real)
    requires Core(run) && FailureState(run, t, w, draw) == Some(Retrying) && Holds(run, t, w)
    ensures Core(FailTask(run, t, w, now, draw))
  {
    var at := FailTask(run, t, w, now, draw).rows[t].scheduledAt;
    assert run.rows[t].attempt >= 1 by { assert RowOk(run.parents, run.rows, t); }
    RetryKeepsRows(run.parents, run.rows, run.rows[t := run.rows[t].Released(Ready).(scheduledAt := at)], t, at);
    RetryKeepsLog(run, t, at);
  }

  lemma FailKeeps(run: Run, t: TaskId, w: WorkerId, now: Time, draw: real)
    requires Core(run)
    ensures Core(FailTask(run, t, w, now, draw))
  {
    FailureOutcome(run, t, w, draw);
    if FailureState(run, t, w, draw) == Some(DeadLetter) {
      DeadLetterKeeps(run, t, w, now, draw);
    } else if FailureState(run, t, w, draw) == Some(Retrying) {
      RetryKeeps(run, t, w, now, draw);
    }
  }

  // ---- cancellation --------------------------------------------------------

  lemma CancelKeepsLog(run: Run)
    requires Core(run)
    ensures AttemptsOk(CancelRows(run.rows), run.attempts)
  {
    var rows' := CancelRows(run.rows);
    forall k ensures k in run.attempts <==> Numbered(rows', k) {
      assert k in run.attempts <==> Numbered(run.rows, k);
    }
    forall k | k in run.attempts ensures AttemptOk(rows'[k.task], k.number, run.attempts[k]) {
      assert AttemptOk(run.rows[k.task], k.number, run.attempts[k]);
    }
  }

  lemma CancelKeepsRows(parents: Graph<TaskId>, rows: Rows)
    requires RowsOk(parents, rows)
    ensures RowsOk(parents, CancelRows(rows))
    ensures forall t | t in rows :: CancelRows(rows)[t].state.IsTerminal()
  {
    var rows' := CancelRows(rows);
    assert AlikeToChildren(rows, rows');
    forall t | t in rows ensures RowOk(parents, rows', t) {
      assert RowOk(parents, rows, t);
      AlikeSameParents(parents, rows, rows', t);
    }
  }

  /** Cancelling ends the run: no row is left active. */
  lemma CancelKeeps(run: Run)
    requires Core(run)
    ensures Core(CancelRun(run))
    ensures forall t | t in run.rows :: CancelRun(run).rows[t].state.IsTerminal()
  {
    CancelKeepsRows(run.parents, run.rows);
    CancelKeepsLog(run);
    var t :| t in run.rows;
    assert t in CancelRows(run.rows);
  }
}
