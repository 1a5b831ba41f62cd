/** Which runs can still end by themselves: the system's own steps, short of cancelling the run. */
module Endings {
  import opened Wrappers
  import opened Lifecycle
  import opened RunTables
  import opened RunInvariant
  import opened RunReports
  import opened RunMachine
  import opened RunTheorems
  import opened RunMeasure
  import opened Protocol

  ghost predicate HasTicket(batch: seq<Ticket>, k: RowKey) {
    exists i | 0 <= i < |batch| :: batch[i].key == k
  }

  /** Nobody is left to report on the row: it is not running, or the worker it runs for has no ticket for it. */
  ghost predicate Unattended(sys: System, r: RunId, t: TaskId) {
    && r in sys.runs && t in sys.runs[r].rows
    && var row := sys.runs[r].rows[t];
       && (row.state.Ready? || row.state.Running?)
       && (row.worker.Some? ==> !HasTicket(BatchOf(sys, row.worker.value), RowKey(r, t)))
  }

  /** No attempt is left, and nobody to report on the last one. */
  ghost predicate Lost(sys: System, r: RunId, t: TaskId) {
    Unattended(sys, r, t) && sys.runs[r].rows[t].Exhausted()
  }

  ghost predicate NoneLost(sys: System, r: RunId) {
    r in sys.runs && forall t | t in sys.runs[r].rows :: !Lost(sys, r, t)
  }

  ghost predicate Finishes(sys: System, r: RunId, events: seq<Event>) {
    && Legals(sys, events) && CancelAll(r) !in events
    && r in Through(sys, events).runs && Through(sys, events).runs[r].state.IsTerminal()
  }

  /** Some legal continuation ends the run without cancelling it. */
  ghost predicate CanFinish(sys: System, r: RunId) {
    exists events: seq<Event> :: Finishes(sys, r, events)
  }

  // ---- a lost task stays lost -------------------------------------------------------

  /** A report touches no other offered or running row, and is refused for a row its worker does not hold. */
  lemma ReportSpares(run: Run, step: RunStep, t: TaskId)
    requires Inv(run) && t in run.rows && (run.rows[t].state.Ready? || run.rows[t].state.Running?)
    requires match step
             case ReportSuccess(u, w) => u != t || !Holds(run, t, w)
             case ReportFailure(u, w, _, _) => u != t || !Holds(run, t, w)
             case _ => false
    ensures t in Apply(run, step).rows && Apply(run, step).rows[t] == run.rows[t]
  {
    StepMoves(run, step, t);
    match step
    case ReportSuccess(u, w) =>
    case ReportFailure(u, w, now, draw) => FailureSpares(run, u, w, now, draw, t);
  }

  lemma FailureSpares(run: Run, u: TaskId, w: WorkerId, now: Time, draw: real, t: TaskId)
    requires Core(run) && t in run.rows && (u != t || !Holds(run, t, w))
    ensures t in FailTask(run, u, w, now, draw).rows
    ensures FailTask(run, u, w, now, draw).rows[t] == run.rows[t]
            || FailTask(run, u, w, now, draw).rows[t] == run.rows[t].(state := Blocked)
  {
    FailureOutcome(run, u, w, draw);
    var outcome := FailureState(run, u, w, draw);
    if outcome == Some(DeadLetter) {
      LevelsOnlyBlock(run.parents, run.rows[u := run.rows[u].Released(DeadLetter)], {u}, t);
    }
  }

  /** A row over budget is claimed by no one, and a claim gives tickets only for what it claims. */
  lemma ClaimKeepsLost(sys: System, e: Event, r: RunId, t: TaskId)
    requires e.ClaimBatch? && Sound(sys, e) && Lost(sys, r, t)
    ensures Lost(Next(sys, e), r, t)
  {
    var next, k := Next(sys, e), RowKey(r, t);
    if !OverBudget(sys.runs, e.chosen) {
      assert Has(sys.runs, k) && RowOf(sys.runs, k).Exhausted();
      assert k !in e.chosen;
      ClaimedRow(sys.runs, e.chosen, e.claimer, e.leaseEnd, k);
      assert RowOf(next.runs, k) == RowOf(sys.runs, k);
      assert !HasTicket(BatchOf(next, e.claimer), k) by {
        assert forall i | 0 <= i < |e.order| :: e.order[i] in e.order;
      }
    }
  }

  lemma FewerTickets(batch: seq<Ticket>, k: RowKey)
    requires batch != [] && HasTicket(batch[1..], k)
    ensures HasTicket(batch, k)
  {
    var i :| 0 <= i < |batch[1..]| && batch[1..][i].key == k;
    assert batch[i + 1].key == k;
  }

  /** What a report does to the run: the step of its machine, or nothing. */
  ghost predicate Reported(sys: System, next: System, w: WorkerId, outcome: Outcome, r: RunId) {
    && BatchOf(sys, w) != [] && r in sys.runs && r in next.runs
    && next.batches == sys.batches[w := sys.batches[w][1..]]
    && var head := BatchOf(sys, w)[0].key;
       next.runs[r] == if head.run == r then Apply(sys.runs[r], ReportStep(head, w, outcome)) else sys.runs[r]
  }

  lemma ReportedRun(sys: System, w: WorkerId, outcome: Outcome, r: RunId)
    requires BatchOf(sys, w) != [] && r in sys.runs
    ensures Reported(sys, Next(sys, Report(w, outcome)), w, outcome, r)
  {
  }

  /** The worker of a lost row reports on other rows only. */
  lemma ReportedKeepsLost(sys: System, next: System, w: WorkerId, outcome: Outcome, r: RunId, t: TaskId)
    requires Reported(sys, next, w, outcome, r) && Inv(sys.runs[r]) && Lost(sys, r, t)
    ensures Lost(next, r, t)
  {
    var batch := BatchOf(sys, w);
    var head := batch[0].key;
    if HasTicket(batch[1..], RowKey(r, t)) { FewerTickets(batch, RowKey(r, t)); }
    if head.run == r {
      assert HasTicket(batch, head);
      ReportSpares(sys.runs[r], ReportStep(head, w, outcome), t);
    }
  }

  lemma ReportKeepsLost(sys: System, w: WorkerId, outcome: Outcome, r: RunId, t: TaskId)
    requires BatchOf(sys, w) != [] && RunsReachable(sys) && Lost(sys, r, t)
    ensures Lost(Next(sys, Report(w, outcome)), r, t)
  {
    assert Inv(sys.runs[r]) by { ReachableInv(sys.runs[r]); }
    ReportedRun(sys, w, outcome, r);
    ReportedKeepsLost(sys, Next(sys, Report(w, outcome)), w, outcome, r, t);
  }

  lemma SweepKeepsLost(sys: System, now: Time, r: RunId, t: TaskId)
    requires Lost(sys, r, t)
    ensures Lost(Next(sys, Sweep(now)), r, t)
  {
  }

  lemma QuietKeepsLost(sys: System, e: Event, r: RunId, t: TaskId)
    requires Sound(sys, e) && Lost(sys, r, t) && e != CancelAll(r)
    requires e.Submit? || e.Heartbeat? || e.Discard? || e.Crash? || e.CancelAll?
    ensures Lost(Next(sys, e), r, t)
  {
    if e.Discard? {
      var batch := BatchOf(sys, e.loser);
      if HasTicket(batch[1..], RowKey(r, t)) { FewerTickets(batch, RowKey(r, t)); }
    }
  }

  lemma EventKeepsLost(sys: System, e: Event, r: RunId, t: TaskId)
    requires Legal(sys, e) && RunsReachable(sys) && Lost(sys, r, t) && e != CancelAll(r)
    ensures Lost(Next(sys, e), r, t) == true
  {
    LegalIsSound(sys, e);
    match e
    case ClaimBatch(_, _, _, _, _, _, _) => ClaimKeepsLost(sys, e, r, t);
    case Report(w, outcome) => ReportKeepsLost(sys, w, outcome, r, t);
    case Sweep(now) => SweepKeepsLost(sys, now, r, t);
    case _ => QuietKeepsLost(sys, e, r, t);
  }

  lemma {:induction false} LostThroughout(sys: System, events: seq<Event>, r: RunId, t: TaskId)
    requires Occurs(sys) && Legals(sys, events) && Lost(sys, r, t) == true && CancelAll(r) !in events
    ensures Occurs(Through(sys, events)) && Lost(Through(sys, events), r, t)
    decreases |events|
  {
    if events != [] {
      EveryRunIsReachable(sys);
      EventKeepsLost(sys, events[0], r, t);
      OccursNext(sys, events[0]);
      LostThroughout(Next(sys, events[0]), events[1..], r, t);
    }
  }

  /** A run with a lost task never ends, whatever anyone does short of cancelling it. */
  lemma LostForever(sys: System, events: seq<Event>, r: RunId, t: TaskId)
    requires Occurs(sys) && Legals(sys, events) && Lost(sys, r, t) && CancelAll(r) !in events
    ensures r in Through(sys, events).runs && !Through(sys, events).runs[r].state.IsTerminal()
  {
    LostThroughout(sys, events, r, t);
    EveryRunIsReachable(Through(sys, events));
    CachedStateTellsTheEnd(Through(sys, events).runs[r]);
  }

  // ---- a run with no lost task can end ------------------------------------------------

  lemma FirstEvent(sys: System, e: Event, r: RunId)
    requires Legal(sys, e) && e != CancelAll(r) && CanFinish(Next(sys, e), r)
    ensures CanFinish(sys, r) == true
  {
    var rest: seq<Event> :| Finishes(Next(sys, e), r, rest);
    assert ([e] + rest)[1..] == rest;
    assert Finishes(sys, r, [e] + rest);
  }

  /** How many tickets the workers have in hand. */
  ghost function Tickets(batches: map<WorkerId, seq<Ticket>>): int {
    Total(Sizes(batches))
  }

  function Sizes(batches: map<WorkerId, seq<Ticket>>): map<WorkerId, int> {
    map w | w in batches :: |batches[w]|
  }

  lemma TicketSpent(batches: map<WorkerId, seq<Ticket>>, w: WorkerId)
    requires w in batches && batches[w] != []
    ensures 0 <= Tickets(batches[w := batches[w][1..]]) < Tickets(batches)
  {
    var m, m' := Sizes(batches), Sizes(batches[w := batches[w][1..]]);
    assert m'[w] < m[w];
    TotalMonotone(m, m');
    TotalNonNegative(m');
  }

  lemma LaterTickets(batch: seq<Ticket>, k: RowKey)
    requires batch != [] && HasTicket(batch, k) && batch[0].key != k
    ensures HasTicket(batch[1..], k)
  {
    var i :| 0 <= i < |batch| && batch[i].key == k;
    assert batch[1..][i - 1].key == k;
  }

  lemma SuccessSpares(run: Run, u: TaskId, w: WorkerId, t: TaskId)
    requires t in run.rows && run.rows[t].state.Running? && !(u == t && Holds(run, t, w))
    ensures t in SucceedTask(run, u, w).rows && SucceedTask(run, u, w).rows[t] == run.rows[t]
  {
  }

  /** Reporting a success leaves no row of the run without attempts that was not without before. */
  lemma SuccessRow(run: Run, u: TaskId, w: WorkerId, t: TaskId)
    requires Core(run) && t in run.rows
    ensures var rows' := SucceedTask(run, u, w).rows;
            && t in rows'
            && (rows'[t].Exhausted() && (rows'[t].state.Ready? || rows'[t].state.Running?) ==>
                  rows'[t] == run.rows[t] && !(u == t && Holds(run, t, w)))
  {
    SuccessMoves(run, u, w, t);
    assert RowOk(run.parents, run.rows, t);
    if run.rows[t].state.Running? && !(u == t && Holds(run, t, w)) {
      SuccessSpares(run, u, w, t);
    }
  }

  lemma ReportRows(run: Run, u: TaskId, w: WorkerId)
    ensures Apply(run, ReportSuccess(u, w)).rows == SucceedTask(run, u, w).rows
  {
  }

  lemma SuccessKeepsAttended(sys: System, next: System, w: WorkerId, r: RunId, t: TaskId)
    requires Reported(sys, next, w, Worked, r) && Inv(sys.runs[r]) && t in sys.runs[r].rows && !Lost(sys, r, t)
    ensures !Lost(next, r, t)
  {
    var batch, row := BatchOf(sys, w), sys.runs[r].rows[t];
    var head := batch[0].key;
    if head.run == r {
      SuccessRow(sys.runs[r], head.task, w, t);
      ReportRows(sys.runs[r], head.task, w);
    }
    if Lost(next, r, t) {
      assert next.runs[r].rows[t] == row;
      assert row.worker.Some? && HasTicket(BatchOf(sys, row.worker.value), RowKey(r, t));
      assert RowOk(sys.runs[r].parents, sys.runs[r].rows, t);
      if row.worker.value == w { LaterTickets(batch, RowKey(r, t)); }
    }
  }

  lemma SuccessKeepsNoneLost(sys: System, w: WorkerId, r: RunId)
    requires RunsReachable(sys) && NoneLost(sys, r) && BatchOf(sys, w) != []
    ensures NoneLost(Next(sys, Report(w, Worked)), r)
  {
    var next := Next(sys, Report(w, Worked));
    assert Inv(sys.runs[r]) by { ReachableInv(sys.runs[r]); }
    ReportedRun(sys, w, Worked, r);
    var head := BatchOf(sys, w)[0].key;
    if head.run == r { StepKeepsKeys(sys.runs[r], ReportSuccess(head.task, w)); }
    forall t | t in next.runs[r].rows ensures !Lost(next, r, t) {
      SuccessKeepsAttended(sys, next, w, r, t);
    }
  }

  lemma ReportedMeasure(sys: System, next: System, w: WorkerId, r: RunId)
    requires Reported(sys, next, w, Worked, r) && Inv(sys.runs[r])
    ensures Measure(next.runs[r].rows) <= Measure(sys.runs[r].rows)
    ensures 0 <= Tickets(next.batches) < Tickets(sys.batches)
  {
    var head := BatchOf(sys, w)[0].key;
    TicketSpent(sys.batches, w);
    if head.run == r { StepLowersMeasure(sys.runs[r], ReportSuccess(head.task, w)); }
  }

  /** A worker with tickets reports a success: one ticket less in hand, and no run further from its end. */
  lemma ReportTicket(sys: System, w: WorkerId, r: RunId)
    requires Occurs(sys) && NoneLost(sys, r) && BatchOf(sys, w) != []
    ensures var next := Next(sys, Report(w, Worked));
            && Legal(sys, Report(w, Worked)) && Occurs(next) && NoneLost(next, r)
            && Measure(next.runs[r].rows) <= Measure(sys.runs[r].rows)
            && 0 <= Tickets(next.batches) < Tickets(sys.batches)
  {
    EveryRunIsReachable(sys);
    OccursNext(sys, Report(w, Worked));
    SuccessKeepsNoneLost(sys, w, r);
    assert Inv(sys.runs[r]) by { ReachableInv(sys.runs[r]); }
    ReportedRun(sys, w, Worked, r);
    ReportedMeasure(sys, Next(sys, Report(w, Worked)), w, r);
  }

  /** When nothing that runs is on its last attempt, reaping what runs loses nothing. */
  lemma SweepRun(sys: System, r: RunId, t: TaskId, now: Time)
    requires Occurs(sys) && NoneLost(sys, r) && t in sys.runs[r].rows && Expired(sys.runs[r].rows[t], now)
    requires forall u | u in sys.runs[r].rows && sys.runs[r].rows[u].state.Running? :: !sys.runs[r].rows[u].Exhausted()
    ensures var next := Next(sys, Sweep(now));
            && Occurs(next) && NoneLost(next, r) && Measure(next.runs[r].rows) < Measure(sys.runs[r].rows)
  {
    EveryRunIsReachable(sys);
    OccursNext(sys, Sweep(now));
    ReachableInv(sys.runs[r]);
    ReapProgresses(sys.runs[r], t, now);
    SweptNoneLost(sys, r, now);
    ReapIsSweep(sys, r, now);
  }

  lemma ReapProgresses(run: Run, t: TaskId, now: Time)
    requires Inv(run) && t in run.rows && Expired(run.rows[t], now)
    ensures Measure(Apply(run, Reap(now)).rows) < Measure(run.rows)
  {
    StepLowersMeasure(run, Reap(now));
    ReapMovesRow(run, t, now);
  }

  lemma ReapMovesRow(run: Run, t: TaskId, now: Time)
    requires t in run.rows && Expired(run.rows[t], now)
    ensures t in Apply(run, Reap(now)).rows && Progressed(run.rows[t], Apply(run, Reap(now)).rows[t])
  {
  }

  lemma ReapIsSweep(sys: System, r: RunId, now: Time)
    requires r in sys.runs
    ensures var next := Next(sys, Sweep(now)); r in next.runs && next.runs[r] == Apply(sys.runs[r], Reap(now))
  {
  }

  lemma SweptNoneLost(sys: System, r: RunId, now: Time)
    requires NoneLost(sys, r) && RowsOk(sys.runs[r].parents, sys.runs[r].rows)
    requires forall u | u in sys.runs[r].rows && sys.runs[r].rows[u].state.Running? :: !sys.runs[r].rows[u].Exhausted()
    ensures NoneLost(Next(sys, Sweep(now)), r)
  {
    var next := Next(sys, Sweep(now));
    forall u | u in next.runs[r].rows ensures !Lost(next, r, u) {
      assert !Lost(sys, r, u) && RowOk(sys.runs[r].parents, sys.runs[r].rows, u);
    }
  }

  lemma FreshId(used: set<WorkerId>) returns (w: WorkerId)
    ensures w !in used
  {
    w := Bound(used);
  }

  lemma {:induction false} Bound(used: set<WorkerId>) returns (w: WorkerId)
    ensures forall v | v in used :: v < w
  {
    w := 0;
    if used != {} {
      var v :| v in used;
      var b := Bound(used - {v});
      w := if b <= v then v + 1 else b;
      forall u | u in used ensures u < w {
        assert u == v || u in used - {v};
      }
    }
  }

  /** A claim, by a new worker, of one row while the others are locked. */
  function ClaimOf(sys: System, k: RowKey, w: WorkerId): Event
    requires Has(sys.runs, k)
  {
    var now := RowOf(sys.runs, k).scheduledAt;
    ClaimBatch(w, 1, now, now, Candidates(sys.runs, now, {}) - {k}, {k}, [k])
  }

  lemma ClaimOfIsLegal(sys: System, k: RowKey, w: WorkerId)
    requires Has(sys.runs, k) && RowOf(sys.runs, k).state.Ready? && !RowOf(sys.runs, k).Exhausted()
    requires BatchOf(sys, w) == []
    ensures Legal(sys, ClaimOf(sys, k, w)) && !OverBudget(sys.runs, {k})
  {
    var now := RowOf(sys.runs, k).scheduledAt;
    assert Candidates(sys.runs, now, Candidates(sys.runs, now, {}) - {k}) == {k};
  }

  lemma ClaimedAlone(sys: System, k: RowKey, w: WorkerId)
    requires Has(sys.runs, k) && !OverBudget(sys.runs, {k})
    ensures var next, now := Next(sys, ClaimOf(sys, k, w)), RowOf(sys.runs, k).scheduledAt;
            && k.run in next.runs && next.runs[k.run] == Apply(sys.runs[k.run], Claim({k.task}, w, now))
            && HasTicket(BatchOf(next, w), k)
  {
    assert k.task in ChosenIn({k}, k.run);
    assert ChosenIn({k}, k.run) == {k.task};
    assert BatchOf(Next(sys, ClaimOf(sys, k, w)), w)[0].key == k;
  }

  /** The row claimed has a ticket, and the others are as they were. */
  lemma ClaimedNoneLost(sys: System, k: RowKey, w: WorkerId)
    requires NoneLost(sys, k.run) && Has(sys.runs, k) && !OverBudget(sys.runs, {k})
    requires RowsOk(sys.runs[k.run].parents, sys.runs[k.run].rows)
    requires forall u | u in sys.runs[k.run].rows :: !sys.runs[k.run].rows[u].state.Running?
    ensures NoneLost(Next(sys, ClaimOf(sys, k, w)), k.run)
  {
    var next := Next(sys, ClaimOf(sys, k, w));
    ClaimedAlone(sys, k, w);
    forall u | u in next.runs[k.run].rows ensures !Lost(next, k.run, u) {
      assert !Lost(sys, k.run, u) && RowOk(sys.runs[k.run].parents, sys.runs[k.run].rows, u);
    }
  }

  lemma ClaimRun(sys: System, r: RunId, t: TaskId, w: WorkerId)
    requires Occurs(sys) && NoneLost(sys, r) && t in sys.runs[r].rows && w !in sys.batches
    requires sys.runs[r].rows[t].state.Ready?
    requires forall u | u in sys.runs[r].rows :: !sys.runs[r].rows[u].state.Running?
    ensures var next := Next(sys, ClaimOf(sys, RowKey(r, t), w));
            && Legal(sys, ClaimOf(sys, RowKey(r, t), w)) && Occurs(next) && NoneLost(next, r)
            && Measure(next.runs[r].rows) < Measure(sys.runs[r].rows)
  {
    var k := RowKey(r, t);
    EveryRunIsReachable(sys);
    ReachableInv(sys.runs[r]);
    assert !Lost(sys, r, t) && RowOk(sys.runs[r].parents, sys.runs[r].rows, t);
    ClaimOfIsLegal(sys, k, w);
    OccursNext(sys, ClaimOf(sys, k, w));
    ClaimedNoneLost(sys, k, w);
    ClaimedAlone(sys, k, w);
    ClaimProgresses(sys.runs[r], t, w, RowOf(sys.runs, k).scheduledAt);
  }

  lemma ClaimProgresses(run: Run, t: TaskId, w: WorkerId, until: Time)
    requires Inv(run) && t in run.rows && run.rows[t].state.Ready? && !run.rows[t].Exhausted()
    ensures Measure(Apply(run, Claim({t}, w, until)).rows) < Measure(run.rows)
  {
    StepLowersMeasure(run, Claim({t}, w, until));
    assert Progressed(run.rows[t], Apply(run, Claim({t}, w, until)).rows[t]);
  }

  /** The next event towards the end of a run that has not ended: a report if a worker has a ticket for something that
      runs, a sweep if only others run, and a claim if nothing does. */
  lemma NextEvent(sys: System, r: RunId) returns (e: Event)
    requires Occurs(sys) && NoneLost(sys, r) && !sys.runs[r].state.IsTerminal()
    ensures Legal(sys, e) && e != CancelAll(r) && Occurs(Next(sys, e)) == true && NoneLost(Next(sys, e), r) == true
    ensures Measure(sys.runs[r].rows) >= 0 && Tickets(sys.batches) >= 0
    ensures var before, after := Measure(sys.runs[r].rows), Measure(Next(sys, e).runs[r].rows);
            after < before || (after == before && Tickets(Next(sys, e).batches) < Tickets(sys.batches))
  {
    var run := sys.runs[r];
    EveryRunIsReachable(sys);
    DeadlockFree(run);
    CachedStateTellsTheEnd(run);
    ReachableInv(run);
    MeasureWithinBudget(run);
    TotalNonNegative(Sizes(sys.batches));
    if u :| u in run.rows && run.rows[u].state.Running? && !Unattended(sys, r, u) {
      var w := run.rows[u].worker.value;
      e := Report(w, Worked);
      ReportTicket(sys, w, r);
    } else if u :| u in run.rows && run.rows[u].state.Running? {
      assert RowOk(run.parents, run.rows, u);
      var now := run.rows[u].lease.value + 1.0;
      e := Sweep(now);
      forall v | v in run.rows && run.rows[v].state.Running? ensures !run.rows[v].Exhausted() {
        assert !Lost(sys, r, v);
      }
      SweepRun(sys, r, u, now);
    } else {
      var t :| t in run.rows && run.rows[t].state.Ready?;
      var w := FreshId(sys.batches.Keys);
      e := ClaimOf(sys, RowKey(r, t), w);
      ClaimRun(sys, r, t, w);
    }
  }

  lemma {:induction false} WayToEnd(sys: System, r: RunId)
    requires Occurs(sys) == true && NoneLost(sys, r) == true
    ensures r in sys.runs && CanFinish(sys, r) == true
    decreases Measure(sys.runs[r].rows), Tickets(sys.batches)
  {
    assert NoneLost(sys, r);
    if sys.runs[r].state.IsTerminal() {
      assert Finishes(sys, r, []);
    } else {
      var e := NextEvent(sys, r);
      WayToEnd(Next(sys, e), r);
      FirstEvent(sys, e, r);
    }
  }

  /** Short of its cancellation, a run can still end exactly when each of its tasks that has spent its attempts, and is
      queued or running, is running for a worker that still has its ticket. */
  lemma CanFinishIff(sys: System, r: RunId)
    requires Occurs(sys) && r in sys.runs
    ensures CanFinish(sys, r) <==> NoneLost(sys, r)
  {
    if NoneLost(sys, r) {
      WayToEnd(sys, r);
    }
    if CanFinish(sys, r) {
      var events: seq<Event> :| Finishes(sys, r, events);
      forall t | t in sys.runs[r].rows ensures !Lost(sys, r, t) {
        if Lost(sys, r, t) { LostForever(sys, events, r, t); }
      }
    }
  }
}
