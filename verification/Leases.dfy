/** What a lease and a backoff are worth: how long a worker keeps its row, and how long a retried row is left alone,
    whatever everyone else does. */
module Leases {
  import opened Wrappers
  import opened Lifecycle
  import opened Retry
  import opened RunTables
  import opened RunInvariant
  import opened RunMachine
  import opened Protocol
  import opened Endings
  import opened Effects

  // ---- what ends a lease -------------------------------------------------------------

  /** The holder reports on the row, a sweep reads a clock past the end of the lease, or the run is cancelled. */
  predicate Frees(sys: System, e: Event, k: RowKey, w: WorkerId)
    requires HeldBy(sys.runs, k, w)
  {
    match e
    case Report(v, _) => v == w && BatchOf(sys, v) != [] && BatchOf(sys, v)[0].key == k
    case Sweep(now) => RowOf(sys.runs, k).lease.Some? && RowOf(sys.runs, k).lease.value < now
    case CancelAll(r) => r == k.run
    case _ => false
  }

  /** The row after an event that does not free it: the holder's own renewal moves the end of the lease. */
  function KeptRow(row: TaskRun, e: Event, k: RowKey, w: WorkerId): TaskRun {
    if e.Heartbeat? && e.beater == w && e.key == k then row.(lease := Some(e.until)) else row
  }

  lemma ReportFrees(sys: System, w: WorkerId, outcome: Outcome, k: RowKey)
    requires Occurs(sys) && HeldBy(sys.runs, k, w) && BatchOf(sys, w) != [] && BatchOf(sys, w)[0].key == k
    ensures Has(Next(sys, Report(w, outcome)).runs, k) && !HeldBy(Next(sys, Report(w, outcome)).runs, k, w)
  {
    ReportOutcome(sys, w, outcome);
    HeldReportFrees(sys.runs[k.run], k.task, w, outcome);
  }

  lemma HeldReportFrees(run: Run, t: TaskId, w: WorkerId, outcome: Outcome)
    requires Inv(run) && Holds(run, t, w)
    ensures match outcome
            case Worked => Freed(Apply(run, ReportSuccess(t, w)), t)
            case Broke(at, draw) => Freed(Apply(run, ReportFailure(t, w, at, draw)), t)
  {
    assert Core(run) == true && run.rows[t].attempt <= run.rows[t].maxAttempts by {
      assert RowOk(run.parents, run.rows, t);
    }
    match outcome
    case Worked => SuccessStep(run, t, w);
    case Broke(at, draw) =>
      if run.rows[t].attempt < run.rows[t].maxAttempts {
        RetryStep(run, t, w, at, draw);
      } else {
        DeadLetterStep(run, t, w, at, draw);
      }
  }

  predicate Freed(run: Run, t: TaskId) {
    t in run.rows && run.rows[t].worker == None
  }

  lemma OtherReportSpares(sys: System, v: WorkerId, outcome: Outcome, k: RowKey)
    requires Occurs(sys) && Has(sys.runs, k) && RowOf(sys.runs, k).state in {Ready, Running} && BatchOf(sys, v) != []
    requires BatchOf(sys, v)[0].key != k || !HeldBy(sys.runs, k, v)
    ensures Has(Next(sys, Report(v, outcome)).runs, k)
            && RowOf(Next(sys, Report(v, outcome)).runs, k) == RowOf(sys.runs, k)
  {
    var head := BatchOf(sys, v)[0].key;
    FirstTicket(sys, v);
    ReportedRun(sys, v, outcome, k.run);
    if head.run == k.run {
      ReportSpares(sys.runs[k.run], ReportStep(head, v, outcome), k.task);
    }
  }

  /** A worker keeps its row, on the same attempt, through every event but those. */
  lemma HeldUntilFreed(sys: System, e: Event, k: RowKey, w: WorkerId)
    requires Occurs(sys) && Legal(sys, e) && HeldBy(sys.runs, k, w)
    ensures Has(Next(sys, e).runs, k)
    ensures HeldBy(Next(sys, e).runs, k, w) <==> !Frees(sys, e, k, w)
    ensures HeldBy(Next(sys, e).runs, k, w) ==> RowOf(Next(sys, e).runs, k) == KeptRow(RowOf(sys.runs, k), e, k, w)
  {
    match e
    case Submit(r, tasks, parents, at) =>
    case ClaimBatch(_, _, _, _, _, _, _) =>
      SelectionIsReady(sys.runs, e.now, e.limit, e.locked, e.chosen);
      ClaimOutcome(sys, e, k);
    case Heartbeat(v, h, until) => RenewalOutcome(sys, v, h, until);
    case Report(v, outcome) =>
      if Frees(sys, e, k, w) {
        ReportFrees(sys, w, outcome, k);
      } else {
        OtherReportSpares(sys, v, outcome, k);
      }
    case Sweep(now) => SweepOutcome(sys, now, k);
    case CancelAll(r) => if r in sys.runs { CancelOutcome(sys, r); }
    case _ =>
  }

  /** Nobody cuts the lease short of `end`: the run is not cancelled, no sweep reads a later clock, and the holder
      neither reports on the row nor renews for less. */
  ghost predicate Undisturbed(sys: System, events: seq<Event>, k: RowKey, w: WorkerId, end: Time)
    decreases |events|
  {
    events == []
    || (&& (match events[0]
            case Report(v, _) => v != w || BatchOf(sys, v) == [] || BatchOf(sys, v)[0].key != k
            case Sweep(now) => now <= end
            case CancelAll(r) => r != k.run
            case Heartbeat(v, h, until) => v == w && h == k ==> end <= until
            case _ => true)
        && Undisturbed(Next(sys, events[0]), events[1..], k, w, end))
  }

  predicate HeldUpTo(runs: Runs, k: RowKey, w: WorkerId, attempt: nat, end: Time) {
    && HeldBy(runs, k, w) && RowOf(runs, k).attempt == attempt
    && RowOf(runs, k).lease.Some? && end <= RowOf(runs, k).lease.value
  }

  /** While nobody cuts the lease short, the row stays with its worker, on the attempt it was claimed for: through
      sweeps, other workers' claims, reports and crashes, in any order. */
  lemma {:induction false} LeaseProtects(sys: System, events: seq<Event>, k: RowKey, w: WorkerId, attempt: nat,
        end: Time)
    requires Occurs(sys) && Legals(sys, events) && HeldUpTo(sys.runs, k, w, attempt, end)
    requires Undisturbed(sys, events, k, w, end)
    ensures HeldUpTo(Through(sys, events).runs, k, w, attempt, end)
    decreases |events|
  {
    if events != [] {
      HeldUntilFreed(sys, events[0], k, w);
      OccursNext(sys, events[0]);
      LeaseProtects(Next(sys, events[0]), events[1..], k, w, attempt, end);
    }
  }

  /** So a renewal the holder was granted keeps its row until the time it asked for. */
  lemma RenewalProtects(sys: System, w: WorkerId, k: RowKey, until: Time, events: seq<Event>)
    requires Occurs(sys) && HeldBy(sys.runs, k, w)
    requires var renewed := Next(sys, Heartbeat(w, k, until));
             Legals(renewed, events) && Undisturbed(renewed, events, k, w, until)
    ensures HeldUpTo(Through(Next(sys, Heartbeat(w, k, until)), events).runs, k, w, RowOf(sys.runs, k).attempt, until)
  {
    RenewalOutcome(sys, w, k, until);
    OccursNext(sys, Heartbeat(w, k, until));
    LeaseProtects(Next(sys, Heartbeat(w, k, until)), events, k, w, RowOf(sys.runs, k).attempt, until);
  }

  // ---- what ends a wait ----------------------------------------------------------------

  /** A READY row stays as it is until a claim takes it or its run is cancelled. */
  lemma ReadyUntilTaken(sys: System, e: Event, k: RowKey)
    requires Occurs(sys) && Legal(sys, e) && Has(sys.runs, k) && RowOf(sys.runs, k).state == Ready
    ensures Has(Next(sys, e).runs, k)
    ensures RowOf(Next(sys, e).runs, k) == RowOf(sys.runs, k)
       <==> !(|| (e.ClaimBatch? && k in e.chosen && Claimed(sys.runs, e.chosen))
              || e == CancelAll(k.run))
  {
    match e
    case Submit(r, tasks, parents, at) =>
    case ClaimBatch(_, _, _, _, _, _, _) => ClaimOutcome(sys, e, k);
    case Heartbeat(v, h, until) => RenewalOutcome(sys, v, h, until);
    case Report(v, outcome) => OtherReportSpares(sys, v, outcome, k);
    case Sweep(now) => SweepOutcome(sys, now, k);
    case CancelAll(r) => if r in sys.runs { CancelOutcome(sys, r); }
    case _ =>
  }

  /** No claim reads a clock before `due`, and the run is not cancelled. */
  predicate ClaimsBefore(events: seq<Event>, due: Time, r: RunId) {
    forall e | e in events :: e != CancelAll(r) && (e.ClaimBatch? ==> e.now < due)
  }

  /** Until it is due nobody touches it. */
  lemma {:induction false} LeftUntilDue(sys: System, events: seq<Event>, k: RowKey)
    requires Occurs(sys) && Legals(sys, events) && Has(sys.runs, k) && RowOf(sys.runs, k).state == Ready
    requires ClaimsBefore(events, RowOf(sys.runs, k).scheduledAt, k.run)
    ensures Has(Through(sys, events).runs, k) && RowOf(Through(sys, events).runs, k) == RowOf(sys.runs, k)
    decreases |events|
  {
    if events != [] {
      var e := events[0];
      assert e in events;
      if e.ClaimBatch? {
        SelectionIsReady(sys.runs, e.now, e.limit, e.locked, e.chosen);
      }
      ReadyUntilTaken(sys, e, k);
      OccursNext(sys, e);
      LeftUntilDue(Next(sys, e), events[1..], k);
    }
  }

  lemma RetriedRow(run: Run, t: TaskId, w: WorkerId, at: Time, draw: real)
    requires Inv(run) && Holds(run, t, w) && run.rows[t].attempt < run.rows[t].maxAttempts
    ensures var rows' := Apply(run, ReportFailure(t, w, at, draw)).rows;
            var delay := NextDelayOf(run.rows[t].task.policy, run.rows[t].attempt, draw);
            && delay.After? && t in rows'
            && rows'[t] == run.rows[t].(state := Ready, worker := None, lease := None,
                                        scheduledAt := at + delay.seconds)
  {
    assert Core(run) == true;
    RetryStep(run, t, w, at, draw);
  }

  /** The row a worker holds, after it reported a failure with attempts left. */
  lemma Retried(sys: System, w: WorkerId, at: Time, draw: real)
    requires Occurs(sys) && BatchOf(sys, w) != [] && HeldBy(sys.runs, BatchOf(sys, w)[0].key, w)
    requires RowOf(sys.runs, BatchOf(sys, w)[0].key).attempt < RowOf(sys.runs, BatchOf(sys, w)[0].key).maxAttempts
    ensures var k, runs' := BatchOf(sys, w)[0].key, Next(sys, Report(w, Broke(at, draw))).runs;
            var delay := NextDelayOf(RowOf(sys.runs, k).task.policy, RowOf(sys.runs, k).attempt, draw);
            && delay.After? && Has(runs', k)
            && RowOf(runs', k) == RowOf(sys.runs, k).(state := Ready, worker := None, lease := None,
                                                      scheduledAt := at + delay.seconds)
  {
    var k := BatchOf(sys, w)[0].key;
    ReportOutcome(sys, w, Broke(at, draw));
    RetriedRow(sys.runs[k.run], k.task, w, at, draw);
  }

  /** What was retried waits out its delay: whatever happens meanwhile, the row is READY and due at the time of the
      failure plus the delay its policy gives, a candidate of no claim that reads an earlier clock and of every later
      one that finds it unlocked. */
  lemma BackoffIsServed(sys: System, w: WorkerId, at: Time, draw: real, events: seq<Event>, now: Time,
        locked: set<RowKey>)
    requires Occurs(sys) && BatchOf(sys, w) != [] && HeldBy(sys.runs, BatchOf(sys, w)[0].key, w)
    requires var row := RowOf(sys.runs, BatchOf(sys, w)[0].key);
             var delay := NextDelayOf(row.task.policy, row.attempt, draw);
             && row.attempt < row.maxAttempts && Legals(Next(sys, Report(w, Broke(at, draw))), events)
             && (delay.After? ==> ClaimsBefore(events, at + delay.seconds, BatchOf(sys, w)[0].key.run))
    ensures var k, runs := BatchOf(sys, w)[0].key, Through(Next(sys, Report(w, Broke(at, draw))), events).runs;
            var delay := NextDelayOf(RowOf(sys.runs, k).task.policy, RowOf(sys.runs, k).attempt, draw);
            && delay.After? && Has(runs, k)
            && RowOf(runs, k) == RowOf(sys.runs, k).(state := Ready, worker := None, lease := None,
                                                     scheduledAt := at + delay.seconds)
            && (k in Candidates(runs, now, locked) <==> at + delay.seconds <= now && k !in locked)
  {
    var k := BatchOf(sys, w)[0].key;
    Retried(sys, w, at, draw);
    OccursNext(sys, Report(w, Broke(at, draw)));
    LeftUntilDue(Next(sys, Report(w, Broke(at, draw))), events, k);
  }
}
