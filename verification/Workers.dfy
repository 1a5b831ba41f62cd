/** The worker process against shared tables. Other workers, reapers and clients act between its transactions; the
    ghost `sys` is the whole system, of which the tables are the visible part. */
module Workers {
  import opened Wrappers
  import Dags
  import opened RunTables
  import opened RunReports
  import opened RunMachine
  import opened RunTheorems
  import opened Protocol
  import opened Effects
  import opened Database

  /** The system as one worker sees it between its transactions: its own batch is its alone. */
  ghost predicate Sees(sys: System, db: Tables, w: WorkerId, batch: seq<Ticket>)
    reads db
  {
    Occurs(sys) && sys.runs == db.runs && BatchOf(sys, w) == batch
  }

  /** Time passes. Anyone else may commit anything, and leases may be renewed, but nobody touches this worker's
      batch. */
  method Interlude(db: Tables, w: WorkerId, ghost sys: System, ghost batch: seq<Ticket>) returns (ghost sys': System)
    requires Sees(sys, db, w, batch)
    modifies db
    ensures Sees(sys', db, w, batch) == true
  {
    sys' := sys;
  }

  /** How one execution went: the result, and whether the heartbeat found the lease lost meanwhile. */
  datatype Execution = Execution(outcome: Outcome, lost: bool)

  /** How many accepted reports were of a success, given which were accepted. */
  ghost function Successes(executions: nat -> Execution, accepted: seq<bool>): nat {
    if accepted == [] then 0
    else
      var last := |accepted| - 1;
      Successes(executions, accepted[..last]) + if accepted[last] && executions(last).outcome.Worked? then 1 else 0
  }

  ghost function Failures(executions: nat -> Execution, accepted: seq<bool>): nat {
    if accepted == [] then 0
    else
      var last := |accepted| - 1;
      Failures(executions, accepted[..last]) + if accepted[last] && executions(last).outcome.Broke? then 1 else 0
  }

  /** The successes and failures counted are those of the accepted reports. */
  ghost predicate Tallied(succeeded: int, failed: int, executions: nat -> Execution, accepted: seq<bool>) {
    succeeded == Successes(executions, accepted) && failed == Failures(executions, accepted)
  }

  /** The system when a result is dealt with, and right after. */
  datatype Moment = Moment(before: System, after: System)

  /** A result is accepted if it is not known to be lost and the worker holds the row at that moment. A lost one leaves
      the tables as they are; any other is reported. */
  ghost predicate Answer(w: WorkerId, at: Moment, ticket: Ticket, execution: Execution, accepted: bool) {
    && Occurs(at.before)
    && (accepted <==> !execution.lost && HeldBy(at.before.runs, ticket.key, w))
    && at.after.runs == if execution.lost then at.before.runs else
                          OnRun(at.before.runs, ticket.key.run, ReportStep(ticket.key, w, execution.outcome))
  }

  /** `at` are the moments the first tickets of the batch were dealt with. */
  ghost predicate Answered(w: WorkerId, at: seq<Moment>, batch: seq<Ticket>, executions: nat -> Execution,
        accepted: seq<bool>)
  {
    && |at| == |accepted| <= |batch|
    && forall i | 0 <= i < |at| :: Answer(w, at[i], batch[i], executions(i), accepted[i])
  }

  lemma AnsweredOneMore(w: WorkerId, at: seq<Moment>, batch: seq<Ticket>, executions: nat -> Execution,
        accepted: seq<bool>, next: Moment, ok: bool)
    requires Answered(w, at, batch, executions, accepted) && |at| < |batch|
    requires Answer(w, next, batch[|at|], executions(|at|), ok) == true
    ensures Answered(w, at + [next], batch, executions, accepted + [ok]) == true
  {
    assert Answered(w, at + [next], batch, executions, accepted + [ok]);
  }

  lemma OneMoreCounted(executions: nat -> Execution, accepted: seq<bool>, ok: bool)
    ensures Successes(executions, accepted + [ok])
            == Successes(executions, accepted) + (if ok && executions(|accepted|).outcome.Worked? then 1 else 0)
    ensures Failures(executions, accepted + [ok])
            == Failures(executions, accepted) + (if ok && executions(|accepted|).outcome.Broke? then 1 else 0)
  {
    assert (accepted + [ok])[..|accepted|] == accepted;
  }

  /** The batch has a ticket for the next attempt of each row of a selection the claim query may make. */
  ghost predicate Selected(runs: Runs, now: Time, limit: nat, locked: set<RowKey>, batch: seq<Ticket>) {
    exists chosen, order ::
      IsSelection(runs, now, limit, locked, chosen) && ListsExactly(order, chosen) && batch == TicketsOf(runs, order)
  }

  /** What a worker does with its first ticket: it drops a result whose lease it knows to be lost, and reports any
      other. */
  function EventOf(w: WorkerId, execution: Execution): Event {
    if execution.lost then Discard(w) else Event.Report(w, execution.outcome)
  }

  lemma AcceptedIsHeld(sys: System, k: RowKey, w: WorkerId, draw: real)
    requires Occurs(sys) && k.run in sys.runs
    ensures FailureState(sys.runs[k.run], k.task, w, draw).Some? <==> Holds(sys.runs[k.run], k.task, w)
  {
    EveryRunIsReachable(sys);
    ReachableInv(sys.runs[k.run]);
    FailureOutcome(sys.runs[k.run], k.task, w, draw);
  }

  class Worker {
    const id: WorkerId
    const batchSize: nat
    var claimed: nat
    var succeeded: nat
    var failed: nat
    var lostLeases: nat

    constructor (id: WorkerId, batchSize: nat)
      ensures this.id == id && this.batchSize == batchSize && claimed == succeeded == failed == lostLeases == 0
    {
      this.id, this.batchSize := id, batchSize;
      claimed, succeeded, failed, lostLeases := 0, 0, 0, 0;
    }

    /** Every claimed task was counted once: as a success, a failure or a lost lease. */
    predicate Balanced()
      reads this
    {
      claimed == succeeded + failed + lostLeases
    }

    /** Runs one task and reports on it. Report and refresh are one transaction; a result whose lease is known to be
        lost is dropped, and one the tables refuse is counted as lost. `at` is the system at the moment of the
        report. */
    method Execute(db: Tables, ticket: Ticket, execution: Execution, ghost sys: System, ghost rest: seq<Ticket>)
      returns (accepted: bool, ghost at: System, ghost sys': System)
      requires Sees(sys, db, id, [ticket] + rest)
      modifies this, db
      ensures Sees(sys', db, id, rest) == true
      ensures BatchOf(at, id) == [ticket] + rest && sys' == Next(at, EventOf(id, execution))
      ensures Answer(id, Moment(at, sys'), ticket, execution, accepted) == true
      ensures claimed == old(claimed)
      ensures succeeded == old(succeeded) + if accepted && execution.outcome.Worked? then 1 else 0
      ensures failed == old(failed) + if accepted && execution.outcome.Broke? then 1 else 0
      ensures lostLeases == old(lostLeases) + if accepted then 0 else 1
    {
      at := Interlude(db, id, sys, [ticket] + rest);
      assert BatchOf(at, id) == [ticket] + rest && ([ticket] + rest)[1..] == rest;
      OccursNext(at, EventOf(id, execution));
      sys' := Next(at, EventOf(id, execution));
      if execution.lost {
        lostLeases := lostLeases + 1;
        return false, at, sys';
      }
      if ticket.key.run in at.runs && execution.outcome.Broke? {
        AcceptedIsHeld(at, ticket.key, id, execution.outcome.draw);
      }
      accepted := Report(db, ticket.key, execution.outcome);
      if accepted {
        if execution.outcome.Worked? { succeeded := succeeded + 1; } else { failed := failed + 1; }
      } else {
        lostLeases := lostLeases + 1;
      }
    }

    method Report(db: Tables, k: RowKey, outcome: Outcome) returns (accepted: bool)
      modifies db
      ensures db.runs == OnRun(old(db.runs), k.run, ReportStep(k, id, outcome))
      ensures accepted <==> k.run in old(db.runs)
                            && match outcome
                               case Worked => Holds(old(db.runs)[k.run], k.task, id)
                               case Broke(_, draw) => FailureState(old(db.runs)[k.run], k.task, id, draw).Some?
    {
      match outcome {
        case Worked =>
          accepted := db.RecordSuccess(k, id);
        case Broke(at, draw) =>
          var state := db.RecordFailure(k, id, at, draw);
          accepted := state.Some?;
      }
      var _ := db.RefreshRunState(k.run);
    }

    /** The configured batch size stands in for a limit that is missing or zero. */
    function Limit(limit: Option<nat>): nat {
      if limit == None || limit == Some(0) then batchSize else limit.value
    }

    /** Claims a batch and drains it. What it does is a legal behaviour of the system, it leaves the worker with nothing
        in hand, and every task claimed is accounted for. A claim that fails claims nothing, and never because an
        attempt was recorded before. */
    method RunOnce(db: Tables, limit: Option<nat>, now: Time, until: Time, locked: set<RowKey>,
                   executions: nat -> Execution, ghost sys: System)
      returns (result: Result<nat, ClaimError>, ghost batch: seq<Ticket>, ghost accepted: seq<bool>,
               ghost at: seq<Moment>, ghost sys': System)
      requires Sees(sys, db, id, []) && Balanced()
      modifies this, db
      ensures Sees(sys', db, id, []) == true && Balanced()
      ensures result.Success? ==> claimed == old(claimed) + result.value && |accepted| == |batch| == result.value
      ensures result.Success? && (limit == None || limit == Some(0)) ==>
                result.value == Wanted(old(db.runs), now, batchSize, locked)
                && Selected(old(db.runs), now, batchSize, locked, batch)
      ensures result.Success? && limit.Some? && limit.value > 0 ==>
                result.value == Wanted(old(db.runs), now, limit.value, locked)
                && Selected(old(db.runs), now, limit.value, locked, batch)
      ensures result.Failure? ==> claimed == old(claimed) && accepted == [] && result.error == BudgetExceeded
      ensures Answered(id, at, batch, executions, accepted) == true
      ensures Tallied(succeeded - old(succeeded), failed - old(failed), executions, accepted)
    {
      sys' := sys;
      batch, accepted, at := [], [], [];
      assert Answered(id, at, batch, executions, accepted);
      var claim, chosen := db.ClaimBatch(id, Limit(limit), now, until, locked);
      if claim.Failure? {
        NeverDuplicated(sys, chosen);
        return Failure(claim.error), batch, accepted, at, sys';
      }
      var claimedNow := claim.value;
      batch := claimedNow;
      assert Selected(sys.runs, now, Limit(limit), locked, batch);
      sys' := Claimed(sys, chosen, Limit(limit), now, until, locked, batch);
      claimed := claimed + |claimedNow|;
      accepted, at, sys' := Drain(db, claimedNow, executions, sys');
      result := Success(|claimedNow|);
    }

    /** One task of the batch, with what the reports before it came to. */
    method ExecuteAt(db: Tables, batch: seq<Ticket>, i: nat, executions: nat -> Execution, ghost sys: System,
                     ghost accepted: seq<bool>, ghost at: seq<Moment>)
      returns (ghost accepted': seq<bool>, ghost at': seq<Moment>, ghost sys': System)
      requires i < |batch| && |accepted| == i && Sees(sys, db, id, batch[i..])
      requires Answered(id, at, batch, executions, accepted) == true
      modifies this, db
      ensures Sees(sys', db, id, batch[i + 1..]) == true && claimed == old(claimed) && |accepted'| == i + 1
      ensures Answered(id, at', batch, executions, accepted') == true
      ensures succeeded - Successes(executions, accepted') == old(succeeded) - Successes(executions, accepted)
      ensures failed - Failures(executions, accepted') == old(failed) - Failures(executions, accepted)
      ensures succeeded + failed + lostLeases == old(succeeded + failed + lostLeases) + 1
    {
      assert batch[i..] == [batch[i]] + batch[i + 1..];
      var ok: bool;
      ghost var next;
      ok, next, sys' := Execute(db, batch[i], executions(i), sys, batch[i + 1..]);
      AnsweredOneMore(id, at, batch, executions, accepted, Moment(next, sys'), ok);
      OneMoreCounted(executions, accepted, ok);
      accepted', at' := accepted + [ok], at + [Moment(next, sys')];
    }

    /** Every task of the batch, first to last. */
    method Drain(db: Tables, batch: seq<Ticket>, executions: nat -> Execution, ghost sys: System)
      returns (ghost accepted: seq<bool>, ghost at: seq<Moment>, ghost sys': System)
      requires Sees(sys, db, id, batch)
      modifies this, db
      ensures Sees(sys', db, id, []) == true
      ensures claimed == old(claimed) && |accepted| == |batch| && Answered(id, at, batch, executions, accepted) == true
      ensures Tallied(succeeded - old(succeeded), failed - old(failed), executions, accepted)
      ensures succeeded + failed + lostLeases == old(succeeded + failed + lostLeases) + |batch|
    {
      sys', accepted, at := sys, [], [];
      assert batch[0..] == batch && Answered(id, [], batch, executions, []);
      for i := 0 to |batch|
        invariant Sees(sys', db, id, batch[i..]) == true && claimed == old(claimed) && |accepted| == i
        invariant Answered(id, at, batch, executions, accepted) == true
        invariant succeeded - Successes(executions, accepted) == old(succeeded)
        invariant failed - Failures(executions, accepted) == old(failed)
        invariant succeeded + failed + lostLeases == old(succeeded + failed + lostLeases) + i
      {
        accepted, at, sys' := ExecuteAt(db, batch, i, executions, sys', accepted, at);
      }
      assert batch[|batch|..] == [];
    }

    /** The event behind a successful claim. */
    lemma Claimed(sys: System, chosen: set<RowKey>, limit: nat, now: Time, until: Time, locked: set<RowKey>,
          batch: seq<Ticket>)
      returns (sys': System)
      requires Occurs(sys) && BatchOf(sys, id) == [] && IsSelection(sys.runs, now, limit, locked, chosen)
      requires !OverBudget(sys.runs, chosen)
      requires exists order :: ListsExactly(order, chosen) && batch == TicketsOf(sys.runs, order)
      ensures Occurs(sys') == true && sys'.runs == ClaimAll(sys.runs, chosen, id, until) && BatchOf(sys', id) == batch
      ensures |batch| == Wanted(sys.runs, now, limit, locked)
    {
      var order :| ListsExactly(order, chosen) && batch == TicketsOf(sys.runs, order);
      var e := Event.ClaimBatch(id, limit, now, until, locked, chosen, order);
      OccursNext(sys, e);
      sys' := Next(sys, e);
      Dags.DistinctSize(order);
      assert Dags.Elements(order) == chosen;
    }
  }

  lemma NeverOnRecord(runs: Runs, k: RowKey)
    requires k.run in runs ==> Reachable(runs[k.run])
    ensures !OnRecord(runs, k)
  {
    if Has(runs, k) { ClaimNeverConflicts(runs[k.run], k.task); }
  }

  lemma NeverDuplicated(sys: System, chosen: set<RowKey>)
    requires Occurs(sys)
    ensures !Duplicated(sys.runs, chosen)
  {
    EveryRunIsReachable(sys);
    forall k | k in chosen ensures !OnRecord(sys.runs, k) {
      NeverOnRecord(sys.runs, k);
    }
  }
}
