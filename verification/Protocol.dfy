/** The whole system: many runs, many workers each holding the batch it claimed, reapers and cancellations, in any
    order. */
module Protocol {
  import opened Wrappers
  import opened Retry
  import opened Graphs
  import opened RunTables
  import opened RunInvariant
  import opened RunReports
  import opened RunMachine
  import opened RunTheorems
  import opened Stranding

  type RunId = nat
  type Runs = map<RunId, Run>

  datatype RowKey = RowKey(run: RunId, task: TaskId)

  /** What a worker keeps of a claimed task. */
  datatype Ticket = Ticket(key: RowKey, attempt: nat)

  predicate Has(runs: Runs, k: RowKey) {
    k.run in runs && k.task in runs[k.run].rows
  }

  function RowOf(runs: Runs, k: RowKey): TaskRun
    requires Has(runs, k)
  {
    runs[k.run].rows[k.task]
  }

  // ---- the claim query ---------------------------------------------------------

  predicate Ripe(row: TaskRun, now: Time) {
    row.state.Ready? && row.scheduledAt <= now
  }

  /** READY rows that are due and that no concurrent claim has locked. */
  function Candidates(runs: Runs, now: Time, locked: set<RowKey>): set<RowKey> {
    set r, t | r in runs && t in runs[r].rows && Ripe(runs[r].rows[t], now) && RowKey(r, t) !in locked :: RowKey(r, t)
  }

  /** Highest priority first, then longest due. */
  predicate Before(a: TaskRun, b: TaskRun) {
    a.task.priority > b.task.priority || (a.task.priority == b.task.priority && a.scheduledAt < b.scheduledAt)
  }

  /** How many rows a claim takes: as many candidates as the limit allows. */
  function Wanted(runs: Runs, now: Time, limit: nat, locked: set<RowKey>): nat {
    var all := Candidates(runs, now, locked);
    if limit < |all| then limit else |all|
  }

  /** `chosen` is a result the claim query may return: as many candidates as it takes, none of them preceded by a
      candidate left out. Ties are broken by the database. */
  ghost predicate IsSelection(runs: Runs, now: Time, limit: nat, locked: set<RowKey>, chosen: set<RowKey>) {
    var all := Candidates(runs, now, locked);
    && chosen <= all && |chosen| == Wanted(runs, now, limit, locked)
    && forall c, k | c in chosen && k in all && k !in chosen ::
         Has(runs, c) && Has(runs, k) && !Before(RowOf(runs, k), RowOf(runs, c))
  }

  /** What that comes to, row by row: the rows taken are READY, due and unlocked; and if any such row is left out, as
      many were taken as the limit allows, each of higher priority, or of the same and due no later. */
  lemma SelectionIff(runs: Runs, now: Time, limit: nat, locked: set<RowKey>, chosen: set<RowKey>)
    ensures IsSelection(runs, now, limit, locked, chosen) <==>
            && (forall c | c in chosen ::
                  Has(runs, c) && c !in locked && RowOf(runs, c).state.Ready? && RowOf(runs, c).scheduledAt <= now)
            && |chosen| <= limit
            && (forall k | Has(runs, k) && k !in locked && k !in chosen && RowOf(runs, k).state.Ready?
                           && RowOf(runs, k).scheduledAt <= now ::
                  |chosen| == limit
                  && forall c | c in chosen ::
                       var taken, left := RowOf(runs, c), RowOf(runs, k);
                       || taken.task.priority > left.task.priority
                       || (taken.task.priority == left.task.priority && taken.scheduledAt <= left.scheduledAt))
  {
    var all := Candidates(runs, now, locked);
    assert forall k :: k in all <==>
             Has(runs, k) && k !in locked && RowOf(runs, k).state.Ready? && RowOf(runs, k).scheduledAt <= now;
    if chosen <= all {
      assert |all| == |chosen| + |all - chosen|;
    }
  }

  function ChosenIn(chosen: set<RowKey>, r: RunId): set<TaskId> {
    set k | k in chosen && k.run == r :: k.task
  }

  /** CHECK (attempt <= max_attempts): the update that would break it fails as a whole. */
  predicate OverBudget(runs: Runs, chosen: set<RowKey>) {
    exists k | k in chosen :: Has(runs, k) && RowOf(runs, k).Exhausted()
  }

  function ClaimAll(runs: Runs, chosen: set<RowKey>, w: WorkerId, until: Time): Runs {
    map r | r in runs :: ClaimRows(runs[r], ChosenIn(chosen, r), w, until)
  }

  function ReapAll(runs: Runs, now: Time): Runs {
    map r | r in runs :: ReapRun(runs[r], now)
  }

  function OnRun(runs: Runs, r: RunId, step: RunStep): Runs {
    if r in runs then runs[r := Apply(runs[r], step)] else runs
  }

  // ---- the system --------------------------------------------------------------

  datatype System = System(runs: Runs, batches: map<WorkerId, seq<Ticket>>)

  datatype Outcome = Worked | Broke(at: Time, draw: real)

  datatype Event =
    | Submit(run: RunId, tasks: map<TaskId, TaskDef>, parents: Graph<TaskId>, at: Time)
    | ClaimBatch(claimer: WorkerId, limit: nat, now: Time, leaseEnd: Time, locked: set<RowKey>, chosen: set<RowKey>,
        order: seq<RowKey>)
    | Heartbeat(beater: WorkerId, key: RowKey, until: Time)
    | Report(reporter: WorkerId, outcome: Outcome)
    | Discard(loser: WorkerId)
    | Crash(victim: WorkerId)
    | Sweep(swept: Time)
    | CancelAll(cancelled: RunId)

  function BatchOf(sys: System, w: WorkerId): seq<Ticket> {
    if w in sys.batches then sys.batches[w] else []
  }

  /** `order` lists `chosen`, in whatever order the database returned the rows. */
  ghost predicate ListsExactly(order: seq<RowKey>, chosen: set<RowKey>) {
    Distinct(order) && forall k :: k in order <==> k in chosen
  }

  /** Workflows are validated before they run; a worker claims only once its last batch is drained, and reports on
      what it holds, first ticket first. Anything may happen at any time otherwise: a report may come long after
      the lease was reaped and the task claimed by another. */
  ghost predicate Legal(sys: System, e: Event) {
    match e
    case Submit(r, tasks, parents, _) => r !in sys.runs && Accepted(tasks, parents)
    case ClaimBatch(w, limit, now, _, locked, chosen, order) =>
      BatchOf(sys, w) == [] && IsSelection(sys.runs, now, limit, locked, chosen) && ListsExactly(order, chosen)
    case Report(w, _) => BatchOf(sys, w) != []
    case Discard(w) => BatchOf(sys, w) != []
    case _ => true
  }

  function TicketsOf(runs: Runs, order: seq<RowKey>): seq<Ticket> {
    seq(|order|, i requires 0 <= i < |order| =>
      Ticket(order[i], if Has(runs, order[i]) then RowOf(runs, order[i]).attempt + 1 else 0))
  }

  function ReportStep(k: RowKey, w: WorkerId, outcome: Outcome): RunStep {
    match outcome
    case Worked => ReportSuccess(k.task, w)
    case Broke(at, draw) => ReportFailure(k.task, w, at, draw)
  }

  function AfterClaim(sys: System, w: WorkerId, until: Time, chosen: set<RowKey>, order: seq<RowKey>): System {
    if OverBudget(sys.runs, chosen) then sys
    else System(ClaimAll(sys.runs, chosen, w, until), sys.batches[w := TicketsOf(sys.runs, order)])
  }

  function Next(sys: System, e: Event): System {
    match e
    case Submit(r, tasks, parents, now) =>
      var created := CreateRun(tasks, parents, now);
      if created.Success? then sys.(runs := sys.runs[r := created.value]) else sys
    case ClaimBatch(w, _, _, until, _, chosen, order) => AfterClaim(sys, w, until, chosen, order)
    case Heartbeat(w, k, until) => sys.(runs := OnRun(sys.runs, k.run, Renew(k.task, w, until)))
    case Report(w, outcome) =>
      var batch := BatchOf(sys, w);
      if batch == [] then sys
      else System(OnRun(sys.runs, batch[0].key.run, ReportStep(batch[0].key, w, outcome)), sys.batches[w := batch[1..]])
    case Discard(w) =>
      var batch := BatchOf(sys, w);
      if batch == [] then sys else sys.(batches := sys.batches[w := batch[1..]])
    case Crash(w) => sys.(batches := sys.batches - {w})
    case Sweep(now) => sys.(runs := ReapAll(sys.runs, now))
    case CancelAll(r) => sys.(runs := OnRun(sys.runs, r, Cancel))
  }

  const EMPTY := System(map[], map[])

  ghost predicate Legals(sys: System, events: seq<Event>)
    decreases |events|
  {
    events == [] || (Legal(sys, events[0]) && Legals(Next(sys, events[0]), events[1..]))
  }

  function Through(sys: System, events: seq<Event>): System
    decreases |events|
  {
    if events == [] then sys else Through(Next(sys, events[0]), events[1..])
  }

  ghost predicate Occurs(sys: System) {
    exists events: seq<Event> :: Legals(EMPTY, events) && Through(EMPTY, events) == sys
  }

  lemma {:induction false} LegalThrough(sys: System, events: seq<Event>, e: Event)
    requires Legals(sys, events) && Legal(Through(sys, events), e)
    ensures Legals(sys, events + [e]) && Through(sys, events + [e]) == Next(Through(sys, events), e)
    decreases |events|
  {
    if events == [] {
      assert ([e])[1..] == [];
    } else {
      assert (events + [e])[0] == events[0] && (events + [e])[1..] == events[1..] + [e];
      LegalThrough(Next(sys, events[0]), events[1..], e);
    }
  }

  lemma OccursNext(sys: System, e: Event)
    requires Occurs(sys) && Legal(sys, e)
    ensures Occurs(Next(sys, e)) == true
  {
    var events: seq<Event> :| Legals(EMPTY, events) && Through(EMPTY, events) == sys;
    LegalThrough(EMPTY, events, e);
  }

  // ---- every run of the system is a run of the machine -----------------------------

  /** The run took one enabled step of its machine, or none. Contracts compare it with `true` where it is only passed
      on, so that the verifier keeps it folded. */
  ghost predicate Stepped(run: Run, run': Run) {
    run' == run || exists step :: Enabled(run, step) && run' == Apply(run, step)
  }

  lemma SelectionIsReady(runs: Runs, now: Time, limit: nat, locked: set<RowKey>, chosen: set<RowKey>)
    requires IsSelection(runs, now, limit, locked, chosen)
    ensures forall k | k in chosen :: Has(runs, k) && RowOf(runs, k).state.Ready? && RowOf(runs, k).scheduledAt <= now
  {
    forall k | k in chosen ensures Has(runs, k) && RowOf(runs, k).state.Ready? && RowOf(runs, k).scheduledAt <= now {
      assert k in Candidates(runs, now, locked);
    }
  }

  predicate AllReady(runs: Runs, chosen: set<RowKey>) {
    forall k | k in chosen :: Has(runs, k) && RowOf(runs, k).state.Ready?
  }

  /** What the proofs need of a legal event; of a selection, only that its rows were READY. */
  ghost predicate Sound(sys: System, e: Event) {
    match e
    case Submit(r, tasks, parents, _) => r !in sys.runs && Accepted(tasks, parents)
    case ClaimBatch(w, _, _, _, _, chosen, order) =>
      && BatchOf(sys, w) == [] && ListsExactly(order, chosen)
      && AllReady(sys.runs, chosen)
    case Report(w, _) => BatchOf(sys, w) != []
    case Discard(w) => BatchOf(sys, w) != []
    case _ => true
  }

  lemma LegalIsSound(sys: System, e: Event)
    requires Legal(sys, e)
    ensures Sound(sys, e)
  {
    if e.ClaimBatch? {
      SelectionIsReady(sys.runs, e.now, e.limit, e.locked, e.chosen);
    }
  }

  lemma ClaimSteps(runs: Runs, chosen: set<RowKey>, w: WorkerId, until: Time, r: RunId)
    requires AllReady(runs, chosen)
    requires !OverBudget(runs, chosen) && r in runs
    ensures Enabled(runs[r], Claim(ChosenIn(chosen, r), w, until))
    ensures ClaimAll(runs, chosen, w, until)[r] == Apply(runs[r], Claim(ChosenIn(chosen, r), w, until))
  {
    forall t | t in ChosenIn(chosen, r)
      ensures t in runs[r].rows && runs[r].rows[t].state.Ready? && !runs[r].rows[t].Exhausted()
    {
      assert RowKey(r, t) in chosen;
    }
  }

  lemma AfterClaimSteps(sys: System, next: System, w: WorkerId, until: Time, chosen: set<RowKey>, order: seq<RowKey>,
        r: RunId)
    requires AllReady(sys.runs, chosen)
    requires r in sys.runs && next == AfterClaim(sys, w, until, chosen, order)
    ensures r in next.runs && Stepped(sys.runs[r], next.runs[r]) == true
  {
    if !OverBudget(sys.runs, chosen) {
      ClaimSteps(sys.runs, chosen, w, until, r);
    }
  }

  lemma OnRunSteps(runs: Runs, q: RunId, step: RunStep, r: RunId)
    requires !step.Claim? && r in runs
    ensures r in OnRun(runs, q, step) && Stepped(runs[r], OnRun(runs, q, step)[r]) == true
  {
    assert Enabled(runs[r], step);
  }

  lemma SweepSteps(runs: Runs, now: Time, r: RunId)
    requires r in runs
    ensures r in ReapAll(runs, now) && Stepped(runs[r], ReapAll(runs, now)[r]) == true
  {
    assert Enabled(runs[r], Reap(now));
    assert ReapAll(runs, now)[r] == Apply(runs[r], Reap(now));
  }

  lemma ReportEventSteps(sys: System, w: WorkerId, outcome: Outcome, r: RunId)
    requires BatchOf(sys, w) != [] && r in sys.runs
    ensures r in Next(sys, Report(w, outcome)).runs
            && Stepped(sys.runs[r], Next(sys, Report(w, outcome)).runs[r]) == true
  {
    var k := BatchOf(sys, w)[0].key;
    OnRunSteps(sys.runs, k.run, ReportStep(k, w, outcome), r);
  }

  /** No event touches a run but by one step of its machine. */
  lemma EventSteps(sys: System, e: Event, r: RunId)
    requires Sound(sys, e) && r in sys.runs
    ensures r in Next(sys, e).runs && Stepped(sys.runs[r], Next(sys, e).runs[r]) == true
  {
    match e
    case ClaimBatch(w, _, _, until, _, chosen, order) =>
      NextOfClaim(sys, e);
      AfterClaimSteps(sys, Next(sys, e), w, until, chosen, order, r);
    case Report(w, outcome) => ReportEventSteps(sys, w, outcome, r);
    case _ => QuietEventSteps(sys, e, r);
  }

  lemma NextOfClaim(sys: System, e: Event)
    requires e.ClaimBatch?
    ensures Next(sys, e) == AfterClaim(sys, e.claimer, e.leaseEnd, e.chosen, e.order)
  {
  }

  lemma QuietEventSteps(sys: System, e: Event, r: RunId)
    requires !e.ClaimBatch? && !e.Report? && r in sys.runs && (e.Submit? ==> e.run !in sys.runs)
    ensures r in Next(sys, e).runs && Stepped(sys.runs[r], Next(sys, e).runs[r]) == true
  {
    assert Stepped(sys.runs[r], sys.runs[r]);
    match e
    case Heartbeat(w, k, until) => OnRunSteps(sys.runs, k.run, Renew(k.task, w, until), r);
    case Sweep(now) => SweepSteps(sys.runs, now, r);
    case CancelAll(q) => OnRunSteps(sys.runs, q, Cancel, r);
    case _ =>
  }

  ghost predicate RunsReachable(sys: System) {
    forall r | r in sys.runs :: Reachable(sys.runs[r])
  }

  lemma EventKeepsRuns(sys: System, e: Event)
    requires Sound(sys, e) && RunsReachable(sys)
    ensures RunsReachable(Next(sys, e))
  {
    var next := Next(sys, e);
    forall r | r in next.runs ensures Reachable(next.runs[r]) {
      if r in sys.runs {
        EventSteps(sys, e, r);
        if next.runs[r] != sys.runs[r] {
          var step :| Enabled(sys.runs[r], step) && next.runs[r] == Apply(sys.runs[r], step);
          StepFromReachable(sys.runs[r], step);
        }
      } else {
        FreshIsReachable(e.tasks, e.parents, e.at);
      }
    }
  }

  // ---- fencing -----------------------------------------------------------------

  /** A ticket names an attempt that was made and recorded for its worker; if the worker still holds the row, it is the
      attempt the row is on. */
  predicate TicketOk(runs: Runs, w: WorkerId, ticket: Ticket) {
    && Has(runs, ticket.key)
    && 1 <= ticket.attempt <= RowOf(runs, ticket.key).attempt
    && Recorded(runs[ticket.key.run].attempts, AttemptKey(ticket.key.task, ticket.attempt), w)
    && (RowOf(runs, ticket.key).worker == Some(w) ==> RowOf(runs, ticket.key).attempt == ticket.attempt)
  }

  ghost predicate Fenced(sys: System) {
    forall w, i | w in sys.batches && 0 <= i < |sys.batches[w]| :: TicketOk(sys.runs, w, sys.batches[w][i])
  }

  /** Rows a step leaves with their attempt, and with their worker or none, keep every ticket in order. */
  predicate TakesNothing(runs: Runs, runs': Runs, k: RowKey) {
    Has(runs, k) ==>
      && Has(runs', k) && RowOf(runs', k).attempt == RowOf(runs, k).attempt
      && (RowOf(runs', k).worker == RowOf(runs, k).worker || RowOf(runs', k).worker == None)
  }

  lemma StepTakesNothing(runs: Runs, r: RunId, step: RunStep, k: RowKey)
    requires !step.Claim?
    ensures TakesNothing(runs, OnRun(runs, r, step), k)
  {
    if Has(runs, k) && k.run == r {
      OnlyClaimsClaim(runs[r], step, k.task);
    }
  }

  lemma EventTakesNothing(sys: System, e: Event, k: RowKey)
    requires Sound(sys, e) && !e.ClaimBatch?
    ensures TakesNothing(sys.runs, Next(sys, e).runs, k)
  {
    match e
    case Heartbeat(w, h, until) => StepTakesNothing(sys.runs, h.run, Renew(h.task, w, until), k);
    case Report(w, outcome) =>
      StepTakesNothing(sys.runs, BatchOf(sys, w)[0].key.run, ReportStep(BatchOf(sys, w)[0].key, w, outcome), k);
    case CancelAll(r) => StepTakesNothing(sys.runs, r, Cancel, k);
    case Sweep(now) =>
      if Has(sys.runs, k) {
        OnlyClaimsClaim(sys.runs[k.run], Reap(now), k.task);
      }
    case _ =>
  }

  lemma SteppedGrowsLog(run: Run, run': Run)
    requires Reachable(run) && Stepped(run, run')
    ensures LogGrows(run.attempts, run'.attempts) == true
  {
    ReachableLog(run);
    if run' != run {
      var step :| Enabled(run, step) && run' == Apply(run, step);
      StepGrowsLog(run, step);
    }
  }

  /** What was recorded for a worker stays recorded for it. */
  lemma EventGrowsLog(sys: System, e: Event, r: RunId)
    requires Sound(sys, e) && RunsReachable(sys) && r in sys.runs
    ensures r in Next(sys, e).runs && LogGrows(sys.runs[r].attempts, Next(sys, e).runs[r].attempts) == true
  {
    EventSteps(sys, e, r);
    SteppedGrowsLog(sys.runs[r], Next(sys, e).runs[r]);
  }

  /** Whatever tickets a worker holds after such an event it held before. */
  lemma EventGivesNoTickets(sys: System, e: Event, w: WorkerId, i: nat)
    requires Sound(sys, e) && !e.ClaimBatch? && i < |BatchOf(Next(sys, e), w)|
    ensures BatchOf(Next(sys, e), w)[i] in BatchOf(sys, w)
  {
  }

  lemma ClaimedRow(runs: Runs, chosen: set<RowKey>, w: WorkerId, until: Time, k: RowKey)
    requires Has(runs, k)
    ensures Has(ClaimAll(runs, chosen, w, until), k)
    ensures RowOf(ClaimAll(runs, chosen, w, until), k)
         == if k in chosen then ClaimRow(RowOf(runs, k), w, until) else RowOf(runs, k)
  {
    if k in chosen {
      assert k.task in ChosenIn(chosen, k.run);
    }
  }

  lemma StartedAttempt(runs: Runs, chosen: set<RowKey>, w: WorkerId, until: Time, k: RowKey)
    requires Has(runs, k) && k in chosen
    ensures k.run in ClaimAll(runs, chosen, w, until)
    ensures Recorded(ClaimAll(runs, chosen, w, until)[k.run].attempts, AttemptKey(k.task, RowOf(runs, k).attempt + 1),
            w) == true
  {
    assert k.task in ChosenIn(chosen, k.run);
    ClaimRecords(runs[k.run], ChosenIn(chosen, k.run), w, until, k.task);
  }

  lemma NewTicketOk(runs: Runs, chosen: set<RowKey>, w: WorkerId, until: Time, k: RowKey)
    requires Has(runs, k) && k in chosen
    ensures TicketOk(ClaimAll(runs, chosen, w, until), w, Ticket(k, RowOf(runs, k).attempt + 1))
  {
    ClaimedRow(runs, chosen, w, until, k);
    StartedAttempt(runs, chosen, w, until, k);
  }

  lemma OldTicketOk(runs: Runs, chosen: set<RowKey>, claimer: WorkerId, until: Time, w: WorkerId, ticket: Ticket)
    requires TicketOk(runs, w, ticket) && w != claimer
    requires ticket.key.run in ClaimAll(runs, chosen, claimer, until)
    requires LogGrows(runs[ticket.key.run].attempts, ClaimAll(runs, chosen, claimer, until)[ticket.key.run].attempts)
    ensures TicketOk(ClaimAll(runs, chosen, claimer, until), w, ticket)
  {
    ClaimedRow(runs, chosen, claimer, until, ticket.key);
  }

  /** A successful claim by a drained worker gives it tickets that name exactly the attempts it started, and overtakes
      the tickets of everyone else on the same rows. */
  lemma ClaimKeepsFenced(sys: System, w: WorkerId, until: Time, chosen: set<RowKey>, order: seq<RowKey>)
    requires Fenced(sys) && ListsExactly(order, chosen) && forall k | k in chosen :: Has(sys.runs, k)
    requires forall r | r in sys.runs :: r in AfterClaim(sys, w, until, chosen, order).runs
                  && LogGrows(sys.runs[r].attempts, AfterClaim(sys, w, until, chosen, order).runs[r].attempts)
    ensures Fenced(AfterClaim(sys, w, until, chosen, order))
  {
    var next := AfterClaim(sys, w, until, chosen, order);
    if !OverBudget(sys.runs, chosen) {
      forall v, i | v in next.batches && 0 <= i < |next.batches[v]| ensures TicketOk(next.runs, v, next.batches[v][i]) {
        if v == w {
          assert order[i] in order;
          NewTicketOk(sys.runs, chosen, w, until, order[i]);
        } else {
          assert TicketOk(sys.runs, v, sys.batches[v][i]);
          OldTicketOk(sys.runs, chosen, w, until, v, next.batches[v][i]);
        }
      }
    }
  }

  lemma ClaimEventKeepsFenced(sys: System, next: System, w: WorkerId, until: Time, chosen: set<RowKey>,
        order: seq<RowKey>)
    requires Fenced(sys) == true && RunsReachable(sys) == true && ListsExactly(order, chosen) == true
    requires AllReady(sys.runs, chosen) == true
    requires next == AfterClaim(sys, w, until, chosen, order)
    ensures Fenced(next) == true
  {
    forall r | r in sys.runs ensures r in next.runs && LogGrows(sys.runs[r].attempts, next.runs[r].attempts) == true {
      AfterClaimSteps(sys, next, w, until, chosen, order, r);
      SteppedGrowsLog(sys.runs[r], next.runs[r]);
    }
    ClaimKeepsFenced(sys, w, until, chosen, order);
  }

  lemma OtherEventKeepsTicket(sys: System, e: Event, w: WorkerId, i: nat)
    requires Sound(sys, e) && !e.ClaimBatch? && Fenced(sys) && RunsReachable(sys)
    requires i < |BatchOf(Next(sys, e), w)|
    ensures TicketOk(Next(sys, e).runs, w, BatchOf(Next(sys, e), w)[i])
  {
    var ticket := BatchOf(Next(sys, e), w)[i];
    EventGivesNoTickets(sys, e, w, i);
    var j :| 0 <= j < |BatchOf(sys, w)| && BatchOf(sys, w)[j] == ticket;
    assert TicketOk(sys.runs, w, sys.batches[w][j]);
    EventTakesNothing(sys, e, ticket.key);
    EventGrowsLog(sys, e, ticket.key.run);
  }

  lemma OtherEventKeepsFenced(sys: System, e: Event)
    requires Sound(sys, e) && !e.ClaimBatch? && Fenced(sys) && RunsReachable(sys)
    ensures Fenced(Next(sys, e))
  {
    var next := Next(sys, e);
    forall w, i | w in next.batches && 0 <= i < |next.batches[w]| ensures TicketOk(next.runs, w, next.batches[w][i]) {
      OtherEventKeepsTicket(sys, e, w, i);
    }
  }

  lemma EventKeepsFenced(sys: System, e: Event)
    requires Sound(sys, e) && Fenced(sys) && RunsReachable(sys)
    ensures Fenced(Next(sys, e)) == true
  {
    match e
    case ClaimBatch(w, _, _, until, _, chosen, order) =>
      NextOfClaim(sys, e);
      ClaimEventKeepsFenced(sys, Next(sys, e), w, until, chosen, order);
    case _ => OtherEventKeepsFenced(sys, e);
  }

  lemma {:induction false} EventsKeep(sys: System, events: seq<Event>)
    requires RunsReachable(sys) && Fenced(sys) && Legals(sys, events)
    ensures RunsReachable(Through(sys, events)) && Fenced(Through(sys, events))
    decreases |events|
  {
    if events != [] {
      LegalIsSound(sys, events[0]);
      EventKeepsRuns(sys, events[0]);
      EventKeepsFenced(sys, events[0]);
      EventsKeep(Next(sys, events[0]), events[1..]);
    }
  }

  /** Whatever happens to the others, each run of the system only ever takes steps of its own machine: all that holds of
      the machine's reachable states holds of every run. */
  lemma EveryRunIsReachable(sys: System)
    requires Occurs(sys)
    ensures RunsReachable(sys) && Fenced(sys)
  {
    var events: seq<Event> :| Legals(EMPTY, events) && Through(EMPTY, events) == sys;
    EventsKeep(EMPTY, events);
  }

  /** The row is held by the worker: the guard of every report and renewal, which names the worker and not the
      attempt. */
  predicate GuardAccepts(sys: System, w: WorkerId, k: RowKey) {
    k.run in sys.runs && Holds(sys.runs[k.run], k.task, w)
  }

  /** Fencing. However late a worker reports, and whatever was reaped and claimed again meanwhile, a report the guard
      accepts is for the very attempt the worker claimed: that attempt is the row's latest, it is still open, and its
      record carries this worker. */
  lemma AcceptedReportIsForItsAttempt(sys: System, w: WorkerId, ticket: Ticket)
    requires Occurs(sys) && ticket in BatchOf(sys, w) && GuardAccepts(sys, w, ticket.key)
    ensures RowOf(sys.runs, ticket.key).attempt == ticket.attempt
    ensures var k := AttemptKey(ticket.key.task, ticket.attempt);
            && k in sys.runs[ticket.key.run].attempts
            && !sys.runs[ticket.key.run].attempts[k].finished
            && sys.runs[ticket.key.run].attempts[k].worker == w
  {
    EveryRunIsReachable(sys);
    var i :| 0 <= i < |BatchOf(sys, w)| && BatchOf(sys, w)[i] == ticket;
    assert TicketOk(sys.runs, w, sys.batches[w][i]);
    AttemptLogTruthful(sys.runs[ticket.key.run], ticket.key.task, ticket.attempt);
  }

  /** A report is accepted exactly when the attempt it is for is still open and its task was not cancelled. An accepted
      report closes the attempt, so none is ever accepted twice. */
  lemma ReportAcceptedIff(sys: System, w: WorkerId, ticket: Ticket)
    requires Occurs(sys) && ticket in BatchOf(sys, w)
    ensures Has(sys.runs, ticket.key)
    ensures AttemptKey(ticket.key.task, ticket.attempt) in sys.runs[ticket.key.run].attempts
    ensures GuardAccepts(sys, w, ticket.key)
       <==> (&& !sys.runs[ticket.key.run].attempts[AttemptKey(ticket.key.task, ticket.attempt)].finished
             && !RowOf(sys.runs, ticket.key).state.Cancelled?)
  {
    EveryRunIsReachable(sys);
    var i :| 0 <= i < |BatchOf(sys, w)| && BatchOf(sys, w)[i] == ticket;
    assert TicketOk(sys.runs, w, sys.batches[w][i]);
    AttemptLogTruthful(sys.runs[ticket.key.run], ticket.key.task, ticket.attempt);
    if GuardAccepts(sys, w, ticket.key) {
      AcceptedReportIsForItsAttempt(sys, w, ticket);
    }
  }

  lemma ReportCloses(run: Run, t: TaskId, w: WorkerId, step: RunStep)
    requires Core(run) && Holds(run, t, w) && AttemptKey(t, run.rows[t].attempt) in run.attempts
    requires (step.ReportSuccess? && step.finished == t && step.finisher == w)
             || (step.ReportFailure? && step.broken == t && step.failer == w)
    ensures var k := AttemptKey(t, run.rows[t].attempt);
            k in Apply(run, step).attempts && Apply(run, step).attempts[k].finished
  {
    if step.ReportFailure? {
      FailureOutcome(run, t, w, step.draw);
    }
  }

  /** After an accepted report its attempt is closed. */
  lemma AcceptedReportCloses(sys: System, w: WorkerId, outcome: Outcome)
    requires Occurs(sys) && BatchOf(sys, w) != [] && GuardAccepts(sys, w, BatchOf(sys, w)[0].key)
    ensures var ticket := BatchOf(sys, w)[0];
            var k := AttemptKey(ticket.key.task, ticket.attempt);
            var runs' := Next(sys, Report(w, outcome)).runs;
            && ticket.key.run in runs' && k in runs'[ticket.key.run].attempts
            && runs'[ticket.key.run].attempts[k].finished
  {
    var ticket := BatchOf(sys, w)[0];
    var run := sys.runs[ticket.key.run];
    AcceptedReportIsForItsAttempt(sys, w, ticket);
    assert Core(run) by {
      EveryRunIsReachable(sys);
      ReachableInv(run);
    }
    var step := ReportStep(ticket.key, w, outcome);
    assert Next(sys, Report(w, outcome)).runs == OnRun(sys.runs, ticket.key.run, step);
    ReportCloses(run, ticket.key.task, w, step);
  }

  // ---- why a worker must drain its batch first -------------------------------------

  /** The guard alone cannot tell attempts apart: a worker that claimed the same task twice, the first time having lost
      its lease, would have its report on the first attempt taken for the second. Draining first rules this out. */
  lemma GuardCannotTellAttempts(w: WorkerId) returns (run: Run)
    ensures Reachable(run) && Holds(run, 0, w) && run.rows[0].attempt == 2
    ensures Recorded(run.attempts, AttemptKey(0, 1), w) && Recorded(run.attempts, AttemptKey(0, 2), w)
    ensures run.attempts[AttemptKey(0, 1)].finished
  {
    var start := OneTaskRun(FixedDelay(0.0, 2));
    var claimed := ClaimOnly(start, w, 1.0);
    var reaped := ReapOnly(claimed, 2.0);
    run := ClaimOnly(reaped, w, 3.0);
  }
}
