/** When a claim gets through. A claim is all or nothing, so one row over its budget makes the whole of it fail; which
    claims that reaches depends on the claim order alone. */
module ClaimQueue {
  import opened RunTables
  import opened RunInvariant
  import opened RunMachine
  import opened Stranding
  import opened Protocol

  // ---- taking the first rows of a set -------------------------------------------------

  /** Nothing left out of `chosen` comes before anything in it. */
  ghost predicate Leads(runs: Runs, pool: set<RowKey>, chosen: set<RowKey>) {
    && chosen <= pool && AllThere(runs, pool)
    && forall c, k | c in chosen && k in pool && k !in chosen :: !Before(RowOf(runs, k), RowOf(runs, c))
  }

  predicate AllThere(runs: Runs, pool: set<RowKey>) {
    forall k | k in pool :: Has(runs, k)
  }

  lemma {:induction false} Foremost(runs: Runs, pool: set<RowKey>) returns (best: RowKey)
    requires pool != {} && AllThere(runs, pool)
    ensures best in pool && forall k | k in pool :: !Before(RowOf(runs, k), RowOf(runs, best))
  {
    best :| best in pool;
    if pool != {best} {
      var other := Foremost(runs, pool - {best});
      if !Before(RowOf(runs, best), RowOf(runs, other)) { best := other; }
    }
  }

  lemma {:induction false} TakeFirst(runs: Runs, pool: set<RowKey>, count: nat) returns (chosen: set<RowKey>)
    requires AllThere(runs, pool) && count <= |pool|
    ensures Leads(runs, pool, chosen) && |chosen| == count
  {
    if count == 0 {
      return {};
    }
    var best := Foremost(runs, pool);
    var rest := TakeFirst(runs, pool - {best}, count - 1);
    chosen := rest + {best};
  }

  lemma SmallerFits(a: set<RowKey>, b: set<RowKey>)
    requires a <= b
    ensures |a| <= |b|
  {
    assert b == a + (b - a);
  }

  lemma SelectionIs(runs: Runs, now: Time, limit: nat, locked: set<RowKey>, chosen: set<RowKey>)
    ensures IsSelection(runs, now, limit, locked, chosen) <==>
            Leads(runs, Candidates(runs, now, locked), chosen) && |chosen| == Wanted(runs, now, limit, locked)
  {
    assert AllThere(runs, Candidates(runs, now, locked));
  }

  // ---- when a claim gets through ------------------------------------------------------

  predicate Spent(runs: Runs, k: RowKey) {
    Has(runs, k) && RowOf(runs, k).Exhausted()
  }

  /** The candidates within budget that no candidate over budget comes before. */
  function Clear(runs: Runs, all: set<RowKey>): set<RowKey> {
    set c | c in all && Has(runs, c) && !Spent(runs, c)
            && forall k | k in all && Spent(runs, k) :: !Before(RowOf(runs, k), RowOf(runs, c))
  }

  lemma LeadsWithinClear(runs: Runs, all: set<RowKey>, chosen: set<RowKey>)
    requires Leads(runs, all, chosen) && !OverBudget(runs, chosen)
    ensures chosen <= Clear(runs, all)
  {
    forall c | c in chosen ensures c in Clear(runs, all) {
      assert Has(runs, c) && !Spent(runs, c);
    }
  }

  lemma ClearLeads(runs: Runs, all: set<RowKey>, chosen: set<RowKey>)
    requires AllThere(runs, all) && Leads(runs, Clear(runs, all), chosen)
    ensures Leads(runs, all, chosen) && !OverBudget(runs, chosen)
  {
    var clear := Clear(runs, all);
    forall c, k | c in chosen && k in all && k !in chosen ensures !Before(RowOf(runs, k), RowOf(runs, c)) {
      if k !in clear && !Spent(runs, k) {
        var s :| s in all && Spent(runs, s) && Before(RowOf(runs, s), RowOf(runs, k));
        assert !Before(RowOf(runs, s), RowOf(runs, c));
      }
    }
    assert forall c | c in chosen :: c in clear;
  }

  /** A claim can get through exactly when the rows within budget that come before every one over budget, or tie with
      it, are as many as the claim takes. Ties are the database's to break: where it can, it need not. */
  lemma ClaimCanSucceedIff(runs: Runs, now: Time, limit: nat, locked: set<RowKey>)
    ensures (exists chosen :: IsSelection(runs, now, limit, locked, chosen) && !OverBudget(runs, chosen)) <==>
            Wanted(runs, now, limit, locked) <= |Clear(runs, Candidates(runs, now, locked))|
  {
    var all := Candidates(runs, now, locked);
    if Wanted(runs, now, limit, locked) <= |Clear(runs, all)| {
      var chosen := TakeFirst(runs, Clear(runs, all), Wanted(runs, now, limit, locked));
      ClearLeads(runs, all, chosen);
      SelectionIs(runs, now, limit, locked, chosen);
    }
    if chosen :| IsSelection(runs, now, limit, locked, chosen) && !OverBudget(runs, chosen) {
      SelectionIs(runs, now, limit, locked, chosen);
      LeadsWithinClear(runs, all, chosen);
      SmallerFits(chosen, Clear(runs, all));
    }
  }

  /** The candidates that come before `k`. */
  function Ahead(runs: Runs, all: set<RowKey>, k: RowKey): set<RowKey> {
    set c | c in all && Has(runs, c) && Has(runs, k) && Before(RowOf(runs, c), RowOf(runs, k))
  }

  /** Whatever leads and holds `k` holds all that is ahead of it; and with that, it may hold any number more. */
  lemma LeadsWith(runs: Runs, all: set<RowKey>, k: RowKey, count: nat) returns (chosen: set<RowKey>)
    requires AllThere(runs, all) && k in all && |Ahead(runs, all, k)| < count <= |all|
    ensures Leads(runs, all, chosen) && |chosen| == count && k in chosen
  {
    var front := Ahead(runs, all, k) + {k};
    assert |all| == |front| + |all - front|;
    var rest := TakeFirst(runs, all - front, count - |front|);
    chosen := front + rest;
    FrontLeads(runs, all, k, rest);
  }

  lemma FrontLeads(runs: Runs, all: set<RowKey>, k: RowKey, rest: set<RowKey>)
    requires AllThere(runs, all) && k in all
    requires Leads(runs, all - (Ahead(runs, all, k) + {k}), rest)
    ensures Leads(runs, all, Ahead(runs, all, k) + {k} + rest)
  {
  }

  /** A claim can fail exactly when it takes more rows than come before some row over budget. */
  lemma ClaimCanFailIff(runs: Runs, now: Time, limit: nat, locked: set<RowKey>)
    ensures (exists chosen :: IsSelection(runs, now, limit, locked, chosen) && OverBudget(runs, chosen)) <==>
            exists k | k in Candidates(runs, now, locked) ::
              Spent(runs, k) && |Ahead(runs, Candidates(runs, now, locked), k)| < Wanted(runs, now, limit, locked)
  {
    var all, count := Candidates(runs, now, locked), Wanted(runs, now, limit, locked);
    if k :| k in all && Spent(runs, k) && |Ahead(runs, all, k)| < count {
      var chosen := LeadsWith(runs, all, k, count);
      SelectionIs(runs, now, limit, locked, chosen);
    }
    if chosen :| IsSelection(runs, now, limit, locked, chosen) && OverBudget(runs, chosen) {
      SelectionIs(runs, now, limit, locked, chosen);
      var k :| k in chosen && Spent(runs, k);
      assert Ahead(runs, all, k) <= chosen - {k};
      SmallerFits(Ahead(runs, all, k), chosen - {k});
    }
  }

  /** So a row over budget that comes before every candidate within budget makes every claim that does not skip it
      fail. */
  lemma SpentHeadStopsTheQueue(sys: System, e: Event, k: RowKey)
    requires e.ClaimBatch? && Legal(sys, e) && e.limit >= 1
    requires k in Candidates(sys.runs, e.now, e.locked) && Spent(sys.runs, k)
    requires forall c | c in Candidates(sys.runs, e.now, e.locked) ::
               Spent(sys.runs, c) || Before(RowOf(sys.runs, k), RowOf(sys.runs, c))
    ensures OverBudget(sys.runs, e.chosen) && Next(sys, e) == sys
  {
    var all := Candidates(sys.runs, e.now, e.locked);
    assert Clear(sys.runs, all) == {};
    ClaimCanSucceedIff(sys.runs, e.now, e.limit, e.locked);
    assert all != {} && |all| >= 1;
  }

  // ---- what a claim hands out -------------------------------------------------------------

  /** The attempt of the ticket is on record after and was not before. */
  predicate Started(runs: Runs, runs': Runs, ticket: Ticket) {
    var k := AttemptKey(ticket.key.task, ticket.attempt);
    && ticket.key.run in runs && ticket.key.run in runs'
    && k in runs'[ticket.key.run].attempts && k !in runs[ticket.key.run].attempts
  }

  lemma ClaimAdds(runs: Runs, chosen: set<RowKey>, w: WorkerId, until: Time, r: RunId, k: AttemptKey)
    requires r in runs
    ensures r in ClaimAll(runs, chosen, w, until)
    ensures k in ClaimAll(runs, chosen, w, until)[r].attempts <==>
            k in runs[r].attempts || k in StartedKeys(runs[r].rows, ChosenIn(chosen, r))
  {
  }

  lemma ChosenIffIn(chosen: set<RowKey>, k: RowKey)
    ensures k.task in ChosenIn(chosen, k.run) <==> k in chosen
  {
  }

  /** Only what is there has attempts on record, and none beyond its counter. */
  lemma NotYetRecorded(run: Run, t: TaskId, number: nat)
    requires Reachable(run)
    ensures AttemptKey(t, number) in run.attempts ==> t in run.rows && number <= run.rows[t].attempt
  {
    assert AttemptsOk(run.rows, run.attempts) by { ReachableLog(run); }
    assert AttemptKey(t, number) in run.attempts <==> Numbered(run.rows, AttemptKey(t, number));
  }

  lemma StartedIff(runs: Runs, chosen: set<RowKey>, w: WorkerId, until: Time, ticket: Ticket)
    requires ticket.key.run in runs ==> Reachable(runs[ticket.key.run])
    ensures Started(runs, ClaimAll(runs, chosen, w, until), ticket) <==>
            ticket.key in chosen && Has(runs, ticket.key) && ticket.attempt == RowOf(runs, ticket.key).attempt + 1
  {
    var k := ticket.key;
    if k.run in runs {
      ClaimAdds(runs, chosen, w, until, k.run, AttemptKey(k.task, ticket.attempt));
      ChosenIffIn(chosen, k);
      NotYetRecorded(runs[k.run], k.task, ticket.attempt);
    }
  }

  lemma Listed(runs: Runs, order: seq<RowKey>, ticket: Ticket)
    requires forall k | k in order :: Has(runs, k)
    ensures ticket in TicketsOf(runs, order) <==>
            ticket.key in order && Has(runs, ticket.key) && ticket.attempt == RowOf(runs, ticket.key).attempt + 1
  {
    if ticket.key in order {
      var i :| 0 <= i < |order| && order[i] == ticket.key;
      assert TicketsOf(runs, order)[i].key == ticket.key;
    }
    if i :| 0 <= i < |order| && TicketsOf(runs, order)[i] == ticket {
      assert order[i] in order;
    }
  }

  /** The tickets of a claim that gets through are exactly the attempts it starts, each recorded for its worker. */
  lemma TicketsAreStarted(sys: System, e: Event, ticket: Ticket)
    requires Occurs(sys) && e.ClaimBatch? && Legal(sys, e) && !OverBudget(sys.runs, e.chosen)
    ensures ticket in BatchOf(Next(sys, e), e.claimer) <==> Started(sys.runs, Next(sys, e).runs, ticket)
    ensures Started(sys.runs, Next(sys, e).runs, ticket) ==>
              Recorded(Next(sys, e).runs[ticket.key.run].attempts, AttemptKey(ticket.key.task, ticket.attempt),
                  e.claimer)
  {
    EveryRunIsReachable(sys);
    SelectionIsReady(sys.runs, e.now, e.limit, e.locked, e.chosen);
    StartedIff(sys.runs, e.chosen, e.claimer, e.leaseEnd, ticket);
    Listed(sys.runs, e.order, ticket);
    if Started(sys.runs, Next(sys, e).runs, ticket) {
      StartedAttempt(sys.runs, e.chosen, e.claimer, e.leaseEnd, ticket.key);
    }
  }
}
