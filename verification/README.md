# Conductor: a verified model of the task queue

Conductor runs workflows — directed acyclic graphs of tasks — on worker processes that share one PostgreSQL database.
This project models the parts its guarantees rest on and proves those guarantees for every input, every interleaving
and every reachable state. `dafny verify dfyconfig.toml` checks all of it.

## What is modelled

**The queue protocol.** `RunTables` holds one run's slice of `task_runs`, `task_attempts` and the dependency edges,
with the cached `workflow_runs.state`, and says what each committed transaction does to them. `RunMachine` is the
state machine of one run: claim, renew, report a success or a failure, reap, cancel, in any order, with arbitrary
clock readings, jitter and workers. `RunInvariant` and `RunReports` carry the invariant; `RunTheorems`, `RunMeasure`,
`RunColumn` and `Stranding` say what follows for every reachable run. `Protocol` is the whole system: many runs, many
workers each holding the tickets it claimed, crashes, late reports; `ClaimQueue` says when a claim gets through,
`Endings` which runs can still end, and `Scenarios` has short runs of the system that show what can happen. `Effects`
says column by column what each event leaves in the tables, and `Leases` how long that lasts: what a lease is worth to
its holder, and a backoff to the task. `Database` is the repositories as a class that updates the tables in place,
each method proved to be the step of the machine; `Workers` is the worker process as a class over those tables, proved
to behave only as the protocol allows whatever others do between its transactions. `Workflows` is the validation that
lets a workflow in.

**The graph.** `Dags` has the adjacency lists, Kahn's algorithm and the iterative colouring search as the code runs
them; `DagCursors` the in-memory cursor; `CursorSimulation` shows that the tables are that cursor in another form.

**The data structures.** `DelayQueues` is the indexed binary heap; `LruLists` what the cache does to its recency list
and `LruCaches` the sentinel list and hash map that do it; `TokenBuckets`, `RateLimits` and `RateLimiters` the
limiter; `Keysets` the keyset walk; `Retry` the retry policies; `Lifecycle` the state tables and the run roll-up.

## Assumptions

- Each transaction is one atomic step. `record_failure` reads its row and then updates it without counting rows, and
  `refresh_run_state` reads sibling rows; both are sound only under that assumption.
- `FOR UPDATE SKIP LOCKED` is the parameter `locked` of a claim: any set of rows a concurrent claim may hold. Ties in
  the claim order, and the order rows come back in, are the database's choice.
- The claim's insert of one attempt row per claimed task, and each UPDATE, is one assignment.
- The end of a lease is an argument of a claim or renewal: the code's clock reading plus the configured period is one.
- Every clock reading is an arbitrary real: the protocol's theorems need no clock to be monotone. Jitter is an
  arbitrary number clamped to the interval the generator draws from.
- Task keys, worker ids and run ids are natural numbers; nothing depends on them beyond equality. Worker ids are
  unique.
- Executing a task is a choice of outcome made by the environment. Between two transactions of a worker,
  `Workers.Interlude` stands for everything else in the system: its contract lets anything legal happen.

## Where the code and its documentation part

All but the last are backed by the members they name.

- **A task can be lost.** The design promises that no task may be lost (docs/DESIGN.md:16). A lease that expires on
  the last attempt leaves a READY row whose budget is spent. The budget constraint refuses every claim of it
  (`Stranding.ReapedIsClaimableIff` says exactly when), nothing but a cancellation ever moves it again
  (`Stranding.StrandedForever`), and it does happen (`Stranding.StrandingHappens`). The loss comes before the reaper
  does: `Scenarios.LostWhileRunning` is a worker that dies on a last attempt. `Endings.CanFinishIff` says, over the
  whole system, exactly which runs can still end short of a cancellation.
- **Such a task can make the queue stand still.** A claim is one UPDATE, so the refusal takes the whole batch with it.
  `ClaimQueue.ClaimCanSucceedIff` and `ClaimQueue.ClaimCanFailIff` say, for any tables, which claims can get through
  and which can fail. `Scenarios.QueueCanStand` builds a system with a stranded task and another that was submitted
  later and could be claimed; by `Scenarios.StandingStill` every claim fails there that does not skip the stranded
  row, and only a claim made while another transaction has that row locked hands the second task out. A claim that
  takes no more tasks than come before the stranded one gets through. The error is raised outside the handler around
  the flush, so `run_forever` does not survive it.
- **The fence is not the `worker_id` guard alone.** The guard names the worker and not the attempt;
  `Protocol.GuardCannotTellAttempts` exhibits a run where a worker holds attempt 2 of a task whose attempt 1 it also
  made. Fencing holds because a worker drains its batch before it claims again, and is proved with that
  (`Protocol.AcceptedReportIsForItsAttempt`).
- **The transition tables are not enforced.** `assert_task_transition` is said to be called at every write
  (src/conductor/core/state.py:138-147); the repositories never call it. `RunTheorems.LifecycleRefined` proves that
  the writes respect the table all the same, RETRYING being passed through and never stored. `RUN_TRANSITIONS` is not
  respected: `RunColumn.ColumnLeavesTableIff` says exactly which steps move the stored state along no declared
  transition. An accepted success or last failure can end a run that was never shown RUNNING; a retry, or a refused
  report, which refreshes the column all the same, can bring it from RUNNING back to PENDING. Each of the four happens
  in the system (`Scenarios.SuccessStrays`, `TerminalFailureStrays`, `RetryStrays`, `RefusedStrays`).
- **The stored run state is not "always the output of `derive_run_state`"**
  (src/conductor/db/repositories/runs.py:167-169), because claims and reaps do not refresh it.
  `RunColumn.StoredIsDerivedIff` says exactly when the two agree, and `Scenarios.StoredLags` shows a run stored as
  PENDING whose only task is running.
- **Eviction is safe with slack.** The limiter notes a key as seen before it refills the bucket, from separate
  readings of the clock. `RateLimits.EvictionUnobservableIff` gives the exact condition, which is the documented one
  (`idle_ttl * refill_rate >= capacity`) only if the two readings agree.
- **`retry_after`** is right exactly when the denied reading was not behind the bucket's last update
  (`TokenBuckets.AdviceHoldsIff`).
- **The exponent cap** of the backoff is meant only to keep a power finite. `Retry.ExponentCapInvisibleIff` says
  exactly when `compute_delay` comes out the same without it, and `Retry.CallerSeesNoCapIff` when `next_delay` does,
  which has a ceiling of its own; `Retry.ExponentCapShows` is a policy where it does not.
- **`describe` does not always round-trip** (src/conductor/core/retry.py:75-76): `Retry.DescribedIsBuiltIff` says that
  the stored form of `NoRetry`, and of no other policy, is refused by `build_policy`.
- A dependency listed twice passes the graph, which ignores repeated edges, and is then refused by the primary key of
  the edges — as a version conflict. `Workflows.Create` keeps that refusal under a name of its own.
- The cache's list is called circular; it is not: the outer links of its sentinels stay unset.

Predicates compared with `true` in contracts and invariants are kept folded so that proofs stay quick; it changes
nothing of what they say.

## Model

| member | source | states |
|---|---|---|
| RunTheorems.DeadlockFree | src/conductor/db/repositories/runs.py:103-117 | in every reachable run with no READY and no RUNNING row, every row is terminal, so no task is stuck PENDING; and conversely |
| RunInvariant.CreateKeeps | src/conductor/db/repositories/runs.py:78-123 | the run of an accepted workflow starts in the invariant with at least one READY row |
| RunTheorems.OrderingSafe | src/conductor/db/repositories/runs.py:519-552 | a READY, RUNNING, SUCCEEDED or DEAD_LETTER row has only SUCCEEDED ancestors; a PENDING row's counter is the positive number of its parents still to succeed |
| RunTheorems.FailurePropagatesExactly | src/conductor/db/repositories/runs.py:554-595 | in every reachable run the BLOCKED rows are exactly the strict descendants of the DEAD_LETTER rows |
| RunReports.LevelsBlockAllDescendants | src/conductor/db/repositories/runs.py:568-595 | the level-by-level loop, its early exit at a level that changes no row included, blocks every descendant not already blocked and nothing else |
| RunReports.LevelsOnlyBlock | src/conductor/db/repositories/runs.py:579-592 | on any tables the loop changes nothing of a row but its state, and that only from PENDING or READY to BLOCKED; such a child of the frontier it does not leave as it was |
| RunReports.DescendantsWait | src/conductor/db/repositories/runs.py:579-592 | below a RUNNING task every row is PENDING or BLOCKED, so the READY half of the filter never matches |
| RunReports.AncestorsSucceeded | src/conductor/db/repositories/runs.py:535-552 | a row released at any time has only SUCCEEDED ancestors, along every walk of edges |
| RunReports.FailureOutcome | src/conductor/db/repositories/runs.py:393-411 | for the holder a failure is terminal exactly when the budget is spent, and is then DEAD_LETTER, so FAILED is never stored; anyone else is refused |
| RunReports.SucceedKeeps | src/conductor/db/repositories/runs.py:350-384 | a success report keeps ordering, exact blocking, budgets, leases and the attempt log |
| RunReports.FailKeeps | src/conductor/db/repositories/runs.py:386-443 | a failure report, retried or terminal, keeps them too |
| RunReports.CancelKeeps | src/conductor/db/repositories/runs.py:185-205 | a cancellation keeps them and leaves nothing active |
| RunInvariant.ClaimKeepsCore | src/conductor/db/repositories/runs.py:259-314 | a claim that no constraint refuses keeps them |
| RunInvariant.ReapKeepsCore | src/conductor/db/repositories/runs.py:455-483 | expiry of any set of leases keeps them, closing exactly the attempts it orphans |
| RunInvariant.ReapKeepsLog | src/conductor/db/repositories/runs.py:476-482 | the log stays exact when leases expire |
| RunInvariant.RenewKeepsCore | src/conductor/db/repositories/runs.py:325-346 | a renewal keeps them |
| RunMachine.TraceKeeps | src/conductor/db/repositories/runs.py:164-595 | every sequence of steps keeps the whole invariant, the cached column included |
| RunMachine.StepMoves | src/conductor/db/repositories/runs.py:164-595 | the only changes any step ever makes to any row: for each pair of old and new state the whole new row, but for the claimer, the lease and the time of a retry |
| RunMachine.OnlyClaimsClaim | src/conductor/db/repositories/runs.py:325-595 | no step but a claim starts an attempt or gives a row to a worker |
| RunTheorems.LifecycleRefined | src/conductor/core/state.py:78-110 | every change of a stored state is an edge of the task table, or RUNNING to READY by way of RETRYING; READY to BLOCKED never happens |
| RunTheorems.TableIsTight | src/conductor/core/state.py:78-110 | between stored states the table has no edge that rows cannot take |
| RunTheorems.StoredRowsHonest | src/conductor/db/models.py:251-254 | worker and lease are set exactly while RUNNING; FAILED and RETRYING are never stored; DEAD_LETTER means the whole budget was spent |
| RunTheorems.AttemptLogTruthful | src/conductor/db/repositories/runs.py:487-517 | attempts are numbered exactly 1 to the row's counter, within budget; only the latest may be open, and only if RUNNING or CANCELLED; success and dead letter are recorded exactly on the latest attempt of such a row |
| RunTheorems.StepGrowsLog | src/conductor/db/repositories/runs.py:503-517 | no step drops an attempt, rewrites a closed one or changes the worker of any |
| RunTheorems.ClaimNeverConflicts | src/conductor/db/repositories/runs.py:292-322 | the unique constraint on attempts never fires for a claim |
| RunTheorems.CachedStateTellsTheEnd | src/conductor/db/repositories/runs.py:164-183 | the cached column is terminal exactly when every row is, and is then the derived state; SUCCEEDED means all succeeded, FAILED that some row was dead-lettered |
| RunTheorems.VerdictIsFinal | src/conductor/worker/worker.py:214-226 | after a terminal verdict no step changes any row or the verdict |
| Effects.SubmitOutcome | src/conductor/db/repositories/runs.py:96-123 | a new run has one row for each task, READY exactly if the task waits for nothing, with as many dependencies to go as it has parents, no attempt made, the budget of its policy, due at once and held by nobody; no other run changes |
| Effects.ClaimOutcome | src/conductor/db/repositories/runs.py:259-283 | a claim within budget makes exactly the chosen rows RUNNING for the claimer until the end of its lease, one attempt on; one over budget changes nothing |
| Effects.ClaimAttempts | src/conductor/db/repositories/runs.py:284-314 | each of those rows has one more attempt on record, open and the claimer's; no other attempt changes |
| Effects.RenewalOutcome | src/conductor/db/repositories/runs.py:325-346 | a renewal by the holder sets the end of the lease and changes nothing else in the system; any other changes nothing |
| Effects.SweepOutcome | src/conductor/db/repositories/runs.py:455-470 | a sweep changes exactly the rows RUNNING on a lease that ended before its clock reading; they are READY without worker or lease and otherwise as they were |
| Effects.SweepAttempts | src/conductor/db/repositories/runs.py:471-483 | the attempt such a row was on was open and is closed as FAILED; no other attempt changes |
| Effects.SuccessStep | src/conductor/db/repositories/runs.py:350-384 | the holder's success makes its row SUCCEEDED and its open attempt too; each PENDING child counts one dependency less and is READY if that was the last; no other row or attempt changes |
| Effects.RetryStep | src/conductor/db/repositories/runs.py:430-443 | a failure with attempts left makes the row READY and due at the clock reading plus the delay its policy gives for this attempt, closes the attempt as RETRYING and changes no other row or attempt |
| Effects.DeadLetterStep | src/conductor/db/repositories/runs.py:399-428 | a failure with none left makes the row DEAD_LETTER and its open attempt too, and BLOCKED exactly the PENDING rows below it; no other row or attempt changes |
| Effects.LostReportStep | src/conductor/worker/worker.py:214-230 | a report on a row its worker does not hold changes no row and no attempt |
| Effects.ReportOutcome | src/conductor/worker/worker.py:214-226 | a report is on the first ticket of its worker, uses it up, and touches no other run |
| Effects.CancelOutcome | src/conductor/db/repositories/runs.py:185-205 | a cancellation makes exactly the rows that have not ended CANCELLED, without worker or lease, and leaves the attempts as they were |
| Leases.HeldUntilFreed | src/conductor/db/repositories/runs.py:325-470 | in every system that occurs, an event takes a row from the worker that holds it exactly if it is that worker's report on it, a sweep past the end of its lease or the cancellation of its run; through any other the row stays as it is, but for the holder's renewals |
| Leases.LeaseProtects | src/conductor/db/repositories/runs.py:447-470 | over every legal sequence of events in which nobody cuts the lease short, a row stays with its worker, on the same attempt |
| Leases.RenewalProtects | src/conductor/db/repositories/runs.py:325-346 | so a renewal the holder was granted keeps its row through everything until the time it asked for |
| Leases.ReadyUntilTaken | src/conductor/db/repositories/runs.py:250-269 | an event changes a READY row exactly if it is a claim that takes it or the cancellation of its run |
| Leases.BackoffIsServed | src/conductor/db/repositories/runs.py:430-443 | over every legal sequence of events whose claims read clocks before the retry is due, and short of a cancellation, a retried row stays READY and due at the failure plus the delay of its policy; it is a candidate of exactly those claims that read that time or a later one and find it unlocked |
| Lifecycle.DeriveIsRollUp | src/conductor/core/state.py:156-192 | the ordered tests of the code give a roll-up that depends only on which states occur |
| Lifecycle.RollUpTerminal | src/conductor/core/state.py:156-192 | the roll-up is terminal exactly when every task is, is SUCCEEDED exactly when all succeeded, and is FAILED only with a failure or its fallout present |
| Lifecycle.RollUpWaitsOrCancelled | src/conductor/core/state.py:156-192 | it is PENDING exactly while every task is PENDING or READY, and CANCELLED exactly if every task is terminal and one was cancelled |
| Lifecycle.TerminalIsFinal | src/conductor/core/state.py:61-110 | the terminal states are those that are not active, and exactly those with no edge out |
| RunColumn.StoredIsDerivedIff | src/conductor/db/repositories/runs.py:164-183 | in every reachable run the stored state is the derived one exactly when it is terminal, or is PENDING for the very runs whose rows are all PENDING or READY |
| Scenarios.StoredLags | src/conductor/db/repositories/runs.py:219-283 | a system that occurs with a run stored as PENDING whose derived state is RUNNING |
| RunColumn.PendingShowsNothingEnded | src/conductor/core/state.py:172-176 | in every reachable run a stored PENDING means that no task has ended |
| RunColumn.ColumnLeavesTableIff | src/conductor/core/state.py:112-120 | for every step of every reachable run: it moves the column along no declared transition exactly in the four cases below |
| RunColumn.SuccessLeavesTableIff | src/conductor/core/state.py:112-120 | an accepted success moves the column along no declared transition exactly in a one-task run stored as PENDING |
| RunColumn.TerminalFailureLeavesTableIff | src/conductor/core/state.py:112-120 | an accepted failure on the last attempt does so exactly when the run is stored as PENDING and every other task lies below the one that failed |
| RunColumn.RetryLeavesTableIff | src/conductor/core/state.py:112-120 | an accepted failure that retries does so exactly when the column is RUNNING and no other task runs or has ended |
| RunColumn.RefusedLeavesTableIff | src/conductor/worker/worker.py:214-226 | a refused report does so exactly when the column is RUNNING and every row is PENDING or READY |
| RunColumn.CancelKeepsTable | src/conductor/db/repositories/runs.py:185-205 | a cancellation never does: it ends every run that has not ended as CANCELLED |
| Scenarios.SuccessStrays | src/conductor/core/state.py:112-120 | a system that occurs in which an accepted success takes a run from PENDING to SUCCEEDED |
| Scenarios.TerminalFailureStrays | src/conductor/core/state.py:112-120 | one in which an accepted failure takes a run from PENDING to FAILED |
| Scenarios.RetryStrays | src/conductor/core/state.py:112-120 | one in which a retry takes a run from RUNNING to PENDING, after the late report of a worker that had lost the task |
| Scenarios.RefusedStrays | src/conductor/worker/worker.py:214-226 | one in which the late report of a worker that lost the task is refused and takes its run from RUNNING to PENDING |
| RunMeasure.StepLowersMeasure | src/conductor/db/models.py:246 | every step that changes a state or starts an attempt strictly lowers a measure; no other step raises it |
| RunMeasure.ProgressIsBounded | src/conductor/db/repositories/runs.py:259-269 | over every run at most the sum of `2 * max_attempts + 2` steps change anything but leases and counters |
| RunMeasure.ClaimsAreAttempts | src/conductor/db/repositories/runs.py:259-269 | a row's counter is the number of claims of it over any sequence of steps |
| RunMeasure.ClaimedAtMostBudget | src/conductor/core/retry.py:36-39 | no task is handed out more often than its retry policy allows |
| Stranding.ReapedIsClaimableIff | src/conductor/db/repositories/runs.py:455-470 | a reaped row can be claimed again exactly when attempts are left |
| Stranding.StrandedForever | src/conductor/db/models.py:246 | once stranded, a row never changes and its run never ends, whatever happens short of a cancellation |
| Stranding.StrandingHappens | src/conductor/db/repositories/runs.py:455-470 | a reachable run with a stranded row exists |
| Endings.CanFinishIff | src/conductor/worker/worker.py:168-226 | in every system that occurs, a run has a legal continuation without its cancellation to a terminal state exactly when each of its rows that has spent its attempts, and is READY or RUNNING, is RUNNING for a worker that still has its ticket |
| Endings.LostForever | src/conductor/db/repositories/runs.py:447-470 | a run with such a row that nobody has a ticket for never ends, whatever anyone does short of cancelling it |
| Endings.WayToEnd | src/conductor/db/repositories/runs.py:219-384 | from any system without such a row in the run, reports on tickets in hand, sweeps, and claims by new workers lead to its end |
| Endings.EventKeepsLost | src/conductor/db/repositories/runs.py:361-384 | no event but its cancellation gives such a row a holder with a ticket, or ends it |
| Scenarios.LostWhileRunning | src/conductor/worker/worker.py:155-164 | a system that occurs where a row on its last attempt is RUNNING for a worker that is gone |
| Protocol.EveryRunIsReachable | src/conductor/db/repositories/runs.py:208-216 | whatever workers, reapers and clients do, each run of the system is a reachable run of the machine, so all of the above holds of it |
| Protocol.AcceptedReportIsForItsAttempt | src/conductor/db/repositories/runs.py:361-384 | an accepted report is for the very attempt its worker claimed: the row's latest, still open, recorded for that worker |
| Protocol.ReportAcceptedIff | src/conductor/worker/worker.py:206-230 | a report is accepted exactly when its attempt is still open and the task was not cancelled |
| Protocol.AcceptedReportCloses | src/conductor/db/repositories/runs.py:487-517 | an accepted report closes its attempt, so no attempt is accepted twice |
| Protocol.EventKeepsFenced | src/conductor/db/repositories/runs.py:284-314 | every event, a claim by a drained worker included, keeps every ticket on an attempt recorded for its worker, and on the attempt of the row while that worker holds it |
| ClaimQueue.TicketsAreStarted | src/conductor/db/repositories/runs.py:284-314 | the tickets of a claim that gets through are exactly the attempts it starts, each recorded for its worker |
| Protocol.GuardCannotTellAttempts | src/conductor/db/repositories/runs.py:361-368 | a reachable run where the guard would take a report on one attempt for another, were batches not drained |
| ClaimQueue.ClaimCanSucceedIff | src/conductor/db/repositories/runs.py:250-278 | some selection the query may return is within budget exactly when the candidates within budget that no candidate over budget comes before are as many as the claim takes |
| ClaimQueue.ClaimCanFailIff | src/conductor/db/repositories/runs.py:250-278 | some selection is over budget exactly when the claim takes more rows than come before some candidate over budget |
| ClaimQueue.SpentHeadStopsTheQueue | src/conductor/db/repositories/runs.py:250-278 | with an unlocked row over budget before every candidate within budget, every claim fails and changes nothing |
| Scenarios.QueueCanStand | src/conductor/db/repositories/runs.py:455-470 | a system that occurs, with a stranded task and another, submitted later, that is within budget |
| Scenarios.StandingStill | src/conductor/db/repositories/runs.py:250-278 | in every system of that kind, once both tasks are due, every claim fails that does not skip the stranded row as locked, and one that skips it hands out the other task |
| ClaimQueue.TakeFirst | src/conductor/db/repositories/runs.py:250-257 | from any set of rows the first so many can be taken, whatever the ties |
| Protocol.SelectionIff | src/conductor/db/repositories/runs.py:250-257 | a claim takes READY, due, unlocked rows, at most the limit; and if any such row is left out, it takes the limit, each row of higher priority than that one, or of the same and due no later |
| Database.Select | src/conductor/db/repositories/runs.py:250-257 | the claim query returns READY, due, unlocked rows, at most the limit; if it leaves one out it returns the limit, each of higher priority, or of the same and due no later |
| Database.Tables.CreateRun | src/conductor/db/repositories/runs.py:78-123 | inserts exactly the specified run, or the error and no change |
| Database.Tables.RefreshRunState | src/conductor/db/repositories/runs.py:164-183 | stores and returns the roll-up of the rows, in whatever order they are read |
| Database.Tables.Cancel | src/conductor/db/repositories/runs.py:185-205 | is the machine's cancellation, and counts the rows it cancelled |
| Database.Tables.ClaimBatch | src/conductor/db/repositories/runs.py:219-323 | claims all of such a selection or nothing: the rows are RUNNING for the worker until the end of its lease, one attempt on, with a ticket for each attempt started; fails exactly over budget or on a recorded attempt |
| Database.Tables.RenewLease | src/conductor/db/repositories/runs.py:325-346 | for the holder of a RUNNING row sets the end of its lease and nothing else and says so; for anyone else changes nothing |
| Database.Tables.RecordSuccess | src/conductor/db/repositories/runs.py:350-384 | accepts exactly the holder's report and applies the three updates, else changes nothing |
| Database.Tables.RecordFailure | src/conductor/db/repositories/runs.py:386-443 | the resulting state in each of the four outcomes, and the tables; a retried row is READY and due at the clock reading plus the delay of its policy; without the row or the worker nothing changes |
| Database.Tables.ReapExpiredLeases | src/conductor/db/repositories/runs.py:447-483 | exactly the rows RUNNING on a lease that has ended are READY without worker or lease, every run is reaped, and the count is that of those rows |
| Database.Tables.CloseAttempt | src/conductor/db/repositories/runs.py:487-517 | stamps that attempt if it is open, and no other |
| Database.Tables.UnblockChildren | src/conductor/db/repositories/runs.py:519-552 | of the PENDING children, those with more than one dependency missing have one less and the others are READY with none; no other row, run or column changes |
| Database.Tables.BlockDescendants | src/conductor/db/repositories/runs.py:554-595 | the loop computes the level-by-level walk of the specification |
| Workers.Worker.RunOnce | src/conductor/worker/worker.py:168-182 | behaves as the protocol allows, claims a selection of as many candidates as the limit allows, or without one the configured batch size, ends with nothing in hand, and can fail only over budget; each task is counted by whether its worker held the row at the moment of its report, and a result known to be lost writes nothing |
| Workers.Worker.Execute | src/conductor/worker/worker.py:184-236 | one ticket becomes exactly one report or discard of the protocol; a result known to be lost leaves the tables as they are, any other is one report, accepted exactly when the worker still holds the row at that moment, and counted accordingly |
| Workers.Worker.Drain | src/conductor/worker/worker.py:180-182 | the batch is worked off first to last, each ticket counted once, as a success or failure exactly if its result was not known to be lost and its row was held at the moment of its report |
| Workers.Worker.Report | src/conductor/worker/worker.py:214-226 | report and refresh make one step of the machine, accepted exactly as the guards say |
| Workers.NeverDuplicated | src/conductor/db/repositories/runs.py:319-322 | in no state of the system can a claim meet a recorded attempt |
| Workflows.Create | src/conductor/db/repositories/workflows.py:33-102 | publishes exactly the well-formed acyclic submissions, with the edges, policies and priorities asked for; otherwise names a fault that is there, of the first check that fails, in the order no task, repeated keys, the tasks themselves, cycles, repeated dependencies |
| Workflows.Store | src/conductor/db/repositories/workflows.py:71-93 | what is stored for a publishable submission is its definitions and its edges, and runs can be made of it |
| Workflows.CheckGraph | src/conductor/db/repositories/workflows.py:62-64 | refuses exactly the cyclic submissions, with a cycle of the requested edges; the order found for any other has each task after its dependencies, by the place of the last of them and then as submitted |
| Workflows.CheckSpecs | src/conductor/db/repositories/workflows.py:53-60 | refuses exactly unknown dependencies and bad retry policies, with the fault of the first task that has one: all its unknown dependencies, or else its policy |
| Workflows.Duplicates | src/conductor/db/repositories/workflows.py:48-51 | exactly the keys given more than once; none exactly when all are distinct |
| Workflows.ReadDependencies | src/conductor/db/repositories/workflows.py:121-141 | reads every task back with exactly its parents, none twice, so a list's length is the counter a fresh run starts with |
| Dags.Dag.AddNode | src/conductor/core/dag.py:68-71 | idempotent; a new node comes last and without edges |
| Dags.Dag.AddEdge | src/conductor/core/dag.py:73-88 | adds exactly one edge or nothing, with the error for an unknown end or a self-loop; a new child comes last in its parent's list and the parent last in its child's, a repeated edge and all other lists stay as they are |
| Dags.Dag.FromDependencies | src/conductor/core/dag.py:90-103 | builds exactly the listed edges, the children of each node being the keys that list it in the order of the keys, or fails exactly when an edge is improper, with the error of the first improper one in iteration order |
| Dags.Dag.TopologicalOrder | src/conductor/core/dag.py:152-173 | succeeds exactly on acyclic graphs, with the one permutation that puts each node after its parents and otherwise ranks nodes by the place of their last parent, and those freed together as declared; otherwise the error is a cycle of real edges |
| Dags.FirstComeIsRanked | src/conductor/core/dag.py:157-168 | serving a queue first come, first served ranks the nodes by the place of their last parent and then as declared |
| Dags.OneDeclaredOrder | src/conductor/core/dag.py:53-55 | the declarations leave one such order only, so orderings are deterministic |
| Dags.DeclaredIsKeyOrder | src/conductor/core/dag.py:90-103 | for a graph built from dependencies, nodes freed together stand in the order of the keys |
| Dags.Settle | src/conductor/core/dag.py:165-168 | the counters stay the numbers of parents not yet out, and the nodes that join the queue are those with none, in declaration order |
| Dags.Dag.FindCycle | src/conductor/core/dag.py:182-217 | on every graph with a cycle ends with a closed walk of real edges, nodes distinct but for the ends; the final assertion is unreachable |
| Dags.KahnEnds | src/conductor/core/dag.py:162-173 | nodes left over mean a cycle, none left over a topological order |
| Dags.LeftoverHasCycle | src/conductor/core/dag.py:170-172 | a node never queued lies above a cycle |
| Dags.AllFinishedIsAcyclic | src/conductor/core/dag.py:191-217 | a search that finishes every node without a back edge proves the graph acyclic |
| Dags.BackEdgeClosesCycle | src/conductor/core/dag.py:204-207 | the path from the grey child onward, with the child again, is a cycle |
| Graphs.AcyclicIffOrdered | src/conductor/core/dag.py:152-156 | a graph has a topological order exactly when it has no cycle |
| Graphs.AcyclicIffNoneStuck | src/conductor/core/dag.py:170-172 | a graph has no cycle exactly when no nodes all wait for one another |
| DagCursors.DagCursor.Create | src/conductor/core/dag.py:230-236 | raises, with a cycle, exactly on a cyclic definition |
| DagCursors.DagCursor.Ready | src/conductor/core/dag.py:238-244 | exactly the tasks with every parent succeeded that neither succeeded nor failed, in insertion order |
| DagCursors.DagCursor.Succeed | src/conductor/core/dag.py:246-266 | repeated: nothing; blocked: refused; otherwise recorded, an earlier failure forgotten, returning exactly the children whose other parents had all succeeded, once each, in the order of the parent's list |
| DagCursors.UnblockedInKeyOrder | src/conductor/core/dag.py:90-103 | for a graph built from dependencies those are, in the order of the keys, the ones that list the task and whose other dependencies have succeeded |
| DagCursors.DagCursor.Fail | src/conductor/core/dag.py:268-272 | adds a known task to the failed ones and touches no success; refuses an unknown one |
| DagCursors.DagCursor.Blocked | src/conductor/core/dag.py:282-294 | exactly the strict descendants of the failed tasks, each once, in insertion order |
| DagCursors.LowerCounters | src/conductor/core/dag.py:259-266 | counters become the numbers of parents still missing, and those that reach zero are returned |
| DagCursors.Spread | src/conductor/core/dag.py:286-293 | the queue meets exactly the strict descendants |
| CursorSimulation.RowsMirrorCursor | src/conductor/db/models.py:218-220 | in every reachable run PENDING rows count what the cursor counts, BLOCKED rows are its blocked tasks, and until a cancellation READY and RUNNING rows are its ready tasks |
| CursorSimulation.FreshProgress | src/conductor/db/repositories/runs.py:103-117 | a fresh run is a fresh cursor |
| CursorSimulation.SuccessIsMarkSucceeded | src/conductor/db/repositories/runs.py:532-552 | an accepted success is `mark_succeeded`, never refused, and moves to READY exactly the tasks that returns |
| CursorSimulation.FailureIsMarkFailed | src/conductor/db/repositories/runs.py:396-428 | a failure on the last attempt is `mark_failed`, any other report of failure changes nothing for the cursor |
| CursorSimulation.OtherStepsAreSilent | src/conductor/db/repositories/runs.py:185-205 | claims, renewals, reaps and cancellations are invisible to it |
| Retry.NextDelayOutcome | src/conductor/core/retry.py:52-61 | which of the three outcomes an attempt number gives, and bounds on every delay whatever is drawn |
| Retry.NextDelayExactly | src/conductor/core/retry.py:52-61 | the delay itself: nothing from the last attempt on, a fixed delay as stated, an exponential one grown once per attempt up to 64 times and to its ceiling, or the draw below that; never over a day |
| Retry.BackoffNeverShrinks | src/conductor/core/retry.py:144-149 | without jitter a later attempt waits no less |
| Retry.ExponentCapInvisibleIff | src/conductor/core/retry.py:155-160 | exactly when capping the exponent leaves the computed delay, or the interval that jitter draws from, as it would be |
| Retry.CallerSeesNoCapIff | src/conductor/core/retry.py:52-61 | exactly when it leaves what the caller is told as it would be, whatever is drawn |
| Retry.ExponentCapShows | src/conductor/core/retry.py:155-160 | a policy and an attempt where the cap shortens the delay by more than 43 seconds, with jitter and without |
| Retry.BuiltIff | src/conductor/core/retry.py:185-208 | a stored form builds exactly the valid policy of its name, in any case, with every stated option at its value and every other at its default, and none stated that it lacks |
| Retry.RefusedBecause | src/conductor/core/retry.py:195-208 | each of the three errors, exactly: no policy of that name, an option its policies lack, or a policy described that is not valid |
| Retry.BuiltOutcome | src/conductor/core/retry.py:198-208 | each option of the policy built: the stated value, `max_attempts` before `attempts`, or its default; and none was stated that the policy lacks |
| Retry.KindNamed | src/conductor/core/retry.py:195-198 | the three names, in any mixture of cases, and no other; without a name it is the exponential policy |
| Retry.DefaultPolicy | src/conductor/core/retry.py:192-195 | with no stored form the policy is the exponential one with its defaults, as with a form that states nothing |
| Retry.DescribedIsBuiltIff | src/conductor/core/retry.py:72-82 | the stored form of a valid policy builds that policy exactly when it is not `NoRetry`, whose stored form is refused |
| DelayQueues.DelayQueue.Push | src/conductor/core/heap.py:67-78 | the map from key to entry gains or replaces exactly this key; heap order and the exact index are kept |
| DelayQueues.DelayQueue.Peek | src/conductor/core/heap.py:80-82 | an entry no later than any other; none exactly on an empty queue |
| DelayQueues.DelayQueue.Pop | src/conductor/core/heap.py:84-88 | removes and returns an entry no later than any other; fails exactly on an empty queue |
| DelayQueues.DelayQueue.Cancel | src/conductor/core/heap.py:90-95 | removes exactly this key and returns its entry, if there is one |
| DelayQueues.DelayQueue.PopDue | src/conductor/core/heap.py:97-109 | drains due entries in order, never above the limit, none after one left behind; untouched entries stay, and nothing due is left below the limit |
| DelayQueues.DelayQueue.SecondsUntilNext | src/conductor/core/heap.py:111-120 | at any later moment something is due exactly when this long has passed; None exactly when nothing is scheduled |
| DelayQueues.DelayQueue.Replace | src/conductor/core/heap.py:124-130 | up then down from the same slot restores order after any change of due time |
| DelayQueues.DelayQueue.RemoveAt | src/conductor/core/heap.py:132-142 | removes exactly that entry; the last slot moved into the hole is put in place |
| DelayQueues.DelayQueue.Swap | src/conductor/core/heap.py:144-147 | exchanges two slots and keeps the index exact |
| DelayQueues.DelayQueue.SiftUp | src/conductor/core/heap.py:149-155 | leaves only the children of the starting slot possibly out of order, and the schedule unchanged |
| DelayQueues.DelayQueue.SiftDown | src/conductor/core/heap.py:157-170 | restores order below a slot, and the schedule unchanged |
| DelayQueues.SwapUp | src/conductor/core/heap.py:149-155 | one step up moves the disorder to the parent |
| DelayQueues.SwapDown | src/conductor/core/heap.py:157-170 | one step down, to the child due first, moves the disorder there |
| DelayQueues.RootIsFirst | src/conductor/core/heap.py:80-82 | the root of an ordered heap is due no later than any slot |
| DelayQueues.FilledIndexed | src/conductor/core/heap.py:132-140 | filling the hole keeps the index the exact inverse of the slots |
| LruLists.CapacityInclusion | src/conductor/core/lru.py:76-131 | on the same operations a larger cache holds every key a smaller one holds, never has fewer hits, and counts as many lookups |
| LruLists.RunNarrower | src/conductor/core/lru.py:76-131 | one more slot: the recency lists agree but for at most one key |
| LruLists.EvictsLeastRecentlyUsed | src/conductor/core/lru.py:171-176 | after any operations the cached key a put evicts is the one used longest ago |
| LruLists.RunByLastUse | src/conductor/core/lru.py:34-40 | the list is always in the order of last use |
| LruLists.RunWellFormed | src/conductor/core/lru.py:85-102 | no key twice and never more entries than the capacity |
| LruLists.PutOutcome | src/conductor/core/lru.py:85-102 | a put sets its own key and puts it first, takes away exactly the evicted key and leaves every other entry, capacity zero included; it counts as neither hit nor miss |
| LruLists.LookupOutcome | src/conductor/core/lru.py:76-118 | a get or load is a hit exactly if the key is cached; a hit puts its entry first and loses none, a miss changes no entry but for the put of a loaded value; each is counted |
| LruLists.RemovalOutcome | src/conductor/core/lru.py:120-131 | an invalidation takes away exactly the entry of its key, clearing every entry; neither counts |
| LruCaches.LruCache.Create | src/conductor/core/lru.py:45-56 | refuses exactly a negative capacity; starts empty |
| LruCaches.LruCache.Get | src/conductor/core/lru.py:76-83 | acts as on the list; returns the cached value or the fallback |
| LruCaches.LruCache.Put | src/conductor/core/lru.py:85-102 | acts as on the list and returns the key that was evicted |
| LruCaches.LruCache.GetOrLoad | src/conductor/core/lru.py:104-118 | acts as on the list, a loader that raises included |
| LruCaches.LruCache.Invalidate | src/conductor/core/lru.py:120-126 | drops the key and says whether it was there |
| LruCaches.LruCache.Clear | src/conductor/core/lru.py:128-131 | empties the list and keeps the counters |
| LruCaches.LruCache.Contains | src/conductor/core/lru.py:63-65 | membership, without counting as a use |
| LruCaches.LruCache.Size | src/conductor/core/lru.py:60-61 | the number of cached entries |
| LruCaches.LruCache.Keys | src/conductor/core/lru.py:67-72 | following the links gives the keys from most to least recently used |
| LruCaches.LruCache.PushFront | src/conductor/core/lru.py:151-157 | the links go back and forth along the list with the node in front |
| LruCaches.LruCache.Unlink | src/conductor/core/lru.py:159-163 | the links go back and forth along the list without the node |
| LruCaches.LruCache.MoveToFront | src/conductor/core/lru.py:165-169 | the node's entry becomes the most recent and nothing else moves |
| LruCaches.LruCache.Evict | src/conductor/core/lru.py:171-176 | takes out the last entry, from the list and from the map |
| TokenBuckets.WindowBound | src/conductor/core/ratelimit.py:70-91 | over any window of calls, after any history and with any clock, granted cost is at most the capacity plus what accrues over the window |
| TokenBuckets.Budget | src/conductor/core/ratelimit.py:70-91 | what was granted and what is left never exceed what was there and what accrued; tokens stay within the capacity |
| TokenBuckets.BackwardGrantsNothing | src/conductor/core/ratelimit.py:70-76 | readings behind the last update hand out nothing beyond what the bucket held |
| TokenBuckets.DecisionOutcome | src/conductor/core/ratelimit.py:70-91 | a decision is about the tokens held plus what accrued, up to the capacity: it allows exactly what they pay for, leaves the rest, reports the whole tokens left, and on a denial the time in which the deficit accrues |
| TokenBuckets.RetryAfterIsExact | src/conductor/core/ratelimit.py:78-91 | after a denial the same cost is granted exactly from `retry_after` past the last update |
| TokenBuckets.AdviceHoldsIff | src/conductor/core/ratelimit.py:90-91 | waiting `retry_after` from the denied reading is enough exactly when that reading was not behind the last update |
| RateLimits.EvictionUnobservableIff | src/conductor/core/ratelimit.py:100-139 | on a monotone clock no schedule of checks and evictions shows that the limiter evicts exactly when a bucket refills completely in the idle time less the gap between the readings |
| RateLimits.SameAnswers | src/conductor/core/ratelimit.py:124-139 | with that condition an evicting limiter and one that never evicts give the same answers from any matching states |
| RateLimits.TelltaleTells | src/conductor/core/ratelimit.py:124-139 | without it three calls tell the two apart |
| RateLimits.CheckKeepsPaired | src/conductor/core/ratelimit.py:124-130 | a check answers alike on both and keeps them matching, refused costs included |
| RateLimits.CheckOutcome | src/conductor/core/ratelimit.py:124-130 | a check touches its own key only, notes it as seen whatever the answer, refuses costs no bucket could pay, and lets the bucket decide the rest, a full one for a new key |
| RateLimits.EvictKeepsPaired | src/conductor/core/ratelimit.py:132-139 | what an eviction drops is full in the other limiter |
| RateLimiters.TokenBucket.Create | src/conductor/core/ratelimit.py:57-68 | refuses exactly a capacity under one or a rate that is not positive; starts full |
| RateLimiters.TokenBucket.Refill | src/conductor/core/ratelimit.py:70-76 | is the refill of the specification |
| RateLimiters.TokenBucket.TryAcquire | src/conductor/core/ratelimit.py:78-91 | is the charge of the specification; a refused cost leaves the bucket as it was |
| RateLimiters.TokenBucket.Tokens | src/conductor/core/ratelimit.py:93-96 | refills, and tells what is then there |
| RateLimiters.RateLimiter.Check | src/conductor/core/ratelimit.py:124-130 | is the check of the specification, on buckets no two keys share |
| RateLimiters.RateLimiter.EvictIdle | src/conductor/core/ratelimit.py:132-139 | drops exactly the keys last seen before the idle time, keeps the buckets of all others and counts what it dropped |
| Keysets.WalkIsExact | src/conductor/db/repositories/runs.py:133-162 | following cursors to the end, with any change of the table between pages: strictly descending, only rows that matched in the table their page was fetched from, and every row there and matching at every fetch |
| Keysets.WalkDescends | src/conductor/db/repositories/runs.py:140-157 | no row comes twice, ties in creation time included |
| Keysets.WalkMissesNothing | src/conductor/db/repositories/workflows.py:143-165 | a row that is there at every fetch is returned |
| Keysets.PageIsExact | src/conductor/db/repositories/workflows.py:159-165 | what a page leaves out lies past its cursor; a page with a cursor is full and has a successor |
| Keysets.AnswerExists | src/conductor/db/repositories/runs.py:140-158 | the query has such an answer on every table with a key |

## Left out

- PostgreSQL itself: locking, isolation levels, indexes, migrations, the ORM session.
- The `version`, `started_at`, `finished_at`, `last_error`, `output` and `duration_ms` columns: written and never read
  by the protocol.
- Executors, threads and heartbeat timing: an execution is an outcome and a flag saying whether the lease was seen
  lost; a renewal may come at any time or never.
- HTTP routes, schemas, settings, problem documents, idempotency keys, workflow versions, worker registration,
  statistics.
- The encoding of cursors: a cursor is the position itself.
- Floats: times, tokens and delays are reals. `Decision.headers` rounds by adding 0.999 and is not modelled.
- The type errors `build_policy` raises on values of the wrong type.
- The hit rate of the cache: `CapacityInclusion` gives what it is computed from.
- The idle loop around `run_once`.
- Workers.Interlude: changes nothing itself; its contract is what the worker may rely on between transactions, so the
  worker is proved against every legal behaviour of the others.
- LruCaches.LruCache.GetOrLoad: the loader is a function of the key; one that touches the cache while it loads is not
  modelled.
- Keysets.WalkIsExact: a row that matches a state filter at some fetches and not at others may be returned or not.
