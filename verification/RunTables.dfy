/** The rows of one run, and what each committed statement does to them.
    A row belongs to exactly one run and (run, task) is unique, so the tables are kept one run at a time:
    `rows` is the run's slice of `task_runs`, `attempts` its slice of `task_attempts`, `parents` the
    dependency edges among its tasks, and `state` the cached column of `workflow_runs`. */
module RunTables {
  import opened Wrappers
  import opened Lifecycle
  import opened Retry
  import opened Graphs

  type TaskId = nat
  type WorkerId = nat
  type Time = real

  datatype TaskDef = TaskDef(policy: RetryPolicy, priority: int)

  datatype TaskRun = TaskRun(
    task: TaskDef, state: TaskState, pendingDeps: nat, attempt: nat, maxAttempts: int,
    scheduledAt: Time, lease: Option<Time>, worker: Option<WorkerId>)
  {
    function Released(s: TaskState): TaskRun {
      this.(state := s, lease := None, worker := None)
    }

    predicate Exhausted() {
      attempt >= maxAttempts
    }
  }

  /** UNIQUE (task_run_id, attempt): the pair is the key. */
  datatype AttemptKey = AttemptKey(task: TaskId, number: nat)

  datatype Attempt = Attempt(worker: WorkerId, state: TaskState, finished: bool)

  type Rows = map<TaskId, TaskRun>
  type Attempts = map<AttemptKey, Attempt>

  datatype Run = Run(parents: Graph<TaskId>, rows: Rows, attempts: Attempts, state: RunState)

  // ---- creation ----------------------------------------------------------

  datatype CreateError = NoTasks

  function NewRow(task: TaskDef, unmet: nat, now: Time): TaskRun {
    TaskRun(task, if unmet == 0 then Ready else Pending, unmet, 0, task.policy.MaxAttempts(), now, None, None)
  }

  /** A task without an entry waits for nothing. */
  function UnmetAtStart(parents: Graph<TaskId>, t: TaskId): nat {
    if t in parents then |parents[t]| else 0
  }

  function CreateRun(tasks: map<TaskId, TaskDef>, parents: Graph<TaskId>, now: Time): Result<Run, CreateError> {
    if tasks == map[] then Failure(NoTasks)
    else
      var rows := map t | t in tasks :: NewRow(tasks[t], UnmetAtStart(parents, t), now);
      Success(Run(parents, rows, map[], RunPending))
  }

  // ---- the cached run state, and cancellation ----------------------------

  function StateSet(rows: Rows): set<TaskState> {
    set t | t in rows :: rows[t].state
  }

  function Refresh(run: Run): Run {
    run.(state := RollUp(StateSet(run.rows)))
  }

  function CancelRows(rows: Rows): Rows {
    map t | t in rows :: if rows[t].state.IsActive() then rows[t].Released(Cancelled) else rows[t]
  }

  function CancelRun(run: Run): Run {
    Refresh(run.(rows := CancelRows(run.rows)))
  }

  // ---- claiming and renewing ----------------------------------------------

  function ClaimRow(row: TaskRun, w: WorkerId, until: Time): TaskRun {
    row.(state := Running, worker := Some(w), lease := Some(until), attempt := row.attempt + 1)
  }

  /** The attempts a claim starts: one past the counter of each chosen row. */
  function StartedKeys(rows: Rows, chosen: set<TaskId>): (keys: set<AttemptKey>)
    ensures forall k :: k in keys <==> k.task in chosen && k.task in rows && k.number == rows[k.task].attempt + 1
  {
    var keys := set t | t in chosen && t in rows :: AttemptKey(t, rows[t].attempt + 1);
    assert forall k: AttemptKey :: k.task in chosen && k.task in rows && k.number == rows[k.task].attempt + 1 ==>
                         k == AttemptKey(k.task, rows[k.task].attempt + 1);
    keys
  }

  function OpenedAttempts(rows: Rows, chosen: set<TaskId>, w: WorkerId): Attempts {
    map k | k in StartedKeys(rows, chosen) :: Attempt(w, Running, false)
  }

  /** The claim of `chosen` within this run, once none of the constraints has refused it. */
  function ClaimRows(run: Run, chosen: set<TaskId>, w: WorkerId, until: Time): Run {
    run.(rows := map t | t in run.rows :: if t in chosen then ClaimRow(run.rows[t], w, until) else run.rows[t],
         attempts := run.attempts + OpenedAttempts(run.rows, chosen, w))
  }

  predicate Holds(run: Run, t: TaskId, w: WorkerId) {
    t in run.rows && run.rows[t].worker == Some(w) && run.rows[t].state.Running?
  }

  function RenewTask(run: Run, t: TaskId, w: WorkerId, until: Time): Run {
    if Holds(run, t, w) then run.(rows := run.rows[t := run.rows[t].(lease := Some(until))]) else run
  }

  // ---- success -----------------------------------------------------------

  /** Only an attempt row that is still open is stamped. */
  function CloseAttempt(attempts: Attempts, t: TaskId, number: nat, s: TaskState): Attempts {
    var k := AttemptKey(t, number);
    if k in attempts && !attempts[k].finished then attempts[k := attempts[k].(state := s, finished := true)]
    else attempts
  }

  /** First statement of unblocking: count one dependency of every waiting child as met. */
  function Decrement(parents: Graph<TaskId>, rows: Rows, t: TaskId): Rows {
    map c | c in rows ::
      if Edge(parents, t, c) && rows[c].state.Pending? && rows[c].pendingDeps > 0
      then rows[c].(pendingDeps := rows[c].pendingDeps - 1) else rows[c]
  }

  /** Second statement: release the waiting children left with nothing to wait for. */
  function Release(parents: Graph<TaskId>, rows: Rows, t: TaskId): Rows {
    map c | c in rows ::
      if Edge(parents, t, c) && rows[c].state.Pending? && rows[c].pendingDeps == 0
      then rows[c].(state := Ready) else rows[c]
  }

  function SucceedTask(run: Run, t: TaskId, w: WorkerId): Run {
    if !Holds(run, t, w) then run
    else
      var row := run.rows[t];
      var rows := run.rows[t := row.Released(Succeeded)];
      run.(rows := Release(run.parents, Decrement(run.parents, rows, t), t),
           attempts := CloseAttempt(run.attempts, t, row.attempt, Succeeded))
  }

  // ---- failure -----------------------------------------------------------

  function Children(parents: Graph<TaskId>, frontier: set<TaskId>): set<TaskId> {
    set c | c in parents && parents[c] * frontier != {}
  }

  function Blockable(rows: Rows): set<TaskId> {
    set t | t in rows && (rows[t].state.Pending? || rows[t].state.Ready?)
  }

  function BlockRows(rows: Rows, hit: set<TaskId>): Rows {
    map t | t in rows :: if t in hit then rows[t].(state := Blocked) else rows[t]
  }

  lemma BlockingShrinks(rows: Rows, hit: set<TaskId>)
    requires hit <= Blockable(rows) && hit != {}
    ensures |Blockable(BlockRows(rows, hit))| < |Blockable(rows)|
  {
    assert Blockable(BlockRows(rows, hit)) == Blockable(rows) - hit;
  }

  /** The level-by-level walk: it stops at a level without children, or at one where no row changed. */
  function BlockLevels(parents: Graph<TaskId>, rows: Rows, frontier: set<TaskId>): Rows
    decreases |Blockable(rows)|
  {
    var children := Children(parents, frontier);
    var hit := children * Blockable(rows);
    if hit == {} then rows
    else
      BlockingShrinks(rows, hit);
      BlockLevels(parents, BlockRows(rows, hit), children)
  }

  /** The three ways a failure report ends for a holder; None when the lease was already lost. */
  function FailureState(run: Run, t: TaskId, w: WorkerId, draw: real): Option<TaskState> {
    if t !in run.rows || run.rows[t].worker != Some(w) then None
    else
      match NextDelayOf(run.rows[t].task.policy, run.rows[t].attempt, draw)
      case AttemptNotPositive => None
      case Exhausted => Some(if run.rows[t].Exhausted() then DeadLetter else Failed)
      case After(_) => Some(Retrying)
  }

  function FailTask(run: Run, t: TaskId, w: WorkerId, now: Time, draw: real): Run {
    match FailureState(run, t, w, draw)
    case None => run
    case Some(outcome) =>
      var row := run.rows[t];
      if outcome == Retrying then
        var delay := NextDelayOf(row.task.policy, row.attempt, draw).seconds;
        run.(rows := run.rows[t := row.Released(Ready).(scheduledAt := now + delay)],
             attempts := CloseAttempt(run.attempts, t, row.attempt, Retrying))
      else
        run.(rows := BlockLevels(run.parents, run.rows[t := row.Released(outcome)], {t}),
             attempts := CloseAttempt(run.attempts, t, row.attempt, outcome))
  }

  // ---- lease expiry ------------------------------------------------------

  predicate Expired(row: TaskRun, now: Time) {
    row.state.Running? && row.lease.Some? && row.lease.value < now
  }

  function ReapRun(run: Run, now: Time): Run {
    run.(rows := map t | t in run.rows ::
           if Expired(run.rows[t], now) then run.rows[t].Released(Ready) else run.rows[t],
         attempts := map k | k in run.attempts ::
           if && k.task in run.rows && Expired(run.rows[k.task], now)
              && k.number == run.rows[k.task].attempt && !run.attempts[k].finished
           then run.attempts[k].(state := Failed, finished := true) else run.attempts[k])
  }
}
