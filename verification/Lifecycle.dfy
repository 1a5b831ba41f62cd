/** Task and run states, the table of legal task transitions, and the roll-up of task states into a run state. */
module Lifecycle {

  datatype TaskState =
    | Pending
    | Ready
    | Running
    | Succeeded
    | Retrying
    | Failed
    | DeadLetter
    | Blocked
    | Cancelled
  {
    predicate IsTerminal() {
      Succeeded? || Failed? || DeadLetter? || Blocked? || Cancelled?
    }

    predicate IsActive() {
      Pending? || Ready? || Running? || Retrying?
    }
  }

  datatype RunState = RunPending | RunRunning | RunSucceeded | RunFailed | RunCancelled
  {
    predicate IsTerminal() {
      RunSucceeded? || RunFailed? || RunCancelled?
    }
  }

  /** The edges of the task state machine. */
  function TaskTransitions(from: TaskState): set<TaskState> {
    match from
    case Pending => {Ready, Blocked, Cancelled}
    case Ready => {Running, Cancelled}
    case Running => {Succeeded, Retrying, Failed, DeadLetter, Cancelled}
    case Retrying => {Ready, Failed, DeadLetter, Cancelled}
    case _ => {}
  }

  /** The edges the run state machine declares. */
  function RunTransitions(from: RunState): set<RunState> {
    match from
    case RunPending => {RunRunning, RunCancelled}
    case RunRunning => {RunSucceeded, RunFailed, RunCancelled}
    case _ => {}
  }

  predicate CanTransition(from: TaskState, to: TaskState) {
    to in TaskTransitions(from)
  }

  /** One row change as the tables see it. A retry and a reaped lease write READY directly, passing
      through RETRYING without storing it. */
  predicate StoredTransition(from: TaskState, to: TaskState) {
    || CanTransition(from, to)
    || (from == Running && to == Ready && CanTransition(Running, Retrying) && CanTransition(Retrying, Ready))
  }

  /** The order of the tests is the code's. */
  function DeriveRunState(states: seq<TaskState>): RunState {
    if states == [] then RunPending
    else if forall s | s in states :: s == Succeeded then RunSucceeded
    else if forall s | s in states :: s in {Pending, Ready} then RunPending
    else
      var active := exists s | s in states :: s.IsActive();
      if !active && Cancelled in states then RunCancelled
      else if active then RunRunning
      else RunFailed
  }

  /** The roll-up by cases, over the set of states that occur: neither order nor multiplicity matters. */
  function RollUp(states: set<TaskState>): RunState {
    if exists s | s in states :: s.IsActive() then
      if states <= {Pending, Ready} then RunPending else RunRunning
    else if states == {} then RunPending
    else if states == {Succeeded} then RunSucceeded
    else if Cancelled in states then RunCancelled
    else RunFailed
  }

  lemma DeriveIsRollUp(states: seq<TaskState>)
    ensures DeriveRunState(states) == RollUp(set s | s in states)
  {
    var occurring := set s | s in states;
    if states == [] {
      assert occurring == {};
    } else {
      assert states[0] in occurring;
      AllWithin(states, {Succeeded});
      assert occurring <= {Succeeded} <==> occurring == {Succeeded};
      AllWithin(states, {Pending, Ready});
    }
  }

  lemma AllWithin(states: seq<TaskState>, u: set<TaskState>)
    ensures (set s | s in states) <= u <==> forall s | s in states :: s in u
  {
    forall s | s in states ensures s in (set s' | s' in states) {}
  }

  /** Every state is active or terminal, and the table has no way out of exactly the terminal ones. */
  lemma TerminalIsFinal(s: TaskState)
    ensures s.IsTerminal() <==> s in {Succeeded, Failed, DeadLetter, Blocked, Cancelled}
    ensures s.IsTerminal() <==> !s.IsActive()
    ensures s.IsTerminal() <==> forall to :: !CanTransition(s, to)
  {
    if !s.IsTerminal() { assert CanTransition(s, Cancelled); }
  }

  /** A roll-up of something is terminal exactly when every task is, and then says which way it ended. */
  lemma RollUpTerminal(states: set<TaskState>)
    requires states != {}
    ensures RollUp(states).IsTerminal() <==> forall s | s in states :: s.IsTerminal()
    ensures RollUp(states) == RunSucceeded <==> forall s | s in states :: s == Succeeded
    ensures RollUp(states) == RunFailed ==> exists s | s in states :: s in {Failed, DeadLetter, Blocked}
  {
    if forall s | s in states :: s == Succeeded {
      var s :| s in states;
      assert states == {Succeeded};
    }
    if RollUp(states) == RunFailed {
      assert states != {Succeeded};
      if s :| s in states && s != Succeeded {
        assert s.IsTerminal();
      }
    }
  }

  /** It is PENDING exactly while every task waits, and CANCELLED exactly if every task is terminal and one was
      cancelled. */
  lemma RollUpWaitsOrCancelled(states: set<TaskState>)
    requires states != {}
    ensures RollUp(states) == RunPending <==> states <= {Pending, Ready}
    ensures RollUp(states) == RunCancelled <==> Cancelled in states && forall s | s in states :: s.IsTerminal()
  {
    if states <= {Pending, Ready} {
      var s :| s in states;
      assert s.IsActive();
    }
  }
}
