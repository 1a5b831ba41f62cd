/** Publishing a workflow: the validation that makes every run of it acyclic and within a known attempt budget. */
module Workflows {
  import opened Wrappers
  import opened Graphs
  import opened Dags
  import opened Retry
  import opened RunTables
  import opened RunMachine

  datatype TaskSpec = TaskSpec(key: TaskId, dependsOn: seq<TaskId>, policy: Option<PolicySpec>, priority: int)

  datatype WorkflowError =
    | NoTasks
    | DuplicateKeys(keys: set<TaskId>)
    | UnknownDependencies(of: TaskId, unknown: set<TaskId>)
    | BadPolicy(of: TaskId, reason: PolicyError)
    | Cyclic(cycle: seq<TaskId>)
    | RepeatedDependency

  /** What is stored: a definition per task, and the edges as a set of parents per task. */
  datatype Workflow = Workflow(tasks: map<TaskId, TaskDef>, parents: Graph<TaskId>)

  function Keys(specs: seq<TaskSpec>): seq<TaskId> {
    seq(|specs|, i requires 0 <= i < |specs| => specs[i].key)
  }

  /** What each task waits for, by its key. */
  function Dependencies(specs: seq<TaskSpec>): map<TaskId, seq<TaskId>> {
    if specs == [] then map[]
    else
      var last := specs[|specs| - 1];
      Dependencies(specs[..|specs| - 1])[last.key := last.dependsOn]
  }

  lemma KeysSplit(specs: seq<TaskSpec>)
    requires specs != [] && Distinct(Keys(specs))
    ensures Keys(specs) == Keys(specs[..|specs| - 1]) + [specs[|specs| - 1].key]
    ensures Distinct(Keys(specs[..|specs| - 1]))
    ensures forall i | 0 <= i < |specs| - 1 :: specs[i].key != specs[|specs| - 1].key
  {
    var front := specs[..|specs| - 1];
    assert Keys(front) == Keys(specs)[..|specs| - 1];
    forall i | 0 <= i < |front| ensures specs[i].key != specs[|specs| - 1].key {
      assert Keys(specs)[i] != Keys(specs)[|specs| - 1];
    }
  }

  lemma {:induction false} DependenciesAt(specs: seq<TaskSpec>)
    requires Distinct(Keys(specs))
    ensures Dependencies(specs).Keys == Elements(Keys(specs))
    ensures forall i | 0 <= i < |specs| ::
            specs[i].key in Dependencies(specs) && Dependencies(specs)[specs[i].key] == specs[i].dependsOn
  {
    if specs != [] {
      var front := specs[..|specs| - 1];
      KeysSplit(specs);
      DependenciesAt(front);
      forall i | 0 <= i < |specs|
        ensures specs[i].key in Dependencies(specs) && Dependencies(specs)[specs[i].key] == specs[i].dependsOn
      {
        if i < |front| { assert front[i] == specs[i]; }
      }
    }
  }

  /** The edges a submission asks for. */
  ghost function Requested(specs: seq<TaskSpec>): Graph<TaskId> {
    map n | n in Dependencies(specs) :: Elements(Dependencies(specs)[n])
  }

  /** The dependencies of a task that are no tasks of the submission. */
  function Unknown(specs: seq<TaskSpec>, i: nat): (unknown: set<TaskId>)
    requires i < |specs|
    ensures unknown == {} <==> forall p | p in specs[i].dependsOn :: p in Keys(specs)
  {
    var unknown := set p | p in specs[i].dependsOn && p !in Keys(specs);
    assert forall p | p in specs[i].dependsOn && p !in Keys(specs) :: p in unknown;
    unknown
  }

  ghost predicate KnownDependencies(specs: seq<TaskSpec>) {
    forall i | 0 <= i < |specs| :: Unknown(specs, i) == {}
  }

  ghost predicate GoodPolicies(specs: seq<TaskSpec>) {
    forall i | 0 <= i < |specs| :: BuildPolicy(specs[i].policy).Success?
  }

  /** The task at `i` is the first with a fault of its own, and this is the fault: an unknown dependency before a
      policy. */
  ghost predicate FirstBad(specs: seq<TaskSpec>, i: nat, error: WorkflowError) {
    && i < |specs|
    && (forall j | 0 <= j < i :: Unknown(specs, j) == {} && BuildPolicy(specs[j].policy).Success?)
    && if Unknown(specs, i) != {} then error == UnknownDependencies(specs[i].key, Unknown(specs, i))
       else BuildPolicy(specs[i].policy).Failure?
            && error == BadPolicy(specs[i].key, BuildPolicy(specs[i].policy).error)
  }

  ghost predicate NoRepeats(specs: seq<TaskSpec>) {
    forall i | 0 <= i < |specs| :: Distinct(specs[i].dependsOn)
  }

  /** Exactly these submissions are published. */
  ghost predicate Publishable(specs: seq<TaskSpec>) {
    && specs != []
    && Distinct(Keys(specs))
    && KnownDependencies(specs) && GoodPolicies(specs)
    && Acyclic(Requested(specs))
    && NoRepeats(specs)
  }

  /** The error says what is wrong with the submission. */
  ghost predicate Explains(specs: seq<TaskSpec>, error: WorkflowError) {
    match error
    case NoTasks => specs == []
    case DuplicateKeys(keys) => keys == Duplicates(Keys(specs)) != {}
    case UnknownDependencies(_, _) => exists i | 0 <= i < |specs| :: FirstBad(specs, i, error)
    case BadPolicy(_, _) => exists i | 0 <= i < |specs| :: FirstBad(specs, i, error)
    case Cyclic(c) => IsCycle(Requested(specs), c)
    case RepeatedDependency => !NoRepeats(specs)
  }

  /** The keys listed more than once. */
  function Duplicates(keys: seq<TaskId>): (duplicates: set<TaskId>)
    ensures forall k :: k in duplicates <==> exists i, j | 0 <= i < j < |keys| :: keys[i] == k && keys[j] == k
    ensures duplicates == {} <==> Distinct(keys)
  {
    var duplicates := set i, j | 0 <= i < |keys| && 0 <= j < |keys| && i < j && keys[i] == keys[j] :: keys[i];
    assert forall i, j | 0 <= i < j < |keys| && keys[i] == keys[j] :: keys[i] in duplicates;
    duplicates
  }

  /** Dependencies and retry policies, task by task; the first fault found is the error. */
  method CheckSpecs(specs: seq<TaskSpec>) returns (error: Option<WorkflowError>)
    ensures error.None? <==> KnownDependencies(specs) && GoodPolicies(specs)
    ensures error.Some? ==> exists i | 0 <= i < |specs| :: FirstBad(specs, i, error.value)
  {
    for i := 0 to |specs|
      invariant forall j | 0 <= j < i :: Unknown(specs, j) == {} && BuildPolicy(specs[j].policy).Success?
    {
      var unknown := Unknown(specs, i);
      var policy := BuildPolicy(specs[i].policy);
      if unknown != {} {
        assert FirstBad(specs, i, UnknownDependencies(specs[i].key, unknown));
        return Some(UnknownDependencies(specs[i].key, unknown));
      }
      if policy.Failure? {
        assert FirstBad(specs, i, BadPolicy(specs[i].key, policy.error));
        return Some(BadPolicy(specs[i].key, policy.error));
      }
    }
    return None;
  }

  method HasRepeat(specs: seq<TaskSpec>) returns (repeats: bool)
    ensures repeats <==> !NoRepeats(specs)
  {
    for i := 0 to |specs|
      invariant forall j | 0 <= j < i :: Distinct(specs[j].dependsOn)
    {
      if Duplicates(specs[i].dependsOn) != {} {
        return true;
      }
    }
    return false;
  }

  function Definitions(specs: seq<TaskSpec>): map<TaskId, TaskDef> {
    if specs == [] then map[]
    else
      var last := specs[|specs| - 1];
      var policy := BuildPolicy(last.policy);
      Definitions(specs[..|specs| - 1])[last.key := TaskDef(if policy.Success? then policy.value
          else NoRetry, last.priority)]
  }

  lemma {:induction false} DefinitionsWellFormed(specs: seq<TaskSpec>)
    requires GoodPolicies(specs)
    ensures Definitions(specs).Keys == Elements(Keys(specs))
    ensures forall t | t in Definitions(specs) :: Definitions(specs)[t].policy.WellFormed()
    ensures specs != [] ==> Definitions(specs) != map[]
  {
    if specs != [] {
      var front := specs[..|specs| - 1];
      DefinitionsWellFormed(front);
      assert Keys(specs) == Keys(front) + [specs[|specs| - 1].key];
      assert specs[|specs| - 1].key in Definitions(specs);
    }
  }

  /** The definition stored for a task is the one submitted. */
  predicate Defines(definition: TaskDef, spec: TaskSpec) {
    BuildPolicy(spec.policy) == Success(definition.policy) && definition.priority == spec.priority
  }

  lemma {:induction false} DefinitionsAt(specs: seq<TaskSpec>)
    requires GoodPolicies(specs) && Distinct(Keys(specs))
    ensures forall i | 0 <= i < |specs| ::
            specs[i].key in Definitions(specs) && Defines(Definitions(specs)[specs[i].key], specs[i])
  {
    if specs != [] {
      var front := specs[..|specs| - 1];
      KeysSplit(specs);
      DefinitionsAt(front);
      forall i | 0 <= i < |specs|
        ensures specs[i].key in Definitions(specs) && Defines(Definitions(specs)[specs[i].key], specs[i])
      {
        if i < |front| { assert front[i] == specs[i]; }
      }
    }
  }

  /** A self-dependency is a cycle of its own. */
  lemma SelfLoop(specs: seq<TaskSpec>, n: TaskId)
    requires n in Dependencies(specs) && n in Dependencies(specs)[n]
    ensures IsCycle(Requested(specs), [n, n])
  {
    assert Edge(Requested(specs), n, n);
  }

  /** Where all dependencies are known, the only improper edge is one from a task to itself. */
  lemma KnownFaultIsLoop(specs: seq<TaskSpec>, error: DagError<TaskId>)
    requires Distinct(Keys(specs)) && KnownDependencies(specs)
    requires Dependencies(specs).Keys == Elements(Keys(specs)) && Improper(Keys(specs), Dependencies(specs), error)
    ensures error.CycleFound? && IsCycle(Requested(specs), error.cycle)
  {
    AllKnown(specs);
    KnownFault(Keys(specs), Dependencies(specs), error);
    var n :| n in Keys(specs) && n in Dependencies(specs)[n] && error.cycle == [n, n];
    SelfLoop(specs, n);
  }

  /** Builds the graph and orders it. A cycle found while adding edges or while ordering is the error. The order itself,
      which nobody keeps, has every task after those it depends on, and otherwise as submitted. */
  method CheckGraph(specs: seq<TaskSpec>) returns (error: Option<WorkflowError>, ghost order: seq<TaskId>)
    requires Distinct(Keys(specs)) && KnownDependencies(specs)
    ensures error.None? <==> Acyclic(Requested(specs))
    ensures error.Some? ==> Explains(specs, error.value) && error.value.Cyclic?
    ensures error.None? ==> InKeyOrder(Requested(specs), Keys(specs), order)
  {
    DependenciesAt(specs);
    var keys := Keys(specs);
    var dag, fault := Dag.FromDependencies(keys, Dependencies(specs));
    if fault.Some? {
      AllKnown(specs);
      KnownFaultIsLoop(specs, fault.value);
      return Some(Cyclic(fault.value.cycle)), [];
    }
    assert dag.Edges() == Requested(specs);
    var ordered := dag.TopologicalOrder();
    if ordered.Failure? {
      return Some(Cyclic(ordered.error)), [];
    }
    DeclaredIsKeyOrder(dag.Edges(), keys, dag.children, Dependencies(specs), ordered.value);
    return None, ordered.value;
  }

  lemma AllKnown(specs: seq<TaskSpec>)
    requires Distinct(Keys(specs)) && KnownDependencies(specs)
    ensures Dependencies(specs).Keys == Elements(Keys(specs))
    ensures forall n | n in Dependencies(specs) :: forall p | p in Dependencies(specs)[n] :: p in Keys(specs)
  {
    DependenciesAt(specs);
    forall n | n in Dependencies(specs) ensures forall p | p in Dependencies(specs)[n] :: p in Keys(specs) {
      var i :| 0 <= i < |specs| && Keys(specs)[i] == n;
      assert specs[i].key == n && Unknown(specs, i) == {};
    }
  }

  /** Publishes exactly the acyclic submissions that are well formed, and the workflow stored is one whose runs can be
      scheduled: `Accepted` is the starting point of everything proved about runs. Of several faults, the one reported
      is the first in the order of the checks. */
  method Create(specs: seq<TaskSpec>) returns (r: Result<Workflow, WorkflowError>)
    ensures r.Success? <==> Publishable(specs)
    ensures r.Success? ==> Accepted(r.value.tasks, r.value.parents) && r.value.parents == Requested(specs)
    ensures r.Success? ==> forall i | 0 <= i < |specs| ::
            specs[i].key in r.value.tasks && Defines(r.value.tasks[specs[i].key], specs[i])
    ensures r.Success? ==> forall i | 0 <= i < |specs| ::
            specs[i].key in r.value.parents && r.value.parents[specs[i].key] == Elements(specs[i].dependsOn)
    ensures r.Failure? ==> Explains(specs, r.error)
    ensures r == Failure(WorkflowError.NoTasks) <==> specs == []
    ensures r.Failure? && r.error.DuplicateKeys? <==> specs != [] && !Distinct(Keys(specs))
    ensures r.Failure? && (r.error.UnknownDependencies? || r.error.BadPolicy?) <==>
            specs != [] && Distinct(Keys(specs)) && !(KnownDependencies(specs) && GoodPolicies(specs))
    ensures r.Failure? && r.error.Cyclic? <==>
            && specs != [] && Distinct(Keys(specs)) && KnownDependencies(specs) && GoodPolicies(specs)
            && !Acyclic(Requested(specs))
  {
    if specs == [] { return Failure(WorkflowError.NoTasks); }
    var duplicates := Duplicates(Keys(specs));
    if duplicates != {} { return Failure(DuplicateKeys(duplicates)); }
    var fault := CheckSpecs(specs);
    if fault.Some? { return Failure(fault.value); }
    ghost var order;
    fault, order := CheckGraph(specs);
    if fault.Some? { return Failure(fault.value); }
    var repeats := HasRepeat(specs);
    if repeats { return Failure(RepeatedDependency); }
    var workflow := Store(specs);
    DependenciesAt(specs);
    return Success(workflow);
  }

  method Store(specs: seq<TaskSpec>) returns (workflow: Workflow)
    requires Publishable(specs)
    ensures Accepted(workflow.tasks, workflow.parents) && workflow.parents == Requested(specs)
    ensures forall i | 0 <= i < |specs| ::
            specs[i].key in workflow.tasks && Defines(workflow.tasks[specs[i].key], specs[i])
  {
    DefinitionsWellFormed(specs);
    DefinitionsAt(specs);
    AllKnown(specs);
    var dependencies := Dependencies(specs);
    var parents: Graph<TaskId> := map n | n in dependencies :: (set p | p in dependencies[n]);
    assert forall n | n in dependencies :: parents[n] == Elements(dependencies[n]);
    assert parents == Requested(specs);
    return Workflow(Definitions(specs), parents);
  }

  // ---- reading the edges back ---------------------------------------------------

  datatype StoredEdge = StoredEdge(child: TaskId, parent: TaskId)

  /** `rows` are the edges of the workflow, one row each, in any order. */
  ghost predicate StoredAs(rows: seq<StoredEdge>, parents: Graph<TaskId>) {
    && Distinct(rows)
    && (forall e | e in rows :: e.child in parents && e.parent in parents[e.child])
    && (forall n, p | n in parents && p in parents[n] :: StoredEdge(n, p) in rows)
  }

  /** Each task's parents so far, once each. */
  ghost predicate ReadUpTo(dependencies: map<TaskId, seq<TaskId>>, rows: seq<StoredEdge>, count: nat)
    requires count <= |rows|
  {
    forall n | n in dependencies ::
      Distinct(dependencies[n]) && forall p :: p in dependencies[n] <==> StoredEdge(n, p) in rows[..count]
  }

  lemma ReadOneMore(dependencies: map<TaskId, seq<TaskId>>, rows: seq<StoredEdge>, i: nat)
    requires i < |rows| && Distinct(rows) && ReadUpTo(dependencies, rows, i) && rows[i].child in dependencies
    ensures ReadUpTo(dependencies[rows[i].child := dependencies[rows[i].child] + [rows[i].parent]], rows, i + 1)
  {
    assert rows[..i + 1] == rows[..i] + [rows[i]];
    assert rows[i] !in rows[..i];
    assert rows[i].parent !in dependencies[rows[i].child];
  }

  /** What comes back lists every task, with exactly its parents, none twice: so the length of each list is the number
      of dependencies a fresh run counts. */
  method ReadDependencies(keys: seq<TaskId>, rows: seq<StoredEdge>, ghost parents: Graph<TaskId>)
    returns (dependencies: map<TaskId, seq<TaskId>>)
    requires StoredAs(rows, parents) && parents.Keys == Elements(keys)
    ensures dependencies.Keys == parents.Keys
    ensures forall n | n in parents ::
            Elements(dependencies[n]) == parents[n] && |dependencies[n]| == UnmetAtStart(parents, n)
  {
    dependencies := map[];
    for i := 0 to |keys|
      invariant dependencies.Keys == Elements(keys[..i]) && forall n | n in dependencies :: dependencies[n] == []
    {
      dependencies := dependencies[keys[i] := []];
      assert keys[..i + 1] == keys[..i] + [keys[i]];
    }
    assert keys[..|keys|] == keys;
    for i := 0 to |rows|
      invariant dependencies.Keys == parents.Keys && ReadUpTo(dependencies, rows, i)
    {
      assert rows[i] in rows;
      ReadOneMore(dependencies, rows, i);
      dependencies := dependencies[rows[i].child := dependencies[rows[i].child] + [rows[i].parent]];
    }
    assert rows[..|rows|] == rows;
    forall n | n in parents
      ensures Elements(dependencies[n]) == parents[n] && |dependencies[n]| == UnmetAtStart(parents, n)
    {
      DistinctSize(dependencies[n]);
      assert forall p :: p in dependencies[n] <==> StoredEdge(n, p) in rows;
    }
  }
}
