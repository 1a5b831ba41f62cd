/** One run's progress through a graph, kept in memory by lowering in-degree counters. */
module DagCursors {
  import opened Wrappers
  import opened Graphs
  import opened Dags

  /** What a cursor knows, without its counters. */
  datatype Progress<T(==)> = Progress(succeeded: set<T>, failed: set<T>)

  datatype CursorError<+T> = UnknownTask(node: T) | StillBlocked(node: T)

  /** Children of `node` whose last missing parent it was. */
  predicate Unblocks<T(==)>(g: Graph<T>, succeeded: set<T>, node: T, child: T) {
    Edge(g, node, child) && g[child] <= succeeded + {node}
  }

  /** Tasks with every dependency met that have neither succeeded nor failed. */
  predicate IsReady<T(==)>(g: Graph<T>, p: Progress<T>, n: T) {
    n in g && g[n] <= p.succeeded && n !in p.succeeded && n !in p.failed
  }

  /** Strict descendants of a failed task. */
  ghost predicate Poisoned<T(!new)>(g: Graph<T>, failed: set<T>, n: T) {
    exists f | f in failed :: Reaches(g, f, n)
  }

  function MarkSucceeded<T>(p: Progress<T>, node: T): Progress<T> {
    Progress(p.succeeded + {node}, p.failed - {node})
  }

  function MarkFailed<T>(p: Progress<T>, node: T): Progress<T> {
    p.(failed := p.failed + {node})
  }

  /** The children of `node` that its success releases, in declaration order. */
  ghost function UnblockedBy<T>(g: Graph<T>, kids: seq<T>, succeeded: set<T>, node: T): seq<T> {
    Filter(kids, set c | c in kids && Unblocks(g, succeeded, node, c))
  }

  /** `list` has, once each and in the order of `all`, those of `all` that are in `u`. */
  ghost predicate InOrderOf<T(!new)>(list: seq<T>, all: seq<T>) {
    && Distinct(list) && (forall x | x in list :: x in all)
    && forall i, j | 0 <= i < j < |list| :: Precedes(all, list[i], list[j])
  }

  lemma FilteredInOrder<T(!new)>(all: seq<T>, u: set<T>)
    requires Distinct(all)
    ensures InOrderOf(Filter(all, u), all) == true
    ensures forall x :: x in Filter(all, u) <==> x in all && x in u
  {
    FilterMembers(all, u);
    forall i, j | 0 <= i < j < |Filter(all, u)| ensures Precedes(all, Filter(all, u)[i], Filter(all, u)[j]) {
      FilterOrder(all, u, i, j);
    }
    assert InOrderOf(Filter(all, u), all);
  }

  lemma {:induction false} FilterTwice<T>(s: seq<T>, u: set<T>, v: set<T>)
    ensures Filter(Filter(s, u), v) == Filter(s, u * v)
  {
    if s != [] {
      FilterTwice(s[1..], u, v);
      if s[0] in u {
        assert Filter(s, u) == [s[0]] + Filter(s[1..], u);
        assert Filter(s, u)[1..] == Filter(s[1..], u);
      } else {
        assert Filter(s, u) == Filter(s[1..], u);
      }
    }
  }

  lemma {:induction false} FilterSame<T>(s: seq<T>, u: set<T>, v: set<T>)
    requires forall x | x in s :: x in u <==> x in v
    ensures Filter(s, u) == Filter(s, v)
  {
    if s != [] { FilterSame(s[1..], u, v); }
  }

  lemma UnblocksIff<T>(g: Graph<T>, listed: seq<T>, succeeded: set<T>, node: T, c: T)
    requires c in g && g[c] == Elements(listed)
    ensures Unblocks(g, succeeded, node, c) <==> node in listed && forall p | p in listed :: p == node || p in succeeded
  {
    assert forall p :: p in g[c] <==> p in listed;
  }

  /** Said on the keys and their dependencies: a success releases, in the order of the keys, those that list the task
      and whose other dependencies have all succeeded. */
  lemma UnblockedInKeyOrder<T(!new)>(keys: seq<T>, dependencies: map<T, seq<T>>, g: Graph<T>, kids: seq<T>,
        succeeded: set<T>, node: T)
    requires dependencies.Keys == g.Keys == Elements(keys) && forall n | n in keys :: g[n] == Elements(dependencies[n])
    requires kids == Listing(keys, dependencies, node)
    ensures UnblockedBy(g, kids, succeeded, node)
         == Filter(keys, set c | c in dependencies && node in dependencies[c]
                                 && forall p | p in dependencies[c] :: p == node || p in succeeded)
  {
    var lists := set n | n in dependencies && node in dependencies[n];
    var free := set c | c in kids && Unblocks(g, succeeded, node, c);
    var released := set c | c in dependencies && node in dependencies[c]
                            && forall p | p in dependencies[c] :: p == node || p in succeeded;
    FilterMembers(keys, lists);
    forall c | c in keys ensures c in lists * free <==> c in released {
      UnblocksIff(g, dependencies[c], succeeded, node, c);
    }
    FilterTwice(keys, lists, free);
    FilterSame(keys, lists * free, released);
  }

  /** The counter of a task is the number of its parents that have not succeeded. */
  ghost predicate CountersOk<T>(g: Graph<T>, pending: map<T, int>, succeeded: set<T>) {
    pending.Keys == g.Keys && forall n | n in g :: pending[n] == |g[n] - succeeded|
  }

  lemma EmptyDifference<T>(a: set<T>, b: set<T>)
    ensures |a - b| == 0 <==> a <= b
  {
    if |a - b| == 0 {
      forall x | x in a ensures x in b { assert x !in a - b; }
    }
  }

  lemma ZeroMeansMet<T>(g: Graph<T>, pending: map<T, int>, succeeded: set<T>, n: T)
    requires CountersOk(g, pending, succeeded) && n in g
    ensures pending[n] == 0 <==> g[n] <= succeeded
  {
    EmptyDifference(g[n], succeeded);
  }

  lemma OneMoreSucceeded<T>(g: Graph<T>, succeeded: set<T>, node: T, n: T)
    requires n in g && node !in succeeded
    ensures |g[n] - (succeeded + {node})| == |g[n] - succeeded| - if node in g[n] then 1 else 0
  {
    if node in g[n] {
      assert g[n] - succeeded == (g[n] - (succeeded + {node})) + {node};
    } else {
      assert g[n] - (succeeded + {node}) == g[n] - succeeded;
    }
  }

  /** The counters of the children in `lowered` have been lowered, the others not yet. */
  ghost predicate Lowering<T>(g: Graph<T>, pending: map<T, int>, succeeded: set<T>, lowered: seq<T>) {
    pending.Keys == g.Keys && forall n | n in g :: pending[n] == |g[n] - succeeded| - if n in lowered then 1 else 0
  }

  lemma LowerOne<T>(g: Graph<T>, pending: map<T, int>, succeeded: set<T>, node: T, lowered: seq<T>, child: T)
    requires Lowering(g, pending, succeeded, lowered) && child !in lowered && Edge(g, node, child) && node !in succeeded
    ensures Lowering(g, pending[child := pending[child] - 1], succeeded, lowered + [child])
    ensures pending[child] - 1 == 0 <==> Unblocks(g, succeeded, node, child)
  {
    OneMoreSucceeded(g, succeeded, node, child);
    EmptyDifference(g[child], succeeded + {node});
  }

  lemma AllLowered<T>(g: Graph<T>, pending: map<T, int>, succeeded: set<T>, node: T, kids: seq<T>)
    requires Lowering(g, pending, succeeded, kids) && node !in succeeded
    requires forall n | n in g :: n in kids <==> node in g[n]
    ensures CountersOk(g, pending, succeeded + {node})
  {
    forall n | n in g ensures pending[n] == |g[n] - (succeeded + {node})| {
      OneMoreSucceeded(g, succeeded, node, n);
    }
  }

  ghost predicate AreChildren<T(!new)>(g: Graph<T>, kids: seq<T>, node: T) {
    Distinct(kids) && forall c :: c in kids <==> Edge(g, node, c)
  }

  /** Lowers the counters of the children and collects those that reach zero. */
  method LowerCounters<T(==,!new)>(ghost g: Graph<T>, kids: seq<T>, pending: map<T, int>, ghost succeeded: set<T>,
        ghost node: T)
    returns (pending': map<T, int>, unblocked: seq<T>)
    requires CountersOk(g, pending, succeeded) == true && node !in succeeded && AreChildren(g, kids, node) == true
    ensures CountersOk(g, pending', succeeded + {node}) == true
    ensures unblocked == UnblockedBy(g, kids, succeeded, node)
  {
    ghost var free := set c | c in kids && Unblocks(g, succeeded, node, c);
    pending', unblocked := pending, [];
    for i := 0 to |kids|
      invariant Lowering(g, pending', succeeded, kids[..i]) && unblocked == Filter(kids[..i], free)
    {
      var child := kids[i];
      assert kids[..i + 1] == kids[..i] + [child] && child !in kids[..i];
      LowerOne(g, pending', succeeded, node, kids[..i], child);
      FilterAppend(kids[..i], child, free);
      pending' := pending'[child := pending'[child] - 1];
      if pending'[child] == 0 {
        unblocked := unblocked + [child];
      }
    }
    assert kids[..|kids|] == kids;
    AllLowered(g, pending', succeeded, node, kids);
  }

  /** The tasks that may start, in insertion order. */
  ghost function ReadyIn<T>(g: Graph<T>, nodes: seq<T>, p: Progress<T>): seq<T> {
    Filter(nodes, set n | n in nodes && IsReady(g, p, n))
  }

  method Startable<T(==,!new)>(ghost g: Graph<T>, nodes: seq<T>, pending: map<T, int>, p: Progress<T>)
    returns (list: seq<T>)
    requires CountersOk(g, pending, p.succeeded) && g.Keys == Elements(nodes)
    ensures list == ReadyIn(g, nodes, p)
  {
    ghost var ready := set n | n in nodes && IsReady(g, p, n);
    list := [];
    for i := 0 to |nodes|
      invariant list == Filter(nodes[..i], ready)
    {
      var n := nodes[i];
      assert nodes[..i + 1] == nodes[..i] + [n] && n in nodes;
      ZeroMeansMet(g, pending, p.succeeded, n);
      FilterAppend(nodes[..i], n, ready);
      if pending[n] == 0 && n !in p.succeeded && n !in p.failed {
        list := list + [n];
      }
    }
    assert nodes[..|nodes|] == nodes;
  }

  /** Walks down from the failed tasks. Everything met is poisoned, and everything poisoned is met. */
  method Spread<T(==,!new)>(ghost g: Graph<T>, children: map<T, seq<T>>, failed: set<T>) returns (poisoned: set<T>)
    requires Closed(g) && Lists(g, children) && failed <= g.Keys
    ensures forall n :: n in poisoned <==> Poisoned(g, failed, n)
  {
    var queue := ListOf(failed);
    poisoned := {};
    while queue != []
      invariant poisoned <= g.Keys && forall n | n in queue :: n in g
      invariant forall n | n in queue :: n in failed || Poisoned(g, failed, n)
      invariant forall n | n in poisoned :: Poisoned(g, failed, n)
      invariant forall n, c | (n in failed || n in poisoned) && Edge(g, n, c) :: n in queue || c in poisoned
      decreases |g.Keys - poisoned|, |queue|
    {
      var node := queue[0];
      assert queue == [node] + queue[1..];
      ghost var before := poisoned;
      queue, poisoned := SpreadOver(g, children[node], queue[1..], poisoned);
      forall c | c in children[node] ensures Poisoned(g, failed, c) {
        PoisonPasses(g, failed, node, c);
      }
      if poisoned != before {
        assert g.Keys - poisoned < g.Keys - before;
        StrictSubsetSize(g.Keys - poisoned, g.Keys - before);
      }
    }
    forall n | Poisoned(g, failed, n) ensures n in poisoned {
      var f :| f in failed && Reaches(g, f, n);
      ClosedSetHoldsDescendants(g, poisoned, f, n);
    }
  }

  lemma StrictSubsetSize<T>(a: set<T>, b: set<T>)
    requires a < b
    ensures |a| < |b|
  {
    assert b == a + (b - a);
  }

  lemma PoisonPasses<T(!new)>(g: Graph<T>, failed: set<T>, n: T, c: T)
    requires (n in failed || Poisoned(g, failed, n)) && Edge(g, n, c)
    ensures Poisoned(g, failed, c)
  {
    if n in failed {
      EdgeReaches(g, n, c);
    } else {
      var f :| f in failed && Reaches(g, f, n);
      ReachesThenEdge(g, f, n, c);
    }
  }

  /** The children not met yet join the poisoned set and the queue. */
  method SpreadOver<T(==,!new)>(ghost g: Graph<T>, kids: seq<T>, queue: seq<T>, poisoned: set<T>)
    returns (queue': seq<T>, poisoned': set<T>)
    requires forall c | c in kids :: c in g
    ensures poisoned' == poisoned + Elements(kids)
    ensures forall n :: n in queue' <==> n in queue || (n in kids && n !in poisoned)
    ensures poisoned' == poisoned ==> queue' == queue
  {
    queue', poisoned' := queue, poisoned;
    for i := 0 to |kids|
      invariant poisoned' == poisoned + Elements(kids[..i])
      invariant forall n :: n in queue' <==> n in queue || (n in kids[..i] && n !in poisoned)
      invariant poisoned' == poisoned ==> queue' == queue
    {
      assert kids[..i + 1] == kids[..i] + [kids[i]];
      if kids[i] !in poisoned' {
        poisoned' := poisoned' + {kids[i]};
        queue' := queue' + [kids[i]];
      }
    }
    assert kids[..|kids|] == kids;
  }

  /** A set in some order. */
  method ListOf<T(==,!new)>(s: set<T>) returns (list: seq<T>)
    ensures forall x :: x in list <==> x in s
  {
    list := [];
    var rest := s;
    while rest != {}
      invariant rest <= s && forall x :: x in list <==> x in s - rest
      decreases |rest|
    {
      var x :| x in rest;
      list, rest := list + [x], rest - {x};
    }
  }

  class DagCursor<T(==,!new)> {
    const dag: Dag<T>
    var pending: map<T, int>
    var succeeded: set<T>
    var failed: set<T>

    /** The definition is shared and never changed by its cursors. */
    ghost predicate Valid()
      reads this, dag
    {
      && dag.Valid() && Acyclic(dag.Edges())
      && CountersOk(dag.Edges(), pending, succeeded) == true
      && succeeded <= Elements(dag.nodes) && failed <= Elements(dag.nodes)
    }

    ghost function View(): Progress<T>
      reads this
    {
      Progress(succeeded, failed)
    }

    constructor Start(dag: Dag<T>)
      requires dag.Valid() && Acyclic(dag.Edges())
      ensures Valid() && this.dag == dag && View() == Progress({}, {})
    {
      this.dag := dag;
      pending := dag.InDegrees();
      succeeded, failed := {}, {};
      new;
      dag.InDegreesAreMissing();
      forall n | n in dag.Edges() ensures pending[n] == |dag.Edges()[n] - {}| {
        assert Missing(dag.Edges(), [], n) == dag.Edges()[n] - {};
      }
    }

    /** Construction raises, with a cycle, exactly on a cyclic definition. */
    static method Create(dag: Dag<T>) returns (r: Result<DagCursor<T>, seq<T>>)
      requires dag.Valid()
      ensures r.Success? <==> Acyclic(dag.Edges())
      ensures r.Success? ==> fresh(r.value) && r.value.Valid()
      ensures r.Success? ==> r.value.dag == dag && r.value.View() == Progress({}, {})
      ensures r.Failure? ==> IsCycle(dag.Edges(), r.error)
    {
      var order := dag.TopologicalOrder();
      if order.Failure? {
        var cycle := dag.FindCycle();
        return Failure(cycle);
      }
      var cursor := new DagCursor.Start(dag);
      return Success(cursor);
    }

    /** The tasks that may start, in insertion order. */
    method Ready() returns (list: seq<T>)
      requires Valid()
      ensures list == ReadyIn(dag.Edges(), dag.nodes, View())
      ensures InOrderOf(list, dag.nodes) == true
      ensures forall n :: n in list <==>
                n in dag.nodes && dag.Edges()[n] <= succeeded && n !in succeeded && n !in failed
    {
      list := Startable(dag.Edges(), dag.nodes, pending, Progress(succeeded, failed));
      FilteredInOrder(dag.nodes, set n | n in dag.nodes && IsReady(dag.Edges(), Progress(succeeded, failed), n));
    }

    lemma ChildrenAreEdges(node: T)
      requires dag.Valid() && node in dag.nodes
      ensures node in dag.children && AreChildren(dag.Edges(), dag.children[node], node) == true
    {
      AdjacencyLists(dag.nodes, dag.children, dag.parents);
    }

    lemma UnblockedMembers(node: T, done: set<T>)
      requires dag.Valid() && node in dag.nodes
      ensures node in dag.children
      ensures var list := UnblockedBy(dag.Edges(), dag.children[node], done, node);
              && InOrderOf(list, dag.children[node]) == true
              && forall c :: c in list <==>
                   Edge(dag.Edges(), node, c) && forall p | p in dag.Edges()[c] :: p == node || p in done
    {
      ChildrenAreEdges(node);
      FilteredInOrder(dag.children[node], set c | c in dag.children[node] && Unblocks(dag.Edges(), done, node, c));
    }

    /** A repeated success changes nothing; a success with a dependency missing is refused; otherwise the children whose
        last dependency this was come back, in declaration order, and an earlier failure is forgotten. */
    method Succeed(node: T) returns (r: Result<seq<T>, CursorError<T>>)
      requires Valid()
      modifies this
      ensures Valid()
      ensures r == if node !in dag.nodes then Failure(UnknownTask(node))
                   else if node in old(succeeded) then Success([])
                   else if !(dag.Edges()[node] <= old(succeeded)) then Failure(StillBlocked(node))
                   else Success(UnblockedBy(dag.Edges(), dag.children[node], old(succeeded), node))
      ensures View() == if r.Success? && node !in old(succeeded) then MarkSucceeded(old(View()), node) else old(View())
      ensures var first := r.Success? && node !in old(succeeded);
              && succeeded == (if first then old(succeeded) + {node} else old(succeeded))
              && failed == (if first then old(failed) - {node} else old(failed))
      ensures r.Success? && node !in old(succeeded) ==>
                && node in dag.children && InOrderOf(r.value, dag.children[node]) == true
                && forall c :: c in r.value <==>
                     Edge(dag.Edges(), node, c) && forall p | p in dag.Edges()[c] :: p == node || p in old(succeeded)
    {
      if node !in dag.children { return Failure(UnknownTask(node)); }
      if node in succeeded { return Success([]); }
      ZeroMeansMet(dag.Edges(), pending, succeeded, node);
      if pending[node] != 0 { return Failure(StillBlocked(node)); }
      var unblocked := Advance(node);
      UnblockedMembers(node, old(succeeded));
      return Success(unblocked);
    }

    /** The counters after a success of the node, and the tasks that releases. */
    method Lowered(node: T) returns (lowered: map<T, int>, unblocked: seq<T>)
      requires Valid() && node in dag.nodes && node !in succeeded
      ensures CountersOk(dag.Edges(), lowered, succeeded + {node}) == true
      ensures unblocked == UnblockedBy(dag.Edges(), dag.children[node], succeeded, node)
    {
      ChildrenAreEdges(node);
      lowered, unblocked := LowerCounters(dag.Edges(), dag.children[node], pending, succeeded, node);
    }

    method Advance(node: T) returns (unblocked: seq<T>)
      requires Valid() && node in dag.nodes && node !in succeeded
      modifies this
      ensures Valid() && View() == MarkSucceeded(old(View()), node)
      ensures unblocked == UnblockedBy(dag.Edges(), dag.children[node], old(succeeded), node)
    {
      var lowered: map<T, int>;
      lowered, unblocked := Lowered(node);
      pending, succeeded, failed := lowered, succeeded + {node}, failed - {node};
    }

    method Fail(node: T) returns (error: Option<CursorError<T>>)
      requires Valid()
      modifies this
      ensures Valid()
      ensures error == if node in dag.nodes then None else Some(UnknownTask(node))
      ensures View() == if node in dag.nodes then MarkFailed(old(View()), node) else old(View())
      ensures succeeded == old(succeeded)
      ensures failed == if node in dag.nodes then old(failed) + {node} else old(failed)
    {
      if node !in dag.children { return Some(UnknownTask(node)); }
      failed := failed + {node};
      return None;
    }

    /** The tasks that can never run, in insertion order: exactly the strict descendants of the failed ones. */
    method Blocked() returns (list: seq<T>)
      requires Valid()
      ensures Distinct(list) && forall n :: n in list <==> Poisoned(dag.Edges(), failed, n)
      ensures InOrderOf(list, dag.nodes) == true
    {
      AdjacencyLists(dag.nodes, dag.children, dag.parents);
      if failed == {} {
        assert InOrderOf([], dag.nodes);
        return [];
      }
      var poisoned := Spread(dag.Edges(), dag.children, failed);
      list := Filter(dag.nodes, poisoned);
      FilteredInOrder(dag.nodes, poisoned);
      forall n | Poisoned(dag.Edges(), failed, n) ensures n in dag.nodes {
        var f :| f in failed && Reaches(dag.Edges(), f, n);
        var p := LastEdge(dag.Edges(), f, n);
      }
    }
  }
}
