/** Directed graphs as `node -> set of its parents`, with walks, cycles and topological orders.
    Both the in-memory `Dag` and the dependency edges behind a run are read through this module. */
module Graphs {

  type Graph<T> = map<T, set<T>>

  predicate Edge<T(==)>(g: Graph<T>, parent: T, child: T) {
    child in g && parent in g[child]
  }

  /** Every parent is itself a node. */
  predicate Closed<T(==)>(g: Graph<T>) {
    forall n | n in g :: g[n] <= g.Keys
  }

  ghost predicate Distinct<T>(s: seq<T>) {
    forall i, j | 0 <= i < j < |s| :: s[i] != s[j]
  }

  /** Consecutive nodes of `w` are joined by edges, parent first. */
  ghost predicate IsWalk<T>(g: Graph<T>, w: seq<T>) {
    forall i | 0 <= i < |w| - 1 :: Edge(g, w[i], w[i + 1])
  }

  ghost predicate WalkFromTo<T>(g: Graph<T>, w: seq<T>, a: T, b: T) {
    |w| >= 2 && w[0] == a && w[|w| - 1] == b && IsWalk(g, w)
  }

  /** `b` is a strict descendant of `a`. */
  ghost predicate Reaches<T(!new)>(g: Graph<T>, a: T, b: T) {
    exists w: seq<T> :: WalkFromTo(g, w, a, b)
  }

  /** A closed walk whose nodes are distinct except that the two ends coincide. */
  ghost predicate IsCycle<T>(g: Graph<T>, c: seq<T>) {
    |c| >= 2 && c[0] == c[|c| - 1] && IsWalk(g, c) && Distinct(c[1..])
  }

  ghost predicate Acyclic<T(!new)>(g: Graph<T>) {
    forall c: seq<T> :: !IsCycle(g, c)
  }

  /** A permutation of the nodes that puts every parent before its children. */
  ghost predicate IsTopological<T(!new)>(g: Graph<T>, order: seq<T>) {
    && Distinct(order)
    && (forall n :: n in order <==> n in g)
    && (forall i, j | 0 <= i < |order| && 0 <= j < |order| && Edge(g, order[i], order[j]) :: i < j)
  }

  /** Every node of `s` has a parent in `s`: nothing in `s` can ever come first. */
  ghost predicate Stuck<T>(g: Graph<T>, s: set<T>) {
    s != {} && s <= g.Keys && forall n | n in s :: g[n] * s != {}
  }

  // ---- reachability ------------------------------------------------------

  lemma EdgeReaches<T(!new)>(g: Graph<T>, a: T, b: T)
    requires Edge(g, a, b)
    ensures Reaches(g, a, b)
  {
    assert WalkFromTo(g, [a, b], a, b);
  }

  lemma ReachesThenEdge<T(!new)>(g: Graph<T>, a: T, b: T, c: T)
    requires Reaches(g, a, b) && Edge(g, b, c)
    ensures Reaches(g, a, c)
  {
    var w :| WalkFromTo(g, w, a, b);
    assert WalkFromTo(g, w + [c], a, c);
  }

  /** A strict descendant of `a` has a parent that is `a` or a strict descendant of `a`. */
  lemma LastEdge<T(!new)>(g: Graph<T>, a: T, b: T) returns (p: T)
    requires Reaches(g, a, b)
    ensures Edge(g, p, b) && (p == a || Reaches(g, a, p))
  {
    var w :| WalkFromTo(g, w, a, b);
    p := w[|w| - 2];
    assert Edge(g, w[|w| - 2], w[|w| - 1]);
    if |w| > 2 {
      assert WalkFromTo(g, w[..|w| - 1], a, p);
    }
  }

  /** A set closed under children that holds the children of `a` holds every strict descendant of `a`. */
  lemma {:induction false} ClosedSetHoldsWalk<T(!new)>(g: Graph<T>, s: set<T>, w: seq<T>, a: T, b: T)
    requires WalkFromTo(g, w, a, b)
    requires forall p, c | Edge(g, p, c) && (p == a || p in s) :: c in s
    ensures b in s
  {
    var p := w[|w| - 2];
    assert Edge(g, p, w[|w| - 1]);
    if |w| > 2 {
      ClosedSetHoldsWalk(g, s, w[..|w| - 1], a, p);
    }
  }

  lemma ClosedSetHoldsDescendants<T(!new)>(g: Graph<T>, s: set<T>, a: T, b: T)
    requires Reaches(g, a, b)
    requires forall p, c | Edge(g, p, c) && (p == a || p in s) :: c in s
    ensures b in s
  {
    var w :| WalkFromTo(g, w, a, b);
    ClosedSetHoldsWalk(g, s, w, a, b);
  }

  // ---- cycles and topological orders --------------------------------------

  lemma {:induction false} WalkFollowsOrder<T(!new)>(g: Graph<T>, order: seq<T>, w: seq<T>, i: nat, j: nat)
    requires IsTopological(g, order) && Closed(g)
    requires |w| >= 2 && IsWalk(g, w)
    requires i < |order| && j < |order| && order[i] == w[0] && order[j] == w[|w| - 1]
    ensures i < j
  {
    assert Edge(g, w[0], w[1]);
    if |w| > 2 {
      assert Edge(g, w[1], w[2]);
      var k :| 0 <= k < |order| && order[k] == w[1];
      assert IsWalk(g, w[1..]) by {
        forall m | 0 <= m < |w[1..]| - 1 ensures Edge(g, w[1..][m], w[1..][m + 1]) {
          assert Edge(g, w[m + 1], w[m + 2]);
        }
      }
      WalkFollowsOrder(g, order, w[1..], k, j);
      assert Edge(g, order[i], order[k]);
    } else {
      assert Edge(g, order[i], order[j]);
    }
  }

  /** A graph with a topological order has no cycle. */
  lemma TopologicalMeansAcyclic<T(!new)>(g: Graph<T>, order: seq<T>)
    requires IsTopological(g, order) && Closed(g)
    ensures Acyclic(g)
  {
    forall c: seq<T> ensures !IsCycle(g, c) {
      if IsCycle(g, c) {
        assert Edge(g, c[|c| - 2], c[|c| - 1]);
        var i :| 0 <= i < |order| && order[i] == c[0];
        WalkFollowsOrder(g, order, c, i, i);
      }
    }
  }

  lemma {:induction false} DistinctFits<T>(s: seq<T>, u: set<T>)
    requires Distinct(s) && forall i | 0 <= i < |s| :: s[i] in u
    ensures |s| <= |u|
  {
    if s != [] {
      var last := s[|s| - 1];
      DistinctFits(s[..|s| - 1], u - {last});
    }
  }

  lemma PrependWalk<T>(g: Graph<T>, p: T, w: seq<T>)
    requires w != [] && IsWalk(g, w) && Edge(g, p, w[0])
    ensures IsWalk(g, [p] + w)
  {
    var longer := [p] + w;
    forall i | 0 <= i < |longer| - 1 ensures Edge(g, longer[i], longer[i + 1]) {
      if i > 0 { assert Edge(g, w[i - 1], w[i]); }
    }
  }

  lemma ClosesCycle<T>(g: Graph<T>, w: seq<T>, k: nat)
    requires IsWalk(g, w) && Distinct(w) && k < |w| && Edge(g, w[k], w[0])
    ensures IsCycle(g, [w[k]] + w[..k + 1])
  {
    var c := [w[k]] + w[..k + 1];
    PrependWalk(g, w[k], w[..k + 1]);
    assert c[1..] == w[..k + 1];
  }

  /** Walking backwards inside a stuck set must revisit a node: the visited part closes a cycle. */
  lemma {:induction false} ExtendBackwards<T(!new)>(g: Graph<T>, s: set<T>, w: seq<T>) returns (c: seq<T>)
    requires Stuck(g, s)
    requires w != [] && IsWalk(g, w) && Distinct(w) && forall i | 0 <= i < |w| :: w[i] in s
    ensures IsCycle(g, c)
    decreases |s| - |w|
  {
    DistinctFits(w, s);
    assert w[0] in s;
    var p :| p in g[w[0]] * s;
    if p in w {
      var k :| 0 <= k < |w| && w[k] == p;
      ClosesCycle(g, w, k);
      c := [p] + w[..k + 1];
    } else {
      PrependWalk(g, p, w);
      DistinctFits([p] + w, s);
      c := ExtendBackwards(g, s, [p] + w);
    }
  }

  lemma StuckSetHasCycle<T(!new)>(g: Graph<T>, s: set<T>)
    requires Stuck(g, s)
    ensures !Acyclic(g)
  {
    var n :| n in s;
    var c := ExtendBackwards(g, s, [n]);
    assert IsCycle(g, c);
  }

  /** The nodes of a cycle form a stuck set. */
  lemma CycleIsStuck<T(!new)>(g: Graph<T>, c: seq<T>)
    requires IsCycle(g, c) && Closed(g)
    ensures Stuck(g, set n | n in c)
  {
    var s := set n | n in c;
    assert c[0] in s;
    forall n | n in s ensures n in g && g[n] * s != {} {
      var i :| 0 <= i < |c| && c[i] == n;
      var j := if i == 0 then |c| - 1 else i;
      assert Edge(g, c[j - 1], c[j]);
      assert c[j - 1] in g[n] * s;
    }
  }

  /** A graph has no cycle exactly when no nodes all wait for one another. */
  lemma AcyclicIffNoneStuck<T(!new)>(g: Graph<T>)
    requires Closed(g)
    ensures Acyclic(g) <==> forall s: set<T> :: !Stuck(g, s)
  {
    forall s: set<T> | Stuck(g, s) ensures !Acyclic(g) {
      StuckSetHasCycle(g, s);
    }
    if !Acyclic(g) {
      var c: seq<T> :| IsCycle(g, c);
      CycleIsStuck(g, c);
    }
  }

  /** An acyclic graph has no stuck set: if every member of `s` has a parent in `s`, there is no member. */
  lemma NeverStuck<T(!new)>(g: Graph<T>, s: set<T>)
    requires Acyclic(g) && s <= g.Keys && forall n | n in s :: g[n] * s != {}
    ensures s == {}
  {
    if s != {} { StuckSetHasCycle(g, s); }
  }

  /** In an acyclic graph some member of any non-empty set of nodes has no parent in that set. */
  lemma FirstOf<T(!new)>(g: Graph<T>, s: set<T>) returns (n: T)
    requires Acyclic(g) && s != {} && s <= g.Keys
    ensures n in s && g[n] * s == {}
  {
    if Stuck(g, s) { StuckSetHasCycle(g, s); }
    n :| n in s && g[n] * s == {};
  }

  ghost predicate ParentsBefore<T>(g: Graph<T>, order: seq<T>, j: nat)
    requires j < |order| && order[j] in g
  {
    forall p | p in g[order[j]] :: p in order[..j]
  }

  /** `order` lists some of the nodes, each after all of its parents. */
  ghost predicate OrdersPrefix<T>(g: Graph<T>, order: seq<T>) {
    && Distinct(order)
    && (forall j | 0 <= j < |order| :: order[j] in g && ParentsBefore(g, order, j))
  }

  lemma AppendNext<T(!new)>(g: Graph<T>, prefix: seq<T>, n: T)
    requires OrdersPrefix(g, prefix) && n in g && n !in prefix
    requires forall p | p in g[n] :: p in prefix
    ensures OrdersPrefix(g, prefix + [n])
  {
    var longer := prefix + [n];
    forall j | 0 <= j < |longer| ensures longer[j] in g && ParentsBefore(g, longer, j) {
      if j < |prefix| {
        assert ParentsBefore(g, prefix, j);
        assert longer[..j] == prefix[..j];
      } else {
        assert longer[..j] == prefix;
      }
    }
  }

  lemma WholePrefixIsTopological<T(!new)>(g: Graph<T>, order: seq<T>)
    requires OrdersPrefix(g, order) && forall n | n in g :: n in order
    ensures IsTopological(g, order)
  {
    forall i, j | 0 <= i < |order| && 0 <= j < |order| && Edge(g, order[i], order[j]) ensures i < j {
      assert ParentsBefore(g, order, j);
      var k :| 0 <= k < j && order[..j][k] == order[i];
      assert order[k] == order[i];
    }
  }

  lemma {:induction false} CompleteOrder<T(!new)>(g: Graph<T>, prefix: seq<T>) returns (order: seq<T>)
    requires Closed(g) && Acyclic(g) && OrdersPrefix(g, prefix)
    ensures IsTopological(g, order)
    decreases |g.Keys - (set n | n in prefix)|
  {
    var rest := g.Keys - (set n | n in prefix);
    if rest == {} {
      forall n | n in g ensures n in prefix { assert n !in rest; }
      WholePrefixIsTopological(g, prefix);
      order := prefix;
    } else {
      var n := FirstOf(g, rest);
      forall p | p in g[n] ensures p in prefix { assert p !in g[n] * rest; }
      AppendNext(g, prefix, n);
      assert g.Keys - (set m | m in prefix + [n]) == rest - {n};
      order := CompleteOrder(g, prefix + [n]);
    }
  }

  /** A graph has a topological order exactly when it has no cycle. */
  lemma AcyclicIffOrdered<T(!new)>(g: Graph<T>)
    requires Closed(g)
    ensures Acyclic(g) <==> exists order: seq<T> :: IsTopological(g, order)
  {
    if Acyclic(g) {
      var order := CompleteOrder(g, []);
    }
    if order: seq<T> :| IsTopological(g, order) {
      TopologicalMeansAcyclic(g, order);
    }
  }

  /** No node of an acyclic graph is its own descendant. */
  lemma NoSelfReach<T(!new)>(g: Graph<T>, a: T)
    requires Acyclic(g) && Closed(g)
    ensures !Reaches(g, a, a)
  {
    if Reaches(g, a, a) {
      var order := CompleteOrder(g, []);
      var w :| WalkFromTo(g, w, a, a);
      assert Edge(g, w[|w| - 2], w[|w| - 1]);
      var i :| 0 <= i < |order| && order[i] == a;
      WalkFollowsOrder(g, order, w, i, i);
    }
  }
}
