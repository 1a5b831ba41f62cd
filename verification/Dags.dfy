/** The workflow graph in memory: an append-only adjacency list that keeps insertion order,
    Kahn's algorithm, and the depth-first search that names a cycle. */
module Dags {
  import opened Wrappers
  import opened Graphs

  datatype DagError<+T> = UnknownNode(node: T) | CycleFound(cycle: seq<T>)

  datatype Colour = White | Grey | Black

  ghost function Elements<T>(s: seq<T>): set<T> {
    set x | x in s
  }

  lemma {:induction false} DistinctSize<T>(s: seq<T>)
    requires Distinct(s)
    ensures |Elements(s)| == |s|
  {
    if s != [] {
      var front, last := s[..|s| - 1], s[|s| - 1];
      DistinctSize(front);
      assert s == front + [last];
      assert Elements(s) == Elements(front) + {last};
    }
  }

  lemma SubsetSameSize<T>(a: set<T>, b: set<T>)
    requires a <= b && |a| == |b|
    ensures a == b
  {
    var rest := b - a;
    assert b == a + rest;
    assert |b| == |a| + |rest|;
  }

  function IndexOf<T(==)>(s: seq<T>, x: T): (i: nat)
    requires x in s
    ensures i < |s| && s[i] == x && x !in s[..i]
  {
    if s[0] == x then 0 else 1 + IndexOf(s[1..], x)
  }

  /** The members of `s` that are in `u`, in the order of `s`. */
  function Filter<T(==)>(s: seq<T>, u: set<T>): seq<T> {
    if s == [] then []
    else (if s[0] in u then [s[0]] else []) + Filter(s[1..], u)
  }

  lemma {:induction false} FilterAppend<T>(s: seq<T>, x: T, u: set<T>)
    ensures Filter(s + [x], u) == Filter(s, u) + if x in u then [x] else []
  {
    if s == [] {
      assert s + [x] == [x];
    } else {
      assert (s + [x])[0] == s[0] && (s + [x])[1..] == s[1..] + [x];
      FilterAppend(s[1..], x, u);
      assert Filter(s + [x], u) == (if s[0] in u then [s[0]] else []) + Filter(s[1..] + [x], u);
    }
  }

  /** A filtered list has exactly the wanted members, each once if the list had each once. */
  lemma {:induction false} FilterMembers<T(!new)>(s: seq<T>, u: set<T>)
    ensures forall x :: x in Filter(s, u) <==> x in s && x in u
    ensures Distinct(s) ==> Distinct(Filter(s, u))
  {
    if s != [] {
      FilterMembers(s[1..], u);
      assert s == [s[0]] + s[1..];
    }
  }

  // ---- Kahn's algorithm, on values --------------------------------------------

  /** The parents of `n` that are not listed in `order`. */
  ghost function Missing<T>(g: Graph<T>, order: seq<T>, n: T): set<T>
    requires n in g
  {
    set p | p in g[n] && p !in order
  }

  lemma MissingAfter<T>(g: Graph<T>, order: seq<T>, node: T, n: T)
    requires n in g && node !in order
    ensures |Missing(g, order, n)| == |Missing(g, order + [node], n)| + if node in g[n] then 1 else 0
  {
    if node in g[n] {
      assert Missing(g, order, n) == Missing(g, order + [node], n) + {node};
    } else {
      assert Missing(g, order, n) == Missing(g, order + [node], n);
    }
  }

  /** The members of `list`, in its order, all of whose parents are in `order`. */
  ghost function Freed<T>(g: Graph<T>, list: seq<T>, order: seq<T>): seq<T> {
    Filter(list, set n | n in list && n in g && g[n] <= Elements(order))
  }

  /** First come, first served: the head of the queue comes next, and the children that were waiting for it alone join
      the queue, in the order in which they were declared. */
  ghost function FirstCome<T>(g: Graph<T>, children: map<T, seq<T>>, order: seq<T>, queue: seq<T>): seq<T>
    decreases Unordered(g, order)
  {
    if queue == [] || queue[0] in order || queue[0] !in g || queue[0] !in children then order
    else
      var order' := order + [queue[0]];
      OneFewer(g, order, queue[0]);
      FirstCome(g, children, order', queue[1..] + Freed(g, children[queue[0]], order'))
  }

  ghost function Unordered<T>(g: Graph<T>, order: seq<T>): nat {
    |g.Keys - Elements(order)|
  }

  lemma OneFewer<T>(g: Graph<T>, order: seq<T>, n: T)
    requires n in g && n !in order
    ensures Unordered(g, order + [n]) < Unordered(g, order)
  {
    assert g.Keys - Elements(order + [n]) == g.Keys - Elements(order) - {n};
  }

  lemma NoneMissing<T>(g: Graph<T>, order: seq<T>, n: T)
    requires n in g
    ensures |Missing(g, order, n)| == 0 <==> g[n] <= Elements(order)
  {
    if |Missing(g, order, n)| == 0 {
      forall p | p in g[n] ensures p in order {
        assert p !in Missing(g, order, n);
      }
    }
  }

  // ---- the order the declarations make ------------------------------------------

  /** `x` stands before `y` in the list. */
  ghost predicate Precedes<T>(list: seq<T>, x: T, y: T) {
    exists a, b :: 0 <= a < b < |list| && list[a] == x && list[b] == y
  }

  lemma OneComesFirst<T>(list: seq<T>, x: T, y: T)
    requires Distinct(list) && Precedes(list, x, y)
    ensures !Precedes(list, y, x)
  {
  }

  lemma PrecedesInTail<T>(s: seq<T>, x: T, y: T)
    requires s != [] && (Precedes(s[1..], x, y) || (x == s[0] && y in s[1..]))
    ensures Precedes(s, x, y)
  {
    if Precedes(s[1..], x, y) {
      var a, b :| 0 <= a < b < |s[1..]| && s[1..][a] == x && s[1..][b] == y;
      assert s[a + 1] == x && s[b + 1] == y;
    } else {
      var b :| 0 <= b < |s[1..]| && s[1..][b] == y;
      assert s[0] == x && s[b + 1] == y;
    }
  }

  /** Filtering keeps the order. */
  lemma {:induction false} FilterOrder<T(!new)>(s: seq<T>, u: set<T>, i: nat, j: nat)
    requires i < j < |Filter(s, u)|
    ensures Precedes(s, Filter(s, u)[i], Filter(s, u)[j])
  {
    var kept, rest := if s[0] in u then [s[0]] else [], Filter(s[1..], u);
    assert Filter(s, u) == kept + rest;
    if i < |kept| {
      FilterMembers(s[1..], u);
      assert rest[j - 1] in rest;
    } else {
      FilterOrder(s[1..], u, i - |kept|, j - |kept|);
    }
    PrecedesInTail(s, Filter(s, u)[i], Filter(s, u)[j]);
  }

  /** The first `m` of the order hold all parents of `n`, and the last of them is one. */
  ghost predicate FreedAt<T>(g: Graph<T>, order: seq<T>, n: T, m: nat) {
    m <= |order| && n in g && g[n] <= Elements(order[..m]) && (m > 0 ==> order[m - 1] in g[n])
  }

  /** Where nodes freed by the same one stand: roots as the nodes were declared, others as the edges were. */
  ghost predicate Sooner<T>(nodes: seq<T>, children: map<T, seq<T>>, order: seq<T>, m: nat, x: T, y: T)
    requires m <= |order|
  {
    if m == 0 then Precedes(nodes, x, y) else order[m - 1] in children && Precedes(children[order[m - 1]], x, y)
  }

  /** A node stands before another if its last parent does, or if that is the same and it was declared sooner. */
  ghost predicate Ranked<T>(g: Graph<T>, nodes: seq<T>, children: map<T, seq<T>>, order: seq<T>, line: seq<T>) {
    forall i, j, m, k | 0 <= i < j < |line| && FreedAt(g, order, line[i], m) && FreedAt(g, order, line[j], k) ::
      m < k || (m == k && Sooner(nodes, children, order, m, line[i], line[j]))
  }

  /** Those ordered and those queued, with all their parents ordered, stand ranked. */
  ghost predicate InLine<T>(g: Graph<T>, nodes: seq<T>, children: map<T, seq<T>>, order: seq<T>, queue: seq<T>) {
    && Distinct(order + queue)
    && (forall x | x in order + queue :: x in g && g[x] <= Elements(order))
    && Ranked(g, nodes, children, order, order + queue)
  }

  lemma PrefixBefore<T>(order: seq<T>, head: T, m: nat)
    requires m <= |order|
    ensures (order + [head])[..m] == order[..m] && Elements(order[..m]) <= Elements(order)
  {
  }

  lemma FreedBefore<T>(g: Graph<T>, order: seq<T>, head: T, x: T, m: nat)
    requires x in g && g[x] <= Elements(order) && head !in order && FreedAt(g, order + [head], x, m)
    ensures FreedAt(g, order, x, m)
  {
    if m <= |order| {
      PrefixBefore(order, head, m);
    } else {
      assert false;
    }
  }

  lemma FreedNow<T>(g: Graph<T>, order: seq<T>, head: T, c: T, m: nat)
    requires c in g && head in g[c] && head !in order && FreedAt(g, order + [head], c, m)
    ensures m == |order| + 1
  {
    assert head in Elements((order + [head])[..m]);
    if m <= |order| {
      PrefixBefore(order, head, m);
      assert false;
    }
  }

  lemma StillSooner<T>(nodes: seq<T>, children: map<T, seq<T>>, order: seq<T>, head: T, m: nat, x: T, y: T)
    requires m <= |order| && Sooner(nodes, children, order, m, x, y)
    ensures Sooner(nodes, children, order + [head], m, x, y)
  {
  }

  lemma FreedAreNew<T(!new)>(g: Graph<T>, nodes: seq<T>, children: map<T, seq<T>>, order: seq<T>, queue: seq<T>)
    requires InLine(g, nodes, children, order, queue) && queue != [] && queue[0] in children
    requires forall c | c in children[queue[0]] :: Edge(g, queue[0], c)
    ensures queue[0] !in order
    ensures forall c | c in Freed(g, children[queue[0]], order + [queue[0]]) ::
              c !in order + queue && c in g && queue[0] in g[c] && g[c] <= Elements(order + [queue[0]])
  {
    var head := queue[0];
    assert (order + queue)[|order|] == head;
    forall i | 0 <= i < |order| ensures order[i] != head { assert (order + queue)[i] == order[i]; }
    FilterMembers(children[head], set n | n in children[head] && n in g && g[n] <= Elements(order + [head]));
  }

  lemma RankedPair<T(!new)>(g: Graph<T>, nodes: seq<T>, children: map<T, seq<T>>, order: seq<T>, queue: seq<T>,
        freed: seq<T>, i: nat, j: nat, m: nat, k: nat)
    requires InLine(g, nodes, children, order, queue) && queue != [] && queue[0] in children && queue[0] !in order
    requires freed == Freed(g, children[queue[0]], order + [queue[0]])
    requires forall c | c in freed :: c in g && queue[0] in g[c]
    requires var all := order + queue + freed;
             i < j < |all| && FreedAt(g, order + [queue[0]], all[i], m) && FreedAt(g, order + [queue[0]], all[j], k)
    ensures var all := order + queue + freed;
            m < k || (m == k && Sooner(nodes, children, order + [queue[0]], m, all[i], all[j]))
  {
    var head, front := queue[0], order + queue;
    var all := front + freed;
    if j < |front| {
      assert front[i] in front && front[j] in front;
      FreedBefore(g, order, head, front[i], m);
      FreedBefore(g, order, head, front[j], k);
      if m == k { StillSooner(nodes, children, order, head, m, front[i], front[j]); }
    } else {
      assert all[j] == freed[j - |front|];
      FreedNow(g, order, head, all[j], k);
      if i < |front| {
        assert all[i] == front[i] && front[i] in front;
        FreedBefore(g, order, head, all[i], m);
      } else {
        assert all[i] == freed[i - |front|];
        FreedNow(g, order, head, all[i], m);
        var free := set n | n in children[head] && n in g && g[n] <= Elements(order + [head]);
        FilterOrder(children[head], free, i - |front|, j - |front|);
      }
    }
  }

  /** Serving the head keeps the line ranked. */
  lemma ServeNext<T(!new)>(g: Graph<T>, nodes: seq<T>, children: map<T, seq<T>>, order: seq<T>, queue: seq<T>)
    requires InLine(g, nodes, children, order, queue) && queue != [] && queue[0] in children
    requires Distinct(children[queue[0]]) && forall c | c in children[queue[0]] :: Edge(g, queue[0], c)
    ensures queue[0] in g && queue[0] !in order
    ensures InLine(g, nodes, children, order + [queue[0]],
                   queue[1..] + Freed(g, children[queue[0]], order + [queue[0]])) == true
  {
    var head := queue[0];
    var freed := Freed(g, children[head], order + [head]);
    var all := order + queue + freed;
    FreedAreNew(g, nodes, children, order, queue);
    FilterMembers(children[head], set n | n in children[head] && n in g && g[n] <= Elements(order + [head]));
    assert order + [head] + (queue[1..] + freed) == all;
    assert head in order + queue;
    forall i, j, m: nat, k: nat
      | 0 <= i < j < |all| && FreedAt(g, order + [head], all[i], m) && FreedAt(g, order + [head], all[j], k)
      ensures m < k || (m == k && Sooner(nodes, children, order + [head], m, all[i], all[j]))
    {
      RankedPair(g, nodes, children, order, queue, freed, i, j, m, k);
    }
    assert Ranked(g, nodes, children, order + [head], all);
    DistinctJoined(order + queue, freed);
    assert forall x | x in order :: x in order + queue;
    assert forall x | x in queue :: x in order + queue;
    assert InLine(g, nodes, children, order + [head], queue[1..] + freed);
  }

  lemma DistinctJoined<T>(a: seq<T>, b: seq<T>)
    requires Distinct(a) && Distinct(b) && forall x | x in b :: x !in a
    ensures Distinct(a + b)
  {
    forall j | 0 <= j < |b| ensures b[j] !in a { assert b[j] in b; }
  }

  lemma RootsRanked<T(!new)>(g: Graph<T>, nodes: seq<T>, children: map<T, seq<T>>, roots: set<T>)
    ensures Ranked(g, nodes, children, [], Filter(nodes, roots))
  {
    var queue := Filter(nodes, roots);
    forall i, j, m: nat, k: nat | 0 <= i < j < |queue| && FreedAt(g, [], queue[i], m) && FreedAt(g, [], queue[j], k)
      ensures m == k && Sooner(nodes, children, [], m, queue[i], queue[j])
    {
      FilterOrder(nodes, roots, i, j);
    }
  }

  lemma RootsInLine<T(!new)>(g: Graph<T>, nodes: seq<T>, children: map<T, seq<T>>)
    requires Distinct(nodes)
    ensures InLine(g, nodes, children, [], Freed(g, nodes, []))
  {
    var roots := set n | n in nodes && n in g && g[n] <= Elements<T>([]);
    FilterMembers(nodes, roots);
    RootsRanked(g, nodes, children, roots);
    assert [] + Filter(nodes, roots) == Filter(nodes, roots);
  }

  /** First come, first served leaves everything ranked. */
  lemma {:induction false} FirstComeIsRanked<T(!new)>(g: Graph<T>, nodes: seq<T>, children: map<T, seq<T>>,
        order: seq<T>, queue: seq<T>)
    requires InLine(g, nodes, children, order, queue) && Lists(g, children)
    requires forall n | n in children :: Distinct(children[n])
    ensures var all := FirstCome(g, children, order, queue); Ranked(g, nodes, children, all, all) == true
    decreases Unordered(g, order)
  {
    if queue == [] {
      assert order + [] == order;
    } else {
      assert queue[0] in order + queue;
      ServeNext(g, nodes, children, order, queue);
      OneFewer(g, order, queue[0]);
      FirstComeIsRanked(g, nodes, children, order + [queue[0]],
                        queue[1..] + Freed(g, children[queue[0]], order + [queue[0]]));
    }
  }

  /** The order has every node once, after its parents, and ranked. */
  ghost predicate InDeclaredOrder<T(!new)>(g: Graph<T>, nodes: seq<T>, children: map<T, seq<T>>, order: seq<T>) {
    IsTopological(g, order) && Ranked(g, nodes, children, order, order)
  }

  /** The parents of the node at `i` are all before it. */
  lemma ParentsInPrefix<T(!new)>(g: Graph<T>, order: seq<T>, i: nat)
    requires IsTopological(g, order) && Closed(g) && i < |order|
    ensures order[i] in g && g[order[i]] <= Elements(order[..i])
  {
    assert order[i] in order;
    forall p | p in g[order[i]] ensures p in order[..i] {
      assert Edge(g, p, order[i]);
      var k :| 0 <= k < |order| && order[k] == p;
    }
  }

  /** Some prefix frees each node. */
  lemma {:induction false} FreedSomewhere<T>(g: Graph<T>, order: seq<T>, n: T, i: nat) returns (m: nat)
    requires i <= |order| && n in g && g[n] <= Elements(order[..i])
    ensures m <= i && FreedAt(g, order, n, m)
  {
    if i == 0 || order[i - 1] in g[n] { return i; }
    assert order[..i] == order[..i - 1] + [order[i - 1]];
    m := FreedSomewhere(g, order, n, i - 1);
  }

  lemma FreedByPrefix<T>(g: Graph<T>, a: seq<T>, b: seq<T>, n: T, m: nat, i: nat)
    requires m <= i <= |a| && i <= |b| && a[..i] == b[..i] && FreedAt(g, a, n, m)
    ensures FreedAt(g, b, n, m) && (m > 0 ==> a[m - 1] == b[m - 1])
  {
    assert a[..m] == a[..i][..m] && b[..m] == b[..i][..m];
    if m > 0 { assert a[..i][m - 1] == b[..i][m - 1]; }
  }

  /** What stands at `i` in one order stands after it in the other, if not at `i` too. */
  lemma StandsLater<T(!new)>(g: Graph<T>, a: seq<T>, b: seq<T>, i: nat) returns (j: nat)
    requires IsTopological(g, a) && IsTopological(g, b) && i < |a| && i < |b| && a[..i] == b[..i] && a[i] != b[i]
    ensures i < j < |b| && b[j] == a[i]
  {
    assert a[i] in a;
    j :| 0 <= j < |b| && b[j] == a[i];
    assert forall k | 0 <= k < i :: a[k] == a[..i][k] && b[k] == b[..i][k];
  }

  lemma SameNext<T(!new)>(g: Graph<T>, nodes: seq<T>, children: map<T, seq<T>>, a: seq<T>, b: seq<T>, i: nat)
    requires Closed(g) && Distinct(nodes) && forall n | n in children :: Distinct(children[n])
    requires InDeclaredOrder(g, nodes, children, a) && InDeclaredOrder(g, nodes, children, b)
    requires i < |a| && i < |b| && a[..i] == b[..i]
    ensures a[i] == b[i]
  {
    if a[i] != b[i] {
      var x, y := a[i], b[i];
      ParentsInPrefix(g, a, i);
      ParentsInPrefix(g, b, i);
      var m := FreedSomewhere(g, a, x, i);
      var k := FreedSomewhere(g, b, y, i);
      FreedByPrefix(g, a, b, x, m, i);
      FreedByPrefix(g, b, a, y, k, i);
      var atB := StandsLater(g, a, b, i);
      var atA := StandsLater(g, b, a, i);
      assert m == k && Sooner(nodes, children, a, m, x, y) && Sooner(nodes, children, b, m, y, x);
      OneComesFirst(if m == 0 then nodes else children[a[m - 1]], x, y);
    }
  }

  /** There is one such order at most: the declarations leave nothing to chance. */
  lemma OneDeclaredOrder<T(!new)>(g: Graph<T>, nodes: seq<T>, children: map<T, seq<T>>, a: seq<T>, b: seq<T>)
    requires Closed(g) && Distinct(nodes) && forall n | n in children :: Distinct(children[n])
    requires InDeclaredOrder(g, nodes, children, a) && InDeclaredOrder(g, nodes, children, b)
    ensures a == b
  {
    DistinctSize(a);
    DistinctSize(b);
    assert Elements(a) == Elements(b);
    for i := 0 to |a|
      invariant a[..i] == b[..i]
    {
      SameNext(g, nodes, children, a, b, i);
      assert a[..i + 1] == a[..i] + [a[i]] && b[..i + 1] == b[..i] + [b[i]];
    }
    assert a[..|a|] == a && b[..|b|] == b;
  }

  /** Exactly the nodes ordered or queued have a remaining in-degree of zero. */
  ghost predicate Counted<T(!new)>(degree: map<T, int>, order: seq<T>, queue: seq<T>) {
    && Distinct(order + queue)
    && (forall n :: n in order + queue <==> n in degree && degree[n] == 0)
  }

  /** A counter is the number of parents not ordered yet, plus one for each child in `rest`, still to be lowered. */
  ghost predicate DegreesOk<T(!new)>(g: Graph<T>, degree: map<T, int>, order: seq<T>, rest: seq<T>) {
    && degree.Keys == g.Keys
    && forall n | n in g :: degree[n] == |Missing(g, order, n)| + if n in rest then 1 else 0
  }

  lemma SettleOne<T(!new)>(g: Graph<T>, degree: map<T, int>, order: seq<T>, queue: seq<T>, child: T, rest: seq<T>)
    requires DegreesOk(g, degree, order, [child] + rest) && Counted(degree, order, queue)
    requires child in g && child !in rest
    ensures var degree' := degree[child := degree[child] - 1];
            && DegreesOk(g, degree', order, rest)
            && Counted(degree', order, if degree'[child] == 0 then queue + [child] else queue)
  {
    assert child in [child] + rest;
    assert child !in order + queue;
    var degree' := degree[child := degree[child] - 1];
    forall n | n in g ensures degree'[n] == |Missing(g, order, n)| + if n in rest then 1 else 0 {
      assert n in [child] + rest <==> n == child || n in rest;
    }
    assert order + (queue + [child]) == order + queue + [child];
  }

  lemma FreedOneMore<T>(queue: seq<T>, kids: seq<T>, i: nat, free: set<T>)
    requires i < |kids|
    ensures queue + Filter(kids[..i + 1], free)
            == queue + Filter(kids[..i], free) + if kids[i] in free then [kids[i]] else []
  {
    assert kids[..i + 1] == kids[..i] + [kids[i]];
    FilterAppend(kids[..i], kids[i], free);
  }

  /** Lowers the counters of the children of the node just ordered, queueing those that reach zero. */
  method Settle<T(==,!new)>(ghost g: Graph<T>, kids: seq<T>, degree: map<T, int>, ghost order: seq<T>, queue: seq<T>)
    returns (degree': map<T, int>, queue': seq<T>)
    requires Distinct(kids) && forall c | c in kids :: c in g
    requires Counted(degree, order, queue) && DegreesOk(g, degree, order, kids)
    ensures Counted(degree', order, queue') && DegreesOk(g, degree', order, [])
    ensures queue' == queue + Freed(g, kids, order)
  {
    degree', queue' := degree, queue;
    ghost var free := set n | n in kids && n in g && g[n] <= Elements(order);
    assert kids[0..] == kids;
    for i := 0 to |kids|
      invariant Counted(degree', order, queue') == true && DegreesOk(g, degree', order, kids[i..]) == true
      invariant queue' == queue + Filter(kids[..i], free)
    {
      var child := kids[i];
      assert kids[i..] == [child] + kids[i + 1..];
      NoneMissing(g, order, child);
      SettleOne(g, degree', order, queue', child, kids[i + 1..]);
      FreedOneMore(queue, kids, i, free);
      degree' := degree'[child := degree'[child] - 1];
      if degree'[child] == 0 {
        queue' := queue' + [child];
      }
    }
    assert kids[|kids|..] == [] && kids[..|kids|] == kids;
  }

  lemma RootsCounted<T(!new)>(g: Graph<T>, nodes: seq<T>, degree: map<T, int>)
    requires Distinct(nodes) && g.Keys == Elements(nodes) && DegreesOk(g, degree, [], [])
    ensures Counted(degree, [], Freed(g, nodes, []))
  {
    var queue := Freed(g, nodes, []);
    FilterMembers(nodes, set n | n in nodes && n in g && g[n] <= Elements<T>([]));
    assert [] + queue == queue;
    forall n ensures n in queue <==> n in degree && degree[n] == 0 {
      if n in g { NoneMissing(g, [], n); }
    }
  }

  /** Taking the head of the queue extends the order. */
  lemma NextPopped<T(!new)>(g: Graph<T>, kids: seq<T>, node: T, degree: map<T, int>, order: seq<T>, queue: seq<T>)
    requires OrdersPrefix(g, order) && Counted(degree, order, [node] + queue) && DegreesOk(g, degree, order, [])
    requires forall n | n in g :: n in kids <==> node in g[n]
    ensures node in g && node !in order && OrdersPrefix(g, order + [node])
    ensures Counted(degree, order + [node], queue) && DegreesOk(g, degree, order + [node], kids)
  {
    var all := order + [node] + queue;
    assert order + ([node] + queue) == all && all[|order|] == node && node in all;
    forall i | 0 <= i < |order| ensures order[i] != node { assert all[i] == order[i]; }
    assert Missing(g, order, node) == {};
    forall p | p in g[node] ensures p in order { assert p !in Missing(g, order, node); }
    AppendNext(g, order, node);
    forall n | n in g ensures degree[n] == |Missing(g, order + [node], n)| + if n in kids then 1 else 0 {
      MissingAfter(g, order, node, n);
    }
  }

  /** Nodes Kahn's algorithm leaves over wait for one another. */
  lemma LeftoverHasCycle<T(!new)>(g: Graph<T>, degree: map<T, int>, order: seq<T>, n: T)
    requires Closed(g) && Counted(degree, order, []) && DegreesOk(g, degree, order, [])
    requires n in g && n !in order
    ensures !Acyclic(g)
  {
    var left := g.Keys - Elements(order);
    assert n in left;
    forall m | m in left ensures g[m] * left != {} {
      assert m !in order + [];
      var p :| p in Missing(g, order, m);
      assert p in g[m] * left;
    }
    StuckSetHasCycle(g, left);
  }

  ghost predicate Kahn<T(!new)>(g: Graph<T>, degree: map<T, int>, order: seq<T>, queue: seq<T>) {
    Counted(degree, order, queue) && DegreesOk(g, degree, order, []) && OrdersPrefix(g, order)
  }

  lemma HeadIsNode<T(!new)>(g: Graph<T>, degree: map<T, int>, order: seq<T>, queue: seq<T>)
    requires Kahn(g, degree, order, queue) && queue != []
    ensures queue[0] in g
  {
    assert queue[0] in order + queue;
  }

  lemma PopStep<T(!new)>(g: Graph<T>, kids: seq<T>, degree: map<T, int>, order: seq<T>, queue: seq<T>)
    requires Kahn(g, degree, order, queue) && queue != []
    requires forall n | n in g :: n in kids <==> queue[0] in g[n]
    ensures Counted(degree, order + [queue[0]], queue[1..]) && DegreesOk(g, degree, order + [queue[0]], kids)
    ensures queue[0] !in order && OrdersPrefix(g, order + [queue[0]])
    ensures Unordered(g, order + [queue[0]]) < Unordered(g, order)
  {
    var node := queue[0];
    assert queue == [node] + queue[1..];
    NextPopped(g, kids, node, degree, order, queue[1..]);
    OneFewer(g, order, node);
  }

  /** With the queue empty, the order is complete or the graph has a cycle. */
  lemma KahnEnds<T(!new)>(g: Graph<T>, degree: map<T, int>, order: seq<T>, size: nat)
    requires Closed(g) && Kahn(g, degree, order, []) && size == |g.Keys|
    ensures |order| != size ==> !Acyclic(g)
    ensures |order| == size ==> IsTopological(g, order) && Acyclic(g)
  {
    assert forall n | n in order :: n in order + [];
    DistinctSize(order);
    assert Elements(order) <= g.Keys;
    if |order| == size {
      SubsetSameSize(Elements(order), g.Keys);
      WholePrefixIsTopological(g, order);
      TopologicalMeansAcyclic(g, order);
    } else {
      assert Elements(order) != g.Keys;
      var n :| n in g.Keys && n !in Elements(order);
      LeftoverHasCycle(g, degree, order, n);
    }
  }

  // ---- depth-first search, on values --------------------------------------------

  /** `children` is the graph `g` read the other way. */
  ghost predicate Lists<T(!new)>(g: Graph<T>, children: map<T, seq<T>>) {
    && children.Keys == g.Keys
    && (forall p, c | p in children && c in children[p] :: Edge(g, p, c))
    && (forall p, c | p in children && Edge(g, p, c) :: c in children[p])
  }

  ghost predicate StackOk<T>(children: map<T, seq<T>>, stack: seq<(T, nat)>, path: seq<T>) {
    && |stack| == |path|
    && (forall i | 0 <= i < |path| ::
          path[i] in children && stack[i].0 == path[i] && stack[i].1 <= |children[path[i]]|)
    && (forall i | 0 <= i < |path| - 1 ::
          stack[i].1 >= 1 && children[path[i]][stack[i].1 - 1] == path[i + 1])
  }

  ghost predicate IsBlack<T>(colour: map<T, Colour>, n: T) {
    n in colour && colour[n].Black?
  }

  /** How many children of `path[i]` are fully explored: all looked at, except the one the path continues with. */
  ghost predicate Looked<T>(children: map<T, seq<T>>, colour: map<T, Colour>, n: T, count: int)
    requires n in children
  {
    forall k | 0 <= k < |children[n]| && k < count :: IsBlack(colour, children[n][k])
  }

  /** The path from the start of the search, with the number of children already looked at on each node. */
  ghost predicate OnPath<T(!new)>(children: map<T, seq<T>>, colour: map<T, Colour>, stack: seq<(T, nat)>,
        path: seq<T>)
  {
    && StackOk(children, stack, path) && Distinct(path)
    && (forall n :: n in path <==> n in colour && colour[n].Grey?)
    && (forall i | 0 <= i < |path| - 1 :: Looked(children, colour, path[i], stack[i].1 - 1))
    && (path != [] ==> Looked(children, colour, path[|path| - 1], stack[|path| - 1].1))
  }

  ghost predicate ChildrenBefore<T>(children: map<T, seq<T>>, finished: seq<T>, j: nat)
    requires j < |finished|
  {
    finished[j] in children && forall c | c in children[finished[j]] :: c in finished[..j]
  }

  /** `finished` lists the explored nodes, each after all of its children. */
  ghost predicate Explored<T(!new)>(children: map<T, seq<T>>, colour: map<T, Colour>, finished: seq<T>) {
    && colour.Keys == children.Keys
    && Distinct(finished)
    && (forall n :: n in finished <==> IsBlack(colour, n))
    && (forall j | 0 <= j < |finished| :: ChildrenBefore(children, finished, j))
  }

  ghost function Whites<T>(colour: map<T, Colour>): set<T> {
    set n | n in colour && colour[n].White?
  }

  lemma AllFinishedIsAcyclic<T(!new)>(g: Graph<T>, children: map<T, seq<T>>, finished: seq<T>)
    requires Closed(g) && Lists(g, children)
    requires Distinct(finished) && forall n :: n in finished <==> n in children
    requires forall j | 0 <= j < |finished| :: ChildrenBefore(children, finished, j)
    ensures Acyclic(g)
  {
    var k := |finished|;
    var order := seq(k, i requires 0 <= i < k => finished[k - 1 - i]);
    forall n ensures n in order <==> n in g {
      if n in g {
        var j :| 0 <= j < k && finished[j] == n;
        assert order[k - 1 - j] == n;
      }
    }
    forall i, j | 0 <= i < k && 0 <= j < k && Edge(g, order[i], order[j]) ensures i < j {
      assert ChildrenBefore(children, finished, k - 1 - i);
      var m :| 0 <= m < k - 1 - i && finished[..k - 1 - i][m] == order[j];
      assert finished[m] == order[j];
    }
    TopologicalMeansAcyclic(g, order);
  }

  lemma BackEdgeClosesCycle<T(!new)>(g: Graph<T>, children: map<T, seq<T>>, stack: seq<(T, nat)>, path: seq<T>,
        child: T, cut: nat)
    requires Lists(g, children) && StackOk(children, stack, path) && Distinct(path) && path != []
    requires child in children[path[|path| - 1]] && cut < |path| && path[cut] == child
    ensures IsCycle(g, path[cut..] + [child])
  {
    var c := path[cut..] + [child];
    forall i | 0 <= i < |c| - 1 ensures Edge(g, c[i], c[i + 1]) {
      assert c[i] == path[cut + i];
      if cut + i < |path| - 1 {
        assert children[path[cut + i]][stack[cut + i].1 - 1] == path[cut + i + 1];
      }
      assert c[i + 1] in children[c[i]];
    }
    assert c[1..] == path[cut + 1..] + [child];
  }

  /** The next child of the top is explored: move on. */
  lemma SkipBlack<T(!new)>(children: map<T, seq<T>>, colour: map<T, Colour>, stack: seq<(T, nat)>, path: seq<T>)
    requires OnPath(children, colour, stack, path) && path != []
    requires var (node, index) := stack[|stack| - 1]; index < |children[node]| && IsBlack(colour, children[node][index])
    ensures var (node, index) := stack[|stack| - 1];
            OnPath(children, colour, stack[|stack| - 1 := (node, index + 1)], path)
  {
  }

  /** The next child of the top is new: go down. */
  lemma PushWhite<T(!new)>(children: map<T, seq<T>>, colour: map<T, Colour>, stack: seq<(T, nat)>, path: seq<T>)
    requires OnPath(children, colour, stack, path) && path != []
    requires var (node, index) := stack[|stack| - 1];
             && index < |children[node]| && children[node][index] in children
             && children[node][index] in colour && colour[children[node][index]].White?
    ensures var (node, index) := stack[|stack| - 1];
            var child := children[node][index];
            var stack' := stack[|stack| - 1 := (node, index + 1)] + [(child, 0)];
            OnPath(children, colour[child := Grey], stack', path + [child])
  {
    var (node, index) := stack[|stack| - 1];
    var child := children[node][index];
    var colour' := colour[child := Grey];
    var stack' := stack[|stack| - 1 := (node, index + 1)] + [(child, 0)];
    var path' := path + [child];
    assert child !in path;
    forall n ensures n in path' <==> n in colour' && colour'[n].Grey? {
      assert n in path <==> n in colour && colour[n].Grey?;
    }
    forall i | 0 <= i < |path'| - 1 ensures Looked(children, colour', path'[i], stack'[i].1 - 1) {
      if i < |path| - 1 {
        assert Looked(children, colour, path[i], stack[i].1 - 1);
      } else {
        assert Looked(children, colour, path[i], stack[i].1);
      }
    }
  }

  /** All children of the top are explored: so is the top. */
  lemma FinishExplored<T(!new)>(children: map<T, seq<T>>, colour: map<T, Colour>, finished: seq<T>, node: T)
    requires Explored(children, colour, finished) && node in colour && !colour[node].Black?
    requires Looked(children, colour, node, |children[node]|)
    ensures Explored(children, colour[node := Black], finished + [node])
  {
    var colour' := colour[node := Black];
    var finished' := finished + [node];
    assert node !in finished by { assert !IsBlack(colour, node); }
    assert colour'.Keys == colour.Keys;
    forall n ensures n in finished' <==> IsBlack(colour', n) {
      assert n in finished <==> IsBlack(colour, n);
    }
    forall j | 0 <= j < |finished'| ensures ChildrenBefore(children, finished', j) {
      if j < |finished| {
        assert ChildrenBefore(children, finished, j);
        assert finished'[..j] == finished[..j];
      } else {
        assert finished'[..j] == finished;
        forall c | c in children[node] ensures c in finished {
          var k :| 0 <= k < |children[node]| && children[node][k] == c;
          assert IsBlack(colour, c);
        }
      }
    }
  }

  lemma FinishPath<T(!new)>(children: map<T, seq<T>>, colour: map<T, Colour>, stack: seq<(T, nat)>, path: seq<T>)
    requires OnPath(children, colour, stack, path) && path != []
    ensures var node := path[|path| - 1]; var top := |path| - 1;
            OnPath(children, colour[node := Black], stack[..top], path[..top])
  {
    var top := |path| - 1;
    var node := path[top];
    var colour' := colour[node := Black];
    forall n ensures n in path[..top] <==> n in colour' && colour'[n].Grey? {
      assert n in path <==> n in colour && colour[n].Grey?;
      assert n in path[..top] <==> n in path && n != node;
    }
    forall i | 0 <= i < top ensures Looked(children, colour', path[i], stack[i].1 - 1) {
      assert Looked(children, colour, path[i], stack[i].1 - 1);
    }
    if top > 0 {
      assert children[path[top - 1]][stack[top - 1].1 - 1] == node;
    }
  }

  /** The state of the search of the tree that began at `start` when the colours were `before`. */
  ghost predicate Searching<T(!new)>(children: map<T, seq<T>>, before: map<T, Colour>, start: T,
                                     colour: map<T, Colour>, finished: seq<T>, stack: seq<(T, nat)>, path: seq<T>) {
    && Explored(children, colour, finished) && OnPath(children, colour, stack, path)
    && start in colour && !colour[start].White?
    && (forall n | IsBlack(before, n) :: IsBlack(colour, n))
  }

  lemma SearchStarts<T(!new)>(children: map<T, seq<T>>, before: map<T, Colour>, start: T, finished: seq<T>)
    requires Explored(children, before, finished) && start in children && before[start].White?
    requires forall n | n in before :: !before[n].Grey?
    ensures Searching(children, before, start, before[start := Grey], finished, [(start, 0)], [start])
  {
    var colour := before[start := Grey];
    forall n ensures IsBlack(colour, n) <==> IsBlack(before, n) {}
    assert colour.Keys == before.Keys;
  }

  lemma TopOfStack<T(!new)>(g: Graph<T>, children: map<T, seq<T>>, before: map<T, Colour>, start: T,
                            colour: map<T, Colour>, finished: seq<T>, stack: seq<(T, nat)>, path: seq<T>)
    requires Closed(g) && Lists(g, children) && stack != []
    requires Searching(children, before, start, colour, finished, stack, path)
    ensures |path| == |stack|
    ensures var (node, index) := stack[|stack| - 1];
            && node == path[|path| - 1] && node in children && node in colour && index <= |children[node]|
            && forall c | c in children[node] :: c in colour && (colour[c].Grey? ==> c in path)
  {
    var (node, index) := stack[|stack| - 1];
    assert node in path;
    forall c | c in children[node] ensures c in colour {
      assert Edge(g, node, c);
    }
  }

  lemma BackEdge<T(!new)>(g: Graph<T>, children: map<T, seq<T>>, before: map<T, Colour>, start: T,
                          colour: map<T, Colour>, finished: seq<T>, stack: seq<(T, nat)>, path: seq<T>, child: T,
                              cut: nat)
    requires Lists(g, children) && Searching(children, before, start, colour, finished, stack, path)
    requires path != [] && path[|path| - 1] in children && child in children[path[|path| - 1]]
    requires cut < |path| && path[cut] == child
    ensures IsCycle(g, path[cut..] + [child])
  {
    BackEdgeClosesCycle(g, children, stack, path, child, cut);
  }

  lemma SkipStep<T(!new)>(children: map<T, seq<T>>, before: map<T, Colour>, start: T,
                          colour: map<T, Colour>, finished: seq<T>, stack: seq<(T, nat)>, path: seq<T>)
    requires Searching(children, before, start, colour, finished, stack, path) && path != []
    requires var (node, index) := stack[|stack| - 1]; index < |children[node]| && IsBlack(colour, children[node][index])
    ensures var (node, index) := stack[|stack| - 1];
            Searching(children, before, start, colour, finished, stack[|stack| - 1 := (node, index + 1)], path)
  {
    SkipBlack(children, colour, stack, path);
  }

  lemma PushStep<T(!new)>(children: map<T, seq<T>>, before: map<T, Colour>, start: T,
                          colour: map<T, Colour>, finished: seq<T>, stack: seq<(T, nat)>, path: seq<T>)
    requires Searching(children, before, start, colour, finished, stack, path) && path != []
    requires var (node, index) := stack[|stack| - 1];
             index < |children[node]| && children[node][index] in colour && colour[children[node][index]].White?
    ensures var (node, index) := stack[|stack| - 1];
            var child := children[node][index];
            && Searching(children, before, start, colour[child := Grey], finished,
                         stack[|stack| - 1 := (node, index + 1)] + [(child, 0)], path + [child])
            && |Whites(colour[child := Grey])| < |Whites(colour)|
  {
    var (node, index) := stack[|stack| - 1];
    var child := children[node][index];
    var colour' := colour[child := Grey];
    PushWhite(children, colour, stack, path);
    forall n ensures IsBlack(colour', n) <==> IsBlack(colour, n) {}
    assert colour'.Keys == colour.Keys;
    assert Whites(colour') == Whites(colour) - {child};
  }

  lemma FinishStep<T(!new)>(children: map<T, seq<T>>, before: map<T, Colour>, start: T,
                            colour: map<T, Colour>, finished: seq<T>, stack: seq<(T, nat)>, path: seq<T>)
    requires Searching(children, before, start, colour, finished, stack, path) && path != []
    requires var (node, index) := stack[|stack| - 1]; index >= |children[node]|
    ensures var top := |path| - 1; var node := path[top];
            && Searching(children, before, start, colour[node := Black], finished + [node], stack[..top], path[..top])
            && |Whites(colour[node := Black])| == |Whites(colour)|
  {
    var top := |path| - 1;
    var node := path[top];
    var colour' := colour[node := Black];
    assert node in path;
    FinishExplored(children, colour, finished, node);
    FinishPath(children, colour, stack, path);
    assert Whites(colour') == Whites(colour);
  }

  lemma SearchEnds<T(!new)>(children: map<T, seq<T>>, before: map<T, Colour>, start: T,
                            colour: map<T, Colour>, finished: seq<T>, stack: seq<(T, nat)>, path: seq<T>)
    requires Searching(children, before, start, colour, finished, stack, path) && stack == []
    ensures Explored(children, colour, finished) && IsBlack(colour, start)
    ensures forall n | n in colour :: !colour[n].Grey?
    ensures forall n | IsBlack(before, n) :: IsBlack(colour, n)
  {
    forall n | n in colour ensures !colour[n].Grey? { assert n !in path; }
  }

  /** One tree of the search. Either a back edge shows a cycle, or everything reachable from `start` is explored. */
  method SearchFrom<T(==,!new)>(ghost g: Graph<T>, children: map<T, seq<T>>, start: T, before: map<T, Colour>,
        ghost done: seq<T>)
    returns (found: bool, cycle: seq<T>, colour: map<T, Colour>, ghost finished: seq<T>)
    requires Closed(g) && Lists(g, children) && Explored(children, before, done)
    requires start in children && before[start].White?
    requires forall n | n in before :: !before[n].Grey?
    ensures found ==> IsCycle(g, cycle)
    ensures !found ==> Explored(children, colour, finished) && IsBlack(colour, start)
    ensures !found ==> forall n | n in colour :: !colour[n].Grey?
    ensures !found ==> forall n | IsBlack(before, n) :: IsBlack(colour, n)
  {
    SearchStarts(children, before, start, done);
    var stack: seq<(T, nat)> := [(start, 0)];
    var path := [start];
    found, cycle, colour, finished := false, [], before[start := Grey], done;
    ghost var left := |children[start]|;
    while stack != []
      // compared with `true` so that the verifier keeps the predicate folded
      invariant Searching(children, before, start, colour, finished, stack, path) == true
      invariant stack != [] ==> left == Unseen(children, stack)
      decreases |Whites(colour)|, |stack|, left
    {
      TopOfStack(g, children, before, start, colour, finished, stack, path);
      var top := |stack| - 1;
      var (node, index) := stack[top];
      if index < |children[node]| {
        var child := children[node][index];
        if colour[child] == Grey {
          var cut := IndexOf(path, child);
          BackEdge(g, children, before, start, colour, finished, stack, path, child, cut);
          return true, path[cut..] + [child], colour, finished;
        }
        if colour[child] == White {
          PushStep(children, before, start, colour, finished, stack, path);
          stack := stack[top := (node, index + 1)] + [(child, 0)];
          path := path + [child];
          colour := colour[child := Grey];
        } else {
          SkipStep(children, before, start, colour, finished, stack, path);
          stack := stack[top := (node, index + 1)];
        }
      } else {
        FinishStep(children, before, start, colour, finished, stack, path);
        stack := stack[..top];
        path := path[..top];
        colour := colour[node := Black];
        finished := finished + [node];
      }
      left := if stack == [] then 0 else Unseen(children, stack);
    }
    SearchEnds(children, before, start, colour, finished, stack, path);
  }

  /** Between trees of the search: what has been seen is explored. */
  ghost predicate Searched<T(!new)>(children: map<T, seq<T>>, starts: seq<T>, colour: map<T, Colour>,
        finished: seq<T>)
  {
    && Explored(children, colour, finished)
    && (forall n | n in colour :: !colour[n].Grey?)
    && (forall n | n in starts :: IsBlack(colour, n))
  }

  lemma SearchedAll<T(!new)>(g: Graph<T>, children: map<T, seq<T>>, nodes: seq<T>, colour: map<T, Colour>,
        finished: seq<T>)
    requires Closed(g) && Lists(g, children) && children.Keys == Elements(nodes)
    requires Searched(children, nodes, colour, finished)
    ensures Acyclic(g)
  {
    forall n ensures n in finished <==> n in children {
      assert n in finished <==> IsBlack(colour, n);
    }
    AllFinishedIsAcyclic(g, children, finished);
  }

  /** The children of the top of the stack not looked at yet. */
  ghost function Unseen<T>(children: map<T, seq<T>>, stack: seq<(T, nat)>): int
    requires stack != []
  {
    var (node, index) := stack[|stack| - 1];
    if node in children then |children[node]| - index else 0
  }

  // ---- the adjacency list ----------------------------------------------------------

  /** The two dictionaries hold the same edges, without repetition or self-loop. */
  ghost predicate Adjacency<T(!new)>(nodes: seq<T>, children: map<T, seq<T>>, parents: map<T, seq<T>>) {
    && Distinct(nodes)
    && children.Keys == Elements(nodes) && parents.Keys == Elements(nodes)
    && (forall n | n in children :: Distinct(children[n]) && n !in children[n])
    && (forall n | n in parents :: Distinct(parents[n]))
    && (forall p, c :: Mirrored(children, parents, p, c))
  }

  ghost predicate Mirrored<T>(children: map<T, seq<T>>, parents: map<T, seq<T>>, p: T, c: T) {
    p in children && c in children[p] <==> c in parents && p in parents[c]
  }

  /** The edges, as `node -> set of parents`. */
  ghost function EdgesOf<T>(parents: map<T, seq<T>>): Graph<T> {
    map n | n in parents :: Elements(parents[n])
  }

  lemma AdjacencyLists<T(!new)>(nodes: seq<T>, children: map<T, seq<T>>, parents: map<T, seq<T>>)
    requires Adjacency(nodes, children, parents)
    ensures Closed(EdgesOf(parents)) && Lists(EdgesOf(parents), children)
  {
    var g := EdgesOf(parents);
    forall p, c | p in children && c in children[p] ensures Edge(g, p, c) {
      assert Mirrored(children, parents, p, c);
    }
    forall p, c | Edge(g, p, c) ensures p in children && c in children[p] {
      assert Mirrored(children, parents, p, c);
    }
    forall n | n in g ensures g[n] <= g.Keys {
      forall p | p in g[n] ensures p in g.Keys {
        assert Edge(g, p, n);
      }
    }
  }

  lemma NewNode<T(!new)>(nodes: seq<T>, children: map<T, seq<T>>, parents: map<T, seq<T>>, n: T)
    requires Adjacency(nodes, children, parents) && n !in nodes
    ensures Adjacency(nodes + [n], children[n := []], parents[n := []])
  {
    var children', parents' := children[n := []], parents[n := []];
    forall p, c ensures Mirrored(children', parents', p, c) {
      NewNodeMirrored(nodes, children, parents, n, p, c);
    }
    assert Elements(nodes + [n]) == Elements(nodes) + {n};
  }

  lemma NewNodeMirrored<T(!new)>(nodes: seq<T>, children: map<T, seq<T>>, parents: map<T, seq<T>>, n: T, p: T, c: T)
    requires Adjacency(nodes, children, parents) && n !in nodes
    ensures Mirrored(children[n := []], parents[n := []], p, c)
  {
    assert Mirrored(children, parents, p, c);
  }

  lemma NewNodeEdges<T>(parents: map<T, seq<T>>, n: T)
    ensures EdgesOf(parents[n := []]) == EdgesOf(parents)[n := {}]
  {
    assert Elements<T>([]) == {};
  }

  lemma NewEdge<T(!new)>(nodes: seq<T>, children: map<T, seq<T>>, parents: map<T, seq<T>>, p: T, c: T)
    requires Adjacency(nodes, children, parents) && p in nodes && c in nodes && p != c && c !in children[p]
    ensures Adjacency(nodes, children[p := children[p] + [c]], parents[c := parents[c] + [p]])
    ensures EdgesOf(parents[c := parents[c] + [p]]) == EdgesOf(parents)[c := EdgesOf(parents)[c] + {p}]
  {
    var children', parents' := children[p := children[p] + [c]], parents[c := parents[c] + [p]];
    forall q, d ensures Mirrored(children', parents', q, d) {
      assert Mirrored(children, parents, q, d);
    }
    assert Mirrored(children, parents, p, c);
    assert Elements(parents[c] + [p]) == Elements(parents[c]) + {p};
  }

  lemma RepeatedEdge<T(!new)>(nodes: seq<T>, children: map<T, seq<T>>, parents: map<T, seq<T>>, p: T, c: T)
    requires Adjacency(nodes, children, parents) && p in children && c in children[p]
    ensures c in parents && EdgesOf(parents) == EdgesOf(parents)[c := EdgesOf(parents)[c] + {p}]
  {
    assert Mirrored(children, parents, p, c);
    assert Elements(parents[c]) + {p} == Elements(parents[c]);
  }

  /** The dependencies of `n` are other nodes. */
  ghost predicate ProperList<T>(keys: seq<T>, n: T, listed: seq<T>) {
    forall p | p in listed :: p in keys && p != n
  }

  /** What is wrong with `n` waiting for `p`: that `p` is not a node, or that it is `n` itself. */
  ghost predicate FaultOf<T>(keys: seq<T>, n: T, p: T, error: DagError<T>) {
    if p !in keys then error == UnknownNode(p) else p == n && error == CycleFound([p, p])
  }

  /** The dependencies of `n` before the one at `j` are proper, and that one is not. */
  ghost predicate FirstFault<T>(keys: seq<T>, n: T, listed: seq<T>, j: nat, error: DagError<T>) {
    j < |listed| && ProperList(keys, n, listed[..j]) && FaultOf(keys, n, listed[j], error)
  }

  /** The first `i` keys have their edges, all of them proper, and the others none yet. */
  ghost predicate BuiltUpTo<T>(g: Graph<T>, keys: seq<T>, dependencies: map<T, seq<T>>, i: nat)
    requires dependencies.Keys == Elements(keys) && g.Keys == Elements(keys)
  {
    forall j | 0 <= j < |keys| ::
      if j < i then
        g[keys[j]] == Elements(dependencies[keys[j]]) && ProperList(keys, keys[j], dependencies[keys[j]])
      else g[keys[j]] == {}
  }

  /** Every listed dependency names another of the nodes. */
  ghost predicate ProperEdges<T>(keys: seq<T>, dependencies: map<T, seq<T>>)
    requires dependencies.Keys == Elements(keys)
  {
    forall n | n in keys :: ProperList(keys, n, dependencies[n])
  }

  /** The error is that of the first improper edge, node by node and dependency by dependency. */
  ghost predicate Improper<T>(keys: seq<T>, dependencies: map<T, seq<T>>, error: DagError<T>)
    requires dependencies.Keys == Elements(keys)
  {
    exists i, j | 0 <= i < |keys| && 0 <= j < |dependencies[keys[i]]| ::
      && (forall m | 0 <= m < i :: ProperList(keys, keys[m], dependencies[keys[m]]))
      && FirstFault(keys, keys[i], dependencies[keys[i]], j, error)
  }

  lemma StoppedIsImproper<T>(keys: seq<T>, dependencies: map<T, seq<T>>, i: nat, error: DagError<T>)
    requires dependencies.Keys == Elements(keys) && i < |keys|
    requires forall m | 0 <= m < i :: ProperList(keys, keys[m], dependencies[keys[m]])
    requires exists j | 0 <= j < |dependencies[keys[i]]| ::
               FirstFault(keys, keys[i], dependencies[keys[i]], j, error)
    ensures Improper(keys, dependencies, error) && !ProperEdges(keys, dependencies)
  {
    var j :| 0 <= j < |dependencies[keys[i]]| && FirstFault(keys, keys[i], dependencies[keys[i]], j, error);
    assert keys[i] in keys && dependencies[keys[i]][j] in dependencies[keys[i]];
  }

  /** Among known nodes the only improper edge is one from a node to itself. */
  lemma KnownFault<T>(keys: seq<T>, dependencies: map<T, seq<T>>, error: DagError<T>)
    requires dependencies.Keys == Elements(keys) && Improper(keys, dependencies, error)
    requires forall n | n in keys :: forall p | p in dependencies[n] :: p in keys
    ensures error.CycleFound? && exists n | n in keys :: n in dependencies[n] && error.cycle == [n, n]
  {
    var i, j :| 0 <= i < |keys| && 0 <= j < |dependencies[keys[i]]|
                && FirstFault(keys, keys[i], dependencies[keys[i]], j, error);
    assert keys[i] in keys && dependencies[keys[i]][j] in dependencies[keys[i]];
  }

  lemma BuiltOneMore<T>(g: Graph<T>, g': Graph<T>, keys: seq<T>, dependencies: map<T, seq<T>>, i: nat)
    requires dependencies.Keys == Elements(keys) && g.Keys == Elements(keys) && Distinct(keys) && i < |keys|
    requires BuiltUpTo(g, keys, dependencies, i) && g' == g[keys[i] := Elements(dependencies[keys[i]])]
    requires ProperList(keys, keys[i], dependencies[keys[i]])
    ensures g'.Keys == Elements(keys) && BuiltUpTo(g', keys, dependencies, i + 1)
  {
    assert keys[i] in keys;
  }

  lemma BuiltIsProper<T>(g: Graph<T>, keys: seq<T>, dependencies: map<T, seq<T>>)
    requires dependencies.Keys == Elements(keys) && g.Keys == Elements(keys) && BuiltUpTo(g, keys, dependencies, |keys|)
    ensures ProperEdges(keys, dependencies) && forall n | n in keys :: g[n] == Elements(dependencies[n])
  {
    forall n | n in keys
      ensures g[n] == Elements(dependencies[n]) && ProperList(keys, n, dependencies[n])
    {
      var j :| 0 <= j < |keys| && keys[j] == n;
    }
  }

  /** The children of `p`: the keys that list it, as the keys come. */
  ghost function Listing<T>(keys: seq<T>, dependencies: map<T, seq<T>>, p: T): seq<T> {
    Filter(keys, set n | n in dependencies && p in dependencies[n])
  }

  lemma PrecedesWhole<T(!new)>(s: seq<T>, u: set<T>, x: T, y: T)
    requires Precedes(Filter(s, u), x, y)
    ensures Precedes(s, x, y)
  {
    var a, b :| 0 <= a < b < |Filter(s, u)| && Filter(s, u)[a] == x && Filter(s, u)[b] == y;
    FilterOrder(s, u, a, b);
  }

  /** Said on keys alone: a node stands before another if its last dependency does, or if that is the same and its key
      comes sooner. */
  ghost predicate InKeyOrder<T(!new)>(g: Graph<T>, keys: seq<T>, order: seq<T>) {
    && IsTopological(g, order)
    && forall i, j, m, k | 0 <= i < j < |order| && FreedAt(g, order, order[i], m) && FreedAt(g, order, order[j], k) ::
         m < k || (m == k && Precedes(keys, order[i], order[j]))
  }

  lemma DeclaredIsKeyOrder<T(!new)>(g: Graph<T>, keys: seq<T>, children: map<T, seq<T>>, dependencies: map<T, seq<T>>,
        order: seq<T>)
    requires forall p | p in children :: children[p] == Listing(keys, dependencies, p)
    requires InDeclaredOrder(g, keys, children, order)
    ensures InKeyOrder(g, keys, order)
  {
    forall i, j, m: nat, k: nat
      | 0 <= i < j < |order| && FreedAt(g, order, order[i], m) && FreedAt(g, order, order[j], k)
      ensures m < k || (m == k && Precedes(keys, order[i], order[j]))
    {
      if m == k && m > 0 {
        assert Sooner(keys, children, order, m, order[i], order[j]);
        var listing := set n | n in dependencies && order[m - 1] in dependencies[n];
        PrecedesWhole(keys, listing, order[i], order[j]);
      }
    }
  }

  /** The lists of children once the first `i` keys have their edges. */
  ghost function ListedUpTo<T>(keys: seq<T>, dependencies: map<T, seq<T>>, i: nat): map<T, seq<T>>
    requires i <= |keys|
  {
    map p | p in keys :: Listing(keys[..i], dependencies, p)
  }

  /** The lists once `child` is appended for each of `parents`. */
  ghost function Appended<T>(children: map<T, seq<T>>, child: T, parents: set<T>): map<T, seq<T>> {
    map p | p in children :: children[p] + if p in parents then [child] else []
  }

  lemma AppendedOneMore<T>(children: map<T, seq<T>>, child: T, listed: seq<T>, p: T)
    requires p in children && child !in children[p]
    ensures Elements(listed + [p]) == Elements(listed) + {p}
    ensures child in Appended(children, child, Elements(listed))[p] <==> p in listed
    ensures Appended(children, child, Elements(listed + [p]))
         == if p in listed then Appended(children, child, Elements(listed))
            else Appended(children, child, Elements(listed))[p := children[p] + [child]]
    ensures p !in listed ==> Appended(children, child, Elements(listed))[p] == children[p]
  {
    assert Elements(listed + [p]) == Elements(listed) + {p};
  }

  lemma ListedOneMore<T>(keys: seq<T>, dependencies: map<T, seq<T>>, i: nat)
    requires i < |keys| && keys[i] in dependencies
    ensures Appended(ListedUpTo(keys, dependencies, i), keys[i], Elements(dependencies[keys[i]]))
         == ListedUpTo(keys, dependencies, i + 1)
  {
    assert keys[..i + 1] == keys[..i] + [keys[i]];
    forall p | p in keys
      ensures Listing(keys[..i + 1], dependencies, p)
              == Listing(keys[..i], dependencies, p) + if p in dependencies[keys[i]] then [keys[i]] else []
    {
      FilterAppend(keys[..i], keys[i], set n | n in dependencies && p in dependencies[n]);
    }
  }

  lemma NotYetListed<T(!new)>(nodes: seq<T>, children: map<T, seq<T>>, parents: map<T, seq<T>>, n: T)
    requires Adjacency(nodes, children, parents) && n in nodes && EdgesOf(parents)[n] == {}
    ensures forall p | p in children :: n !in children[p]
    ensures Appended(children, n, {}) == children
  {
    forall p | p in children ensures n !in children[p] {
      assert Mirrored(children, parents, p, n);
      assert p !in EdgesOf(parents)[n];
    }
    assert forall p | p in children :: children[p] + [] == children[p];
  }

  /** What the edges and the lists of children have become once `node` waits for those listed. */
  ghost predicate Waits<T>(nodes: seq<T>, g: Graph<T>, children: map<T, seq<T>>, g': Graph<T>,
        children': map<T, seq<T>>, node: T, listed: seq<T>)
  {
    && g' == g[node := Elements(listed)] && children' == Appended(children, node, Elements(listed))
    && ProperList(nodes, node, listed)
  }

  /** One edge more; `added` are the lists after it. */
  lemma WaitsForOneMore<T>(nodes: seq<T>, g: Graph<T>, children: map<T, seq<T>>, g': Graph<T>,
        children': map<T, seq<T>>, node: T, listed: seq<T>, p: T, added: map<T, seq<T>>)
    requires Waits(nodes, g, children, g', children', node, listed)
    requires p in nodes && p != node && p in children && node !in children[p] && node in g'
    requires added == if node in children'[p] then children' else children'[p := children'[p] + [node]]
    ensures Waits(nodes, g, children, g'[node := g'[node] + {p}], added, node, listed + [p])
  {
    AppendedOneMore(children, node, listed, p);
  }

  /** The head of the queue may come next, and its children are those whose counters are to be lowered. */
  lemma HeadServed<T(!new)>(nodes: seq<T>, children: map<T, seq<T>>, parents: map<T, seq<T>>, degree: map<T, int>,
        order: seq<T>, queue: seq<T>)
    requires Adjacency(nodes, children, parents) && Kahn(EdgesOf(parents), degree, order, queue) && queue != []
    ensures queue[0] in children && Distinct(children[queue[0]])
    ensures var g, kids, order' := EdgesOf(parents), children[queue[0]], order + [queue[0]];
            && (forall c | c in kids :: c in g)
            && Counted(degree, order', queue[1..]) == true && DegreesOk(g, degree, order', kids) == true
            && OrdersPrefix(g, order') == true && Unordered(g, order') < Unordered(g, order)
            && FirstCome(g, children, order, queue)
               == FirstCome(g, children, order', queue[1..] + Freed(g, kids, order'))
  {
    AdjacencyLists(nodes, children, parents);
    HeadIsNode(EdgesOf(parents), degree, order, queue);
    PopStep(EdgesOf(parents), children[queue[0]], degree, order, queue);
  }

  /** With the queue empty the order is the declared one, or the graph has a cycle. */
  lemma AllServed<T(!new)>(nodes: seq<T>, children: map<T, seq<T>>, parents: map<T, seq<T>>, degree: map<T, int>,
        order: seq<T>)
    requires Adjacency(nodes, children, parents)
    requires var g := EdgesOf(parents);
             Kahn(g, degree, order, []) && order == FirstCome(g, children, [], Freed(g, nodes, []))
    ensures |order| != |nodes| ==> !Acyclic(EdgesOf(parents))
    ensures |order| == |nodes| ==>
              Acyclic(EdgesOf(parents)) && InDeclaredOrder(EdgesOf(parents), nodes, children, order) == true
  {
    var g := EdgesOf(parents);
    AdjacencyLists(nodes, children, parents);
    DistinctSize(nodes);
    KahnEnds(g, degree, order, |nodes|);
    RootsInLine(g, nodes, children);
    FirstComeIsRanked(g, nodes, children, [], Freed(g, nodes, []));
  }

  lemma NothingBuilt<T>(keys: seq<T>, dependencies: map<T, seq<T>>, g: Graph<T>, children: map<T, seq<T>>)
    requires dependencies.Keys == g.Keys == children.Keys == Elements(keys)
    requires forall n | n in keys :: g[n] == {} && children[n] == []
    ensures children == ListedUpTo(keys, dependencies, 0) && BuiltUpTo(g, keys, dependencies, 0) == true
  {
  }

  lemma AllListed<T>(keys: seq<T>, dependencies: map<T, seq<T>>, children: map<T, seq<T>>)
    requires children == ListedUpTo(keys, dependencies, |keys|)
    ensures forall p | p in keys ::
              p in children && children[p] == Filter(keys, set n | n in dependencies && p in dependencies[n])
  {
    assert keys[..|keys|] == keys;
  }

  class Dag<T(==,!new)> {
    var nodes: seq<T>                // keys of both dictionaries, in insertion order
    var children: map<T, seq<T>>
    var parents: map<T, seq<T>>

    ghost predicate Valid()
      reads this
    {
      Adjacency(nodes, children, parents)
    }

    ghost function Edges(): Graph<T>
      reads this
    {
      EdgesOf(parents)
    }

    constructor ()
      ensures Valid() && nodes == [] && children == map[] && parents == map[] && Edges() == map[]
    {
      nodes, children, parents := [], map[], map[];
    }

    /** Idempotent. */
    method AddNode(node: T)
      requires Valid()
      modifies this
      ensures Valid()
      ensures nodes == if node in old(nodes) then old(nodes) else old(nodes) + [node]
      ensures Edges() == if node in old(nodes) then old(Edges()) else old(Edges())[node := {}]
      ensures children == if node in old(nodes) then old(children) else old(children)[node := []]
      ensures parents == if node in old(nodes) then old(parents) else old(parents)[node := []]
    {
      if node !in children {
        NewNode(nodes, children, parents, node);
        NewNodeEdges(parents, node);
        nodes := nodes + [node];
        children := children[node := []];
        parents := parents[node := []];
      }
    }

    /** Refused for an undeclared end or a self-loop; a repeated edge is ignored. A new edge puts the child at the end
        of its parent's list and the parent at the end of its child's; no other list changes. */
    method AddEdge(parent: T, child: T) returns (error: Option<DagError<T>>)
      requires Valid()
      modifies this
      ensures Valid() && nodes == old(nodes)
      ensures error == if parent !in nodes then Some(UnknownNode(parent))
                       else if child !in nodes then Some(UnknownNode(child))
                       else if parent == child then Some(CycleFound([parent, parent]))
                       else None
      ensures error.Some? ==> Edges() == old(Edges())
      ensures error.None? ==> Edges() == old(Edges())[child := old(Edges())[child] + {parent}]
      ensures error.Some? ==> children == old(children) && parents == old(parents)
      ensures error.None? ==> parent in old(children) && child in old(parents)
      ensures error.None? ==>
                children == if child in old(children)[parent] then old(children)
                            else old(children)[parent := old(children)[parent] + [child]]
      ensures error.None? ==>
                parents == if child in old(children)[parent] then old(parents)
                           else old(parents)[child := old(parents)[child] + [parent]]
    {
      if parent !in children { return Some(UnknownNode(parent)); }
      if child !in children { return Some(UnknownNode(child)); }
      if parent == child { return Some(CycleFound([parent, parent])); }
      if child in children[parent] {
        RepeatedEdge(nodes, children, parents, parent, child);
      } else {
        Link(parent, child);
      }
      return None;
    }

    method Link(parent: T, child: T)
      requires Valid() && parent in nodes && child in nodes && parent != child && child !in children[parent]
      modifies this
      ensures Valid() && nodes == old(nodes)
      ensures Edges() == old(Edges())[child := old(Edges())[child] + {parent}]
      ensures children == old(children)[parent := old(children)[parent] + [child]]
      ensures parents == old(parents)[child := old(parents)[child] + [parent]]
    {
      NewEdge(nodes, children, parents, parent, child);
      children := children[parent := children[parent] + [child]];
      parents := parents[child := parents[child] + [parent]];
    }

    /** `{node: [nodes it depends on]}` into a graph: the keys become the nodes, in order, and every listed dependency
        an edge; the children of each are the keys that list it, as the keys come. The first dependency that cannot be
        an edge is the error. */
    static method FromDependencies(keys: seq<T>, dependencies: map<T, seq<T>>)
      returns (dag: Dag<T>, error: Option<DagError<T>>)
      requires Distinct(keys) && dependencies.Keys == Elements(keys)
      ensures fresh(dag) && dag.Valid() == true && dag.nodes == keys
      ensures error.None? ==> forall n | n in keys :: dag.Edges()[n] == Elements(dependencies[n])
      ensures error.None? ==>
                forall p | p in keys ::
                  p in dag.children
                  && dag.children[p] == Filter(keys, set n | n in dependencies && p in dependencies[n])
      ensures error.None? <==> ProperEdges(keys, dependencies)
      ensures error.Some? ==> Improper(keys, dependencies, error.value)
    {
      dag := new Dag();
      dag.AddNodes(keys);
      NothingBuilt(keys, dependencies, dag.Edges(), dag.children);
      error := dag.AddAllParents(keys, dependencies);
      if error.None? {
        AllListed(keys, dependencies, dag.children);
        BuiltIsProper(dag.Edges(), keys, dependencies);
      }
    }

    method AddAllParents(keys: seq<T>, dependencies: map<T, seq<T>>) returns (error: Option<DagError<T>>)
      requires Valid() && nodes == keys && dependencies.Keys == Elements(keys)
      requires Distinct(keys) && BuiltUpTo(Edges(), keys, dependencies, 0)
      requires children == ListedUpTo(keys, dependencies, 0)
      modifies this
      ensures Valid() && nodes == keys
      ensures error.None? ==> BuiltUpTo(Edges(), keys, dependencies, |keys|)
      ensures error.None? ==> children == ListedUpTo(keys, dependencies, |keys|)
      ensures error.Some? ==> Improper(keys, dependencies, error.value) && !ProperEdges(keys, dependencies)
    {
      for i := 0 to |keys|
        invariant Valid() && nodes == keys && BuiltUpTo(Edges(), keys, dependencies, i) == true
        invariant children == ListedUpTo(keys, dependencies, i)
      {
        ghost var g := Edges();
        error := AddParents(keys[i], dependencies[keys[i]]);
        if error.Some? {
          StoppedIsImproper(keys, dependencies, i, error.value);
          return;
        }
        BuiltOneMore(g, Edges(), keys, dependencies, i);
        ListedOneMore(keys, dependencies, i);
      }
      return None;
    }

    method AddNodes(keys: seq<T>)
      requires Valid() && nodes == [] && Distinct(keys)
      modifies this
      ensures Valid() && nodes == keys && forall n | n in keys :: Edges()[n] == {} && children[n] == []
    {
      for i := 0 to |keys|
        invariant Valid() && nodes == keys[..i] && forall n | n in nodes :: Edges()[n] == {} && children[n] == []
      {
        assert keys[..i + 1] == keys[..i] + [keys[i]] && keys[i] !in keys[..i];
        AddNode(keys[i]);
      }
      assert keys[..|keys|] == keys;
    }

    /** The inner loop of building a graph: the dependencies of one node, in order. */
    method AddParents(node: T, listed: seq<T>) returns (error: Option<DagError<T>>)
      requires Valid() && node in nodes && Edges()[node] == {}
      modifies this
      ensures Valid() && nodes == old(nodes)
      ensures error.None? ==> Edges() == old(Edges())[node := Elements(listed)]
      ensures error.None? ==> children == Appended(old(children), node, Elements(listed))
      ensures error.None? <==> ProperList(nodes, node, listed)
      ensures error.Some? ==> exists j | 0 <= j < |listed| :: FirstFault(nodes, node, listed, j, error.value)
    {
      assert Elements(listed[..0]) == {};
      assert Edges()[node := {}] == Edges();
      NotYetListed(nodes, children, parents, node);
      ghost var g, lists := Edges(), children;
      assert Waits(nodes, g, lists, g, lists, node, listed[..0]);
      for i := 0 to |listed|
        invariant Valid() == true && nodes == old(nodes)
        invariant Waits(nodes, g, lists, Edges(), children, node, listed[..i]) == true
      {
        error := LinkNext(g, lists, node, listed, i);
        if error.Some? {
          assert FirstFault(nodes, node, listed, i, error.value);
          assert listed[i] in listed;
          return;
        }
      }
      assert listed[..|listed|] == listed;
      return None;
    }

    /** One of the dependencies of a node. */
    method LinkNext(ghost g: Graph<T>, ghost lists: map<T, seq<T>>, node: T, listed: seq<T>, i: nat)
      returns (error: Option<DagError<T>>)
      requires Valid() && node in nodes && i < |listed| && Waits(nodes, g, lists, Edges(), children, node, listed[..i])
      requires forall p | p in lists :: node !in lists[p]
      modifies this
      ensures Valid() == true && nodes == old(nodes)
      ensures error.None? ==> Waits(nodes, g, lists, Edges(), children, node, listed[..i + 1]) == true
      ensures error.Some? ==> FirstFault(nodes, node, listed, i, error.value) == true
    {
      ghost var before, listsBefore := Edges(), children;
      assert listed[..i + 1] == listed[..i] + [listed[i]];
      error := AddEdge(listed[i], node);
      if error.None? {
        WaitsForOneMore(nodes, g, lists, before, listsBefore, node, listed[..i], listed[i], children);
      }
    }

    function InDegrees(): map<T, int>
      reads this
    {
      map n | n in parents :: |parents[n]|
    }

    /** The nodes of in-degree zero, in insertion order. */
    method Roots(degree: map<T, int>) returns (queue: seq<T>)
      requires Valid() && DegreesOk(Edges(), degree, [], [])
      ensures Counted(degree, [], queue) && queue == Freed(Edges(), nodes, [])
    {
      queue := [];
      ghost var free := set n | n in nodes && n in Edges() && Edges()[n] <= Elements<T>([]);
      for i := 0 to |nodes|
        invariant queue == Filter(nodes[..i], free)
      {
        assert nodes[i] in nodes && nodes[..i + 1] == nodes[..i] + [nodes[i]];
        FilterAppend(nodes[..i], nodes[i], free);
        NoneMissing(Edges(), [], nodes[i]);
        if degree[nodes[i]] == 0 {
          queue := queue + [nodes[i]];
        }
      }
      assert nodes[..|nodes|] == nodes;
      RootsCounted(Edges(), nodes, degree);
    }

    lemma InDegreesAreMissing()
      requires Valid()
      ensures DegreesOk(Edges(), InDegrees(), [], [])
    {
      forall n | n in parents ensures InDegrees()[n] == |Missing(Edges(), [], n)| {
        DistinctSize(parents[n]);
        assert Missing(Edges(), [], n) == Elements(parents[n]);
      }
    }

    /** Succeeds, with every parent before its children, exactly when the graph is acyclic; otherwise names a cycle. The
        order is the one the declarations make, and the only one: roots as declared, then each node when the last of
        its parents is out. */
    method TopologicalOrder() returns (r: Result<seq<T>, seq<T>>)
      requires Valid()
      ensures r.Success? ==> r.value == FirstCome(Edges(), children, [], Freed(Edges(), nodes, []))
      ensures r.Success? ==> InDeclaredOrder(Edges(), nodes, children, r.value) == true
      ensures r.Failure? ==> IsCycle(Edges(), r.error)
      ensures r.Success? <==> Acyclic(Edges())
    {
      ghost var g := Edges();
      var degree := InDegrees();
      InDegreesAreMissing();
      var queue := Roots(degree);
      var order: seq<T> := [];
      assert Kahn(g, degree, order, queue);
      while queue != []
        invariant Kahn(g, degree, order, queue) == true
        invariant FirstCome(g, children, order, queue) == FirstCome(g, children, [], Freed(g, nodes, []))
        decreases Unordered(g, order)
      {
        var node := queue[0];
        HeadServed(nodes, children, parents, degree, order, queue);
        queue, order := queue[1..], order + [node];
        degree, queue := Settle(g, children[node], degree, order, queue);
        assert Kahn(g, degree, order, queue);
      }
      AllServed(nodes, children, parents, degree, order);
      if |order| != |nodes| {
        var cycle := FindCycle();
        return Failure(cycle);
      }
      return Success(order);
    }

    /** The assertion after the search, that some cycle was met, is never reached: the search of an acyclic graph
        would leave an order of all nodes with children first. */
    method FindCycle() returns (cycle: seq<T>)
      requires Valid() && !Acyclic(Edges())
      ensures IsCycle(Edges(), cycle)
    {
      AdjacencyLists(nodes, children, parents);
      var colour: map<T, Colour> := map n | n in children :: White;
      ghost var finished: seq<T> := [];
      cycle := [];
      assert Searched(children, nodes[..0], colour, finished);
      for s := 0 to |nodes|
        invariant Searched(children, nodes[..s], colour, finished)
      {
        assert nodes[s] in nodes && nodes[..s + 1] == nodes[..s] + [nodes[s]];
        if colour[nodes[s]] == White {
          var found: bool;
          found, cycle, colour, finished := SearchFrom(Edges(), children, nodes[s], colour, finished);
          if found { return; }
        }
      }
      assert nodes[..|nodes|] == nodes;
      SearchedAll(Edges(), children, nodes, colour, finished);
      assert false;
    }
  }
}
