/** Timed entries in a binary heap, the one due first at its root, with a map that finds the slot of each key. Due times
    are reals. */
module DelayQueues {
  import opened Wrappers

  datatype Entry<K(==), V> = Entry(key: K, dueAt: real, payload: V)

  function Parent(i: nat): nat
    requires i > 0
  {
    (i - 1) / 2
  }

  /** The slot is not due before its parent. */
  predicate InOrder<K(==), V>(h: seq<Entry<K, V>>, i: nat)
    requires 0 < i < |h|
  {
    h[Parent(i)].dueAt <= h[i].dueAt
  }

  ghost predicate Ordered<K, V>(h: seq<Entry<K, V>>) {
    forall i | 0 < i < |h| :: InOrder(h, i)
  }

  /** The children of `p` are not due before the parent of `p`: what is left of the order when `p` is overwritten. */
  ghost predicate SkipsOver<K, V>(h: seq<Entry<K, V>>, p: nat) {
    forall c | 0 < c < |h| && Parent(c) == p && p > 0 :: h[Parent(p)].dueAt <= h[c].dueAt
  }

  /** Only slot `p` may be out of order, with its parent and with its children. */
  ghost predicate OrderedAround<K, V>(h: seq<Entry<K, V>>, p: nat) {
    (forall i | 0 < i < |h| && i != p && Parent(i) != p :: InOrder(h, i)) && SkipsOver(h, p)
  }

  /** Only slot `p` may be out of order with its parent. */
  ghost predicate OrderedAbove<K, V>(h: seq<Entry<K, V>>, p: nat) {
    (forall i | 0 < i < |h| && i != p :: InOrder(h, i)) && SkipsOver(h, p)
  }

  /** Only the children of slot `p` may be out of order with it. */
  ghost predicate OrderedBelow<K, V>(h: seq<Entry<K, V>>, p: nat) {
    (forall i | 0 < i < |h| && Parent(i) != p :: InOrder(h, i)) && SkipsOver(h, p)
  }

  function Swapped<K, V>(h: seq<Entry<K, V>>, a: nat, b: nat): seq<Entry<K, V>>
    requires a < |h| && b < |h|
  {
    h[a := h[b]][b := h[a]]
  }

  /** While an entry rises from `start`, now at `p`. The first swap settles everything below the slot it started
      from. */
  ghost predicate Rising<K, V>(h: seq<Entry<K, V>>, start: nat, p: nat) {
    p <= start && if p == start then OrderedAround(h, p) else OrderedAbove(h, p)
  }

  lemma SwapUp<K, V>(h: seq<Entry<K, V>>, start: nat, p: nat)
    requires 0 < p < |h| && Rising(h, start, p) && !InOrder(h, p)
    ensures Rising(Swapped(h, p, Parent(p)), start, Parent(p)) == true
  {
    var q := Parent(p);
    var h' := Swapped(h, p, q);
    forall i | 0 < i < |h| && i != q ensures InOrder(h', i) {
      if i != p && Parent(i) != p {
        assert InOrder(h, i);
      }
    }
    forall c | 0 < c < |h| && Parent(c) == q && q > 0 ensures h'[Parent(q)].dueAt <= h'[c].dueAt {
      assert InOrder(h, q);
      if c != p { assert InOrder(h, c); }
    }
    assert Rising(h', start, q);
  }

  lemma RiseEnds<K, V>(h: seq<Entry<K, V>>, start: nat, p: nat)
    requires start < |h| && Rising(h, start, p) && (p == 0 || InOrder(h, p))
    ensures OrderedBelow(h, start)
  {
    if p != start {
      SettledAbove(h, p);
      SettledIsBelow(h, start);
    }
  }

  lemma SettledAbove<K, V>(h: seq<Entry<K, V>>, q: nat)
    requires OrderedAbove(h, q) && (q == 0 || q >= |h| || InOrder(h, q))
    ensures Ordered(h)
  {
  }

  lemma SettledIsBelow<K, V>(h: seq<Entry<K, V>>, p: nat)
    requires Ordered(h) && p < |h|
    ensures OrderedBelow(h, p)
  {
    forall c | 0 < c < |h| && Parent(c) == p && p > 0 ensures h[Parent(p)].dueAt <= h[c].dueAt {
      assert InOrder(h, c) && InOrder(h, p);
    }
  }

  /** Swapping with the child due first moves the disorder down. */
  lemma SwapDown<K, V>(h: seq<Entry<K, V>>, p: nat, child: nat)
    requires p < |h| && 0 < child < |h| && Parent(child) == p && OrderedBelow(h, p)
    requires h[child].dueAt < h[p].dueAt
    requires forall c | 0 < c < |h| && Parent(c) == p :: h[child].dueAt <= h[c].dueAt
    ensures OrderedBelow(Swapped(h, p, child), child)
  {
    var h' := Swapped(h, p, child);
    forall i | 0 < i < |h| && Parent(i) != child ensures InOrder(h', i) {
      if i != p && i != child && Parent(i) != p { assert InOrder(h, i); }
    }
    forall c | 0 < c < |h| && Parent(c) == child ensures h'[Parent(child)].dueAt <= h'[c].dueAt {
      assert InOrder(h, c);
    }
  }

  /** The root of an ordered heap is due first. */
  lemma {:induction false} RootIsFirst<K, V>(h: seq<Entry<K, V>>, i: nat)
    requires Ordered(h) && i < |h|
    ensures h[0].dueAt <= h[i].dueAt
  {
    if i > 0 {
      assert InOrder(h, i);
      RootIsFirst(h, Parent(i));
    }
  }

  /** The index is the exact inverse of the slots. */
  ghost predicate Indexed<K, V>(h: seq<Entry<K, V>>, index: map<K, int>) {
    && (forall i | 0 <= i < |h| :: h[i].key in index && index[h[i].key] == i)
    && (forall k | k in index :: 0 <= index[k] < |h| && h[index[k]].key == k)
  }

  /** What is scheduled, by key. */
  ghost function Table<K, V>(h: seq<Entry<K, V>>, index: map<K, int>): map<K, Entry<K, V>>
    requires Indexed(h, index)
  {
    map k | k in index :: h[index[k]]
  }

  lemma TableHolds<K, V>(h: seq<Entry<K, V>>, index: map<K, int>, i: nat)
    requires Indexed(h, index) && i < |h|
    ensures h[i].key in Table(h, index) && Table(h, index)[h[i].key] == h[i]
  {
  }

  lemma OverwrittenIndexed<K, V>(h: seq<Entry<K, V>>, index: map<K, int>, p: nat, e: Entry<K, V>)
    requires Indexed(h, index) && p < |h| && e.key == h[p].key
    ensures Indexed(h[p := e], index) && Table(h[p := e], index) == Table(h, index)[e.key := e]
  {
  }

  lemma SwappedIndexed<K, V>(h: seq<Entry<K, V>>, index: map<K, int>, a: nat, b: nat)
    requires Indexed(h, index) && a < |h| && b < |h| && a != b
    ensures Indexed(Swapped(h, a, b), index[h[b].key := a][h[a].key := b])
    ensures Table(Swapped(h, a, b), index[h[b].key := a][h[a].key := b]) == Table(h, index)
  {
    assert index[h[a].key] == a && index[h[b].key] == b;
  }

  /** The last slot moved into the hole left at `p`, or just dropped when it is the hole. */
  function Filled<K, V>(h: seq<Entry<K, V>>, p: nat): seq<Entry<K, V>>
    requires p < |h|
  {
    var front := h[..|h| - 1];
    if p < |front| then front[p := h[|h| - 1]] else front
  }

  function Refilled<K(==), V>(h: seq<Entry<K, V>>, index: map<K, int>, p: nat): map<K, int>
    requires p < |h|
  {
    var rest := index - {h[p].key};
    if p < |h| - 1 then rest[h[|h| - 1].key := p] else rest
  }

  lemma FilledIndexed<K, V>(h: seq<Entry<K, V>>, index: map<K, int>, p: nat)
    requires Indexed(h, index) && p < |h|
    ensures Indexed(Filled(h, p), Refilled(h, index, p))
    ensures Table(Filled(h, p), Refilled(h, index, p)) == Table(h, index) - {h[p].key}
  {
    var h', index' := Filled(h, p), Refilled(h, index, p);
    forall i | 0 <= i < |h'| ensures h'[i].key in index' && index'[h'[i].key] == i {
      assert index[h[i].key] == i && index[h[|h| - 1].key] == |h| - 1 && index[h[p].key] == p;
    }
  }

  lemma FilledAround<K, V>(h: seq<Entry<K, V>>, p: nat)
    requires Ordered(h) && p < |h| - 1
    ensures OrderedAround(Filled(h, p), p)
  {
    ShrunkOrdered(h);
    OverwrittenAround(h[..|h| - 1], p, h[|h| - 1]);
  }

  lemma NoneSmaller<K, V>(h: seq<Entry<K, V>>, p: nat)
    requires p < |h| && OrderedBelow(h, p)
    requires 2 * p + 1 < |h| ==> h[p].dueAt <= h[2 * p + 1].dueAt
    requires 2 * p + 2 < |h| ==> h[p].dueAt <= h[2 * p + 2].dueAt
    ensures Ordered(h)
  {
    forall i | 0 < i < |h| ensures InOrder(h, i) {
      if Parent(i) == p { assert i == 2 * p + 1 || i == 2 * p + 2; }
    }
  }

  ghost predicate SomethingDue<K, V>(table: map<K, Entry<K, V>>, now: real) {
    exists k | k in table :: table[k].dueAt <= now
  }

  ghost predicate Sorted<K, V>(due: seq<Entry<K, V>>) {
    forall i, j | 0 <= i < j < |due| :: due[i].dueAt <= due[j].dueAt
  }

  /** `due` and `after` together are `before`, each key in exactly one place. */
  ghost predicate Drained<K, V>(before: map<K, Entry<K, V>>, after: map<K, Entry<K, V>>, due: seq<Entry<K, V>>) {
    && (forall i, j | 0 <= i < j < |due| :: due[i].key != due[j].key)
    && (forall i | 0 <= i < |due| :: due[i].key in before && before[due[i].key] == due[i] && due[i].key !in after)
    && (forall k | k in before :: k in after || exists i | 0 <= i < |due| :: due[i].key == k)
    && (forall k | k in after :: k in before && after[k] == before[k])
  }

  /** The state of a drain: what was returned is in order, due, and due no later than anything left. */
  ghost predicate Draining<K, V>(before: map<K, Entry<K, V>>, after: map<K, Entry<K, V>>, due: seq<Entry<K, V>>,
        now: real)
  {
    && Drained(before, after, due) && Sorted(due)
    && (forall i | 0 <= i < |due| :: due[i].dueAt <= now)
    && (forall i, k | 0 <= i < |due| && k in after :: due[i].dueAt <= after[k].dueAt)
  }

  lemma DrainedOne<K, V>(before: map<K, Entry<K, V>>, after: map<K, Entry<K, V>>, due: seq<Entry<K, V>>, e: Entry<K, V>)
    requires Drained(before, after, due) && e.key in after && after[e.key] == e
    ensures Drained(before, after - {e.key}, due + [e])
  {
    var due' := due + [e];
    forall k | k in before ensures k in after - {e.key} || exists i | 0 <= i < |due'| :: due'[i].key == k {
      if k == e.key {
        assert due'[|due|].key == k;
      } else if k !in after {
        var i :| 0 <= i < |due| && due[i].key == k;
        assert due'[i].key == k;
      }
    }
  }

  lemma DrainOne<K, V>(before: map<K, Entry<K, V>>, after: map<K, Entry<K, V>>, due: seq<Entry<K, V>>, now: real,
        e: Entry<K, V>)
    requires Draining(before, after, due, now)
    requires e.key in after && after[e.key] == e && e.dueAt <= now
    requires forall k | k in after :: e.dueAt <= after[k].dueAt
    ensures Draining(before, after - {e.key}, due + [e], now) == true
  {
    DrainedOne(before, after, due, e);
    assert Draining(before, after - {e.key}, due + [e], now);
  }

  lemma OneLess<K, V>(table: map<K, V>, key: K)
    requires key in table
    ensures |table - {key}| < |table|
  {
    assert table == (table - {key})[key := table[key]];
  }

  /** The slot due first among `position` and its children, the slot itself on a tie. */
  method Smallest<K(==), V>(h: seq<Entry<K, V>>, position: nat) returns (smallest: nat)
    requires position < |h|
    ensures smallest == position ==> (2 * position + 1 < |h| ==> h[position].dueAt <= h[2 * position + 1].dueAt)
    ensures smallest == position ==> (2 * position + 2 < |h| ==> h[position].dueAt <= h[2 * position + 2].dueAt)
    ensures smallest != position ==> 0 < smallest < |h| && Parent(smallest) == position
    ensures smallest != position ==> h[smallest].dueAt < h[position].dueAt
    ensures smallest != position ==> forall c | 0 < c < |h| && Parent(c) == position :: h[smallest].dueAt <= h[c].dueAt
  {
    var left := 2 * position + 1;
    var right := left + 1;
    smallest := position;
    if left < |h| && h[left].dueAt < h[smallest].dueAt {
      smallest := left;
    }
    if right < |h| && h[right].dueAt < h[smallest].dueAt {
      smallest := right;
    }
  }

  class DelayQueue<K(==), V> {
    var heap: seq<Entry<K, V>>
    var index: map<K, int>

    /** The index is right; the order may be broken while an operation is under way. */
    ghost predicate Linked()
      reads this
    {
      Indexed(heap, index)
    }

    ghost predicate Valid()
      reads this
    {
      Linked() && Ordered(heap)
    }

    ghost function Scheduled(): map<K, Entry<K, V>>
      requires Linked()
      reads this
    {
      Table(heap, index)
    }

    constructor ()
      ensures Valid() && Scheduled() == map[]
    {
      heap, index := [], map[];
    }

    /** Schedules, replacing any entry with this key. */
    method Push(key: K, dueAt: real, payload: V)
      requires Valid()
      modifies this
      ensures Valid() && Scheduled() == old(Scheduled())[key := Entry(key, dueAt, payload)]
    {
      if key in index {
        Replace(key, dueAt, payload);
        return;
      }
      heap := heap + [Entry(key, dueAt, payload)];
      index := index[key := |heap| - 1];
      assert Scheduled() == old(Scheduled())[key := Entry(key, dueAt, payload)];
      AppendedAround(old(heap), Entry(key, dueAt, payload));
      SiftUp(|heap| - 1);
      LastBelow(heap);
    }

    /** The entry due first, which stays where it is. */
    method Peek() returns (head: Option<Entry<K, V>>)
      requires Valid()
      ensures head.None? <==> Scheduled() == map[]
      ensures head.Some? ==> head.value.key in Scheduled() && Scheduled()[head.value.key] == head.value
      ensures head.Some? ==> forall k | k in Scheduled() :: head.value.dueAt <= Scheduled()[k].dueAt
    {
      if |heap| == 0 {
        assert forall k :: k !in index;
        return None;
      }
      HeadIsScheduled();
      return Some(heap[0]);
    }

    /** The entry due first; an error on an empty queue. */
    method Pop() returns (r: Option<Entry<K, V>>)
      requires Valid()
      modifies this
      ensures Valid()
      ensures r.None? <==> old(Scheduled()) == map[]
      ensures r.None? ==> Scheduled() == old(Scheduled())
      ensures r.Some? ==> old(heap) != [] && r.value == old(heap)[0]
      ensures r.Some? ==> r.value.key in old(Scheduled()) && old(Scheduled())[r.value.key] == r.value
      ensures r.Some? ==> Scheduled() == old(Scheduled()) - {r.value.key}
      ensures r.Some? ==> forall k | k in old(Scheduled()) :: r.value.dueAt <= old(Scheduled())[k].dueAt
    {
      if heap == [] {
        assert forall k :: k !in index;
        return None;
      }
      HeadIsScheduled();
      var entry := RemoveAt(0);
      return Some(entry);
    }

    /** Withdraws the entry with this key, if there is one. */
    method Cancel(key: K) returns (r: Option<Entry<K, V>>)
      requires Valid()
      modifies this
      ensures Valid() && Scheduled() == old(Scheduled()) - {key}
      ensures r == if key in old(Scheduled()) then Some(old(Scheduled())[key]) else None
    {
      if key !in index {
        assert Scheduled() - {key} == Scheduled();
        return None;
      }
      var entry := RemoveAt(index[key]);
      return Some(entry);
    }

    /** Drains what is due, earliest first, up to the limit. Everything returned was scheduled and is not any more; what
        is left is untouched, none of it is due before anything returned, and nothing due is left unless the limit was
        met. */
    method PopDue(now: real, limit: Option<int>) returns (due: seq<Entry<K, V>>)
      requires Valid()
      modifies this
      ensures Valid()
      ensures Draining(old(Scheduled()), Scheduled(), due, now) == true
      ensures limit.Some? ==> |due| <= if limit.value > 0 then limit.value else 0
      ensures limit.None? || |due| < limit.value ==> forall k | k in Scheduled() :: now < Scheduled()[k].dueAt
    {
      due := [];
      ghost var before := Scheduled();
      assert Draining(before, Scheduled(), due, now);
      while heap != [] && heap[0].dueAt <= now
        invariant Valid() && Draining(before, Scheduled(), due, now) == true
        invariant limit.Some? ==> |due| <= if limit.value > 0 then limit.value else 0
        decreases |Scheduled()|
      {
        if limit.Some? && |due| >= limit.value {
          return;
        }
        HeadIsScheduled();
        ghost var after := Scheduled();
        var head := Pop();
        DrainOne(before, after, due, now, head.value);
        OneLess(after, head.value.key);
        due := due + [head.value];
      }
      NothingDue(now);
    }

    /** How long until something is due: at any later moment, something is due exactly when this long has passed. */
    method SecondsUntilNext(now: real) returns (wait: Option<real>)
      requires Valid()
      ensures wait.None? <==> Scheduled() == map[]
      ensures wait.Some? ==> wait.value >= 0.0
      ensures wait.Some? ==> forall t | now <= t :: SomethingDue(Scheduled(), t) <==> wait.value <= t - now
    {
      var head := Peek();
      if head.None? {
        return None;
      }
      return Some(Max(0.0, head.value.dueAt - now));
    }

    lemma HeadIsScheduled()
      requires Valid() && heap != []
      ensures heap[0].key in Scheduled() && Scheduled()[heap[0].key] == heap[0]
      ensures forall k | k in Scheduled() :: heap[0].dueAt <= Scheduled()[k].dueAt
    {
      TableHolds(heap, index, 0);
      forall k | k in Scheduled() ensures heap[0].dueAt <= Scheduled()[k].dueAt {
        RootIsFirst(heap, index[k]);
      }
    }

    lemma NothingDue(now: real)
      requires Valid() && (heap == [] || now < heap[0].dueAt)
      ensures forall k | k in Scheduled() :: now < Scheduled()[k].dueAt
    {
      if heap != [] { HeadIsScheduled(); }
    }

    method Replace(key: K, dueAt: real, payload: V)
      requires Valid() && key in index
      modifies this
      ensures Valid() && Scheduled() == old(Scheduled())[key := Entry(key, dueAt, payload)]
    {
      var position := index[key];
      OverwrittenAround(heap, position, Entry(key, dueAt, payload));
      OverwrittenIndexed(heap, index, position, Entry(key, dueAt, payload));
      heap := heap[position := Entry(key, dueAt, payload)];
      SiftUp(position);
      SiftDown(position);
    }

    method RemoveAt(position: nat) returns (entry: Entry<K, V>)
      requires Valid() && position < |heap|
      modifies this
      ensures Valid() && entry == old(heap[position])
      ensures Scheduled() == old(Scheduled()) - {entry.key}
    {
      ghost var h, wasIndex := heap, index;
      entry := heap[position];
      var last := heap[|heap| - 1];
      heap := heap[..|heap| - 1];
      index := index - {entry.key};
      if position < |heap| {
        heap := heap[position := last];
        index := index[last.key := position];
        FilledIndexed(h, wasIndex, position);
        FilledAround(h, position);
        SiftUp(position);
        SiftDown(position);
      } else {
        FilledIndexed(h, wasIndex, position);
        ShrunkOrdered(h);
      }
    }

    method Swap(a: nat, b: nat)
      requires Linked() && a < |heap| && b < |heap| && a != b
      modifies this
      ensures Linked() && heap == Swapped(old(heap), a, b) && Scheduled() == old(Scheduled())
    {
      SwappedIndexed(heap, index, a, b);
      heap := heap[a := heap[b]][b := heap[a]];
      index := index[heap[a].key := a];
      index := index[heap[b].key := b];
    }

    /** Leaves only the children of the slot it started from possibly out of order. */
    method SiftUp(start: nat)
      requires Linked() && start < |heap| && OrderedAround(heap, start)
      modifies this
      ensures Linked() && |heap| == old(|heap|) && OrderedBelow(heap, start) && Scheduled() == old(Scheduled())
    {
      var position: nat := start;
      while position > 0
        invariant Linked() && |heap| == old(|heap|) && position <= start && Scheduled() == old(Scheduled())
        invariant Rising(heap, start, position) == true
      {
        var parent := (position - 1) / 2;
        if heap[position].dueAt >= heap[parent].dueAt {
          break;
        }
        SwapUp(heap, start, position);
        Swap(position, parent);
        position := parent;
      }
      RiseEnds(heap, start, position);
    }

    method SiftDown(start: nat)
      requires Linked() && start < |heap| && OrderedBelow(heap, start)
      modifies this
      ensures Valid() && |heap| == old(|heap|) && Scheduled() == old(Scheduled())
    {
      var position := start;
      var size := |heap|;
      while true
        invariant Linked() && |heap| == size && position < size && OrderedBelow(heap, position) == true
        invariant Scheduled() == old(Scheduled())
        decreases size - position
      {
        var smallest := Smallest(heap, position);
        if smallest == position {
          NoneSmaller(heap, position);
          return;
        }
        SwapDown(heap, position, smallest);
        Swap(position, smallest);
        position := smallest;
      }
    }
  }

  lemma AppendedAround<K, V>(h: seq<Entry<K, V>>, e: Entry<K, V>)
    requires Ordered(h)
    ensures OrderedAround(h + [e], |h|)
  {
    var h' := h + [e];
    forall i | 0 < i < |h'| && i != |h| && Parent(i) != |h| ensures InOrder(h', i) {
      assert InOrder(h, i);
    }
  }

  /** The last slot has no children. */
  lemma LastBelow<K, V>(h: seq<Entry<K, V>>)
    requires h != [] && OrderedBelow(h, |h| - 1)
    ensures Ordered(h)
  {
  }

  lemma OverwrittenAround<K, V>(h: seq<Entry<K, V>>, p: nat, e: Entry<K, V>)
    requires Ordered(h) && p < |h|
    ensures OrderedAround(h[p := e], p)
  {
    var h' := h[p := e];
    forall i | 0 < i < |h'| && i != p && Parent(i) != p ensures InOrder(h', i) {
      assert InOrder(h, i);
    }
    forall c | 0 < c < |h'| && Parent(c) == p && p > 0 ensures h'[Parent(p)].dueAt <= h'[c].dueAt {
      assert InOrder(h, c) && InOrder(h, p);
    }
  }

  lemma ShrunkOrdered<K, V>(h: seq<Entry<K, V>>)
    requires Ordered(h) && h != []
    ensures Ordered(h[..|h| - 1])
  {
    var h' := h[..|h| - 1];
    forall i | 0 < i < |h'| ensures InOrder(h', i) {
      assert InOrder(h, i);
    }
  }
}
