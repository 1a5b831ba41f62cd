/** The cache as it is built: a hash map over a doubly linked list between two sentinels. */
module LruCaches {
  import opened Wrappers
  import opened LruLists

  /** The sentinels have neither key nor value. */
  class Node<K, V> {
    const key: Option<K>
    var value: Option<V>
    var prev: Node?<K, V>
    var next: Node?<K, V>

    constructor (key: Option<K>, value: Option<V>)
      ensures this.key == key && this.value == value && prev == null && next == null
    {
      this.key, this.value, prev, next := key, value, null, null;
    }
  }

  /** The nodes between the ends of `chain` carry the keys of `recent`; the ends are two nodes without a key. */
  ghost predicate Keyed<K, V>(chain: seq<Node<K, V>>, recent: seq<Pair<K, V>>) {
    && |chain| == |recent| + 2 && Distinct(recent)
    && chain[0].key.None? && chain[|chain| - 1].key.None? && chain[0] != chain[|chain| - 1]
    && (forall i | 0 <= i < |recent| :: chain[i + 1].key == Some(recent[i].key))
  }

  /** The map finds exactly the nodes between the ends. */
  ghost predicate Mapped<K, V>(nodes: map<K, Node<K, V>>, chain: seq<Node<K, V>>, recent: seq<Pair<K, V>>) {
    && Keyed(chain, recent) && |nodes| == |recent|
    && (forall i | 0 <= i < |recent| :: recent[i].key in nodes && nodes[recent[i].key] == chain[i + 1])
    && (forall k {:trigger nodes[k]} | k in nodes :: nodes[k] in chain && nodes[k].key == Some(k))
  }

  lemma KeyedApart<K, V>(chain: seq<Node<K, V>>, recent: seq<Pair<K, V>>, j: nat)
    requires Keyed(chain, recent) && j < |chain|
    ensures forall i | 0 <= i < |chain| && i != j :: chain[i] != chain[j]
  {
    forall i | 0 <= i < |chain| && i != j ensures chain[i] != chain[j] {
      if 0 < i < |chain| - 1 { assert chain[i - 1 + 1].key == Some(recent[i - 1].key); }
      if 0 < j < |chain| - 1 { assert chain[j - 1 + 1].key == Some(recent[j - 1].key); }
    }
  }

  lemma MappedFinds<K, V>(nodes: map<K, Node<K, V>>, chain: seq<Node<K, V>>, recent: seq<Pair<K, V>>, key: K)
    requires Mapped(nodes, chain, recent)
    ensures key in nodes <==> Holds(recent, key)
    ensures key in nodes ==> chain[Find(recent, key) + 1] == nodes[key]
  {
    var p := Find(recent, key);
    if key in nodes {
      var i :| 0 <= i < |chain| && chain[i] == nodes[key];
      assert 0 < i < |chain| - 1;
      assert recent[i - 1].key == key;
    }
    if p < |recent| { assert recent[p].key in nodes; }
  }

  /** The links go back and forth along `chain`. */
  ghost predicate Wired<K, V>(chain: seq<Node<K, V>>)
    reads chain
  {
    && (forall i {:trigger chain[i].next} | 0 <= i < |chain| - 1 :: chain[i].next == chain[i + 1])
    && (forall i {:trigger chain[i].prev} | 0 < i < |chain| :: chain[i].prev == chain[i - 1])
  }

  /** The nodes between the ends hold the values of `recent`. */
  ghost predicate Shown<K, V>(chain: seq<Node<K, V>>, recent: seq<Pair<K, V>>)
    reads chain
  {
    |chain| == |recent| + 2 && forall i | 0 <= i < |recent| :: chain[i + 1].value == Some(recent[i].value)
  }

  ghost predicate Laid<K, V>(chain: seq<Node<K, V>>, recent: seq<Pair<K, V>>)
    reads chain
  {
    Wired(chain) && Shown(chain, recent)
  }

  ghost function Members<K, V>(chain: seq<Node<K, V>>): set<Node<K, V>> {
    set n | n in chain
  }

  lemma RemovedMembers<K, V>(chain: seq<Node<K, V>>, p: nat)
    requires p < |chain|
    ensures Members(Remove(chain, p)) <= Members(chain) && Members(chain) == Members(Remove(chain, p)) + {chain[p]}
  {
    forall n | n in chain ensures n in Remove(chain, p) || n == chain[p] {
      var i :| 0 <= i < |chain| && chain[i] == n;
      if i != p { assert Remove(chain, p)[if i < p then i else i - 1] == n; }
    }
  }

  lemma AddedMembers<K, V>(chain: seq<Node<K, V>>, node: Node<K, V>)
    requires chain != []
    ensures Members([chain[0], node] + chain[1..]) == Members(chain) + {node}
  {
  }

  lemma RemovedDistinct<K, V>(recent: seq<Pair<K, V>>, p: nat)
    requires Distinct(recent) && p < |recent|
    ensures Distinct(Remove(recent, p))
  {
    forall i, j | 0 <= i < j < |recent| - 1 ensures Remove(recent, p)[i].key != Remove(recent, p)[j].key {
      assert Remove(recent, p)[i] == recent[if i < p then i else i + 1];
      assert Remove(recent, p)[j] == recent[if j < p then j else j + 1];
    }
  }

  lemma RemovedAway<K, V>(chain: seq<Node<K, V>>, recent: seq<Pair<K, V>>, p: nat)
    requires Keyed(chain, recent) && p < |recent|
    ensures chain[p + 1] !in Remove(chain, p + 1)
  {
    KeyedApart(chain, recent, p + 1);
  }

  lemma RemovedKeyed<K, V>(chain: seq<Node<K, V>>, recent: seq<Pair<K, V>>, p: nat)
    requires Keyed(chain, recent) && p < |recent|
    ensures Keyed(Remove(chain, p + 1), Remove(recent, p)) == true && chain[p + 1] !in Remove(chain, p + 1)
  {
    var chain', recent' := Remove(chain, p + 1), Remove(recent, p);
    RemovedDistinct(recent, p);
    RemovedAway(chain, recent, p);
    forall i | 0 <= i < |recent'| ensures chain'[i + 1].key == Some(recent'[i].key) {
      var j := if i < p then i else i + 1;
      assert recent'[i] == recent[j] && chain'[i + 1] == chain[j + 1];
    }
    assert Keyed(chain', recent');
  }

  lemma RemovedMapped<K, V>(nodes: map<K, Node<K, V>>, chain: seq<Node<K, V>>, recent: seq<Pair<K, V>>, p: nat)
    requires Mapped(nodes, chain, recent) && p < |recent|
    ensures Mapped(nodes - {recent[p].key}, Remove(chain, p + 1), Remove(recent, p)) == true
    ensures var chain' := Remove(chain, p + 1);
            |chain'| >= 2 && chain'[0] == chain[0] && chain'[|chain'| - 1] == chain[|chain| - 1]
  {
    var key := recent[p].key;
    var nodes', chain', recent' := nodes - {key}, Remove(chain, p + 1), Remove(recent, p);
    assert nodes == nodes'[key := nodes[key]];
    RemovedKeyed(chain, recent, p);
    forall i | 0 <= i < |recent'| ensures recent'[i].key in nodes' && nodes'[recent'[i].key] == chain'[i + 1] {
      var j := if i < p then i else i + 1;
      assert recent'[i] == recent[j] && chain'[i + 1] == chain[j + 1];
    }
    forall k | k in nodes' ensures nodes'[k] in chain' {
      var i :| 0 <= i < |chain| && chain[i] == nodes[k];
      assert chain[i] == chain'[if i <= p then i else i - 1];
    }
    assert Mapped(nodes', chain', recent');
  }

  lemma AddedKeyed<K, V>(chain: seq<Node<K, V>>, recent: seq<Pair<K, V>>, node: Node<K, V>, e: Pair<K, V>)
    requires Keyed(chain, recent) && node.key == Some(e.key)
    requires forall i | 0 <= i < |recent| :: recent[i].key != e.key
    ensures Keyed([chain[0], node] + chain[1..], [e] + recent) == true
  {
    var chain', recent' := [chain[0], node] + chain[1..], [e] + recent;
    forall i | 0 < i < |recent'| ensures chain'[i + 1].key == Some(recent'[i].key) {
      assert recent'[i] == recent[i - 1] && chain'[i + 1] == chain[i - 1 + 1];
    }
    assert Keyed(chain', recent');
  }

  lemma AddedMapped<K, V>(nodes: map<K, Node<K, V>>, chain: seq<Node<K, V>>, recent: seq<Pair<K, V>>,
        node: Node<K, V>, e: Pair<K, V>)
    requires Mapped(nodes, chain, recent) && e.key !in nodes && node.key == Some(e.key)
    ensures Mapped(nodes[e.key := node], [chain[0], node] + chain[1..], [e] + recent) == true
  {
    var nodes', chain', recent' := nodes[e.key := node], [chain[0], node] + chain[1..], [e] + recent;
    AddedKeyed(chain, recent, node, e);
    forall i | 0 < i < |recent'| ensures recent'[i].key in nodes' && nodes'[recent'[i].key] == chain'[i + 1] {
      assert recent'[i] == recent[i - 1] && chain'[i + 1] == chain[i - 1 + 1];
    }
    forall k | k in nodes' ensures nodes'[k] in chain' {
      if k != e.key {
        var i :| 0 <= i < |chain| && chain[i] == nodes[k];
        assert chain[i] == chain'[if i == 0 then 0 else i + 1];
      }
    }
    assert Mapped(nodes', chain', recent');
  }

  /** Using the key of `e`, which is there. */
  lemma FrontedFound<K, V>(
      nodes: map<K, Node<K, V>>, chain: seq<Node<K, V>>, recent: seq<Pair<K, V>>, e: Pair<K, V>, capacity: nat)
    requires Mapped(nodes, chain, recent) == true && e.key in nodes && |recent| <= capacity
    ensures var p := Find(recent, e.key);
            && p < |recent| && |chain| == |recent| + 2 && chain[p + 1] == nodes[e.key]
            && Fronted(recent, e, capacity) == [e] + Remove(recent, p)
  {
    MappedFinds(nodes, chain, recent, e.key);
  }

  /** A new value in the node of `e`, before it is moved. */
  lemma Overwritten<K, V>(
      nodes: map<K, Node<K, V>>, chain: seq<Node<K, V>>, recent: seq<Pair<K, V>>, e: Pair<K, V>, capacity: nat)
    requires Mapped(nodes, chain, recent) == true && e.key in nodes && |recent| <= capacity
    ensures var p := Find(recent, e.key);
            && p < |recent| && |chain| == |recent| + 2 && chain[p + 1] == nodes[e.key]
            && (forall i | 0 <= i < |chain| && i != p + 1 :: chain[i] != chain[p + 1])
            && Mapped(nodes, chain, recent[p := e]) == true && Find(recent[p := e], e.key) == p
            && Fronted(recent[p := e], e, capacity) == Fronted(recent, e, capacity)
  {
    MappedFinds(nodes, chain, recent, e.key);
    var p := Find(recent, e.key);
    KeyedApart(chain, recent, p + 1);
    var recent' := recent[p := e];
    FindIs(recent', p);
    assert Remove(recent', p) == Remove(recent, p);
    forall i | 0 <= i < |recent'| ensures recent'[i].key == recent[i].key {
    }
    assert Mapped(nodes, chain, recent');
  }

  lemma AddedNew<K, V>(
      nodes: map<K, Node<K, V>>, chain: seq<Node<K, V>>, recent: seq<Pair<K, V>>, node: Node<K, V>, e: Pair<K, V>)
    requires Mapped(nodes, chain, recent) == true && e.key !in nodes && node.key == Some(e.key)
    ensures Keyed(chain, recent) == true && |chain| == |recent| + 2
    ensures Mapped(nodes[e.key := node], [chain[0], node] + chain[1..], [e] + recent) == true
  {
    AddedMapped(nodes, chain, recent, node, e);
  }

  lemma DroppedFound<K, V>(nodes: map<K, Node<K, V>>, chain: seq<Node<K, V>>, recent: seq<Pair<K, V>>, key: K)
    requires Mapped(nodes, chain, recent) == true && key in nodes
    ensures var p := Find(recent, key);
            && p < |recent| && |chain| == |recent| + 2 && chain[p + 1] == nodes[key]
                && Dropped(recent, key) == Remove(recent, p)
  {
    MappedFinds(nodes, chain, recent, key);
  }

  /** A put of a new key adds it, and takes out the last entry if there are now too many. */
  lemma PutNew<K, V>(c: Cache<K, V>, e: Pair<K, V>)
    requires |c.recent| <= c.capacity && c.capacity > 0 && !Holds(c.recent, e.key)
    ensures Fronted(c.recent, e, c.capacity) == if |c.recent| < c.capacity then [e] + c.recent
            else ([e] + c.recent)[..|c.recent|]
    ensures EvictedBy(c, e.key) == if |c.recent| < c.capacity then None else Some(([e] + c.recent)[|c.recent|].key)
  {
  }

  class LruCache<K(==), V> {
    const capacity: nat
    const head: Node<K, V>
    const tail: Node<K, V>
    var nodes: map<K, Node<K, V>>
    var hits: nat
    var misses: nat
    /** The nodes from `head` to `tail`. */
    ghost var chain: seq<Node<K, V>>
    ghost var recent: seq<Pair<K, V>>

    /** All but the bound. Each part is kept as one fact (`== true`): spelling it out at every return slows the
        proofs. */
    ghost predicate Sound()
      reads this, chain
    {
      && |chain| >= 2 && chain[0] == head && chain[|chain| - 1] == tail
      && Mapped(nodes, chain, recent) == true
      && Laid(chain, recent) == true
    }

    ghost predicate Valid()
      reads this, chain
    {
      Sound() && |recent| <= capacity
    }

    ghost function State(): Cache<K, V>
      reads this
    {
      Cache(capacity, recent, hits, misses)
    }

    constructor (capacity: nat)
      ensures Valid() && State() == Fresh(capacity) && fresh(Members(chain))
    {
      this.capacity := capacity;
      var h := new Node<K, V>(None, None);
      var t := new Node<K, V>(None, None);
      head, tail, nodes, hits, misses := h, t, map[], 0, 0;
      chain, recent := [h, t], [];
      new;
      head.next := tail;
      tail.prev := head;
    }

    /** A negative capacity is refused. */
    static method Create(capacity: int) returns (cache: Option<LruCache<K, V>>)
      ensures cache.None? <==> capacity < 0
      ensures cache.Some? ==> fresh(cache.value) && fresh(Members(cache.value.chain)) && cache.value.Valid()
      ensures cache.Some? ==> cache.value.State() == Fresh(capacity)
    {
      if capacity < 0 {
        return None;
      }
      var made := new LruCache<K, V>(capacity);
      return Some(made);
    }

    /** Membership is not a use. */
    predicate Contains(key: K): (found: bool)
      requires Valid()
      reads this, chain
      ensures found <==> Holds(recent, key)
    {
      MappedFinds(nodes, chain, recent, key);
      key in nodes
    }

    method Size() returns (size: nat)
      requires Valid()
      ensures size == |recent|
    {
      size := |nodes|;
    }

    /** The keys from most to least recently used, read off the links. */
    method Keys() returns (keys: seq<K>)
      requires Valid()
      ensures |keys| == |recent| && forall i | 0 <= i < |keys| :: keys[i] == recent[i].key
    {
      keys := [];
      var node := head.next;
      while node != null && node != tail
        invariant |keys| <= |recent| && node == chain[|keys| + 1]
        invariant forall i | 0 <= i < |keys| :: keys[i] == recent[i].key
        decreases |recent| - |keys|
      {
        assert node.key == Some(recent[|keys|].key);
        keys := keys + [node.key.value];
        node := node.next;
      }
      assert |keys| < |recent| ==> chain[|keys| + 1].key == Some(recent[|keys|].key);
    }

    method Get(key: K, fallback: Option<V>) returns (value: Option<V>)
      requires Valid()
      modifies this, Members(chain)
      ensures Valid() && State() == Step(old(State()), Op.Get(key)) && fresh(Members(chain) - old(Members(chain)))
      ensures value == if Holds(old(recent), key) then Some(old(recent)[Find(old(recent), key)].value) else fallback
    {
      MappedFinds(nodes, chain, recent, key);
      if key !in nodes {
        misses := misses + 1;
        return fallback;
      }
      hits := hits + 1;
      var node := nodes[key];
      MoveToFront(node, recent[Find(recent, key)]);
      return node.value;
    }

    /** Inserts or updates, and tells which key was evicted. */
    method Put(key: K, value: V) returns (evicted: Option<K>)
      requires Valid()
      modifies this, Members(chain)
      ensures Valid() && State() == Step(old(State()), Op.Put(key, value))
              && fresh(Members(chain) - old(Members(chain)))
      ensures evicted == EvictedBy(old(State()), key)
    {
      if capacity == 0 {
        return Some(key);
      }
      MappedFinds(nodes, chain, recent, key);
      if key in nodes {
        Update(nodes[key], key, value);
        return None;
      }
      PutNew(State(), Pair(key, value));
      Insert(key, value);
      assert |recent| == |old(recent)| + 1;
      if |nodes| > capacity {
        var victim := Evict();
        assert recent == Fronted(old(recent), Pair(key, value), capacity);
        return Some(victim);
      }
      return None;
    }

    /** Reads through to the loader on a miss. A loader that raises (`None`) leaves the miss counted and nothing
        cached. */
    method GetOrLoad(key: K, loader: K -> Option<V>) returns (value: Option<V>)
      requires Valid()
      modifies this, Members(chain)
      ensures Valid() && State() == Step(old(State()), Load(key, loader(key)))
              && fresh(Members(chain) - old(Members(chain)))
      ensures value == if Holds(old(recent), key) then Some(old(recent)[Find(old(recent), key)].value) else loader(key)
    {
      MappedFinds(nodes, chain, recent, key);
      if key in nodes {
        var node := nodes[key];
        hits := hits + 1;
        MoveToFront(node, recent[Find(recent, key)]);
        return node.value;
      }
      misses := misses + 1;
      value := loader(key);
      if value.Some? {
        var _ := Put(key, value.value);
      }
    }

    method Invalidate(key: K) returns (dropped: bool)
      requires Valid()
      modifies this, Members(chain)
      ensures Valid() && State() == Step(old(State()), Op.Invalidate(key))
              && fresh(Members(chain) - old(Members(chain)))
      ensures dropped == Holds(old(recent), key)
    {
      MappedFinds(nodes, chain, recent, key);
      if key !in nodes {
        return false;
      }
      DroppedFound(nodes, chain, recent, key);
      Detach(nodes[key], Find(recent, key));
      nodes := nodes - {key};
      return true;
    }

    method Clear()
      requires Valid()
      modifies this, Members(chain)
      ensures Valid() && State() == Step(old(State()), Op.Clear) && fresh(Members(chain) - old(Members(chain)))
    {
      nodes := map[];
      head.next := tail;
      tail.prev := head;
      chain, recent := [head, tail], [];
    }

    /** The part of a put that finds the key. */
    method Update(existing: Node<K, V>, key: K, value: V)
      requires Valid() && key in nodes && nodes[key] == existing
      modifies this`chain, this`recent, Members(chain)
      ensures Valid() && Members(chain) == old(Members(chain))
      ensures recent == Fronted(old(recent), Pair(key, value), capacity)
    {
      ghost var p := Find(recent, key);
      Overwritten(nodes, chain, recent, Pair(key, value), capacity);
      existing.value := Some(value);
      recent := recent[p := Pair(key, value)];
      assert Laid(chain, recent);
      MoveToFront(existing, Pair(key, value));
    }

    /** The part of a put that does not. */
    method Insert(key: K, value: V)
      requires Sound() && key !in nodes
      modifies this`nodes, this`chain, this`recent, Members(chain)
      ensures Sound() && fresh(Members(chain) - old(Members(chain)))
      ensures recent == [Pair(key, value)] + old(recent) && |nodes| == |recent|
    {
      var node := new Node(Some(key), Some(value));
      assert nodes[key := node] - {key} == nodes;
      nodes := nodes[key := node];
      Attach(node, Pair(key, value));
    }

    method PushFront(node: Node<K, V>, ghost chain: seq<Node<K, V>>, ghost recent: seq<Pair<K, V>>, ghost e: Pair<K, V>)
      requires Laid(chain, recent) == true && Keyed(chain, recent) == true && chain[0] == head
      requires node !in chain && node.value == Some(e.value)
      modifies chain, node`prev, node`next
      ensures Laid([head, node] + chain[1..], [e] + recent) == true
    {
      assert chain[0].next == chain[1] && chain[1] in chain;
      var first := head.next;
      node.prev := head;
      node.next := first;
      head.next := node;
      first.prev := node;
      KeyedApart(chain, recent, 0);
      KeyedApart(chain, recent, 1);
      ghost var chain' := [head, node] + chain[1..];
      assert forall i | 2 <= i < |chain'| :: chain'[i] == chain[i - 1];
      assert Laid(chain', [e] + recent);
    }

    static method Unlink(node: Node<K, V>, ghost chain: seq<Node<K, V>>, ghost recent: seq<Pair<K, V>>, ghost p: nat)
      requires Laid(chain, recent) == true && Keyed(chain, recent) == true && p < |recent| && chain[p + 1] == node
      modifies Members(chain)
      ensures Laid(Remove(chain, p + 1), Remove(recent, p)) == true
      ensures node.value == old(node.value)
    {
      assert chain[p].next == chain[p + 1] && chain[p + 1].next == chain[p + 2] && chain[p + 1].prev == chain[p];
      assert chain[p] in chain && chain[p + 2] in chain;
      node.prev.next := node.next;
      node.next.prev := node.prev;
      node.prev, node.next := null, null;
      KeyedApart(chain, recent, p);
      KeyedApart(chain, recent, p + 1);
      KeyedApart(chain, recent, p + 2);
      ghost var chain', recent' := Remove(chain, p + 1), Remove(recent, p);
      forall i | 0 <= i < |chain'| - 1 ensures chain'[i].next == chain'[i + 1] && chain'[i + 1].prev == chain'[i] {
        var j := if i <= p then i else i + 1;
        var k := if i < p then i + 1 else i + 2;
        assert chain'[i] == chain[j] && chain'[i + 1] == chain[k];
        assert old(chain[j].next) == chain[j + 1] && old(chain[k].prev) == chain[k - 1];
      }
      forall i | 0 <= i < |recent'| ensures chain'[i + 1].value == Some(recent'[i].value) {
        assert chain'[i + 1] == chain[if i < p then i + 1 else i + 2];
      }
      assert Laid(chain', recent');
    }

    /** `e` is the entry of the node. */
    method MoveToFront(node: Node<K, V>, ghost e: Pair<K, V>)
      requires Valid() && e.key in nodes && nodes[e.key] == node && Holds(recent, e.key)
               && recent[Find(recent, e.key)] == e
      modifies this`chain, this`recent, Members(chain)
      ensures Valid() && Members(chain) == old(Members(chain))
      ensures recent == Fronted(old(recent), e, capacity) && node.value == Some(e.value)
    {
      FrontedFound(nodes, chain, recent, e, capacity);
      Relink(node, Find(recent, e.key));
    }

    /** Takes a node out of the list; its key is still to be taken out of the map. */
    method Detach(node: Node<K, V>, ghost p: nat)
      requires Sound() && p < |recent| && chain[p + 1] == node
      modifies this`chain, this`recent, Members(chain)
      ensures |chain| >= 2 && chain[0] == head && chain[|chain| - 1] == tail && Laid(chain, recent) == true
      ensures Mapped(nodes - {old(recent)[p].key}, chain, recent) == true
      ensures recent == Remove(old(recent), p) && Members(chain) + {node} == old(Members(chain)) && node !in chain
      ensures node.value == Some(old(recent)[p].value) && node.key == Some(old(recent)[p].key)
    {
      assert chain[p + 1].value == Some(recent[p].value) && chain[p + 1].key == Some(recent[p].key);
      RemovedKeyed(chain, recent, p);
      RemovedMapped(nodes, chain, recent, p);
      RemovedMembers(chain, p + 1);
      Unlink(node, chain, recent, p);
      chain, recent := Remove(chain, p + 1), Remove(recent, p);
    }

    method Relink(node: Node<K, V>, ghost p: nat)
      requires Sound() && p < |recent| && chain[p + 1] == node
      modifies this`chain, this`recent, Members(chain)
      ensures Sound() && Members(chain) == old(Members(chain))
      ensures recent == [old(recent)[p]] + Remove(old(recent), p) && node.value == Some(old(recent)[p].value)
    {
      assert chain[0].next == chain[1] && chain[p + 1].value == Some(recent[p].value);
      if head.next == node {
        KeyedApart(chain, recent, p + 1);
        return;
      }
      ghost var e := recent[p];
      assert nodes[e.key] == node;
      Detach(node, p);
      Attach(node, e);
    }

    /** Puts a node in front of the list; its key is already in the map. */
    method Attach(node: Node<K, V>, ghost e: Pair<K, V>)
      requires |chain| >= 2 && chain[0] == head && chain[|chain| - 1] == tail && Laid(chain, recent) == true
      requires Mapped(nodes - {e.key}, chain, recent) == true && e.key in nodes && nodes[e.key] == node
               && node !in chain
      requires node.key == Some(e.key) && node.value == Some(e.value)
      modifies this`chain, this`recent, Members(chain), node`prev, node`next
      ensures Sound() && Members(chain) == old(Members(chain)) + {node} && recent == [e] + old(recent)
    {
      AddedNew(nodes - {e.key}, chain, recent, node, e);
      assert nodes == (nodes - {e.key})[e.key := node];
      AddedMembers(chain, node);
      PushFront(node, chain, recent, e);
      chain, recent := [head, node] + chain[1..], [e] + recent;
    }

    /** Takes out the least recently used entry. */
    method Evict() returns (key: K)
      requires Sound() && recent != []
      modifies this`nodes, this`chain, this`recent, Members(chain)
      ensures Sound() && Members(chain) <= old(Members(chain))
      ensures key == old(recent[|recent| - 1].key) && recent == old(recent[..|recent| - 1])
    {
      ghost var p := |recent| - 1;
      assert chain[p + 2].prev == chain[p + 1] && chain[p + 1].key == Some(recent[p].key);
      var victim := tail.prev;
      key := victim.key.value;
      Detach(victim, p);
      nodes := nodes - {key};
    }
  }
}
