/** What the cache does, on a list of its entries with the most recently used first. */
module LruLists {
  import opened Wrappers

  datatype Pair<K, V> = Pair(key: K, value: V)

  datatype Cache<K, V> = Cache(capacity: nat, recent: seq<Pair<K, V>>, hits: nat, misses: nat)

  /** A load carries what its loader would return; `None` is a loader that raises. */
  datatype Op<K, V> =
    | Get(key: K)
    | Put(key: K, value: V)
    | Load(key: K, outcome: Option<V>)
    | Invalidate(key: K)
    | Clear

  /** Where a key is, or the length of the list when it is not there. */
  function Find<K(==), V>(s: seq<Pair<K, V>>, key: K): (p: nat)
    ensures p <= |s| && (p < |s| ==> s[p].key == key)
    ensures forall i | 0 <= i < p :: s[i].key != key
  {
    if s == [] || s[0].key == key then 0 else 1 + Find(s[1..], key)
  }

  predicate Holds<K(==), V>(s: seq<Pair<K, V>>, key: K) {
    Find(s, key) < |s|
  }

  function Remove<T>(s: seq<T>, p: nat): seq<T>
    requires p < |s|
  {
    s[..p] + s[p + 1..]
  }

  function Dropped<K(==), V>(s: seq<Pair<K, V>>, key: K): seq<Pair<K, V>> {
    if Holds(s, key) then Remove(s, Find(s, key)) else s
  }

  function Trim<T>(s: seq<T>, capacity: nat): seq<T> {
    if |s| > capacity then s[..capacity] else s
  }

  /** `e` becomes the most recently used; what no longer fits falls off the other end. */
  function Fronted<K(==), V>(s: seq<Pair<K, V>>, e: Pair<K, V>, capacity: nat): seq<Pair<K, V>> {
    Trim([e] + Dropped(s, e.key), capacity)
  }

  /** The entry an operation brings to the front: the one it finds, or for a put or a load that misses, a new one. */
  function Entered<K(==), V>(c: Cache<K, V>, op: Op<K, V>): Pair<K, V>
    requires op.Get? || op.Put? || op.Load?
    requires Holds(c.recent, op.key) || op.Put? || (op.Load? && op.outcome.Some?)
  {
    if op.Put? then Pair(op.key, op.value)
    else if Holds(c.recent, op.key) then c.recent[Find(c.recent, op.key)]
    else Pair(op.key, op.outcome.value)
  }

  function Step<K(==), V>(c: Cache<K, V>, op: Op<K, V>): Cache<K, V> {
    match op
    case Get(key) =>
      if Holds(c.recent, key) then c.(recent := Fronted(c.recent, Entered(c, op), c.capacity), hits := c.hits + 1)
      else c.(misses := c.misses + 1)
    case Put(key, _) =>
      c.(recent := Fronted(c.recent, Entered(c, op), c.capacity))
    case Load(key, outcome) =>
      if Holds(c.recent, key) then c.(recent := Fronted(c.recent, Entered(c, op), c.capacity), hits := c.hits + 1)
      else if outcome.None? then c.(misses := c.misses + 1)
      else c.(recent := Fronted(c.recent, Entered(c, op), c.capacity), misses := c.misses + 1)
    case Invalidate(key) => c.(recent := Dropped(c.recent, key))
    case Clear => c.(recent := [])
  }

  function Fresh<K, V>(capacity: nat): Cache<K, V> {
    Cache(capacity, [], 0, 0)
  }

  function Run<K(==), V>(capacity: nat, ops: seq<Op<K, V>>): Cache<K, V> {
    if ops == [] then Fresh(capacity) else Step(Run(capacity, ops[..|ops| - 1]), ops[|ops| - 1])
  }

  ghost predicate Distinct<K, V>(s: seq<Pair<K, V>>) {
    forall i, j | 0 <= i < j < |s| :: s[i].key != s[j].key
  }

  /** No key twice, and no more entries than fit. */
  ghost predicate WellFormed<K, V>(c: Cache<K, V>) {
    Distinct(c.recent) && |c.recent| <= c.capacity
  }

  lemma FindIs<K, V>(s: seq<Pair<K, V>>, p: nat)
    requires Distinct(s) && p < |s|
    ensures Find(s, s[p].key) == p
  {
  }

  lemma DroppedDistinct<K, V>(s: seq<Pair<K, V>>, key: K)
    requires Distinct(s)
    ensures Distinct(Dropped(s, key)) && !Holds(Dropped(s, key), key)
    ensures |Dropped(s, key)| == if Holds(s, key) then |s| - 1 else |s|
    ensures forall e :: e in Dropped(s, key) <==> e in s && e.key != key
  {
    var d, p := Dropped(s, key), Find(s, key);
    if p < |s| {
      forall i | 0 <= i < |s| && i != p ensures s[i] in d {
        assert s[i] == d[if i < p then i else i - 1];
      }
      forall i | 0 <= i < |d| ensures d[i] in s && d[i].key != key {
        assert d[i] == s[if i < p then i else i + 1];
      }
    }
  }

  lemma FrontedDistinct<K, V>(s: seq<Pair<K, V>>, e: Pair<K, V>, capacity: nat)
    requires Distinct(s)
    ensures Distinct(Fronted(s, e, capacity)) && |Fronted(s, e, capacity)| <= capacity
  {
    DroppedDistinct(s, e.key);
    var f := [e] + Dropped(s, e.key);
    forall i | 0 < i < |f| ensures f[i].key != e.key {
      assert f[i] in Dropped(s, e.key);
    }
  }

  lemma StepKeepsWellFormed<K, V>(c: Cache<K, V>, op: Op<K, V>)
    requires WellFormed(c)
    ensures WellFormed(Step(c, op)) && Step(c, op).capacity == c.capacity
  {
    if op.Invalidate? {
      DroppedDistinct(c.recent, op.key);
    } else if !op.Clear? && (Holds(c.recent, op.key) || op.Put? || (op.Load? && op.outcome.Some?)) {
      FrontedDistinct(c.recent, Entered(c, op), c.capacity);
    }
  }

  lemma {:induction false} RunWellFormed<K, V>(capacity: nat, ops: seq<Op<K, V>>)
    ensures WellFormed(Run(capacity, ops)) && Run(capacity, ops).capacity == capacity
  {
    if ops != [] {
      RunWellFormed<K, V>(capacity, ops[..|ops| - 1]);
      StepKeepsWellFormed(Run(capacity, ops[..|ops| - 1]), ops[|ops| - 1]);
    }
  }

  // ---- what a put evicts ---------------------------------------------------

  /** The key that a put pushes out: its own where nothing fits, and otherwise the last of a full list unless the put
      only renews a key of the list. */
  function EvictedBy<K(==), V>(c: Cache<K, V>, key: K): Option<K> {
    if c.capacity == 0 then Some(key)
    else if !Holds(c.recent, key) && |c.recent| >= c.capacity then Some(c.recent[|c.recent| - 1].key)
    else None
  }

  /** A put changes the value of its own key and puts it first, takes away the evicted key, and leaves every other
      entry. It is neither a hit nor a miss. */
  lemma PutOutcome<K, V>(c: Cache<K, V>, key: K, value: V, e: Pair<K, V>)
    requires WellFormed(c)
    ensures e in Step(c, Put(key, value)).recent <==>
            (if e.key == key then e.value == value else e in c.recent) && EvictedBy(c, key) != Some(e.key)
    ensures c.capacity > 0 ==> Step(c, Put(key, value)).recent[..1] == [Pair(key, value)]
    ensures Step(c, Put(key, value)).hits == c.hits && Step(c, Put(key, value)).misses == c.misses
  {
    var s, n := c.recent, c.capacity;
    var f := [Pair(key, value)] + Dropped(s, key);
    DroppedDistinct(s, key);
    assert e in f <==> if e.key == key then e.value == value else e in s;
    if n > 0 && |f| > n {
      var last := s[|s| - 1];
      assert f == f[..n] + [last];
      FrontedDistinct(s, Pair(key, value), n + 1);
      assert Distinct(f);
      assert e in f[..n] ==> e.key != last.key;
      assert e in s && e.key == last.key ==> e == last;
    }
  }

  lemma HoldsIff<K, V>(s: seq<Pair<K, V>>, key: K)
    ensures Holds(s, key) <==> exists e :: e in s && e.key == key
  {
    if e :| e in s && e.key == key {
      var i :| 0 <= i < |s| && s[i] == e;
    }
  }

  lemma HitKeepsEntries<K, V>(s: seq<Pair<K, V>>, key: K, capacity: nat)
    requires Distinct(s) && |s| <= capacity && Holds(s, key)
    ensures var f := Fronted(s, s[Find(s, key)], capacity);
            f != [] && f[0] == s[Find(s, key)] && forall e :: e in f <==> e in s
  {
    var p, rest := Find(s, key), Dropped(s, key);
    DroppedDistinct(s, key);
    assert Fronted(s, s[p], capacity) == [s[p]] + rest;
    forall e ensures e in [s[p]] + rest <==> e in s {
      if e in s && e.key == key {
        var i :| 0 <= i < |s| && s[i] == e;
        assert i == p;
      }
    }
  }

  /** A lookup finds the key exactly when there is an entry for it. A hit puts that entry first and loses none; a miss
      leaves the entries alone, but for a load whose loader returned: that one is a put. */
  lemma LookupOutcome<K, V>(c: Cache<K, V>, op: Op<K, V>)
    requires WellFormed(c) && (op.Get? || op.Load?)
    ensures var c', hit := Step(c, op), exists e :: e in c.recent && e.key == op.key;
            && c'.hits == c.hits + (if hit then 1 else 0) && c'.misses == c.misses + (if hit then 0 else 1)
            && (hit ==> && c'.recent != [] && c'.recent[0].key == op.key
                        && forall e :: e in c'.recent <==> e in c.recent)
            && (!hit ==> c'.recent == if op.Load? && op.outcome.Some?
                                      then Step(c, Put(op.key, op.outcome.value)).recent else c.recent)
  {
    HoldsIff(c.recent, op.key);
    if Holds(c.recent, op.key) { HitKeepsEntries(c.recent, op.key, c.capacity); }
  }

  /** An invalidation takes away the entry of its key, clearing takes away all; neither counts. */
  lemma RemovalOutcome<K, V>(c: Cache<K, V>, op: Op<K, V>, e: Pair<K, V>)
    requires WellFormed(c) && (op.Invalidate? || op.Clear?)
    ensures e in Step(c, op).recent <==> op.Invalidate? && e in c.recent && e.key != op.key
    ensures Step(c, op).hits == c.hits && Step(c, op).misses == c.misses
  {
    if op.Invalidate? { DroppedDistinct(c.recent, op.key); }
  }

  // ---- recency -----------------------------------------------------------

  predicate Uses<K(==), V>(op: Op<K, V>, key: K) {
    (op.Get? || op.Put? || op.Load?) && op.key == key
  }

  /** The latest operation that used this key, counted from 1; 0 if none did. */
  function LastUse<K(==), V>(ops: seq<Op<K, V>>, key: K): (t: nat)
    ensures t <= |ops|
  {
    if ops == [] then 0
    else if Uses(ops[|ops| - 1], key) then |ops|
    else LastUse(ops[..|ops| - 1], key)
  }

  /** The list is in the order of last use. */
  ghost predicate ByLastUse<K, V>(s: seq<Pair<K, V>>, ops: seq<Op<K, V>>) {
    forall i, j | 0 <= i < j < |s| :: LastUse(ops, s[i].key) > LastUse(ops, s[j].key)
  }

  lemma DroppedByLastUse<K, V>(s: seq<Pair<K, V>>, ops: seq<Op<K, V>>, key: K)
    requires ByLastUse(s, ops)
    ensures ByLastUse(Dropped(s, key), ops)
  {
    var d, p := Dropped(s, key), Find(s, key);
    if p < |s| {
      forall i, j | 0 <= i < j < |d| ensures LastUse(ops, d[i].key) > LastUse(ops, d[j].key) {
        assert d[i] == s[if i < p then i else i + 1] && d[j] == s[if j < p then j else j + 1];
      }
    }
  }

  /** Keys an operation does not use keep their last use. */
  lemma OthersByLastUse<K, V>(s: seq<Pair<K, V>>, ops: seq<Op<K, V>>, op: Op<K, V>)
    requires ByLastUse(s, ops)
    requires forall i | 0 <= i < |s| :: !Uses(op, s[i].key)
    ensures ByLastUse(s, ops + [op])
  {
    assert (ops + [op])[..|ops|] == ops;
    forall i | 0 <= i < |s| ensures LastUse(ops + [op], s[i].key) == LastUse(ops, s[i].key) {
    }
  }

  lemma PushedByLastUse<K, V>(s: seq<Pair<K, V>>, ops: seq<Op<K, V>>, op: Op<K, V>, e: Pair<K, V>)
    requires ByLastUse(s, ops + [op]) && Uses(op, e.key)
    requires forall i | 0 <= i < |s| :: s[i].key != e.key
    ensures ByLastUse([e] + s, ops + [op])
  {
    assert (ops + [op])[..|ops|] == ops;
    forall i | 0 <= i < |s| ensures LastUse(ops + [op], s[i].key) <= |ops| {
    }
  }

  lemma FrontedByLastUse<K, V>(s: seq<Pair<K, V>>, ops: seq<Op<K, V>>, op: Op<K, V>, e: Pair<K, V>, capacity: nat)
    requires ByLastUse(s, ops) && Distinct(s) && Uses(op, e.key)
    ensures ByLastUse(Fronted(s, e, capacity), ops + [op])
  {
    var d := Dropped(s, e.key);
    DroppedByLastUse(s, ops, e.key);
    DroppedDistinct(s, e.key);
    forall i | 0 <= i < |d| ensures d[i].key != e.key {
      assert d[i] in d;
    }
    OthersByLastUse(d, ops, op);
    PushedByLastUse(d, ops, op, e);
    TrimByLastUse([e] + d, ops + [op], capacity);
  }

  lemma TrimByLastUse<K, V>(s: seq<Pair<K, V>>, ops: seq<Op<K, V>>, capacity: nat)
    requires ByLastUse(s, ops)
    ensures ByLastUse(Trim(s, capacity), ops)
  {
  }

  lemma StepByLastUse<K, V>(c: Cache<K, V>, ops: seq<Op<K, V>>, op: Op<K, V>)
    requires WellFormed(c) && ByLastUse(c.recent, ops) == true
    ensures ByLastUse(Step(c, op).recent, ops + [op]) == true
  {
    var s := c.recent;
    if op.Clear? {
      assert ByLastUse<K, V>([], ops + [op]);
    } else if op.Invalidate? {
      DroppedByLastUse(s, ops, op.key);
      OthersByLastUse(Dropped(s, op.key), ops, op);
    } else if Holds(s, op.key) || op.Put? || (op.Load? && op.outcome.Some?) {
      FrontedByLastUse(s, ops, op, Entered(c, op), c.capacity);
    } else {
      OthersByLastUse(s, ops, op);
    }
  }

  lemma {:induction false} RunByLastUse<K, V>(capacity: nat, ops: seq<Op<K, V>>)
    ensures ByLastUse(Run(capacity, ops).recent, ops) == true
  {
    if ops != [] {
      var before, op := ops[..|ops| - 1], ops[|ops| - 1];
      RunByLastUse<K, V>(capacity, before);
      RunWellFormed<K, V>(capacity, before);
      StepByLastUse(Run(capacity, before), before, op);
      assert before + [op] == ops;
    }
  }

  lemma LastIsOldest<K, V>(s: seq<Pair<K, V>>, ops: seq<Op<K, V>>, kept: K)
    requires Distinct(s) && ByLastUse(s, ops) == true && Holds(s, kept)
    ensures Holds(s, s[|s| - 1].key)
    ensures s[|s| - 1].key == kept || LastUse(ops, s[|s| - 1].key) < LastUse(ops, kept)
  {
    FindIs(s, |s| - 1);
    assert s[Find(s, kept)].key == kept;
  }

  /** After any operations, the cached key a put evicts is the one used longest ago. */
  lemma EvictsLeastRecentlyUsed<K, V>(capacity: nat, ops: seq<Op<K, V>>, key: K, kept: K)
    requires capacity > 0 && Holds(Run(capacity, ops).recent, kept)
    ensures var evicted := EvictedBy(Run(capacity, ops), key);
            evicted.Some? ==> Holds(Run(capacity, ops).recent, evicted.value)
                              && (evicted.value == kept || LastUse(ops, evicted.value) < LastUse(ops, kept))
  {
    RunByLastUse<K, V>(capacity, ops);
    RunWellFormed<K, V>(capacity, ops);
    LastIsOldest(Run(capacity, ops).recent, ops, kept);
  }

  // ---- two capacities ------------------------------------------------------

  /** Where slot `i` of the list with the gap is in the list without it. */
  function Slot(gap: nat, i: nat): nat {
    if i < gap then i else i + 1
  }

  /** The keys of `a` are those of `b`, in order, less the one at `gap`; all of them when `gap` is the length of `b`. */
  ghost predicate Gapped<K, V>(a: seq<Pair<K, V>>, b: seq<Pair<K, V>>, gap: nat) {
    && gap <= |b|
    && |b| == (if gap < |b| then |a| + 1 else |a|)
    && forall i | 0 <= i < |a| :: a[i].key == b[Slot(gap, i)].key
  }

  /** The keys of the smaller cache are those of the larger, in order, with at most one left out. */
  ghost predicate Narrower<K, V>(a: seq<Pair<K, V>>, b: seq<Pair<K, V>>) {
    exists gap | 0 <= gap <= |b| :: Gapped(a, b, gap)
  }

  lemma FrontedGapped<K, V>(a: seq<Pair<K, V>>, b: seq<Pair<K, V>>, gap: nat, x: Pair<K, V>, y: Pair<K, V>)
    requires Gapped(a, b, gap) && x.key == y.key
    ensures Gapped([x] + a, [y] + b, gap + 1)
  {
    forall i | 0 <= i < |a| + 1 ensures ([x] + a)[i].key == ([y] + b)[Slot(gap + 1, i)].key {
      if i > 0 { assert a[i - 1].key == b[Slot(gap, i - 1)].key; }
    }
  }

  lemma TrimGapped<K, V>(a: seq<Pair<K, V>>, b: seq<Pair<K, V>>, gap: nat, capacity: nat)
    requires Gapped(a, b, gap) && |a| <= capacity + 1 && |b| <= capacity + 2
    ensures Narrower(Trim(a, capacity), Trim(b, capacity + 1))
  {
    var a', b' := Trim(a, capacity), Trim(b, capacity + 1);
    assert Gapped(a', b', if |a| <= capacity || gap < capacity then gap else capacity);
  }

  lemma RemovedGapped<K, V>(a: seq<Pair<K, V>>, b: seq<Pair<K, V>>, gap: nat, p: nat)
    requires Gapped(a, b, gap) && p < |a|
    ensures Gapped(Remove(a, p), Remove(b, Slot(gap, p)), if p < gap then gap - 1 else gap)
  {
    var gap' := if p < gap then gap - 1 else gap;
    forall i | 0 <= i < |a| - 1 ensures Remove(a, p)[i].key == Remove(b, Slot(gap, p))[Slot(gap', i)].key {
      assert a[Slot(p, i)].key == b[Slot(gap, Slot(p, i))].key;
    }
  }

  lemma FindAcrossGap<K, V>(a: seq<Pair<K, V>>, b: seq<Pair<K, V>>, gap: nat, key: K)
    requires Distinct(b) && Gapped(a, b, gap)
    ensures Holds(a, key) ==> Find(b, key) == Slot(gap, Find(a, key))
    ensures !Holds(a, key) && Holds(b, key) ==> Find(b, key) == gap
  {
    var p, q := Find(a, key), Find(b, key);
    if p < |a| {
      FindIs(b, Slot(gap, p));
    } else if q < |b| {
      forall j | 0 <= j < |b| && j != gap ensures b[j].key != key {
        assert a[if j < gap then j else j - 1].key != key;
      }
    }
  }

  /** Dropping a key keeps at most one gap, and closes it when only the larger cache held the key. */
  lemma DroppedGapped<K, V>(a: seq<Pair<K, V>>, b: seq<Pair<K, V>>, gap: nat, key: K) returns (gap': nat)
    requires Distinct(b) && Gapped(a, b, gap)
    ensures Gapped(Dropped(a, key), Dropped(b, key), gap') == true
    ensures Holds(b, key) && !Holds(a, key) ==> gap' == |Dropped(b, key)|
  {
    FindAcrossGap(a, b, gap, key);
    gap' := gap;
    if Holds(a, key) {
      RemovedGapped(a, b, gap, Find(a, key));
      gap' := if Find(a, key) < gap then gap - 1 else gap;
    } else if Holds(b, key) {
      gap' := |b| - 1;
      assert Gapped(a, Remove(b, gap), gap');
    }
  }

  lemma FilledGapped<K, V>(a: seq<Pair<K, V>>, b: seq<Pair<K, V>>, y: Pair<K, V>)
    requires Gapped(a, b, |b|)
    ensures Gapped(a, [y] + b, 0)
  {
  }

  lemma BothFronted<K, V>(a: seq<Pair<K, V>>, b: seq<Pair<K, V>>, x: Pair<K, V>, y: Pair<K, V>, capacity: nat)
    requires Distinct(b) && Narrower(a, b) && x.key == y.key
    requires |a| <= capacity && |b| <= capacity + 1
    ensures Narrower(Fronted(a, x, capacity), Fronted(b, y, capacity + 1))
  {
    var gap :| 0 <= gap <= |b| && Gapped(a, b, gap);
    var gap' := DroppedGapped(a, b, gap, x.key);
    FrontedGapped(Dropped(a, x.key), Dropped(b, x.key), gap', x, y);
    TrimGapped([x] + Dropped(a, x.key), [y] + Dropped(b, x.key), gap' + 1, capacity);
  }

  /** A hit in the larger cache alone brings the key it alone holds to its front. */
  lemma LargerFronted<K, V>(a: seq<Pair<K, V>>, b: seq<Pair<K, V>>, key: K, capacity: nat)
    requires Distinct(b) && Narrower(a, b) && !Holds(a, key)
    requires |a| <= capacity && |b| <= capacity + 1
    ensures Holds(b, key) ==> Narrower(a, Fronted(b, b[Find(b, key)], capacity + 1))
  {
    if Holds(b, key) {
      var gap :| 0 <= gap <= |b| && Gapped(a, b, gap);
      var gap' := DroppedGapped(a, b, gap, key);
      FilledGapped(a, Dropped(b, key), b[Find(b, key)]);
    }
  }

  lemma NarrowerHolds<K, V>(a: seq<Pair<K, V>>, b: seq<Pair<K, V>>, key: K)
    requires Distinct(b) && Narrower(a, b)
    ensures Holds(a, key) ==> Holds(b, key)
  {
    var gap :| 0 <= gap <= |b| && Gapped(a, b, gap);
    FindAcrossGap(a, b, gap, key);
  }

  lemma StepKeepsNarrower<K, V>(c: Cache<K, V>, d: Cache<K, V>, op: Op<K, V>)
    requires WellFormed(c) && WellFormed(d) && d.capacity == c.capacity + 1 && Narrower(c.recent, d.recent)
    ensures Narrower(Step(c, op).recent, Step(d, op).recent)
  {
    var a, b, n := c.recent, d.recent, c.capacity;
    if op.Clear? {
      assert Gapped<K, V>([], [], 0);
    } else if op.Invalidate? {
      var gap :| 0 <= gap <= |b| && Gapped(a, b, gap);
      var gap' := DroppedGapped(a, b, gap, op.key);
    } else {
      NarrowerHolds(a, b, op.key);
      if Holds(a, op.key) || op.Put? || (op.Load? && op.outcome.Some?) {
        BothFronted(a, b, Entered(c, op), Entered(d, op), n);
      } else {
        LargerFronted(a, b, op.key, n);
      }
    }
  }

  lemma {:induction false} RunNarrower<K, V>(capacity: nat, ops: seq<Op<K, V>>)
    ensures Narrower(Run(capacity, ops).recent, Run(capacity + 1, ops).recent)
    ensures Run(capacity, ops).hits <= Run(capacity + 1, ops).hits
    ensures Run(capacity, ops).hits + Run(capacity, ops).misses == Run(capacity + 1, ops).hits
            + Run(capacity + 1, ops).misses
  {
    if ops == [] {
      assert Gapped<K, V>([], [], 0);
    } else {
      var before, op := ops[..|ops| - 1], ops[|ops| - 1];
      var c, d := Run(capacity, before), Run(capacity + 1, before);
      RunNarrower<K, V>(capacity, before);
      RunWellFormed<K, V>(capacity, before);
      RunWellFormed<K, V>(capacity + 1, before);
      StepKeepsNarrower(c, d, op);
      if !op.Clear? { NarrowerHolds(c.recent, d.recent, op.key); }
    }
  }

  lemma RunHolds<K, V>(capacity: nat, ops: seq<Op<K, V>>, key: K)
    ensures Holds(Run(capacity, ops).recent, key) ==> Holds(Run(capacity + 1, ops).recent, key)
  {
    RunNarrower<K, V>(capacity, ops);
    RunWellFormed<K, V>(capacity + 1, ops);
    NarrowerHolds(Run(capacity, ops).recent, Run(capacity + 1, ops).recent, key);
  }

  /** The same operations on a larger cache: it holds every key the smaller one holds, has at least as many hits, and
      counts as many lookups. */
  lemma {:induction false} CapacityInclusion<K, V>(small: nat, large: nat, ops: seq<Op<K, V>>, key: K)
    requires small <= large
    ensures Holds(Run(small, ops).recent, key) ==> Holds(Run(large, ops).recent, key)
    ensures Run(small, ops).hits <= Run(large, ops).hits
    ensures Run(small, ops).hits + Run(small, ops).misses == Run(large, ops).hits + Run(large, ops).misses
    decreases large - small
  {
    if small < large {
      RunNarrower<K, V>(small, ops);
      RunHolds<K, V>(small, ops, key);
      CapacityInclusion<K, V>(small + 1, large, ops, key);
    }
  }
}
