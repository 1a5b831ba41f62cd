/** One bucket per key, made on first use and dropped when idle. */
module RateLimits {
  import opened Wrappers
  import opened TokenBuckets

  datatype Limiter<K> = Limiter(terms: Terms, idleTtl: real, buckets: map<K, Bucket>, lastSeen: map<K, real>)

  /** The clock is read when a bucket is made, when the key is noted as seen, and when the bucket is refilled. */
  datatype Readings = Readings(created: real, seen: real, used: real)

  function Empty<K>(t: Terms, idleTtl: real): Limiter<K> {
    Limiter(t, idleTtl, map[], map[])
  }

  function Held<K(==)>(l: Limiter<K>, key: K, created: real): Bucket {
    if key in l.buckets then l.buckets[key] else Full(l.terms, created)
  }

  /** A refused cost leaves the bucket it found, or made, without refilling it. */
  function Charge(t: Terms, b: Bucket, cost: int, used: real): (Bucket, Result<Decision, RateError>)
    requires Usable(t)
  {
    if cost < 1 then (b, Failure(CostTooSmall))
    else if cost > t.capacity then (b, Failure(CostTooLarge))
    else var (b', d) := Acquire(t, b, cost, used); (b', Success(d))
  }

  /** Terms no bucket can be made on are refused at the first check, and nothing is kept. */
  function Check<K(==)>(l: Limiter<K>, key: K, cost: int, at: Readings): (Limiter<K>, Result<Decision, RateError>) {
    if !Usable(l.terms) then (l, Failure(if l.terms.capacity < 1 then CapacityTooSmall else RateNotPositive))
    else
      var (b, answer) := Charge(l.terms, Held(l, key, at.created), cost, at.used);
      (l.(buckets := l.buckets[key := b], lastSeen := l.lastSeen[key := at.seen]), answer)
  }

  predicate Idle<K(==)>(l: Limiter<K>, key: K, now: real) {
    key in l.lastSeen && l.lastSeen[key] < now - l.idleTtl
  }

  function EvictIdle<K(==)>(l: Limiter<K>, now: real): Limiter<K> {
    l.(buckets := map k | k in l.buckets && !Idle(l, k, now) :: l.buckets[k],
       lastSeen := map k | k in l.lastSeen && !Idle(l, k, now) :: l.lastSeen[k])
  }

  /** A check touches no key but its own. It notes the key as seen, whatever the answer; a cost no bucket could ever pay
      is refused without a charge, and any other is decided by the bucket of the key, a full one if it is new. */
  lemma CheckOutcome<K>(l: Limiter<K>, key: K, cost: int, at: Readings)
    requires Usable(l.terms)
    ensures var (l', r) := Check(l, key, cost, at);
            var held := if key in l.buckets then l.buckets[key] else Bucket(l.terms.capacity as real, at.created);
            && (r == Failure(CostTooSmall) <==> cost < 1) && (r == Failure(CostTooLarge) <==> cost > l.terms.capacity)
            && (r.Success? <==> 1 <= cost <= l.terms.capacity)
            && l'.terms == l.terms && l'.idleTtl == l.idleTtl && l'.lastSeen == l.lastSeen[key := at.seen]
            && l'.buckets.Keys == l.buckets.Keys + {key}
            && (forall k | k in l.buckets && k != key :: l'.buckets[k] == l.buckets[k])
            && (if r.Success? then (l'.buckets[key], r.value) == Acquire(l.terms, held, cost, at.used)
                else l'.buckets[key] == held)
  {
  }

  lemma EvictedIs<K>(l: Limiter<K>, now: real, stale: set<K>)
    requires l.buckets.Keys == l.lastSeen.Keys && stale == set k | k in l.lastSeen && Idle(l, k, now)
    ensures EvictIdle(l, now) == l.(buckets := l.buckets - stale, lastSeen := l.lastSeen - stale)
  {
  }

  // ---- eviction and what callers see -------------------------------------------

  datatype Event<K> =
    | Checked(key: K, cost: int, at: Readings)
    | Evicted(now: real)

  function Start(e: Event): real {
    match e case Checked(_, _, at) => at.created case Evicted(now) => now
  }

  function End(e: Event): real {
    match e case Checked(_, _, at) => at.used case Evicted(now) => now
  }

  /** Within a check the clock does not go back, and the bucket is refilled at most `gap` after the key was noted as
      seen. */
  predicate Timely(e: Event, gap: real) {
    e.Checked? ==> e.at.created <= e.at.seen <= e.at.used <= e.at.seen + gap
  }

  /** Calls follow one another on a clock that never goes back. */
  ghost predicate Orderly(events: seq<Event>, gap: real) {
    && (forall i | 0 <= i < |events| :: Timely(events[i], gap))
    && (forall i, j | 0 <= i < j < |events| :: End(events[i]) <= Start(events[j]))
  }

  function Handled<K(==)>(l: Limiter<K>, e: Event<K>, evicting: bool): Limiter<K> {
    match e
    case Checked(key, cost, at) => Check(l, key, cost, at).0
    case Evicted(now) => if evicting then EvictIdle(l, now) else l
  }

  /** The answers to the checks, with evictions done or left out. */
  function Answers<K(==)>(l: Limiter<K>, events: seq<Event<K>>, evicting: bool): seq<Result<Decision, RateError>>
    decreases |events|
  {
    if events == [] then []
    else
      (if events[0].Checked? then [Check(l, events[0].key, events[0].cost, events[0].at).1] else [])
      + Answers(Handled(l, events[0], evicting), events[1..], evicting)
  }

  /** No schedule of checks and evictions tells the limiter that evicts from one that does not. */
  ghost predicate Unobservable<K(!new)>(t: Terms, idleTtl: real, gap: real) {
    forall events: seq<Event<K>> | Orderly(events, gap) ::
      Answers(Empty(t, idleTtl), events, true) == Answers(Empty(t, idleTtl), events, false)
  }

  ghost predicate FullBy(t: Terms, b: Bucket, now: real) {
    InRange(t, b) && b.updatedAt <= now && t.capacity as real <= b.tokens + Accrued(t, now - b.updatedAt)
  }

  lemma FullStays(t: Terms, b: Bucket, now: real, later: real)
    requires Usable(t) && FullBy(t, b, now) && now <= later
    ensures FullBy(t, b, later) && Refill(t, b, later) == Full(t, later)
  {
    AccruedGrows(t, now - b.updatedAt, later - b.updatedAt);
  }

  /** A bucket that is full again cannot be told from a new one. */
  ghost predicate Alike(t: Terms, a: Bucket, b: Bucket, now: real) {
    && InRange(t, a) && a.updatedAt <= now && InRange(t, b) && b.updatedAt <= now
    && (a == b || (FullBy(t, a, now) && FullBy(t, b, now)))
  }

  lemma ChargedAlike(t: Terms, a: Bucket, b: Bucket, now: real, cost: int, used: real)
    requires Usable(t) && Alike(t, a, b, now) && now <= used
    ensures Charge(t, a, cost, used).1 == Charge(t, b, cost, used).1
    ensures Alike(t, Charge(t, a, cost, used).0, Charge(t, b, cost, used).0, used)
  {
    if a != b {
      FullStays(t, a, now, used);
      FullStays(t, b, now, used);
    }
    if CostFits(t, cost) {
      AcquireKeeps(t, a, cost, used);
      AcquireKeeps(t, b, cost, used);
    }
  }

  /** Key by key: `a` evicts and `b` does not. What `a` has dropped is full in `b`. */
  ghost predicate PairedAt<K>(a: Limiter<K>, b: Limiter<K>, k: K, now: real, gap: real) {
    && (k in a.buckets <==> k in a.lastSeen)
    && (k in a.buckets ==> k in b.buckets && Alike(a.terms, a.buckets[k], b.buckets[k], now)
                           && b.buckets[k].updatedAt <= a.lastSeen[k] + gap)
    && (k in b.buckets && k !in a.buckets ==> FullBy(a.terms, b.buckets[k], now))
  }

  ghost predicate Paired<K(!new)>(a: Limiter<K>, b: Limiter<K>, now: real, gap: real) {
    && Usable(a.terms) && a.terms == b.terms && a.idleTtl == b.idleTtl
    && forall k :: PairedAt(a, b, k, now, gap)
  }

  lemma LaterAlike(t: Terms, a: Bucket, b: Bucket, now: real, later: real)
    requires Usable(t) && Alike(t, a, b, now) && now <= later
    ensures Alike(t, a, b, later)
  {
    if a != b {
      FullStays(t, a, now, later);
      FullStays(t, b, now, later);
    }
  }

  lemma LaterPaired<K(!new)>(a: Limiter<K>, b: Limiter<K>, now: real, later: real, gap: real)
    requires Paired(a, b, now, gap) && now <= later
    ensures Paired(a, b, later, gap) == true
  {
    forall k ensures PairedAt(a, b, k, later, gap) {
      assert PairedAt(a, b, k, now, gap);
      if k in a.buckets {
        LaterAlike(a.terms, a.buckets[k], b.buckets[k], now, later);
      } else if k in b.buckets {
        FullStays(a.terms, b.buckets[k], now, later);
      }
    }
    assert Paired(a, b, later, gap);
  }

  lemma CheckKeepsPaired<K(!new)>(a: Limiter<K>, b: Limiter<K>, now: real, gap: real, e: Event<K>)
    requires Paired(a, b, now, gap) == true && e.Checked? && Timely(e, gap) && now <= Start(e)
    ensures Check(a, e.key, e.cost, e.at).1 == Check(b, e.key, e.cost, e.at).1
    ensures Paired(Handled(a, e, true), Handled(b, e, false), End(e), gap) == true
  {
    var t, at := a.terms, e.at;
    LaterPaired(a, b, now, at.used, gap);
    var x, y := Held(a, e.key, at.created), Held(b, e.key, at.created);
    assert PairedAt(a, b, e.key, now, gap);
    assert Alike(t, x, y, at.created) by {
      if e.key in a.buckets {
        LaterAlike(t, x, y, now, at.created);
      } else if e.key in b.buckets {
        FullStays(t, y, now, at.created);
      }
      AccruedGrows(t, 0.0, 0.0);
    }
    ChargedAlike(t, x, y, at.created, e.cost, at.used);
    var a', b' := Handled(a, e, true), Handled(b, e, false);
    forall k ensures PairedAt(a', b', k, at.used, gap) {
      assert PairedAt(a, b, k, at.used, gap);
    }
    assert Paired(a', b', at.used, gap);
  }

  lemma EvictKeepsPaired<K(!new)>(a: Limiter<K>, b: Limiter<K>, now: real, gap: real, at: real)
    requires Paired(a, b, now, gap) == true && now <= at
    requires a.terms.capacity as real <= Accrued(a.terms, a.idleTtl - gap)
    ensures Paired(EvictIdle(a, at), b, at, gap) == true
  {
    LaterPaired(a, b, now, at, gap);
    var a' := EvictIdle(a, at);
    forall k ensures PairedAt(a', b, k, at, gap) {
      assert PairedAt(a, b, k, at, gap);
      if k in a.buckets && Idle(a, k, at) {
        AccruedGrows(a.terms, a.idleTtl - gap, at - b.buckets[k].updatedAt);
      }
    }
    assert Paired(a', b, at, gap);
  }

  lemma {:induction false} SameAnswers<K(!new)>(a: Limiter<K>, b: Limiter<K>, now: real, gap: real,
        events: seq<Event<K>>)
    requires Paired(a, b, now, gap) == true && Orderly(events, gap)
    requires events != [] ==> now <= Start(events[0])
    requires a.terms.capacity as real <= Accrued(a.terms, a.idleTtl - gap)
    ensures Answers(a, events, true) == Answers(b, events, false)
    decreases |events|
  {
    if events != [] {
      var e := events[0];
      if e.Checked? {
        CheckKeepsPaired(a, b, now, gap, e);
      } else {
        EvictKeepsPaired(a, b, now, gap, e.now);
      }
      assert Timely(e, gap);
      assert |events| > 1 ==> End(e) <= Start(events[1]);
      SameAnswers(Handled(a, e, true), Handled(b, e, false), End(e), gap, events[1..]);
    }
  }

  /** A schedule that shows the eviction of a bucket still refilling `x` after its last use. */
  function Telltale<K>(t: Terms, key: K, gap: real, x: real): seq<Event<K>> {
    [Checked(key, t.capacity, Readings(0.0, 0.0, gap)), Evicted(gap + x),
     Checked(key, t.capacity, Readings(gap + x, gap + x, gap + x))]
  }

  /** One check, one eviction, one check. */
  lemma ThreeAnswers<K>(l: Limiter<K>, first: Event<K>, at: real, last: Event<K>, evicting: bool)
    requires first.Checked? && last.Checked?
    ensures var l1 := Handled(l, first, evicting);
            Answers(l, [first, Evicted(at), last], evicting)
            == [Check(l, first.key, first.cost, first.at).1,
                Check(if evicting then EvictIdle(l1, at) else l1, last.key, last.cost, last.at).1]
  {
    var events := [first, Evicted(at), last];
    var l1 := Handled(l, first, evicting);
    var l2 := Handled(l1, Evicted(at), evicting);
    assert events[1..] == [Evicted(at), last] && events[1..][1..] == [last] && [last][1..] == [];
    assert Answers(Handled(l2, last, evicting), [], evicting) == [];
    assert Answers(l2, [last], evicting) == [Check(l2, last.key, last.cost, last.at).1];
    assert Answers(l1, [Evicted(at), last], evicting) == Answers(l2, [last], evicting);
  }

  lemma SpentAtOnce(t: Terms, gap: real, x: real)
    requires Usable(t) && gap >= 0.0 && x >= 0.0 && Accrued(t, x) < t.capacity as real
    ensures Acquire(t, Full(t, 0.0), t.capacity, gap).0 == Bucket(0.0, gap)
    ensures !Acquire(t, Bucket(0.0, gap), t.capacity, gap + x).1.allowed
    ensures Acquire(t, Full(t, gap + x), t.capacity, gap + x).1.allowed
  {
    AccruedGrows(t, 0.0, gap);
  }

  lemma TelltaleTells<K>(t: Terms, idleTtl: real, key: K, gap: real, x: real)
    requires Usable(t) && gap >= 0.0 && x >= 0.0 && x > idleTtl - gap && Accrued(t, x) < t.capacity as real
    ensures Orderly(Telltale(t, key, gap, x), gap)
    ensures Answers(Empty(t, idleTtl), Telltale(t, key, gap, x), true) != Answers(Empty(t, idleTtl),
            Telltale(t, key, gap, x), false)
  {
    var l, events := Empty(t, idleTtl), Telltale(t, key, gap, x);
    SpentAtOnce(t, gap, x);
    ThreeAnswers(l, events[0], gap + x, events[2], true);
    ThreeAnswers(l, events[0], gap + x, events[2], false);
    var l1 := Check(l, key, t.capacity, events[0].at).0;
    assert l1.buckets[key] == Bucket(0.0, gap) && Idle(l1, key, gap + x);
    assert key !in EvictIdle(l1, gap + x).buckets;
    assert Check(EvictIdle(l1, gap + x), key, t.capacity, events[2].at).1.value.allowed;
    assert !Check(l1, key, t.capacity, events[2].at).1.value.allowed;
  }

  /** Eviction is unobservable, on every schedule whose checks refill within `gap` of noting the key as seen, exactly
      when a bucket refills completely in what is left of the idle time. With a single reading for both (`gap` zero),
      that is `idleTtl * rate >= capacity`. */
  lemma EvictionUnobservableIff<K(!new)>(t: Terms, idleTtl: real, gap: real, key: K)
    requires Usable(t) && gap >= 0.0
    ensures Unobservable<K>(t, idleTtl, gap) <==> t.capacity as real <= Accrued(t, idleTtl - gap)
  {
    var l := Empty<K>(t, idleTtl);
    if t.capacity as real <= Accrued(t, idleTtl - gap) {
      forall events: seq<Event<K>> | Orderly(events, gap)
        ensures Answers(l, events, true) == Answers(l, events, false)
      {
        var now := if events == [] then 0.0 else Start(events[0]);
        assert Paired(l, l, now, gap);
        SameAnswers(l, l, now, gap, events);
      }
    } else {
      var x := StillRefilling(t, idleTtl - gap);
      TelltaleTells(t, idleTtl, key, gap, x);
    }
  }

  /** A time past `idle` at which an empty bucket is not full again. */
  lemma StillRefilling(t: Terms, idle: real) returns (x: real)
    requires Usable(t) && Accrued(t, idle) < t.capacity as real
    ensures x >= 0.0 && x > idle && Accrued(t, x) < t.capacity as real
  {
    AccruedGrows(t, 0.0, 0.0);
    if idle < 0.0 {
      return 0.0;
    }
    var needed := t.capacity as real / t.rate;
    AccruedReaches(t, idle, t.capacity as real);
    x := (idle + needed) / 2.0;
    AccruedReaches(t, x, t.capacity as real);
  }
}
