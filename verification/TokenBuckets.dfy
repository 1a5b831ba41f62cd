/** A lazily refilled token bucket. Times and tokens are reals; each call takes the clock reading it makes. */
module TokenBuckets {
  import opened Wrappers

  datatype Terms = Terms(capacity: int, rate: real)

  datatype Bucket = Bucket(tokens: real, updatedAt: real)

  datatype Decision = Decision(allowed: bool, remaining: int, retryAfter: real, limit: int)

  datatype RateError = CapacityTooSmall | RateNotPositive | CostTooSmall | CostTooLarge

  predicate Usable(t: Terms) {
    t.capacity >= 1 && t.rate > 0.0
  }

  predicate CostFits(t: Terms, cost: int) {
    1 <= cost <= t.capacity
  }

  predicate InRange(t: Terms, b: Bucket) {
    0.0 <= b.tokens <= t.capacity as real
  }

  function Full(t: Terms, now: real): Bucket {
    Bucket(t.capacity as real, now)
  }

  function Accrued(t: Terms, elapsed: real): real {
    elapsed * t.rate
  }

  function Refill(t: Terms, b: Bucket, now: real): Bucket {
    var elapsed := now - b.updatedAt;
    if elapsed <= 0.0 then b
    else
      Bucket(Min(t.capacity as real, b.tokens + Accrued(t, elapsed)), now)
  }

  /** Spends from a bucket that has just been refilled. */
  function Spend(t: Terms, b: Bucket, cost: int): (Bucket, Decision)
    requires Usable(t)
  {
    if b.tokens >= cost as real then
      var left := b.tokens - cost as real;
      (b.(tokens := left), Decision(true, left.Floor, 0.0, t.capacity))
    else
      (b, Decision(false, b.tokens.Floor, (cost as real - b.tokens) / t.rate, t.capacity))
  }

  function Acquire(t: Terms, b: Bucket, cost: int, now: real): (Bucket, Decision)
    requires Usable(t)
  {
    Spend(t, Refill(t, b, now), cost)
  }

  lemma AccruedAdds(t: Terms, x: real, y: real)
    ensures Accrued(t, x + y) == Accrued(t, x) + Accrued(t, y)
  {
  }

  lemma AccruedGrows(t: Terms, x: real, y: real)
    requires Usable(t)
    ensures x <= y <==> Accrued(t, x) <= Accrued(t, y)
    ensures Accrued(t, 0.0) == 0.0
  {
  }

  lemma AccruedReaches(t: Terms, x: real, deficit: real)
    requires Usable(t)
    ensures deficit / t.rate <= x <==> deficit <= Accrued(t, x)
  {
    assert Accrued(t, deficit / t.rate) == deficit;
    AccruedGrows(t, deficit / t.rate, x);
  }

  lemma RefillKeeps(t: Terms, b: Bucket, now: real)
    requires Usable(t) && InRange(t, b)
    ensures InRange(t, Refill(t, b, now)) && Refill(t, b, now).updatedAt == Max(b.updatedAt, now)
    ensures b.tokens <= Refill(t, b, now).tokens <= b.tokens + Accrued(t, Max(b.updatedAt, now) - b.updatedAt)
  {
    AccruedGrows(t, 0.0, now - b.updatedAt);
  }

  lemma AcquireKeeps(t: Terms, b: Bucket, cost: int, now: real)
    requires Usable(t) && InRange(t, b) && CostFits(t, cost)
    ensures var (b', d) := Acquire(t, b, cost, now);
            && InRange(t, b') && b'.updatedAt == Max(b.updatedAt, now)
            && (if d.allowed then cost else 0) as real + b'.tokens <= b.tokens + Accrued(t, b'.updatedAt - b.updatedAt)
  {
    RefillKeeps(t, b, now);
  }

  /** The decision is about the tokens held once refilled: it allows what they pay for, leaves the rest, reports the
      whole ones left, and on a denial says how long the deficit takes to accrue. */
  lemma DecisionOutcome(t: Terms, b: Bucket, cost: int, now: real)
    requires Usable(t) && InRange(t, b) && CostFits(t, cost)
    ensures var (b', d) := Acquire(t, b, cost, now);
            var held := if now <= b.updatedAt then b.tokens
                        else Min(t.capacity as real, b.tokens + (now - b.updatedAt) * t.rate);
            && d.limit == t.capacity
            && (d.allowed <==> cost as real <= held)
            && b'.tokens == held - (if d.allowed then cost as real else 0.0)
            && 0 <= d.remaining <= t.capacity && d.remaining as real <= b'.tokens < d.remaining as real + 1.0
            && (if d.allowed then d.retryAfter == 0.0 else held + d.retryAfter * t.rate == cost as real)
  {
    RefillKeeps(t, b, now);
    FloorWithin(Acquire(t, b, cost, now).0.tokens, t.capacity);
    DeficitAccrues(t, cost as real - Refill(t, b, now).tokens);
  }

  lemma FloorWithin(x: real, n: int)
    requires 0.0 <= x <= n as real
    ensures 0 <= x.Floor <= n && x.Floor as real <= x < x.Floor as real + 1.0
  {
  }

  lemma DeficitAccrues(t: Terms, deficit: real)
    requires Usable(t)
    ensures deficit / t.rate * t.rate == deficit
  {
  }

  // ---- how much a window can grant ------------------------------------------

  datatype Call = Call(cost: int, now: real)

  ghost predicate CostsFit(t: Terms, calls: seq<Call>) {
    forall i | 0 <= i < |calls| :: CostFits(t, calls[i].cost)
  }

  function After(t: Terms, b: Bucket, calls: seq<Call>): Bucket
    requires Usable(t)
    decreases |calls|
  {
    if calls == [] then b else After(t, Acquire(t, b, calls[0].cost, calls[0].now).0, calls[1..])
  }

  function Granted(t: Terms, b: Bucket, calls: seq<Call>): int
    requires Usable(t)
    decreases |calls|
  {
    if calls == [] then 0
    else
      var (b', d) := Acquire(t, b, calls[0].cost, calls[0].now);
      (if d.allowed then calls[0].cost else 0) + Granted(t, b', calls[1..])
  }

  /** The latest reading, or `now` if none is later. */
  function Latest(now: real, calls: seq<Call>): real
    decreases |calls|
  {
    if calls == [] then now else Latest(Max(now, calls[0].now), calls[1..])
  }

  lemma {:induction false} LatestMoves(a: real, b: real, calls: seq<Call>)
    requires a <= b
    ensures b <= Latest(b, calls) && Latest(b, calls) - b <= Latest(a, calls) - a
    decreases |calls|
  {
    if calls != [] {
      LatestMoves(Max(a, calls[0].now), Max(b, calls[0].now), calls[1..]);
    }
  }

  /** What is spent and what is left come from what was there and the time that passed. */
  lemma {:induction false} Budget(t: Terms, b: Bucket, calls: seq<Call>)
    requires Usable(t) && InRange(t, b) && CostsFit(t, calls)
    ensures After(t, b, calls).updatedAt == Latest(b.updatedAt, calls) && InRange(t, After(t, b, calls))
    ensures Granted(t, b, calls) as real + After(t, b, calls).tokens
            <= b.tokens + Accrued(t, Latest(b.updatedAt, calls) - b.updatedAt)
    decreases |calls|
  {
    if calls == [] {
      AccruedGrows(t, 0.0, 0.0);
    } else {
      var b' := Acquire(t, b, calls[0].cost, calls[0].now).0;
      AcquireKeeps(t, b, calls[0].cost, calls[0].now);
      Budget(t, b', calls[1..]);
      AccruedAdds(t, b'.updatedAt - b.updatedAt, Latest(b.updatedAt, calls) - b'.updatedAt);
    }
  }

  /** Over any window of calls, whatever came before it and whatever the clock did, the granted cost is at most the
      capacity plus what accrues from the first reading of the window to its latest. */
  lemma WindowBound(t: Terms, b: Bucket, calls: seq<Call>)
    requires Usable(t) && InRange(t, b) && CostsFit(t, calls) && calls != []
    ensures Granted(t, b, calls) as real <= t.capacity as real + Accrued(t, Latest(calls[0].now, calls) - calls[0].now)
  {
    var first := calls[0].now;
    var refilled := Refill(t, b, first);
    RefillKeeps(t, b, first);
    assert Refill(t, refilled, first) == refilled;
    Budget(t, refilled, calls);
    LatestMoves(first, refilled.updatedAt, calls);
    AccruedGrows(t, Latest(refilled.updatedAt, calls) - refilled.updatedAt, Latest(first, calls) - first);
  }

  /** A clock that stays behind the bucket hands out nothing beyond what the bucket held. */
  lemma {:induction false} BackwardGrantsNothing(t: Terms, b: Bucket, calls: seq<Call>)
    requires Usable(t) && InRange(t, b) && CostsFit(t, calls)
    requires forall i | 0 <= i < |calls| :: calls[i].now <= b.updatedAt
    ensures Granted(t, b, calls) as real + After(t, b, calls).tokens == b.tokens
    ensures After(t, b, calls).updatedAt == b.updatedAt
    decreases |calls|
  {
    if calls != [] {
      BackwardGrantsNothing(t, Acquire(t, b, calls[0].cost, calls[0].now).0, calls[1..]);
    }
  }

  // ---- when to come back ------------------------------------------------------

  /** After a denial and no other call, the same cost is granted exactly from `retryAfter` past the bucket's last
      update. */
  lemma RetryAfterIsExact(t: Terms, b: Bucket, cost: int, now: real, later: real)
    requires Usable(t) && InRange(t, b) && CostFits(t, cost) && !Acquire(t, b, cost, now).1.allowed
    ensures var (b', d) := Acquire(t, b, cost, now);
            d.retryAfter > 0.0 && (Acquire(t, b', cost, later).1.allowed <==> later - b'.updatedAt >= d.retryAfter)
  {
    var b' := Acquire(t, b, cost, now).0;
    RefillKeeps(t, b, now);
    AccruedReaches(t, later - b'.updatedAt, cost as real - b'.tokens);
    AccruedReaches(t, 0.0, cost as real - b'.tokens);
    AccruedGrows(t, 0.0, later - b'.updatedAt);
  }

  /** So waiting `retryAfter` from the reading that was denied is enough exactly when that reading was not behind the
      bucket's last update. */
  lemma AdviceHoldsIff(t: Terms, b: Bucket, cost: int, now: real)
    requires Usable(t) && InRange(t, b) && CostFits(t, cost) && !Acquire(t, b, cost, now).1.allowed
    ensures var (b', d) := Acquire(t, b, cost, now);
            Acquire(t, b', cost, now + d.retryAfter).1.allowed <==> now >= b.updatedAt
  {
    var (b', d) := Acquire(t, b, cost, now);
    RetryAfterIsExact(t, b, cost, now, now + d.retryAfter);
    RefillKeeps(t, b, now);
  }
}
