/** The bucket and limiter objects, each operation against the values of TokenBuckets and RateLimits. */
module RateLimiters {
  import opened Wrappers
  import TB = TokenBuckets
  import RL = RateLimits

  class TokenBucket {
    const terms: TB.Terms
    var tokens: real
    var updatedAt: real

    ghost predicate Valid()
      reads this
    {
      TB.Usable(terms) && TB.InRange(terms, Value())
    }

    function Value(): TB.Bucket
      reads this
    {
      TB.Bucket(tokens, updatedAt)
    }

    constructor (terms: TB.Terms, now: real)
      requires TB.Usable(terms)
      ensures Valid() && this.terms == terms && Value() == TB.Full(terms, now)
    {
      this.terms, tokens, updatedAt := terms, terms.capacity as real, now;
    }

    /** Refuses a capacity under one and a rate that is not positive. */
    static method Create(terms: TB.Terms, now: real) returns (r: Result<TokenBucket, TB.RateError>)
      ensures r.Success? <==> TB.Usable(terms)
      ensures r.Success? ==> fresh(r.value) && r.value.Valid()
      ensures r.Success? ==> r.value.terms == terms && r.value.Value() == TB.Full(terms, now)
      ensures r.Failure? ==> r.error == if terms.capacity < 1 then TB.CapacityTooSmall else TB.RateNotPositive
    {
      if terms.capacity < 1 {
        return Failure(TB.CapacityTooSmall);
      }
      if terms.rate <= 0.0 {
        return Failure(TB.RateNotPositive);
      }
      var made := new TokenBucket(terms, now);
      return Success(made);
    }

    method Refill(now: real)
      requires Valid()
      modifies this
      ensures Valid() && Value() == TB.Refill(terms, old(Value()), now)
    {
      TB.RefillKeeps(terms, Value(), now);
      var elapsed := now - updatedAt;
      if elapsed <= 0.0 {
        return;
      }
      tokens := Min(terms.capacity as real, tokens + TB.Accrued(terms, elapsed));
      updatedAt := now;
    }

    method TryAcquire(cost: int, used: real) returns (r: Result<TB.Decision, TB.RateError>)
      requires Valid()
      modifies this
      ensures Valid() && (Value(), r) == RL.Charge(terms, old(Value()), cost, used)
    {
      if cost < 1 {
        return Failure(TB.CostTooSmall);
      }
      if cost > terms.capacity {
        return Failure(TB.CostTooLarge);
      }
      Refill(used);
      if tokens >= cost as real {
        tokens := tokens - cost as real;
        return Success(TB.Decision(true, tokens.Floor, 0.0, terms.capacity));
      }
      var deficit := cost as real - tokens;
      return Success(TB.Decision(false, tokens.Floor, deficit / terms.rate, terms.capacity));
    }

    method Tokens(now: real) returns (available: real)
      requires Valid()
      modifies this
      ensures Valid() && Value() == TB.Refill(terms, old(Value()), now) && available == tokens
    {
      Refill(now);
      return tokens;
    }
  }

  lemma OneMore<K, V>(m: map<K, V>, gone: set<K>, key: K)
    ensures m - gone - {key} == m - (gone + {key})
  {
  }

  class RateLimiter<K(==)> {
    const terms: TB.Terms
    const idleTtl: real
    var buckets: map<K, TokenBucket>
    var lastSeen: map<K, real>

    /** No two keys share a bucket. */
    ghost predicate Valid()
      reads this, buckets.Values
    {
      && buckets.Keys == lastSeen.Keys
      && (forall k | k in buckets :: buckets[k].Valid() && buckets[k].terms == terms)
      && (forall j, k | j in buckets && k in buckets && j != k :: buckets[j] != buckets[k])
    }

    ghost function State(): RL.Limiter<K>
      reads this, buckets.Values
    {
      RL.Limiter(terms, idleTtl, map k | k in buckets :: buckets[k].Value(), lastSeen)
    }

    constructor (terms: TB.Terms, idleTtl: real)
      ensures Valid() && State() == RL.Empty(terms, idleTtl)
    {
      this.terms, this.idleTtl, buckets, lastSeen := terms, idleTtl, map[], map[];
    }

    method Check(key: K, cost: int, at: RL.Readings) returns (r: Result<TB.Decision, TB.RateError>)
      requires Valid()
      modifies this, buckets.Values
      ensures Valid() && (State(), r) == RL.Check(old(State()), key, cost, at)
      ensures fresh(buckets.Values - old(buckets.Values))
    {
      ghost var before := State();
      if key !in buckets {
        var made := TokenBucket.Create(terms, at.created);
        if made.Failure? {
          return Failure(made.error);
        }
        buckets := buckets[key := made.value];
      }
      lastSeen := lastSeen[key := at.seen];
      r := buckets[key].TryAcquire(cost, at.used);
      assert State().buckets == before.buckets[key := buckets[key].Value()];
    }

    /** Drops what has not been seen for the idle time, and says how many. */
    method EvictIdle(now: real) returns (dropped: nat)
      requires Valid()
      modifies this
      ensures Valid() && State() == RL.EvictIdle(old(State()), now)
      ensures dropped == |set k | k in old(lastSeen) && old(lastSeen)[k] < now - idleTtl|
      ensures lastSeen == map k | k in old(lastSeen) && old(lastSeen)[k] >= now - idleTtl :: old(lastSeen)[k]
      ensures buckets.Keys == lastSeen.Keys && forall k | k in buckets :: buckets[k] == old(buckets)[k]
      ensures buckets.Values <= old(buckets.Values)
    {
      ghost var before := State();
      var cutoff := now - idleTtl;
      var stale := set k | k in lastSeen && lastSeen[k] < cutoff;
      Drop(stale);
      assert stale == set k | k in before.lastSeen && RL.Idle(before, k, now);
      RL.EvictedIs(before, now, stale);
      return |stale|;
    }

    /** Deletes one by one. */
    method Drop(stale: set<K>)
      requires Valid() && stale <= lastSeen.Keys
      modifies this`buckets, this`lastSeen
      ensures Valid() && lastSeen == old(lastSeen) - stale && buckets == old(buckets) - stale
      ensures State().buckets == old(State().buckets) - stale
    {
      var left := stale;
      ghost var gone: set<K> := {};
      while left != {}
        invariant gone + left == stale
        invariant buckets == old(buckets) - gone && lastSeen == old(lastSeen) - gone
        decreases |left|
      {
        var key :| key in left;
        OneMore(old(buckets), gone, key);
        OneMore(old(lastSeen), gone, key);
        buckets := buckets - {key};
        lastSeen := lastSeen - {key};
        left, gone := left - {key}, gone + {key};
      }
      assert gone == stale;
    }
  }
}
