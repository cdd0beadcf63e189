/** The per-agent token buckets of the gRPC server and the registry that holds them. A call reads
    the clock up to four times: to create a bucket, to consume, to decide on a cleanup, to do it. */
module GrpcRateLimiter {
  datatype Key = Key(agent: string, rpc: string)

  /** Requests a minute for each RPC method. */
  type Limits = string -> int

  const CLEANUP_INTERVAL := 300.0

  datatype Bucket = Bucket(capacity: real, refillRate: real, tokens: real, lastRefill: real)

  datatype Registry = Registry(buckets: map<Key, Bucket>, lastCleanup: real)

  /** One call with the clock readings it takes, in order. */
  datatype Call = Call(key: Key, created: real, consumed: real, checked: real, swept: real)

  function Min(a: real, b: real): real { if a <= b then a else b }

  function NewBucket(rpm: int, now: real): Bucket {
    Bucket(rpm as real, rpm as real / 60.0, rpm as real, now)
  }

  function Refill(elapsed: real, rate: real): real { elapsed * rate }

  function Refilled(b: Bucket, now: real): real {
    Min(b.capacity, b.tokens + Refill(now - b.lastRefill, b.refillRate))
  }

  function Drawn(b: Bucket, now: real): (Bucket, bool) {
    var tokens := Refilled(b, now);
    if tokens >= 1.0 then (b.(tokens := tokens - 1.0, lastRefill := now), true)
    else (b.(tokens := tokens, lastRefill := now), false)
  }

  function WithBucket(limits: Limits, r: Registry, key: Key, now: real): Registry {
    if key in r.buckets then r
    else r.(buckets := r.buckets[key := NewBucket(limits(key.rpc), now)])
  }

  predicate Stale(b: Bucket) { b.tokens >= b.capacity - 0.1 }

  function Swept(r: Registry, now: real): Registry {
    Registry(map k | k in r.buckets && !Stale(r.buckets[k]) :: r.buckets[k], now)
  }

  function Allowed(limits: Limits, r: Registry, c: Call): (Registry, bool) {
    var r1 := WithBucket(limits, r, c.key, c.created);
    var (b, allowed) := Drawn(r1.buckets[c.key], c.consumed);
    var r2 := r1.(buckets := r1.buckets[c.key := b]);
    (if c.checked - r2.lastCleanup > CLEANUP_INTERVAL then Swept(r2, c.swept) else r2, allowed)
  }

  // ----- the objects -----------------------------------------------------------------------

  class TokenBucket {
    const capacity: real
    const refillRate: real
    var tokens: real
    var lastRefill: real

    function View(): Bucket
      reads this
    {
      Bucket(capacity, refillRate, tokens, lastRefill)
    }

    constructor (capacity: real, refillRate: real, now: real)
      ensures View() == Bucket(capacity, refillRate, capacity, now)
    {
      this.capacity, this.refillRate := capacity, refillRate;
      tokens, lastRefill := capacity, now;
    }

    method Consume(now: real) returns (allowed: bool)
      modifies this
      ensures (View(), allowed) == Drawn(old(View()), now)
    {
      var elapsed := now - lastRefill;
      assert Refilled(View(), now) == Min(capacity, tokens + elapsed * refillRate);
      tokens := Min(capacity, tokens + elapsed * refillRate);
      lastRefill := now;
      if tokens >= 1.0 {
        tokens := tokens - 1.0;
        return true;
      }
      return false;
    }
  }

  class RateLimitRegistry {
    const limits: Limits
    var buckets: map<Key, TokenBucket>
    var lastCleanup: real

    /** No bucket serves two keys. */
    ghost predicate Valid()
      reads this
    {
      forall j, k :: j in buckets && k in buckets && buckets[j] == buckets[k] ==> j == k
    }

    ghost function View(): Registry
      reads this, buckets.Values
    {
      Registry(map k | k in buckets :: buckets[k].View(), lastCleanup)
    }

    constructor (limits: Limits, now: real)
      ensures Valid() && this.limits == limits && buckets == map[] && lastCleanup == now
    {
      this.limits := limits;
      buckets := map[];
      lastCleanup := now;
    }

    method Allow(key: Key, created: real, consumed: real, checked: real, swept: real) returns (allowed: bool)
      requires Valid()
      modifies this, buckets.Values
      ensures Valid() && fresh(buckets.Values - old(buckets.Values))
      ensures (View(), allowed)
           == Allowed(limits, old(View()), Call(key, created, consumed, checked, swept))
    {
      var bucket := GetOrCreate(key, created);
      ghost var r1 := View();
      allowed := bucket.Consume(consumed);
      assert View() == r1.(buckets := r1.buckets[key := bucket.View()]);
      if checked - lastCleanup > CLEANUP_INTERVAL {
        Cleanup(swept);
      }
    }

    method GetOrCreate(key: Key, now: real) returns (bucket: TokenBucket)
      requires Valid()
      modifies this
      ensures Valid() && fresh(buckets.Values - old(buckets.Values))
      ensures key in buckets && buckets[key] == bucket
      ensures View() == WithBucket(limits, old(View()), key, now)
    {
      if key !in buckets {
        var rpm := limits(key.rpc);
        var created := new TokenBucket(rpm as real, rpm as real / 60.0, now);
        buckets := buckets[key := created];
      }
      bucket := buckets[key];
    }

    method Cleanup(now: real)
      requires Valid()
      modifies this
      ensures Valid() && buckets.Values <= old(buckets.Values)
      ensures View() == Swept(old(View()), now)
    {
      lastCleanup := now;
      buckets := map k | k in buckets && !(buckets[k].tokens >= buckets[k].capacity - 0.1) :: buckets[k];
    }
  }
}
