/** What the registry guarantees to one (agent, method) over whole runs: its decisions are those
    of a bucket of its own, they are bounded in every time window, and evenly spaced calls pass. */
module RateLimits {
  import opened Wrappers
  import opened GrpcRateLimiter

  /** The clock never goes back, within a call or between calls. */
  predicate Ordered(calls: seq<Call>, now: real)
    decreases |calls|
  {
    calls == [] ||
    (var c := calls[0];
     now <= c.created <= c.consumed <= c.checked <= c.swept && Ordered(calls[1..], c.swept))
  }

  function Decisions(limits: Limits, r: Registry, calls: seq<Call>): (ds: seq<bool>)
    ensures |ds| == |calls|
    decreases |calls|
  {
    if calls == [] then []
    else
      var (r', allowed) := Allowed(limits, r, calls[0]);
      [allowed] + Decisions(limits, r', calls[1..])
  }

  /** The calls of one key, and its decisions among all decisions. */
  function Only(calls: seq<Call>, key: Key): seq<Call> {
    if calls == [] then []
    else (if calls[0].key == key then [calls[0]] else []) + Only(calls[1..], key)
  }

  function Project(calls: seq<Call>, ds: seq<bool>, key: Key): (own: seq<bool>)
    requires |calls| == |ds|
    ensures |own| == |Only(calls, key)|
  {
    if calls == [] then []
    else (if calls[0].key == key then [ds[0]] else []) + Project(calls[1..], ds[1..], key)
  }

  /** The decisions of a bucket that serves these calls only and is never cleaned up. */
  function Alone(rpm: int, b: Option<Bucket>, calls: seq<Call>): (ds: seq<bool>)
    ensures |ds| == |calls|
    decreases |calls|
  {
    if calls == [] then []
    else
      var (b', allowed) := Drawn(b.GetOr(NewBucket(rpm, calls[0].created)), calls[0].consumed);
      [allowed] + Alone(rpm, Some(b'), calls[1..])
  }

  function BucketOf(r: Registry, key: Key): Option<Bucket> {
    if key in r.buckets then Some(r.buckets[key]) else None
  }

  // ----- cleanup is transparent ------------------------------------------------------------

  /** A bucket between calls: filled at its own limit, and drawn at least once. With a limit of two
      or more that leaves it below the cleanup threshold. */
  predicate Drained(b: Bucket, rpm: int) {
    && b.capacity == rpm as real && b.refillRate == rpm as real / 60.0
    && b.tokens <= b.capacity
    && (rpm >= 2 ==> 0.0 <= b.tokens <= b.capacity - 1.0)
  }

  lemma RefillNonNegative(elapsed: real, rate: real)
    requires elapsed >= 0.0 && rate >= 0.0
    ensures Refill(elapsed, rate) >= 0.0
  {
  }

  lemma RefillAdds(rate: real, x: real, y: real, z: real)
    ensures Refill(y - x, rate) + Refill(z - y, rate) == Refill(z - x, rate)
  {
    assert (y - x) * rate + (z - y) * rate == (z - x) * rate;
  }

  lemma DrawnDrains(b: Bucket, rpm: int, now: real)
    requires b.capacity == rpm as real && b.refillRate == rpm as real / 60.0
    requires rpm >= 2 ==> 0.0 <= b.tokens && b.lastRefill <= now
    ensures Drained(Drawn(b, now).0, rpm)
    ensures rpm <= 0 ==> !Drawn(b, now).1
  {
    hide Refill;
    if rpm >= 2 {
      RefillNonNegative(now - b.lastRefill, b.refillRate);
      assert Refilled(b, now) >= 0.0;
    }
  }

  /** The registry's bucket and the lone bucket of the key, if it has any tokens to give. */
  predicate Matches(rpm: int, mine: Option<Bucket>, lone: Option<Bucket>) {
    && (mine.Some? ==> Drained(mine.value, rpm))
    && (lone.Some? ==> Drained(lone.value, rpm))
    && (mine == lone || rpm <= 0)
  }

  predicate Past(b: Option<Bucket>, now: real) { b.Some? ==> b.value.lastRefill <= now }

  /** One call: a call of another key leaves the key's bucket, a call of the key draws from it as
      the lone bucket does; the cleanup that may follow removes it only if the limit is below one. */
  lemma CallKeepsMatch(limits: Limits, r: Registry, c: Call, key: Key, lone: Option<Bucket>)
    requires limits(key.rpc) != 1
    requires Matches(limits(key.rpc), BucketOf(r, key), lone)
    requires Past(BucketOf(r, key), c.consumed) && Past(lone, c.consumed) && c.created <= c.consumed
    ensures var (r', allowed) := Allowed(limits, r, c);
      if c.key != key then Matches(limits(key.rpc), BucketOf(r', key), lone) && Past(BucketOf(r', key), c.consumed)
      else
        var (lone', d) := Drawn(lone.GetOr(NewBucket(limits(key.rpc), c.created)), c.consumed);
        allowed == d && Matches(limits(key.rpc), BucketOf(r', key), Some(lone'))
        && Past(BucketOf(r', key), c.consumed) && Past(Some(lone'), c.consumed)
  {
    hide Refilled;
    var rpm := limits(key.rpc);
    if c.key == key {
      DrawnDrains(BucketOf(r, key).GetOr(NewBucket(rpm, c.created)), rpm, c.consumed);
      DrawnDrains(lone.GetOr(NewBucket(rpm, c.created)), rpm, c.consumed);
    }
  }

  lemma {:induction false} DecisionsAsAlone(
    limits: Limits, r: Registry, calls: seq<Call>, key: Key, lone: Option<Bucket>, now: real)
    requires limits(key.rpc) != 1
    requires Ordered(calls, now) && Past(BucketOf(r, key), now) && Past(lone, now)
    requires Matches(limits(key.rpc), BucketOf(r, key), lone)
    ensures Project(calls, Decisions(limits, r, calls), key) == Alone(limits(key.rpc), lone, Only(calls, key))
    decreases |calls|
  {
    hide Allowed, Drawn, Matches;
    if calls != [] {
      var c := calls[0];
      CallKeepsMatch(limits, r, c, key, lone);
      var (r', allowed) := Allowed(limits, r, c);
      var ds := Decisions(limits, r, calls);
      assert ds[0] == allowed && ds[1..] == Decisions(limits, r', calls[1..]);
      if c.key == key {
        var (lone', _) := Drawn(lone.GetOr(NewBucket(limits(key.rpc), c.created)), c.consumed);
        DecisionsAsAlone(limits, r', calls[1..], key, Some(lone'), c.swept);
        assert Only(calls, key)[1..] == Only(calls[1..], key);
      } else {
        DecisionsAsAlone(limits, r', calls[1..], key, lone, c.swept);
        assert Project(calls, ds, key) == Project(calls[1..], ds[1..], key);
        assert Only(calls, key) == Only(calls[1..], key);
      }
    }
  }

  predicate DecidesAsAlone(limits: Limits, start: real, calls: seq<Call>, key: Key) {
    Project(calls, Decisions(limits, Registry(map[], start), calls), key)
      == Alone(limits(key.rpc), None, Only(calls, key))
  }

  /** A limit of one: the third call, refused at 300.1 s with 54.1/60 of a token, triggers a cleanup
      that forgets the bucket, so the fourth call, one second later, is admitted from a new one. */
  lemma LimitOneIsNotTransparent(limits: Limits, key: Key) returns (calls: seq<Call>)
    requires limits(key.rpc) == 1
    ensures Ordered(calls, 0.0) && !DecidesAsAlone(limits, 0.0, calls, key)
  {
    var c0 := Call(key, 0.0, 0.0, 0.0, 0.0);
    var c1 := Call(key, 246.0, 246.0, 246.0, 246.0);
    var c2 := Call(key, 300.1, 300.1, 300.1, 300.1);
    var c3 := Call(key, 301.1, 301.1, 301.1, 301.1);
    calls := [c0, c1, c2, c3];
    assert Ordered([c3], 300.1);
    assert Ordered([c2, c3], 246.0);
    assert Ordered([c1, c2, c3], 0.0);
    OneRegistry(limits, key, c0, c1, c2, c3);
    OneAlone(key, c0, c1, c2, c3);
    OnlyAll(calls, key);
    ProjectAll(calls, Decisions(limits, Registry(map[], 0.0), calls), key);
  }

  lemma OnlyAll(calls: seq<Call>, key: Key)
    requires forall i :: 0 <= i < |calls| ==> calls[i].key == key
    ensures Only(calls, key) == calls
  {
    if calls != [] {
      OnlyAll(calls[1..], key);
    }
  }

  lemma ProjectAll(calls: seq<Call>, ds: seq<bool>, key: Key)
    requires |calls| == |ds| && forall i :: 0 <= i < |calls| ==> calls[i].key == key
    ensures Project(calls, ds, key) == ds
  {
    if calls != [] {
      ProjectAll(calls[1..], ds[1..], key);
    }
  }

  lemma OneRegistry(limits: Limits, key: Key, c0: Call, c1: Call, c2: Call, c3: Call)
    requires limits(key.rpc) == 1
    requires c0 == Call(key, 0.0, 0.0, 0.0, 0.0) && c1 == Call(key, 246.0, 246.0, 246.0, 246.0)
    requires c2 == Call(key, 300.1, 300.1, 300.1, 300.1) && c3 == Call(key, 301.1, 301.1, 301.1, 301.1)
    ensures Decisions(limits, Registry(map[], 0.0), [c0, c1, c2, c3])[3]
  {
    var r0 := Registry(map[], 0.0);
    var rate := 1.0 / 60.0;
    var r1 := Registry(map[key := Bucket(1.0, rate, 0.0, 0.0)], 0.0);
    assert Drawn(NewBucket(1, 0.0), 0.0) == (r1.buckets[key], true);
    assert r0.buckets[key := NewBucket(1, 0.0)][key := r1.buckets[key]] == r1.buckets;
    assert Allowed(limits, r0, c0) == (r1, true);
    var r2 := Registry(map[key := Bucket(1.0, rate, 0.0, 246.0)], 0.0);
    assert Drawn(r1.buckets[key], 246.0) == (r2.buckets[key], true);
    assert r1.buckets[key := r2.buckets[key]] == r2.buckets;
    assert Allowed(limits, r1, c1) == (r2, true);
    var r3 := Registry(map[], 300.1);
    assert Allowed(limits, r2, c2) == (r3, false);
    assert Allowed(limits, r3, c3).1;
    assert Decisions(limits, r3, [c3])[0];
    assert [c2, c3][1..] == [c3];
    assert Decisions(limits, r2, [c2, c3])[1];
    assert [c1, c2, c3][1..] == [c2, c3];
    assert Decisions(limits, r1, [c1, c2, c3])[2];
    assert [c0, c1, c2, c3][1..] == [c1, c2, c3];
  }

  lemma OneAlone(key: Key, c0: Call, c1: Call, c2: Call, c3: Call)
    requires c0 == Call(key, 0.0, 0.0, 0.0, 0.0) && c1 == Call(key, 246.0, 246.0, 246.0, 246.0)
    requires c2 == Call(key, 300.1, 300.1, 300.1, 300.1) && c3 == Call(key, 301.1, 301.1, 301.1, 301.1)
    ensures !Alone(1, None, [c0, c1, c2, c3])[3]
  {
    var rate := 1.0 / 60.0;
    var b1 := Some(Bucket(1.0, rate, 0.0, 0.0));
    var b2 := Some(Bucket(1.0, rate, 0.0, 246.0));
    var b3 := Some(Bucket(1.0, rate, 54.1 / 60.0, 300.1));
    assert Drawn(NewBucket(1, 0.0), 0.0) == (b1.value, true);
    assert Drawn(b1.value, 246.0) == (b2.value, true);
    assert Drawn(b2.value, 300.1) == (b3.value, false);
    assert !Drawn(b3.value, 301.1).1;
    assert !Alone(1, b3, [c3])[0];
    assert [c2, c3][1..] == [c3];
    assert !Alone(1, b2, [c2, c3])[1];
    assert [c1, c2, c3][1..] == [c2, c3];
    assert !Alone(1, b1, [c1, c2, c3])[2];
    assert [c0, c1, c2, c3][1..] == [c1, c2, c3];
  }

  /** Non-interference and cleanup transparency: on every interleaved run a key is treated as if
      it were alone and cleanup did not exist, exactly when its limit is not one a minute. */
  lemma NonInterferenceIff(limits: Limits, key: Key)
    ensures (forall calls, start: real | Ordered(calls, start) :: DecidesAsAlone(limits, start, calls, key))
       <==> limits(key.rpc) != 1
  {
    if limits(key.rpc) == 1 {
      var calls := LimitOneIsNotTransparent(limits, key);
    } else {
      forall calls, start: real | Ordered(calls, start) ensures DecidesAsAlone(limits, start, calls, key) {
        DecisionsAsAlone(limits, Registry(map[], start), calls, key, None, start);
      }
    }
  }

  /** The registry after these calls. */
  function After(limits: Limits, r: Registry, calls: seq<Call>): Registry
    decreases |calls|
  {
    if calls == [] then r else After(limits, Allowed(limits, r, calls[0]).0, calls[1..])
  }

  /** Buckets refill only when drawn from, so a bucket never looks idle: with a limit of two or more
      the periodic cleanup reclaims nothing, and a key once seen keeps its bucket. */
  lemma {:induction false} CleanupReclaimsNothing(
    limits: Limits, r: Registry, calls: seq<Call>, key: Key, now: real)
    requires limits(key.rpc) >= 2 && Ordered(calls, now)
    requires key in r.buckets ==> Drained(r.buckets[key], limits(key.rpc)) && r.buckets[key].lastRefill <= now
    ensures key in After(limits, r, calls).buckets <==> key in r.buckets || exists c :: c in calls && c.key == key
    decreases |calls|
  {
    hide Allowed, Drained;
    if calls != [] {
      var c := calls[0];
      CallKeepsBucket(limits, r, c, key);
      CleanupReclaimsNothing(limits, Allowed(limits, r, c).0, calls[1..], key, c.swept);
      assert forall x :: x in calls <==> x == c || x in calls[1..];
    }
  }

  lemma CallKeepsBucket(limits: Limits, r: Registry, c: Call, key: Key)
    requires limits(key.rpc) >= 2 && c.created <= c.consumed
    requires key in r.buckets ==>
      Drained(r.buckets[key], limits(key.rpc)) && r.buckets[key].lastRefill <= c.consumed
    ensures var r' := Allowed(limits, r, c).0;
      && (key in r'.buckets <==> key in r.buckets || c.key == key)
      && (key in r'.buckets ==>
            Drained(r'.buckets[key], limits(key.rpc)) && r'.buckets[key].lastRefill <= c.consumed)
  {
    hide Refilled;
    if c.key == key {
      DrawnDrains(WithBucket(limits, r, key, c.created).buckets[key], limits(key.rpc), c.consumed);
    }
  }

  // ----- bounds on what is admitted --------------------------------------------------------

  /** The calls admitted whose tokens were drawn within [from, to]. */
  function AdmittedIn(calls: seq<Call>, ds: seq<bool>, from: real, to: real): nat
    requires |calls| == |ds|
  {
    if calls == [] then 0
    else (if ds[0] && from <= calls[0].consumed <= to then 1 else 0) + AdmittedIn(calls[1..], ds[1..], from, to)
  }

  /** What a bucket may still admit up to `to` in a window opening at `from`. */
  function Allowance(b: Bucket, from: real, to: real): real {
    if b.lastRefill > to then 0.0
    else if b.lastRefill < from then b.capacity + Refill(to - from, b.refillRate)
    else b.tokens + Refill(to - b.lastRefill, b.refillRate)
  }

  /** The same for a key without a bucket, at time now. */
  function FreshAllowance(rpm: int, now: real, from: real, to: real): real {
    if now > to then 0.0
    else rpm as real + Refill(to - (if now < from then from else now), rpm as real / 60.0)
  }

  function Left(rpm: int, b: Option<Bucket>, now: real, from: real, to: real): real {
    match b case Some(bucket) => Allowance(bucket, from, to) case None => FreshAllowance(rpm, now, from, to)
  }

  /** A bucket filled at this limit, drawn or created no later than now. */
  predicate Fair(rpm: int, b: Bucket, now: real) {
    && b.capacity == rpm as real && b.refillRate == rpm as real / 60.0
    && 0.0 <= b.tokens <= b.capacity && b.lastRefill <= now
  }

  /** Drawing at time u spends what the allowance loses. */
  lemma AllowanceStep(b: Bucket, u: real, from: real, to: real)
    requires from <= to && b.lastRefill <= u && b.refillRate >= 0.0 && 0.0 <= b.tokens <= b.capacity
    ensures var (b', allowed) := Drawn(b, u);
      (if allowed && from <= u <= to then 1.0 else 0.0) + Allowance(b', from, to) <= Allowance(b, from, to)
  {
    hide Refill;
    var rate := b.refillRate;
    RefillNonNegative(u - b.lastRefill, rate);
    RefillNonNegative(to - from, rate);
    if u > to {
      if b.lastRefill <= to { RefillNonNegative(to - b.lastRefill, rate); }
    } else if b.lastRefill >= from {
      RefillAdds(rate, b.lastRefill, u, to);
    } else if u >= from {
      RefillAdds(rate, from, u, to);
      RefillNonNegative(u - from, rate);
    }
  }

  lemma DrawnFair(rpm: int, b: Bucket, u: real)
    requires rpm >= 1 && Fair(rpm, b, u)
    ensures Fair(rpm, Drawn(b, u).0, u)
  {
    hide Refill;
    RefillNonNegative(u - b.lastRefill, b.refillRate);
  }

  lemma FreshShrinks(rpm: int, now: real, later: real, from: real, to: real)
    requires rpm >= 1 && now <= later && from <= to
    ensures 0.0 <= FreshAllowance(rpm, later, from, to) <= FreshAllowance(rpm, now, from, to)
    ensures Allowance(NewBucket(rpm, later), from, to) <= FreshAllowance(rpm, now, from, to)
    ensures FreshAllowance(rpm, now, from, to) <= rpm as real + Refill(to - from, rpm as real / 60.0)
  {
    hide Refill;
    var rate := rpm as real / 60.0;
    var a, b := if now < from then from else now, if later < from then from else later;
    RefillAdds(rate, from, a, to);
    RefillAdds(rate, a, b, to);
    RefillNonNegative(a - from, rate);
    RefillNonNegative(b - a, rate);
    RefillNonNegative(to - from, rate);
    if a <= to { RefillNonNegative(to - a, rate); }
    if b <= to { RefillNonNegative(to - b, rate); }
  }

  /** Forgetting a bucket that looks idle gives back at most the tenth of a token it lacked. */
  lemma ForgettingCosts(rpm: int, b: Bucket, now: real, from: real, to: real)
    requires rpm >= 1 && from <= to && Fair(rpm, b, now) && Stale(b)
    ensures FreshAllowance(rpm, now, from, to)
         <= Allowance(b, from, to) + if from <= now <= to then 0.1 else 0.0
  {
    hide Refill;
    var rate := rpm as real / 60.0;
    FreshShrinks(rpm, b.lastRefill, now, from, to);
    RefillAdds(rate, b.lastRefill, now, to);
    RefillNonNegative(now - b.lastRefill, rate);
    if b.lastRefill <= to { RefillNonNegative(to - b.lastRefill, rate); }
  }

  /** The cleanup of this call removes the key's bucket. */
  predicate Forgets(limits: Limits, r: Registry, c: Call, key: Key) {
    (key in r.buckets || c.key == key) && key !in Allowed(limits, r, c).0.buckets
  }

  function Forgotten(limits: Limits, r: Registry, calls: seq<Call>, key: Key, from: real, to: real): nat
    decreases |calls|
  {
    if calls == [] then 0
    else
      (if Forgets(limits, r, calls[0], key) && from <= calls[0].swept <= to then 1 else 0)
      + Forgotten(limits, Allowed(limits, r, calls[0]).0, calls[1..], key, from, to)
  }

  /** The key's bucket once the call has drawn, before any cleanup. */
  function DrawnOf(limits: Limits, r: Registry, c: Call, key: Key): Option<Bucket> {
    if c.key == key then Some(Drawn(BucketOf(r, key).GetOr(NewBucket(limits(key.rpc), c.created)), c.consumed).0)
    else BucketOf(r, key)
  }

  lemma CallOfKey(limits: Limits, r: Registry, c: Call, key: Key)
    ensures var (r', allowed) := Allowed(limits, r, c);
      var b := DrawnOf(limits, r, c, key);
      && (c.key == key ==>
            allowed == Drawn(BucketOf(r, key).GetOr(NewBucket(limits(key.rpc), c.created)), c.consumed).1)
      && (BucketOf(r', key) == b || (b.Some? && Stale(b.value) && BucketOf(r', key) == None))
      && (Forgets(limits, r, c, key) <==> b.Some? && BucketOf(r', key) == None)
  {
    hide Drawn;
  }

  lemma DrawingSpends(limits: Limits, r: Registry, c: Call, key: Key, now: real, from: real, to: real)
    requires limits(key.rpc) >= 1 && from <= to && now <= c.created <= c.consumed <= c.checked <= c.swept
    requires key in r.buckets ==> Fair(limits(key.rpc), r.buckets[key], now)
    ensures var rpm := limits(key.rpc);
      var b := DrawnOf(limits, r, c, key);
      var allowed := Allowed(limits, r, c).1;
      && (b.Some? ==> Fair(rpm, b.value, c.swept))
      && (if c.key == key && allowed && from <= c.consumed <= to then 1.0 else 0.0) + Left(rpm, b, c.swept, from, to)
         <= Left(rpm, BucketOf(r, key), now, from, to)
  {
    hide Drawn, Allowed, Allowance, FreshAllowance, Stale;
    var rpm := limits(key.rpc);
    CallOfKey(limits, r, c, key);
    FreshShrinks(rpm, now, c.swept, from, to);
    FreshShrinks(rpm, now, c.created, from, to);
    if c.key == key {
      var b := BucketOf(r, key).GetOr(NewBucket(rpm, c.created));
      DrawnFair(rpm, b, c.consumed);
      AllowanceStep(b, c.consumed, from, to);
    }
  }

  /** Over a run, what a key is admitted in a window stays within its allowance, but for a tenth of a
      token for each time its bucket is forgotten. */
  lemma {:induction false} RegistryBounded(
    limits: Limits, r: Registry, calls: seq<Call>, key: Key, now: real, from: real, to: real)
    requires limits(key.rpc) >= 1 && from <= to && Ordered(calls, now)
    requires key in r.buckets ==> Fair(limits(key.rpc), r.buckets[key], now)
    ensures AdmittedIn(Only(calls, key), Project(calls, Decisions(limits, r, calls), key), from, to) as real
         <= Left(limits(key.rpc), BucketOf(r, key), now, from, to)
            + 0.1 * Forgotten(limits, r, calls, key, from, to) as real
    decreases |calls|
  {
    hide Drawn, Allowed, Left, Fair, Forgets, Stale, DrawnOf;
    var rpm := limits(key.rpc);
    if calls == [] {
      LeftNonNegative(rpm, BucketOf(r, key), now, from, to);
    } else {
      var c := calls[0];
      var (r', allowed) := Allowed(limits, r, c);
      DrawingSpends(limits, r, c, key, now, from, to);
      CallOfKey(limits, r, c, key);
      SweepingCosts(limits, r, c, key, from, to);
      RegistryBounded(limits, r', calls[1..], key, c.swept, from, to);
      AdmittedFirst(limits, r, calls, key, from, to);
    }
  }

  lemma LeftNonNegative(rpm: int, b: Option<Bucket>, now: real, from: real, to: real)
    requires rpm >= 1 && from <= to && (b.Some? ==> Fair(rpm, b.value, now))
    ensures Left(rpm, b, now, from, to) >= 0.0
  {
    hide Refill;
    FreshShrinks(rpm, now, now, from, to);
    RefillNonNegative(to - from, rpm as real / 60.0);
    if b.Some? && b.value.lastRefill <= to { RefillNonNegative(to - b.value.lastRefill, rpm as real / 60.0); }
  }

  lemma SweepingCosts(limits: Limits, r: Registry, c: Call, key: Key, from: real, to: real)
    requires limits(key.rpc) >= 1 && from <= to
    requires var b := DrawnOf(limits, r, c, key); b.Some? ==> Fair(limits(key.rpc), b.value, c.swept)
    ensures var rpm := limits(key.rpc);
      Left(rpm, BucketOf(Allowed(limits, r, c).0, key), c.swept, from, to)
        <= Left(rpm, DrawnOf(limits, r, c, key), c.swept, from, to)
           + if Forgets(limits, r, c, key) && from <= c.swept <= to then 0.1 else 0.0
  {
    hide Drawn, Allowed, Allowance, FreshAllowance, Fair, Forgets, Stale, DrawnOf;
    CallOfKey(limits, r, c, key);
    if Forgets(limits, r, c, key) {
      ForgettingCosts(limits(key.rpc), DrawnOf(limits, r, c, key).value, c.swept, from, to);
    }
  }

  lemma AdmittedFirst(limits: Limits, r: Registry, calls: seq<Call>, key: Key, from: real, to: real)
    requires calls != []
    ensures var c := calls[0];
      var (r', allowed) := Allowed(limits, r, c);
      AdmittedIn(Only(calls, key), Project(calls, Decisions(limits, r, calls), key), from, to)
        == (if c.key == key && allowed && from <= c.consumed <= to then 1 else 0)
           + AdmittedIn(Only(calls[1..], key), Project(calls[1..], Decisions(limits, r', calls[1..]), key), from, to)
  {
    hide Allowed;
    var (r', allowed) := Allowed(limits, r, calls[0]);
    var ds := Decisions(limits, r, calls);
    assert ds[0] == allowed && ds[1..] == Decisions(limits, r', calls[1..]);
    if calls[0].key == key {
      assert Only(calls, key)[1..] == Only(calls[1..], key);
      assert Project(calls, ds, key)[1..] == Project(calls[1..], ds[1..], key);
    } else {
      assert Only(calls, key) == Only(calls[1..], key);
      assert Project(calls, ds, key) == Project(calls[1..], ds[1..], key);
    }
  }

  /** Cleanups are more than the interval apart, which bounds how often a key is forgotten. */
  lemma {:induction false} ForgottenSeldom(
    limits: Limits, r: Registry, calls: seq<Call>, key: Key, now: real, from: real, to: real)
    requires Ordered(calls, now)
    ensures var n := Forgotten(limits, r, calls, key, from, to) as real;
      n > 0.0 ==> CLEANUP_INTERVAL * n <= to - r.lastCleanup && CLEANUP_INTERVAL * (n - 1.0) <= to - from
    decreases |calls|
  {
    hide Allowed, Forgets;
    if calls != [] {
      var c := calls[0];
      CleanupTimes(limits, r, c, key);
      ForgottenSeldom(limits, Allowed(limits, r, c).0, calls[1..], key, c.swept, from, to);
    }
  }

  lemma CleanupTimes(limits: Limits, r: Registry, c: Call, key: Key)
    requires c.checked <= c.swept
    ensures var r' := Allowed(limits, r, c).0;
      && (r'.lastCleanup == r.lastCleanup
          || (r'.lastCleanup == c.swept && c.swept > r.lastCleanup + CLEANUP_INTERVAL))
      && (Forgets(limits, r, c, key) ==> r'.lastCleanup == c.swept && c.swept > r.lastCleanup + CLEANUP_INTERVAL)
  {
    hide Drawn;
  }

  lemma {:induction false} NeverForgotten(
    limits: Limits, r: Registry, calls: seq<Call>, key: Key, now: real, from: real, to: real)
    requires limits(key.rpc) >= 2 && Ordered(calls, now)
    requires key in r.buckets ==> Drained(r.buckets[key], limits(key.rpc)) && r.buckets[key].lastRefill <= now
    ensures Forgotten(limits, r, calls, key, from, to) == 0
    decreases |calls|
  {
    hide Allowed, Drained;
    if calls != [] {
      CallKeepsBucket(limits, r, calls[0], key);
      NeverForgotten(limits, Allowed(limits, r, calls[0]).0, calls[1..], key, calls[0].swept, from, to);
    }
  }

  lemma {:induction false} NothingAdmitted(
    limits: Limits, r: Registry, calls: seq<Call>, key: Key, from: real, to: real)
    requires limits(key.rpc) <= 0
    requires key in r.buckets ==> r.buckets[key].capacity <= 0.0
    ensures AdmittedIn(Only(calls, key), Project(calls, Decisions(limits, r, calls), key), from, to) == 0
    decreases |calls|
  {
    if calls != [] {
      var c := calls[0];
      CallOfKey(limits, r, c, key);
      AdmittedFirst(limits, r, calls, key, from, to);
      NothingAdmitted(limits, Allowed(limits, r, c).0, calls[1..], key, from, to);
    }
  }

  /** Nothing for a limit below one; otherwise a full bucket and what refills during the window. A
      limit of one also gains a tenth of a token with each cleanup, at most one every 300 seconds. */
  function MostAdmitted(rpm: int, window: real): real {
    if rpm <= 0 then 0.0
    else
      rpm as real + window * (rpm as real / 60.0)
      + if rpm == 1 then 0.1 * (1.0 + window / 300.0) else 0.0
  }

  lemma RefillIs(elapsed: real, rate: real)
    ensures Refill(elapsed, rate) == elapsed * rate
  {
  }

  /** What the registry admits to a key in any window, for every limit and every run. */
  lemma WindowBound(limits: Limits, start: real, calls: seq<Call>, key: Key, from: real, to: real)
    requires from <= to && Ordered(calls, start)
    ensures var ds := Project(calls, Decisions(limits, Registry(map[], start), calls), key);
      AdmittedIn(Only(calls, key), ds, from, to) as real <= MostAdmitted(limits(key.rpc), to - from)
  {
    hide Drawn, Allowed, Refill, Decisions, Project, Forgotten, AdmittedIn, FreshAllowance;
    var rpm, r := limits(key.rpc), Registry(map[], start);
    if rpm <= 0 {
      NothingAdmitted(limits, r, calls, key, from, to);
    } else {
      RegistryBounded(limits, r, calls, key, start, from, to);
      FreshShrinks(rpm, start, start, from, to);
      RefillIs(to - from, rpm as real / 60.0);
      if rpm == 1 {
        ForgottenSeldom(limits, r, calls, key, start, from, to);
      } else {
        NeverForgotten(limits, r, calls, key, start, from, to);
      }
    }
  }

  /** Consecutive draws at least 60/rpm seconds apart. */
  predicate Spaced(calls: seq<Call>, rpm: int)
    requires rpm > 0
  {
    forall i :: 0 < i < |calls| ==> calls[i].consumed - calls[i - 1].consumed >= 60.0 / rpm as real
  }

  lemma RefillsOne(b: Bucket, rpm: int, now: real)
    requires rpm >= 1 && b.capacity == rpm as real && b.refillRate == rpm as real / 60.0
    requires 0.0 <= b.tokens <= b.capacity
    requires (b.tokens >= 1.0 && b.lastRefill <= now) || b.lastRefill + 60.0 / rpm as real <= now
    ensures var (b', allowed) := Drawn(b, now);
      allowed && 0.0 <= b'.tokens <= b.capacity - 1.0
  {
    if b.lastRefill + 60.0 / rpm as real <= now {
      var wait := 60.0 / rpm as real;
      assert Refill(wait, b.refillRate) == 1.0;
      RefillNonNegative(now - b.lastRefill - wait, b.refillRate);
      RefillAdds(b.refillRate, b.lastRefill, b.lastRefill + wait, now);
    } else {
      RefillNonNegative(now - b.lastRefill, b.refillRate);
    }
  }

  /** A bucket last drawn by an admitted call, long enough before the next call of its key. */
  predicate Rested(rpm: int, b: Bucket, own: seq<Call>)
    requires rpm >= 1
  {
    && b.capacity == rpm as real && b.refillRate == rpm as real / 60.0
    && 0.0 <= b.tokens <= b.capacity - 1.0
    && (own != [] ==> b.lastRefill + 60.0 / rpm as real <= own[0].consumed)
  }

  lemma SpacedStep(limits: Limits, r: Registry, c: Call, key: Key, own: seq<Call>)
    requires limits(key.rpc) >= 1 && c.created <= c.consumed && Spaced(own, limits(key.rpc))
    requires key in r.buckets ==> Rested(limits(key.rpc), r.buckets[key], own)
    requires c.key == key ==> own != [] && own[0] == c
    ensures var (r', allowed) := Allowed(limits, r, c);
      var rest := if c.key == key then own[1..] else own;
      && (c.key == key ==> allowed)
      && Spaced(rest, limits(key.rpc))
      && (key in r'.buckets ==> Rested(limits(key.rpc), r'.buckets[key], rest))
  {
    hide Drawn, Allowed;
    var rpm := limits(key.rpc);
    CallOfKey(limits, r, c, key);
    if c.key == key {
      assert forall i :: 0 < i < |own[1..]| ==> own[1..][i] == own[i + 1] && own[1..][i - 1] == own[i];
      var b := BucketOf(r, key).GetOr(NewBucket(rpm, c.created));
      RefillsOne(b, rpm, c.consumed);
      DrawnKeeps(b, c.consumed);
    }
  }

  /** An admitted draw leaves the bucket well below the cleanup threshold, also for a limit of one. */
  lemma {:induction false} SpacedFrom(limits: Limits, r: Registry, calls: seq<Call>, key: Key, now: real)
    requires limits(key.rpc) >= 1 && Ordered(calls, now)
    requires Spaced(Only(calls, key), limits(key.rpc))
    requires key in r.buckets ==> Rested(limits(key.rpc), r.buckets[key], Only(calls, key))
    ensures forall d :: d in Project(calls, Decisions(limits, r, calls), key) ==> d
    decreases |calls|
  {
    hide Allowed, Spaced, Rested;
    if calls != [] {
      var c, own := calls[0], Only(calls, key);
      var (r', allowed) := Allowed(limits, r, c);
      SpacedStep(limits, r, c, key, own);
      assert (if c.key == key then own[1..] else own) == Only(calls[1..], key);
      SpacedFrom(limits, r', calls[1..], key, c.swept);
      var ds := Decisions(limits, r, calls);
      assert ds[0] == allowed && ds[1..] == Decisions(limits, r', calls[1..]);
    }
  }

  lemma DrawnKeeps(b: Bucket, now: real)
    ensures var b' := Drawn(b, now).0;
      b'.capacity == b.capacity && b'.refillRate == b.refillRate && b'.lastRefill == now
  {
  }

  /** Calls of a key at its advertised rate are never refused, whatever the others do. */
  lemma SpacedCallsAdmitted(limits: Limits, start: real, calls: seq<Call>, key: Key)
    requires limits(key.rpc) >= 1 && Ordered(calls, start)
    requires Spaced(Only(calls, key), limits(key.rpc))
    ensures forall d :: d in Project(calls, Decisions(limits, Registry(map[], start), calls), key) ==> d
  {
    SpacedFrom(limits, Registry(map[], start), calls, key, start);
  }

  // ----- nobody is refused below the advertised rate ---------------------------------------

  /** Least tokens of a bucket that long after a moment, but for those spent since. */
  function Least(rpm: int, elapsed: real): real {
    var refilled := elapsed * (rpm as real / 60.0);
    if refilled < rpm as real then refilled else rpm as real
  }

  lemma LeastIs(rpm: int, elapsed: real)
    ensures var refilled := Refill(elapsed, rpm as real / 60.0);
      Least(rpm, elapsed) == if refilled < rpm as real then refilled else rpm as real
  {
  }

  /** A bucket whose key was admitted `spent` times since `from`. */
  predicate Supplied(rpm: int, b: Bucket, now: real, from: real, spent: nat) {
    Fair(rpm, b, now) && (b.lastRefill >= from ==> b.tokens >= Least(rpm, b.lastRefill - from) - spent as real)
  }

  lemma NewSupplied(rpm: int, created: real, now: real, from: real, spent: nat)
    requires rpm >= 1 && created <= now
    ensures Supplied(rpm, NewBucket(rpm, created), now, from, spent)
  {
    hide Least, Refill;
    LeastIs(rpm, created - from);
  }

  lemma RefilledAtLeast(rpm: int, b: Bucket, u: real, from: real, spent: nat)
    requires rpm >= 1 && Supplied(rpm, b, u, from, spent) && from <= u
    ensures Refilled(b, u) >= Least(rpm, u - from) - spent as real
  {
    hide Refill, Least;
    var rate := rpm as real / 60.0;
    LeastIs(rpm, u - from);
    LeastIs(rpm, b.lastRefill - from);
    RefillNonNegative(u - b.lastRefill, rate);
    RefillAdds(rate, from, b.lastRefill, u);
    if b.lastRefill < from {
      RefillNegates(from - b.lastRefill, rate);
    }
  }

  lemma RefillNegates(elapsed: real, rate: real)
    requires elapsed >= 0.0 && rate >= 0.0
    ensures Refill(-elapsed, rate) <= 0.0
  {
  }

  /** A draw, and what it means when it is refused. */
  lemma DrawnSupplied(rpm: int, b: Bucket, u: real, from: real, spent: nat)
    requires rpm >= 1 && Supplied(rpm, b, u, from, spent)
    ensures var (b', allowed) := Drawn(b, u);
      && Supplied(rpm, b', u, from, spent + if allowed && from <= u then 1 else 0)
      && (!allowed && from <= u ==> spent as real > Least(rpm, u - from) - 1.0)
  {
    hide Refilled, Least;
    DrawnFair(rpm, b, u);
    DrawnKeeps(b, u);
    if from <= u {
      RefilledAtLeast(rpm, b, u, from, spent);
    }
  }

  lemma LastConsumed(calls: seq<Call>, now: real)
    requires calls != [] && Ordered(calls, now)
    ensures calls[0].consumed <= calls[|calls| - 1].consumed
    decreases |calls|
  {
    if |calls| > 1 {
      LastConsumed(calls[1..], calls[0].swept);
    }
  }

  /** One call of a run, for a bucket that the key may or may not have. */
  lemma CallSupplied(limits: Limits, r: Registry, c: Call, key: Key, now: real, from: real, spent: nat)
    requires limits(key.rpc) >= 1 && now <= c.created <= c.consumed <= c.swept
    requires key in r.buckets ==> Supplied(limits(key.rpc), r.buckets[key], now, from, spent)
    ensures var (r', allowed) := Allowed(limits, r, c);
      var rpm := limits(key.rpc);
      var spent' := spent + if c.key == key && allowed && from <= c.consumed then 1 else 0;
      && (key in r'.buckets ==> Supplied(rpm, r'.buckets[key], c.swept, from, spent'))
      && (c.key == key && !allowed && from <= c.consumed ==> spent as real > Least(rpm, c.consumed - from) - 1.0)
  {
    hide Drawn, Allowed, Least;
    CallOfKey(limits, r, c, key);
    if c.key == key {
      var rpm := limits(key.rpc);
      NewSupplied(rpm, c.created, c.consumed, from, spent);
      DrawnSupplied(rpm, BucketOf(r, key).GetOr(NewBucket(rpm, c.created)), c.consumed, from, spent);
    }
  }

  /** If the last of these calls is refused, the bucket has given all it had to since `from`. */
  lemma {:induction false} RefusedFrom(
    limits: Limits, r: Registry, calls: seq<Call>, key: Key, now: real, from: real, spent: nat)
    requires limits(key.rpc) >= 1 && Ordered(calls, now) && calls != []
    requires key in r.buckets ==> Supplied(limits(key.rpc), r.buckets[key], now, from, spent)
    requires var last := |calls| - 1;
      calls[last].key == key && from <= calls[last].consumed && !Decisions(limits, r, calls)[last]
    ensures var last := |calls| - 1;
      var front := calls[..last];
      var ds := Project(front, Decisions(limits, r, front), key);
      var n := AdmittedIn(Only(front, key), ds, from, calls[last].consumed);
      (spent + n) as real > Least(limits(key.rpc), calls[last].consumed - from) - 1.0
    decreases |calls|
  {
    hide Drawn, Allowed, Supplied, Least;
    var c, last := calls[0], |calls| - 1;
    var front := calls[..last];
    CallSupplied(limits, r, c, key, now, from, spent);
    var (r', allowed) := Allowed(limits, r, c);
    assert Decisions(limits, r, calls)[0] == allowed;
    if last == 0 {
      assert front == [];
    } else {
      LastConsumed(calls, now);
      assert Decisions(limits, r, calls)[1..] == Decisions(limits, r', calls[1..]);
      assert front[0] == c && front[1..] == calls[1..][..last - 1];
      AdmittedFirst(limits, r, front, key, from, calls[last].consumed);
      RefusedFrom(limits, r', calls[1..], key, c.swept, from,
                  spent + if c.key == key && allowed && from <= c.consumed then 1 else 0);
    }
  }

  /** The matching lower bound: whoever is refused has had as many calls admitted as its limit in
      the minute before, whatever other keys did and whenever cleanups ran. */
  lemma RefusedAfterFullMinute(limits: Limits, start: real, calls: seq<Call>, c: Call)
    requires limits(c.key.rpc) >= 1 && Ordered(calls + [c], start)
    requires !Decisions(limits, Registry(map[], start), calls + [c])[|calls|]
    ensures var ds := Decisions(limits, Registry(map[], start), calls);
      AdmittedIn(Only(calls, c.key), Project(calls, ds, c.key), c.consumed - 60.0, c.consumed)
        >= limits(c.key.rpc)
  {
    hide Decisions, AdmittedIn, Project, Only;
    var rpm := limits(c.key.rpc);
    assert (calls + [c])[..|calls|] == calls;
    RefusedFrom(limits, Registry(map[], start), calls + [c], c.key, start, c.consumed - 60.0, 0);
    assert 60.0 * (rpm as real / 60.0) == rpm as real;
  }

  lemma {:induction false} AdmittedAtMost(calls: seq<Call>, ds: seq<bool>, from: real, to: real)
    requires |calls| == |ds|
    ensures AdmittedIn(calls, ds, from, to) <= |calls|
  {
    if calls != [] { AdmittedAtMost(calls[1..], ds[1..], from, to); }
  }

  /** So a key gets its whole burst: of its first limit-many calls none is refused, however close
      together they come. */
  lemma WholeBurst(limits: Limits, start: real, calls: seq<Call>, c: Call)
    requires Ordered(calls + [c], start) && |Only(calls, c.key)| < limits(c.key.rpc)
    ensures Decisions(limits, Registry(map[], start), calls + [c])[|calls|]
  {
    hide Decisions, AdmittedIn, Project, Only;
    if !Decisions(limits, Registry(map[], start), calls + [c])[|calls|] {
      RefusedAfterFullMinute(limits, start, calls, c);
      var ds := Decisions(limits, Registry(map[], start), calls);
      AdmittedAtMost(Only(calls, c.key), Project(calls, ds, c.key), c.consumed - 60.0, c.consumed);
    }
  }
}
