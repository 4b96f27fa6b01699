/** How long a denied client has to wait (middleware/ratelimit.go; section 4 of RFC 6585). The limiter
    sweeps as it runs; nothing here asks for a burst that a sweep interval refills. */
module RateRetry {
  import opened Wrappers
  import opened RateLimit

  // ---- what every run keeps, swept or not ----

  /** `t` is the time of the last request of `key`. */
  ghost predicate LatestAt(rs: seq<Request>, key: Key, t: int) {
    exists i :: 0 <= i < |rs| && rs[i].key == key && rs[i].at == t && NoneSince(rs, i + 1, key)
  }

  predicate NoneSince(rs: seq<Request>, i: int, key: Key) { forall k :: 0 <= k && i <= k < |rs| ==> rs[k].key != key }

  /** A bucket that is kept holds between no token and the burst, and was refilled by the last request
      of its key. */
  ghost predicate KeptBucket(c: Config, rs: seq<Request>, key: Key, b: Bucket) {
    0.0 <= b.tokens <= c.burst && LatestAt(rs, key, b.last)
  }

  lemma LatestLater(rs: seq<Request>, r: Request, key: Key, t: int)
    requires if r.key == key then t == r.at else LatestAt(rs, key, t)
    ensures LatestAt(rs + [r], key, t)
  {
    var all := rs + [r];
    if r.key == key {
      assert all[|rs|] == r && NoneSince(all, |rs| + 1, key);
    } else {
      var i :| 0 <= i < |rs| && rs[i].key == key && rs[i].at == t && NoneSince(rs, i + 1, key);
      assert all[i] == rs[i] && NoneSince(all, i + 1, key);
    }
  }

  lemma LatestIsLatest(start: int, rs: seq<Request>, key: Key, t: int)
    requires Ordered(start, rs) && LatestAt(rs, key, t)
    ensures forall i :: 0 <= i < |rs| && rs[i].key == key ==> rs[i].at <= t
    ensures rs != [] && rs[|rs| - 1].at >= t
  {
    var i :| 0 <= i < |rs| && rs[i].key == key && rs[i].at == t && NoneSince(rs, i + 1, key);
  }

  /** One request on a kept bucket, or on none. */
  lemma ServeKeeps(c: Config, b: Option<Bucket>, now: int)
    requires Usable(c) && (b.Some? ==> 0.0 <= b.value.tokens <= c.burst && b.value.last <= now)
    ensures var b' := Serve(c, b, now).0; 0.0 <= b'.tokens <= c.burst && b'.last == now
  {
    if b.Some? {
      InflowMonotone(c, 0, now - b.value.last);
      assert Inflow(c, 0) == 0.0;
    }
  }

  /** Whatever the burst and the rate, and whatever is swept. */
  lemma {:induction false} RunKeeps(c: Config, start: int, rs: seq<Request>, key: Key)
    requires Usable(c) && Ordered(start, rs)
    ensures var s := After(c, start, rs); key in s.buckets ==> KeptBucket(c, rs, key, s.buckets[key])
  {
    hide Serve, KeptBucket, LatestAt;
    if rs != [] {
      var init, last := rs[..|rs| - 1], rs[|rs| - 1];
      assert init + [last] == rs;
      var s := Sweep(After(c, start, init), last.at);
      RunKeeps(c, start, init, key);
      if key in s.buckets {
        assert key in After(c, start, init).buckets && s.buckets[key] == After(c, start, init).buckets[key];
        KeptAgain(c, init, last, key, s.buckets[key]);
      }
      if key == last.key {
        ServeLookup(c, start, init, last, s.buckets);
      }
    }
  }

  lemma ServeLookup(c: Config, start: int, rs: seq<Request>, r: Request, buckets: map<Key, Bucket>)
    requires Usable(c) && Ordered(start, rs + [r])
    requires r.key in buckets ==> KeptBucket(c, rs, r.key, buckets[r.key])
    ensures KeptBucket(c, rs + [r], r.key, Serve(c, Lookup(buckets, r.key), r.at).0)
  {
    hide Serve, LatestAt;
    assert (rs + [r])[|rs|] == r;
    if r.key in buckets {
      OrderedInit(start, rs, r);
      LatestIsLatest(start, rs, r.key, buckets[r.key].last);
    }
    ServeKeeps(c, Lookup(buckets, r.key), r.at);
    LatestLater(rs, r, r.key, r.at);
  }

  lemma OrderedInit(start: int, rs: seq<Request>, r: Request)
    requires Ordered(start, rs + [r])
    ensures Ordered(start, rs) && forall i :: 0 <= i < |rs| ==> rs[i].at <= r.at
  {
    var all := rs + [r];
    assert all[|rs|] == r && forall i :: 0 <= i < |rs| ==> all[i] == rs[i];
  }

  lemma KeptAgain(c: Config, rs: seq<Request>, r: Request, key: Key, b: Bucket)
    requires KeptBucket(c, rs, key, b)
    ensures r.key != key ==> KeptBucket(c, rs + [r], key, b)
  {
    if r.key != key { LatestLater(rs, r, key, b.last); }
  }

  /** A bucket that is kept was used less than a sweep interval before the last sweep, so none is kept that has
      been idle for two sweep intervals. */
  lemma {:induction false} NoneIsIdle(c: Config, start: int, rs: seq<Request>)
    requires Usable(c) && Ordered(start, rs)
    ensures var s := After(c, start, rs);
      && (forall key :: key in s.buckets ==> s.lastSweep - s.buckets[key].last < SWEEP_INTERVAL)
      && start <= s.lastSweep
      && (rs != [] ==> s.lastSweep <= rs[|rs| - 1].at < s.lastSweep + SWEEP_INTERVAL)
      && (rs != [] ==> forall key :: key in s.buckets ==> rs[|rs| - 1].at - s.buckets[key].last < 2 * SWEEP_INTERVAL)
  {
    hide Serve;
    if rs != [] {
      var init, last := rs[..|rs| - 1], rs[|rs| - 1];
      NoneIsIdle(c, start, init);
      ServeStamps(c, Lookup(Sweep(After(c, start, init), last.at).buckets, last.key), last.at);
    }
  }

  // ---- how long to wait ----

  /** A request after a denial of the same key, with none of that key in between: it is allowed exactly
      when the exact wait is over, so it is denied before `retry` nanoseconds and allowed from one
      nanosecond after on. */
  lemma RetryBound(c: Config, b: Option<Bucket>, now: int, later: int)
    requires Usable(c) && now <= later && (b.Some? ==> b.value.tokens >= 0.0 && b.value.last <= now)
    requires Serve(c, b, now).1.Denied?
    ensures var (b', d) := Serve(c, b, now); var next := Serve(c, Some(b'), later).1;
      && (next == Allowed <==> (later - now) as real >= Wait(c, b'))
      && (later < now + d.retry ==> next.Denied?)
      && (later >= now + d.retry + 1 ==> next == Allowed)
      && d.retry >= 0
  {
    var b' := Serve(c, b, now).0;
    WaitIsInflow(c, b', later - now);
  }

  lemma WaitIsInflow(c: Config, b: Bucket, d: int)
    requires c.rate > 0.0 && b.tokens < 1.0
    ensures Wait(c, b) > 0.0
    ensures d as real >= Wait(c, b) <==> b.tokens + Inflow(c, d) >= 1.0
  {
    var x, w := d as real / SECOND as real, (1.0 - b.tokens) / c.rate;
    assert w * c.rate == 1.0 - b.tokens;
    assert d as real >= Wait(c, b) <==> x >= w;
    PositiveFactor(w, c.rate);
    if x >= w { assert x * c.rate >= w * c.rate; } else { assert x * c.rate < w * c.rate; }
  }

  /** The bucket of a denied request stays as it is until the next request of the key, unless it is
      swept away, which takes a sweep interval. */
  lemma {:induction false} DeniedBucketStays(c: Config, start: int, rs: seq<Request>, i: nat)
    requires Usable(c) && Ordered(start, rs) && i < |rs| && NoneSince(rs, i + 1, rs[i].key)
    requires Decide(c, start, rs[..i + 1]).Denied?
    ensures var s, b, key := After(c, start, rs), After(c, start, rs[..i + 1]).buckets, rs[i].key;
      && key in b && b[key].last == rs[i].at
      && (key in s.buckets ==> s.buckets[key] == b[key])
      && (key !in s.buckets ==> rs[|rs| - 1].at - rs[i].at >= SWEEP_INTERVAL)
    decreases |rs|
  {
    hide Serve;
    if i == |rs| - 1 {
      assert rs[..i + 1] == rs;
      ServeStamps(c, Lookup(Sweep(After(c, start, rs[..i]), rs[i].at).buckets, rs[i].key), rs[i].at);
    } else {
      var init := rs[..|rs| - 1];
      assert init[..i + 1] == rs[..i + 1];
      DeniedBucketStays(c, start, init, i);
    }
  }

  lemma ServeStamps(c: Config, b: Option<Bucket>, now: int)
    requires Usable(c)
    ensures Serve(c, b, now).0.last == now
  {}

  /** The longest wait after a denial is a sweep interval at most: a rate of about 1/600 or more. */
  predicate RetriesWithinSweep(c: Config) { c.rate * (SWEEP_INTERVAL + 1) as real > SECOND as real }

  /** Request `i` is denied, and the last request is the next one of its key. */
  ghost predicate NextAfterDenial(c: Config, start: int, rs: seq<Request>, i: nat)
    requires Usable(c)
  {
    && Ordered(start, rs) && i + 1 < |rs|
    && rs[i].key == rs[|rs| - 1].key && NoneSince(rs[..|rs| - 1], i + 1, rs[i].key)
    && Decide(c, start, rs[..i + 1]).Denied?
  }

  /** The retry bound on a whole run of the limiter: request `i` is denied, the last request is the next
      one of that key, and other keys may come in between. From one nanosecond after the retry time on
      it is allowed. Before the retry time it is denied, as long as no sweep can come in between. */
  lemma RetryHolds(c: Config, start: int, rs: seq<Request>, i: nat)
    requires Usable(c) && NextAfterDenial(c, start, rs, i)
    ensures var retry, later := Decide(c, start, rs[..i + 1]).retry, rs[|rs| - 1].at;
      && (later >= rs[i].at + retry + 1 ==> Decide(c, start, rs) == Allowed)
      && (later < rs[i].at + retry && (RetriesWithinSweep(c) || later - rs[i].at < SWEEP_INTERVAL) ==> Decide(c, start, rs).Denied?)
  {
    hide Serve, After;
    var init, upTo, key, later := rs[..|rs| - 1], rs[..i + 1], rs[i].key, rs[|rs| - 1].at;
    assert init[..i + 1] == upTo && upTo[..i] == rs[..i];
    var s0, s := After(c, start, init), Sweep(After(c, start, init), later);
    DeniedBucketStays(c, start, init, i);
    var b := DeniedHere(c, start, upTo);
    RetryBound(c, b, rs[i].at, later);
    if RetriesWithinSweep(c) { RetryIsShort(c, b, rs[i].at); }
    FullIsAllowed(c, later);
    assert key in s.buckets ==> Lookup(s.buckets, key) == Some(Serve(c, b, rs[i].at).0);
    assert key !in s.buckets ==> Lookup(s.buckets, key) == None;
    assert key !in s.buckets ==> later - rs[i].at >= SWEEP_INTERVAL;
  }

  /** The bucket a denied request found. */
  lemma DeniedHere(c: Config, start: int, rs: seq<Request>) returns (b: Option<Bucket>)
    requires Usable(c) && Ordered(start, rs) && rs != []
    ensures var last := rs[|rs| - 1];
      && Decide(c, start, rs) == Serve(c, b, last.at).1
      && last.key in After(c, start, rs).buckets && After(c, start, rs).buckets[last.key] == Serve(c, b, last.at).0
      && (b.Some? ==> 0.0 <= b.value.tokens && b.value.last <= last.at)
  {
    hide Serve;
    var init, last := rs[..|rs| - 1], rs[|rs| - 1];
    var s := Sweep(After(c, start, init), last.at);
    b := Lookup(s.buckets, last.key);
    if b.Some? {
      assert init + [last] == rs;
      OrderedInit(start, init, last);
      RunKeeps(c, start, init, last.key);
      LatestIsLatest(start, init, last.key, b.value.last);
    }
  }

  /** How long a retry time can be. */
  lemma RetryIsShort(c: Config, b: Option<Bucket>, now: int)
    requires Usable(c) && (b.Some? ==> b.value.tokens >= 0.0 && b.value.last <= now)
    requires RetriesWithinSweep(c) && Serve(c, b, now).1.Denied?
    ensures Serve(c, b, now).1.retry <= SWEEP_INTERVAL
  {
    var b' := Serve(c, b, now).0;
    if b.Some? {
      InflowMonotone(c, 0, now - b.value.last);
      assert Inflow(c, 0) == 0.0;
    }
    var x := (SWEEP_INTERVAL + 1) as real / SECOND as real;
    assert x * c.rate > 1.0;
    assert Inflow(c, SWEEP_INTERVAL + 1) >= 1.0;
    WaitIsInflow(c, b', SWEEP_INTERVAL + 1);
  }

  lemma FullIsAllowed(c: Config, now: int)
    requires Usable(c)
    ensures Serve(c, None, now).1 == Allowed
  {}

  lemma PositiveFactor(x: real, y: real)
    requires x * y > 0.0 && y > 0.0
    ensures x > 0.0
  {
  }

  /** The seconds of the Retry-After header. */
  function RetryAfter(retry: int): int { -((-retry) / SECOND) }

  /** A client that waits as long as the header says is let through, unless the truncated wait is a whole
      number of seconds and the exact wait is not over by then. */
  lemma RetryAfterSuffices(c: Config, b: Option<Bucket>, now: int)
    requires Usable(c) && (b.Some? ==> b.value.tokens >= 0.0 && b.value.last <= now)
    requires Serve(c, b, now).1.Denied?
    ensures var (b', d) := Serve(c, b, now);
      Serve(c, Some(b'), now + RetryAfter(d.retry) * SECOND).1 == Allowed
      <==> !(d.retry % SECOND == 0 && d.retry as real < Wait(c, b'))
  {
    var (b', d) := Serve(c, b, now);
    RetryBound(c, b, now, now + RetryAfter(d.retry) * SECOND);
    if d.retry % SECOND == 0 {
      assert RetryAfter(d.retry) * SECOND == d.retry;
    } else {
      assert RetryAfter(d.retry) * SECOND >= d.retry + 1;
    }
  }

  /** The same on a whole run, with other keys and sweeps in between: a client that comes back when the header
      says or later is let through, unless it is there to the nanosecond, the truncated wait was a whole number
      of seconds that falls short, and its bucket has not been swept away. */
  lemma RetryAfterHolds(c: Config, start: int, rs: seq<Request>, i: nat)
    requires Usable(c) && NextAfterDenial(c, start, rs, i)
    requires rs[|rs| - 1].at >= rs[i].at + RetryAfter(Decide(c, start, rs[..i + 1]).retry) * SECOND
    ensures var retry, later, key := Decide(c, start, rs[..i + 1]).retry, rs[|rs| - 1].at, rs[i].key;
      var found := After(c, start, rs[..i + 1]).buckets;
      && key in found
      && (Decide(c, start, rs) == Allowed <==>
        !(later == rs[i].at + retry && retry as real < Wait(c, found[key])
          && key in Sweep(After(c, start, rs[..|rs| - 1]), later).buckets))
  {
    hide Serve, After, Wait;
    var init, upTo, key, later := rs[..|rs| - 1], rs[..i + 1], rs[i].key, rs[|rs| - 1].at;
    assert init[..i + 1] == upTo && upTo[..i] == rs[..i];
    var s := Sweep(After(c, start, init), later);
    DeniedBucketStays(c, start, init, i);
    var b := DeniedHere(c, start, upTo);
    RetryBound(c, b, rs[i].at, later);
    WholeSeconds(Decide(c, start, upTo).retry);
    FullIsAllowed(c, later);
    assert key in s.buckets ==> Lookup(s.buckets, key) == Some(Serve(c, b, rs[i].at).0);
    assert key !in s.buckets ==> Lookup(s.buckets, key) == None;
  }

  /** The header's seconds are the least number that reaches the retry time. */
  lemma WholeSeconds(retry: int)
    ensures RetryAfter(retry) * 1_000_000_000 >= retry
    ensures forall n: int :: n * 1_000_000_000 >= retry ==> RetryAfter(retry) <= n
  {}

  /** A request at least 1/rate after the one before of its key is never denied, whatever other keys do
      in between; so requests of one key at least 1/rate apart never are. */
  lemma SpacedNeverDenied(c: Config, start: int, rs: seq<Request>)
    requires Usable(c) && Ordered(start, rs) && rs != []
    requires var last := rs[|rs| - 1];
      forall i :: 0 <= i < |rs| - 1 && rs[i].key == last.key ==> Inflow(c, last.at - rs[i].at) >= 1.0
    ensures Decide(c, start, rs) == Allowed
  {
    hide Inflow, Serve, After;
    var init, last := rs[..|rs| - 1], rs[|rs| - 1];
    assert init + [last] == rs;
    OrderedInit(start, init, last);
    RunKeeps(c, start, init, last.key);
    var s := Sweep(After(c, start, init), last.at);
    if last.key in s.buckets {
      var b := s.buckets[last.key];
      var i :| 0 <= i < |init| && init[i].key == last.key && init[i].at == b.last && NoneSince(init, i + 1, last.key);
      assert rs[i] == init[i];
      TokenIsThere(c, b, last.at);
    } else {
      FullIsAllowed(c, last.at);
    }
  }

  lemma TokenIsThere(c: Config, b: Bucket, now: int)
    requires Usable(c) && b.tokens >= 0.0 && Inflow(c, now - b.last) >= 1.0
    ensures Serve(c, Some(b), now).1 == Allowed
  {}

  // ---- where the promises fail ----

  /** A client that comes back before its retry time is denied again. */
  ghost predicate TooEarlyIsDenied(c: Config, start: int, rs: seq<Request>, i: nat)
    requires Usable(c)
  {
    (NextAfterDenial(c, start, rs, i) && rs[|rs| - 1].at < rs[i].at + Decide(c, start, rs[..i + 1]).retry) ==>
      Decide(c, start, rs).Denied?
  }

  /** A burst that empties the bucket, one request too many, and one more a sweep interval later. */
  lemma SweptTooEarly(c: Config, n: nat, start: int)
    requires Usable(c) && c.burst == n as real && !RetriesWithinSweep(c)
    ensures exists rs, i: nat :: !TooEarlyIsDenied(c, start, rs, i)
  {
    hide After, Allow, Wait;
    var key, later := "", start + SWEEP_INTERVAL;
    var burst := Bursts(key, start, n, 0);
    var denied, again := Request(key, start), Request(key, later);
    var upTo, rs := burst + [denied], burst + [denied] + [again];
    assert rs[..n + 1] == upTo && rs[..|rs| - 1] == upTo && upTo[..n] == burst;
    SweptBursts(c, start, key, start, n, 0);
    var empty := Bucket(0.0, start);
    assert Inflow(c, 0) == 0.0;
    DeniedAt(c, key, empty, start, start, 0.0);
    OneMore(c, start, burst, denied);
    OneMore(c, start, upTo, again);
    SweptAway(key, 0.0, start, start);
    AfterSweep(c, key, State(map[key := empty], start), later);
    EmptyWait(c, empty);
    assert NextAfterDenial(c, start, rs, n);
    assert !TooEarlyIsDenied(c, start, rs, n);
  }

  /** A request that finds less than one token. */
  lemma DeniedAt(c: Config, key: Key, b: Bucket, swept: int, now: int, y: real)
    requires Usable(c) && now - swept < SWEEP_INTERVAL && y == b.tokens + Inflow(c, now - b.last) < 1.0
    ensures Allow(c, State(map[key := b], swept), Request(key, now)) ==
      (State(map[key := Bucket(y, now)], swept), Denied(Wait(c, Bucket(y, now)).Floor))
  {
    assert map[key := b][key := Bucket(y, now)] == map[key := Bucket(y, now)];
  }

  /** A slow limiter fills an empty bucket only after a sweep interval. */
  lemma EmptyWait(c: Config, b: Bucket)
    requires Usable(c) && b.tokens == 0.0 && !RetriesWithinSweep(c)
    ensures Wait(c, b).Floor >= SWEEP_INTERVAL + 1
  {
    var w, x := 1.0 / c.rate, (SWEEP_INTERVAL + 1) as real / SECOND as real;
    QuotientAtLeast(x, c.rate);
    assert Wait(c, b) == w * SECOND as real;
    assert w * SECOND as real >= x * SECOND as real == (SWEEP_INTERVAL + 1) as real;
  }

  lemma QuotientAtLeast(x: real, y: real)
    requires y > 0.0 && x * y <= 1.0
    ensures 1.0 / y >= x
  {
    var w := 1.0 / y;
    assert w * y == 1.0;
    if w < x { assert (x - w) * y > 0.0; }
  }

  /** Coming back too early is denied on every run if and only if an empty bucket gets its next token
      within a sweep interval, which every rate of at least 1/600 does. */
  lemma TooEarlyIsDeniedExactlyWhen(c: Config, n: nat, start: int)
    requires Usable(c) && c.burst == n as real
    ensures (forall rs, i: nat :: TooEarlyIsDenied(c, start, rs, i)) <==> RetriesWithinSweep(c)
    ensures c.rate >= 1.0 / 600.0 ==> RetriesWithinSweep(c)
  {
    if RetriesWithinSweep(c) {
      forall rs, i: nat
        ensures TooEarlyIsDenied(c, start, rs, i)
      {
        if NextAfterDenial(c, start, rs, i) { RetryHolds(c, start, rs, i); }
      }
    } else {
      SweptTooEarly(c, n, start);
    }
  }

  /** One request in 20 minutes: the second one is told to wait for nearly 20 minutes, and is let through
      after 10. */
  lemma EarlyRetryAllowed()
    ensures var c, rs := Config(1.0 / 1200.0, 1.0), [Request("k", 0), Request("k", 1), Request("k", SWEEP_INTERVAL + 1)];
      && Decide(c, 0, rs[..1]) == Allowed
      && Decide(c, 0, rs[..2]) == Denied(1200 * SECOND - 1)
      && Decide(c, 0, rs) == Allowed
  {
    var c, r0, r1, r2 := Config(1.0 / 1200.0, 1.0), Request("k", 0), Request("k", 1), Request("k", SWEEP_INTERVAL + 1);
    var rs := [r0, r1, r2];
    assert rs[..1] == [] + [r0] && rs[..2] == [r0] + [r1] && rs == [r0, r1] + [r2];
    OneMore(c, 0, [], r0);
    OneMore(c, 0, [r0], r1);
    OneMore(c, 0, [r0, r1], r2);
    assert [] + [r0] == [r0] && [r0] + [r1] == [r0, r1];
    assert Allow(c, State(map[], 0), r0) == (State(map["k" := Bucket(0.0, 0)], 0), Allowed);
    var x := Inflow(c, 1);
    DeniedAt(c, "k", Bucket(0.0, 0), 0, 1, x);
    assert Wait(c, Bucket(x, 1)) == (1200 * SECOND - 1) as real;
    assert Sweep(State(map["k" := Bucket(x, 1)], 0), SWEEP_INTERVAL + 1).buckets == map[];
    AfterSweep(c, "k", State(map["k" := Bucket(x, 1)], 0), SWEEP_INTERVAL + 1);
  }

  /** Waiting for the Retry-After seconds can fall short: at 0.7 requests a second a request that comes a
      fraction of a nanosecond too early is told to wait 0 seconds, and is denied again. */
  lemma RetryAfterFallsShort()
    ensures var c, at := Config(0.7, 1.0), 1_428_571_428;
      var rs := [Request("k", 0), Request("k", at), Request("k", at)];
      && Decide(c, 0, rs[..1]) == Allowed
      && Decide(c, 0, rs[..2]) == Denied(0) && rs[2].at == at + RetryAfter(0) * SECOND
      && Decide(c, 0, rs).Denied?
  {
    hide Allow, Decide;
    var c, r0, r1 := Config(0.7, 1.0), Request("k", 0), Request("k", 1_428_571_428);
    var rs := [r0, r1, r1];
    assert rs[..1] == [] + [r0] && rs[..2] == [r0] + [r1] && rs == [r0, r1] + [r1];
    OneMore(c, 0, [], r0);
    OneMore(c, 0, [r0], r1);
    OneMore(c, 0, [r0, r1], r1);
    assert [] + [r0] == [r0] && [r0] + [r1] == [r0, r1];
    AfterSweep(c, "k", State(map[], 0), 0);
    var b := Bucket(0.9999999996, r1.at);
    assert Inflow(c, 1_428_571_428) == 0.9999999996 && Inflow(c, 0) == 0.0;
    DeniedAt(c, "k", Bucket(0.0, 0), 0, r1.at, b.tokens);
    DeniedAt(c, "k", b, 0, r1.at, b.tokens);
    assert Wait(c, b).Floor == 0;
  }
}
