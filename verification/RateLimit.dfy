/** The token-bucket limiter: one bucket per key, refilled by elapsed time, with idle buckets swept
    away. Tokens are reals and times are integer nanoseconds. */
module RateLimit {
  import opened Wrappers

  type Key = string

  const SECOND := 1_000_000_000
  const SWEEP_INTERVAL := 600 * SECOND

  /** The limiter's settings; a limiter only exists with a positive rate and a burst of at least 1. */
  datatype Config = Config(rate: real, burst: real)

  datatype Bucket = Bucket(tokens: real, last: int)

  datatype State = State(buckets: map<Key, Bucket>, lastSweep: int)

  datatype Decision = Allowed | Denied(retry: int)

  datatype Request = Request(key: Key, at: int)

  predicate Usable(c: Config) { c.rate > 0.0 && c.burst >= 1.0 }

  /** The tokens that flow in during `d` nanoseconds. */
  function Inflow(c: Config, d: int): real { d as real / SECOND as real * c.rate }

  lemma InflowAdds(c: Config, d: int, e: int)
    ensures Inflow(c, d) + Inflow(c, e) == Inflow(c, d + e)
  {
  }

  lemma InflowMonotone(c: Config, d: int, e: int)
    requires c.rate > 0.0 && d <= e
    ensures Inflow(c, d) <= Inflow(c, e)
    ensures d < e ==> Inflow(c, d) < Inflow(c, e)
  {
    var x, y := d as real / SECOND as real, e as real / SECOND as real;
    assert x <= y && (d < e ==> x < y);
  }

  function Min(x: real, y: real): real { if x <= y then x else y }

  // ---- one bucket ----

  function Refill(c: Config, b: Bucket, now: int): Bucket {
    Bucket(Min(c.burst, b.tokens + Inflow(c, now - b.last)), now)
  }

  /** The bucket a request finds: a new one is full. */
  function Ready(c: Config, b: Option<Bucket>, now: int): Bucket {
    match b case None => Bucket(c.burst, now) case Some(x) => Refill(c, x, now)
  }

  /** Nanoseconds until the bucket holds a whole token. */
  function Wait(c: Config, b: Bucket): real
    requires c.rate > 0.0
  {
    (1.0 - b.tokens) / c.rate * SECOND as real
  }

  function Take(c: Config, b: Bucket): (Bucket, Decision)
    requires c.rate > 0.0
  {
    if b.tokens < 1.0 then (b, Denied(Wait(c, b).Floor)) else (b.(tokens := b.tokens - 1.0), Allowed)
  }

  function Serve(c: Config, b: Option<Bucket>, now: int): (Bucket, Decision)
    requires c.rate > 0.0
  {
    Take(c, Ready(c, b, now))
  }

  // ---- the limiter ----

  function Lookup(m: map<Key, Bucket>, key: Key): Option<Bucket> {
    if key in m then Some(m[key]) else None
  }

  function Swept(m: map<Key, Bucket>, now: int): map<Key, Bucket> {
    map k | k in m && now - m[k].last < SWEEP_INTERVAL :: m[k]
  }

  function Sweep(s: State, now: int): State {
    if now - s.lastSweep >= SWEEP_INTERVAL then State(Swept(s.buckets, now), now) else s
  }

  function Allow(c: Config, s0: State, r: Request): (State, Decision)
    requires c.rate > 0.0
  {
    var s := Sweep(s0, r.at);
    var (b, d) := Serve(c, Lookup(s.buckets, r.key), r.at);
    (s.(buckets := s.buckets[r.key := b]), d)
  }

  /** The state after a run that starts with a new limiter at time `start`. */
  function After(c: Config, start: int, rs: seq<Request>): State
    requires c.rate > 0.0
  {
    if rs == [] then State(map[], start)
    else Allow(c, After(c, start, rs[..|rs| - 1]), rs[|rs| - 1]).0
  }

  /** The decision for the last request of a run. */
  function Decide(c: Config, start: int, rs: seq<Request>): Decision
    requires c.rate > 0.0 && rs != []
  {
    Allow(c, After(c, start, rs[..|rs| - 1]), rs[|rs| - 1]).1
  }

  /** Times never go back, in the order in which the lock is taken. */
  predicate Ordered(start: int, rs: seq<Request>) {
    (forall i :: 0 <= i < |rs| ==> start <= rs[i].at) && (forall i, j :: 0 <= i < j < |rs| ==> rs[i].at <= rs[j].at)
  }

  // ---- a limiter without eviction, for one key ----

  /** The bucket of `key` after a run, had it never been swept and had there been no other key. */
  function Ideal(c: Config, rs: seq<Request>, key: Key): Option<Bucket>
    requires c.rate > 0.0
  {
    if rs == [] then None
    else
      var init, last := rs[..|rs| - 1], rs[|rs| - 1];
      var b := Ideal(c, init, key);
      if last.key == key then Some(Serve(c, b, last.at).0) else b
  }

  function IdealDecision(c: Config, rs: seq<Request>): Decision
    requires c.rate > 0.0 && rs != []
  {
    var last := rs[|rs| - 1];
    Serve(c, Ideal(c, rs[..|rs| - 1], last.key), last.at).1
  }

  /** The buckets after a run of a limiter that never sweeps. */
  function UnsweptAfter(c: Config, rs: seq<Request>): map<Key, Bucket>
    requires c.rate > 0.0
  {
    if rs == [] then map[]
    else
      var m, last := UnsweptAfter(c, rs[..|rs| - 1]), rs[|rs| - 1];
      m[last.key := Serve(c, Lookup(m, last.key), last.at).0]
  }

  function DecideUnswept(c: Config, rs: seq<Request>): Decision
    requires c.rate > 0.0 && rs != []
  {
    var m, last := UnsweptAfter(c, rs[..|rs| - 1]), rs[|rs| - 1];
    Serve(c, Lookup(m, last.key), last.at).1
  }

  lemma {:induction false} UnsweptIsIdeal(c: Config, rs: seq<Request>, key: Key)
    requires c.rate > 0.0
    ensures Lookup(UnsweptAfter(c, rs), key) == Ideal(c, rs, key)
  {
    if rs != [] {
      UnsweptIsIdeal(c, rs[..|rs| - 1], key);
      UnsweptIsIdeal(c, rs[..|rs| - 1], rs[|rs| - 1].key);
    }
  }

  lemma {:induction false} IdealBounds(c: Config, start: int, rs: seq<Request>, key: Key)
    requires Usable(c) && Ordered(start, rs)
    ensures match Ideal(c, rs, key)
      case None => forall i :: 0 <= i < |rs| ==> rs[i].key != key
      case Some(b) => 0.0 <= b.tokens <= c.burst && start <= b.last && forall i :: 0 <= i < |rs| && rs[i].key == key ==> rs[i].at <= b.last
    ensures Ideal(c, rs, key).Some? ==> exists i :: 0 <= i < |rs| && rs[i].key == key && rs[i].at == Ideal(c, rs, key).value.last
  {
    if rs != [] {
      var init, last := rs[..|rs| - 1], rs[|rs| - 1];
      IdealBounds(c, start, init, key);
      if last.key == key {
        var b := Ideal(c, init, key);
        if b.Some? {
          InflowMonotone(c, 0, last.at - b.value.last);
          assert Inflow(c, 0) == 0.0;
        }
        assert rs[|rs| - 1].at == Ideal(c, rs, key).value.last;
      } else if Ideal(c, init, key).Some? {
        var i :| 0 <= i < |init| && init[i].key == key && init[i].at == Ideal(c, init, key).value.last;
        assert rs[i] == init[i];
      }
    }
  }

  // ---- eviction ----

  /** The buckets kept are the ideal ones; a bucket that is missing had been idle for a sweep interval. */
  ghost predicate Agrees(c: Config, rs: seq<Request>, s: State)
    requires c.rate > 0.0
  {
    forall k :: (k in s.buckets ==> Ideal(c, rs, k) == Some(s.buckets[k])) &&
                (k !in s.buckets ==> match Ideal(c, rs, k) case None => true case Some(b) => s.lastSweep - b.last >= SWEEP_INTERVAL)
  }

  /** A bucket idle for a sweep interval refills to the burst. */
  lemma IdleIsFull(c: Config, b: Bucket, now: int)
    requires Usable(c) && c.burst <= 600.0 * c.rate && b.tokens >= 0.0 && now - b.last >= SWEEP_INTERVAL
    ensures Refill(c, b, now) == Ready(c, None, now)
  {
    InflowMonotone(c, SWEEP_INTERVAL, now - b.last);
    assert Inflow(c, SWEEP_INTERVAL) == 600.0 * c.rate;
  }

  lemma {:induction false} RunAgrees(c: Config, start: int, rs: seq<Request>)
    requires Usable(c) && c.burst <= 600.0 * c.rate && Ordered(start, rs)
    ensures Agrees(c, rs, After(c, start, rs))
    ensures start <= After(c, start, rs).lastSweep
    ensures rs != [] ==> After(c, start, rs).lastSweep <= rs[|rs| - 1].at
    ensures rs == [] ==> After(c, start, rs).lastSweep == start
    ensures rs != [] ==> Decide(c, start, rs) == IdealDecision(c, rs)
  {
    if rs != [] {
      var init, last := rs[..|rs| - 1], rs[|rs| - 1];
      RunAgrees(c, start, init);
      var s0 := After(c, start, init);
      var s := Sweep(s0, last.at);
      assert Agrees(c, init, s);
      IdealBounds(c, start, init, last.key);
      if last.key !in s.buckets && Ideal(c, init, last.key).Some? {
        IdleIsFull(c, Ideal(c, init, last.key).value, last.at);
      }
    }
  }

  /** Eviction is invisible: every decision is the one of a limiter that never sweeps. */
  lemma EvictionIsInvisible(c: Config, start: int, rs: seq<Request>)
    requires Usable(c) && c.burst <= 600.0 * c.rate && Ordered(start, rs) && rs != []
    ensures Decide(c, start, rs) == DecideUnswept(c, rs)
  {
    RunAgrees(c, start, rs);
    UnsweptIsIdeal(c, rs[..|rs| - 1], rs[|rs| - 1].key);
  }

  // ---- a burst that eviction refills too early ----

  /** `n` requests at `t` and then `m` a sweep interval later. */
  function Bursts(key: Key, t: int, n: nat, m: nat): (rs: seq<Request>)
    ensures |rs| == n + m
    ensures forall i :: 0 <= i < |rs| ==> rs[i] == Request(key, if i < n then t else t + SWEEP_INTERVAL)
  {
    seq(n + m, i => Request(key, if i < n then t else t + SWEEP_INTERVAL))
  }

  lemma BurstsInit(key: Key, t: int, n: nat, m: nat)
    requires n + m > 0
    ensures Bursts(key, t, n, m)[..n + m - 1] == if m > 0 then Bursts(key, t, n, m - 1) else Bursts(key, t, n - 1, 0)
  {
  }

  /** One more request at the time of the last one. */
  lemma AgainAt(c: Config, key: Key, x: real, t: int, swept: int)
    requires Usable(c) && 1.0 <= x <= c.burst && t - swept < SWEEP_INTERVAL
    ensures Allow(c, State(map[key := Bucket(x, t)], swept), Request(key, t)) ==
      (State(map[key := Bucket(x - 1.0, t)], swept), Allowed)
  {
    assert Inflow(c, 0) == 0.0;
    assert map[key := Bucket(x, t)][key := Bucket(x - 1.0, t)] == map[key := Bucket(x - 1.0, t)];
  }

  /** A request that finds its bucket idle for a sweep interval, or no bucket. */
  lemma AfterSweep(c: Config, key: Key, s: State, now: int)
    requires Usable(c) && Sweep(s, now).buckets == map[]
    ensures Allow(c, s, Request(key, now)) == (State(map[key := Bucket(c.burst - 1.0, now)], Sweep(s, now).lastSweep), Allowed)
  {
    assert map[][key := Bucket(c.burst - 1.0, now)] == map[key := Bucket(c.burst - 1.0, now)];
  }

  lemma {:induction false} SweptBursts(c: Config, start: int, key: Key, t: int, n: nat, m: nat)
    requires Usable(c) && n as real <= c.burst && m as real <= c.burst && n > 0 && start <= t < start + SWEEP_INTERVAL
    ensures After(c, start, Bursts(key, t, n, m)) ==
      if m == 0 then State(map[key := Bucket(c.burst - n as real, t)], start)
      else State(map[key := Bucket(c.burst - m as real, t + SWEEP_INTERVAL)], t + SWEEP_INTERVAL)
    ensures Decide(c, start, Bursts(key, t, n, m)) == Allowed
    decreases n + m
  {
    hide Allow, Sweep;
    BurstsInit(key, t, n, m);
    if m > 1 {
      SweptBursts(c, start, key, t, n, m - 1);
      AgainAt(c, key, c.burst - (m - 1) as real, t + SWEEP_INTERVAL, t + SWEEP_INTERVAL);
    } else if m == 1 {
      SweptBursts(c, start, key, t, n, 0);
      SweptAway(key, c.burst - n as real, t, start);
      AfterSweep(c, key, State(map[key := Bucket(c.burst - n as real, t)], start), t + SWEEP_INTERVAL);
    } else if n > 1 {
      SweptBursts(c, start, key, t, n - 1, 0);
      AgainAt(c, key, c.burst - (n - 1) as real, t, start);
    } else {
      assert Bursts(key, t, 0, 0) == [];
      assert Sweep(State(map[], start), t) == State(map[], start) by { NotYet(start, t); }
      AfterSweep(c, key, State(map[], start), t);
    }
  }

  lemma SweptAway(key: Key, x: real, t: int, swept: int)
    requires swept <= t
    ensures Sweep(State(map[key := Bucket(x, t)], swept), t + SWEEP_INTERVAL) == State(map[], t + SWEEP_INTERVAL)
  {
    assert Swept(map[key := Bucket(x, t)], t + SWEEP_INTERVAL) == map[];
  }

  lemma NotYet(swept: int, t: int)
    requires t < swept + SWEEP_INTERVAL
    ensures Sweep(State(map[], swept), t) == State(map[], swept)
  {
  }

  /** An allowed request takes one token of what is there. */
  lemma TakenOne(c: Config, x: real, last: int, now: int, y: real)
    requires Usable(c) && y == x + Inflow(c, now - last) && y <= c.burst
    requires Serve(c, Some(Bucket(x, last)), now).1 == Allowed
    ensures Serve(c, Some(Bucket(x, last)), now).0 == Bucket(y - 1.0, now)
  {
  }

  /** Without eviction: as long as nothing was denied, the tokens go down by one for each request. */
  lemma {:induction false} UnsweptBursts(c: Config, key: Key, t: int, n: nat, m: nat)
    requires Usable(c) && n as real <= c.burst && n > 0 && c.burst > 600.0 * c.rate && n as real == c.burst
    requires forall k :: 0 < k <= m ==> IdealDecision(c, Bursts(key, t, n, k)) == Allowed
    ensures Ideal(c, Bursts(key, t, n, m), key) ==
      if m == 0 then Some(Bucket(0.0, t)) else Some(Bucket(600.0 * c.rate - m as real, t + SWEEP_INTERVAL))
  {
    hide Serve;
    if m > 0 {
      UnsweptBursts(c, key, t, n, m - 1);
      BurstsInit(key, t, n, m);
      assert Inflow(c, 0) == 0.0 && Inflow(c, SWEEP_INTERVAL) == 600.0 * c.rate;
      assert IdealDecision(c, Bursts(key, t, n, m)) == Allowed;
      var now := t + SWEEP_INTERVAL;
      if m == 1 {
        TakenOne(c, 0.0, t, now, 600.0 * c.rate);
      } else {
        TakenOne(c, 600.0 * c.rate - (m - 1) as real, now, now, 600.0 * c.rate - (m - 1) as real);
      }
    } else {
      FirstBurst(c, key, t, n);
    }
  }

  lemma {:induction false} FirstBurst(c: Config, key: Key, t: int, n: nat)
    requires Usable(c) && n as real <= c.burst && n > 0
    ensures Ideal(c, Bursts(key, t, n, 0), key) == Some(Bucket(c.burst - n as real, t))
  {
    BurstsInit(key, t, n, 0);
    assert Inflow(c, 0) == 0.0;
    if n > 1 { FirstBurst(c, key, t, n - 1); } else { assert Bursts(key, t, 0, 0) == []; }
  }

  /** With a burst that takes longer to refill, some run shows the eviction. */
  lemma EvictionShows(c: Config, n: nat, start: int)
    requires Usable(c) && c.burst == n as real && c.burst > 600.0 * c.rate
    ensures exists rs :: Ordered(start, rs) && rs != [] && Decide(c, start, rs) != DecideUnswept(c, rs)
  {
    hide Decide, Serve;
    if k: nat :| 0 < k <= n && IdealDecision(c, Bursts("k", start, n, k)) != Allowed {
      var rs := Bursts("k", start, n, k);
      SweptBursts(c, start, "k", start, n, k);
      UnsweptIsIdeal(c, rs[..|rs| - 1], "k");
      assert Ordered(start, rs) && Decide(c, start, rs) != DecideUnswept(c, rs);
    } else {
      assert Ordered(start, Bursts("k", start, n, n));
      UnsweptBursts(c, "k", start, n, n);
      IdealBounds(c, start, Bursts("k", start, n, n), "k");
    }
  }

  /** Eviction is invisible on every run exactly when a bucket refills within a sweep interval. */
  lemma EvictionInvisibleExactlyWhen(c: Config, n: nat, start: int)
    requires Usable(c) && c.burst == n as real
    ensures (forall rs :: Ordered(start, rs) && rs != [] ==> Decide(c, start, rs) == DecideUnswept(c, rs))
      <==> c.burst <= 600.0 * c.rate
  {
    if c.burst <= 600.0 * c.rate {
      forall rs | Ordered(start, rs) && rs != []
        ensures Decide(c, start, rs) == DecideUnswept(c, rs)
      {
        EvictionIsInvisible(c, start, rs);
      }
    } else {
      EvictionShows(c, n, start);
    }
  }

  /** The requests of one key. */
  function OnlyKey(rs: seq<Request>, key: Key): seq<Request> {
    if rs == [] then []
    else
      var init, last := OnlyKey(rs[..|rs| - 1], key), rs[|rs| - 1];
      if last.key == key then init + [last] else init
  }

  lemma {:induction false} OnlyKeySelects(rs: seq<Request>, key: Key, x: Request)
    ensures x in OnlyKey(rs, key) <==> x in rs && x.key == key
  {
    if rs != [] {
      var init, last := rs[..|rs| - 1], rs[|rs| - 1];
      assert rs == init + [last];
      OnlyKeySelects(init, key, x);
    }
  }

  lemma {:induction false} OnlyKeyOrdered(start: int, rs: seq<Request>, key: Key)
    requires Ordered(start, rs)
    ensures Ordered(start, OnlyKey(rs, key))
  {
    if rs != [] {
      var init, last := rs[..|rs| - 1], rs[|rs| - 1];
      OnlyKeyOrdered(start, init, key);
      var xs := OnlyKey(init, key);
      forall i | 0 <= i < |xs|
        ensures xs[i].at <= last.at
      {
        OnlyKeySelects(init, key, xs[i]);
        var k :| 0 <= k < |init| && init[k] == xs[i];
        assert rs[k] == xs[i];
      }
    }
  }

  lemma {:induction false} IdealIsLocal(c: Config, rs: seq<Request>, key: Key)
    requires c.rate > 0.0
    ensures Ideal(c, rs, key) == Ideal(c, OnlyKey(rs, key), key)
  {
    if rs != [] {
      var init, last := rs[..|rs| - 1], rs[|rs| - 1];
      IdealIsLocal(c, init, key);
      if last.key == key {
        var xs := OnlyKey(init, key) + [last];
        assert xs[..|xs| - 1] == OnlyKey(init, key);
      }
    }
  }

  /** Keys are isolated although all share one sweep clock: the decision for a request is the one of a
      limiter that only ever saw the requests of that key. */
  lemma KeysAreIsolated(c: Config, start: int, rs: seq<Request>)
    requires Usable(c) && c.burst <= 600.0 * c.rate && Ordered(start, rs) && rs != []
    ensures var mine := OnlyKey(rs, rs[|rs| - 1].key);
      mine != [] && Decide(c, start, rs) == Decide(c, start, mine)
  {
    var init, last := rs[..|rs| - 1], rs[|rs| - 1];
    var mine := OnlyKey(rs, last.key);
    assert mine[..|mine| - 1] == OnlyKey(init, last.key);
    OnlyKeyOrdered(start, rs, last.key);
    RunAgrees(c, start, rs);
    RunAgrees(c, start, mine);
    IdealIsLocal(c, init, last.key);
  }

  // ---- a request of another key that moves the sweep ----

  /** The decision for the last request is that of the run without the other keys. */
  ghost predicate Isolated(c: Config, start: int, rs: seq<Request>)
    requires c.rate > 0.0 && rs != []
  {
    var mine := OnlyKey(rs, rs[|rs| - 1].key);
    mine != [] && Decide(c, start, rs) == Decide(c, start, mine)
  }

  /** `Bursts` of the key "a" with a request of the key "b" right after the first burst. */
  function Interrupted(t: int, n: nat, m: nat): (rs: seq<Request>)
    ensures |rs| == n + 1 + m
  {
    Bursts("a", t, n, 0) + [Request("b", t + 1)] + seq(m, i => Request("a", t + SWEEP_INTERVAL))
  }

  lemma InterruptedInit(t: int, n: nat, m: nat)
    ensures m == 0 ==> Interrupted(t, n, m) == Bursts("a", t, n, 0) + [Request("b", t + 1)]
    ensures m > 0 ==> Interrupted(t, n, m) == Interrupted(t, n, m - 1) + [Request("a", t + SWEEP_INTERVAL)]
  {
    if m > 0 {
      assert seq(m, i => Request("a", t + SWEEP_INTERVAL)) == seq(m - 1, i => Request("a", t + SWEEP_INTERVAL)) + [Request("a", t + SWEEP_INTERVAL)];
    }
  }

  lemma InterruptedOrdered(start: int, t: int, n: nat, m: nat)
    requires start <= t
    ensures Ordered(start, Interrupted(t, n, m))
  {
  }

  lemma OnlyKeyLast(rs: seq<Request>, r: Request, key: Key)
    ensures OnlyKey(rs + [r], key) == OnlyKey(rs, key) + (if r.key == key then [r] else [])
  {
    assert (rs + [r])[..|rs|] == rs;
  }

  lemma {:induction false} OnlyKeyBursts(t: int, n: nat, m: nat)
    ensures OnlyKey(Interrupted(t, n, m), "a") == Bursts("a", t, n, m)
  {
    InterruptedInit(t, n, m);
    if m > 0 {
      OnlyKeyBursts(t, n, m - 1);
      OnlyKeyLast(Interrupted(t, n, m - 1), Request("a", t + SWEEP_INTERVAL), "a");
      assert Bursts("a", t, n, m) == Bursts("a", t, n, m - 1) + [Request("a", t + SWEEP_INTERVAL)];
    } else {
      OnlyKeyLast(Bursts("a", t, n, 0), Request("b", t + 1), "a");
      OnlyOneKey(t, n);
    }
  }

  lemma {:induction false} OnlyOneKey(t: int, n: nat)
    ensures OnlyKey(Bursts("a", t, n, 0), "a") == Bursts("a", t, n, 0)
  {
    if n > 0 {
      OnlyOneKey(t, n - 1);
      OnlyKeyLast(Bursts("a", t, n - 1, 0), Request("a", t), "a");
      assert Bursts("a", t, n, 0) == Bursts("a", t, n - 1, 0) + [Request("a", t)];
    }
  }

  /** A request between sweeps, on a bucket that does not fill up. */
  lemma OneRequest(c: Config, s: State, r: Request, y: real)
    requires Usable(c) && r.at - s.lastSweep < SWEEP_INTERVAL && r.key in s.buckets
    requires y == s.buckets[r.key].tokens + Inflow(c, r.at - s.buckets[r.key].last) <= c.burst
    ensures y >= 1.0 ==> Allow(c, s, r) == (s.(buckets := s.buckets[r.key := Bucket(y - 1.0, r.at)]), Allowed)
    ensures y < 1.0 ==> Allow(c, s, r).1.Denied?
  {
  }

  lemma OneMore(c: Config, start: int, rs: seq<Request>, r: Request)
    requires Usable(c)
    ensures After(c, start, rs + [r]) == Allow(c, After(c, start, rs), r).0
    ensures Decide(c, start, rs + [r]) == Allow(c, After(c, start, rs), r).1
  {
    hide Allow;
    assert (rs + [r])[..|rs|] == rs;
  }

  /** The request of the other key sweeps before the first bucket is idle long enough. */
  lemma SweepsTooSoon(c: Config, t: int)
    requires Usable(c)
    ensures Allow(c, State(map["a" := Bucket(0.0, t)], t + 1 - SWEEP_INTERVAL), Request("b", t + 1)).0 ==
      State(map["a" := Bucket(0.0, t), "b" := Bucket(c.burst - 1.0, t + 1)], t + 1)
  {
    var m := map["a" := Bucket(0.0, t)];
    assert Swept(m, t + 1) == m;
    assert m["b" := Bucket(c.burst - 1.0, t + 1)] == map["a" := Bucket(0.0, t), "b" := Bucket(c.burst - 1.0, t + 1)];
  }

  /** So the second burst meets a bucket that is not full. */
  lemma {:induction false} InterruptedAfter(c: Config, t: int, n: nat, m: nat)
    requires Usable(c) && c.burst == n as real && m as real <= 600.0 * c.rate < c.burst
    ensures After(c, t + 1 - SWEEP_INTERVAL, Interrupted(t, n, m)) ==
      State(map["a" := if m == 0 then Bucket(0.0, t) else Bucket(600.0 * c.rate - m as real, t + SWEEP_INTERVAL),
                "b" := Bucket(c.burst - 1.0, t + 1)], t + 1)
  {
    hide Allow, After, Inflow;
    var start, now := t + 1 - SWEEP_INTERVAL, t + SWEEP_INTERVAL;
    InterruptedInit(t, n, m);
    if m == 0 {
      SweptBursts(c, start, "a", t, n, 0);
      OneMore(c, start, Bursts("a", t, n, 0), Request("b", t + 1));
      SweepsTooSoon(c, t);
    } else {
      InterruptedAfter(c, t, n, m - 1);
      OneMore(c, start, Interrupted(t, n, m - 1), Request("a", now));
      InflowOfSweep(c);
      var s := After(c, start, Interrupted(t, n, m - 1));
      OneRequest(c, s, Request("a", now), 600.0 * c.rate - (m - 1) as real);
      assert s.buckets["a" := Bucket(600.0 * c.rate - m as real, now)] ==
        map["a" := Bucket(600.0 * c.rate - m as real, now), "b" := Bucket(c.burst - 1.0, t + 1)];
    }
  }

  /** Keys are isolated on every run if and only if a bucket refills within a sweep interval. */
  lemma KeysAreIsolatedExactlyWhen(c: Config, n: nat, start: int)
    requires Usable(c) && c.burst == n as real
    ensures (forall rs :: Ordered(start, rs) && rs != [] ==> Isolated(c, start, rs)) <==> c.burst <= 600.0 * c.rate
  {
    if c.burst <= 600.0 * c.rate {
      forall rs | Ordered(start, rs) && rs != []
        ensures Isolated(c, start, rs)
      {
        KeysAreIsolated(c, start, rs);
      }
    } else {
      InterruptedNotIsolated(c, n, start, start + SWEEP_INTERVAL - 1);
    }
  }

  lemma InterruptedNotIsolated(c: Config, n: nat, start: int, t: int)
    requires Usable(c) && c.burst == n as real > 600.0 * c.rate && t == start + SWEEP_INTERVAL - 1
    ensures exists rs :: Ordered(start, rs) && rs != [] && !Isolated(c, start, rs)
  {
    hide Allow, After, Decide, Inflow, Interrupted, Bursts, OnlyKey, Ordered;
    var m := (600.0 * c.rate).Floor;
    FloorBelow(600.0 * c.rate, n);
    var init, last := Interrupted(t, n, m), Request("a", t + SWEEP_INTERVAL);
    InterruptedAfter(c, t, n, m);
    InterruptedInit(t, n, m + 1);
    OneMore(c, start, init, last);
    InflowOfSweep(c);
    var s, y := After(c, start, init), 600.0 * c.rate - m as real;
    assert y == s.buckets["a"].tokens + Inflow(c, last.at - s.buckets["a"].last) by {
      if m == 0 {
        assert s.buckets["a"] == Bucket(0.0, t) && last.at - t == SWEEP_INTERVAL;
      } else {
        assert s.buckets["a"] == Bucket(y, last.at) && last.at - last.at == 0;
      }
    }
    OneRequest(c, s, last, y);
    OnlyKeyBursts(t, n, m + 1);
    SweptBursts(c, start, "a", t, n, m + 1);
    InterruptedOrdered(start, t, n, m + 1);
    var rs := init + [last];
    assert rs[|rs| - 1] == last;
    assert Ordered(start, rs) && !Isolated(c, start, rs);
  }

  lemma FloorBelow(x: real, n: nat)
    requires 0.0 <= x < n as real
    ensures 0 <= x.Floor && (x.Floor + 1) as real <= n as real
  {
    assert x.Floor < n;
  }

  lemma InflowOfSweep(c: Config)
    ensures Inflow(c, SWEEP_INTERVAL) == 600.0 * c.rate && Inflow(c, 0) == 0.0
  {}

  // ---- the policy ----

  /** How many requests of `key` from the `j`-th on were allowed. */
  function AllowedSince(c: Config, rs: seq<Request>, j: nat, key: Key): nat
    requires c.rate > 0.0
  {
    if |rs| <= j then 0
    else
      AllowedSince(c, rs[..|rs| - 1], j, key) +
      (if rs[|rs| - 1].key == key && IdealDecision(c, rs) == Allowed then 1 else 0)
  }

  /** The tokens the window from request `j` on leaves at time `now`. */
  function Room(c: Config, rs: seq<Request>, j: nat, now: int, key: Key): real
    requires c.rate > 0.0 && j < |rs|
  {
    c.burst + Inflow(c, now - rs[j].at) - AllowedSince(c, rs, j, key) as real
  }

  /** A bucket holds what the tightest window of its key leaves. */
  ghost predicate Tightest(c: Config, rs: seq<Request>, key: Key, now: int, tokens: real)
    requires c.rate > 0.0
  {
    && (forall j :: 0 <= j < |rs| && rs[j].key == key ==> tokens <= Room(c, rs, j, now, key))
    && (exists j :: 0 <= j < |rs| && rs[j].key == key && tokens == Room(c, rs, j, now, key))
  }

  lemma RoomLater(c: Config, rs: seq<Request>, j: nat, now: int, later: int, key: Key)
    requires c.rate > 0.0 && j < |rs|
    ensures Room(c, rs, j, later, key) == Room(c, rs, j, now, key) + Inflow(c, later - now)
  {
    InflowAdds(c, now - rs[j].at, later - now);
  }

  /** The room one request further on. */
  lemma RoomStep(c: Config, rs: seq<Request>, j: nat, now: int, key: Key)
    requires c.rate > 0.0 && rs != [] && j < |rs| - 1
    ensures Room(c, rs, j, now, key) == Room(c, rs[..|rs| - 1], j, now, key) - (if rs[|rs| - 1].key == key then Taken(c, rs) else 0.0)
  {
  }

  lemma {:induction false} IdealIsTightest(c: Config, start: int, rs: seq<Request>, key: Key)
    requires Usable(c) && Ordered(start, rs) && Ideal(c, rs, key).Some?
    ensures var b := Ideal(c, rs, key).value; Tightest(c, rs, key, b.last, b.tokens)
  {
    var init, last := rs[..|rs| - 1], rs[|rs| - 1];
    var b := Ideal(c, rs, key).value;
    IdealBounds(c, start, init, key);
    if Ideal(c, init, key).Some? { IdealIsTightest(c, start, init, key); }
    if last.key != key {
      KeepTightest(c, rs, key, b.last, b.tokens);
    } else {
      ReadyIsTightest(c, start, rs);
    }
  }

  lemma KeepTightest(c: Config, rs: seq<Request>, key: Key, now: int, tokens: real)
    requires Usable(c) && rs != [] && rs[|rs| - 1].key != key && Tightest(c, rs[..|rs| - 1], key, now, tokens)
    ensures Tightest(c, rs, key, now, tokens)
  {
    var init := rs[..|rs| - 1];
    forall j | 0 <= j < |rs| && rs[j].key == key ensures tokens <= Room(c, rs, j, now, key) {
      assert init[j] == rs[j];
      RoomStep(c, rs, j, now, key);
    }
    var j :| 0 <= j < |init| && init[j].key == key && tokens == Room(c, init, j, now, key);
    RoomStep(c, rs, j, now, key);
    assert rs[j].key == key;
  }

  /** The room a request finds, its own empty window included. */
  ghost predicate Found(c: Config, rs: seq<Request>, tokens: real)
    requires c.rate > 0.0 && rs != []
  {
    var init, last := rs[..|rs| - 1], rs[|rs| - 1];
    && tokens <= c.burst
    && (forall j :: 0 <= j < |init| && init[j].key == last.key ==> tokens <= Room(c, init, j, last.at, last.key))
    && (tokens == c.burst || exists j :: 0 <= j < |init| && init[j].key == last.key && tokens == Room(c, init, j, last.at, last.key))
  }

  lemma ReadyIsFound(c: Config, start: int, rs: seq<Request>)
    requires Usable(c) && Ordered(start, rs) && rs != []
    requires var init, key := rs[..|rs| - 1], rs[|rs| - 1].key;
      Ideal(c, init, key).Some? ==> Tightest(c, init, key, Ideal(c, init, key).value.last, Ideal(c, init, key).value.tokens)
    ensures var init, last := rs[..|rs| - 1], rs[|rs| - 1];
      Found(c, rs, Ready(c, Ideal(c, init, last.key), last.at).tokens)
  {
    hide Inflow, AllowedSince;
    var init, last := rs[..|rs| - 1], rs[|rs| - 1];
    IdealBounds(c, start, init, last.key);
    match Ideal(c, init, last.key)
    case None =>
    case Some(b) =>
      forall j | 0 <= j < |init| && init[j].key == last.key
        ensures Room(c, init, j, last.at, last.key) == Room(c, init, j, b.last, last.key) + Inflow(c, last.at - b.last)
      {
        RoomLater(c, init, j, b.last, last.at, last.key);
      }
  }

  /** What the last request takes from the room it finds. */
  function Taken(c: Config, rs: seq<Request>): real
    requires c.rate > 0.0 && rs != []
  {
    if IdealDecision(c, rs) == Allowed then 1.0 else 0.0
  }

  lemma TakenFromReady(c: Config, rs: seq<Request>)
    requires c.rate > 0.0 && rs != []
    ensures var init, last := rs[..|rs| - 1], rs[|rs| - 1];
      && Ideal(c, rs, last.key).Some?
      && Ideal(c, rs, last.key).value.tokens == Ready(c, Ideal(c, init, last.key), last.at).tokens - Taken(c, rs)
  {
    hide Ready, Wait;
  }

  lemma ReadyIsTightest(c: Config, start: int, rs: seq<Request>)
    requires Usable(c) && Ordered(start, rs) && rs != []
    requires var init, key := rs[..|rs| - 1], rs[|rs| - 1].key;
      Ideal(c, init, key).Some? ==> Tightest(c, init, key, Ideal(c, init, key).value.last, Ideal(c, init, key).value.tokens)
    ensures var last := rs[|rs| - 1];
      Ideal(c, rs, last.key).Some? && Tightest(c, rs, last.key, last.at, Ideal(c, rs, last.key).value.tokens)
  {
    hide Ideal, Found, Tightest, Ready, Taken;
    ReadyIsFound(c, start, rs);
    TakenFromReady(c, rs);
    FoundIsTightest(c, rs, Ready(c, Ideal(c, rs[..|rs| - 1], rs[|rs| - 1].key), rs[|rs| - 1].at).tokens);
  }

  lemma FoundIsTightest(c: Config, rs: seq<Request>, tokens: real)
    requires Usable(c) && rs != [] && Found(c, rs, tokens)
    ensures Tightest(c, rs, rs[|rs| - 1].key, rs[|rs| - 1].at, tokens - Taken(c, rs))
  {
    hide Room, IdealDecision;
    var init, last := rs[..|rs| - 1], rs[|rs| - 1];
    OwnWindow(c, rs);
    forall j | 0 <= j < |rs| && rs[j].key == last.key
      ensures tokens - Taken(c, rs) <= Room(c, rs, j, last.at, last.key)
    {
      if j < |init| { assert init[j] == rs[j]; RoomStep(c, rs, j, last.at, last.key); }
    }
    if tokens == c.burst {
      assert rs[|rs| - 1].key == last.key;
    } else {
      var j :| 0 <= j < |init| && init[j].key == last.key && tokens == Room(c, init, j, last.at, last.key);
      RoomStep(c, rs, j, last.at, last.key);
      assert rs[j].key == last.key;
    }
  }

  /** The window that starts with the last request. */
  lemma OwnWindow(c: Config, rs: seq<Request>)
    requires c.rate > 0.0 && rs != []
    ensures var last := rs[|rs| - 1];
      Room(c, rs, |rs| - 1, last.at, last.key) == c.burst - Taken(c, rs)
  {
    assert AllowedSince(c, rs[..|rs| - 1], |rs| - 1, rs[|rs| - 1].key) == 0;
  }

  /** How many requests of `key` from the `j`-th on the limiter allowed. */
  function Granted(c: Config, start: int, rs: seq<Request>, j: nat, key: Key): nat
    requires c.rate > 0.0
  {
    if |rs| <= j then 0
    else
      Granted(c, start, rs[..|rs| - 1], j, key) +
      (if rs[|rs| - 1].key == key && Decide(c, start, rs) == Allowed then 1 else 0)
  }

  lemma {:induction false} GrantedIsAllowed(c: Config, start: int, rs: seq<Request>, j: nat, key: Key)
    requires Usable(c) && c.burst <= 600.0 * c.rate && Ordered(start, rs)
    ensures Granted(c, start, rs, j, key) == AllowedSince(c, rs, j, key)
  {
    if |rs| > j {
      RunAgrees(c, start, rs);
      GrantedIsAllowed(c, start, rs[..|rs| - 1], j, key);
    }
  }

  /** The limiter is the most permissive policy for its bound: a request is allowed exactly when every
      window of its key that ends with it still has room for it, that is, when the requests allowed since
      any earlier one plus this one are at most the burst plus the inflow since. */
  lemma ExactPolicy(c: Config, start: int, rs: seq<Request>)
    requires Usable(c) && Ordered(start, rs) && rs != [] && c.burst <= 600.0 * c.rate
    ensures var init, last := rs[..|rs| - 1], rs[|rs| - 1];
      Decide(c, start, rs) == Allowed <==>
      forall j :: 0 <= j < |init| && init[j].key == last.key ==>
        Granted(c, start, init, j, last.key) as real + 1.0 <= c.burst + Inflow(c, last.at - init[j].at)
  {
    hide Inflow, Decide, Granted, AllowedSince, IdealDecision, Ready, Room, Ideal;
    var init, last := rs[..|rs| - 1], rs[|rs| - 1];
    RunAgrees(c, start, rs);
    TokensDecide(c, rs);
    IdealBounds(c, start, init, last.key);
    if Ideal(c, init, last.key).Some? { IdealIsTightest(c, start, init, last.key); }
    ReadyIsFound(c, start, rs);
    var tokens := Ready(c, Ideal(c, init, last.key), last.at).tokens;
    forall j | 0 <= j < |init|
      ensures Room(c, init, j, last.at, last.key) ==
        c.burst + Inflow(c, last.at - init[j].at) - Granted(c, start, init, j, last.key) as real
    {
      RoomGranted(c, start, init, j, last.at, last.key);
    }
    AllowedIffRoom(c, rs, tokens);
  }

  lemma RoomGranted(c: Config, start: int, rs: seq<Request>, j: nat, now: int, key: Key)
    requires Usable(c) && c.burst <= 600.0 * c.rate && Ordered(start, rs) && j < |rs|
    ensures Room(c, rs, j, now, key) == c.burst + Inflow(c, now - rs[j].at) - Granted(c, start, rs, j, key) as real
  {
    GrantedIsAllowed(c, start, rs, j, key);
  }

  lemma TokensDecide(c: Config, rs: seq<Request>)
    requires Usable(c) && rs != []
    ensures var init, last := rs[..|rs| - 1], rs[|rs| - 1];
      IdealDecision(c, rs) == Allowed <==> Ready(c, Ideal(c, init, last.key), last.at).tokens >= 1.0
  {
  }

  lemma AllowedIffRoom(c: Config, rs: seq<Request>, tokens: real)
    requires Usable(c) && rs != [] && Found(c, rs, tokens)
    ensures var init, last := rs[..|rs| - 1], rs[|rs| - 1];
      tokens >= 1.0 <==> forall j :: 0 <= j < |init| && init[j].key == last.key ==> Room(c, init, j, last.at, last.key) >= 1.0
  {
    hide Room;
  }

  /** No window ever holds more than the burst plus its inflow. */
  lemma {:induction false} WindowBound(c: Config, start: int, rs: seq<Request>, j: nat)
    requires Usable(c) && Ordered(start, rs) && j < |rs| && c.burst <= 600.0 * c.rate
    ensures Granted(c, start, rs, j, rs[j].key) as real <= c.burst + Inflow(c, rs[|rs| - 1].at - rs[j].at)
  {
    GrantedIsAllowed(c, start, rs, j, rs[j].key);
    IdealBounds(c, start, rs, rs[j].key);
    IdealIsTightest(c, start, rs, rs[j].key);
    var b := Ideal(c, rs, rs[j].key).value;
    assert b.tokens <= Room(c, rs, j, b.last, rs[j].key);
    var i :| 0 <= i < |rs| && rs[i].key == rs[j].key && rs[i].at == b.last;
    InflowMonotone(c, b.last - rs[j].at, rs[|rs| - 1].at - rs[j].at);
  }

  /** The policy for the last request of a run, as `ExactPolicy` states it. */
  ghost predicate FollowsPolicy(c: Config, start: int, rs: seq<Request>)
    requires c.rate > 0.0 && rs != []
  {
    var init, last := rs[..|rs| - 1], rs[|rs| - 1];
    Decide(c, start, rs) == Allowed <==> forall j :: 0 <= j < |init| && init[j].key == last.key ==> HasRoom(c, start, rs, j)
  }

  ghost predicate HasRoom(c: Config, start: int, rs: seq<Request>, j: nat)
    requires c.rate > 0.0 && j < |rs|
  {
    var init, last := rs[..|rs| - 1], rs[|rs| - 1];
    Granted(c, start, init, j, last.key) as real + 1.0 <= c.burst + Inflow(c, last.at - rs[j].at)
  }

  ghost predicate StaysBounded(c: Config, start: int, rs: seq<Request>, j: nat)
    requires c.rate > 0.0 && j < |rs|
  {
    Granted(c, start, rs, j, rs[j].key) as real <= c.burst + Inflow(c, rs[|rs| - 1].at - rs[j].at)
  }

  lemma {:induction false} BurstsGranted(c: Config, key: Key, t: int, n: nat, m: nat)
    requires Usable(c) && n as real <= c.burst && m as real <= c.burst && n > 0
    ensures Granted(c, t, Bursts(key, t, n, m), 0, key) == n + m
    decreases n + m
  {
    hide Decide, Allow;
    BurstsInit(key, t, n, m);
    SweptBursts(c, t, key, t, n, m);
    if m > 0 {
      BurstsGranted(c, key, t, n, m - 1);
    } else if n > 1 {
      BurstsGranted(c, key, t, n - 1, 0);
    } else {
      assert Bursts(key, t, 0, 0) == [];
    }
  }

  /** The policy is exact on every run, and the bound holds for every window, if and only if a bucket
      refills within a sweep interval. */
  lemma PolicyIsExactExactlyWhen(c: Config, n: nat, start: int)
    requires Usable(c) && c.burst == n as real
    ensures (forall rs :: Ordered(start, rs) && rs != [] ==> FollowsPolicy(c, start, rs)) <==> c.burst <= 600.0 * c.rate
    ensures (forall rs, j: nat :: Ordered(start, rs) && j < |rs| ==> StaysBounded(c, start, rs, j)) <==> c.burst <= 600.0 * c.rate
  {
    hide Decide, Granted, Inflow;
    if c.burst <= 600.0 * c.rate {
      forall rs | Ordered(start, rs) && rs != []
        ensures FollowsPolicy(c, start, rs)
      {
        ExactPolicy(c, start, rs);
      }
      forall rs, j: nat | Ordered(start, rs) && j < |rs|
        ensures StaysBounded(c, start, rs, j)
      {
        WindowBound(c, start, rs, j);
      }
    } else {
      var rs := Bursts("", start, n, n);
      BurstsInit("", start, n, n);
      SweptBursts(c, start, "", start, n, n);
      BurstsGranted(c, "", start, n, n);
      BurstsGranted(c, "", start, n, n - 1);
      assert Inflow(c, SWEEP_INTERVAL) == 600.0 * c.rate by { InflowOfSweep(c); }
      assert Ordered(start, rs) && !StaysBounded(c, start, rs, 0);
      assert !HasRoom(c, start, rs, 0);
      assert !FollowsPolicy(c, start, rs);
    }
  }

  // ---- defaults ----

  function Ceil(x: real): int { -((-x).Floor) }

  /** The burst `RateLimitWithConfig` settles on. */
  function DefaultBurst(rate: real, burst: int): real {
    if burst as real < 1.0 then (if Ceil(rate) as real > 1.0 then Ceil(rate) as real else 1.0) else burst as real
  }

  /** The configured limiter is usable, and the default burst keeps eviction invisible exactly for rates of
      at least one request per sweep interval. */
  lemma DefaultsAreUsable(rate: real, burst: int)
    requires rate > 0.0
    ensures Usable(Config(rate, DefaultBurst(rate, burst)))
    ensures burst < 1 ==> (DefaultBurst(rate, burst) <= 600.0 * rate <==> rate >= 1.0 / 600.0)
    ensures burst >= 1 ==> DefaultBurst(rate, burst) == burst as real
    ensures burst < 1 ==>
      var b, n := DefaultBurst(rate, burst), DefaultBurst(rate, burst).Floor;
      b == n as real && n >= 1 && b >= rate && (n == 1 || b - 1.0 < rate)
  {
    assert burst < 1 ==> DefaultBurst(rate, burst) == (if Ceil(rate) > 1 then Ceil(rate) else 1) as real;
    assert Ceil(rate) as real < rate + 1.0 && Ceil(rate) as real >= rate;
    if rate <= 1.0 { assert Ceil(rate) <= 1; }
  }

  // ---- the limiter as the middleware keeps it ----

  class RateLimiter {
    var buckets: map<Key, Bucket>
    var rate: real
    var burst: real
    var lastSweep: int

    ghost function Settings(): Config
      reads this
    {
      Config(rate, burst)
    }

    ghost function View(): State
      reads this
    {
      State(buckets, lastSweep)
    }

    /** A new limiter with the configured rate and burst; the rate must be positive. */
    constructor (rate: real, burst: int, now: int)
      requires rate > 0.0
      ensures Settings() == Config(rate, DefaultBurst(rate, burst)) && Usable(Settings())
      ensures View() == State(map[], now)
    {
      DefaultsAreUsable(rate, burst);
      this.rate := rate;
      this.burst := DefaultBurst(rate, burst);
      buckets := map[];
      lastSweep := now;
    }

    /** Removes the buckets that have been idle for a sweep interval. */
    method SweepIdle(now: int)
      modifies this`buckets
      ensures buckets == Swept(old(buckets), now)
    {
      var todo := buckets.Keys;
      while todo != {}
        invariant todo <= buckets.Keys
        invariant forall k :: k in buckets ==> k in old(buckets) && buckets[k] == old(buckets)[k]
        invariant forall k :: k in old(buckets) && k !in buckets ==> now - old(buckets)[k].last >= SWEEP_INTERVAL
        invariant forall k :: k in buckets && k !in todo ==> now - buckets[k].last < SWEEP_INTERVAL
        decreases todo
      {
        var k :| k in todo;
        if now - buckets[k].last >= SWEEP_INTERVAL {
          buckets := buckets - {k};
        }
        todo := todo - {k};
      }
    }

    /** The sweep a request starts with, when the last one was a sweep interval ago. */
    method SweepWhenDue(now: int)
      modifies this`buckets, this`lastSweep
      ensures View() == Sweep(old(View()), now)
    {
      if now - lastSweep >= SWEEP_INTERVAL {
        SweepIdle(now);
        lastSweep := now;
      }
    }

    /** Whether a request for `key` is permitted at `now`, and if not how long until a token is there. */
    method AllowRequest(key: Key, now: int) returns (allowed: bool, retry: int)
      requires Usable(Settings())
      modifies this
      ensures Settings() == old(Settings())
      ensures var (s, d) := Allow(old(Settings()), old(View()), Request(key, now));
        View() == s && d == if allowed then Allowed else Denied(retry)
      ensures allowed ==> retry == 0
    {
      SweepWhenDue(now);
      hide Sweep, Swept;
      ghost var found := Lookup(buckets, key);
      var b: Bucket;
      if key !in buckets {
        b := Bucket(burst, now);
      } else {
        b := buckets[key];
        b := b.(tokens := Min(burst, b.tokens + (now - b.last) as real / SECOND as real * rate), last := now);
      }
      assert b == Ready(Settings(), found, now);
      buckets := buckets[key := b];
      if b.tokens < 1.0 {
        retry := ((1.0 - b.tokens) / rate * SECOND as real).Floor;
        return false, retry;
      }
      b := b.(tokens := b.tokens - 1.0);
      buckets := buckets[key := b];
      return true, 0;
    }
  }
}
