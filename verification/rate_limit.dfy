/**
 * The fixed-window rate limiter of views.py: the window arithmetic, the
 * counter key, the shared counter store (Redis) and the `RateLimit` record
 * that one charge produces.
 *
 * Time is the integer `now == int(time.time())`, passed in by the caller.
 * The store is sequential: one charge (INCR then EXPIREAT in one pipeline)
 * is one indivisible step.
 */
module RateLimiting {

  import opened Wrappers
  import opened Decimal

  /** `RateLimit.expiration_window`: seconds a window's counter outlives the window. */
  const EXPIRATION_WINDOW := 10

  /** Python's `a // b`: division rounding toward minus infinity (it raises for `b == 0`). */
  function FloorDiv(a: int, b: int): (q: int)
    requires b != 0
    ensures b > 0 ==> q * b <= a < q * b + b
    ensures b < 0 ==> q * b + b < a <= q * b
  {
    if b > 0 then a / b else (-a) / (-b)
  }

  /** Multiplying by a non-negative number keeps the order. */
  lemma MulMonotone(x: int, y: int, b: int)
    requires x <= y && b >= 0
    ensures x * b <= y * b
  {
    assert y * b - x * b == (y - x) * b;
  }

  /** For a positive divisor the quotient is the only `q` with `q * b <= a < q * b + b`. */
  lemma FloorDivUnique(a: int, b: int, q: int)
    requires b > 0
    requires q * b <= a < q * b + b
    ensures FloorDiv(a, b) == q
  {
    var q0 := FloorDiv(a, b);
    if q0 < q {
      MulMonotone(q0 + 1, q, b);
    } else if q < q0 {
      MulMonotone(q + 1, q0, b);
    }
  }

  /** A multiple of a positive `b` leaves no remainder. */
  lemma MultipleMod(k: int, b: int)
    requires b > 0
    ensures (k * b) % b == 0
  {
    var d, r := (k * b) / b, (k * b) % b;
    assert k * b == d * b + r;
    FloorDivUnique(k * b, b, k);
    assert d == k;
  }

  /**
   * The end of the `per`-second window that contains `now`
   * (`(now // per) * per + per`).
   */
  function WindowReset(now: int, per: int): (reset: int)
    requires per != 0
    ensures per > 0 ==> reset % per == 0 && now < reset <= now + per
  {
    var q := FloorDiv(now, per);
    assert per > 0 ==> (q * per + per) % per == 0 by {
      if per > 0 {
        assert q * per + per == (q + 1) * per;
        MultipleMod(q + 1, per);
      }
    }
    q * per + per
  }

  /** The window end is the one multiple of `per` in `(now, now + per]`. */
  lemma WindowResetUnique(now: int, per: int, reset: int)
    requires per > 0
    requires reset % per == 0 && now < reset <= now + per
    ensures reset == WindowReset(now, per)
  {
    var k := reset / per;
    assert reset == k * per;
    FloorDivUnique(now, per, k - 1);
    assert (k - 1) * per == k * per - per;
  }

  /** Two moments share a window end exactly when they share `now // per`. */
  lemma SameWindowIff(now1: int, now2: int, per: int)
    requires per != 0
    ensures WindowReset(now1, per) == WindowReset(now2, per) <==> FloorDiv(now1, per) == FloorDiv(now2, per)
  {
    var q1, q2 := FloorDiv(now1, per), FloorDiv(now2, per);
    if WindowReset(now1, per) == WindowReset(now2, per) {
      assert (q1 - q2) * per == q1 * per - q2 * per == 0;
    }
  }

  /**
   * For a positive `per`, every moment of the window `[reset - per, reset)` comes
   * before the window end, and so before the counter's expiry.
   */
  lemma ExpiryOutlivesWindow(now: int, later: int, per: int)
    requires per > 0
    requires FloorDiv(later, per) == FloorDiv(now, per)
    ensures later < WindowReset(now, per)
    ensures later < WindowReset(now, per) + EXPIRATION_WINDOW
  {
    SameWindowIff(now, later, per);
  }

  /**
   * For a negative `per` the "window end" lies before `now`, within `-per`
   * seconds of it. So when `per <= -10` the expiry `reset + 10` can already
   * have passed (at `now == 100, per == -60` it is 70): Redis would drop the
   * counter at once, which the sequential store here does not model.
   */
  lemma NegativePerEndsInPast(now: int, per: int)
    requires per < 0
    ensures WindowReset(now, per) < now <= WindowReset(now, per) - per
  {
  }

  /** At `now == 100, per == -60` the window end is 60 and the expiry 70, already past. */
  lemma NegativePerExpiryExample()
    ensures WindowReset(100, -60) == 60
    ensures WindowReset(100, -60) + EXPIRATION_WINDOW <= 100
  {
    assert FloorDiv(100, -60) == -2;
  }

  /** The prefix the `ratelimit` wrapper builds: `'rate-limit/%s/%s/' % (endpoint, client)`. */
  function KeyPrefix(endpoint: string, client: string): (p: string)
    ensures |p| == |endpoint| + |client| + 13
    ensures p[..11] == "rate-limit/" && p[|p| - 1] == '/'
    ensures p[11..11 + |endpoint|] == endpoint && p[11 + |endpoint|] == '/'
    ensures p[12 + |endpoint|..|p| - 1] == client
  {
    "rate-limit/" + endpoint + "/" + client + "/"
  }

  /**
   * `key_prefix + str(reset)`, the key `RateLimit` increments: the prefix,
   * then a decimal suffix that reads back as the window end.
   */
  function CounterKey(keyPrefix: string, reset: int): (k: string)
    ensures |k| > |keyPrefix| && k[..|keyPrefix|] == keyPrefix
    ensures ParseInt(k[|keyPrefix|..]) == Some(reset)
  {
    ParseIntToString(reset);
    var k := keyPrefix + IntToString(reset);
    assert k[|keyPrefix|..] == IntToString(reset);
    k
  }

  /** A string without `/` is recovered from what precedes the first `/`. */
  lemma {:induction false} SplitAtSlash(a: string, b: string, a2: string, b2: string)
    requires '/' !in a && '/' !in a2
    requires a + "/" + b == a2 + "/" + b2
    ensures a == a2 && b == b2
  {
    var s, s2 := a + "/" + b, a2 + "/" + b2;
    assert forall i :: 0 <= i < |a| ==> s[i] == a[i] != '/';
    assert forall i :: 0 <= i < |a2| ==> s2[i] == a2[i] != '/';
    assert s[|a|] == '/' && s2[|a2|] == '/';
    assert |a| == |a2|;
    assert a == s[..|a|] && a2 == s2[..|a2|];
    assert b == s[|a| + 1..] && b2 == s2[|a2| + 1..];
  }

  /** A counter key splits back into its endpoint, client and window end. */
  lemma KeyPartsDetermined(endpoint1: string, client1: string, suffix1: string,
                           endpoint2: string, client2: string, suffix2: string)
    requires '/' !in endpoint1 && '/' !in client1 && '/' !in endpoint2 && '/' !in client2
    requires KeyPrefix(endpoint1, client1) + suffix1 == KeyPrefix(endpoint2, client2) + suffix2
    ensures endpoint1 == endpoint2 && client1 == client2 && suffix1 == suffix2
  {
    var t1, t2 := client1 + "/" + suffix1, client2 + "/" + suffix2;
    var k1, k2 := KeyPrefix(endpoint1, client1) + suffix1, KeyPrefix(endpoint2, client2) + suffix2;
    assert k1 == "rate-limit/" + (endpoint1 + "/" + t1);
    assert k2 == "rate-limit/" + (endpoint2 + "/" + t2);
    assert k1[11..] == endpoint1 + "/" + t1;
    assert k2[11..] == endpoint2 + "/" + t2;
    SplitAtSlash(endpoint1, t1, endpoint2, t2);
    SplitAtSlash(client1, suffix1, client2, suffix2);
  }

  /**
   * Two charges increment the same counter exactly when they come from the same
   * endpoint and the same client in the same window, provided neither scope
   * contains the separator `/` (Flask endpoint names and client addresses do not).
   */
  lemma SameCounterKeyIff(endpoint1: string, client1: string, now1: int,
                          endpoint2: string, client2: string, now2: int, per: int)
    requires per != 0
    requires '/' !in endpoint1 && '/' !in client1 && '/' !in endpoint2 && '/' !in client2
    ensures CounterKey(KeyPrefix(endpoint1, client1), WindowReset(now1, per))
         == CounterKey(KeyPrefix(endpoint2, client2), WindowReset(now2, per))
        <==> endpoint1 == endpoint2 && client1 == client2 && FloorDiv(now1, per) == FloorDiv(now2, per)
  {
    var r1, r2 := WindowReset(now1, per), WindowReset(now2, per);
    SameWindowIff(now1, now2, per);
    IntToStringInjective(r1, r2);
    if CounterKey(KeyPrefix(endpoint1, client1), r1) == CounterKey(KeyPrefix(endpoint2, client2), r2) {
      KeyPartsDetermined(endpoint1, client1, IntToString(r1), endpoint2, client2, IntToString(r2));
    }
  }

  /** Without the `/` restriction two different scopes can share a counter. */
  lemma SlashInScopeCollides()
    ensures KeyPrefix("a/b", "c") == KeyPrefix("a", "b/c")
  {
    assert KeyPrefix("a/b", "c") == "rate-limit/a/b/c/";
    assert KeyPrefix("a", "b/c") == "rate-limit/a/b/c/";
  }

  /** The value of the shared counter store: counters and their absolute expiry times. */
  datatype Store = Store(counts: map<string, int>, expiry: map<string, int>)

  /** What Redis `INCR` starts from: the stored counter, or 0 for an absent key. */
  function CountOf(counts: map<string, int>, key: string): int {
    if key in counts then counts[key] else 0
  }

  /** The limit state one charge records (`RateLimit`'s attributes and properties). */
  datatype RateLimit = RateLimit(reset: int, key: string, limit: int, per: int,
                                 sendXHeaders: bool, current: int)
  {
    /** `remaining = limit - current`: never above the limit, negative only past it. */
    function Remaining(): (n: int)
      ensures current >= 0 ==> n <= limit
      ensures n >= 0 <==> current <= limit
    {
      limit - current
    }

    /** `over_limit = current >= limit`: over the limit exactly when nothing remains. */
    predicate OverLimit()
      ensures OverLimit() <==> Remaining() <= 0
    {
      current >= limit
    }
  }

  /**
   * One charge, `RateLimit(key_prefix, limit, per, send_x_headers)` at time `now`:
   * increment the window's counter, push its expiry to `reset + 10`, and report
   * the incremented count capped at `limit`.
   */
  function Charge(s: Store, keyPrefix: string, limit: int, per: int, sendXHeaders: bool, now: int)
    : (r: (RateLimit, Store))
    requires per != 0
    ensures r.0.reset == WindowReset(now, per) && r.0.key == CounterKey(keyPrefix, r.0.reset)
    ensures r.0.limit == limit && r.0.per == per && r.0.sendXHeaders == sendXHeaders
    // the store: this key's counter goes up by one, its expiry is set, nothing else changes
    ensures CountOf(r.1.counts, r.0.key) == CountOf(s.counts, r.0.key) + 1
    ensures forall k :: k != r.0.key ==> CountOf(r.1.counts, k) == CountOf(s.counts, k)
    ensures r.1.counts.Keys == s.counts.Keys + {r.0.key}
    ensures r.1.expiry == s.expiry[r.0.key := r.0.reset + EXPIRATION_WINDOW]
    // the report: the new count, capped at the limit for reporting only
    ensures r.0.current <= limit && r.0.Remaining() >= 0
    ensures r.0.current == CountOf(r.1.counts, r.0.key) || r.0.current == limit
    ensures r.0.OverLimit() <==> CountOf(r.1.counts, r.0.key) >= limit
    ensures r.0.OverLimit() <==> r.0.Remaining() == 0
  {
    var reset := WindowReset(now, per);
    var key := CounterKey(keyPrefix, reset);
    var count := CountOf(s.counts, key) + 1;
    (RateLimit(reset, key, limit, per, sendXHeaders, if count < limit then count else limit),
     Store(s.counts[key := count], s.expiry[key := reset + EXPIRATION_WINDOW]))
  }

  /** Charges at the given times, one after another, with their reports in order. */
  function ChargeAll(s: Store, keyPrefix: string, limit: int, per: int, sendXHeaders: bool, times: seq<int>)
    : (r: (seq<RateLimit>, Store))
    requires per != 0
    decreases |times|
  {
    if times == [] then ([], s)
    else
      var first := Charge(s, keyPrefix, limit, per, sendXHeaders, times[0]);
      var rest := ChargeAll(first.1, keyPrefix, limit, per, sendXHeaders, times[1..]);
      ([first.0] + rest.0, rest.1)
  }

  /**
   * Charges within one window all hit that window's counter: the i-th of them
   * (from 0) sees the counter at `c0 + i + 1` and reports it capped at the limit,
   * and the stored counter ends `|times|` higher, never clamped.
   */
  lemma {:induction false} ChargesInOneWindow(s: Store, keyPrefix: string, limit: int, per: int,
                                              sendXHeaders: bool, times: seq<int>, window: int)
    requires per != 0
    requires forall i :: 0 <= i < |times| ==> FloorDiv(times[i], per) == window
    ensures var r := ChargeAll(s, keyPrefix, limit, per, sendXHeaders, times);
            var key := CounterKey(keyPrefix, window * per + per);
            && |r.0| == |times|
            && CountOf(r.1.counts, key) == CountOf(s.counts, key) + |times|
            && (forall k :: k != key ==> CountOf(r.1.counts, k) == CountOf(s.counts, k))
            && forall i :: 0 <= i < |times| ==>
                 var n := CountOf(s.counts, key) + i + 1;
                 && r.0[i].key == key && r.0[i].limit == limit
                 && r.0[i].current == (if n < limit then n else limit)
    decreases |times|
  {
    if times != [] {
      var first := Charge(s, keyPrefix, limit, per, sendXHeaders, times[0]);
      var key := CounterKey(keyPrefix, window * per + per);
      assert first.0.key == key;
      ChargesInOneWindow(first.1, keyPrefix, limit, per, sendXHeaders, times[1..], window);
      var r := ChargeAll(s, keyPrefix, limit, per, sendXHeaders, times);
      var rest := ChargeAll(first.1, keyPrefix, limit, per, sendXHeaders, times[1..]);
      assert r.0 == [first.0] + rest.0;
      forall i | 0 <= i < |times|
        ensures var n := CountOf(s.counts, key) + i + 1;
                && r.0[i].key == key && r.0[i].limit == limit
                && r.0[i].current == (if n < limit then n else limit)
      {
        if i > 0 {
          assert r.0[i] == rest.0[i - 1];
        }
      }
    }
  }

  /**
   * On a counter nobody has charged in this window, the n-th charge (from 1) is
   * admitted exactly when `n < limit`: only `limit - 1` requests per window get
   * through. It reports `remaining == limit - n` while admitted and 0 after,
   * and the stored counter keeps growing past the limit.
   */
  lemma FreshWindowAdmission(s: Store, keyPrefix: string, limit: int, per: int,
                             sendXHeaders: bool, times: seq<int>, window: int)
    requires per != 0
    requires forall i :: 0 <= i < |times| ==> FloorDiv(times[i], per) == window
    requires CounterKey(keyPrefix, window * per + per) !in s.counts
    ensures var r := ChargeAll(s, keyPrefix, limit, per, sendXHeaders, times);
            && |r.0| == |times|
            && CountOf(r.1.counts, CounterKey(keyPrefix, window * per + per)) == |times|
            && forall i :: 0 <= i < |times| ==>
                 && (r.0[i].OverLimit() <==> i + 1 >= limit)
                 && r.0[i].Remaining() == (if i + 1 < limit then limit - (i + 1) else 0)
  {
    ChargesInOneWindow(s, keyPrefix, limit, per, sendXHeaders, times, window);
    var r := ChargeAll(s, keyPrefix, limit, per, sendXHeaders, times);
    var key := CounterKey(keyPrefix, window * per + per);
    assert CountOf(s.counts, key) == 0;
    forall i | 0 <= i < |times|
      ensures && (r.0[i].OverLimit() <==> i + 1 >= limit)
              && r.0[i].Remaining() == (if i + 1 < limit then limit - (i + 1) else 0)
    {
      assert r.0[i].current == (if i + 1 < limit then i + 1 else limit);
    }
  }

  /**
   * With `limit=3, per=60`, four requests from one client to one endpoint in one
   * window: the first two are admitted with 2 and 1 remaining, the third and
   * fourth are throttled with 0 remaining.
   */
  lemma LimitThreeAdmitsTwo(s: Store, keyPrefix: string, now: int)
    requires CounterKey(keyPrefix, WindowReset(now, 60)) !in s.counts
    ensures var r := ChargeAll(s, keyPrefix, 3, 60, true, [now, now, now, now]).0;
            && |r| == 4
            && !r[0].OverLimit() && r[0].Remaining() == 2
            && !r[1].OverLimit() && r[1].Remaining() == 1
            && r[2].OverLimit() && r[2].Remaining() == 0
            && r[3].OverLimit() && r[3].Remaining() == 0
  {
    FreshWindowAdmission(s, keyPrefix, 3, 60, true, [now, now, now, now], FloorDiv(now, 60));
  }

  /**
   * A charge in a later window starts from that window's own counter: it does
   * not see, and does not change, the counter of any other window.
   */
  lemma WindowRollover(s: Store, keyPrefix: string, limit: int, per: int, sendXHeaders: bool,
                       now: int, earlier: int)
    requires per != 0
    requires FloorDiv(now, per) != FloorDiv(earlier, per)
    ensures var r := Charge(s, keyPrefix, limit, per, sendXHeaders, now);
            var previous := CounterKey(keyPrefix, WindowReset(earlier, per));
            && r.0.key != previous
            && CountOf(r.1.counts, previous) == CountOf(s.counts, previous)
  {
    SameWindowIff(now, earlier, per);
    var r1, r2 := WindowReset(now, per), WindowReset(earlier, per);
    IntToStringInjective(r1, r2);
    assert CounterKey(keyPrefix, r1)[|keyPrefix|..] == IntToString(r1);
    assert CounterKey(keyPrefix, r2)[|keyPrefix|..] == IntToString(r2);
  }

  /** The Redis instance the limiter shares between requests. */
  class CounterStore {
    var counts: map<string, int>
    var expiry: map<string, int>

    constructor ()
      ensures counts == map[] && expiry == map[]
    {
      counts := map[];
      expiry := map[];
    }

    function State(): Store
      reads this
    {
      Store(counts, expiry)
    }

    /** `INCR key`: add one to the counter (an absent key counts as 0) and return it. */
    method Incr(key: string) returns (v: int)
      modifies this
      ensures v == CountOf(old(counts), key) + 1
      ensures counts == old(counts)[key := v] && expiry == old(expiry)
    {
      v := CountOf(counts, key) + 1;
      counts := counts[key := v];
    }

    /** `EXPIREAT key at`: set the absolute expiry of an existing key; false if there is none. */
    method ExpireAt(key: string, at: int) returns (applied: bool)
      modifies this
      ensures applied <==> key in old(counts)
      ensures counts == old(counts)
      ensures expiry == if applied then old(expiry)[key := at] else old(expiry)
    {
      applied := key in counts;
      if applied {
        expiry := expiry[key := at];
      }
    }
  }

  /**
   * `RateLimit.__init__`: computes the window and key, runs INCR and EXPIREAT
   * on the shared store, and records `current = min(count, limit)`.
   */
  method NewRateLimit(redis: CounterStore, keyPrefix: string, limit: int, per: int,
                      sendXHeaders: bool, now: int) returns (rl: RateLimit)
    requires per != 0
    modifies redis
    ensures (rl, redis.State()) == Charge(old(redis.State()), keyPrefix, limit, per, sendXHeaders, now)
  {
    var reset := FloorDiv(now, per) * per + per;
    var key := keyPrefix + IntToString(reset);
    var count := redis.Incr(key);
    var _ := redis.ExpireAt(key, reset + EXPIRATION_WINDOW);
    rl := RateLimit(reset, key, limit, per, sendXHeaders, if count < limit then count else limit);
  }
}
