/** The per-source rate limiter of Security.hs, which forgets old requests, against one that remembers
    the whole history. */
module RateLimiter {
  import opened Bits
  import opened Clock

  const WINDOW_NS: u64 := 1_000_000_000
  const CLEANUP_NS: u64 := 5_000_000_000

  /** Timestamps of each source, newest first */
  type Times = map<u64, seq<u64>>

  datatype Limiter = Limiter(requests: Times, maxPerSecond: int, lastCleanup: u64, dropCount: nat)

  /** newRateLimiter */
  function NewLimiter(maxPerSecond: int, now: u64): Limiter {
    Limiter(map[], maxPerSecond, now, 0)
  }

  predicate Recent(now: u64, t: u64) {
    Elapsed(t, now) < WINDOW_NS
  }

  /** filterRecent */
  function FilterRecent(now: u64, times: seq<u64>): seq<u64> {
    if times == [] then []
    else if Recent(now, times[0]) then [times[0]] + FilterRecent(now, times[1..])
    else FilterRecent(now, times[1..])
  }

  /** Map.findWithDefault [] */
  function Get(m: Times, key: u64): seq<u64> {
    if key in m then m[key] else []
  }

  /** maybeCleanup */
  function MaybeCleanup(now: u64, rl: Limiter): Limiter {
    if Elapsed(rl.lastCleanup, now) < CLEANUP_NS then rl
    else
      var kept := map k | k in rl.requests && FilterRecent(now, rl.requests[k]) != [] ::
        FilterRecent(now, rl.requests[k]);
      rl.(requests := kept, lastCleanup := now)
  }

  /** rateLimiterAllow */
  function Allow(key: u64, now: u64, rl: Limiter): (bool, Limiter) {
    var recent := FilterRecent(now, Get(rl.requests, key));
    var allowed := |recent| < rl.maxPerSecond;
    var times := if allowed then [now] + recent else recent;
    (allowed, MaybeCleanup(now, rl.(requests := rl.requests[key := times],
                                    dropCount := rl.dropCount + (if allowed then 0 else 1))))
  }

  // ---- Forgetting does not matter ----

  /** No timestamp is later than now. */
  predicate Past(times: seq<u64>, now: u64) {
    forall i :: 0 <= i < |times| ==> times[i] <= now
  }

  /** As seen from `from` on, the two lists have the same recent timestamps. */
  ghost predicate SameRecent(a: seq<u64>, b: seq<u64>, from: u64) {
    forall later: u64 {:trigger FilterRecent(later, a)} {:trigger FilterRecent(later, b)} ::
      from <= later ==> FilterRecent(later, a) == FilterRecent(later, b)
  }

  /** While time does not run backwards, what is not recent stays so. */
  lemma {:induction false} FilterTwice(times: seq<u64>, now: u64, later: u64)
    requires Past(times, now) && now <= later
    ensures FilterRecent(later, FilterRecent(now, times)) == FilterRecent(later, times)
    decreases times
  {
    if times != [] {
      var t := times[0];
      FilterTwice(times[1..], now, later);
      ElapsedGrows(t, now, later);
      if Recent(now, t) {
        assert ([t] + FilterRecent(now, times[1..]))[1..] == FilterRecent(now, times[1..]);
      }
    }
  }

  lemma ElapsedGrows(t: u64, now: u64, later: u64)
    requires t <= now <= later
    ensures Elapsed(t, now) == now - t && Elapsed(t, later) == later - t
  {
  }

  lemma PrunedIsSame(a: seq<u64>, b: seq<u64>, now: u64)
    requires SameRecent(a, b, now) && Past(a, now)
    ensures SameRecent(FilterRecent(now, a), b, now)
  {
    forall later: u64 | now <= later
      ensures FilterRecent(later, FilterRecent(now, a)) == FilterRecent(later, b)
    {
      FilterTwice(a, now, later);
    }
  }

  lemma ExtendedIsSame(a: seq<u64>, b: seq<u64>, now: u64)
    requires SameRecent(a, b, now)
    ensures SameRecent([now] + a, [now] + b, now)
  {
    forall later: u64 | now <= later
      ensures FilterRecent(later, [now] + a) == FilterRecent(later, [now] + b)
    {
      assert ([now] + a)[1..] == a && ([now] + b)[1..] == b;
      assert FilterRecent(later, a) == FilterRecent(later, b);
    }
  }

  lemma LaterIsSame(a: seq<u64>, b: seq<u64>, from: u64, now: u64)
    requires SameRecent(a, b, from) && from <= now
    ensures SameRecent(a, b, now)
  {
  }

  lemma {:induction false} FilteredPast(times: seq<u64>, now: u64, bound: u64)
    requires Past(times, bound)
    ensures Past(FilterRecent(now, times), bound)
    decreases times
  {
    if times != [] {
      FilteredPast(times[1..], now, bound);
    }
  }

  // ---- Runs, with the whole history beside ----

  /** `history`: every request allowed so far, by source, newest first; `now`: the time of the last one */
  datatype Log = Log(rl: Limiter, history: Times, now: u64, refused: nat)

  function Next(g: Log, key: u64, now: u64): Log {
    var (allowed, rl) := Allow(key, now, g.rl);
    Log(rl, if allowed then g.history[key := [now] + Get(g.history, key)] else g.history, now,
        g.refused + (if allowed then 0 else 1))
  }

  /** The decision of a limiter that keeps the whole history */
  predicate Decides(history: Times, max: int, key: u64, now: u64) {
    |FilterRecent(now, Get(history, key))| < max
  }

  ghost predicate KeyInv(stored: seq<u64>, history: seq<u64>, max: int, now: u64) {
    SameRecent(stored, history, now) && Past(stored, now) && Past(history, now) && Limited(history, max)
  }

  ghost predicate Inv(g: Log) {
    && g.rl.dropCount == g.refused
    && forall k: u64 {:trigger Get(g.rl.requests, k)} {:trigger Get(g.history, k)} ::
         KeyInv(Get(g.rl.requests, k), Get(g.history, k), g.rl.maxPerSecond, g.now)
  }

  /** Newest first, and of every suffix, the timestamps within a window before its newest are at most max. */
  ghost predicate Limited(times: seq<u64>, max: int)
    decreases times
  {
    times == [] || (Past(times[1..], times[0]) && |FilterRecent(times[0], times)| <= max && Limited(times[1..], max))
  }

  lemma LimitedGrows(times: seq<u64>, max: int, now: u64)
    requires Limited(times, max) && Past(times, now) && |FilterRecent(now, times)| < max
    ensures Limited([now] + times, max)
  {
    assert ([now] + times)[1..] == times;
  }

  /** The lists of the key asked for, before a cleanup */
  lemma AskedKeeps(stored: seq<u64>, history: seq<u64>, max: int, from: u64, now: u64)
    requires KeyInv(stored, history, max, from) && from <= now
    ensures FilterRecent(now, stored) == FilterRecent(now, history)
    ensures var recent := FilterRecent(now, stored); var allowed := |recent| < max;
      KeyInv(if allowed then [now] + recent else recent, if allowed then [now] + history else history, max, now)
  {
    var recent := FilterRecent(now, stored);
    PrunedIsSame(stored, history, now) by { LaterIsSame(stored, history, from, now); }
    ExtendedIsSame(recent, history, now);
    FilteredPast(stored, now, now);
    if |recent| < max {
      LimitedGrows(history, max, now);
    }
  }

  lemma PassedKeeps(stored: seq<u64>, history: seq<u64>, max: int, from: u64, now: u64)
    requires KeyInv(stored, history, max, from) && from <= now
    ensures KeyInv(stored, history, max, now)
    ensures KeyInv(FilterRecent(now, stored), history, max, now)
  {
    LaterIsSame(stored, history, from, now);
    PrunedIsSame(stored, history, now);
    FilteredPast(stored, now, now);
  }

  lemma CleanupGets(now: u64, rl: Limiter, k: u64)
    ensures var c := MaybeCleanup(now, rl);
      c.maxPerSecond == rl.maxPerSecond && c.dropCount == rl.dropCount
      && (Get(c.requests, k) == Get(rl.requests, k) || Get(c.requests, k) == FilterRecent(now, Get(rl.requests, k)))
  {
  }

  lemma NextKeepsKey(g: Log, key: u64, now: u64, k: u64)
    requires Inv(g) && g.now <= now
    ensures KeyInv(Get(Next(g, key, now).rl.requests, k), Get(Next(g, key, now).history, k), g.rl.maxPerSecond, now)
  {
    var stored, history, max := Get(g.rl.requests, k), Get(g.history, k), g.rl.maxPerSecond;
    assert KeyInv(stored, history, max, g.now);
    var recent := FilterRecent(now, Get(g.rl.requests, key));
    var allowed := |recent| < max;
    var before := g.rl.(requests := g.rl.requests[key := if allowed then [now] + recent else recent],
                        dropCount := g.rl.dropCount + (if allowed then 0 else 1));
    CleanupGets(now, before, k);
    if k == key {
      AskedKeeps(stored, history, max, g.now, now);
    } else {
      PassedKeeps(stored, history, max, g.now, now);
    }
    PassedKeeps(Get(before.requests, k), Get(Next(g, key, now).history, k), max, now, now);
  }

  /** The limiter decides as if it had the whole history. */
  lemma NextDecides(g: Log, key: u64, now: u64)
    requires Inv(g) && g.now <= now
    ensures Allow(key, now, g.rl).0 <==> Decides(g.history, g.rl.maxPerSecond, key, now)
    ensures Inv(Next(g, key, now)) && Next(g, key, now).rl.maxPerSecond == g.rl.maxPerSecond
  {
    assert KeyInv(Get(g.rl.requests, key), Get(g.history, key), g.rl.maxPerSecond, g.now);
    AskedKeeps(Get(g.rl.requests, key), Get(g.history, key), g.rl.maxPerSecond, g.now, now);
    var next := Next(g, key, now);
    CleanupGets(now, g.rl, key);
    forall k: u64 ensures KeyInv(Get(next.rl.requests, k), Get(next.history, k), g.rl.maxPerSecond, now) {
      NextKeepsKey(g, key, now, k);
    }
  }

  datatype Request = Request(key: u64, now: u64)

  function After(g: Log, requests: seq<Request>): Log
    decreases |requests|
  {
    if requests == [] then g else After(Next(g, requests[0].key, requests[0].now), requests[1..])
  }

  /** Time does not run backwards. */
  predicate Forward(from: u64, requests: seq<Request>)
    decreases |requests|
  {
    requests == [] || (from <= requests[0].now && Forward(requests[0].now, requests[1..]))
  }

  lemma {:induction false} RunKeeps(g: Log, requests: seq<Request>)
    requires Inv(g) && Forward(g.now, requests)
    ensures Inv(After(g, requests)) && After(g, requests).rl.maxPerSecond == g.rl.maxPerSecond
    decreases |requests|
  {
    if requests != [] {
      NextDecides(g, requests[0].key, requests[0].now);
      RunKeeps(Next(g, requests[0].key, requests[0].now), requests[1..]);
    }
  }

  function CountIn(times: seq<u64>, from: u64, to: u64): nat {
    if times == [] then 0 else (if from <= times[0] <= to then 1 else 0) + CountIn(times[1..], from, to)
  }

  lemma {:induction false} CountBefore(times: seq<u64>, from: u64, to: u64, newest: u64)
    requires Past(times, newest) && newest <= to && to - from < WINDOW_NS && from <= newest
    ensures CountIn(times, from, to) <= |FilterRecent(newest, times)|
    decreases times
  {
    if times != [] {
      ElapsedGrows(times[0], newest, newest);
      CountBefore(times[1..], from, to, newest);
    }
  }

  lemma {:induction false} CountNone(times: seq<u64>, from: u64, to: u64, newest: u64)
    requires Past(times, newest) && newest < from
    ensures CountIn(times, from, to) == 0
    decreases times
  {
    if times != [] {
      CountNone(times[1..], from, to, newest);
    }
  }

  lemma {:induction false} WindowCount(times: seq<u64>, max: int, from: u64, to: u64)
    requires Limited(times, max) && from <= to && to - from < WINDOW_NS
    ensures CountIn(times, from, to) <= (if max < 0 then 0 else max)
    decreases times
  {
    if times != [] {
      var t := times[0];
      assert times == [t] + times[1..];
      if t > to {
        WindowCount(times[1..], max, from, to);
      } else if t < from {
        CountNone(times, from, to, t);
      } else {
        CountBefore(times, from, to, t);
      }
    }
  }

  function Start(maxPerSecond: int, now: u64): Log {
    Log(NewLimiter(maxPerSecond, now), map[], now, 0)
  }

  /** In every run with a clock that does not run backwards, each decision is that of a limiter with the
      whole history, and no window shorter than a second holds more than the maximum of allowed requests
      from one source. */
  lemma LimitsEveryWindow(maxPerSecond: int, start: u64, requests: seq<Request>, key: u64, now: u64, from: u64, to: u64)
    requires Forward(start, requests) && from <= to && to - from < WINDOW_NS
    ensures var g := After(Start(maxPerSecond, start), requests);
      && CountIn(Get(g.history, key), from, to) <= (if maxPerSecond < 0 then 0 else maxPerSecond)
      && (g.now <= now ==> (Allow(key, now, g.rl).0 <==> Decides(g.history, maxPerSecond, key, now)))
      && g.rl.dropCount == g.refused
  {
    RunKeeps(Start(maxPerSecond, start), requests);
    var g := After(Start(maxPerSecond, start), requests);
    assert KeyInv(Get(g.rl.requests, key), Get(g.history, key), maxPerSecond, g.now);
    WindowCount(Get(g.history, key), maxPerSecond, from, to);
    if g.now <= now {
      NextDecides(g, key, now);
    }
  }

  lemma {:induction false} RecentAreCounted(times: seq<u64>, now: u64)
    requires Past(times, now)
    ensures |FilterRecent(now, times)| == CountWithin(times, now, 999_999_999)
    decreases times
  {
    if times != [] {
      ElapsedGrows(times[0], now, now);
      RecentAreCounted(times[1..], now);
    }
  }

  /** How many of the times lie no more than `span` nanoseconds before now */
  function CountWithin(times: seq<u64>, now: u64, span: nat): nat {
    if times == [] then 0 else (if now as int - times[0] <= span then 1 else 0) + CountWithin(times[1..], now, span)
  }

  /** The decision in numbers: after any run with a clock that does not run backwards, a request is allowed if and
      only if fewer than the maximum were allowed for its source in the second before. */
  lemma AllowsIff(maxPerSecond: int, start: u64, requests: seq<Request>, key: u64, now: u64)
    requires Forward(start, requests) && After(Start(maxPerSecond, start), requests).now <= now
    ensures var g := After(Start(maxPerSecond, start), requests);
      Allow(key, now, g.rl).0 <==> CountWithin(Get(g.history, key), now, 999_999_999) < maxPerSecond
  {
    RunKeeps(Start(maxPerSecond, start), requests);
    var g := After(Start(maxPerSecond, start), requests);
    NextDecides(g, key, now);
    assert KeyInv(Get(g.rl.requests, key), Get(g.history, key), maxPerSecond, g.now);
    RecentAreCounted(Get(g.history, key), now);
  }

  /** A request is answered with the timestamps of the last second only; and five seconds after the last cleanup
      every source without a request in the last second is forgotten. */
  lemma CleanupForgets(rl: Limiter, key: u64, now: u64, k: u64)
    requires rl.lastCleanup <= now && now - rl.lastCleanup >= 5_000_000_000
    ensures var r := Allow(key, now, rl).1;
      && r.lastCleanup == now
      && (k in r.requests ==> r.requests[k] != []
                              && forall i :: 0 <= i < |r.requests[k]| ==> Recent(now, r.requests[k][i]))
  {
    var r := Allow(key, now, rl).1;
    if k in r.requests {
      var before := FilterRecent(now, Get(rl.requests, key));
      var times := if |before| < rl.maxPerSecond then [now] + before else before;
      var stored := rl.requests[key := times];
      assert r.requests[k] == FilterRecent(now, stored[k]);
      AllRecent(stored[k], now);
    }
  }

  lemma {:induction false} AllRecent(times: seq<u64>, now: u64)
    ensures forall i :: 0 <= i < |FilterRecent(now, times)| ==> Recent(now, FilterRecent(now, times)[i])
    decreases times
  {
    if times != [] {
      AllRecent(times[1..], now);
    }
  }

  // ---- A clock that runs backwards ----

  /** Two times are less than a second apart. */
  predicate Near(now: u64, t: u64) {
    (if t <= now then now - t else t - now) < WINDOW_NS
  }

  /** Of two times less than a second apart, the test for recent requests is right exactly if they come in
      order: that is what the caller of the unsigned difference owes. */
  lemma RecentIff(now: u64, t: u64)
    requires Near(now, t)
    ensures Recent(now, t) <==> t <= now
  {
  }

  /** Of requests less than a second away, none is forgotten if and only if none is later than now. */
  lemma {:induction false} NothingForgottenIff(times: seq<u64>, now: u64)
    requires forall i :: 0 <= i < |times| ==> Near(now, times[i])
    ensures |FilterRecent(now, times)| <= |times|
    ensures FilterRecent(now, times) == times <==> Past(times, now)
    decreases times
  {
    if times != [] {
      RecentIff(now, times[0]);
      NothingForgottenIff(times[1..], now);
      assert times == [times[0]] + times[1..];
    }
  }

  /** So the order of time is needed: with a clock that runs backwards the limit fails, because a request
      of a nanosecond later looks old. */
  lemma BackwardForgets(key: u64)
    ensures Get(Next(Next(Start(1, 0), key, 10), key, 9).history, key) == [9, 10]
  {
    var first := Next(Start(1, 0), key, 10);
    assert FilterRecent(10, []) == [];
    assert first.rl.requests[key] == [10];
    assert FilterRecent(9, [10]) == FilterRecent(9, [10][1..]) == [];
  }
}
