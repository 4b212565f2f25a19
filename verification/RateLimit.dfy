/** The fixed-window rate limiter: a counter per key whose expiry is set once. */
module RateLimit {
  import opened Common

  datatype Counter = Counter(count: nat, expireAt: int)

  type Counters = map<string, Counter>

  datatype RateLimitResult = RateLimitResult(allowed: bool, current: nat, retryAfter: int)

  /** What one key holds; an expired counter reads as no counter. */
  type Slot = Option<Counter>

  function Slotted(m: Counters, key: string): Slot {
    if key in m then Some(m[key]) else None
  }

  predicate Running(slot: Slot, now: int) {
    slot.Some? && now < slot.value.expireAt
  }

  /** INCR, then EXPIRE with NX. */
  function Bump(slot: Slot, window: Positive, now: int): Counter {
    if Running(slot, now) then slot.value.(count := slot.value.count + 1) else Counter(1, now + window)
  }

  class RateLimiter {
    var counters: Counters

    constructor ()
      ensures counters == map[]
    {
      counters := map[];
    }

    /** A hit never moves the end of a running window, blocked or not. */
    method Hit(key: string, maxAttempts: int, window: Positive, now: int) returns (r: RateLimitResult)
      modifies this
      ensures counters == old(counters)[key := Bump(old(Slotted(counters, key)), window, now)]
      ensures r.current == counters[key].count
      ensures if key in old(counters) && now < old(counters)[key].expireAt
              then counters[key] == Counter(old(counters)[key].count + 1, old(counters)[key].expireAt)
              else counters[key] == Counter(1, now + window)
      ensures counters - {key} == old(counters) - {key}
      ensures r.allowed <==> r.current <= maxAttempts
      ensures r.retryAfter == if r.allowed then 0 else counters[key].expireAt - now
      ensures !r.allowed ==> r.retryAfter > 0
      ensures old(Running(Slotted(counters, key), now)) ==> counters[key].expireAt == old(counters[key].expireAt)
    {
      var live := key in counters && now < counters[key].expireAt;
      var current := if live then counters[key].count + 1 else 1;
      var expireAt := if live then counters[key].expireAt else now + window;
      counters := counters[key := Counter(current, expireAt)];
      if current <= maxAttempts {
        return RateLimitResult(true, current, 0);
      }
      var ttl := counters[key].expireAt - now;
      var retryAfter := if ttl > 0 then ttl else window;
      return RateLimitResult(false, current, retryAfter);
    }

    method Reset(key: string)
      modifies this
      ensures counters == old(counters) - {key}
    {
      counters := counters - {key};
    }
  }

  // ---------------------------------------------------------------- one key over time

  datatype Action = HitAt(time: int) | ResetAt(time: int)

  function After(slot: Slot, a: Action, window: Positive): Slot {
    match a
    case HitAt(t) => Some(Bump(slot, window, t))
    case ResetAt(_) => None
  }

  function AfterAll(slot: Slot, run: seq<Action>, window: Positive): Slot
    decreases |run|
  {
    if run == [] then slot else AfterAll(After(slot, run[0], window), run[1..], window)
  }

  predicate Ordered(run: seq<Action>) {
    forall i, j :: 0 <= i < j < |run| ==> run[i].time <= run[j].time
  }

  /** The half-open interval of `window` seconds that starts at `start`. */
  predicate Within(a: Action, start: int, window: Positive) {
    start <= a.time < start + window
  }

  /** Hits inside the interval that the limiter allows. */
  function Allowed(slot: Slot, run: seq<Action>, limit: Positive, window: Positive, start: int): nat
    decreases |run|
  {
    if run == [] then 0
    else
      (if run[0].HitAt? && Within(run[0], start, window) && Bump(slot, window, run[0].time).count <= limit
       then 1 else 0)
      + Allowed(After(slot, run[0], window), run[1..], limit, window, start)
  }

  function Resets(run: seq<Action>, window: Positive, start: int): nat
    decreases |run|
  {
    if run == [] then 0
    else (if run[0].ResetAt? && Within(run[0], start, window) then 1 else 0) + Resets(run[1..], window, start)
  }

  /** `n` full windows. */
  function Quota(n: nat, limit: Positive): nat {
    if n == 0 then 0 else limit + Quota(n - 1, limit)
  }

  lemma {:induction false} QuotaIsProduct(n: nat, limit: Positive)
    ensures Quota(n, limit) == n * limit
  {
    if n == 0 {
    } else {
      QuotaIsProduct(n - 1, limit);
    }
  }

  /** Hits the current counter can still allow. */
  function Room(slot: Slot, limit: Positive): nat {
    if slot.Some? && slot.value.count < limit then limit - slot.value.count else 0
  }

  ghost predicate Outlasts(slot: Slot, end: int) {
    slot.Some? && end <= slot.value.expireAt
  }

  lemma {:induction false} NothingPastTheEnd(slot: Slot, run: seq<Action>, limit: Positive, window: Positive, start: int)
    requires Ordered(run) && run != [] && start + window <= run[0].time
    ensures Allowed(slot, run, limit, window, start) == 0 && Resets(run, window, start) == 0
    decreases |run|
  {
    if |run| <= 1 {
    } else {
      NothingPastTheEnd(After(slot, run[0], window), run[1..], limit, window, start);
    }
  }

  /** From a point inside the interval: a counter that lasts to its end can only be
      replaced after a reset, any other counter once more than that. */
  lemma {:induction false} AllowedFromInside(slot: Slot, run: seq<Action>, limit: Positive, window: Positive, start: int)
    requires Ordered(run) && (run != [] ==> start <= run[0].time)
    ensures Allowed(slot, run, limit, window, start) <=
            Room(slot, limit)
            + Quota(Resets(run, window, start) + if Outlasts(slot, start + window) then 0 else 1, limit)
    decreases |run|
  {
    if run == [] {
    } else if start + window <= run[0].time {
      NothingPastTheEnd(slot, run, limit, window, start);
    } else {
      AllowedFromInside(After(slot, run[0], window), run[1..], limit, window, start);
    }
  }

  ghost predicate Sane(slot: Slot) {
    slot.Some? ==> 1 <= slot.value.count
  }

  lemma {:induction false} AllowedInQuota(slot: Slot, run: seq<Action>, limit: Positive, window: Positive, start: int)
    requires Ordered(run) && Sane(slot)
    ensures Allowed(slot, run, limit, window, start) < Quota(2 + Resets(run, window, start), limit)
    decreases |run|
  {
    if run == [] || start <= run[0].time {
      AllowedFromInside(slot, run, limit, window, start);
    } else {
      AllowedInQuota(After(slot, run[0], window), run[1..], limit, window, start);
    }
  }

  /** In every run on one key with non-decreasing times, every interval of one
      window that contains r resets sees at most (2 + r) * limit - 1 allowed hits. */
  lemma AllowedInAnyInterval(slot: Slot, run: seq<Action>, limit: Positive, window: Positive, start: int)
    requires Ordered(run) && Sane(slot)
    ensures Allowed(slot, run, limit, window, start) <= (2 + Resets(run, window, start)) * limit - 1
  {
    AllowedInQuota(slot, run, limit, window, start);
    QuotaIsProduct(2 + Resets(run, window, start), limit);
  }

  lemma OneAction(slot: Slot, a: Action, limit: Positive, window: Positive, start: int)
    ensures AfterAll(slot, [a], window) == After(slot, a, window)
    ensures Resets([a], window, start) == if a.ResetAt? && Within(a, start, window) then 1 else 0
    ensures Allowed(slot, [a], limit, window, start) ==
            if a.HitAt? && Within(a, start, window) && Bump(slot, window, a.time).count <= limit then 1 else 0
  {
    assert [a][1..] == [];
  }

  // ---------------------------------------------------------------- the bound is reached

  function Hits(t: int, n: nat): seq<Action> {
    seq(n, _ => HitAt(t))
  }

  function Bursts(t: int, n: nat, limit: Positive): seq<Action> {
    if n == 0 then [] else [ResetAt(t)] + Hits(t, limit) + Bursts(t, n - 1, limit)
  }

  /** One early hit opens a window; the rest of it is spent in its last second, and a
      full window plus `n` reset windows follow at once. */
  function WorstRun(n: nat, limit: Positive, window: Positive): seq<Action> {
    [HitAt(0)] + Hits(window - 1, limit - 1) + Hits(window, limit) + Bursts(window, n, limit)
  }

  lemma {:induction false} Concat(slot: Slot, a: seq<Action>, b: seq<Action>, limit: Positive, window: Positive, start: int)
    ensures Allowed(slot, a + b, limit, window, start) ==
            Allowed(slot, a, limit, window, start) + Allowed(AfterAll(slot, a, window), b, limit, window, start)
    ensures AfterAll(slot, a + b, window) == AfterAll(AfterAll(slot, a, window), b, window)
    ensures Resets(a + b, window, start) == Resets(a, window, start) + Resets(b, window, start)
    decreases |a|
  {
    if a == [] {
      assert a + b == b;
    } else {
      Concat(After(slot, a[0], window), a[1..], b, limit, window, start);
      assert (a + b)[1..] == a[1..] + b;
    }
  }

  lemma {:induction false} HitsOnRunning(c: Counter, t: int, n: nat, limit: Positive, window: Positive, start: int)
    requires t < c.expireAt && c.count + n <= limit && start <= t < start + window
    ensures Allowed(Some(c), Hits(t, n), limit, window, start) == n
    ensures AfterAll(Some(c), Hits(t, n), window) == Some(c.(count := c.count + n))
    ensures Resets(Hits(t, n), window, start) == 0
    decreases n
  {
    if n == 0 {
    } else {
      assert Hits(t, n)[1..] == Hits(t, n - 1);
      HitsOnRunning(c.(count := c.count + 1), t, n - 1, limit, window, start);
    }
  }

  lemma HitsOnStopped(slot: Slot, t: int, limit: Positive, window: Positive, start: int)
    requires !Running(slot, t) && start <= t < start + window
    ensures Allowed(slot, Hits(t, limit), limit, window, start) == limit
    ensures Resets(Hits(t, limit), window, start) == 0
  {
    assert Hits(t, limit)[1..] == Hits(t, limit - 1);
    HitsOnRunning(Counter(1, t + window), t, limit - 1, limit, window, start);
  }

  lemma {:induction false} BurstsCount(slot: Slot, t: int, n: nat, limit: Positive, window: Positive, start: int)
    requires start <= t < start + window
    ensures Allowed(slot, Bursts(t, n, limit), limit, window, start) == Quota(n, limit)
    ensures Resets(Bursts(t, n, limit), window, start) == n
    decreases n
  {
    if n == 0 {
    } else {
      var tail := Hits(t, limit) + Bursts(t, n - 1, limit);
      assert Bursts(t, n, limit) == [ResetAt(t)] + tail;
      assert Bursts(t, n, limit)[1..] == tail;
      Concat(None, Hits(t, limit), Bursts(t, n - 1, limit), limit, window, start);
      HitsOnStopped(None, t, limit, window, start);
      BurstsCount(AfterAll(None, Hits(t, limit), window), t, n - 1, limit, window, start);
    }
  }

  lemma BurstsOrdered(t: int, n: nat, limit: Positive)
    ensures forall i :: 0 <= i < |Bursts(t, n, limit)| ==> Bursts(t, n, limit)[i].time == t
  {
  }

  lemma WorstRunOrdered(n: nat, limit: Positive, window: Positive)
    ensures Ordered(WorstRun(n, limit, window))
  {
    BurstsOrdered(window, n, limit);
  }

  lemma FirstWindowCounts(run: seq<Action>, limit: Positive, window: Positive)
    requires 2 <= window && run == [HitAt(0)] + Hits(window - 1, limit - 1)
    ensures AfterAll(None, run, window) == Some(Counter(limit, window))
    ensures Resets(run, window, window - 1) == 0
    ensures Allowed(None, run, limit, window, window - 1) == limit - 1
  {
    assert run[0] == HitAt(0) && run[1..] == Hits(window - 1, limit - 1);
    var c := Counter(1, window);
    assert After(None, run[0], window) == Some(c);
    HitsOnRunning(c, window - 1, limit - 1, limit, window, window - 1);
  }

  lemma WorstRunCounts(n: nat, limit: Positive, window: Positive)
    requires 2 <= window
    ensures Resets(WorstRun(n, limit, window), window, window - 1) == n
    ensures Allowed(None, WorstRun(n, limit, window), limit, window, window - 1) == Quota(2 + n, limit) - 1
  {
    var first, full, bursts := [HitAt(0)] + Hits(window - 1, limit - 1), Hits(window, limit), Bursts(window, n, limit);
    var spent := Some(Counter(limit, window));
    FirstWindowCounts(first, limit, window);
    HitsOnStopped(spent, window, limit, window, window - 1);
    BurstsCount(AfterAll(spent, full, window), window, n, limit, window, window - 1);
    Concat(spent, full, bursts, limit, window, window - 1);
    Concat(None, first, full + bursts, limit, window, window - 1);
    assert WorstRun(n, limit, window) == first + (full + bursts);
    assert Quota(2 + n, limit) == limit + Quota(1 + n, limit);
  }

  /** No smaller bound holds: for every limit, every number of resets and every
      window of at least two seconds some run reaches it. */
  lemma BoundIsReached(n: nat, limit: Positive, window: Positive)
    requires 2 <= window
    ensures Ordered(WorstRun(n, limit, window))
    ensures Resets(WorstRun(n, limit, window), window, window - 1) == n
    ensures Allowed(None, WorstRun(n, limit, window), limit, window, window - 1) == (2 + n) * limit - 1
  {
    WorstRunOrdered(n, limit, window);
    WorstRunCounts(n, limit, window);
    QuotaIsProduct(2 + n, limit);
  }
}
