/** The limiter as login uses it: two keys per attempt, both cleared by a success. */
module LoginLimit {
  import opened Common
  import opened RateLimit

  datatype Limits = Limits(maxAttempts: Positive, window: Positive)

  function EmailKey(email: string): string {
    "ratelimit:login:email:" + Lower(email)
  }

  function IpKey(ip: string): string {
    "ratelimit:login:ip:" + ip
  }

  /** No address, however written, makes an IP key collide with an email key. */
  lemma KeysDiffer(email: string, ip: string)
    ensures EmailKey(email) != IpKey(ip)
  {
    assert EmailKey(email)[16] == 'e' && IpKey(ip)[16] == 'i';
  }

  /** Emails share a counter exactly when they differ in letter case only; addresses
      share none. */
  lemma KeysTellApart(email: string, other: string, ip: string, otherIp: string)
    ensures EmailKey(email) == EmailKey(other) <==> Lower(email) == Lower(other)
    ensures IpKey(ip) == IpKey(otherIp) <==> ip == otherIp
  {
    assert EmailKey(email)[|EmailKey("")|..] == Lower(email);
    assert EmailKey(other)[|EmailKey("")|..] == Lower(other);
    assert IpKey(ip)[|IpKey("")|..] == ip;
    assert IpKey(otherIp)[|IpKey("")|..] == otherIp;
  }

  /** `good` says whether the credentials are right and the user active. */
  datatype Attempt = Attempt(time: int, email: string, ip: string, good: bool)

  function Bumped(cfg: Limits, m: Counters, key: string, now: int): Counters {
    m[key := Bump(Slotted(m, key), cfg.window, now)]
  }

  predicate EmailPasses(cfg: Limits, m: Counters, a: Attempt) {
    Bump(Slotted(m, EmailKey(a.email)), cfg.window, a.time).count <= cfg.maxAttempts
  }

  /** The attempt gets as far as the credentials check. */
  predicate Passes(cfg: Limits, m: Counters, a: Attempt) {
    && EmailPasses(cfg, m, a)
    && Bump(Slotted(m, IpKey(a.ip)), cfg.window, a.time).count <= cfg.maxAttempts
  }

  /** The counters after one attempt: a blocked email leaves the IP untouched. */
  function Tried(cfg: Limits, m: Counters, a: Attempt): Counters {
    var m1 := Bumped(cfg, m, EmailKey(a.email), a.time);
    if !EmailPasses(cfg, m, a) then m1
    else
      var m2 := Bumped(cfg, m1, IpKey(a.ip), a.time);
      if Passes(cfg, m, a) && a.good then m2 - {EmailKey(a.email)} - {IpKey(a.ip)} else m2
  }

  /** The attempt counts against the key, as its email or as its address. */
  predicate Concerns(a: Attempt, key: string) {
    EmailKey(a.email) == key || IpKey(a.ip) == key
  }

  /** What one attempt does to one key. */
  function Actions(cfg: Limits, m: Counters, a: Attempt, key: string): seq<Action> {
    (if EmailKey(a.email) == key || (IpKey(a.ip) == key && EmailPasses(cfg, m, a)) then [HitAt(a.time)] else [])
    + (if Concerns(a, key) && Passes(cfg, m, a) && a.good then [ResetAt(a.time)] else [])
  }

  predicate Chronological(run: seq<Attempt>) {
    forall i, j :: 0 <= i < j < |run| ==> run[i].time <= run[j].time
  }

  function Timeline(cfg: Limits, m: Counters, run: seq<Attempt>, key: string): seq<Action>
    decreases |run|
  {
    if run == [] then []
    else Actions(cfg, m, run[0], key) + Timeline(cfg, Tried(cfg, m, run[0]), run[1..], key)
  }

  predicate Inside(cfg: Limits, a: Attempt, start: int) {
    start <= a.time < start + cfg.window
  }

  /** Attempts on the key in the interval that get past the limiter. */
  function Passed(cfg: Limits, m: Counters, run: seq<Attempt>, key: string, start: int): nat
    decreases |run|
  {
    if run == [] then 0
    else
      (if Concerns(run[0], key) && Inside(cfg, run[0], start) && Passes(cfg, m, run[0]) then 1 else 0)
      + Passed(cfg, Tried(cfg, m, run[0]), run[1..], key, start)
  }

  /** Logins on the key in the interval that succeed. */
  function Succeeded(cfg: Limits, m: Counters, run: seq<Attempt>, key: string, start: int): nat
    decreases |run|
  {
    if run == [] then 0
    else
      (if Concerns(run[0], key) && Inside(cfg, run[0], start) && Passes(cfg, m, run[0]) && run[0].good then 1 else 0)
      + Succeeded(cfg, Tried(cfg, m, run[0]), run[1..], key, start)
  }

  lemma HitThenReset(slot: Slot, t: int, cfg: Limits, start: int)
    ensures
      var hit, reset := [HitAt(t)], [ResetAt(t)];
      && AfterAll(slot, hit, cfg.window) == Some(Bump(slot, cfg.window, t))
      && AfterAll(slot, hit + reset, cfg.window) == None
      && Resets(hit, cfg.window, start) == 0
      && Resets(hit + reset, cfg.window, start) == (if start <= t < start + cfg.window then 1 else 0)
      && Allowed(slot, hit, cfg.maxAttempts, cfg.window, start)
         == Allowed(slot, hit + reset, cfg.maxAttempts, cfg.window, start)
         == if start <= t < start + cfg.window && Bump(slot, cfg.window, t).count <= cfg.maxAttempts then 1 else 0
  {
    OneAction(slot, HitAt(t), cfg.maxAttempts, cfg.window, start);
    OneAction(After(slot, HitAt(t), cfg.window), ResetAt(t), cfg.maxAttempts, cfg.window, start);
    Concat(slot, [HitAt(t)], [ResetAt(t)], cfg.maxAttempts, cfg.window, start);
  }

  lemma TriedIsActions(cfg: Limits, m: Counters, a: Attempt, key: string)
    ensures Slotted(Tried(cfg, m, a), key) == AfterAll(Slotted(m, key), Actions(cfg, m, a, key), cfg.window)
  {
    KeysDiffer(a.email, a.ip);
    HitThenReset(Slotted(m, key), a.time, cfg, 0);
  }

  /** One attempt as seen by the limiter of one key. */
  lemma AttemptCounts(cfg: Limits, m: Counters, a: Attempt, key: string, start: int)
    ensures
      var acts := Actions(cfg, m, a, key);
      && (if Concerns(a, key) && Inside(cfg, a, start) && Passes(cfg, m, a) then 1 else 0)
         <= Allowed(Slotted(m, key), acts, cfg.maxAttempts, cfg.window, start)
      && Resets(acts, cfg.window, start) ==
         if Concerns(a, key) && Inside(cfg, a, start) && Passes(cfg, m, a) && a.good then 1 else 0
  {
    KeysDiffer(a.email, a.ip);
    HitThenReset(Slotted(m, key), a.time, cfg, start);
  }

  lemma {:induction false} TimelineCounts(cfg: Limits, m: Counters, run: seq<Attempt>, key: string, start: int)
    ensures Passed(cfg, m, run, key, start) <=
            Allowed(Slotted(m, key), Timeline(cfg, m, run, key), cfg.maxAttempts, cfg.window, start)
    ensures Resets(Timeline(cfg, m, run, key), cfg.window, start) == Succeeded(cfg, m, run, key, start)
    decreases |run|
  {
    if run == [] {
    } else {
      var m' := Tried(cfg, m, run[0]);
      AttemptCounts(cfg, m, run[0], key, start);
      TriedIsActions(cfg, m, run[0], key);
      TimelineCounts(cfg, m', run[1..], key, start);
      Concat(Slotted(m, key), Actions(cfg, m, run[0], key), Timeline(cfg, m', run[1..], key),
             cfg.maxAttempts, cfg.window, start);
    }
  }

  lemma {:induction false} TimelineOrdered(cfg: Limits, m: Counters, run: seq<Attempt>, key: string, from: int)
    requires Chronological(run) && forall i :: 0 <= i < |run| ==> from <= run[i].time
    ensures Ordered(Timeline(cfg, m, run, key))
    ensures forall i :: 0 <= i < |Timeline(cfg, m, run, key)| ==> from <= Timeline(cfg, m, run, key)[i].time
    decreases |run|
  {
    if run == [] {
    } else {
      TimelineOrdered(cfg, Tried(cfg, m, run[0]), run[1..], key, run[0].time);
    }
  }

  /** Over every run of login attempts, by anyone, in any interval of one window at
      most (2 + r) * max - 1 attempts on an email, or from an address, get past the
      limiter, where r counts the logins on it that succeed in the interval. */
  lemma LoginBound(cfg: Limits, run: seq<Attempt>, key: string, start: int)
    requires Chronological(run)
    ensures Passed(cfg, map[], run, key, start) <=
            (2 + Succeeded(cfg, map[], run, key, start)) * cfg.maxAttempts - 1
  {
    TimelineCounts(cfg, map[], run, key, start);
    TimelineOrdered(cfg, map[], run, key, if run == [] then 0 else run[0].time);
    AllowedInQuota(None, Timeline(cfg, map[], run, key), cfg.maxAttempts, cfg.window, start);
    QuotaIsProduct(2 + Succeeded(cfg, map[], run, key, start), cfg.maxAttempts);
  }

  // ---------------------------------------------------------------- the exact verdict

  /** The count of the running counter, 0 when none runs. */
  function Count(m: Counters, key: string, now: int): nat {
    if key in m && now < m[key].expireAt then m[key].count else 0
  }

  /** An attempt gets past the limiter exactly when both counters are below the limit. */
  lemma PassesIff(cfg: Limits, m: Counters, a: Attempt)
    ensures Passes(cfg, m, a) <==>
            Count(m, EmailKey(a.email), a.time) < cfg.maxAttempts && Count(m, IpKey(a.ip), a.time) < cfg.maxAttempts
  {
  }

  /** What an attempt leaves behind: one more for the email, one more for the address
      unless the email was blocked, both gone after a login that succeeds. */
  lemma TriedLeaves(cfg: Limits, m: Counters, a: Attempt)
    ensures
      var e, i, m' := EmailKey(a.email), IpKey(a.ip), Tried(cfg, m, a);
      var blocked := cfg.maxAttempts <= Count(m, e, a.time);
      && m' - {e} - {i} == m - {e} - {i}
      && (if !blocked && Count(m, i, a.time) < cfg.maxAttempts && a.good
          then e !in m' && i !in m'
          else
            && Count(m', e, a.time) == Count(m, e, a.time) + 1
            && Count(m', i, a.time) == Count(m, i, a.time) + if blocked then 0 else 1)
  {
    KeysDiffer(a.email, a.ip);
  }

  // ---------------------------------------------------------------- the bound is reached

  function TriedAll(cfg: Limits, m: Counters, run: seq<Attempt>): Counters
    decreases |run|
  {
    if run == [] then m else TriedAll(cfg, Tried(cfg, m, run[0]), run[1..])
  }

  lemma {:induction false} LoginConcat(cfg: Limits, m: Counters, a: seq<Attempt>, b: seq<Attempt>, key: string, start: int)
    ensures TriedAll(cfg, m, a + b) == TriedAll(cfg, TriedAll(cfg, m, a), b)
    ensures Passed(cfg, m, a + b, key, start) ==
            Passed(cfg, m, a, key, start) + Passed(cfg, TriedAll(cfg, m, a), b, key, start)
    ensures Succeeded(cfg, m, a + b, key, start) ==
            Succeeded(cfg, m, a, key, start) + Succeeded(cfg, TriedAll(cfg, m, a), b, key, start)
    decreases |a|
  {
    if a == [] {
      assert a + b == b;
    } else {
      assert (a + b)[0] == a[0] && (a + b)[1..] == a[1..] + b;
      LoginConcat(cfg, Tried(cfg, m, a[0]), a[1..], b, key, start);
    }
  }

  /** One person: the email and the address hold the same counter. */
  predicate Both(m: Counters, email: string, ip: string, slot: Slot) {
    Slotted(m, EmailKey(email)) == slot && Slotted(m, IpKey(ip)) == slot
  }

  predicate OneOf(key: string, email: string, ip: string) {
    key == EmailKey(email) || key == IpKey(ip)
  }

  /** Failing attempts of one person, inside the interval and before `until`. */
  predicate Failing(cfg: Limits, run: seq<Attempt>, email: string, ip: string, start: int, until: int) {
    forall i :: 0 <= i < |run| ==>
      && run[i].email == email && run[i].ip == ip && !run[i].good
      && Inside(cfg, run[i], start) && run[i].time < until
  }

  lemma {:induction false} FailingOnRunning(cfg: Limits, m: Counters, c: Counter, run: seq<Attempt>,
                                            email: string, ip: string, key: string, start: int)
    requires Both(m, email, ip, Some(c)) && OneOf(key, email, ip)
    requires Failing(cfg, run, email, ip, start, c.expireAt) && c.count + |run| <= cfg.maxAttempts
    ensures Passed(cfg, m, run, key, start) == |run| && Succeeded(cfg, m, run, key, start) == 0
    ensures Both(TriedAll(cfg, m, run), email, ip, Some(c.(count := c.count + |run|)))
    decreases |run|
  {
    KeysDiffer(email, ip);
    if run == [] {
    } else {
      PassesIff(cfg, m, run[0]);
      FailingOnRunning(cfg, Tried(cfg, m, run[0]), c.(count := c.count + 1), run[1..], email, ip, key, start);
    }
  }

  /** The first attempt opens a window; up to the limit all of them pass. */
  lemma FailingOnStopped(cfg: Limits, m: Counters, run: seq<Attempt>,
                         email: string, ip: string, key: string, start: int)
    requires 1 <= |run| <= cfg.maxAttempts && OneOf(key, email, ip)
    requires !Running(Slotted(m, EmailKey(email)), run[0].time) && !Running(Slotted(m, IpKey(ip)), run[0].time)
    requires Failing(cfg, run, email, ip, start, run[0].time + cfg.window)
    ensures Passed(cfg, m, run, key, start) == |run| && Succeeded(cfg, m, run, key, start) == 0
    ensures Both(TriedAll(cfg, m, run), email, ip, Some(Counter(|run|, run[0].time + cfg.window)))
  {
    KeysDiffer(email, ip);
    PassesIff(cfg, m, run[0]);
    FailingOnRunning(cfg, Tried(cfg, m, run[0]), Counter(1, run[0].time + cfg.window), run[1..], email, ip, key, start);
  }

  /** With no counter running, the first `maxAttempts` attempts of a window all pass;
      then every attempt is refused, good or not, until the window ends. */
  lemma LimitIsExact(cfg: Limits, m: Counters, run: seq<Attempt>, email: string, ip: string, next: Attempt)
    requires |run| == cfg.maxAttempts && Chronological(run)
    requires Failing(cfg, run, email, ip, run[0].time, run[0].time + cfg.window)
    requires !Running(Slotted(m, EmailKey(email)), run[0].time) && !Running(Slotted(m, IpKey(ip)), run[0].time)
    requires next.email == email && next.ip == ip && run[0].time <= next.time
    ensures Passed(cfg, m, run, EmailKey(email), run[0].time) == cfg.maxAttempts
    ensures Passed(cfg, m, run, IpKey(ip), run[0].time) == cfg.maxAttempts
    ensures Passes(cfg, TriedAll(cfg, m, run), next) <==> run[0].time + cfg.window <= next.time
  {
    FailingOnStopped(cfg, m, run, email, ip, EmailKey(email), run[0].time);
    FailingOnStopped(cfg, m, run, email, ip, IpKey(ip), run[0].time);
    PassesIff(cfg, TriedAll(cfg, m, run), next);
  }

  function Fails(t: int, n: nat, email: string, ip: string): seq<Attempt> {
    seq(n, _ => Attempt(t, email, ip, false))
  }

  /** The limit is used up to the last attempt, which succeeds and clears the counters. */
  function Burst(cfg: Limits, t: int, email: string, ip: string): seq<Attempt> {
    Fails(t, cfg.maxAttempts - 1, email, ip) + [Attempt(t, email, ip, true)]
  }

  function LoginBursts(cfg: Limits, t: int, n: nat, email: string, ip: string): seq<Attempt> {
    if n == 0 then Fails(t, cfg.maxAttempts, email, ip)
    else Burst(cfg, t, email, ip) + LoginBursts(cfg, t, n - 1, email, ip)
  }

  /** One early attempt opens a window whose rest is spent in its last second; `n`
      successful logins and a full window follow at once. */
  function WorstLogins(cfg: Limits, n: nat, email: string, ip: string): seq<Attempt> {
    ([Attempt(0, email, ip, false)] + Fails(cfg.window - 1, cfg.maxAttempts - 1, email, ip))
    + LoginBursts(cfg, cfg.window, n, email, ip)
  }

  lemma GoodPasses(cfg: Limits, m: Counters, slot: Slot, t: int, email: string, ip: string, key: string, start: int)
    requires Both(m, email, ip, slot) && OneOf(key, email, ip) && start <= t < start + cfg.window
    requires Running(slot, t) ==> slot.value.count < cfg.maxAttempts
    ensures
      var run := [Attempt(t, email, ip, true)];
      && Passed(cfg, m, run, key, start) == 1 && Succeeded(cfg, m, run, key, start) == 1
      && Both(TriedAll(cfg, m, run), email, ip, None)
  {
    var run := [Attempt(t, email, ip, true)];
    KeysDiffer(email, ip);
    PassesIff(cfg, m, run[0]);
    assert run[1..] == [];
    assert TriedAll(cfg, m, run) == Tried(cfg, m, run[0]);
  }

  lemma BurstCounts(cfg: Limits, m: Counters, slot: Slot, t: int, email: string, ip: string, key: string, start: int)
    requires Both(m, email, ip, slot) && !Running(slot, t) && OneOf(key, email, ip)
    requires start <= t < start + cfg.window
    ensures Passed(cfg, m, Burst(cfg, t, email, ip), key, start) == cfg.maxAttempts
    ensures Succeeded(cfg, m, Burst(cfg, t, email, ip), key, start) == 1
    ensures Both(TriedAll(cfg, m, Burst(cfg, t, email, ip)), email, ip, None)
  {
    var fails := Fails(t, cfg.maxAttempts - 1, email, ip);
    var slot' := slot;
    if 1 < cfg.maxAttempts {
      FailingOnStopped(cfg, m, fails, email, ip, key, start);
      slot' := Some(Counter(|fails|, t + cfg.window));
    }
    GoodPasses(cfg, TriedAll(cfg, m, fails), slot', t, email, ip, key, start);
    LoginConcat(cfg, m, fails, [Attempt(t, email, ip, true)], key, start);
  }

  lemma {:induction false} LoginBurstsCount(cfg: Limits, m: Counters, slot: Slot, t: int, n: nat,
                                            email: string, ip: string, key: string, start: int)
    requires Both(m, email, ip, slot) && !Running(slot, t) && OneOf(key, email, ip)
    requires start <= t < start + cfg.window
    ensures Passed(cfg, m, LoginBursts(cfg, t, n, email, ip), key, start) == Quota(n + 1, cfg.maxAttempts)
    ensures Succeeded(cfg, m, LoginBursts(cfg, t, n, email, ip), key, start) == n
    decreases n
  {
    if n == 0 {
      FailingOnStopped(cfg, m, Fails(t, cfg.maxAttempts, email, ip), email, ip, key, start);
      assert Quota(1, cfg.maxAttempts) == cfg.maxAttempts + Quota(0, cfg.maxAttempts);
    } else {
      var burst := Burst(cfg, t, email, ip);
      BurstCounts(cfg, m, slot, t, email, ip, key, start);
      LoginBurstsCount(cfg, TriedAll(cfg, m, burst), None, t, n - 1, email, ip, key, start);
      LoginConcat(cfg, m, burst, LoginBursts(cfg, t, n - 1, email, ip), key, start);
    }
  }

  lemma {:induction false} BurstsAtOnce(cfg: Limits, t: int, n: nat, email: string, ip: string)
    ensures forall i :: 0 <= i < |LoginBursts(cfg, t, n, email, ip)| ==> LoginBursts(cfg, t, n, email, ip)[i].time == t
    decreases n
  {
    if n == 0 {
    } else {
      BurstsAtOnce(cfg, t, n - 1, email, ip);
    }
  }

  lemma FirstLoginsCount(cfg: Limits, email: string, ip: string, key: string)
    requires 2 <= cfg.window && OneOf(key, email, ip)
    ensures
      var first := [Attempt(0, email, ip, false)] + Fails(cfg.window - 1, cfg.maxAttempts - 1, email, ip);
      && Passed(cfg, map[], first, key, cfg.window - 1) == cfg.maxAttempts - 1
      && Succeeded(cfg, map[], first, key, cfg.window - 1) == 0
      && Both(TriedAll(cfg, map[], first), email, ip, Some(Counter(cfg.maxAttempts, cfg.window)))
  {
    var a, rest := Attempt(0, email, ip, false), Fails(cfg.window - 1, cfg.maxAttempts - 1, email, ip);
    var first := [a] + rest;
    KeysDiffer(email, ip);
    PassesIff(cfg, map[], a);
    assert first[0] == a && first[1..] == rest;
    var m := Tried(cfg, map[], a);
    assert Both(m, email, ip, Some(Counter(1, cfg.window)));
    FailingOnRunning(cfg, m, Counter(1, cfg.window), rest, email, ip, key, cfg.window - 1);
  }

  lemma WorstLoginsCount(cfg: Limits, n: nat, email: string, ip: string, key: string)
    requires 2 <= cfg.window && OneOf(key, email, ip)
    ensures
      var run := WorstLogins(cfg, n, email, ip);
      && Succeeded(cfg, map[], run, key, cfg.window - 1) == n
      && Passed(cfg, map[], run, key, cfg.window - 1) == cfg.maxAttempts - 1 + Quota(n + 1, cfg.maxAttempts)
  {
    var first := [Attempt(0, email, ip, false)] + Fails(cfg.window - 1, cfg.maxAttempts - 1, email, ip);
    var rest := LoginBursts(cfg, cfg.window, n, email, ip);
    FirstLoginsCount(cfg, email, ip, key);
    LoginBurstsCount(cfg, TriedAll(cfg, map[], first), Some(Counter(cfg.maxAttempts, cfg.window)),
                     cfg.window, n, email, ip, key, cfg.window - 1);
    LoginConcat(cfg, map[], first, rest, key, cfg.window - 1);
  }

  /** No smaller bound holds for login: for every limit, every number of successes and
      every window of two seconds or more, some run of one person from one address
      reaches it, on the email and on the address. */
  lemma LoginBoundIsReached(cfg: Limits, n: nat, email: string, ip: string, key: string)
    requires 2 <= cfg.window && OneOf(key, email, ip)
    ensures
      var run := WorstLogins(cfg, n, email, ip);
      && Chronological(run)
      && Succeeded(cfg, map[], run, key, cfg.window - 1) == n
      && Passed(cfg, map[], run, key, cfg.window - 1) == (2 + n) * cfg.maxAttempts - 1
  {
    WorstLoginsCount(cfg, n, email, ip, key);
    BurstsAtOnce(cfg, cfg.window, n, email, ip);
    assert Quota(2 + n, cfg.maxAttempts) == cfg.maxAttempts + Quota(n + 1, cfg.maxAttempts);
    QuotaIsProduct(2 + n, cfg.maxAttempts);
  }
}
