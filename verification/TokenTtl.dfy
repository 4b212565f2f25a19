/** Expiry arithmetic on a real-valued clock, for exp truncated to whole seconds. */
module TokenTtl {
  import opened Common
  import opened TokenStore

  /** `exp` as PyJWT writes it: the whole seconds of `issued + ttl`. */
  function Exp(issued: real, ttl: int): int {
    (issued + ttl as real).Floor
  }

  /** `int(seconds)` truncates toward zero. */
  function Truncate(x: real): (n: int)
    ensures 0.0 <= x ==> n as real <= x < n as real + 1.0
    ensures x < 0.0 ==> x <= n as real < x + 1.0 && n <= 0
  {
    if 0.0 <= x then x.Floor else -((-x).Floor)
  }

  /** The instant at which the marker written by `rotate` expires. */
  function MarkerEnd(exp: int, now: real): real {
    var remaining := Truncate(exp as real - now);
    now + (if remaining < 1 then 1 else remaining) as real
  }

  /** The key is set after the token is made, so it outlives the token's exp; by
      less than the delay plus one second. */
  lemma ActiveKeyOutlivesExp(issued: real, saved: real, ttl: int)
    requires issued <= saved
    ensures Exp(issued, ttl) as real <= saved + ttl as real
    ensures saved + ttl as real < Exp(issued, ttl) as real + (saved - issued) + 1.0
  {
  }

  /** The marker of a token rotated before its exp ends strictly within a second of
      exp, and exactly at exp when the time left is a whole number of seconds. */
  lemma MarkerEndsNearExp(exp: int, now: real)
    requires now < exp as real
    ensures exp as real - 1.0 < MarkerEnd(exp, now) < exp as real + 1.0
    ensures now == now.Floor as real ==> MarkerEnd(exp, now) == exp as real
  {
    if now == now.Floor as real {
      assert exp as real - now == (exp - now.Floor) as real;
    }
  }

  /** The marker covers the rest of the token's life exactly when that rest is under
      a second or a whole number of seconds; otherwise a reuse in the last fraction
      of a second finds neither key. */
  lemma MarkerCoversLifeIff(exp: int, now: real)
    requires now < exp as real
    ensures exp as real <= MarkerEnd(exp, now) <==>
            exp as real - now < 1.0 || now == now.Floor as real
  {
    var left := exp as real - now;
    if 1.0 <= left {
      assert MarkerEnd(exp, now) == now + left.Floor as real;
      if now == now.Floor as real {
        MarkerEndsNearExp(exp, now);
      }
      if exp as real <= MarkerEnd(exp, now) {
        assert now == (exp - left.Floor) as real;
      }
    }
  }

  // ------------------------------------------------------- verify on the real clock

  datatype Live = Live(hash: Hash, until: real)

  /** The two keys of one token id, with the instants at which they expire. */
  datatype Keys = Keys(active: Option<Live>, used: Option<real>)

  function VerifyAt(keys: Keys, t: Token, at: real): TokenState {
    if keys.active.Some? && at < keys.active.value.until then
      if keys.active.value.hash == Sha256(t) then ACTIVE else FORGED
    else if keys.used.Some? && at < keys.used.value then REUSED
    else UNKNOWN
  }

  function RotateAt(keys: Keys, exp: int, now: real): Keys {
    Keys(None, Some(MarkerEnd(exp, now)))
  }

  /** The verdicts on which `refresh` revokes every session of the user. */
  predicate Compromised(state: TokenState) {
    state == REUSED || state == FORGED
  }

  /** The token was exchanged at `now`. Every later use before its exp is found out if
      and only if the time left at the exchange was under a second or whole. The uses
      that are not found out fall in the last second, and sweep nothing. */
  lemma ReuseAlwaysFoundIff(keys: Keys, t: Token, now: real)
    requires now < t.exp as real
    ensures
      (forall at :: now <= at < t.exp as real ==> VerifyAt(RotateAt(keys, t.exp, now), t, at) == REUSED) <==>
      t.exp as real - now < 1.0 || now == now.Floor as real
    ensures forall at :: now <= at < t.exp as real && !Compromised(VerifyAt(RotateAt(keys, t.exp, now), t, at)) ==>
              t.exp as real - 1.0 < at
  {
    var end := MarkerEnd(t.exp, now);
    MarkerCoversLifeIff(t.exp, now);
    MarkerEndsNearExp(t.exp, now);
    if end < t.exp as real {
      assert now <= end;
      assert VerifyAt(RotateAt(keys, t.exp, now), t, end) == UNKNOWN;
    }
  }

  /** Nine and a half seconds left are enough: a reuse a quarter of a second before exp
      counts as unknown, and no session is revoked. */
  lemma LateReuseIsUnknown(keys: Keys, t: Token)
    ensures
      var end := t.exp as real;
      var later := RotateAt(keys, t.exp, end - 9.5);
      && VerifyAt(later, t, end - 1.0) == REUSED
      && VerifyAt(later, t, end - 0.25) == UNKNOWN
      && !Compromised(VerifyAt(later, t, end - 0.25))
  {
    assert Truncate(9.5) == 9;
    assert MarkerEnd(t.exp, t.exp as real - 9.5) == t.exp as real - 0.5;
  }
}
