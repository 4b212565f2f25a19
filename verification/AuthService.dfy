/** The auth service object, proved against the login limiter and the token machine. */
module AuthService {
  import opened Common
  import opened RateLimit
  import opened LoginLimit
  import opened TokenStore
  import opened TokenHistory

  datatype AuthError = RateLimited(retryAfter: int) | Unauthorized

  datatype IssuedTokens = IssuedTokens(access: Token, refresh: Token, expiresIn: int)

  /** The row `get_by_email` or `get_by_id` finds. */
  datatype User = User(id: int, active: bool)

  class AuthService {
    const settings: Settings
    const limits: Limits
    const limiter: RateLimiter
    const store: RefreshTokenStore

    ghost predicate Valid()
    {
      store.ttl == settings.refreshTtl
    }

    constructor (settings: Settings, limits: Limits, limiter: RateLimiter, store: RefreshTokenStore)
      requires store.ttl == settings.refreshTtl
      ensures Valid() && this.settings == settings && this.limits == limits
      ensures this.limiter == limiter && this.store == store
    {
      this.settings, this.limits, this.limiter, this.store := settings, limits, limiter, store;
    }

    method IssueTokens(user: int, accessJti: nat, refreshJti: nat, now: int) returns (r: IssuedTokens)
      requires Valid()
      modifies store
      ensures store.Contents() == IssueC(settings, old(store.Contents()), user, refreshJti, now)
      ensures Issued(r.access, r.refresh) == Pair(settings, user, accessJti, refreshJti, now)
      ensures r == IssuedTokens(Token(Kind.Access, user, accessJti, now + settings.accessTtl),
                                Token(Kind.Refresh, user, refreshJti, now + settings.refreshTtl),
                                settings.accessTtl)
      ensures store.active == old(store.active)[Id(user, refreshJti) := Session(Sha256(r.refresh), r.refresh.exp)]
    {
      var access := AccessToken(settings, user, accessJti, now);
      var refresh := RefreshToken(settings, user, refreshJti, now);
      store.SaveToken(IdOf(refresh), Sha256(refresh), now);
      r := IssuedTokens(access, refresh, settings.accessTtl);
    }

    /** Counts the attempt under both keys in turn and stops at the first that blocks. */
    method CheckRateLimit(email: string, ip: string, now: int) returns (r: Result<Unit, AuthError>)
      modifies limiter
      ensures r.Ok? <==> Passes(limits, old(limiter.counters), Attempt(now, email, ip, false))
      ensures limiter.counters == Tried(limits, old(limiter.counters), Attempt(now, email, ip, false))
      ensures r.Ok? <==> Count(old(limiter.counters), EmailKey(email), now) < limits.maxAttempts &&
                         Count(old(limiter.counters), IpKey(ip), now) < limits.maxAttempts
      ensures r.Err? ==>
                var full := if limits.maxAttempts <= Count(old(limiter.counters), EmailKey(email), now)
                            then EmailKey(email) else IpKey(ip);
                && r.error.RateLimited? && r.error.retryAfter > 0
                && full in old(limiter.counters)
                && r.error.retryAfter == old(limiter.counters)[full].expireAt - now
    {
      KeysDiffer(email, ip);
      var keys := [EmailKey(email), IpKey(ip)];
      ghost var m0 := limiter.counters;
      for i := 0 to |keys|
        invariant i == 0 ==> limiter.counters == m0
        invariant i == 1 ==> limiter.counters == Bumped(limits, m0, keys[0], now)
        invariant i == 2 ==> limiter.counters == Bumped(limits, Bumped(limits, m0, keys[0], now), keys[1], now)
        invariant i >= 1 ==> Bump(Slotted(m0, keys[0]), limits.window, now).count <= limits.maxAttempts
        invariant i >= 2 ==> Bump(Slotted(m0, keys[1]), limits.window, now).count <= limits.maxAttempts
      {
        var result := limiter.Hit(keys[i], limits.maxAttempts, limits.window, now);
        if !result.allowed {
          return Err(RateLimited(result.retryAfter));
        }
      }
      return Ok(Unit.Unit);
    }

    method ResetRateLimit(email: string, ip: string)
      modifies limiter
      ensures limiter.counters == old(limiter.counters) - {EmailKey(email)} - {IpKey(ip)}
    {
      limiter.Reset(EmailKey(email));
      limiter.Reset(IpKey(ip));
    }

    /** `user` is the account found for the email, `passwordOk` the bcrypt verdict. */
    method Login(email: string, ip: string, user: Option<User>, passwordOk: bool,
                 accessJti: nat, refreshJti: nat, now: int)
      returns (r: Result<IssuedTokens, AuthError>)
      requires Valid()
      modifies limiter, store
      ensures
        var good := user.Some? && passwordOk && user.value.active;
        var a := Attempt(now, email, ip, good);
        var c := Concrete(now, old(store.Contents()));
        && limiter.counters == Tried(limits, old(limiter.counters), a)
        && (r.Ok? <==> good && Passes(limits, old(limiter.counters), a))
        && (r.Ok? ==> (Concrete(now, store.Contents()), Issued(r.value.access, r.value.refresh))
                      == CallC(settings, c, TokenHistory.Login(user.value.id, accessJti, refreshJti)))
        && (r.Ok? ==> r.value == IssuedTokens(Token(Kind.Access, user.value.id, accessJti, now + settings.accessTtl),
                                              Token(Kind.Refresh, user.value.id, refreshJti, now + settings.refreshTtl),
                                              settings.accessTtl))
        && (r.Err? ==> store.Contents() == old(store.Contents()))
        && (r.Err? ==> (r.error.RateLimited? <==> !Passes(limits, old(limiter.counters), a)))
    {
      var checked := CheckRateLimit(email, ip, now);
      if checked.Err? {
        return Err(checked.error);
      }
      if user.None? || !passwordOk {
        return Err(Unauthorized);
      }
      if !user.value.active {
        return Err(Unauthorized);
      }
      ResetRateLimit(email, ip);
      var issued := IssueTokens(user.value.id, accessJti, refreshJti, now);
      return Ok(issued);
    }

    /** `user` is the account found for the token's user id. */
    method Refresh(presented: Option<Token>, user: Option<User>, accessJti: nat, refreshJti: nat, now: int)
      returns (r: Result<IssuedTokens, AuthError>)
      requires Valid()
      requires presented.Some? && user.Some? ==> user.value.id == presented.value.user
      modifies store
      ensures
        var e := RefreshCall(presented, user.Some? && user.value.active, accessJti, refreshJti);
        (Concrete(now, store.Contents()), if r.Ok? then Issued(r.value.access, r.value.refresh) else Denied)
        == CallC(settings, Concrete(now, old(store.Contents())), e)
      ensures r.Ok? ==> presented.Some?
      ensures r.Ok? ==>
                r.value == IssuedTokens(Token(Kind.Access, presented.value.user, accessJti, now + settings.accessTtl),
                                        Token(Kind.Refresh, presented.value.user, refreshJti, now + settings.refreshTtl),
                                        settings.accessTtl)
      ensures r.Err? ==> r.error == Unauthorized
    {
      if !Decodes(presented, now) {
        return Err(Unauthorized);
      }
      var t := presented.value;
      var state := store.VerifyToken(IdOf(t), t, now);
      if state == REUSED || state == FORGED {
        var revoked := store.RevokeAllTokens(t.user, now);
        return Err(Unauthorized);
      }
      if state == UNKNOWN {
        return Err(Unauthorized);
      }
      if user.None? || !user.value.active {
        var revoked := store.RevokeAllTokens(t.user, now);
        return Err(Unauthorized);
      }
      store.RotateToken(IdOf(t), t.exp - now, now);
      var issued := IssueTokens(user.value.id, accessJti, refreshJti, now);
      return Ok(issued);
    }

    method Logout(presented: Option<Token>, now: int)
      modifies store
      ensures Concrete(now, store.Contents()) ==
              CallC(settings, Concrete(now, old(store.Contents())), TokenHistory.Logout(presented)).0
    {
      if !Decodes(presented, now) {
        return;
      }
      store.RevokeToken(IdOf(presented.value), now);
    }

    method LogoutAll(user: int, now: int) returns (revoked: nat)
      modifies store
      ensures Concrete(now, store.Contents()) ==
              CallC(settings, Concrete(now, old(store.Contents())), TokenHistory.LogoutAll(user)).0
      ensures revoked == |Members(old(store.Contents()), user, now)|
    {
      revoked := store.RevokeAllTokens(user, now);
    }
  }
}
