/** Refresh-token rotation against its own history.

    `Concrete` runs the calls of the auth service on the Redis store. `Abstract`
    keeps no keys and no expiry times at all: it only remembers what happened to
    each refresh token. The two are proved to answer every call alike. */
module TokenHistory {
  import opened Common
  import opened TokenStore

  datatype Concrete = Concrete(now: int, store: Store)

  datatype Fate = Live | Rotated | LoggedOut | Swept

  datatype Abstract = Abstract(now: int, jtis: set<nat>, issued: set<Token>, ledger: map<Token, Fate>)

  /** One call. `presented` is None for a string that carries no valid signature;
      `accessJti` and `refreshJti` are the fresh ids the call may hand out. */
  datatype Event =
    | Login(user: int, accessJti: nat, refreshJti: nat)
    | RefreshCall(presented: Option<Token>, userActive: bool, accessJti: nat, refreshJti: nat)
    | Logout(presented: Option<Token>)
    | LogoutAll(user: int)
    | Tick(seconds: nat)

  datatype Outcome = Issued(access: Token, refresh: Token) | Denied | Done

  // ---------------------------------------------------------------- what both share

  /** `decode_token` for the refresh type: PyJWT rejects from `exp` on. */
  predicate Decodes(presented: Option<Token>, now: int) {
    presented.Some? && presented.value.kind == Refresh && now < presented.value.exp
  }

  function AccessToken(cfg: Settings, user: int, jti: nat, now: int): Token {
    Token(Access, user, jti, now + cfg.accessTtl)
  }

  function RefreshToken(cfg: Settings, user: int, jti: nat, now: int): Token {
    Token(Refresh, user, jti, now + cfg.refreshTtl)
  }

  function Pair(cfg: Settings, user: int, accessJti: nat, refreshJti: nat, now: int): Outcome {
    Issued(AccessToken(cfg, user, accessJti, now), RefreshToken(cfg, user, refreshJti, now))
  }

  // ---------------------------------------------------------------- on the store

  function IssueC(cfg: Settings, s: Store, user: int, refreshJti: nat, now: int): Store {
    var t := RefreshToken(cfg, user, refreshJti, now);
    Save(s, IdOf(t), Sha256(t), cfg.refreshTtl, now)
  }

  function CallC(cfg: Settings, c: Concrete, e: Event): (Concrete, Outcome) {
    match e
    case Login(user, a, r) =>
      (c.(store := IssueC(cfg, c.store, user, r, c.now)), Pair(cfg, user, a, r, c.now))
    case RefreshCall(presented, userActive, a, r) =>
      if !Decodes(presented, c.now) then (c, Denied)
      else
        var t := presented.value;
        var state := Verify(c.store, IdOf(t), t, c.now);
        if state == REUSED || state == FORGED then
          (c.(store := RevokeAll(c.store, t.user, c.now)), Denied)
        else if state == UNKNOWN then (c, Denied)
        else if !userActive then
          (c.(store := RevokeAll(c.store, t.user, c.now)), Denied)
        else
          var rotated := Rotate(c.store, IdOf(t), t.exp - c.now, c.now);
          (c.(store := IssueC(cfg, rotated, t.user, r, c.now)), Pair(cfg, t.user, a, r, c.now))
    case Logout(presented) =>
      if !Decodes(presented, c.now) then (c, Done)
      else (c.(store := Revoke(c.store, IdOf(presented.value), c.now)), Done)
    case LogoutAll(user) => (c.(store := RevokeAll(c.store, user, c.now)), Done)
    case Tick(n) => (c.(now := c.now + n), Done)
  }

  // ---------------------------------------------------------------- on the history

  function IssueA(cfg: Settings, a: Abstract, user: int, accessJti: nat, refreshJti: nat): Abstract {
    var t := RefreshToken(cfg, user, refreshJti, a.now);
    a.(jtis := a.jtis + {accessJti, refreshJti},
       issued := a.issued + {AccessToken(cfg, user, accessJti, a.now), t},
       ledger := a.ledger[t := Live])
  }

  function Sweep(ledger: map<Token, Fate>, user: int): map<Token, Fate> {
    map t | t in ledger :: if t.user == user && ledger[t] == Live then Swept else ledger[t]
  }

  function CallA(cfg: Settings, a: Abstract, e: Event): (Abstract, Outcome)
    requires Legal(a, e)
  {
    match e
    case Login(user, aj, rj) =>
      (IssueA(cfg, a, user, aj, rj), Pair(cfg, user, aj, rj, a.now))
    case RefreshCall(presented, userActive, aj, rj) =>
      if !Decodes(presented, a.now) then (a, Denied)
      else
        var t := presented.value;
        match a.ledger[t] {
          case Live =>
            if userActive then
              (IssueA(cfg, a.(ledger := a.ledger[t := Rotated]), t.user, aj, rj), Pair(cfg, t.user, aj, rj, a.now))
            else (a.(ledger := Sweep(a.ledger, t.user)), Denied)
          case Rotated => (a.(ledger := Sweep(a.ledger, t.user)), Denied)
          case _ => (a, Denied)
        }
    case Logout(presented) =>
      if Decodes(presented, a.now) && a.ledger[presented.value] == Live
      then (a.(ledger := a.ledger[presented.value := LoggedOut]), Done)
      else (a, Done)
    case LogoutAll(user) => (a.(ledger := Sweep(a.ledger, user)), Done)
    case Tick(n) => (a.(now := a.now + n), Done)
  }

  predicate Fresh(a: Abstract, accessJti: nat, refreshJti: nat) {
    accessJti != refreshJti && accessJti !in a.jtis && refreshJti !in a.jtis
  }

  predicate Known(a: Abstract, presented: Option<Token>) {
    presented.None? || (
      && presented.value in a.issued
      && (presented.value.kind == Refresh ==> presented.value in a.ledger))
  }

  /** A signed token is one the service issued, and new jti are new. */
  predicate Legal(a: Abstract, e: Event) {
    match e
    case Login(_, aj, rj) => Fresh(a, aj, rj)
    case RefreshCall(presented, _, aj, rj) =>
      && Fresh(a, aj, rj)
      && Known(a, presented)
    case Logout(presented) => Known(a, presented)
    case _ => true
  }

  // ---------------------------------------------------------------- agreement

  ghost predicate WellFormed(cfg: Settings, a: Abstract) {
    && (forall t :: t in a.issued ==> t.jti in a.jtis)
    && (forall t :: t in a.ledger <==> t in a.issued && t.kind == Refresh)
    && (forall t :: t in a.ledger ==> t.exp <= a.now + cfg.refreshTtl)
    && (forall t, u :: t in a.issued && u in a.issued && t.jti == u.jti ==> t == u)
  }

  /** Every live key holds the token it is named after, until that token's exp. */
  ghost predicate KeysMatch(s: Store, a: Abstract) {
    forall id :: id in s.active ==>
      && s.active[id].hash.of in a.ledger
      && IdOf(s.active[id].hash.of) == id
      && s.active[id].expireAt == s.active[id].hash.of.exp
  }

  /** A live session is held under its key and in its user's index, and the index
      does not expire before it. */
  ghost predicate Held(s: Store, t: Token, now: int) {
    && IdOf(t) in s.active
    && s.active[IdOf(t)] == Session(Sha256(t), t.exp)
    && t.user in s.index
    && t.exp <= s.index[t.user].expireAt
    && t.jti in s.index[t.user].jtis
  }

  ghost predicate Reflects(s: Store, t: Token, fate: Fate, now: int) {
    && (fate == Live && now < t.exp ==> Held(s, t, now))
    && (fate != Live ==> !HasActive(s, IdOf(t), now))
    && (fate == Rotated ==> IdOf(t) in s.used && s.used[IdOf(t)] == t.exp)
    && (fate != Rotated ==> IdOf(t) !in s.used)
  }

  ghost predicate Agree(cfg: Settings, c: Concrete, a: Abstract) {
    && c.now == a.now
    && WellFormed(cfg, a)
    && KeysMatch(c.store, a)
    && (forall id :: id in c.store.used ==> id.jti in a.jtis)
    && (forall t :: t in a.ledger ==> Reflects(c.store, t, a.ledger[t], a.now))
  }

  function Expected(fate: Fate): TokenState {
    match fate
    case Live => ACTIVE
    case Rotated => REUSED
    case _ => UNKNOWN
  }

  lemma VerifyMeets(cfg: Settings, c: Concrete, a: Abstract, t: Token)
    requires Agree(cfg, c, a) && t in a.ledger && a.now < t.exp
    ensures Verify(c.store, IdOf(t), t, c.now) == Expected(a.ledger[t])
  {
    assert Reflects(c.store, t, a.ledger[t], a.now);
  }

  lemma IssueAgrees(cfg: Settings, c: Concrete, a: Abstract, user: int, aj: nat, rj: nat)
    requires Agree(cfg, c, a) && Fresh(a, aj, rj)
    ensures Agree(cfg, c.(store := IssueC(cfg, c.store, user, rj, c.now)), IssueA(cfg, a, user, aj, rj))
  {
    var s, s' := c.store, IssueC(cfg, c.store, user, rj, c.now);
    var a' := IssueA(cfg, a, user, aj, rj);
    var newest := RefreshToken(cfg, user, rj, a.now);
    forall t | t in a'.ledger ensures Reflects(s', t, a'.ledger[t], a.now) {
      if t != newest {
        assert t in a.issued && t.jti != rj;
        assert Reflects(s, t, a.ledger[t], a.now);
      } else {
        assert IdOf(t) !in s.used;
      }
    }
  }

  lemma OtherMembersStay(s: Store, id: Id, u: Token, now: int)
    requires Held(s, u, now) && now < u.exp && IdOf(u) != id
    ensures
      var index := WithoutMember(s, id, now);
      u.user in index && u.jti in index[u.user].jtis && u.exp <= index[u.user].expireAt
  {
    if u.user == id.user {
      assert u.jti in Members(s, id.user, now) - {id.jti};
    }
  }

  /** Removing the key and index entry of `id` does not disturb another token. */
  lemma OthersReflected(s: Store, s': Store, id: Id, u: Token, fate: Fate, now: int)
    requires Reflects(s, u, fate, now) && IdOf(u) != id
    requires s'.active == s.active - {id} && s'.index == WithoutMember(s, id, now)
    requires s'.used - {id} == s.used - {id}
    ensures Reflects(s', u, fate, now)
  {
    if fate == Live && now < u.exp {
      OtherMembersStay(s, id, u, now);
    }
    assert IdOf(u) in s'.used - {id} <==> IdOf(u) in s.used - {id};
    assert fate == Rotated ==> (s'.used - {id})[IdOf(u)] == (s.used - {id})[IdOf(u)];
  }

  /** Taking one live session away, with or without leaving a used marker. */
  lemma RemoveAgrees(cfg: Settings, c: Concrete, a: Abstract, t: Token, s': Store, fate: Fate)
    requires Agree(cfg, c, a) && t in a.ledger && a.ledger[t] == Live && a.now < t.exp
    requires || (fate == Rotated && s' == Rotate(c.store, IdOf(t), t.exp - c.now, c.now))
             || (fate == LoggedOut && s' == Revoke(c.store, IdOf(t), c.now))
    ensures Agree(cfg, c.(store := s'), a.(ledger := a.ledger[t := fate]))
  {
    var ledger' := a.ledger[t := fate];
    assert Reflects(c.store, t, Live, a.now);
    assert s'.used - {IdOf(t)} == c.store.used - {IdOf(t)};
    forall u | u in ledger' ensures Reflects(s', u, ledger'[u], a.now) {
      if u != t {
        assert u.jti != t.jti;
        OthersReflected(c.store, s', IdOf(t), u, a.ledger[u], a.now);
      }
    }
  }

  /** Logging out a token that is no longer live changes nothing that matters. */
  lemma RevokeDeadAgrees(cfg: Settings, c: Concrete, a: Abstract, t: Token)
    requires Agree(cfg, c, a) && t in a.ledger && a.ledger[t] != Live
    ensures Agree(cfg, c.(store := Revoke(c.store, IdOf(t), c.now)), a)
  {
    var s, s' := c.store, Revoke(c.store, IdOf(t), c.now);
    forall u | u in a.ledger ensures Reflects(s', u, a.ledger[u], a.now) {
      if u == t {
        assert Reflects(s, t, a.ledger[t], a.now);
      } else {
        assert u.jti != t.jti;
        OthersReflected(s, s', IdOf(t), u, a.ledger[u], a.now);
      }
    }
  }

  lemma SweepAgrees(cfg: Settings, c: Concrete, a: Abstract, user: int)
    requires Agree(cfg, c, a)
    ensures Agree(cfg, c.(store := RevokeAll(c.store, user, c.now)), a.(ledger := Sweep(a.ledger, user)))
  {
    var s, s' := c.store, RevokeAll(c.store, user, c.now);
    var ledger' := Sweep(a.ledger, user);
    forall t | t in ledger' ensures Reflects(s', t, ledger'[t], a.now) {
      assert Reflects(s, t, a.ledger[t], a.now);
      if t.user == user && a.ledger[t] == Live && a.now < t.exp {
        assert t.jti in Members(s, user, c.now);
      }
      if a.now >= t.exp && IdOf(t) in s'.active {
        assert s'.active[IdOf(t)].hash.of.jti == t.jti;
      }
    }
  }

  lemma TickAgrees(cfg: Settings, c: Concrete, a: Abstract, n: nat)
    requires Agree(cfg, c, a)
    ensures Agree(cfg, c.(now := c.now + n), a.(now := a.now + n))
  {
    forall t | t in a.ledger ensures Reflects(c.store, t, a.ledger[t], a.now + n) {
      assert Reflects(c.store, t, a.ledger[t], a.now);
    }
  }

  function RotatedC(c: Concrete, t: Token): Concrete {
    c.(store := Rotate(c.store, IdOf(t), t.exp - c.now, c.now))
  }

  lemma RotationAnswers(cfg: Settings, c: Concrete, a: Abstract, e: Event)
    requires Agree(cfg, c, a) && Legal(a, e) && e.RefreshCall? && Decodes(e.presented, a.now)
    requires a.ledger[e.presented.value] == Live && e.userActive
    ensures
      var t, c' := e.presented.value, RotatedC(c, e.presented.value);
      CallC(cfg, c, e) == (c'.(store := IssueC(cfg, c'.store, t.user, e.refreshJti, c'.now)), CallA(cfg, a, e).1)
  {
    VerifyMeets(cfg, c, a, e.presented.value);
  }

  lemma RotationAgrees(cfg: Settings, c: Concrete, a: Abstract, e: Event)
    requires Agree(cfg, c, a) && Legal(a, e) && e.RefreshCall? && Decodes(e.presented, a.now)
    requires a.ledger[e.presented.value] == Live && e.userActive
    ensures CallC(cfg, c, e).1 == CallA(cfg, a, e).1
    ensures Agree(cfg, CallC(cfg, c, e).0, CallA(cfg, a, e).0)
  {
    var t := e.presented.value;
    RotationAnswers(cfg, c, a, e);
    RemoveAgrees(cfg, c, a, t, RotatedC(c, t).store, Rotated);
    IssueAgrees(cfg, RotatedC(c, t), a.(ledger := a.ledger[t := Rotated]), t.user, e.accessJti, e.refreshJti);
  }

  lemma RejectionAgrees(cfg: Settings, c: Concrete, a: Abstract, e: Event)
    requires Agree(cfg, c, a) && Legal(a, e) && e.RefreshCall? && Decodes(e.presented, a.now)
    requires !(a.ledger[e.presented.value] == Live && e.userActive)
    ensures CallC(cfg, c, e).1 == CallA(cfg, a, e).1 == Denied
    ensures Agree(cfg, CallC(cfg, c, e).0, CallA(cfg, a, e).0)
  {
    var t := e.presented.value;
    VerifyMeets(cfg, c, a, t);
    if a.ledger[t] == Live || a.ledger[t] == Rotated {
      SweepAgrees(cfg, c, a, t.user);
    }
  }

  lemma LogoutAgrees(cfg: Settings, c: Concrete, a: Abstract, e: Event)
    requires Agree(cfg, c, a) && Legal(a, e) && e.Logout? && Decodes(e.presented, a.now)
    ensures Agree(cfg, CallC(cfg, c, e).0, CallA(cfg, a, e).0)
  {
    var t := e.presented.value;
    if a.ledger[t] == Live {
      RemoveAgrees(cfg, c, a, t, Revoke(c.store, IdOf(t), c.now), LoggedOut);
    } else {
      RevokeDeadAgrees(cfg, c, a, t);
    }
  }

  /** One call: same answer, and the two stay in agreement. */
  lemma CallAgrees(cfg: Settings, c: Concrete, a: Abstract, e: Event)
    requires Agree(cfg, c, a) && Legal(a, e)
    ensures CallC(cfg, c, e).1 == CallA(cfg, a, e).1
    ensures Agree(cfg, CallC(cfg, c, e).0, CallA(cfg, a, e).0)
  {
    match e
    case Login(user, aj, rj) => IssueAgrees(cfg, c, a, user, aj, rj);
    case RefreshCall(presented, _, _, _) =>
      if Decodes(presented, a.now) {
        if a.ledger[presented.value] == Live && e.userActive {
          RotationAgrees(cfg, c, a, e);
        } else {
          RejectionAgrees(cfg, c, a, e);
        }
      }
    case Logout(presented) =>
      if Decodes(presented, a.now) {
        LogoutAgrees(cfg, c, a, e);
      }
    case LogoutAll(user) => SweepAgrees(cfg, c, a, user);
    case Tick(n) => TickAgrees(cfg, c, a, n);
  }

  // ---------------------------------------------------------------- whole runs

  predicate LegalRun(cfg: Settings, a: Abstract, es: seq<Event>)
    decreases |es|
  {
    es == [] || (Legal(a, es[0]) && LegalRun(cfg, CallA(cfg, a, es[0]).0, es[1..]))
  }

  function RunC(cfg: Settings, c: Concrete, es: seq<Event>): Concrete
    decreases |es|
  {
    if es == [] then c else RunC(cfg, CallC(cfg, c, es[0]).0, es[1..])
  }

  function RunA(cfg: Settings, a: Abstract, es: seq<Event>): Abstract
    requires LegalRun(cfg, a, es)
    decreases |es|
  {
    if es == [] then a else RunA(cfg, CallA(cfg, a, es[0]).0, es[1..])
  }

  function AnswersC(cfg: Settings, c: Concrete, es: seq<Event>): seq<Outcome>
    decreases |es|
  {
    if es == [] then [] else [CallC(cfg, c, es[0]).1] + AnswersC(cfg, CallC(cfg, c, es[0]).0, es[1..])
  }

  function AnswersA(cfg: Settings, a: Abstract, es: seq<Event>): seq<Outcome>
    requires LegalRun(cfg, a, es)
    decreases |es|
  {
    if es == [] then [] else [CallA(cfg, a, es[0]).1] + AnswersA(cfg, CallA(cfg, a, es[0]).0, es[1..])
  }

  function EmptyC(now: int): Concrete {
    Concrete(now, Store(map[], map[], map[]))
  }

  function EmptyA(now: int): Abstract {
    Abstract(now, {}, {}, map[])
  }

  /** The Redis store refines the history: over every run every call answers alike. */
  lemma {:induction false} Refinement(cfg: Settings, c: Concrete, a: Abstract, es: seq<Event>)
    requires Agree(cfg, c, a) && LegalRun(cfg, a, es)
    ensures Agree(cfg, RunC(cfg, c, es), RunA(cfg, a, es))
    ensures AnswersC(cfg, c, es) == AnswersA(cfg, a, es)
    decreases |es|
  {
    if es == [] {
    } else {
      CallAgrees(cfg, c, a, es[0]);
      Refinement(cfg, CallC(cfg, c, es[0]).0, CallA(cfg, a, es[0]).0, es[1..]);
    }
  }
}
