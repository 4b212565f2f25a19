/** What the refinement of `TokenHistory` gives about the Redis store, over every run. */
module TokenSafety {
  import opened Common
  import opened TokenStore
  import opened TokenHistory

  /** How often presenting `t` was answered with new tokens. */
  function Wins(es: seq<Event>, answers: seq<Outcome>, t: Token): nat
    requires |es| == |answers|
    decreases |es|
  {
    if es == [] then 0
    else
      (if es[0].RefreshCall? && es[0].presented == Some(t) && answers[0].Issued? then 1 else 0)
      + Wins(es[1..], answers[1..], t)
  }

  lemma {:induction false} AnswersLength(cfg: Settings, c: Concrete, es: seq<Event>)
    ensures |AnswersC(cfg, c, es)| == |es|
    decreases |es|
  {
    if es == [] {
    } else {
      AnswersLength(cfg, CallC(cfg, c, es[0]).0, es[1..]);
    }
  }

  lemma CallKeepsFates(cfg: Settings, a: Abstract, e: Event, t: Token)
    requires t.jti in a.jtis && Legal(a, e) && t in a.ledger
    ensures t in CallA(cfg, a, e).0.ledger
    ensures a.ledger[t] != Live ==> CallA(cfg, a, e).0.ledger[t] == a.ledger[t]
    ensures e.RefreshCall? && e.presented == Some(t) && CallA(cfg, a, e).1.Issued? ==>
              a.ledger[t] == Live && CallA(cfg, a, e).0.ledger[t] == Rotated
    ensures a.ledger[t] == Live && CallA(cfg, a, e).0.ledger[t] == Rotated ==>
              e.RefreshCall? && e.presented == Some(t) && CallA(cfg, a, e).1.Issued?
  {
  }

  lemma CallKeepsWellFormed(cfg: Settings, a: Abstract, e: Event)
    requires WellFormed(cfg, a) && Legal(a, e)
    ensures WellFormed(cfg, CallA(cfg, a, e).0)
  {
  }

  /** Once a session has ended, how it ended never changes. */
  lemma {:induction false} FatesAreFinal(cfg: Settings, a: Abstract, es: seq<Event>, t: Token)
    requires WellFormed(cfg, a) && LegalRun(cfg, a, es) && t in a.ledger
    ensures t in RunA(cfg, a, es).ledger
    ensures a.ledger[t] != Live ==> RunA(cfg, a, es).ledger[t] == a.ledger[t]
    decreases |es|
  {
    if es == [] {
    } else {
      CallKeepsFates(cfg, a, es[0], t);
      CallKeepsWellFormed(cfg, a, es[0]);
      FatesAreFinal(cfg, CallA(cfg, a, es[0]).0, es[1..], t);
    }
  }

  lemma {:induction false} WinsOnce(cfg: Settings, c: Concrete, a: Abstract, es: seq<Event>, t: Token)
    requires Agree(cfg, c, a) && LegalRun(cfg, a, es)
    requires |AnswersC(cfg, c, es)| == |es|
    ensures t in a.ledger && a.ledger[t] != Live ==> Wins(es, AnswersC(cfg, c, es), t) == 0
    ensures (t !in a.ledger || a.ledger[t] == Live) ==>
              Wins(es, AnswersC(cfg, c, es), t) ==
              if t in RunA(cfg, a, es).ledger && RunA(cfg, a, es).ledger[t] == Rotated then 1 else 0
    decreases |es|
  {
    if es == [] {
    } else {
      CallAgrees(cfg, c, a, es[0]);
      var c', a' := CallC(cfg, c, es[0]).0, CallA(cfg, a, es[0]).0;
      assert AnswersC(cfg, c, es)[1..] == AnswersC(cfg, c', es[1..]);
      assert AnswersC(cfg, c, es)[0] == CallA(cfg, a, es[0]).1;
      WinsOnce(cfg, c', a', es[1..], t);
      if t in a.ledger {
        CallKeepsFates(cfg, a, es[0], t);
        FatesAreFinal(cfg, a', es[1..], t);
      } else {
        assert t in a'.ledger ==> a'.ledger[t] == Live;
      }
    }
  }

  /** Over every run of calls on a store that started empty, each refresh token is
      exchanged for new tokens at most once. */
  lemma EachTokenIssuesOnce(cfg: Settings, start: int, es: seq<Event>, t: Token)
    requires LegalRun(cfg, EmptyA(start), es)
    ensures |AnswersC(cfg, EmptyC(start), es)| == |es|
    ensures Wins(es, AnswersC(cfg, EmptyC(start), es), t) <= 1
  {
    AnswersLength(cfg, EmptyC(start), es);
    WinsOnce(cfg, EmptyC(start), EmptyA(start), es, t);
  }

  /** What `verify` says of a token that still decodes is its history: ACTIVE while
      nothing ended it, REUSED exactly when it was exchanged before, UNKNOWN when a
      logout or a sweep ended it, and never FORGED. */
  lemma VerifyTellsHistory(cfg: Settings, start: int, es: seq<Event>, t: Token)
    requires LegalRun(cfg, EmptyA(start), es)
    requires t in RunA(cfg, EmptyA(start), es).ledger && RunA(cfg, EmptyA(start), es).now < t.exp
    ensures |AnswersC(cfg, EmptyC(start), es)| == |es|
    ensures
      var c, a := RunC(cfg, EmptyC(start), es), RunA(cfg, EmptyA(start), es);
      var verdict := Verify(c.store, IdOf(t), t, c.now);
      && (verdict == ACTIVE <==> a.ledger[t] == Live)
      && (verdict == REUSED <==> Wins(es, AnswersC(cfg, EmptyC(start), es), t) == 1)
      && (verdict == UNKNOWN <==> a.ledger[t] == LoggedOut || a.ledger[t] == Swept)
      && verdict != FORGED
  {
    Refinement(cfg, EmptyC(start), EmptyA(start), es);
    AnswersLength(cfg, EmptyC(start), es);
    WinsOnce(cfg, EmptyC(start), EmptyA(start), es, t);
    VerifyMeets(cfg, RunC(cfg, EmptyC(start), es), RunA(cfg, EmptyA(start), es), t);
  }

  /** The call exchanges `t`, logs it out, or revokes every token of its user. */
  predicate Ends(c: Concrete, e: Event, t: Token) {
    match e
    case RefreshCall(presented, userActive, _, _) =>
      && Decodes(presented, c.now)
      && presented.value.user == t.user
      && (var state := Verify(c.store, IdOf(presented.value), presented.value, c.now);
          state == REUSED || state == FORGED || (state == ACTIVE && (!userActive || presented.value == t)))
    case Logout(presented) => presented == Some(t) && Decodes(presented, c.now)
    case LogoutAll(user) => user == t.user
    case _ => false
  }

  predicate EverEnded(cfg: Settings, c: Concrete, es: seq<Event>, t: Token)
    decreases |es|
  {
    es != [] && (Ends(c, es[0], t) || EverEnded(cfg, CallC(cfg, c, es[0]).0, es[1..], t))
  }

  lemma EndsMeansNotLive(cfg: Settings, c: Concrete, a: Abstract, e: Event, t: Token)
    requires Agree(cfg, c, a) && Legal(a, e) && t in a.ledger && a.ledger[t] == Live
    ensures t in CallA(cfg, a, e).0.ledger
    ensures CallA(cfg, a, e).0.ledger[t] != Live <==> Ends(c, e, t)
  {
    CallKeepsFates(cfg, a, e, t);
    if e.RefreshCall? && Decodes(e.presented, c.now) {
      VerifyMeets(cfg, c, a, e.presented.value);
    }
  }

  /** After any further calls a live token that still decodes is ACTIVE exactly when
      none of them exchanged it, logged it out or revoked all of its user's tokens. */
  lemma {:induction false} ActiveIffNeverEnded(cfg: Settings, c: Concrete, a: Abstract, es: seq<Event>, t: Token)
    requires Agree(cfg, c, a) && LegalRun(cfg, a, es) && t in a.ledger && a.ledger[t] == Live
    requires RunA(cfg, a, es).now < t.exp
    ensures
      var d := RunC(cfg, c, es);
      Verify(d.store, IdOf(t), t, d.now) == ACTIVE <==> !EverEnded(cfg, c, es, t)
    decreases |es|
  {
    if es == [] {
      VerifyMeets(cfg, c, a, t);
    } else {
      CallAgrees(cfg, c, a, es[0]);
      EndsMeansNotLive(cfg, c, a, es[0], t);
      var c', a' := CallC(cfg, c, es[0]).0, CallA(cfg, a, es[0]).0;
      if a'.ledger[t] == Live {
        ActiveIffNeverEnded(cfg, c', a', es[1..], t);
      } else {
        FatesAreFinal(cfg, a', es[1..], t);
        Refinement(cfg, c', a', es[1..]);
        VerifyMeets(cfg, RunC(cfg, c', es[1..]), RunA(cfg, a', es[1..]), t);
      }
    }
  }

  // ---------------------------------------------------------------- sessions

  lemma ActiveIsLive(cfg: Settings, c: Concrete, a: Abstract, id: Id)
    requires Agree(cfg, c, a) && HasActive(c.store, id, c.now)
    ensures
      var t := c.store.active[id].hash.of;
      t in a.ledger && IdOf(t) == id && a.ledger[t] == Live && a.now < t.exp && Held(c.store, t, a.now)
  {
    var t := c.store.active[id].hash.of;
    assert Reflects(c.store, t, a.ledger[t], a.now);
  }

  /** In every reachable state a live key's jti is in its user's live index set, and
      the index does not expire before the key. */
  lemma IndexCoversActiveKeys(cfg: Settings, start: int, es: seq<Event>, id: Id)
    requires LegalRun(cfg, EmptyA(start), es)
    ensures
      var c := RunC(cfg, EmptyC(start), es);
      HasActive(c.store, id, c.now) ==>
        && id.jti in Members(c.store, id.user, c.now)
        && c.store.active[id].expireAt <= c.store.index[id.user].expireAt
  {
    Refinement(cfg, EmptyC(start), EmptyA(start), es);
    var c := RunC(cfg, EmptyC(start), es);
    if HasActive(c.store, id, c.now) {
      ActiveIsLive(cfg, c, RunA(cfg, EmptyA(start), es), id);
    }
  }

  /** `revoke_all` ends every live session of the user, touches nobody else's, and
      its count is no smaller than the number of sessions it ended. */
  lemma RevokeAllEndsSessions(cfg: Settings, c: Concrete, a: Abstract, user: int)
    requires Agree(cfg, c, a)
    ensures LiveSessions(RevokeAll(c.store, user, c.now), user, c.now) == {}
    ensures forall other :: other != user ==>
              LiveSessions(RevokeAll(c.store, user, c.now), other, c.now) == LiveSessions(c.store, other, c.now)
    ensures |LiveSessions(c.store, user, c.now)| <= |Members(c.store, user, c.now)|
  {
    var live, members := LiveSessions(c.store, user, c.now), Members(c.store, user, c.now);
    forall id | id in live ensures id.jti in members && id == Id(user, id.jti) {
      ActiveIsLive(cfg, c, a, id);
    }
    assert live <= set j | j in members :: Id(user, j);
    IdsOfMembers(user, live, members);
  }

  lemma {:induction false} IdsOfMembers(user: int, ids: set<Id>, members: set<nat>)
    requires forall id :: id in ids ==> id.user == user && id.jti in members
    ensures |ids| <= |members|
    decreases |ids|
  {
    if ids == {} {
    } else {
      var id :| id in ids;
      forall other | other in ids - {id} ensures other.jti in members - {id.jti} {
        assert other == Id(user, other.jti) && id == Id(user, id.jti);
      }
      IdsOfMembers(user, ids - {id}, members - {id.jti});
    }
  }

  /** A session that has ended can never be used again, whatever calls follow. */
  lemma EndedStaysEnded(cfg: Settings, c: Concrete, a: Abstract, es: seq<Event>, t: Token)
    requires Agree(cfg, c, a) && LegalRun(cfg, a, es) && t in a.ledger && a.ledger[t] != Live
    ensures !HasActive(RunC(cfg, c, es).store, IdOf(t), RunC(cfg, c, es).now)
  {
    Refinement(cfg, c, a, es);
    FatesAreFinal(cfg, a, es, t);
    assert Reflects(RunC(cfg, c, es).store, t, RunA(cfg, a, es).ledger[t], RunA(cfg, a, es).now);
  }

  /** Logging out everywhere ends every token of the user issued so far, for good. */
  lemma LogoutAllIsFinal(cfg: Settings, c: Concrete, a: Abstract, user: int, es: seq<Event>, t: Token)
    requires Agree(cfg, c, a) && t in a.ledger && t.user == user
    requires LegalRun(cfg, CallA(cfg, a, LogoutAll(user)).0, es)
    ensures
      var d := RunC(cfg, CallC(cfg, c, LogoutAll(user)).0, es);
      !HasActive(d.store, IdOf(t), d.now)
  {
    CallAgrees(cfg, c, a, LogoutAll(user));
    EndedStaysEnded(cfg, CallC(cfg, c, LogoutAll(user)).0, CallA(cfg, a, LogoutAll(user)).0, es, t);
  }

  /** Presenting an exchanged token again before its expiry fails, leaves the user
      without a live session, and no token issued so far ever works again. */
  lemma ReuseEndsEverySession(cfg: Settings, c: Concrete, a: Abstract, e: Event, es: seq<Event>, t: Token)
    requires Agree(cfg, c, a) && Legal(a, e) && e.RefreshCall? && Decodes(e.presented, c.now)
    requires a.ledger[e.presented.value] == Rotated
    requires LegalRun(cfg, CallA(cfg, a, e).0, es)
    ensures CallC(cfg, c, e).1 == Denied
    ensures LiveSessions(CallC(cfg, c, e).0.store, e.presented.value.user, c.now) == {}
    ensures t in a.ledger && t.user == e.presented.value.user ==>
              !HasActive(RunC(cfg, CallC(cfg, c, e).0, es).store, IdOf(t), RunC(cfg, CallC(cfg, c, e).0, es).now)
  {
    VerifyMeets(cfg, c, a, e.presented.value);
    RevokeAllEndsSessions(cfg, c, a, e.presented.value.user);
    CallAgrees(cfg, c, a, e);
    if t in a.ledger && t.user == e.presented.value.user {
      EndedStaysEnded(cfg, CallC(cfg, c, e).0, CallA(cfg, a, e).0, es, t);
    }
  }

  /** A successful refresh replaces one live session by another: the count stays, and
      the other sessions are the same. */
  lemma RefreshKeepsSessionCount(cfg: Settings, c: Concrete, a: Abstract, e: Event)
    requires Agree(cfg, c, a) && Legal(a, e) && e.RefreshCall? && CallC(cfg, c, e).1.Issued?
    ensures
      var before := LiveSessions(c.store, e.presented.value.user, c.now);
      var later := LiveSessions(CallC(cfg, c, e).0.store, e.presented.value.user, c.now);
      && IdOf(e.presented.value) in before
      && later == before - {IdOf(e.presented.value)} + {IdOf(CallC(cfg, c, e).1.refresh)}
      && |later| == |before|
  {
    var t := e.presented.value;
    VerifyMeets(cfg, c, a, t);
    RotationAnswers(cfg, c, a, e);
    var newer := IdOf(CallC(cfg, c, e).1.refresh);
    var before := LiveSessions(c.store, t.user, c.now);
    if newer in before {
      ActiveIsLive(cfg, c, a, newer);
    }
    assert newer !in before;
    assert IdOf(t) in before by { ActiveIsLive(cfg, c, a, IdOf(t)); }
    assert |before - {IdOf(t)} + {newer}| == |before|;
  }

  // ---------------------------------------------------------------- what is handed out

  /** Both tokens are made for `user` at `now` with the given ids, and the refresh token
      works on the store. */
  predicate HandsOut(cfg: Settings, user: int, accessJti: nat, refreshJti: nat, now: int, d: Concrete, answer: Outcome) {
    && answer.Issued?
    && answer.access.kind == Access && answer.refresh.kind == Refresh
    && answer.access.user == user && answer.refresh.user == user
    && answer.access.jti == accessJti && answer.refresh.jti == refreshJti
    && answer.access.exp == now + cfg.accessTtl && answer.refresh.exp == now + cfg.refreshTtl
    && Verify(d.store, Id(user, refreshJti), answer.refresh, d.now) == ACTIVE
  }

  /** A login hands its user a pair that works; nobody else's session, and no other
      session of the user, changes. */
  lemma LoginHandsOut(cfg: Settings, c: Concrete, user: int, aj: nat, rj: nat)
    ensures
      var (d, answer) := CallC(cfg, c, Login(user, aj, rj));
      && HandsOut(cfg, user, aj, rj, c.now, d, answer)
      && d.now == c.now && d.store.used == c.store.used
      && forall id :: id != Id(user, rj) ==> (HasActive(d.store, id, c.now) <==> HasActive(c.store, id, c.now))
  {
  }

  /** A refresh is answered with new tokens exactly for an unexpired refresh token whose
      hash its live key holds, of an active user. The pair is made for the token's user
      and works; the token itself is REUSED from then on. Otherwise the call is denied. */
  lemma RefreshHandsOut(cfg: Settings, c: Concrete, e: Event)
    requires e.RefreshCall?
    ensures
      var (d, answer) := CallC(cfg, c, e);
      && (answer.Issued? <==>
            && e.presented.Some? && e.userActive
            && var t := e.presented.value;
               && t.kind == Refresh && c.now < t.exp
               && Id(t.user, t.jti) in c.store.active
               && c.now < c.store.active[Id(t.user, t.jti)].expireAt
               && c.store.active[Id(t.user, t.jti)].hash == Sha256(t))
      && (!answer.Issued? ==> answer == Denied)
      && (answer.Issued? ==>
            var t := e.presented.value;
            && HandsOut(cfg, t.user, e.accessJti, e.refreshJti, c.now, d, answer)
            && (e.refreshJti != t.jti ==> Verify(d.store, Id(t.user, t.jti), t, d.now) == REUSED))
  {
    if CallC(cfg, c, e).1.Issued? {
      var t := e.presented.value;
      assert IdOf(t) == Id(t.user, t.jti);
      var rotated := Rotate(c.store, IdOf(t), t.exp - c.now, c.now);
      assert CallC(cfg, c, e).0.store == IssueC(cfg, rotated, t.user, e.refreshJti, c.now);
      assert rotated.used[IdOf(t)] == t.exp;
    }
  }

  /** What is handed out is live in the history, so that it stays ACTIVE until its exp or
      until a call ends it. */
  lemma HandedOutIsLive(cfg: Settings, c: Concrete, a: Abstract, e: Event, es: seq<Event>)
    requires Agree(cfg, c, a) && Legal(a, e) && CallC(cfg, c, e).1.Issued?
    requires LegalRun(cfg, CallA(cfg, a, e).0, es)
    requires RunA(cfg, CallA(cfg, a, e).0, es).now < CallC(cfg, c, e).1.refresh.exp
    ensures
      var (c', answer) := CallC(cfg, c, e);
      var d := RunC(cfg, c', es);
      Verify(d.store, IdOf(answer.refresh), answer.refresh, d.now) == ACTIVE <==> !EverEnded(cfg, c', es, answer.refresh)
  {
    CallAgrees(cfg, c, a, e);
    var answer := CallC(cfg, c, e).1;
    assert CallA(cfg, a, e).1 == answer;
    assert CallA(cfg, a, e).0.ledger[answer.refresh] == Live;
    ActiveIffNeverEnded(cfg, CallC(cfg, c, e).0, CallA(cfg, a, e).0, es, answer.refresh);
  }
}
