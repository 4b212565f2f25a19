/** The write-behind like cache as a state machine.

    Redis holds pending marks over the committed (post, user) rows. The background
    flush is split into a GET and a staging step for each scanned key, one commit
    and one DEL, and requests may run between any two of them. A request is a single
    step (`Like`, `Unlike`), or its check comes apart from its outcome: a SET (`Write`),
    or nothing because the check found nothing to do (`Skip`). */
module LikeCache {

  datatype Key = Key(post: int, user: int)

  /** The pending value "1" or "0" of a key `post_like:{post}:{user}`. */
  datatype Mark = Liked | Unliked

  /** Progress of the flush. The domain of `seen` is `processed_keys`; its values
      record what the last GET of each key returned. `session` is the flush
      session's view of the rows: committed rows plus what it has staged. */
  datatype Flush =
    | Idle
    | Scanning(seen: map<Key, Mark>, session: set<Key>)
    | Holding(seen: map<Key, Mark>, session: set<Key>, key: Key, mark: Mark)
    | Committed(seen: map<Key, Mark>)

  datatype State = State(redis: map<Key, Mark>, db: set<Key>, flush: Flush)

  datatype Event =
    | Like(key: Key, published: bool)
    | Unlike(key: Key)
    | Write(key: Key, mark: Mark)
    | Skip(key: Key, mark: Mark)
    | Begin
    | Get(key: Key)
    | Stage
    | Commit
    | Fail
    | Delete
    | Stop

  /** What users see: pending marks win over rows. */
  function Effective(s: State): set<Key> {
    (set k | k in s.db && k !in s.redis) + (set k | k in s.redis && s.redis[k] == Liked)
  }

  /** `get_like`: the pending mark when there is one, otherwise the row. */
  predicate GetLike(redis: map<Key, Mark>, db: set<Key>, k: Key) {
    if k in redis then redis[k] == Liked else k in db
  }

  function LikePost(s: State, k: Key, published: bool): State {
    if !published || GetLike(s.redis, s.db, k) then s else s.(redis := s.redis[k := Liked])
  }

  function UnlikePost(s: State, k: Key): State {
    if !GetLike(s.redis, s.db, k) then s else s.(redis := s.redis[k := Unliked])
  }

  /** The row change made for one scanned key whose GET returned `mark`. */
  function StageMark(session: set<Key>, k: Key, mark: Mark): set<Key> {
    if mark == Liked && k !in session then session + {k}
    else if mark == Unliked && k in session then session - {k}
    else session
  }

  /** SCAN yields keys that exist, in any order and with repetitions; only DEL
      removes keys, so a yielded key is still there when it is read. */
  predicate Enabled(s: State, e: Event) {
    match e
    case Like(_, _) => true
    case Unlike(_) => true
    case Write(_, _) => true
    case Skip(_, _) => true
    case Begin => s.flush.Idle?
    case Get(k) => s.flush.Scanning? && k in s.redis
    case Stage => s.flush.Holding?
    case Commit => s.flush.Scanning?
    case Fail => s.flush.Scanning? || s.flush.Holding?
    case Delete => s.flush.Committed?
    case Stop => s.flush.Committed?
  }

  function Step(s: State, e: Event): State
    requires Enabled(s, e)
  {
    match e
    case Like(k, published) => LikePost(s, k, published)
    case Unlike(k) => UnlikePost(s, k)
    case Write(k, mark) => s.(redis := s.redis[k := mark])
    case Skip(_, _) => s
    case Begin => s.(flush := Scanning(map[], s.db))
    case Get(k) => s.(flush := Holding(s.flush.seen, s.flush.session, k, s.redis[k]))
    case Stage =>
      var f := s.flush;
      s.(flush := Scanning(f.seen[f.key := f.mark], StageMark(f.session, f.key, f.mark)))
    case Commit => s.(db := s.flush.session, flush := Committed(s.flush.seen))
    case Fail => s.(flush := Idle)
    case Delete => s.(redis := s.redis - s.flush.seen.Keys, flush := Idle)
    case Stop => s.(flush := Idle)
  }

  predicate Possible(s: State, es: seq<Event>)
    decreases |es|
  {
    es == [] || (Enabled(s, es[0]) && Possible(Step(s, es[0]), es[1..]))
  }

  function Run(s: State, es: seq<Event>): State
    requires Possible(s, es)
    decreases |es|
  {
    if es == [] then s else Run(Step(s, es[0]), es[1..])
  }

  /** The ideal set of likes: only likes of published posts and unlikes matter. */
  function IdealStep(ideal: set<Key>, e: Event): set<Key> {
    match e
    case Like(k, published) => if published then ideal + {k} else ideal
    case Unlike(k) => ideal - {k}
    case Write(k, mark) => if mark == Liked then ideal + {k} else ideal - {k}
    case Skip(k, mark) => if mark == Liked then ideal + {k} else ideal - {k}
    case _ => ideal
  }

  function Replay(ideal: set<Key>, es: seq<Event>): set<Key>
    decreases |es|
  {
    if es == [] then ideal else Replay(IdealStep(ideal, es[0]), es[1..])
  }

  // ---------------------------------------------------------------- invariant

  ghost predicate Staged(seen: map<Key, Mark>, rows: set<Key>) {
    forall k :: k in seen ==> (k in rows <==> seen[k] == Liked)
  }

  ghost predicate Inv(s: State) {
    && (!s.flush.Idle? ==> s.flush.seen.Keys <= s.redis.Keys)
    && (s.flush.Scanning? || s.flush.Holding? ==>
          && Staged(s.flush.seen, s.flush.session)
          && (forall k :: k !in s.flush.seen ==> (k in s.flush.session <==> k in s.db)))
    && (s.flush.Holding? ==> s.flush.key in s.redis)
    && (s.flush.Committed? ==> Staged(s.flush.seen, s.db))
  }

  lemma InvStep(s: State, e: Event)
    requires Inv(s) && Enabled(s, e)
    ensures Inv(Step(s, e))
  {
  }

  /** `get_like` is membership in the effective set. */
  lemma GetLikeIsEffective(s: State, k: Key)
    ensures GetLike(s.redis, s.db, k) <==> k in Effective(s)
  {
  }

  /** What a request for `mark` asks for is so already. */
  predicate NothingToDo(s: State, k: Key, mark: Mark) {
    GetLike(s.redis, s.db, k) <==> mark == Liked
  }

  /** Every step but DEL moves the effective set as the ideal set moves: likes and
      unlikes change it, no step of the flush does, and neither does a failure
      with rollback or a stop between commit and DEL. The exception is a request
      that writes nothing although there is something to do. */
  lemma StepAgrees(s: State, e: Event)
    requires Inv(s) && Enabled(s, e) && !e.Delete?
    ensures Effective(Step(s, e)) == IdealStep(Effective(s), e) <==>
            (e.Skip? ==> NothingToDo(s, e.key, e.mark))
  {
    if e.Skip? {
      assert e.key in Effective(s) <==> GetLike(s.redis, s.db, e.key);
      assert e.key in IdealStep(Effective(s), e) <==> e.mark == Liked;
    }
  }

  /** Every mark the flush read is still the one Redis holds. */
  ghost predicate Clean(s: State)
    requires s.flush.Committed? && Inv(s)
  {
    forall k :: k in s.flush.seen ==> s.redis[k] == s.flush.seen[k]
  }

  /** DEL keeps the value of a scanned key exactly when Redis still holds the mark
      its last GET saw; it never touches a key that was not scanned. */
  lemma DeleteExact(s: State, k: Key)
    requires Inv(s) && s.flush.Committed?
    ensures k in s.flush.seen ==>
              ((k in Effective(Step(s, Delete)) <==> k in Effective(s)) <==> s.redis[k] == s.flush.seen[k])
    ensures k !in s.flush.seen ==>
              && (k in Step(s, Delete).redis <==> k in s.redis)
              && (k in s.redis ==> Step(s, Delete).redis[k] == s.redis[k])
              && (k in Effective(Step(s, Delete)) <==> k in Effective(s))
  {
  }

  lemma DeleteAgrees(s: State)
    requires Inv(s) && s.flush.Committed?
    ensures Effective(Step(s, Delete)) == Effective(s) <==> Clean(s)
  {
    var t := Step(s, Delete);
    if Clean(s) {
      forall k ensures k in Effective(t) <==> k in Effective(s) { DeleteExact(s, k); }
    } else {
      var k :| k in s.flush.seen && s.redis[k] != s.flush.seen[k];
      DeleteExact(s, k);
    }
  }

  // ---------------------------------------------------------------- whole runs

  lemma {:induction false} RunKeepsInv(s: State, es: seq<Event>)
    requires Inv(s) && Possible(s, es)
    ensures Inv(Run(s, es))
    decreases |es|
  {
    if es == [] {
    } else {
      InvStep(s, es[0]);
      RunKeepsInv(Step(s, es[0]), es[1..]);
    }
  }

  lemma {:induction false} PrefixPossible(s: State, es: seq<Event>, n: nat)
    requires Possible(s, es) && n <= |es|
    ensures Possible(s, es[..n]) && Possible(Run(s, es[..n]), es[n..])
    ensures Run(s, es) == Run(Run(s, es[..n]), es[n..])
    decreases n
  {
    if n == 0 {
      assert es[..0] == [] && es[0..] == es;
    } else {
      PrefixPossible(Step(s, es[0]), es[1..], n - 1);
      assert es[..n][1..] == es[1..][..n - 1] && es[1..][n - 1..] == es[n..];
    }
  }

  /** At every point of the run the effective set is the ideal one. */
  ghost predicate AgreesThroughout(s: State, ideal: set<Key>, es: seq<Event>)
    requires Possible(s, es)
    decreases |es|
  {
    && Effective(s) == ideal
    && (es != [] ==> AgreesThroughout(Step(s, es[0]), IdealStep(ideal, es[0]), es[1..]))
  }

  /** A DEL finds the marks the flush read; a request that writes nothing has nothing
      to do. */
  ghost predicate Right(s: State, e: Event)
    requires Inv(s) && Enabled(s, e)
  {
    (e.Delete? ==> Clean(s)) && (e.Skip? ==> NothingToDo(s, e.key, e.mark))
  }

  ghost predicate RightThroughout(s: State, es: seq<Event>)
    requires Inv(s) && Possible(s, es)
    decreases |es|
  {
    es == [] || (
      InvStep(s, es[0]);
      Right(s, es[0]) && RightThroughout(Step(s, es[0]), es[1..]))
  }

  lemma StepAgreesIff(s: State, e: Event)
    requires Inv(s) && Enabled(s, e)
    ensures Effective(Step(s, e)) == IdealStep(Effective(s), e) <==> Right(s, e)
  {
    if e.Delete? {
      DeleteAgrees(s);
    } else {
      StepAgrees(s, e);
    }
  }

  /** Over every run of requests and flushes, failed and abandoned ones included,
      users see the ideal likes at every point if and only if every DEL is clean and
      every request that wrote nothing had nothing to do. */
  lemma {:induction false} AgreementIff(s: State, es: seq<Event>)
    requires Inv(s) && Possible(s, es)
    ensures AgreesThroughout(s, Effective(s), es) <==> RightThroughout(s, es)
    decreases |es|
  {
    if es == [] {
    } else {
      var t := Step(s, es[0]);
      InvStep(s, es[0]);
      AgreementIff(t, es[1..]);
      StepAgreesIff(s, es[0]);
      assert AgreesThroughout(t, IdealStep(Effective(s), es[0]), es[1..]) ==>
          Effective(t) == IdealStep(Effective(s), es[0]);
    }
  }

  lemma {:induction false} RightRunEndsIdeal(s: State, es: seq<Event>)
    requires Inv(s) && Possible(s, es) && RightThroughout(s, es)
    ensures Effective(Run(s, es)) == Replay(Effective(s), es)
    decreases |es|
  {
    if es == [] {
    } else {
      InvStep(s, es[0]);
      StepAgreesIff(s, es[0]);
      RightRunEndsIdeal(Step(s, es[0]), es[1..]);
    }
  }

  /** A request writes a key between the key's GET and the end of that flush. */
  ghost predicate Disturbs(s: State, e: Event) {
    && (e.Like? || e.Unlike? || e.Write?)
    && !s.flush.Idle?
    && (e.key in s.flush.seen || (s.flush.Holding? && e.key == s.flush.key))
    && Step(s, e) != s
  }

  ghost predicate Undisturbed(s: State, es: seq<Event>)
    requires Possible(s, es)
    decreases |es|
  {
    es == [] || (
      && !Disturbs(s, es[0])
      && (es[0].Skip? ==> NothingToDo(s, es[0].key, es[0].mark))
      && Undisturbed(Step(s, es[0]), es[1..]))
  }

  ghost predicate Current(s: State) {
    && Inv(s)
    && (!s.flush.Idle? ==> forall k :: k in s.flush.seen ==> s.redis[k] == s.flush.seen[k])
    && (s.flush.Holding? ==> s.redis[s.flush.key] == s.flush.mark)
  }

  lemma {:induction false} UndisturbedIsRight(s: State, es: seq<Event>)
    requires Current(s) && Possible(s, es) && Undisturbed(s, es)
    ensures RightThroughout(s, es)
    decreases |es|
  {
    if es == [] {
    } else {
      InvStep(s, es[0]);
      assert Current(Step(s, es[0]));
      UndisturbedIsRight(Step(s, es[0]), es[1..]);
    }
  }

  /** However requests and flush steps interleave, if no key is written between its
      GET and the DEL, and requests that wrote nothing had nothing to do, then users end up with exactly the likes they asked for. */
  lemma UndisturbedRunIsIdeal(s: State, es: seq<Event>)
    requires s.flush.Idle? && Possible(s, es) && Undisturbed(s, es)
    ensures AgreesThroughout(s, Effective(s), es)
    ensures Effective(Run(s, es)) == Replay(Effective(s), es)
  {
    UndisturbedIsRight(s, es);
    AgreementIff(s, es);
    RightRunEndsIdeal(s, es);
  }

  /** Without that proviso the property is false: an unlike that lands between GET
      and DEL is lost, and the like comes back. */
  lemma UnlikeDuringFlushIsLost(k: Key)
    ensures
      var s := State(map[k := Liked], {}, Idle);
      var es := [Begin, Get(k), Stage, Unlike(k), Commit, Delete];
      Possible(s, es) && k in Effective(Run(s, es)) && k !in Replay(Effective(s), es)
  {
    var s := State(map[k := Liked], {}, Idle);
    var s1 := Step(s, Begin);
    var s2 := Step(s1, Get(k));
    var s3 := Step(s2, Stage);
    var s4 := Step(s3, Unlike(k));
    var s5 := Step(s4, Commit);
    var s6 := Step(s5, Delete);
    var es := [Begin, Get(k), Stage, Unlike(k), Commit, Delete];
    assert es[1..] == [Get(k), Stage, Unlike(k), Commit, Delete];
    assert es[1..][1..] == [Stage, Unlike(k), Commit, Delete];
    assert es[1..][1..][1..] == [Unlike(k), Commit, Delete];
    assert es[1..][1..][1..][1..] == [Commit, Delete];
    assert es[1..][1..][1..][1..][1..] == [Delete];
    assert Possible(s5, [Delete]) && Run(s5, [Delete]) == s6;
    assert Possible(s4, [Commit, Delete]) && Run(s4, [Commit, Delete]) == s6;
    assert Possible(s3, es[1..][1..][1..]) && Run(s3, es[1..][1..][1..]) == s6;
    assert Possible(s2, es[1..][1..]) && Run(s2, es[1..][1..]) == s6;
    assert Possible(s1, es[1..]) && Run(s1, es[1..]) == s6;
    assert Replay({}, [Delete]) == {};
    assert Replay({}, [Commit, Delete]) == {};
    assert Replay({k}, [Unlike(k), Commit, Delete]) == Replay({k} - {k}, [Commit, Delete]);
    assert Replay({k}, es[1..][1..]) == {};
    assert Replay({k}, es) == {};
    assert Effective(s) == {k};
  }

  // ------------------------------------------------------- one whole flush

  function Visits(scan: seq<Key>): seq<Event> {
    if scan == [] then [] else Visits(scan[..|scan| - 1]) + [Get(scan[|scan| - 1]), Stage]
  }

  function FlushEvents(scan: seq<Key>): seq<Event> {
    [Begin] + Visits(scan) + [Commit, Delete]
  }

  lemma {:induction false} RunConcat(s: State, a: seq<Event>, b: seq<Event>)
    requires Possible(s, a) && Possible(Run(s, a), b)
    ensures Possible(s, a + b) && Run(s, a + b) == Run(Run(s, a), b)
    decreases |a|
  {
    if a == [] {
      assert a + b == b;
    } else {
      RunConcat(Step(s, a[0]), a[1..], b);
      assert (a + b)[1..] == a[1..] + b;
    }
  }

  lemma RunOne(s: State, e: Event)
    requires Enabled(s, e)
    ensures Possible(s, [e]) && Run(s, [e]) == Step(s, e)
  {
    assert [e][1..] == [];
  }

  lemma RunTwo(s: State, e: Event, f: Event)
    requires Enabled(s, e) && Enabled(Step(s, e), f)
    ensures Possible(s, [e, f]) && Run(s, [e, f]) == Step(Step(s, e), f)
  {
    RunOne(s, e);
    RunOne(Step(s, e), f);
    RunConcat(s, [e], [f]);
    assert [e] + [f] == [e, f];
  }

  /** The state after the flush has visited `scan` with nobody else running. */
  function Visited(s: State, scan: seq<Key>): State
    requires forall k :: k in scan ==> k in s.redis
  {
    s.(flush := Scanning(map k | k in scan :: s.redis[k],
                         (set k | k in s.db && k !in scan) + (set k | k in scan && s.redis[k] == Liked)))
  }

  lemma VisitOne(s: State, init: seq<Key>, k: Key)
    requires k in s.redis && forall j :: j in init ==> j in s.redis
    ensures Step(Step(Visited(s, init), Get(k)), Stage) == Visited(s, init + [k])
  {
    var v, u := Visited(s, init + [k]), Step(Step(Visited(s, init), Get(k)), Stage);
    assert u.flush.seen == v.flush.seen;
    assert u.flush.session == v.flush.session;
  }

  lemma {:induction false} VisitsRun(s: State, scan: seq<Key>)
    requires s.flush.Idle? && forall k :: k in scan ==> k in s.redis
    ensures Possible(s, [Begin] + Visits(scan)) && Run(s, [Begin] + Visits(scan)) == Visited(s, scan)
  {
    if scan == [] {
      RunOne(s, Begin);
      assert [Begin] + Visits(scan) == [Begin];
      assert Visited(s, scan).flush.seen == map[];
      assert Visited(s, scan).flush.session == s.db;
    } else {
      var init, k := scan[..|scan| - 1], scan[|scan| - 1];
      assert scan == init + [k];
      VisitsRun(s, init);
      var t := Visited(s, init);
      VisitOne(s, init, k);
      RunTwo(t, Get(k), Stage);
      RunConcat(s, [Begin] + Visits(init), [Get(k), Stage]);
      assert [Begin] + Visits(scan) == [Begin] + Visits(init) + [Get(k), Stage];
    }
  }

  lemma FlushRun(s: State, scan: seq<Key>)
    requires s.flush.Idle? && forall k :: k in scan ==> k in s.redis
    ensures Possible(s, FlushEvents(scan))
    ensures Run(s, FlushEvents(scan)) ==
            State(s.redis - (set k | k in scan), Visited(s, scan).flush.session, Idle)
  {
    VisitsRun(s, scan);
    var v := Visited(s, scan);
    RunTwo(v, Commit, Delete);
    RunConcat(s, [Begin] + Visits(scan), [Commit, Delete]);
    assert v.flush.seen.Keys == set k | k in scan;
  }

  /** An undisturbed flush, whatever order and repetitions SCAN chose: users see no
      change, exactly the scanned marks are gone, and when SCAN covered every
      pending key the rows are the effective set. */
  lemma FlushPersists(s: State, scan: seq<Key>)
    requires s.flush.Idle? && forall k :: k in scan ==> k in s.redis
    ensures Possible(s, FlushEvents(scan))
    ensures
      var t := Run(s, FlushEvents(scan));
      && Effective(t) == Effective(s)
      && t.redis == s.redis - (set k | k in scan)
      && t.flush.Idle?
      && ((forall k :: k in s.redis ==> k in scan) ==> t.db == Effective(s) && t.redis == map[])
  {
    FlushRun(s, scan);
    var t := Run(s, FlushEvents(scan));
    if forall k :: k in s.redis ==> k in scan {
      assert t.redis.Keys == {};
    }
  }
}
