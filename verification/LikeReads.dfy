/** `get_like` reads Redis and the rows at two moments.

    The rows come from the view of the request's database transaction. Under
    REPEATABLE READ the first query of the request fixes that view, and every request
    that reaches `get_like` has queried before: the rows are older than the marks.
    `SeenDuring` says when such an answer was true at all. Rows newer than the marks are what
    READ COMMITTED would give, and what `count_likes` gets right after a commit. */
module LikeReads {
  import opened LikeCache

  /** At some point of the run, its ends included, `k` was liked or not, as `liked` says. */
  ghost predicate SeenDuring(s: State, es: seq<Event>, k: Key, liked: bool)
    requires Possible(s, es)
  {
    exists n :: 0 <= n <= |es| && PossibleTo(s, es, n) && (k in Effective(Run(s, es[..n])) <==> liked)
  }

  ghost predicate PossibleTo(s: State, es: seq<Event>, n: nat)
    requires n <= |es|
  {
    Possible(s, es[..n])
  }

  lemma SeenFirst(s: State, es: seq<Event>, k: Key, liked: bool)
    requires Possible(s, es) && es != []
    ensures SeenDuring(s, es, k, liked) <==>
            (k in Effective(s) <==> liked) || SeenDuring(Step(s, es[0]), es[1..], k, liked)
  {
    var t, rest := Step(s, es[0]), es[1..];
    if SeenDuring(s, es, k, liked) {
      var n :| 0 <= n <= |es| && PossibleTo(s, es, n) && (k in Effective(Run(s, es[..n])) <==> liked);
      if n > 0 {
        assert es[..n][1..] == rest[..n - 1];
        assert PossibleTo(t, rest, n - 1);
      }
    }
    if k in Effective(s) <==> liked {
      assert es[..0] == [];
      assert PossibleTo(s, es, 0);
    }
    if SeenDuring(t, rest, k, liked) {
      var m :| 0 <= m <= |rest| && PossibleTo(t, rest, m) && (k in Effective(Run(t, rest[..m])) <==> liked);
      assert es[..m + 1][1..] == rest[..m];
      assert PossibleTo(s, es, m + 1);
    }
  }

  lemma SeenAtEnd(s: State, es: seq<Event>, k: Key)
    requires Possible(s, es)
    ensures SeenDuring(s, es, k, k in Effective(Run(s, es)))
  {
    assert es[..|es|] == es;
    assert PossibleTo(s, es, |es|);
  }

  // ------------------------------------------------------- rows older than the marks

  /** The request asks that `k` be liked or not, as `liked` says, and writes if need be. */
  predicate Asks(e: Event, k: Key, liked: bool) {
    match e
    case Like(j, published) => j == k && published && liked
    case Unlike(j) => j == k && !liked
    case Write(j, mark) => j == k && (mark == Liked <==> liked)
    case _ => false
  }

  /** A DEL of `k` that finds another mark than the one the flush read. */
  predicate LosesMark(s: State, e: Event, k: Key)
    requires Enabled(s, e)
  {
    e.Delete? && k in s.flush.seen && k in s.redis && s.redis[k] != s.flush.seen[k]
  }

  /** Some step of the run makes `k` liked or not, as `liked` says, or reverts it. */
  ghost predicate Turned(s: State, es: seq<Event>, k: Key, liked: bool)
    requires Possible(s, es)
    decreases |es|
  {
    es != [] && (
      || Asks(es[0], k, liked)
      || LosesMark(s, es[0], k)
      || Turned(Step(s, es[0]), es[1..], k, liked))
  }

  /** One step gives `k` the other value exactly when it is asked to or loses a mark. */
  lemma StepTurns(s: State, e: Event, k: Key, liked: bool)
    requires Inv(s) && Enabled(s, e) && !(k in Effective(s) <==> liked)
    ensures (k in Effective(Step(s, e)) <==> liked) <==> Asks(e, k, liked) || LosesMark(s, e, k)
  {
    if e.Delete? {
      DeleteExact(s, k);
    } else if !e.Skip? {
      StepAgrees(s, e);
    }
  }

  lemma {:induction false} SeenIffTurned(s: State, es: seq<Event>, k: Key, liked: bool)
    requires Inv(s) && Possible(s, es)
    ensures SeenDuring(s, es, k, liked) <==> (k in Effective(s) <==> liked) || Turned(s, es, k, liked)
    decreases |es|
  {
    if es == [] {
      SeenAtEnd(s, es, k);
    } else {
      var t := Step(s, es[0]);
      InvStep(s, es[0]);
      SeenFirst(s, es, k, liked);
      SeenIffTurned(t, es[1..], k, liked);
      if !(k in Effective(s) <==> liked) {
        StepTurns(s, es[0], k, liked);
      }
    }
  }

  /** The mark of `k`, if there is one, says what the row says. */
  predicate MarkAgrees(s: State, k: Key) {
    k in s.redis ==> (s.redis[k] == Liked <==> k in s.db)
  }

  /** A request fixes its rows in `s` and reads Redis after the steps `es`. Its answer
      was true at some instant between if and only if a mark is still there, or there
      was none when the rows were fixed, or that mark agreed with the row, or a step
      between made the row's answer true. */
  ghost predicate ReadHolds(s: State, es: seq<Event>, k: Key)
    requires Possible(s, es)
  {
    k in Run(s, es).redis || MarkAgrees(s, k) || Turned(s, es, k, k in s.db)
  }

  lemma ReadOnOldRowsIff(s: State, es: seq<Event>, k: Key)
    requires Inv(s) && Possible(s, es)
    ensures SeenDuring(s, es, k, GetLike(Run(s, es).redis, s.db, k)) <==> ReadHolds(s, es, k)
  {
    var t := Run(s, es);
    if k in t.redis {
      SeenAtEnd(s, es, k);
      GetLikeIsEffective(t, k);
    } else {
      SeenIffTurned(s, es, k, k in s.db);
    }
  }

  /** No DEL of the run removes the mark of `k`. */
  ghost predicate KeepsMark(s: State, es: seq<Event>, k: Key)
    requires Possible(s, es)
    decreases |es|
  {
    es == [] || (
      && (es[0].Delete? ==> k !in s.flush.seen)
      && KeepsMark(Step(s, es[0]), es[1..], k))
  }

  /** Unless a DEL removed the mark of `k` in between, old rows do no harm: the answer
      is true at the moment of the GET. */
  lemma {:induction false} KeptMarkReadIsCurrent(s: State, es: seq<Event>, k: Key)
    requires Inv(s) && Possible(s, es) && KeepsMark(s, es, k)
    ensures GetLike(Run(s, es).redis, s.db, k) <==> k in Effective(Run(s, es))
    ensures k in s.redis ==> k in Run(s, es).redis
    decreases |es|
  {
    if es == [] {
      GetLikeIsEffective(s, k);
    } else {
      InvStep(s, es[0]);
      KeptMarkReadIsCurrent(Step(s, es[0]), es[1..], k);
    }
  }

  // ------------------------------------------------------- requests in two steps

  /** With `e` put in after `n` steps, users see what was asked for at every point. */
  ghost predicate FitsAt(s: State, es: seq<Event>, n: nat, e: Event)
    requires n <= |es|
  {
    var whole := es[..n] + [e] + es[n..];
    Possible(s, whole) && AgreesThroughout(s, Effective(s), whole)
  }

  lemma {:induction false} SkipFits(s: State, es: seq<Event>, n: nat, k: Key, want: Mark)
    requires Inv(s) && Possible(s, es) && RightThroughout(s, es) && n <= |es|
    requires Possible(s, es[..n])
    ensures FitsAt(s, es, n, Skip(k, want)) <==> (k in Effective(Run(s, es[..n])) <==> want == Liked)
    decreases n
  {
    var e := Skip(k, want);
    var whole := es[..n] + [e] + es[n..];
    if n == 0 {
      assert whole[0] == e && whole[1..] == es;
      AgreementIff(s, whole);
    } else {
      var t, rest := Step(s, es[0]), es[1..];
      InvStep(s, es[0]);
      assert es[..n][1..] == rest[..n - 1];
      assert whole[0] == es[0] && whole[1..] == rest[..n - 1] + [e] + rest[n - 1..];
      SkipFits(t, rest, n - 1, k, want);
      StepAgreesIff(s, es[0]);
      if Possible(s, whole) {
        AgreementIff(s, whole);
        AgreementIff(t, whole[1..]);
      }
    }
  }

  /** A request that fixed its rows in `s`, read Redis after `es` and found nothing to
      do acts like one step somewhere in between, with users seeing what was asked for
      throughout, if and only if its read holds. */
  lemma SkippedRequestFitsIff(s: State, es: seq<Event>, k: Key, want: Mark)
    requires Inv(s) && Possible(s, es) && RightThroughout(s, es)
    requires GetLike(Run(s, es).redis, s.db, k) <==> want == Liked
    ensures (exists n :: 0 <= n <= |es| && FitsAt(s, es, n, Skip(k, want))) <==> ReadHolds(s, es, k)
  {
    ReadOnOldRowsIff(s, es, k);
    forall n | 0 <= n <= |es|
      ensures FitsAt(s, es, n, Skip(k, want)) <==>
              PossibleTo(s, es, n) && (k in Effective(Run(s, es[..n])) <==> want == Liked)
    {
      PrefixPossible(s, es, n);
      SkipFits(s, es, n, k, want);
    }
  }

  /** A request that found something to do acts like one step at its SET, whatever
      rows its check saw. */
  lemma WrittenRequestActsAtItsSet(u: State, k: Key)
    ensures Effective(Step(u, Write(k, Liked))) == Effective(LikePost(u, k, true))
    ensures Effective(Step(u, Write(k, Unliked))) == Effective(UnlikePost(u, k))
  {
    GetLikeIsEffective(u, k);
  }

  /** An unlike is lost although every DEL is clean: its rows are fixed while the like
      is only a mark, a whole flush runs, and the GET finds no mark any more. The key
      is liked throughout, the request writes nothing, and it fits nowhere. */
  lemma UnlikeOnOldRowsIsLost(k: Key)
    ensures
      var s, es := State(map[k := Liked], {}, Idle), FlushEvents([k]);
      && Possible(s, es) && RightThroughout(s, es)
      && !GetLike(Run(s, es).redis, s.db, k)
      && !SeenDuring(s, es, k, false)
      && k in Effective(Run(s, es))
      && forall n :: 0 <= n <= |es| ==> !FitsAt(s, es, n, Skip(k, Unliked))
  {
    var s, es := State(map[k := Liked], {}, Idle), FlushEvents([k]);
    FlushPersists(s, [k]);
    FlushUndisturbed(k);
    UndisturbedIsRight(s, es);
    SkippedRequestFitsIff(s, es, k, Unliked);
    ReadOnOldRowsIff(s, es, k);
  }

  /** The steps of that flush: nothing turns the key, nothing disturbs it. */
  lemma FlushUndisturbed(k: Key)
    ensures
      var s, es := State(map[k := Liked], {}, Idle), FlushEvents([k]);
      Possible(s, es) && Undisturbed(s, es) && !Turned(s, es, k, false)
  {
    var s := State(map[k := Liked], {}, Idle);
    var s1 := Step(s, Begin);
    var s2 := Step(s1, Get(k));
    var s3 := Step(s2, Stage);
    var s4 := Step(s3, Commit);
    var es := [Begin, Get(k), Stage, Commit, Delete];
    assert Visits([k]) == Visits([]) + [Get(k), Stage];
    assert FlushEvents([k]) == es;
    assert es[1..] == [Get(k), Stage, Commit, Delete];
    assert es[1..][1..] == [Stage, Commit, Delete];
    assert es[1..][1..][1..] == [Commit, Delete];
    assert es[1..][1..][1..][1..] == [Delete];
    assert Possible(s4, [Delete]) && Undisturbed(s4, [Delete]) && !Turned(s4, [Delete], k, false);
    assert Possible(s3, [Commit, Delete]) && Undisturbed(s3, [Commit, Delete]) && !Turned(s3, [Commit, Delete], k, false);
    assert Possible(s2, es[1..][1..]) && Undisturbed(s2, es[1..][1..]) && !Turned(s2, es[1..][1..], k, false);
    assert Possible(s1, es[1..]) && Undisturbed(s1, es[1..]) && !Turned(s1, es[1..], k, false);
  }

  // ------------------------------------------------------- rows newer than the marks

  lemma SeenEarlier(s: State, es: seq<Event>, e: Event, k: Key, liked: bool)
    requires Possible(s, es + [e]) && Possible(s, es) && SeenDuring(s, es, k, liked)
    ensures SeenDuring(s, es + [e], k, liked)
  {
    var n :| 0 <= n <= |es| && PossibleTo(s, es, n) && (k in Effective(Run(s, es[..n])) <==> liked);
    assert (es + [e])[..n] == es[..n];
    assert PossibleTo(s, es + [e], n);
  }

  /** Whatever the rows, the staged rows and the marks the flush has read say of `k`,
      `k` has been so since the reader found no mark. */
  ghost predicate Traced(s: State, es: seq<Event>, k: Key)
    requires Possible(s, es)
  {
    var t := Run(s, es);
    && SeenDuring(s, es, k, k in t.db)
    && (!t.flush.Idle? && k in t.flush.seen ==> SeenDuring(s, es, k, t.flush.seen[k] == Liked))
    && (t.flush.Holding? && t.flush.key == k ==> SeenDuring(s, es, k, t.flush.mark == Liked))
  }

  lemma TracedStep(s: State, init: seq<Event>, e: Event, k: Key)
    requires Possible(s, init) && Enabled(Run(s, init), e) && Traced(s, init, k) && Inv(Run(s, init))
    requires Possible(s, init + [e]) && Run(s, init + [e]) == Step(Run(s, init), e)
    ensures Traced(s, init + [e], k)
  {
    var t := Run(s, init);
    SeenAtEnd(s, init, k);
    if SeenDuring(s, init, k, true) {
      SeenEarlier(s, init, e, k, true);
    }
    if SeenDuring(s, init, k, false) {
      SeenEarlier(s, init, e, k, false);
    }
  }

  lemma {:induction false} AlwaysTraced(s: State, es: seq<Event>, k: Key)
    requires Inv(s) && Possible(s, es) && k !in s.redis
    ensures Traced(s, es, k)
    decreases |es|
  {
    if es == [] {
      SeenAtEnd(s, es, k);
    } else {
      var init, e := es[..|es| - 1], es[|es| - 1];
      assert es == init + [e];
      PrefixPossible(s, es, |es| - 1);
      assert es[|es| - 1..] == [e];
      AlwaysTraced(s, init, k);
      RunKeepsInv(s, init);
      RunOne(Run(s, init), e);
      TracedStep(s, init, e, k);
    }
  }

  /** When GET finds no mark and the view of the rows is opened after any further
      steps, the answer is the effective value at some instant between the two reads.
      Under READ COMMITTED this is every read; under REPEATABLE READ only one whose
      transaction begins after the GET. */
  lemma ReadOnNewerRowsIsLinearizable(s: State, es: seq<Event>, k: Key)
    requires Inv(s) && Possible(s, es) && k !in s.redis
    ensures SeenDuring(s, es, k, k in Run(s, es).db)
  {
    AlwaysTraced(s, es, k);
  }
}
