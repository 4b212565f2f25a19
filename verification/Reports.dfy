/** Report processing: one transaction over reports, sanctions and posts. */
module Reports {
  import opened Common

  datatype ContentType = POST | COMMENT | USER
  datatype Status = PENDING | ACCEPTED | REJECTED
  datatype SanctionType = WARNING | SUSPENDED | BANNED
  datatype PostStatus = PUBLISHED | HIDDEN | DELETED

  datatype Report = Report(
    contentType: ContentType,
    postId: Option<int>,
    commentId: Option<int>,
    reportedUser: int,
    category: string,
    reason: Option<string>,
    status: Status,
    sanction: Option<SanctionType>,
    reviewer: Option<int>,
    processedAt: Option<int>)

  datatype Sanction = Sanction(user: int, kind: SanctionType, reason: string, reportId: int, expiresAt: Option<int>)

  datatype Post = Post(author: int, status: PostStatus)

  datatype Comment = Comment(postId: int, author: int, deleted: bool)

  datatype Db = Db(
    reports: map<int, Report>,
    sanctions: seq<Sanction>,
    posts: map<int, Post>,
    comments: map<int, Comment>)

  /** `accept` is ACCEPTED, its absence REJECTED: the schema allows no other status. */
  datatype Request = Request(accept: bool, sanction: Option<SanctionType>, expiresAt: Option<int>)

  datatype ReportError =
    | ReportNotFound
    | AlreadyProcessed
    | BadTarget
    | TargetNotFound
    | CommentElsewhere
    | SanctionOnRejection
    | CannotHide
    | ExpiryMissing
    | ExpiryForbidden

  // ---------------------------------------------------------------- same target

  /** The conditions `_same_reports` builds from `r`, applied to a row `x`. */
  predicate Matches(r: Report, x: Report) {
    match r.contentType
    case POST => x.contentType == POST && r.postId.Some? && x.postId == r.postId && x.commentId == None
    case COMMENT =>
      x.contentType == COMMENT && r.postId.Some? && r.commentId.Some? && x.postId == r.postId && x.commentId == r.commentId
    case USER =>
      x.contentType == USER && x.reportedUser == r.reportedUser && x.postId == None && x.commentId == None
  }

  /** The ids a report of its type must and must not carry. */
  predicate WellShaped(r: Report) {
    match r.contentType
    case POST => r.postId.Some? && r.commentId.None?
    case COMMENT => r.postId.Some? && r.commentId.Some?
    case USER => r.postId.None? && r.commentId.None?
  }

  datatype Target = OnPost(post: int) | OnComment(post: int, comment: int) | OnUser(user: int)

  function TargetOf(r: Report): Target
    requires WellShaped(r)
  {
    match r.contentType
    case POST => OnPost(r.postId.value)
    case COMMENT => OnComment(r.postId.value, r.commentId.value)
    case USER => OnUser(r.reportedUser)
  }

  /** The matching rows are exactly the well-shaped reports of the same target. */
  lemma MatchesIsSameTarget(r: Report, x: Report)
    requires WellShaped(r)
    ensures Matches(r, x) <==> WellShaped(x) && TargetOf(x) == TargetOf(r)
  {
  }

  lemma MatchesIsEquivalence(a: Report, b: Report, c: Report)
    requires WellShaped(a) && WellShaped(b) && WellShaped(c)
    ensures Matches(a, a)
    ensures Matches(a, b) <==> Matches(b, a)
    ensures Matches(a, b) && Matches(b, c) ==> Matches(a, c)
  {
    MatchesIsSameTarget(a, a);
    MatchesIsSameTarget(a, b);
    MatchesIsSameTarget(b, a);
    MatchesIsSameTarget(b, c);
    MatchesIsSameTarget(a, c);
  }

  // ---------------------------------------------------------------- one call

  function Validate(db: Db, r: Report): Result<Unit, ReportError> {
    if r.status != PENDING then Err(AlreadyProcessed)
    else if !WellShaped(r) then Err(BadTarget)
    else match r.contentType {
      case POST =>
        if r.postId.value !in db.posts then Err(TargetNotFound) else Ok(Unit.Unit)
      case COMMENT =>
        var c := r.commentId.value;
        if c !in db.comments || db.comments[c].deleted then Err(TargetNotFound)
        else if db.comments[c].postId != r.postId.value then Err(CommentElsewhere)
        else if db.comments[c].postId !in db.posts then Err(TargetNotFound)
        else Ok(Unit.Unit)
      case USER => Ok(Unit.Unit)
    }
  }

  predicate InBatch(db: Db, r: Report, id: int) {
    id in db.reports && db.reports[id].status == PENDING && Matches(r, db.reports[id])
  }

  function Decided(x: Report, reviewer: int, req: Request, now: int): Report {
    x.(status := if req.accept then ACCEPTED else REJECTED,
       sanction := req.sanction, reviewer := Some(reviewer), processedAt := Some(now))
  }

  function UpdateBatch(db: Db, r: Report, reviewer: int, req: Request, now: int): map<int, Report> {
    map id | id in db.reports ::
      if InBatch(db, r, id) then Decided(db.reports[id], reviewer, req, now) else db.reports[id]
  }

  predicate Hides(req: Request) {
    req.accept && (req.sanction == Some(SUSPENDED) || req.sanction == Some(BANNED))
  }

  predicate Punishes(req: Request) {
    req.accept && req.sanction.Some?
  }

  function HidePost(posts: map<int, Post>, p: int): map<int, Post> {
    if p in posts && posts[p].status == PUBLISHED then posts[p := posts[p].(status := HIDDEN)] else posts
  }

  function ReasonOf(r: Report): string {
    if r.reason.Some? && r.reason.value != "" then r.reason.value else r.category
  }

  /** Why a valid PENDING report cannot be processed with this request. */
  function Refusal(r: Report, req: Request): Option<ReportError> {
    if !req.accept && req.sanction.Some? then Some(SanctionOnRejection)
    else if Hides(req) && r.contentType != POST then Some(CannotHide)
    else if Punishes(req) && req.sanction == Some(SUSPENDED) && req.expiresAt.None? then Some(ExpiryMissing)
    else if Punishes(req) && req.sanction != Some(SUSPENDED) && req.expiresAt.Some? then Some(ExpiryForbidden)
    else None
  }

  function Process(db: Db, id: int, reviewer: int, req: Request, now: int): (Db, Result<Unit, ReportError>) {
    if id !in db.reports then (db, Err(ReportNotFound))
    else
      var r := db.reports[id];
      var valid := Validate(db, r);
      if valid.Err? then (db, valid)
      else if Refusal(r, req).Some? then (db, Err(Refusal(r, req).value))
      else
        (Db(UpdateBatch(db, r, reviewer, req, now),
            if Punishes(req)
            then db.sanctions + [Sanction(r.reportedUser, req.sanction.value, ReasonOf(r), id, req.expiresAt)]
            else db.sanctions,
            if Hides(req) then HidePost(db.posts, r.postId.value) else db.posts,
            db.comments),
         Ok(Unit.Unit))
  }

  // ---------------------------------------------------------------- what a call does

  predicate SameTarget(db: Db, x: int, y: int) {
    && x in db.reports && y in db.reports
    && WellShaped(db.reports[x]) && WellShaped(db.reports[y])
    && TargetOf(db.reports[x]) == TargetOf(db.reports[y])
  }

  /** A call that succeeds decides every pending report of the target, its own among
      them; no other report changes, and none of the target stays pending. */
  ghost predicate DecidesTarget(db: Db, db': Db, id: int, reviewer: int, req: Request, now: int) {
    && db'.reports.Keys == db.reports.Keys
    && id in db.reports && WellShaped(db.reports[id]) && db.reports[id].status == PENDING
    && forall x :: x in db.reports ==>
         db'.reports[x] == if SameTarget(db, x, id) && db.reports[x].status == PENDING
                           then Decided(db.reports[x], reviewer, req, now) else db.reports[x]
  }

  /** A call that fails changes nothing at all; one that succeeds decides its target. */
  lemma ProcessDecidesTheTarget(db: Db, id: int, reviewer: int, req: Request, now: int)
    ensures
      var (db', r) := Process(db, id, reviewer, req, now);
      if r.Err? then db' == db
      else
        && DecidesTarget(db, db', id, reviewer, req, now)
        && forall x :: x in db'.reports && SameTarget(db, x, id) ==> db'.reports[x].status != PENDING
  {
    if id in db.reports && WellShaped(db.reports[id]) {
      forall x | x in db.reports ensures Matches(db.reports[id], db.reports[x]) <==> SameTarget(db, x, id) {
        MatchesIsSameTarget(db.reports[id], db.reports[x]);
      }
    }
  }

  /** A pending report of the same type, with the same ids, and for a user report about
      the same user. */
  predicate PendingAlike(r: Report, x: Report) {
    && x.status == PENDING
    && x.contentType == r.contentType && x.postId == r.postId && x.commentId == r.commentId
    && (r.contentType == USER ==> x.reportedUser == r.reportedUser)
  }

  /** The row carries the decision, and what was reported stays. */
  predicate Records(before: Report, later: Report, reviewer: int, req: Request, now: int) {
    && later.status == (if req.accept then ACCEPTED else REJECTED)
    && later.sanction == req.sanction && later.reviewer == Some(reviewer) && later.processedAt == Some(now)
    && later.contentType == before.contentType && later.postId == before.postId && later.commentId == before.commentId
    && later.reportedUser == before.reportedUser && later.category == before.category && later.reason == before.reason
  }

  /** Every row of the batch, field by field, for any well-shaped report that stands for it. */
  lemma UpdateBatchWrites(db: Db, r: Report, reviewer: int, req: Request, now: int)
    requires WellShaped(r)
    ensures UpdateBatch(db, r, reviewer, req, now).Keys == db.reports.Keys
    ensures forall x :: x in db.reports && PendingAlike(r, db.reports[x]) ==>
              Records(db.reports[x], UpdateBatch(db, r, reviewer, req, now)[x], reviewer, req, now)
    ensures forall x :: x in db.reports && !PendingAlike(r, db.reports[x]) ==>
              UpdateBatch(db, r, reviewer, req, now)[x] == db.reports[x]
  {
    forall x | x in db.reports ensures InBatch(db, r, x) <==> PendingAlike(r, db.reports[x]) {
      MatchesIsSameTarget(r, db.reports[x]);
    }
  }

  /** What a successful call writes, field by field. */
  lemma ProcessWrites(db: Db, id: int, reviewer: int, req: Request, now: int)
    requires Process(db, id, reviewer, req, now).1.Ok?
    ensures id in db.reports && Process(db, id, reviewer, req, now).0.reports.Keys == db.reports.Keys
    ensures PendingAlike(db.reports[id], db.reports[id])
    ensures forall x :: x in db.reports && PendingAlike(db.reports[id], db.reports[x]) ==>
              Records(db.reports[x], Process(db, id, reviewer, req, now).0.reports[x], reviewer, req, now)
    ensures forall x :: x in db.reports && !PendingAlike(db.reports[id], db.reports[x]) ==>
              Process(db, id, reviewer, req, now).0.reports[x] == db.reports[x]
    ensures
      var r, db' := db.reports[id], Process(db, id, reviewer, req, now).0;
      var hides := req.accept && (req.sanction == Some(SUSPENDED) || req.sanction == Some(BANNED));
      && db'.posts.Keys == db.posts.Keys
      && (forall p :: p in db.posts ==>
            && db'.posts[p].author == db.posts[p].author
            && db'.posts[p].status ==
               if hides && r.postId == Some(p) && db.posts[p].status == PUBLISHED then HIDDEN else db.posts[p].status)
      && db'.comments == db.comments
    ensures
      var r, db' := db.reports[id], Process(db, id, reviewer, req, now).0;
      if req.accept && req.sanction.Some? then
        && |db'.sanctions| == |db.sanctions| + 1 && db'.sanctions[..|db.sanctions|] == db.sanctions
        && var s := db'.sanctions[|db.sanctions|];
           && s.user == r.reportedUser && s.kind == req.sanction.value && s.reportId == id && s.expiresAt == req.expiresAt
           && s.reason == match r.reason { case Some(text) => if text == "" then r.category else text case None => r.category }
      else db'.sanctions == db.sanctions
  {
    UpdateBatchWrites(db, db.reports[id], reviewer, req, now);
  }

  /** The post, and for a comment the comment, that a well-shaped report is about is there. */
  predicate TargetThere(db: Db, r: Report)
    requires WellShaped(r)
  {
    && (r.contentType != USER ==> r.postId.value in db.posts)
    && (r.contentType == COMMENT ==>
          r.commentId.value in db.comments && !db.comments[r.commentId.value].deleted &&
          db.comments[r.commentId.value].postId == r.postId.value)
  }

  /** A call succeeds exactly for a pending report with the ids of its type whose target
      is there, and a request that either rejects without a sanction, or accepts with
      none, or accepts with one that the report allows: a suspension or ban only on a
      post, an end exactly for a suspension. */
  lemma ProcessSucceedsIff(db: Db, id: int, reviewer: int, req: Request, now: int)
    ensures Process(db, id, reviewer, req, now).1.Ok? <==>
            && id in db.reports
            && var r := db.reports[id];
               && r.status == PENDING
               && (r.contentType == POST ==> r.postId.Some? && r.commentId.None?)
               && (r.contentType == COMMENT ==> r.postId.Some? && r.commentId.Some?)
               && (r.contentType == USER ==> r.postId.None? && r.commentId.None?)
               && TargetThere(db, r)
               && match req.sanction
                  case None => true
                  case Some(kind) =>
                    && req.accept
                    && (kind != WARNING ==> r.contentType == POST)
                    && (kind == SUSPENDED <==> req.expiresAt.Some?)
  {
  }

  /** The errors, in order. */
  lemma ProcessRefuses(db: Db, id: int, reviewer: int, req: Request, now: int)
    ensures Process(db, id, reviewer, req, now).1 == Err(ReportNotFound) <==> id !in db.reports
    ensures id in db.reports ==>
              var r, e := db.reports[id], Process(db, id, reviewer, req, now).1;
              var valid := r.status == PENDING && WellShaped(r) && TargetThere(db, r);
              var gone := r.contentType == COMMENT && r.commentId.Some? &&
                          (r.commentId.value !in db.comments || db.comments[r.commentId.value].deleted);
              var elsewhere := r.contentType == COMMENT && r.commentId.Some? && !gone &&
                               Some(db.comments[r.commentId.value].postId) != r.postId;
              && (e == Err(AlreadyProcessed) <==> r.status != PENDING)
              && (e == Err(BadTarget) <==> r.status == PENDING && !WellShaped(r))
              && (e == Err(CommentElsewhere) <==> r.status == PENDING && WellShaped(r) && elsewhere)
              && (e == Err(TargetNotFound) <==>
                    r.status == PENDING && WellShaped(r) && !TargetThere(db, r) && !elsewhere)
              && (e == Err(SanctionOnRejection) <==> valid && !req.accept && req.sanction.Some?)
              && (e == Err(CannotHide) <==>
                    valid && req.accept && (req.sanction == Some(SUSPENDED) || req.sanction == Some(BANNED))
                    && r.contentType != POST)
              && (e == Err(ExpiryMissing) <==>
                    valid && req.accept && req.sanction == Some(SUSPENDED) && r.contentType == POST && req.expiresAt.None?)
              && (e == Err(ExpiryForbidden) <==>
                    valid && req.accept && req.expiresAt.Some? && req.sanction.Some? && req.sanction.value != SUSPENDED
                    && (req.sanction.value == BANNED ==> r.contentType == POST))
  {
  }

  /** It does not matter which pending report of a target stands for it: the answer,
      the reports and the posts come out the same. */
  lemma AnyMemberDecidesAlike(db: Db, a: int, b: int, reviewer: int, req: Request, now: int)
    requires a in db.reports && b in db.reports
    requires WellShaped(db.reports[a]) && WellShaped(db.reports[b])
    requires db.reports[a].status == PENDING && db.reports[b].status == PENDING
    requires TargetOf(db.reports[a]) == TargetOf(db.reports[b])
    ensures
      var (da, ra), (dbb, rb) := Process(db, a, reviewer, req, now), Process(db, b, reviewer, req, now);
      ra == rb && da.reports == dbb.reports && da.posts == dbb.posts && |da.sanctions| == |dbb.sanctions|
  {
    forall x | x in db.reports
      ensures Matches(db.reports[a], db.reports[x]) <==> Matches(db.reports[b], db.reports[x])
    {
      MatchesIsSameTarget(db.reports[a], db.reports[x]);
      MatchesIsSameTarget(db.reports[b], db.reports[x]);
    }
    assert UpdateBatch(db, db.reports[a], reviewer, req, now) == UpdateBatch(db, db.reports[b], reviewer, req, now);
  }

  // ---------------------------------------------------------------- whole runs

  /** Calls of the service, and authors deleting what was reported. */
  datatype Event =
    | Decide(id: int, reviewer: int, request: Request, now: int)
    | DeletePost(post: int)
    | DeleteComment(comment: int)

  function Step(db: Db, e: Event): Db {
    match e
    case Decide(id, reviewer, req, now) => Process(db, id, reviewer, req, now).0
    case DeletePost(p) =>
      if p in db.posts && db.posts[p].status == PUBLISHED
      then db.(posts := db.posts[p := db.posts[p].(status := DELETED)]) else db
    case DeleteComment(c) =>
      if c in db.comments && !db.comments[c].deleted
      then db.(comments := db.comments[c := db.comments[c].(deleted := true)]) else db
  }

  function Run(db: Db, es: seq<Event>): Db
    decreases |es|
  {
    if es == [] then db else Run(Step(db, es[0]), es[1..])
  }

  /** A sanction row matches the accepted report it stems from. */
  ghost predicate Grounded(db: Db, s: Sanction) {
    && s.reportId in db.reports
    && var r := db.reports[s.reportId];
       && WellShaped(r)
       && r.status == ACCEPTED
       && r.sanction == Some(s.kind)
       && r.reportedUser == s.user
       && (s.expiresAt.Some? <==> s.kind == SUSPENDED)
       && (s.kind != WARNING ==>
             r.contentType == POST && r.postId.value in db.posts && db.posts[r.postId.value].status != PUBLISHED)
  }

  /** Reports of one target are decided together. */
  ghost predicate Uniform(db: Db) {
    forall x, y :: SameTarget(db, x, y) ==>
        && db.reports[x].status == db.reports[y].status
        && db.reports[x].sanction == db.reports[y].sanction
        && db.reports[x].reviewer == db.reports[y].reviewer
        && db.reports[x].processedAt == db.reports[y].processedAt
  }

  ghost predicate OnePerTarget(db: Db) {
    forall i, j ::
      0 <= i < j < |db.sanctions| && Grounded(db, db.sanctions[i]) && Grounded(db, db.sanctions[j]) ==>
      TargetOf(db.reports[db.sanctions[i].reportId]) != TargetOf(db.reports[db.sanctions[j].reportId])
  }

  ghost predicate Inv(db: Db) {
    && (forall i :: 0 <= i < |db.sanctions| ==> Grounded(db, db.sanctions[i]))
    && OnePerTarget(db)
    && Uniform(db)
    && (forall x :: x in db.reports && !WellShaped(db.reports[x]) ==> db.reports[x].status == PENDING)
  }

  /** A table as reports arrive: nothing decided, nobody punished. */
  ghost predicate Untouched(db: Db) {
    && db.sanctions == []
    && forall x :: x in db.reports ==>
         && db.reports[x].status == PENDING && db.reports[x].sanction == None
         && db.reports[x].reviewer == None && db.reports[x].processedAt == None
  }

  /** What never changes any more once it is there. */
  ghost predicate Settled(before: Db, later: Db) {
    && before.reports.Keys == later.reports.Keys
    && (forall x :: x in before.reports && before.reports[x].status != PENDING ==> later.reports[x] == before.reports[x])
    && (forall x :: x in before.reports ==>
          && WellShaped(later.reports[x]) == WellShaped(before.reports[x])
          && (WellShaped(before.reports[x]) ==> TargetOf(later.reports[x]) == TargetOf(before.reports[x])))
    && before.sanctions <= later.sanctions
    && (forall p :: p in before.posts && before.posts[p].status != PUBLISHED ==>
          p in later.posts && later.posts[p].status != PUBLISHED)
  }

  lemma StepSettles(db: Db, e: Event)
    ensures Settled(db, Step(db, e))
  {
    if e.Decide? {
      ProcessDecidesTheTarget(db, e.id, e.reviewer, e.request, e.now);
    }
  }

  lemma GroundedStays(before: Db, later: Db, s: Sanction)
    requires Settled(before, later) && Grounded(before, s)
    ensures Grounded(later, s)
    ensures TargetOf(later.reports[s.reportId]) == TargetOf(before.reports[s.reportId])
  {
  }

  lemma DecideGrounds(db: Db, e: Event)
    requires Inv(db) && e.Decide?
    ensures
      var db' := Step(db, e);
      |db'.sanctions| > |db.sanctions| ==>
        var s := db'.sanctions[|db.sanctions|];
        && db'.sanctions == db.sanctions + [s]
        && Grounded(db', s)
        && forall i :: 0 <= i < |db.sanctions| ==>
             TargetOf(db.reports[db.sanctions[i].reportId]) != TargetOf(db'.reports[s.reportId])
  {
    ProcessDecidesTheTarget(db, e.id, e.reviewer, e.request, e.now);
    forall i | 0 <= i < |db.sanctions| && e.id in db.reports && WellShaped(db.reports[e.id])
               && db.reports[e.id].status == PENDING
      ensures TargetOf(db.reports[db.sanctions[i].reportId]) != TargetOf(db.reports[e.id])
    {
      assert Grounded(db, db.sanctions[i]);
    }
  }

  lemma StepKeepsUniform(db: Db, e: Event)
    requires Inv(db)
    ensures Uniform(Step(db, e))
    ensures forall x :: x in Step(db, e).reports && !WellShaped(Step(db, e).reports[x]) ==>
              Step(db, e).reports[x].status == PENDING
  {
    if e.Decide? {
      ProcessDecidesTheTarget(db, e.id, e.reviewer, e.request, e.now);
      StepSettles(db, e);
      forall x, y | SameTarget(Step(db, e), x, y) ensures SameTarget(db, x, y) {
      }
    }
  }

  lemma StepKeepsInv(db: Db, e: Event)
    requires Inv(db)
    ensures Inv(Step(db, e))
  {
    var db' := Step(db, e);
    StepSettles(db, e);
    StepKeepsUniform(db, e);
    if e.Decide? {
      DecideGrounds(db, e);
    }
    assert |db'.sanctions| <= |db.sanctions| + 1;
    forall i | 0 <= i < |db'.sanctions|
      ensures Grounded(db', db'.sanctions[i])
      ensures i < |db.sanctions| ==>
                TargetOf(db'.reports[db'.sanctions[i].reportId]) == TargetOf(db.reports[db.sanctions[i].reportId])
    {
      if i < |db.sanctions| {
        assert db'.sanctions[i] == db.sanctions[i];
        GroundedStays(db, db', db.sanctions[i]);
      }
    }
  }

  lemma {:induction false} RunSettles(db: Db, es: seq<Event>)
    requires Inv(db)
    ensures Inv(Run(db, es)) && Settled(db, Run(db, es))
    decreases |es|
  {
    if es == [] {
    } else {
      StepKeepsInv(db, es[0]);
      StepSettles(db, es[0]);
      RunSettles(Step(db, es[0]), es[1..]);
    }
  }

  /** Over every run from an untouched table: every sanction stems from an accepted
      report with the same punishment, an end is set exactly for a suspension, a
      suspended or banned author's post is no longer public, and each target, hence
      each report, is punished at most once. */
  lemma SanctionsAreSound(db: Db, es: seq<Event>)
    requires Untouched(db)
    ensures
      var later := Run(db, es);
      && (forall i :: 0 <= i < |later.sanctions| ==> Grounded(later, later.sanctions[i]))
      && OnePerTarget(later)
      && (forall i, j :: 0 <= i < j < |later.sanctions| ==> later.sanctions[i].reportId != later.sanctions[j].reportId)
      && Uniform(later)
  {
    RunSettles(db, es);
  }

  /** Over every run a decided report never changes again, a sanction is never
      withdrawn and a post once hidden or deleted never becomes public. */
  lemma DecisionsAreFinal(db: Db, early: seq<Event>, late: seq<Event>)
    requires Untouched(db)
    ensures Settled(Run(db, early), Run(Run(db, early), late))
  {
    RunSettles(db, early);
    RunSettles(Run(db, early), late);
  }
}
