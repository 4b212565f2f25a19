/** The service object with its transaction: every failure restores all three tables. */
module ReportService {
  import opened Common
  import opened Reports

  class ReportService {
    var reports: map<int, Report>
    var sanctions: seq<Sanction>
    var posts: map<int, Post>
    var comments: map<int, Comment>

    function Tables(): Db
      reads this
    {
      Db(reports, sanctions, posts, comments)
    }

    constructor (db: Db)
      ensures Tables() == db
    {
      reports, sanctions, posts, comments := db.reports, db.sanctions, db.posts, db.comments;
    }

    method ValidateReport(r: Report) returns (v: Result<Unit, ReportError>)
      ensures v == Validate(Tables(), r)
    {
      if r.status != PENDING {
        return Err(AlreadyProcessed);
      }
      match r.contentType {
        case POST =>
          if r.postId.None? || r.commentId.Some? {
            return Err(BadTarget);
          }
          if r.postId.value !in posts {
            return Err(TargetNotFound);
          }
          return Ok(Unit.Unit);
        case COMMENT =>
          if r.postId.None? || r.commentId.None? {
            return Err(BadTarget);
          }
          if r.commentId.value !in comments || comments[r.commentId.value].deleted {
            return Err(TargetNotFound);
          }
          if comments[r.commentId.value].postId != r.postId.value {
            return Err(CommentElsewhere);
          }
          if comments[r.commentId.value].postId !in posts {
            return Err(TargetNotFound);
          }
          return Ok(Unit.Unit);
        case USER =>
          if r.postId.Some? || r.commentId.Some? {
            return Err(BadTarget);
          }
          return Ok(Unit.Unit);
      }
    }

    /** Assigns the decision to every pending report of the target, row by row. */
    method UpdateReport(r: Report, reviewer: int, req: Request, now: int) returns (count: nat)
      modifies this`reports
      ensures reports == UpdateBatch(old(Tables()), r, reviewer, req, now)
      ensures count == |set id | id in old(reports) && InBatch(old(Tables()), r, id)|
    {
      var batch := set id | id in reports && reports[id].status == PENDING && Matches(r, reports[id]);
      var left := batch;
      while left != {}
        invariant left <= batch && reports.Keys == old(reports.Keys)
        invariant forall id :: id in reports ==>
                    reports[id] == if id in batch - left
                                   then Decided(old(reports[id]), reviewer, req, now) else old(reports[id])
        decreases |left|
      {
        var id := Choose(left);
        var row := reports[id];
        row := row.(status := if req.accept then ACCEPTED else REJECTED);
        row := row.(sanction := req.sanction);
        row := row.(reviewer := Some(reviewer));
        row := row.(processedAt := Some(now));
        reports := reports[id := row];
        left := left - {id};
      }
      assert batch == set id | id in old(reports) && InBatch(old(Tables()), r, id);
      count := |batch|;
    }

    method HideReportedContent(r: Report) returns (e: Option<ReportError>)
      modifies this`posts
      ensures r.contentType != POST ==> e == Some(CannotHide) && posts == old(posts)
      ensures r.contentType == POST && r.postId.None? ==> e == Some(BadTarget) && posts == old(posts)
      ensures r.contentType == POST && r.postId.Some? && r.postId.value !in old(posts) ==>
                e == Some(TargetNotFound) && posts == old(posts)
      ensures r.contentType == POST && r.postId.Some? && r.postId.value in old(posts) ==>
                e == None && posts == HidePost(old(posts), r.postId.value)
    {
      if r.contentType == POST {
        if r.postId.None? {
          return Some(BadTarget);
        }
        if r.postId.value !in posts {
          return Some(TargetNotFound);
        }
        if posts[r.postId.value].status != PUBLISHED {
          return None;
        }
        posts := posts[r.postId.value := posts[r.postId.value].(status := HIDDEN)];
        return None;
      }
      return Some(CannotHide);
    }

    method AddUserSanction(r: Report, id: int, kind: SanctionType, expiresAt: Option<int>)
      returns (e: Option<ReportError>)
      modifies this`sanctions
      ensures e == if kind == SUSPENDED && expiresAt.None? then Some(ExpiryMissing)
                   else if kind != SUSPENDED && expiresAt.Some? then Some(ExpiryForbidden) else None
      ensures sanctions == old(sanctions) + if e.None? then [Sanction(r.reportedUser, kind, ReasonOf(r), id, expiresAt)] else []
    {
      if kind == SUSPENDED && expiresAt.None? {
        return Some(ExpiryMissing);
      }
      if kind != SUSPENDED && expiresAt.Some? {
        return Some(ExpiryForbidden);
      }
      sanctions := sanctions + [Sanction(r.reportedUser, kind, ReasonOf(r), id, expiresAt)];
      return None;
    }

    method ProcessReport(id: int, reviewer: int, req: Request, now: int) returns (r: Result<Unit, ReportError>)
      modifies this
      ensures (Tables(), r) == Process(old(Tables()), id, reviewer, req, now)
    {
      if id !in reports {
        return Err(ReportNotFound);
      }
      var report := reports[id];
      var valid := ValidateReport(report);
      if valid.Err? {
        return valid;
      }
      if !req.accept && req.sanction.Some? {
        return Err(SanctionOnRejection);
      }
      var savedReports, savedSanctions, savedPosts := reports, sanctions, posts;
      var failure: Option<ReportError> := None;
      var count := UpdateReport(report, reviewer, req, now);
      if req.accept && (req.sanction == Some(SUSPENDED) || req.sanction == Some(BANNED)) {
        failure := HideReportedContent(report);
      }
      if failure.None? && req.accept && req.sanction.Some? {
        failure := AddUserSanction(report, id, req.sanction.value, req.expiresAt);
      }
      if failure.Some? {
        reports, sanctions, posts := savedReports, savedSanctions, savedPosts;
        return Err(failure.value);
      }
      return Ok(Unit.Unit);
    }
  }
}
