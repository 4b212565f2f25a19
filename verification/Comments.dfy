/** Two-level comments: posting rules and the paged listing. */
module Comments {
  import opened Common
  import opened Pagination

  datatype Comment = Comment(
    id: int,
    post: int,
    author: int,
    content: string,
    parent: Option<int>,
    createdAt: int,
    deleted: bool)

  datatype Table = Table(rows: map<int, Comment>, nextId: int)

  datatype CommentError =
    | PostNotFound
    | CommentNotFound
    | OtherPost
    | ReplyToReply
    | NotOwner
    | UnknownMention

  predicate Live(t: Table, id: int) {
    id in t.rows && !t.rows[id].deleted
  }

  // ---------------------------------------------------------------- posting

  /** `visible` says that the post is published, `mentionsOk` that every mentioned
      user was found. */
  datatype Op =
    | Create(post: int, visible: bool, author: int, content: string, parent: Option<int>, mentionsOk: bool, now: int)
    | Update(id: int, user: int, content: string, mentionsOk: bool)
    | Delete(id: int, user: int)

  function ParentError(t: Table, post: int, parent: Option<int>): Option<CommentError> {
    if parent.None? then None
    else if !Live(t, parent.value) then Some(CommentNotFound)
    else if t.rows[parent.value].post != post then Some(OtherPost)
    else if t.rows[parent.value].parent.Some? then Some(ReplyToReply)
    else None
  }

  function OwnerError(t: Table, id: int, user: int): Option<CommentError> {
    if !Live(t, id) then Some(CommentNotFound)
    else if t.rows[id].author != user then Some(NotOwner)
    else None
  }

  function Apply(t: Table, op: Op): (Table, Result<int, CommentError>) {
    match op
    case Create(post, visible, author, content, parent, mentionsOk, now) =>
      if !visible then (t, Err(PostNotFound))
      else if ParentError(t, post, parent).Some? then (t, Err(ParentError(t, post, parent).value))
      else if !mentionsOk then (t, Err(UnknownMention))
      else
        (Table(t.rows[t.nextId := Comment(t.nextId, post, author, content, parent, now, false)], t.nextId + 1),
         Ok(t.nextId))
    case Update(id, user, content, mentionsOk) =>
      if OwnerError(t, id, user).Some? then (t, Err(OwnerError(t, id, user).value))
      else if !mentionsOk then (t, Err(UnknownMention))
      else (t.(rows := t.rows[id := t.rows[id].(content := content)]), Ok(id))
    case Delete(id, user) =>
      if OwnerError(t, id, user).Some? then (t, Err(OwnerError(t, id, user).value))
      else (t.(rows := t.rows[id := t.rows[id].(deleted := true)]), Ok(id))
  }

  /** A reply hangs under a top-level comment of its own post; that comment may have
      been deleted since. */
  ghost predicate TwoLevels(t: Table) {
    && (forall id :: id in t.rows ==> t.rows[id].id == id && id < t.nextId)
    && (forall id :: id in t.rows && t.rows[id].parent.Some? ==>
          && t.rows[id].parent.value in t.rows
          && t.rows[t.rows[id].parent.value].parent.None?
          && t.rows[t.rows[id].parent.value].post == t.rows[id].post)
  }

  function Run(t: Table, ops: seq<Op>): Table
    decreases |ops|
  {
    if ops == [] then t else Run(Apply(t, ops[0]).0, ops[1..])
  }

  lemma ApplyKeepsTwoLevels(t: Table, op: Op)
    requires TwoLevels(t)
    ensures TwoLevels(Apply(t, op).0)
  {
  }

  lemma {:induction false} RunsKeepTwoLevels(t: Table, ops: seq<Op>)
    requires TwoLevels(t)
    ensures TwoLevels(Run(t, ops))
    decreases |ops|
  {
    if ops == [] {
    } else {
      ApplyKeepsTwoLevels(t, ops[0]);
      RunsKeepTwoLevels(Apply(t, ops[0]).0, ops[1..]);
    }
  }

  // ---------------------------------------------------------------- what each call does

  /** A comment is created exactly on a visible post, alone or under a live top-level
      comment of that post, with every mention found. It is a new row with what was
      sent; nothing else changes. */
  lemma CreateAddsOneRow(t: Table, post: int, visible: bool, author: int, content: string, parent: Option<int>,
                         mentionsOk: bool, now: int)
    requires TwoLevels(t)
    ensures
      var (t', r) := Apply(t, Create(post, visible, author, content, parent, mentionsOk, now));
      var found := parent.Some? ==> parent.value in t.rows && !t.rows[parent.value].deleted;
      var same := parent.Some? && found ==> t.rows[parent.value].post == post;
      var top := parent.Some? && found ==> t.rows[parent.value].parent == None;
      && (r == Err(PostNotFound) <==> !visible)
      && (r == Err(CommentNotFound) <==> visible && !found)
      && (r == Err(OtherPost) <==> visible && found && !same)
      && (r == Err(ReplyToReply) <==> visible && found && same && !top)
      && (r == Err(UnknownMention) <==> visible && found && same && top && !mentionsOk)
      && (r.Ok? <==> visible && found && same && top && mentionsOk)
      && (r.Err? ==> t' == t)
      && (r.Ok? ==>
            && r.value !in t.rows && t'.rows.Keys == t.rows.Keys + {r.value} && r.value < t'.nextId
            && t'.rows[r.value] == Comment(r.value, post, author, content, parent, now, false)
            && forall x :: x in t.rows ==> t'.rows[x] == t.rows[x])
  {
  }

  predicate SameOrigin(a: Comment, b: Comment) {
    a.id == b.id && a.post == b.post && a.author == b.author && a.parent == b.parent && a.createdAt == b.createdAt
  }

  /** A comment is updated exactly by its author while it is live, with every mention
      found. Only its content changes, and no other row. */
  lemma UpdateTouchesOwnContent(t: Table, id: int, user: int, content: string, mentionsOk: bool)
    ensures
      var (t', r) := Apply(t, Update(id, user, content, mentionsOk));
      var found := id in t.rows && !t.rows[id].deleted;
      && (r == Err(CommentNotFound) <==> !found)
      && (r == Err(NotOwner) <==> found && t.rows[id].author != user)
      && (r == Err(UnknownMention) <==> found && t.rows[id].author == user && !mentionsOk)
      && (r.Ok? <==> found && t.rows[id].author == user && mentionsOk)
      && (r.Err? ==> t' == t)
      && (r.Ok? ==>
            && t'.rows.Keys == t.rows.Keys && t'.nextId == t.nextId
            && t'.rows[id].content == content && !t'.rows[id].deleted && SameOrigin(t.rows[id], t'.rows[id])
            && forall x :: x in t.rows && x != id ==> t'.rows[x] == t.rows[x])
  {
  }

  /** A comment is deleted exactly by its author while it is live. The row stays with all
      it had, marked as deleted, and no other row changes. */
  lemma DeleteMarksOwnComment(t: Table, id: int, user: int)
    ensures
      var (t', r) := Apply(t, Delete(id, user));
      var found := id in t.rows && !t.rows[id].deleted;
      && (r == Err(CommentNotFound) <==> !found)
      && (r == Err(NotOwner) <==> found && t.rows[id].author != user)
      && (r.Ok? <==> found && t.rows[id].author == user)
      && (r.Err? ==> t' == t)
      && (r.Ok? ==>
            && t'.rows.Keys == t.rows.Keys && t'.nextId == t.nextId
            && t'.rows[id].deleted && t'.rows[id].content == t.rows[id].content && SameOrigin(t.rows[id], t'.rows[id])
            && forall x :: x in t.rows && x != id ==> t'.rows[x] == t.rows[x])
  {
  }

  // ---------------------------------------------------------------- sorting

  /** Newest first; ties by the higher id. */
  predicate Newer(a: Comment, b: Comment) {
    a.createdAt > b.createdAt || (a.createdAt == b.createdAt && a.id > b.id)
  }

  predicate NewestFirst(s: seq<Comment>) {
    forall i, j :: 0 <= i < j < |s| ==> Newer(s[i], s[j])
  }

  predicate DistinctIds(s: seq<Comment>) {
    forall i, j :: 0 <= i < j < |s| ==> s[i].id != s[j].id
  }

  function Insert(c: Comment, s: seq<Comment>): seq<Comment> {
    if s == [] || Newer(c, s[0]) then [c] + s else [s[0]] + Insert(c, s[1..])
  }

  /** `comments.sort(key=(created_at, comment_id), reverse=True)`. */
  function Sorted(s: seq<Comment>): seq<Comment> {
    if s == [] then [] else Insert(s[0], Sorted(s[1..]))
  }

  lemma {:induction false} InsertSorts(c: Comment, s: seq<Comment>)
    requires NewestFirst(s) && forall x :: x in s ==> x.id != c.id
    ensures NewestFirst(Insert(c, s))
    ensures forall x :: x in Insert(c, s) <==> x == c || x in s
    ensures |Insert(c, s)| == |s| + 1
  {
    if s == [] || Newer(c, s[0]) {
    } else {
      InsertSorts(c, s[1..]);
      assert s[0] in s && forall x :: x in s <==> x == s[0] || x in s[1..];
      var rest := Insert(c, s[1..]);
      forall i | 0 <= i < |rest| ensures Newer(s[0], rest[i]) {
        assert rest[i] in rest;
        if rest[i] != c {
          var j :| 0 <= j < |s[1..]| && s[1..][j] == rest[i];
          assert s[j + 1] == rest[i];
        }
      }
    }
  }

  lemma {:induction false} SortedSorts(s: seq<Comment>)
    requires DistinctIds(s)
    ensures NewestFirst(Sorted(s)) && |Sorted(s)| == |s|
    ensures forall x :: x in Sorted(s) <==> x in s
    ensures forall i, j :: 0 <= i < j < |s| ==>
              || Sorted(s)[i].createdAt > Sorted(s)[j].createdAt
              || (Sorted(s)[i].createdAt == Sorted(s)[j].createdAt && Sorted(s)[i].id > Sorted(s)[j].id)
  {
    if s == [] {
    } else {
      SortedSorts(s[1..]);
      forall x | x in Sorted(s[1..]) ensures x.id != s[0].id {
        var j :| 0 <= j < |s[1..]| && s[1..][j] == x;
        assert s[j + 1] == x;
      }
      InsertSorts(s[0], Sorted(s[1..]));
      assert forall x :: x in s <==> x == s[0] || x in s[1..];
    }
  }

  lemma SortedKeepsIds(s: seq<Comment>)
    requires DistinctIds(s)
    ensures DistinctIds(Sorted(s))
  {
    SortedSorts(s);
    var out := Sorted(s);
    forall i, j | 0 <= i < j < |out| ensures out[i].id != out[j].id {
      assert out[i] in out && out[j] in out && Newer(out[i], out[j]);
      var a :| 0 <= a < |s| && s[a] == out[i];
      var b :| 0 <= b < |s| && s[b] == out[j];
      assert a < b || b < a;
    }
  }

  /** There is only one newest-first order. */
  lemma OrderIsUnique(a: seq<Comment>, b: seq<Comment>)
    requires NewestFirst(a) && NewestFirst(b) && forall x :: x in a <==> x in b
    ensures a == b
  {
    assert Elements(a) == Elements(b);
    OneOrder(Newer, a, b);
  }

  // ---------------------------------------------------------------- listing

  /** Live top-level comments of a post. */
  function Top(t: Table, post: int): set<Comment> {
    set id | id in t.rows && Live(t, id) && t.rows[id].post == post && t.rows[id].parent == None :: t.rows[id]
  }

  /** The rows of the query, in whatever order the database returns them. */
  ghost predicate IsQueryOf(rows: seq<Comment>, t: Table, post: int) {
    DistinctIds(rows) && forall c :: c in rows <==> c in Top(t, post)
  }

  function Replies(t: Table, parent: int): set<int> {
    set id | id in t.rows && Live(t, id) && t.rows[id].parent == Some(parent)
  }

  /** Reads the table; the counters hold only parents that have live replies. */
  method CountRepliesByParents(t: Table, ids: seq<int>) returns (counts: map<int, nat>)
    ensures forall p :: p in counts <==> p in ids && Replies(t, p) != {}
    ensures forall p :: p in counts ==> counts[p] == |Replies(t, p)|
  {
    if ids == [] {
      return map[];
    }
    var groups := set p | p in ids && Replies(t, p) != {};
    counts := map[];
    var left := groups;
    while left != {}
      invariant left <= groups && counts.Keys == groups - left
      invariant forall p :: p in counts ==> counts[p] == |Replies(t, p)|
      decreases |left|
    {
      var p := Choose(left);
      counts := counts[p := |Replies(t, p)|];
      left := left - {p};
    }
  }

  lemma PageIsNewestFirst(rows: seq<Comment>, params: PageParams)
    requires DistinctIds(rows)
    ensures
      var page := Page(Sorted(rows), params);
      forall i, j :: 0 <= i < j < |page| ==>
        page[i].createdAt > page[j].createdAt || (page[i].createdAt == page[j].createdAt && page[i].id > page[j].id)
  {
    SortedSorts(rows);
    SliceKeepsOrder(Sorted(rows), Min(Offset(params), |rows|), Min(Offset(params) + params.size, |rows|));
  }

  lemma SliceKeepsOrder(s: seq<Comment>, from: nat, to: nat)
    requires NewestFirst(s) && from <= to <= |s|
    ensures NewestFirst(s[from..to])
  {
  }

  method CollectIds(page: seq<Comment>) returns (ids: seq<int>)
    ensures forall id :: id in ids <==> exists c :: c in page && c.id == id
  {
    ids := [];
    for i := 0 to |page|
      invariant |ids| == i && forall j :: 0 <= j < i ==> ids[j] == page[j].id
    {
      ids := ids + [page[i].id];
    }
    forall c | c in page ensures c.id in ids {
      var j :| 0 <= j < |page| && page[j] == c;
      assert ids[j] == c.id;
    }
    forall id | id in ids ensures exists c :: c in page && c.id == id {
      var j :| 0 <= j < |ids| && ids[j] == id;
      assert page[j] in page && page[j].id == id;
    }
  }

  method ListByPost(t: Table, post: int, params: PageParams, rows: seq<Comment>)
    returns (page: seq<Comment>, total: nat, replies: map<int, nat>)
    requires TwoLevels(t) && IsQueryOf(rows, t, post)
    ensures total == |Top(t, post)|
    ensures page == Page(Sorted(rows), params)
    ensures forall i, j :: 0 <= i < j < |page| ==>
              page[i].createdAt > page[j].createdAt || (page[i].createdAt == page[j].createdAt && page[i].id > page[j].id)
    ensures forall c :: c in page && Replies(t, c.id) != {} ==> c.id in replies && replies[c.id] == |Replies(t, c.id)|
    ensures forall p :: p in replies ==> exists c :: c in page && c.id == p && Replies(t, p) != {}
  {
    PageIsNewestFirst(rows, params);
    total := |Top(t, post)|;
    var all := Sorted(rows);
    page := all[Min(Offset(params), |all|)..Min(Offset(params) + params.size, |all|)];
    var ids := CollectIds(page);
    replies := CountRepliesByParents(t, ids);
  }

  /** The pages 1 to `total_pages` of a post list all its live top-level comments,
      each once, newest first; whatever order the rows came in, and every later page
      is empty. */
  lemma PagesListEverything(t: Table, post: int, rows: seq<Comment>, size: Positive, page: Positive)
    requires TwoLevels(t) && IsQueryOf(rows, t, post)
    ensures |rows| == |Top(t, post)|
    ensures
      var all := Pages(Sorted(rows), size, TotalPages(|Top(t, post)|, size));
      && (forall i, j :: 0 <= i < j < |all| ==>
            all[i].createdAt > all[j].createdAt || (all[i].createdAt == all[j].createdAt && all[i].id > all[j].id))
      && (forall c :: c in all <==> c in Top(t, post))
      && |all| == |Top(t, post)|
      && forall other :: IsQueryOf(other, t, post) ==> Sorted(other) == Sorted(rows)
    ensures TotalPages(|Top(t, post)|, size) < page ==> Page(Sorted(rows), PageParams(page, size)) == []
  {
    SortedSorts(rows);
    DistinctCount(rows, Top(t, post));
    PagesCoverOnce(Sorted(rows), size, page);
    forall other | IsQueryOf(other, t, post) ensures Sorted(other) == Sorted(rows) {
      SortedSorts(other);
      OrderIsUnique(Sorted(other), Sorted(rows));
    }
  }

  /** Every comment on an earlier page is newer than every one on a later page. */
  lemma EarlierPagesAreNewer(rows: seq<Comment>, size: Positive, earlier: Positive, later: Positive, a: Comment, b: Comment)
    requires DistinctIds(rows) && earlier < later
    requires a in Page(Sorted(rows), PageParams(earlier, size)) && b in Page(Sorted(rows), PageParams(later, size))
    ensures a.createdAt > b.createdAt || (a.createdAt == b.createdAt && a.id > b.id)
  {
    var s := Sorted(rows);
    SortedSorts(rows);
    var i, j := PagesInOrder(s, size, earlier, later, a, b);
  }

  lemma {:induction false} DistinctCount(s: seq<Comment>, all: set<Comment>)
    requires DistinctIds(s) && forall c :: c in s <==> c in all
    ensures |s| == |all|
    decreases |s|
  {
    if s == [] {
      assert all == {};
    } else {
      assert s[0] in s;
      forall c ensures c in s[1..] <==> c in all - {s[0]} {
        assert c in s[1..] <==> c in s && c != s[0];
      }
      DistinctCount(s[1..], all - {s[0]});
    }
  }

  // ---------------------------------------------------------------- nothing is lost

  /** Live comments of a post, replies included. */
  function LiveIn(t: Table, post: int): set<int> {
    set id | id in t.rows && Live(t, id) && t.rows[id].post == post
  }

  /** Live replies whose parent has been deleted: in no listing and no counter. */
  function Orphans(t: Table, post: int): set<int> {
    set id | id in LiveIn(t, post) && t.rows[id].parent.Some? && !Live(t, t.rows[id].parent.value)
  }

  function ReplyTotal(t: Table, s: seq<Comment>): nat {
    if s == [] then 0 else |Replies(t, s[0].id)| + ReplyTotal(t, s[1..])
  }

  function RepliesOf(t: Table, s: seq<Comment>): set<int> {
    set c, id | c in s && id in Replies(t, c.id) :: id
  }

  lemma {:induction false} ReplyTotalCounts(t: Table, s: seq<Comment>)
    requires DistinctIds(s)
    ensures ReplyTotal(t, s) == |RepliesOf(t, s)|
    decreases |s|
  {
    if s == [] {
    } else {
      ReplyTotalCounts(t, s[1..]);
      var first, rest := Replies(t, s[0].id), RepliesOf(t, s[1..]);
      forall id ensures id in RepliesOf(t, s) <==> id in first || id in rest {
        assert forall c :: c in s <==> c == s[0] || c in s[1..];
      }
      assert RepliesOf(t, s) == first + rest && first !! rest;
    }
  }

  /** Where a live comment of the post shows up. */
  lemma WhereAComment(t: Table, post: int, s: seq<Comment>, id: int)
    requires TwoLevels(t) && forall c :: c in s <==> c in Top(t, post)
    ensures id in LiveIn(t, post) <==> id in IdsOf(s) || id in RepliesOf(t, s) || id in Orphans(t, post)
    ensures !(id in IdsOf(s) && id in RepliesOf(t, s))
    ensures !(id in IdsOf(s) && id in Orphans(t, post))
    ensures !(id in RepliesOf(t, s) && id in Orphans(t, post))
  {
    assert forall c :: c in s ==> c in Top(t, post);
    if id in LiveIn(t, post) {
      var c := t.rows[id];
      if c.parent == None {
        assert c in Top(t, post);
      } else if Live(t, c.parent.value) {
        assert t.rows[c.parent.value] in Top(t, post) && id in Replies(t, c.parent.value);
      }
    }
  }

  function IdsOf(s: seq<Comment>): set<int> {
    set c | c in s :: c.id
  }

  /** Every live comment of a post is listed, or counted under a listed one, or is a
      reply under a deleted comment: the three add up to all of them. */
  lemma ListingAccountsForAll(t: Table, post: int, rows: seq<Comment>)
    requires TwoLevels(t) && IsQueryOf(rows, t, post)
    ensures |LiveIn(t, post)| == |rows| + ReplyTotal(t, Sorted(rows)) + |Orphans(t, post)|
  {
    var s := Sorted(rows);
    SortedSorts(rows);
    SortedKeepsIds(rows);
    ReplyTotalCounts(t, s);
    IdsCount(s, IdsOf(s));
    forall id
      ensures id in LiveIn(t, post) <==> id in IdsOf(s) || id in RepliesOf(t, s) || id in Orphans(t, post)
      ensures !(id in IdsOf(s) && id in RepliesOf(t, s))
      ensures !(id in IdsOf(s) && id in Orphans(t, post))
      ensures !(id in RepliesOf(t, s) && id in Orphans(t, post))
    {
      WhereAComment(t, post, s, id);
    }
    ThreeParts(LiveIn(t, post), IdsOf(s), RepliesOf(t, s), Orphans(t, post));
  }

  lemma ThreeParts<T>(all: set<T>, a: set<T>, b: set<T>, c: set<T>)
    requires forall id :: id in all <==> id in a || id in b || id in c
    requires a !! b && a !! c && b !! c
    ensures |all| == |a| + |b| + |c|
  {
    assert all == a + b + c;
  }

  lemma {:induction false} IdsCount(s: seq<Comment>, ids: set<int>)
    requires DistinctIds(s) && ids == IdsOf(s)
    ensures |ids| == |s|
    decreases |s|
  {
    if s == [] {
      assert ids == {};
    } else {
      var rest := IdsOf(s[1..]);
      IdsCount(s[1..], rest);
      forall id ensures id in ids <==> id == s[0].id || id in rest {
        assert forall c :: c in s <==> c == s[0] || c in s[1..];
      }
      assert ids == rest + {s[0].id};
    }
  }

  // ---------------------------------------------------------------- the service

  class CommentService {
    var rows: map<int, Comment>
    var nextId: int

    constructor ()
      ensures Contents() == Table(map[], 1) && TwoLevels(Contents())
    {
      rows, nextId := map[], 1;
    }

    function Contents(): Table
      reads this
    {
      Table(rows, nextId)
    }

    method CreateComment(post: int, visible: bool, author: int, content: string, parent: Option<int>,
                         mentionsOk: bool, now: int)
      returns (r: Result<int, CommentError>)
      requires TwoLevels(Contents())
      modifies this
      ensures (Contents(), r) == Apply(old(Contents()), Create(post, visible, author, content, parent, mentionsOk, now))
      ensures TwoLevels(Contents())
    {
      ApplyKeepsTwoLevels(Contents(), Create(post, visible, author, content, parent, mentionsOk, now));
      if !visible {
        return Err(PostNotFound);
      }
      if parent.Some? {
        if !Live(Contents(), parent.value) {
          return Err(CommentNotFound);
        }
        if rows[parent.value].post != post {
          return Err(OtherPost);
        }
        if rows[parent.value].parent.Some? {
          return Err(ReplyToReply);
        }
      }
      if !mentionsOk {
        return Err(UnknownMention);
      }
      var id := nextId;
      rows, nextId := rows[id := Comment(id, post, author, content, parent, now, false)], nextId + 1;
      return Ok(id);
    }

    method UpdateComment(id: int, user: int, content: string, mentionsOk: bool)
      returns (r: Result<int, CommentError>)
      requires TwoLevels(Contents())
      modifies this
      ensures (Contents(), r) == Apply(old(Contents()), Update(id, user, content, mentionsOk))
      ensures TwoLevels(Contents())
    {
      ApplyKeepsTwoLevels(Contents(), Update(id, user, content, mentionsOk));
      if !Live(Contents(), id) {
        return Err(CommentNotFound);
      }
      if rows[id].author != user {
        return Err(NotOwner);
      }
      if !mentionsOk {
        return Err(UnknownMention);
      }
      rows := rows[id := rows[id].(content := content)];
      return Ok(id);
    }

    method DeleteComment(id: int, user: int) returns (r: Result<int, CommentError>)
      requires TwoLevels(Contents())
      modifies this
      ensures (Contents(), r) == Apply(old(Contents()), Delete(id, user))
      ensures TwoLevels(Contents())
    {
      ApplyKeepsTwoLevels(Contents(), Delete(id, user));
      if !Live(Contents(), id) {
        return Err(CommentNotFound);
      }
      if rows[id].author != user {
        return Err(NotOwner);
      }
      rows := rows[id := rows[id].(deleted := true)];
      return Ok(id);
    }
  }
}
