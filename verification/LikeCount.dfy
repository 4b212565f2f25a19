/** `count_likes`: the row count corrected by the pending marks. */
module LikeCount {
  import opened Common
  import opened LikeCache
  import opened LikeReads

  /** The `pending` dict: user to liked, for the keys of one post that SCAN yields. */
  function Pending(redis: map<Key, Mark>, scan: seq<Key>): map<int, bool> {
    if scan == [] then map[]
    else
      var k, rest := scan[|scan| - 1], Pending(redis, scan[..|scan| - 1]);
      if k in redis then rest[k.user := redis[k] == Liked] else rest
  }

  /** Users with a row for the post. */
  function Saved(db: set<Key>, post: int): set<int> {
    set k | k in db && k.post == post :: k.user
  }

  /** The sum of `int(liked) - int(user_id in saved)` over the pending dict. */
  ghost function Correction(pending: map<int, bool>, saved: set<int>): int
    decreases |pending|
  {
    if pending.Keys == {} then 0
    else
      var u := Pick(pending.Keys);
      (if pending[u] then 1 else 0) - (if u in saved then 1 else 0) + Correction(pending - {u}, saved)
  }

  ghost function CountLikes(redis: map<Key, Mark>, db: set<Key>, post: int, scan: seq<Key>): int {
    var pending := Pending(redis, scan);
    var total := |Saved(db, post)|;
    if pending == map[] then total
    else total + Correction(pending, Saved(db, post) * pending.Keys)
  }

  /** Users who, for a viewer, like the post. */
  function Likers(s: State, post: int): set<int> {
    set k | k in Effective(s) && k.post == post :: k.user
  }

  /** Rows overridden by a pending dict. */
  ghost function Overlaid(pending: map<int, bool>, saved: set<int>): set<int> {
    set u | u in saved + pending.Keys && (if u in pending then pending[u] else u in saved)
  }

  lemma {:induction false} CorrectionIsDifference(pending: map<int, bool>, saved: set<int>)
    ensures |saved| + Correction(pending, saved) == |Overlaid(pending, saved)|
    decreases |pending|
  {
    if pending.Keys == {} {
      assert Overlaid(pending, saved) == saved;
    } else {
      var u := Pick(pending.Keys);
      var less := pending - {u};
      CorrectionIsDifference(less, saved);
      OverlayOne(pending, saved, u);
    }
  }

  /** What one entry of the dict changes. */
  lemma OverlayOne(pending: map<int, bool>, saved: set<int>, u: int)
    requires u in pending
    ensures |Overlaid(pending, saved)| ==
            |Overlaid(pending - {u}, saved)| + (if pending[u] then 1 else 0) - (if u in saved then 1 else 0)
  {
    var common := Overlaid(pending, saved) - {u};
    assert Overlaid(pending - {u}, saved) - {u} == common;
    Toggle(Overlaid(pending, saved), u);
    Toggle(Overlaid(pending - {u}, saved), u);
  }

  lemma Toggle(s: set<int>, u: int)
    ensures |s| == |s - {u}| + if u in s then 1 else 0
  {
    if u in s {
      assert s == (s - {u}) + {u};
    } else {
      assert s == s - {u};
    }
  }

  lemma {:induction false} CorrectionRestricts(pending: map<int, bool>, saved: set<int>, seen: set<int>)
    requires pending.Keys <= seen
    ensures Correction(pending, saved * seen) == Correction(pending, saved)
    decreases |pending|
  {
    if pending.Keys == {} {
    } else {
      CorrectionRestricts(pending - {Pick(pending.Keys)}, saved, seen);
    }
  }

  lemma {:induction false} PendingMeaning(redis: map<Key, Mark>, scan: seq<Key>, post: int)
    requires forall k :: k in scan ==> k.post == post
    ensures forall u :: u in Pending(redis, scan) <==> Key(post, u) in scan && Key(post, u) in redis
    ensures forall u :: u in Pending(redis, scan) ==>
              Pending(redis, scan)[u] == (redis[Key(post, u)] == Liked)
  {
    if scan == [] {
    } else {
      var init, k := scan[..|scan| - 1], scan[|scan| - 1];
      assert scan == init + [k];
      PendingMeaning(redis, init, post);
      assert k == Key(post, k.user);
    }
  }

  lemma {:induction false} PendingReadsScanned(redis: map<Key, Mark>, other: map<Key, Mark>, scan: seq<Key>)
    requires forall k :: k in scan ==> (k in redis <==> k in other)
    requires forall k :: k in scan && k in redis && k in other ==> redis[k] == other[k]
    ensures Pending(redis, scan) == Pending(other, scan)
  {
    if scan == [] {
    } else {
      var init, k := scan[..|scan| - 1], scan[|scan| - 1];
      assert scan == init + [k];
      PendingReadsScanned(redis, other, init);
    }
  }

  lemma LikersMeaning(s: State, post: int, u: int)
    ensures u in Likers(s, post) <==> GetLike(s.redis, s.db, Key(post, u))
    ensures u in Saved(s.db, post) <==> Key(post, u) in s.db
  {
    var k := Key(post, u);
    GetLikeIsEffective(s, k);
    assert k.post == post && k.user == u;
    assert forall j: Key :: j.post == post && j.user == u ==> j == k;
  }

  /** SCAN yields keys of the post, among them every key MGET will still find. */
  predicate Covers(scan: seq<Key>, redis: map<Key, Mark>, post: int) {
    && (forall k :: k in scan ==> k.post == post)
    && (forall k :: k in redis && k.post == post ==> k in scan)
  }

  /** For every state, in the middle of a flush too, whatever order and repetitions
      SCAN chose and whatever keys have gone since, `count_likes` is the number of
      users whose `get_like` is true. */
  lemma CountLikesIsCardinality(s: State, post: int, scan: seq<Key>)
    requires Covers(scan, s.redis, post)
    ensures CountLikes(s.redis, s.db, post, scan) == |Likers(s, post)|
    ensures forall u :: u in Likers(s, post) <==> GetLike(s.redis, s.db, Key(post, u))
  {
    var pending, saved := Pending(s.redis, scan), Saved(s.db, post);
    forall u ensures u in Likers(s, post) <==> GetLike(s.redis, s.db, Key(post, u)) {
      LikersMeaning(s, post, u);
    }
    assert Likers(s, post) == Overlaid(pending, saved) by {
      PendingMeaning(s.redis, scan, post);
      forall u ensures u in Likers(s, post) <==> u in Overlaid(pending, saved) {
        LikersMeaning(s, post, u);
        assert Key(post, u) in s.redis ==> Key(post, u) in scan;
      }
    }
    CorrectionIsDifference(pending, saved);
    CorrectionRestricts(pending, saved, pending.Keys);
  }

  // ------------------------------------------------------- rows of another moment

  /** The marks of `s` that the scan has found. */
  function Scanned(s: State, scan: seq<Key>): map<Key, Mark> {
    map k | k in s.redis && k in scan :: s.redis[k]
  }

  /** Users counted for a row although they do not like the post in `s`. */
  function Ghosts(s: State, rows: set<Key>, post: int, scan: seq<Key>): set<int> {
    set k | k in rows && k.post == post && k !in Scanned(s, scan) && k !in Effective(s) :: k.user
  }

  /** Users who like the post in `s` and have neither a scanned mark nor a row in the view. */
  function Missed(s: State, rows: set<Key>, post: int, scan: seq<Key>): set<int> {
    set k | k in Effective(s) && k.post == post && k !in Scanned(s, scan) && k !in rows :: k.user
  }

  lemma GhostsAndMissed(s: State, rows: set<Key>, post: int, scan: seq<Key>)
    ensures Ghosts(s, rows, post, scan) == Likers(State(Scanned(s, scan), rows, Idle), post) - Likers(s, post)
    ensures Missed(s, rows, post, scan) == Likers(s, post) - Likers(State(Scanned(s, scan), rows, Idle), post)
  {
    var seen := State(Scanned(s, scan), rows, Idle);
    forall u
      ensures u in Ghosts(s, rows, post, scan) <==> u in Likers(seen, post) && u !in Likers(s, post)
      ensures u in Missed(s, rows, post, scan) <==> u in Likers(s, post) && u !in Likers(seen, post)
    {
      var k := Key(post, u);
      assert k.post == post && k.user == u;
      assert forall j: Key :: j.post == post && j.user == u ==> j == k;
      LikersMeaning(s, post, u);
      LikersMeaning(seen, post, u);
      GetLikeIsEffective(s, k);
    }
  }

  lemma Balance(a: set<int>, b: set<int>)
    ensures |a| == |b| + |a - b| - |b - a|
  {
    assert a == (a * b) + (a - b) && b == (a * b) + (b - a);
  }

  /** The marks are those of `s` for the keys that an earlier SCAN yielded, the rows
      those of any view, older or newer. The error of the count is exact, and it comes
      only from users without a scanned mark. */
  lemma CountErrorIsExact(s: State, rows: set<Key>, post: int, scan: seq<Key>)
    requires forall k :: k in scan ==> k.post == post
    ensures CountLikes(s.redis, rows, post, scan) ==
            |Likers(s, post)| + |Ghosts(s, rows, post, scan)| - |Missed(s, rows, post, scan)|
  {
    var seen := State(Scanned(s, scan), rows, Idle);
    PendingReadsScanned(s.redis, seen.redis, scan);
    CountLikesIsCardinality(seen, post, scan);
    GhostsAndMissed(s, rows, post, scan);
    Balance(Likers(seen, post), Likers(s, post));
  }

  /** The rows are fixed in `s`, the marks are read after the steps `es`. The count is
      right unless a DEL removed a mark of the post in between. */
  lemma CountOnOldRows(s: State, es: seq<Event>, post: int, scan: seq<Key>)
    requires Inv(s) && Possible(s, es)
    requires forall k: Key :: k.post == post ==> KeepsMark(s, es, k)
    requires Covers(scan, Run(s, es).redis, post)
    ensures CountLikes(Run(s, es).redis, s.db, post, scan) == |Likers(Run(s, es), post)|
  {
    var t := Run(s, es);
    CountErrorIsExact(t, s.db, post, scan);
    forall k: Key | k.post == post && k !in t.redis ensures k in s.db <==> k in t.db {
      KeptMarkReadIsCurrent(s, es, k);
      GetLikeIsEffective(t, k);
    }
    assert Ghosts(t, s.db, post, scan) == {} && Missed(t, s.db, post, scan) == {};
  }

  /** After a whole flush between the two reads the count is zero for one liker. */
  lemma CountOnOldRowsMisses(k: Key)
    ensures
      var s, es := State(map[k := Liked], {}, Idle), FlushEvents([k]);
      && Possible(s, es) && Run(s, es).redis == map[]
      && CountLikes(Run(s, es).redis, s.db, k.post, []) == 0
      && Likers(Run(s, es), k.post) == {k.user}
  {
    var s, es := State(map[k := Liked], {}, Idle), FlushEvents([k]);
    FlushPersists(s, [k]);
    assert Effective(s) == {k};
    assert Saved(s.db, k.post) == {};
  }
}
