/** The objects that run the like cache, proved against the steps of `LikeCache`. */
module LikeRepository {
  import opened Common
  import opened LikeCache

  datatype LikeError = PostNotFound

  class PostRepository {
    var redis: map<Key, Mark>
    var db: set<Key>

    function Snapshot(): State
      reads this
    {
      State(redis, db, Idle)
    }

    constructor ()
      ensures Snapshot() == State(map[], {}, Idle)
    {
      redis, db := map[], {};
    }

    method IsLiked(k: Key) returns (liked: bool)
      ensures liked <==> k in Effective(Snapshot())
    {
      if k in redis {
        return redis[k] == Liked;
      }
      liked := k in db;
    }

    method AddLike(k: Key)
      modifies this`redis
      ensures redis == old(redis)[k := Liked]
    {
      redis := redis[k := Liked];
    }

    method DeleteLike(k: Key)
      modifies this`redis
      ensures redis == old(redis)[k := Unliked]
    {
      redis := redis[k := Unliked];
    }

    /** One flush with nobody else running; `scan` is what SCAN yields. */
    method ScanLikeToDb(scan: seq<Key>)
      requires forall k :: k in scan ==> k in redis
      modifies this
      ensures Possible(old(Snapshot()), FlushEvents(scan))
      ensures Snapshot() == Run(old(Snapshot()), FlushEvents(scan))
      ensures Effective(Snapshot()) == old(Effective(Snapshot()))
      ensures redis == old(redis) - (set k | k in scan)
      ensures old(redis.Keys) <= (set k | k in scan) ==> db == old(Effective(Snapshot()))
    {
      ghost var before := Snapshot();
      FlushPersists(before, scan);
      FlushRun(before, scan);
      var processed: seq<Key> := [];
      var session := db;
      for i := 0 to |scan|
        invariant processed == scan[..i]
        invariant redis == before.redis && db == before.db
        invariant session == Visited(before, scan[..i]).flush.session
      {
        var k := scan[i];
        var status := if k in redis then Some(redis[k]) else None;
        if status == Some(Liked) && k !in session {
          session := session + {k};
        } else if status == Some(Unliked) && k in session {
          session := session - {k};
        }
        processed := processed + [k];
        assert scan[..i + 1] == scan[..i] + [k];
      }
      assert scan[..|scan|] == scan;
      db := session;
      if processed != [] {
        redis := redis - (set k | k in processed);
      }
      assert processed == scan;
    }
  }

  class PostService {
    const posts: PostRepository

    constructor (posts: PostRepository)
      ensures this.posts == posts
    {
      this.posts := posts;
    }

    /** `published` is whether the post exists and is published. */
    method LikeThePost(k: Key, published: bool) returns (r: Result<Unit, LikeError>)
      modifies posts`redis
      ensures posts.Snapshot() == Step(old(posts.Snapshot()), Like(k, published))
      ensures r == if published then Ok(Unit.Unit) else Err(PostNotFound)
      ensures posts.redis == if published && !old(k in Effective(posts.Snapshot()))
                             then old(posts.redis)[k := Liked] else old(posts.redis)
      ensures Effective(posts.Snapshot()) == old(Effective(posts.Snapshot())) + if published then {k} else {}
    {
      StepAgrees(posts.Snapshot(), Like(k, published));
      if !published {
        return Err(PostNotFound);
      }
      var existing := posts.IsLiked(k);
      GetLikeIsEffective(posts.Snapshot(), k);
      if existing {
        return Ok(Unit.Unit);
      }
      posts.AddLike(k);
      return Ok(Unit.Unit);
    }

    method UnlikeThePost(k: Key)
      modifies posts`redis
      ensures posts.Snapshot() == Step(old(posts.Snapshot()), Unlike(k))
      ensures posts.redis == if old(k in Effective(posts.Snapshot())) then old(posts.redis)[k := Unliked] else old(posts.redis)
      ensures Effective(posts.Snapshot()) == old(Effective(posts.Snapshot())) - {k}
    {
      StepAgrees(posts.Snapshot(), Unlike(k));
      var liked := posts.IsLiked(k);
      GetLikeIsEffective(posts.Snapshot(), k);
      if !liked {
        return;
      }
      posts.DeleteLike(k);
    }
  }
}
