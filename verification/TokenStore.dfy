/** The refresh-token store: three Redis keyspaces with expiry times.

    A key whose `expireAt` has come is absent for every command. The clock counts
    whole seconds. SHA-256 is an injective wrapper, and a token is its claims. */
module TokenStore {
  import opened Common

  /** REFRESH_TOKEN_EXPIRE_DAYS and ACCESS_TOKEN_EXPIRE_MINUTES, in seconds. */
  datatype Settings = Settings(refreshTtl: Positive, accessTtl: Positive)

  datatype Kind = Access | Refresh

  datatype Token = Token(kind: Kind, user: int, jti: nat, exp: int)

  datatype Hash = Sha256(of: Token)

  datatype Id = Id(user: int, jti: nat)

  datatype Session = Session(hash: Hash, expireAt: int)

  datatype Index = Index(jtis: set<nat>, expireAt: int)

  /** `refresh:{user}:{jti}`, `refresh_index:{user}` and `refresh_used:{user}:{jti}`. */
  datatype Store = Store(active: map<Id, Session>, index: map<int, Index>, used: map<Id, int>)

  datatype TokenState = ACTIVE | REUSED | FORGED | UNKNOWN

  function IdOf(t: Token): Id {
    Id(t.user, t.jti)
  }

  function Max(a: int, b: int): int {
    if a < b then b else a
  }

  predicate HasActive(s: Store, id: Id, now: int) {
    id in s.active && now < s.active[id].expireAt
  }

  /** SMEMBERS. */
  function Members(s: Store, user: int, now: int): set<nat> {
    if user in s.index && now < s.index[user].expireAt then s.index[user].jtis else {}
  }

  /** SREM: the key goes away with its last member. */
  function WithoutMember(s: Store, id: Id, now: int): map<int, Index> {
    var left := Members(s, id.user, now) - {id.jti};
    if left == {} then s.index - {id.user}
    else s.index[id.user := s.index[id.user].(jtis := left)]
  }

  function Save(s: Store, id: Id, hash: Hash, ttl: int, now: int): Store {
    s.(active := s.active[id := Session(hash, now + ttl)],
       index := s.index[id.user := Index(Members(s, id.user, now) + {id.jti}, now + ttl)])
  }

  function Verify(s: Store, id: Id, t: Token, now: int): TokenState {
    if HasActive(s, id, now) then
      if s.active[id].hash == Sha256(t) then ACTIVE else FORGED
    else if id in s.used && now < s.used[id] then REUSED
    else UNKNOWN
  }

  function Rotate(s: Store, id: Id, remaining: int, now: int): Store {
    Store(s.active - {id}, WithoutMember(s, id, now), s.used[id := now + Max(remaining, 1)])
  }

  function Revoke(s: Store, id: Id, now: int): Store {
    s.(active := s.active - {id}, index := WithoutMember(s, id, now))
  }

  function RevokeAll(s: Store, user: int, now: int): Store {
    s.(active := s.active - (set j | j in Members(s, user, now) :: Id(user, j)),
       index := s.index - {user})
  }

  function LiveSessions(s: Store, user: int, now: int): set<Id> {
    set id | id in s.active && id.user == user && now < s.active[id].expireAt
  }

  /** The store as the object that issues the Redis commands. */
  class RefreshTokenStore {
    const ttl: Positive
    var active: map<Id, Session>
    var index: map<int, Index>
    var used: map<Id, int>

    constructor (ttl: Positive)
      ensures this.ttl == ttl && Contents() == Store(map[], map[], map[])
    {
      this.ttl := ttl;
      active, index, used := map[], map[], map[];
    }

    function Contents(): Store
      reads this
    {
      Store(active, index, used)
    }

    method SaveToken(id: Id, hash: Hash, now: int)
      modifies this
      ensures Contents() == Save(old(Contents()), id, hash, ttl, now)
      ensures active == old(active)[id := Session(hash, now + ttl)] && used == old(used)
      ensures id.user in index && index[id.user].expireAt == now + ttl
      ensures index[id.user].jtis == old(Members(Contents(), id.user, now)) + {id.jti}
      ensures index - {id.user} == old(index) - {id.user}
    {
      active := active[id := Session(hash, now + ttl)];
      var members := ReadMembers(id.user, now);
      index := index[id.user := Index(members + {id.jti}, now + ttl)];
    }

    method ReadMembers(user: int, now: int) returns (jtis: set<nat>)
      ensures jtis == Members(Contents(), user, now)
      ensures forall j :: j in jtis <==> user in index && now < index[user].expireAt && j in index[user].jtis
    {
      if user in index && now < index[user].expireAt {
        return index[user].jtis;
      }
      return {};
    }

    method VerifyToken(id: Id, t: Token, now: int) returns (r: TokenState)
      ensures r == Verify(Contents(), id, t, now)
      ensures r == ACTIVE <==> id in active && now < active[id].expireAt && active[id].hash == Sha256(t)
      ensures r == FORGED <==> id in active && now < active[id].expireAt && active[id].hash != Sha256(t)
      ensures r == REUSED <==> !(id in active && now < active[id].expireAt) && id in used && now < used[id]
    {
      if id in active && now < active[id].expireAt {
        if active[id].hash == Sha256(t) {
          return ACTIVE;
        }
        return FORGED;
      }
      if id in used && now < used[id] {
        return REUSED;
      }
      return UNKNOWN;
    }

    method RemoveMember(id: Id, now: int)
      modifies this`index
      ensures index == WithoutMember(old(Contents()), id, now)
      ensures Members(Contents(), id.user, now) == old(Members(Contents(), id.user, now)) - {id.jti}
      ensures id.user in index ==> Members(Contents(), id.user, now) != {} && id.user in old(index) &&
                                   index[id.user].expireAt == old(index)[id.user].expireAt
      ensures index - {id.user} == old(index) - {id.user}
    {
      var left := ReadMembers(id.user, now);
      left := left - {id.jti};
      if left == {} {
        index := index - {id.user};
      } else {
        index := index[id.user := index[id.user].(jtis := left)];
      }
    }

    method RotateToken(id: Id, remaining: int, now: int)
      modifies this
      ensures Contents() == Rotate(old(Contents()), id, remaining, now)
      ensures active == old(active) - {id}
      ensures used == old(used)[id := if remaining < 1 then now + 1 else now + remaining]
      ensures Members(Contents(), id.user, now) == old(Members(Contents(), id.user, now)) - {id.jti}
      ensures index - {id.user} == old(index) - {id.user}
    {
      active := active - {id};
      RemoveMember(id, now);
      used := used[id := now + Max(remaining, 1)];
    }

    method RevokeToken(id: Id, now: int)
      modifies this
      ensures Contents() == Revoke(old(Contents()), id, now)
      ensures active == old(active) - {id} && used == old(used)
      ensures Members(Contents(), id.user, now) == old(Members(Contents(), id.user, now)) - {id.jti}
      ensures index - {id.user} == old(index) - {id.user}
    {
      active := active - {id};
      RemoveMember(id, now);
    }

    /** Deletes the token key of every indexed jti, one by one, then the index. */
    method RevokeAllTokens(user: int, now: int) returns (count: nat)
      modifies this
      ensures Contents() == RevokeAll(old(Contents()), user, now)
      ensures forall id :: id in active <==>
                id in old(active) && !(id.user == user && id.jti in old(Members(Contents(), user, now)))
      ensures forall id :: id in active ==> active[id] == old(active)[id]
      ensures index == old(index) - {user} && used == old(used)
      ensures count == |Members(old(Contents()), user, now)|
    {
      var jtis := ReadMembers(user, now);
      var left := jtis;
      while left != {}
        invariant left <= jtis
        invariant active == old(active) - (set j | j in jtis - left :: Id(user, j))
        invariant index == old(index) && used == old(used)
        decreases |left|
      {
        var j :| j in left;
        active := active - {Id(user, j)};
        left := left - {j};
      }
      index := index - {user};
      assert jtis - left == jtis;
      count := |jtis|;
    }
  }
}
