/** The menu table: an adjacency list with logical deletion. */
module MenuTable {
  import opened Common

  datatype Menu = Menu(name: string, parent: Option<int>, deleted: bool)

  datatype Table = Table(rows: map<int, Menu>, nextId: int)

  predicate Live(t: Table, id: int) {
    id in t.rows && !t.rows[id].deleted
  }

  function ParentOf(t: Table, id: int): Option<int>
    requires id in t.rows
  {
    t.rows[id].parent
  }

  // ---------------------------------------------------------------- invariant

  ghost predicate ParentsLive(t: Table) {
    forall id :: Live(t, id) && ParentOf(t, id).Some? ==> Live(t, ParentOf(t, id).value)
  }

  /** A height that drops on every step towards the top. */
  ghost predicate Ranked(t: Table, rank: map<int, nat>) {
    && (forall id :: Live(t, id) ==> id in rank)
    && (forall id :: Live(t, id) && ParentOf(t, id).Some? ==>
          Live(t, ParentOf(t, id).value) && rank[ParentOf(t, id).value] < rank[id])
  }

  ghost predicate Forest(t: Table) {
    ParentsLive(t) && exists rank :: Ranked(t, rank)
  }

  ghost function RankOf(t: Table): (rank: map<int, nat>)
    requires Forest(t)
    ensures Ranked(t, rank)
  {
    var rank :| Ranked(t, rank); rank
  }

  predicate SameSpot(t: Table, a: int, b: int)
    requires a in t.rows && b in t.rows
  {
    t.rows[a].parent == t.rows[b].parent && t.rows[a].name == t.rows[b].name
  }

  ghost predicate NamesUnique(t: Table) {
    forall a, b :: Live(t, a) && Live(t, b) && SameSpot(t, a, b) ==> a == b
  }

  ghost predicate Good(t: Table) {
    && Forest(t)
    && NamesUnique(t)
    && (forall id :: id in t.rows ==> id < t.nextId)
  }

  // ---------------------------------------------------------------- ancestors

  /** `m` is `x` itself or one of its ancestors. */
  ghost predicate Above(t: Table, x: int, m: int)
    requires Forest(t) && Live(t, x)
    decreases RankOf(t)[x]
  {
    x == m || (ParentOf(t, x).Some? && Above(t, ParentOf(t, x).value, m))
  }

  /** A sequence of live menus, each the parent of the one before it. */
  ghost predicate Chain(t: Table, path: seq<int>) {
    && (forall i :: 0 <= i < |path| ==> Live(t, path[i]))
    && (forall i :: 0 <= i < |path| - 1 ==> ParentOf(t, path[i]) == Some(path[i + 1]))
  }

  ghost predicate IsCycle(t: Table, path: seq<int>) {
    2 <= |path| && Chain(t, path) && path[0] == path[|path| - 1]
  }

  ghost predicate HasCycle(t: Table) {
    exists path :: IsCycle(t, path)
  }

  lemma {:induction false} ChainDescends(t: Table, rank: map<int, nat>, path: seq<int>, i: nat, j: nat)
    requires Ranked(t, rank) && Chain(t, path) && i < j < |path|
    ensures rank[path[j]] < rank[path[i]]
    decreases j
  {
    assert ParentOf(t, path[j - 1]) == Some(path[j]);
    if i < j - 1 {
      ChainDescends(t, rank, path, i, j - 1);
    }
  }

  lemma ForestHasNoCycle(t: Table)
    requires Forest(t)
    ensures !HasCycle(t)
  {
    if HasCycle(t) {
      var path :| IsCycle(t, path);
      ChainDescends(t, RankOf(t), path, 0, |path| - 1);
      assert false;
    }
  }

  /** The way up from `x` to an ancestor; no menu on it but the last is `m`. */
  lemma {:induction false} AboveGivesChain(t: Table, x: int, m: int) returns (path: seq<int>)
    requires Forest(t) && Live(t, x) && Above(t, x, m)
    ensures 1 <= |path| && Chain(t, path) && path[0] == x && path[|path| - 1] == m
    ensures forall i :: 0 <= i < |path| - 1 ==> path[i] != m
    decreases RankOf(t)[x]
  {
    if x == m {
      path := [x];
    } else {
      var up := AboveGivesChain(t, ParentOf(t, x).value, m);
      path := [x] + up;
      assert forall i :: 1 <= i < |path| ==> path[i] == up[i - 1];
    }
  }

  lemma AboveRank(t: Table, x: int, m: int)
    requires Forest(t) && Live(t, x) && Above(t, x, m)
    ensures Live(t, m) && (x == m || RankOf(t)[m] < RankOf(t)[x])
    decreases RankOf(t)[x]
  {
    if x != m {
      AboveRank(t, ParentOf(t, x).value, m);
    }
  }

  // ---------------------------------------------------------------- moving a menu

  function Moved(t: Table, m: int, parent: Option<int>, name: string): Table
    requires m in t.rows
  {
    t.(rows := t.rows[m := t.rows[m].(parent := parent, name := name)])
  }

  /** Moving `m` under a menu that is not below it keeps a forest: lift `m` and all
      that is below it over the new parent. */
  lemma MoveKeepsForest(t: Table, m: int, parent: Option<int>, name: string)
    requires Forest(t) && Live(t, m)
    requires parent.Some? ==> Live(t, parent.value) && !Above(t, parent.value, m)
    ensures Forest(Moved(t, m, parent, name))
  {
    var rank, t' := RankOf(t), Moved(t, m, parent, name);
    var lift := if parent.Some? then rank[parent.value] + 1 else 0;
    var rank' := map id | id in rank && Live(t, id) :: if Above(t, id, m) then rank[id] + lift else rank[id];
    forall id | Live(t', id) && ParentOf(t', id).Some?
      ensures Live(t', ParentOf(t', id).value) && rank'[ParentOf(t', id).value] < rank'[id]
    {
      assert Live(t, id);
      if id != m {
        assert Above(t, id, m) <==> Above(t, ParentOf(t, id).value, m);
      }
    }
    assert Ranked(t', rank');
  }

  /** The walk rejects exactly the moves that would make a cycle. */
  lemma CycleIffBelow(t: Table, m: int, p: int, name: string)
    requires Forest(t) && Live(t, m) && Live(t, p)
    ensures Above(t, p, m) <==> HasCycle(Moved(t, m, Some(p), name))
  {
    var t' := Moved(t, m, Some(p), name);
    if Above(t, p, m) {
      var up := AboveGivesChain(t, p, m);
      var path := [m] + up;
      assert forall i :: 0 <= i < |up| - 1 ==> ParentOf(t', up[i]) == ParentOf(t, up[i]);
      forall i | 0 <= i < |path| - 1 ensures ParentOf(t', path[i]) == Some(path[i + 1]) {
        if i > 0 {
          assert path[i] == up[i - 1] && path[i + 1] == up[i];
        }
      }
      assert IsCycle(t', path);
    } else {
      MoveKeepsForest(t, m, Some(p), name);
      ForestHasNoCycle(t');
    }
  }

  // ---------------------------------------------------------------- the calls

  datatype MenuError =
    | MenuNotFound
    | ParentNotFound
    | OwnParent
    | BelowItself
    | NameTaken
    | NameMissing
    | HasChildren

  /** `name` and `parent` are None when the request leaves the field out; a name of
      Some(None) is an explicit null, which the column refuses. */
  datatype Changes = Changes(name: Option<Option<string>>, parent: Option<Option<int>>)

  datatype Op =
    | Create(parent: Option<int>, name: string)
    | Update(id: int, changes: Changes)
    | Delete(id: int)

  predicate NameExists(t: Table, parent: Option<int>, name: Option<string>) {
    name.Some? && exists id :: id in t.rows && Live(t, id) && t.rows[id].parent == parent && t.rows[id].name == name.value
  }

  predicate HasLiveChild(t: Table, id: int) {
    exists c :: c in t.rows && Live(t, c) && t.rows[c].parent == Some(id)
  }

  function CreateMenu(t: Table, parent: Option<int>, name: string): (Table, Result<int, MenuError>) {
    if parent.Some? && !Live(t, parent.value) then (t, Err(ParentNotFound))
    else if NameExists(t, parent, Some(name)) then (t, Err(NameTaken))
    else (Table(t.rows[t.nextId := Menu(name, parent, false)], t.nextId + 1), Ok(t.nextId))
  }

  ghost function UpdateMenu(t: Table, id: int, d: Changes): (Table, Result<int, MenuError>)
    requires Forest(t)
  {
    if !Live(t, id) then (t, Err(MenuNotFound))
    else
      var m := t.rows[id];
      var parent := if d.parent.Some? then d.parent.value else m.parent;
      var name := if d.name.Some? then d.name.value else Some(m.name);
      if d.parent.Some? && parent.Some? && !Live(t, parent.value) then (t, Err(ParentNotFound))
      else if d.parent.Some? && parent == Some(id) then (t, Err(OwnParent))
      else if d.parent.Some? && parent.Some? && Above(t, parent.value, id) then (t, Err(BelowItself))
      else if (parent != m.parent || name != Some(m.name)) && NameExists(t, parent, name) then (t, Err(NameTaken))
      else if name.None? then (t, Err(NameMissing))
      else (Moved(t, id, parent, name.value), Ok(id))
  }

  function DeleteMenu(t: Table, id: int): (Table, Result<int, MenuError>) {
    if !Live(t, id) then (t, Err(MenuNotFound))
    else if HasLiveChild(t, id) then (t, Err(HasChildren))
    else (t.(rows := t.rows[id := t.rows[id].(deleted := true)]), Ok(id))
  }

  ghost function Apply(t: Table, op: Op): (Table, Result<int, MenuError>)
    requires Forest(t)
  {
    match op
    case Create(parent, name) => CreateMenu(t, parent, name)
    case Update(id, d) => UpdateMenu(t, id, d)
    case Delete(id) => DeleteMenu(t, id)
  }

  lemma CreateKeepsGood(t: Table, parent: Option<int>, name: string)
    requires Good(t)
    ensures Good(CreateMenu(t, parent, name).0)
  {
    var t' := CreateMenu(t, parent, name).0;
    if t' != t {
      var rank := RankOf(t);
      var rank' := rank[t.nextId := if parent.Some? then rank[parent.value] + 1 else 0];
      assert forall id :: Live(t', id) <==> Live(t, id) || id == t.nextId;
      assert Ranked(t', rank');
    }
  }

  lemma UpdateKeepsGood(t: Table, id: int, d: Changes)
    requires Good(t)
    ensures Good(UpdateMenu(t, id, d).0)
  {
    var t' := UpdateMenu(t, id, d).0;
    if t' != t {
      var m := t.rows[id];
      var parent := if d.parent.Some? then d.parent.value else m.parent;
      if parent.Some? && d.parent.None? {
        assert !Above(t, parent.value, id) by {
          if Above(t, parent.value, id) {
            AboveRank(t, parent.value, id);
            assert false;
          }
        }
      }
      var name := t'.rows[id].name;
      MoveKeepsForest(t, id, parent, name);
      forall x | Live(t, x) && t.rows[x].parent == parent && t.rows[x].name == name ensures x == id {
        if parent == m.parent && name == m.name {
          assert SameSpot(t, x, id);
        }
      }
      forall a, b | Live(t', a) && Live(t', b) && SameSpot(t', a, b) ensures a == b {
        assert Live(t, a) && Live(t, b);
        assert a != id && b != id ==> SameSpot(t, a, b);
      }
    }
  }

  lemma DeleteKeepsGood(t: Table, id: int)
    requires Good(t)
    ensures Good(DeleteMenu(t, id).0)
  {
    var t' := DeleteMenu(t, id).0;
    assert forall x :: Live(t', x) ==> Live(t, x) && t'.rows[x] == t.rows[x];
    assert Ranked(t', RankOf(t));
  }

  // ---------------------------------------------------------------- what each call does

  /** `m` is `x` itself or is reached from it by going up from parent to parent. */
  ghost predicate Reaches(t: Table, x: int, m: int) {
    exists path :: LeadsTo(t, path, x, m)
  }

  ghost predicate LeadsTo(t: Table, path: seq<int>, x: int, m: int) {
    path != [] && Chain(t, path) && path[0] == x && path[|path| - 1] == m
  }

  lemma {:induction false} ChainIsAbove(t: Table, path: seq<int>, x: int, m: int)
    requires Forest(t) && LeadsTo(t, path, x, m)
    ensures Live(t, x) && Above(t, x, m)
    decreases |path|
  {
    if |path| == 1 {
    } else {
      assert ParentOf(t, x) == Some(path[1]);
      var up := path[1..];
      forall i | 0 <= i < |up| - 1 ensures ParentOf(t, up[i]) == Some(up[i + 1]) {
        assert up[i] == path[i + 1] && up[i + 1] == path[i + 2];
      }
      ChainIsAbove(t, up, path[1], m);
    }
  }

  lemma ReachesIsAbove(t: Table, x: int, m: int)
    requires Forest(t) && Live(t, x)
    ensures Reaches(t, x, m) <==> Above(t, x, m)
  {
    if Above(t, x, m) {
      var path := AboveGivesChain(t, x, m);
      assert LeadsTo(t, path, x, m);
    }
    if Reaches(t, x, m) {
      var path :| LeadsTo(t, path, x, m);
      ChainIsAbove(t, path, x, m);
    }
  }

  /** A live menu other than `but` has this parent and name. */
  predicate Taken(t: Table, parent: Option<int>, name: string, but: Option<int>) {
    exists x :: x in t.rows && !t.rows[x].deleted && Some(x) != but && t.rows[x].parent == parent && t.rows[x].name == name
  }

  /** A new live row under an id not used before; everything else stays. */
  lemma CreateAddsOneRow(t: Table, parent: Option<int>, name: string)
    requires Good(t)
    ensures
      var (t', r) := Apply(t, Create(parent, name));
      match r
      case Ok(id) =>
        && id !in t.rows
        && t'.rows.Keys == t.rows.Keys + {id}
        && t'.rows[id].name == name && t'.rows[id].parent == parent && !t'.rows[id].deleted
        && (forall x :: x in t.rows ==> t'.rows[x] == t.rows[x])
        && id < t'.nextId
      case Err(_) => t' == t
  {
  }

  lemma CreateRefusedIff(t: Table, parent: Option<int>, name: string)
    requires Good(t)
    ensures
      var r := Apply(t, Create(parent, name)).1;
      var lost := parent.Some? && (parent.value !in t.rows || t.rows[parent.value].deleted);
      && (r == Err(ParentNotFound) <==> lost)
      && (r == Err(NameTaken) <==> !lost && Taken(t, parent, name, None))
      && (r.Ok? <==> !lost && !Taken(t, parent, name, None))
  {
    assert NameExists(t, parent, Some(name)) <==> Taken(t, parent, name, None);
  }

  /** Each field that was sent has the value sent, each other field the one it had; the
      menu is still live, and no other row changes. */
  lemma UpdateSetsWhatWasSent(t: Table, id: int, d: Changes)
    requires Good(t)
    ensures
      var (t', r) := Apply(t, Update(id, d));
      if r.Err? then t' == t
      else
        && r == Ok(id) && id in t.rows && !t.rows[id].deleted
        && t'.rows.Keys == t.rows.Keys && t'.nextId == t.nextId
        && (forall x :: x in t.rows && x != id ==> t'.rows[x] == t.rows[x])
        && !t'.rows[id].deleted
        && (if d.name.Some? then d.name.value == Some(t'.rows[id].name) else t'.rows[id].name == t.rows[id].name)
        && (if d.parent.Some? then t'.rows[id].parent == d.parent.value else t'.rows[id].parent == t.rows[id].parent)
  {
  }

  /** The errors of an update, in order. The name check runs only on a change and does
      not leave the menu itself out; on the tables of the service it comes to what it
      should be: another live menu has the name at the new place. */
  lemma UpdateRefusedIff(t: Table, id: int, d: Changes)
    requires Good(t)
    ensures
      var r := Apply(t, Update(id, d)).1;
      var found := id in t.rows && !t.rows[id].deleted;
      var moves := found && d.parent.Some? && d.parent.value.Some?;
      var lost := moves && (d.parent.value.value !in t.rows || t.rows[d.parent.value.value].deleted);
      var cyclic := moves && !lost && Reaches(t, d.parent.value.value, id);
      var taken :=
        found && !lost && !cyclic && (d.name.Some? ==> d.name.value.Some?) &&
        Taken(t, if d.parent.Some? then d.parent.value else t.rows[id].parent,
              if d.name.Some? then d.name.value.value else t.rows[id].name, Some(id));
      var nameless := found && !lost && !cyclic && d.name == Some(None);
      && (r == Err(MenuNotFound) <==> !found)
      && (r == Err(ParentNotFound) <==> lost)
      && (r == Err(OwnParent) <==> cyclic && d.parent.value.value == id)
      && (r == Err(BelowItself) <==> cyclic && d.parent.value.value != id)
      && (r == Err(NameTaken) <==> taken)
      && (r == Err(NameMissing) <==> nameless)
      && (r.Ok? <==> found && !lost && !cyclic && !taken && !nameless)
  {
    if Live(t, id) {
      if d.parent.Some? && d.parent.value.Some? && Live(t, d.parent.value.value) {
        ReachesIsAbove(t, d.parent.value.value, id);
      }
      if d.name.Some? ==> d.name.value.Some? {
        ClashIsTaken(t, id, if d.parent.Some? then d.parent.value else t.rows[id].parent,
                     if d.name.Some? then d.name.value.value else t.rows[id].name);
      }
    }
  }

  lemma ClashIsTaken(t: Table, id: int, parent: Option<int>, name: string)
    requires Good(t) && Live(t, id)
    ensures (parent != t.rows[id].parent || name != t.rows[id].name) && NameExists(t, parent, Some(name)) <==>
            Taken(t, parent, name, Some(id))
  {
    if parent == t.rows[id].parent && name == t.rows[id].name {
      forall x | Live(t, x) && t.rows[x].parent == parent && t.rows[x].name == name ensures x == id {
        assert SameSpot(t, x, id);
      }
    }
  }

  /** Exactly the deleted menu stops being live; its row and all others stay. */
  lemma DeleteEndsOneMenu(t: Table, id: int)
    requires Good(t)
    ensures
      var (t', r) := Apply(t, Delete(id));
      var found := id in t.rows && !t.rows[id].deleted;
      var parental := exists x :: x in t.rows && !t.rows[x].deleted && t.rows[x].parent == Some(id);
      && (r == Err(MenuNotFound) <==> !found)
      && (r == Err(HasChildren) <==> found && parental)
      && (r.Ok? <==> found && !parental)
      && (r.Err? ==> t' == t)
      && (r.Ok? ==>
            && r == Ok(id)
            && t'.rows.Keys == t.rows.Keys && t'.nextId == t.nextId
            && t'.rows[id].deleted && t'.rows[id].name == t.rows[id].name && t'.rows[id].parent == t.rows[id].parent
            && forall x :: x in t.rows && x != id ==> t'.rows[x] == t.rows[x])
  {
    assert HasLiveChild(t, id) <==> exists x :: x in t.rows && !t.rows[x].deleted && t.rows[x].parent == Some(id);
  }

  ghost function RunMenus(t: Table, ops: seq<Op>): Table
    requires Good(t)
    decreases |ops|
  {
    if ops == [] then t else ApplyKeepsGood(t, ops[0]); RunMenus(Apply(t, ops[0]).0, ops[1..])
  }

  /** A refused call changes nothing; every call keeps the forest and the names. */
  lemma ApplyKeepsGood(t: Table, op: Op)
    requires Good(t)
    ensures Good(Apply(t, op).0)
    ensures Apply(t, op).1.Err? ==> Apply(t, op).0 == t
  {
    match op
    case Create(parent, name) => CreateKeepsGood(t, parent, name);
    case Update(id, d) => UpdateKeepsGood(t, id, d);
    case Delete(id) => DeleteKeepsGood(t, id);
  }

  /** Every run of menu calls leaves an acyclic forest in which each live menu has a
      live parent or none, and no two live siblings share a name. */
  lemma {:induction false} RunsKeepTheForest(t: Table, ops: seq<Op>)
    requires Good(t)
    ensures Good(RunMenus(t, ops)) && !HasCycle(RunMenus(t, ops))
    decreases |ops|
  {
    if ops == [] {
      ForestHasNoCycle(t);
    } else {
      ApplyKeepsGood(t, ops[0]);
      RunsKeepTheForest(Apply(t, ops[0]).0, ops[1..]);
    }
  }
}
