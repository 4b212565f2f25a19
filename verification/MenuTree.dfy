/** The menu tree: the recursive definition, and the one-pass assembly of node objects. */
module MenuTree {
  import opened Common
  import opened MenuTable

  // ---------------------------------------------------------------- the definition

  datatype Tree = Node(id: int, name: string, children: seq<Tree>)

  /** The menu a live menu is shown under; a menu whose parent is gone moves to the top. */
  function Filed(t: Table, id: int): Option<int>
    requires Live(t, id)
  {
    if ParentOf(t, id).Some? && Live(t, ParentOf(t, id).value) then ParentOf(t, id) else None
  }

  predicate Increasing(s: seq<int>) {
    forall i, j :: 0 <= i < j < |s| ==> s[i] < s[j]
  }

  /** `s` lists the live menus filed under `parent`, by increasing id. */
  ghost predicate IsChildren(t: Table, parent: Option<int>, s: seq<int>) {
    Increasing(s) && forall id :: id in s <==> Live(t, id) && Filed(t, id) == parent
  }

  function Ids(trees: seq<Tree>): (s: seq<int>)
    ensures |s| == |trees| && forall i :: 0 <= i < |s| ==> s[i] == trees[i].id
  {
    seq(|trees|, i requires 0 <= i < |trees| => trees[i].id)
  }

  ghost predicate IsTree(t: Table, tree: Tree) {
    && Live(t, tree.id)
    && tree.name == t.rows[tree.id].name
    && IsChildren(t, Some(tree.id), Ids(tree.children))
    && forall i :: 0 <= i < |tree.children| ==> IsTree(t, tree.children[i])
  }

  /** The recursive definition of `get_tree`. */
  ghost predicate IsForest(t: Table, trees: seq<Tree>) {
    IsChildren(t, None, Ids(trees)) && forall i :: 0 <= i < |trees| ==> IsTree(t, trees[i])
  }

  lemma SameIncreasing(a: seq<int>, b: seq<int>)
    requires Increasing(a) && Increasing(b) && forall x :: x in a <==> x in b
    ensures a == b
  {
    assert forall x <- Elements(a) :: x in b;
    assert forall x <- Elements(b) :: x in a;
    assert Elements(a) == Elements(b);
    OneOrder((x, y) => x < y, a, b);
  }

  lemma {:induction false} TreeIsUnique(t: Table, a: Tree, b: Tree)
    requires IsTree(t, a) && IsTree(t, b) && a.id == b.id
    ensures a == b
    decreases a
  {
    SameIncreasing(Ids(a.children), Ids(b.children));
    forall i | 0 <= i < |a.children| ensures a.children[i] == b.children[i] {
      assert Ids(a.children)[i] == Ids(b.children)[i];
      TreeIsUnique(t, a.children[i], b.children[i]);
    }
  }

  lemma ForestIsUnique(t: Table, a: seq<Tree>, b: seq<Tree>)
    requires IsForest(t, a) && IsForest(t, b)
    ensures a == b
  {
    SameIncreasing(Ids(a), Ids(b));
    forall i | 0 <= i < |a| ensures a[i] == b[i] {
      assert Ids(a)[i] == Ids(b)[i];
      TreeIsUnique(t, a[i], b[i]);
    }
  }

  /** On every level the menus stand by increasing id. */
  predicate ById(trees: seq<Tree>) {
    && (forall i, j :: 0 <= i < j < |trees| ==> trees[i].id < trees[j].id)
    && (forall i :: 0 <= i < |trees| ==> ById(trees[i].children))
  }

  lemma {:induction false} TreesAreById(t: Table, trees: seq<Tree>)
    requires Increasing(Ids(trees)) && forall i :: 0 <= i < |trees| ==> IsTree(t, trees[i])
    ensures ById(trees)
    decreases trees
  {
    forall i, j | 0 <= i < j < |trees| ensures trees[i].id < trees[j].id {
      assert Ids(trees)[i] < Ids(trees)[j];
    }
    forall i | 0 <= i < |trees| ensures ById(trees[i].children) {
      TreesAreById(t, trees[i].children);
    }
  }

  lemma ForestIsById(t: Table, trees: seq<Tree>)
    requires IsForest(t, trees)
    ensures ById(trees)
  {
    TreesAreById(t, trees);
  }

  /** In a table the service can reach, a menu is shown under its own parent. */
  lemma FiledIsParent(t: Table, id: int)
    requires ParentsLive(t) && Live(t, id)
    ensures Filed(t, id) == ParentOf(t, id)
  {
  }

  // ---------------------------------------------------------------- it exists

  lemma {:induction false} Sorted(ids: set<int>) returns (s: seq<int>)
    ensures Increasing(s) && forall x :: x in s <==> x in ids
    decreases |ids|
  {
    if ids == {} {
      s := [];
    } else {
      var m := Greatest(ids);
      var init := Sorted(ids - {m});
      s := init + [m];
      forall i, j | 0 <= i < j < |s| ensures s[i] < s[j] {
        if j == |init| {
          assert init[i] in init;
        }
      }
    }
  }

  lemma {:induction false} Greatest(ids: set<int>) returns (m: int)
    requires ids != {}
    ensures m in ids && forall x :: x in ids ==> x <= m
    decreases |ids|
  {
    m := Pick(ids);
    if ids - {m} == {} {
      assert ids == {m};
    } else {
      var other := Greatest(ids - {m});
      assert ids == (ids - {m}) + {m};
      m := if m < other then other else m;
    }
  }

  lemma {:induction false} Bound(rank: map<int, nat>) returns (top: nat)
    ensures forall id :: id in rank ==> rank[id] <= top
    decreases |rank|
  {
    if rank.Keys == {} {
      top := 0;
    } else {
      var id := Pick(rank.Keys);
      var rest := Bound(rank - {id});
      top := if rest < rank[id] then rank[id] else rest;
      assert forall x :: x in rank && x != id ==> x in rank - {id} && rank[x] == (rank - {id})[x];
    }
  }

  lemma ChildrenExist(t: Table, parent: Option<int>) returns (s: seq<int>)
    ensures IsChildren(t, parent, s)
  {
    s := Sorted(set id | id in t.rows && Live(t, id) && Filed(t, id) == parent);
  }

  lemma {:induction false} TreeExists(t: Table, id: int, top: nat) returns (tree: Tree)
    requires Forest(t) && Live(t, id) && forall x :: Live(t, x) ==> RankOf(t)[x] <= top
    ensures IsTree(t, tree) && tree.id == id
    decreases top - RankOf(t)[id], 1, 0
  {
    var kids := ChildrenExist(t, Some(id));
    forall k | k in kids ensures Live(t, k) && RankOf(t)[id] < RankOf(t)[k] {
      FiledIsParent(t, k);
    }
    var children := TreesExist(t, id, kids, top);
    tree := Node(id, t.rows[id].name, children);
    assert Ids(children) == kids;
  }

  lemma {:induction false} TreesExist(t: Table, id: int, kids: seq<int>, top: nat) returns (trees: seq<Tree>)
    requires Forest(t) && Live(t, id) && forall x :: Live(t, x) ==> RankOf(t)[x] <= top
    requires forall k :: k in kids ==> Live(t, k) && RankOf(t)[id] < RankOf(t)[k]
    ensures |trees| == |kids|
    ensures forall i :: 0 <= i < |trees| ==> IsTree(t, trees[i]) && trees[i].id == kids[i]
    decreases top - RankOf(t)[id], 0, |kids|
  {
    if kids == [] {
      trees := [];
    } else {
      var first := TreeExists(t, kids[0], top);
      var rest := TreesExist(t, id, kids[1..], top);
      trees := [first] + rest;
    }
  }

  /** Every reachable table has exactly one forest of trees. */
  lemma {:induction false} ForestExists(t: Table) returns (trees: seq<Tree>)
    requires Forest(t)
    ensures IsForest(t, trees)
    ensures forall other :: IsForest(t, other) ==> other == trees
  {
    var top := Bound(RankOf(t));
    var roots := ChildrenExist(t, None);
    trees := [];
    for i := 0 to |roots|
      invariant |trees| == i
      invariant forall j :: 0 <= j < i ==> IsTree(t, trees[j]) && trees[j].id == roots[j]
    {
      assert roots[i] in roots;
      var tree := TreeExists(t, roots[i], top);
      trees := trees + [tree];
    }
    assert Ids(trees) == roots;
    forall other | IsForest(t, other) ensures other == trees {
      ForestIsUnique(t, other, trees);
    }
  }

  // ---------------------------------------------------------------- every menu once

  function Flatten(tree: Tree): seq<int>
    decreases tree, 1
  {
    [tree.id] + FlattenAll(tree.children)
  }

  function FlattenAll(trees: seq<Tree>): seq<int>
    decreases trees, 0
  {
    if trees == [] then [] else Flatten(trees[0]) + FlattenAll(trees[1..])
  }

  ghost predicate NoDuplicates(s: seq<int>) {
    forall i, j :: 0 <= i < j < |s| ==> s[i] != s[j]
  }

  /** The ancestors of a menu are in one line. */
  lemma {:induction false} AncestorsInLine(t: Table, x: int, a: int, b: int)
    requires Forest(t) && Live(t, x) && Above(t, x, a) && Above(t, x, b)
    ensures Live(t, a) && Live(t, b) && (Above(t, a, b) || Above(t, b, a))
    decreases RankOf(t)[x]
  {
    AboveRank(t, x, a);
    AboveRank(t, x, b);
    if x != a && x != b {
      AncestorsInLine(t, ParentOf(t, x).value, a, b);
    }
  }

  /** Two menus filed under the same place have nothing below them in common. */
  lemma SiblingsApart(t: Table, x: int, a: int, b: int)
    requires Forest(t) && Live(t, x) && Live(t, a) && Live(t, b)
    requires Above(t, x, a) && Above(t, x, b) && ParentOf(t, a) == ParentOf(t, b)
    ensures a == b
  {
    AncestorsInLine(t, x, a, b);
    if a != b {
      var low, high := if Above(t, a, b) then a else b, if Above(t, a, b) then b else a;
      AboveRank(t, ParentOf(t, low).value, high);
      assert false;
    }
  }

  /** The chain from `x` up to `m` passes through a child of `m`. */
  lemma {:induction false} ThroughChild(t: Table, x: int, m: int) returns (c: int)
    requires Forest(t) && Live(t, x) && Above(t, x, m) && x != m
    ensures Live(t, c) && Above(t, x, c) && ParentOf(t, c) == Some(m)
    decreases RankOf(t)[x]
  {
    if ParentOf(t, x).value == m {
      c := x;
    } else {
      c := ThroughChild(t, ParentOf(t, x).value, m);
    }
  }

  lemma {:induction false} AboveExtends(t: Table, x: int, c: int)
    requires Forest(t) && Live(t, x) && Live(t, c) && Above(t, x, c) && ParentOf(t, c).Some?
    ensures Above(t, x, ParentOf(t, c).value)
    decreases RankOf(t)[x]
  {
    if x != c {
      AboveExtends(t, ParentOf(t, x).value, c);
    }
  }

  lemma {:induction false} TreeHolds(t: Table, tree: Tree, x: int)
    requires Good(t) && IsTree(t, tree)
    ensures x in Flatten(tree) <==> Live(t, x) && Above(t, x, tree.id)
    decreases tree, 1
  {
    TreesHold(t, tree.children, x);
    if x in FlattenAll(tree.children) {
      var i :| 0 <= i < |tree.children| && Live(t, x) && Above(t, x, tree.children[i].id);
      var c := tree.children[i].id;
      assert c in Ids(tree.children);
      FiledIsParent(t, c);
      AboveExtends(t, x, c);
    }
    if Live(t, x) && Above(t, x, tree.id) && x != tree.id {
      var c := ThroughChild(t, x, tree.id);
      FiledIsParent(t, c);
      assert c in Ids(tree.children);
      var i :| 0 <= i < |tree.children| && Ids(tree.children)[i] == c;
      assert Above(t, x, tree.children[i].id);
    }
  }

  lemma {:induction false} TreesHold(t: Table, trees: seq<Tree>, x: int)
    requires Good(t) && forall i :: 0 <= i < |trees| ==> IsTree(t, trees[i])
    ensures x in FlattenAll(trees) <==>
            exists i :: 0 <= i < |trees| && Live(t, x) && Above(t, x, trees[i].id)
    decreases trees, 0
  {
    if trees == [] {
    } else {
      TreeHolds(t, trees[0], x);
      TreesHold(t, trees[1..], x);
      if exists i :: 0 <= i < |trees| && Live(t, x) && Above(t, x, trees[i].id) {
        var i :| 0 <= i < |trees| && Live(t, x) && Above(t, x, trees[i].id);
        if i > 0 {
          assert trees[1..][i - 1] == trees[i];
        }
      }
      assert forall i :: 0 <= i < |trees| - 1 ==> trees[1..][i] == trees[i + 1];
    }
  }

  lemma {:induction false} TreeOnce(t: Table, tree: Tree)
    requires Good(t) && IsTree(t, tree)
    ensures NoDuplicates(Flatten(tree))
    decreases tree, 1
  {
    forall i | 0 <= i < |tree.children|
      ensures ParentOf(t, tree.children[i].id) == Some(tree.id)
    {
      assert Ids(tree.children)[i] in Ids(tree.children);
      FiledIsParent(t, tree.children[i].id);
    }
    TreesOnce(t, Some(tree.id), tree.children);
    TreesHold(t, tree.children, tree.id);
    if tree.id in FlattenAll(tree.children) {
      var i :| 0 <= i < |tree.children| && Above(t, tree.id, tree.children[i].id);
      AboveRank(t, tree.id, tree.children[i].id);
      assert false;
    }
  }

  lemma {:induction false} TreesOnce(t: Table, parent: Option<int>, trees: seq<Tree>)
    requires Good(t) && Increasing(Ids(trees))
    requires forall i :: 0 <= i < |trees| ==> IsTree(t, trees[i]) && ParentOf(t, trees[i].id) == parent
    ensures NoDuplicates(FlattenAll(trees))
    decreases trees, 0
  {
    if trees == [] {
    } else {
      TreeOnce(t, trees[0]);
      assert forall i :: 0 <= i < |trees| - 1 ==> trees[1..][i] == trees[i + 1] && Ids(trees[1..])[i] == Ids(trees)[i + 1];
      TreesOnce(t, parent, trees[1..]);
      forall x | x in Flatten(trees[0]) ensures x !in FlattenAll(trees[1..]) {
        TreeHolds(t, trees[0], x);
        TreesHold(t, trees[1..], x);
        if x in FlattenAll(trees[1..]) {
          var i :| 0 <= i < |trees| - 1 && Above(t, x, trees[1..][i].id);
          assert Ids(trees)[0] < Ids(trees)[i + 1];
          SiblingsApart(t, x, trees[0].id, trees[i + 1].id);
          assert false;
        }
      }
      DisjointConcat(Flatten(trees[0]), FlattenAll(trees[1..]));
    }
  }

  lemma DisjointConcat(a: seq<int>, b: seq<int>)
    requires NoDuplicates(a) && NoDuplicates(b) && forall x :: x in a ==> x !in b
    ensures NoDuplicates(a + b)
  {
    forall i, j | 0 <= i < j < |a + b| ensures (a + b)[i] != (a + b)[j] {
      if i < |a| <= j {
        assert a[i] in a && b[j - |a|] in b;
      }
    }
  }

  lemma {:induction false} ReachesTop(t: Table, x: int) returns (root: int)
    requires Good(t) && Live(t, x)
    ensures Live(t, root) && Above(t, x, root) && ParentOf(t, root).None?
    decreases RankOf(t)[x]
  {
    if ParentOf(t, x).None? {
      root := x;
    } else {
      root := ReachesTop(t, ParentOf(t, x).value);
    }
  }

  /** On every reachable table the tree shows every live menu exactly once, and
      nothing else; its roots are the live menus without a parent. */
  lemma EveryLiveMenuOnce(t: Table, trees: seq<Tree>)
    requires Good(t) && IsForest(t, trees)
    ensures NoDuplicates(FlattenAll(trees))
    ensures forall x :: x in FlattenAll(trees) <==> Live(t, x)
    ensures forall x :: x in Ids(trees) <==> Live(t, x) && ParentOf(t, x).None?
  {
    forall i | 0 <= i < |trees| ensures ParentOf(t, trees[i].id).None? {
      assert Ids(trees)[i] in Ids(trees);
      FiledIsParent(t, trees[i].id);
    }
    TreesOnce(t, None, trees);
    forall x ensures x in FlattenAll(trees) <==> Live(t, x) {
      TreesHold(t, trees, x);
      if Live(t, x) {
        var root := ReachesTop(t, x);
        FiledIsParent(t, root);
        assert root in Ids(trees);
        var i :| 0 <= i < |trees| && Ids(trees)[i] == root;
        assert Above(t, x, trees[i].id);
      }
    }
    forall x ensures x in Ids(trees) <==> Live(t, x) && ParentOf(t, x).None? {
      if Live(t, x) { FiledIsParent(t, x); }
    }
  }
}
