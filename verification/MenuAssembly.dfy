/** `get_tree`: node objects linked in one pass over the ordered menu list. */
module MenuAssembly {
  import opened Common
  import opened MenuTable
  import opened MenuTree

  class TreeNode {
    const id: int
    const name: string
    var children: seq<TreeNode>

    constructor (id: int, name: string)
      ensures this.id == id && this.name == name && children == []
    {
      this.id, this.name, this.children := id, name, [];
    }
  }

  /** `ORDER BY menu_parent_id, menu_id`, nulls first. */
  predicate Before(t: Table, a: int, b: int)
    requires Live(t, a) && Live(t, b)
  {
    var p, q := t.rows[a].parent, t.rows[b].parent;
    if p == q then a < b
    else q.Some? && (p.None? || p.value < q.value)
  }

  /** The answer of `list_all`. */
  predicate IsListing(t: Table, menus: seq<int>) {
    && (forall i :: 0 <= i < |menus| ==> Live(t, menus[i]))
    && (forall id :: id in t.rows && Live(t, id) ==> id in menus)
    && (forall i, j :: 0 <= i < j < |menus| ==> Before(t, menus[i], menus[j]))
  }

  function FiledIn(t: Table, menus: seq<int>, parent: Option<int>): seq<int>
    requires forall i :: 0 <= i < |menus| ==> Live(t, menus[i])
  {
    if menus == [] then []
    else
      var init, last := menus[..|menus| - 1], menus[|menus| - 1];
      if Filed(t, last) == parent then FiledIn(t, init, parent) + [last] else FiledIn(t, init, parent)
  }

  lemma {:induction false} FiledInMeaning(t: Table, menus: seq<int>, parent: Option<int>)
    requires forall i :: 0 <= i < |menus| ==> Live(t, menus[i])
    ensures forall id :: id in FiledIn(t, menus, parent) <==> id in menus && Filed(t, id) == parent
  {
    if menus == [] {
    } else {
      var init, last := menus[..|menus| - 1], menus[|menus| - 1];
      assert menus == init + [last];
      FiledInMeaning(t, init, parent);
    }
  }

  lemma {:induction false} FiledInIncreases(t: Table, menus: seq<int>, parent: Option<int>)
    requires ParentsLive(t) && forall i :: 0 <= i < |menus| ==> Live(t, menus[i])
    requires forall i, j :: 0 <= i < j < |menus| ==> Before(t, menus[i], menus[j])
    ensures Increasing(FiledIn(t, menus, parent))
  {
    if menus == [] {
    } else {
      var init, last := menus[..|menus| - 1], menus[|menus| - 1];
      FiledInIncreases(t, init, parent);
      FiledInMeaning(t, init, parent);
      var kept := FiledIn(t, init, parent);
      if Filed(t, last) == parent {
        forall i | 0 <= i < |kept| ensures kept[i] < last {
          assert kept[i] in kept;
          var j :| 0 <= j < |init| && init[j] == kept[i];
          assert Before(t, menus[j], menus[|menus| - 1]);
          FiledIsParent(t, kept[i]);
          FiledIsParent(t, last);
        }
      }
    }
  }

  /** What one pass files under a menu is what the definition files there. */
  lemma ListingGivesChildren(t: Table, menus: seq<int>, parent: Option<int>)
    requires ParentsLive(t) && IsListing(t, menus)
    ensures IsChildren(t, parent, FiledIn(t, menus, parent))
  {
    FiledInIncreases(t, menus, parent);
    FiledInMeaning(t, menus, parent);
  }

  // ---------------------------------------------------------------- node objects

  ghost predicate Points(nodes: map<int, TreeNode>, refs: seq<TreeNode>, ids: seq<int>) {
    |refs| == |ids| && forall i :: 0 <= i < |refs| ==> ids[i] in nodes && refs[i] == nodes[ids[i]]
  }

  /** One node for each listed menu; `repr` holds the nodes. */
  ghost predicate Keyed(t: Table, menus: seq<int>, nodes: map<int, TreeNode>, repr: set<TreeNode>) {
    && (forall id :: id in nodes <==> id in menus)
    && (forall id :: id in nodes ==> Live(t, id) && nodes[id].id == id && nodes[id].name == t.rows[id].name)
    && (forall id :: id in nodes ==> nodes[id] in repr)
  }

  /** Every node has the menus of `seen` that are filed under it. */
  ghost predicate Linked(t: Table, seen: seq<int>, nodes: map<int, TreeNode>, repr: set<TreeNode>)
    requires forall i :: 0 <= i < |seen| ==> Live(t, seen[i])
    requires forall id :: id in nodes ==> nodes[id] in repr
    reads repr
  {
    forall id :: id in nodes ==> Points(nodes, nodes[id].children, FiledIn(t, seen, Some(id)))
  }

  /** The objects reachable from `n` spell out `tree`. */
  ghost predicate Represents(n: TreeNode, tree: Tree, repr: set<TreeNode>)
    reads repr
    decreases tree
  {
    && n in repr
    && n.id == tree.id
    && n.name == tree.name
    && |n.children| == |tree.children|
    && forall i :: 0 <= i < |tree.children| ==> Represents(n.children[i], tree.children[i], repr)
  }

  ghost predicate AllRepresent(roots: seq<TreeNode>, trees: seq<Tree>, repr: set<TreeNode>)
    reads repr
  {
    |roots| == |trees| && forall i :: 0 <= i < |roots| ==> Represents(roots[i], trees[i], repr)
  }

  lemma {:induction false} LinkedRepresents(t: Table, menus: seq<int>, nodes: map<int, TreeNode>,
                                            repr: set<TreeNode>, tree: Tree)
    requires ParentsLive(t) && IsListing(t, menus) && IsTree(t, tree)
    requires Keyed(t, menus, nodes, repr) && Linked(t, menus, nodes, repr)
    ensures tree.id in nodes && Represents(nodes[tree.id], tree, repr)
    decreases tree
  {
    assert tree.id in nodes;
    var n := nodes[tree.id];
    var kids := FiledIn(t, menus, Some(tree.id));
    ListingGivesChildren(t, menus, Some(tree.id));
    SameIncreasing(kids, Ids(tree.children));
    assert Points(nodes, n.children, kids);
    forall i | 0 <= i < |tree.children| ensures Represents(n.children[i], tree.children[i], repr) {
      assert kids[i] == tree.children[i].id && n.children[i] == nodes[kids[i]];
      LinkedRepresents(t, menus, nodes, repr, tree.children[i]);
    }
  }

  lemma RootsRepresent(t: Table, menus: seq<int>, nodes: map<int, TreeNode>, repr: set<TreeNode>,
                       roots: seq<TreeNode>, trees: seq<Tree>)
    requires ParentsLive(t) && IsListing(t, menus) && IsForest(t, trees)
    requires Keyed(t, menus, nodes, repr) && Linked(t, menus, nodes, repr)
    requires Points(nodes, roots, FiledIn(t, menus, None))
    ensures AllRepresent(roots, trees, repr)
  {
    ListingGivesChildren(t, menus, None);
    SameIncreasing(FiledIn(t, menus, None), Ids(trees));
    forall i | 0 <= i < |roots| ensures Represents(roots[i], trees[i], repr) {
      assert FiledIn(t, menus, None)[i] == Ids(trees)[i];
      LinkedRepresents(t, menus, nodes, repr, trees[i]);
    }
  }

  /** One more menu is filed in exactly one place. */
  lemma FiledInOne(t: Table, menus: seq<int>, i: nat, parent: Option<int>)
    requires i < |menus| && forall j :: 0 <= j < |menus| ==> Live(t, menus[j])
    ensures FiledIn(t, menus[..i + 1], parent) ==
            FiledIn(t, menus[..i], parent) + if Filed(t, menus[i]) == parent then [menus[i]] else []
  {
    assert menus[..i + 1][..i] == menus[..i];
  }

  method MakeNodes(t: Table, menus: seq<int>) returns (nodes: map<int, TreeNode>, ghost repr: set<TreeNode>)
    requires forall i :: 0 <= i < |menus| ==> Live(t, menus[i])
    ensures Keyed(t, menus, nodes, repr) && Linked(t, [], nodes, repr) && fresh(repr)
  {
    nodes, repr := map[], {};
    for i := 0 to |menus|
      invariant Keyed(t, menus[..i], nodes, repr) && Linked(t, [], nodes, repr) && fresh(repr)
    {
      var node := new TreeNode(menus[i], t.rows[menus[i]].name);
      nodes, repr := nodes[menus[i] := node], repr + {node};
      assert menus[..i + 1] == menus[..i] + [menus[i]];
    }
    assert menus[..|menus|] == menus;
  }

  /** Puts the node of `menus[i]` under its parent's node, or among the roots. */
  method LinkNode(t: Table, menus: seq<int>, i: nat, nodes: map<int, TreeNode>, roots: seq<TreeNode>,
                  ghost repr: set<TreeNode>)
    returns (roots': seq<TreeNode>)
    requires i < |menus| && forall j :: 0 <= j < |menus| ==> Live(t, menus[j])
    requires forall id :: id in t.rows && Live(t, id) ==> id in menus
    requires Keyed(t, menus, nodes, repr) && Linked(t, menus[..i], nodes, repr)
    requires Points(nodes, roots, FiledIn(t, menus[..i], None))
    modifies repr
    ensures Linked(t, menus[..i + 1], nodes, repr)
    ensures Points(nodes, roots', FiledIn(t, menus[..i + 1], None))
  {
    var id := menus[i];
    var node := nodes[id];
    var parent := t.rows[id].parent;
    FiledInOne(t, menus, i, None);
    if parent.Some? && parent.value in nodes {
      var above := nodes[parent.value];
      above.children := above.children + [node];
      roots' := roots;
    } else {
      roots' := roots + [node];
    }
    forall k | k in nodes ensures Points(nodes, nodes[k].children, FiledIn(t, menus[..i + 1], Some(k))) {
      FiledInOne(t, menus, i, Some(k));
      assert old(Points(nodes, nodes[k].children, FiledIn(t, menus[..i], Some(k))));
    }
  }

  /** The nodes of a level are the live menus with that parent, by increasing id. */
  predicate IsLevel(t: Table, parent: Option<int>, level: seq<TreeNode>) {
    && (forall i, j :: 0 <= i < j < |level| ==> level[i].id < level[j].id)
    && (forall n :: n in level ==> n.id in t.rows && !t.rows[n.id].deleted && t.rows[n.id].parent == parent)
    && (forall id :: id in t.rows && !t.rows[id].deleted && t.rows[id].parent == parent ==> exists n :: n in level && n.id == id)
  }

  ghost predicate Levels(t: Table, roots: seq<TreeNode>, nodes: map<int, TreeNode>, repr: set<TreeNode>)
    requires forall id :: id in nodes ==> nodes[id] in repr
    reads repr
  {
    IsLevel(t, None, roots) && forall id :: id in nodes ==> IsLevel(t, Some(id), nodes[id].children)
  }

  lemma PointsIsLevel(t: Table, menus: seq<int>, nodes: map<int, TreeNode>, repr: set<TreeNode>,
                      parent: Option<int>, level: seq<TreeNode>)
    requires ParentsLive(t) && IsListing(t, menus) && Keyed(t, menus, nodes, repr)
    requires Points(nodes, level, FiledIn(t, menus, parent))
    ensures IsLevel(t, parent, level)
  {
    var ids := FiledIn(t, menus, parent);
    ListingGivesChildren(t, menus, parent);
    forall n | n in level ensures n.id in t.rows && !t.rows[n.id].deleted && t.rows[n.id].parent == parent {
      var i :| 0 <= i < |level| && level[i] == n;
      assert ids[i] in ids;
      FiledIsParent(t, n.id);
    }
    forall id | id in t.rows && !t.rows[id].deleted && t.rows[id].parent == parent
      ensures exists n :: n in level && n.id == id
    {
      FiledIsParent(t, id);
      assert id in ids;
      var i :| 0 <= i < |ids| && ids[i] == id;
      assert level[i] in level;
    }
  }

  lemma LinkedIsLevels(t: Table, menus: seq<int>, nodes: map<int, TreeNode>, roots: seq<TreeNode>, repr: set<TreeNode>)
    requires ParentsLive(t) && IsListing(t, menus)
    requires Keyed(t, menus, nodes, repr) && Linked(t, menus, nodes, repr)
    requires Points(nodes, roots, FiledIn(t, menus, None))
    ensures Levels(t, roots, nodes, repr)
  {
    PointsIsLevel(t, menus, nodes, repr, None, roots);
    forall id | id in nodes ensures IsLevel(t, Some(id), nodes[id].children) {
      PointsIsLevel(t, menus, nodes, repr, Some(id), nodes[id].children);
    }
  }

  /** `get_tree` on the rows `list_all` returned. Whatever the table, each node ends up
      with the menus filed under it in listing order; on a table the service can reach
      the returned objects are the forest of the recursive definition. */
  method GetTree(t: Table, menus: seq<int>)
    returns (roots: seq<TreeNode>, ghost nodes: map<int, TreeNode>, ghost repr: set<TreeNode>)
    requires IsListing(t, menus)
    ensures Keyed(t, menus, nodes, repr) && Linked(t, menus, nodes, repr)
    ensures Points(nodes, roots, FiledIn(t, menus, None))
    ensures |roots| == |FiledIn(t, menus, None)|
    ensures forall i :: 0 <= i < |roots| ==> roots[i].id == FiledIn(t, menus, None)[i]
    ensures ParentsLive(t) ==> Levels(t, roots, nodes, repr)
    ensures ParentsLive(t) ==> forall trees :: IsForest(t, trees) ==> AllRepresent(roots, trees, repr)
  {
    var byId;
    byId, repr := MakeNodes(t, menus);
    roots := [];
    for i := 0 to |menus|
      invariant Linked(t, menus[..i], byId, repr)
      invariant Points(byId, roots, FiledIn(t, menus[..i], None))
    {
      roots := LinkNode(t, menus, i, byId, roots, repr);
    }
    nodes := byId;
    assert menus[..|menus|] == menus;
    if ParentsLive(t) {
      LinkedIsLevels(t, menus, nodes, roots, repr);
      forall trees | IsForest(t, trees) ensures AllRepresent(roots, trees, repr) {
        RootsRepresent(t, menus, nodes, repr, roots, trees);
      }
    }
  }
}
