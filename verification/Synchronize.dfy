/** Flattening nested migration operations with a worklist. */
module Synchronize {
  import opened Common

  /** A single operation, or a group that holds operations in order. */
  datatype Operation = Single(name: string) | Group(ops: seq<Operation>)

  /** The single operations of a list, depth first and left to right. */
  function Leaves(ops: seq<Operation>): seq<Operation>
    decreases ops, 0
  {
    if ops == [] then [] else LeavesOf(ops[0]) + Leaves(ops[1..])
  }

  function LeavesOf(op: Operation): seq<Operation>
    decreases op, 1
  {
    match op
    case Single(_) => [op]
    case Group(children) => Leaves(children)
  }

  /** All nodes of a list, groups included. */
  function Nodes(ops: seq<Operation>): nat
    decreases ops, 0
  {
    if ops == [] then 0 else NodesOf(ops[0]) + Nodes(ops[1..])
  }

  function NodesOf(op: Operation): (n: nat)
    ensures 1 <= n
    decreases op, 1
  {
    match op
    case Single(_) => 1
    case Group(children) => 1 + Nodes(children)
  }

  lemma {:induction false} LeavesConcat(a: seq<Operation>, b: seq<Operation>)
    ensures Leaves(a + b) == Leaves(a) + Leaves(b)
    decreases |a|
  {
    if a == [] {
      assert a + b == b;
    } else {
      LeavesConcat(a[1..], b);
      assert (a + b)[0] == a[0] && (a + b)[1..] == a[1..] + b;
    }
  }

  lemma {:induction false} NodesConcat(a: seq<Operation>, b: seq<Operation>)
    ensures Nodes(a + b) == Nodes(a) + Nodes(b)
    decreases |a|
  {
    if a == [] {
      assert a + b == b;
    } else {
      NodesConcat(a[1..], b);
      assert (a + b)[0] == a[0] && (a + b)[1..] == a[1..] + b;
    }
  }

  /** Pops the first pending operation; a group is replaced by its children, in place.
      Ends for every nesting and every empty group, with exactly the leaves in order. */
  method CollectOperations(upgrade: Option<seq<Operation>>) returns (operations: seq<Operation>)
    ensures operations == if upgrade.None? then [] else Leaves(upgrade.value)
  {
    if upgrade.None? {
      return [];
    }
    operations := [];
    var pending := upgrade.value;
    while pending != []
      invariant operations + Leaves(pending) == Leaves(upgrade.value)
      decreases Nodes(pending)
    {
      var operation := pending[0];
      assert Nodes(pending) == NodesOf(operation) + Nodes(pending[1..]);
      pending := pending[1..];
      match operation
      case Group(children) =>
        LeavesConcat(children, pending);
        NodesConcat(children, pending);
        pending := children + pending;
      case Single(_) =>
        operations := operations + [operation];
    }
  }

  /** `x` is a single operation somewhere inside `ops`. */
  predicate Contains(ops: seq<Operation>, x: Operation)
    decreases ops
  {
    exists i :: 0 <= i < |ops| &&
      match ops[i]
      case Single(_) => ops[i] == x
      case Group(children) => Contains(children, x)
  }

  /** Nothing but single operations is collected, none is lost and none invented. */
  lemma {:induction false} LeavesAreTheSingles(ops: seq<Operation>, x: Operation)
    ensures x in Leaves(ops) <==> Contains(ops, x)
    ensures x in Leaves(ops) ==> x.Single?
    decreases ops
  {
    if ops == [] {
    } else {
      LeavesAreTheSingles(ops[1..], x);
      if ops[0].Group? {
        LeavesAreTheSingles(ops[0].ops, x);
      }
      assert Leaves(ops) == LeavesOf(ops[0]) + Leaves(ops[1..]);
      assert forall i :: 0 <= i < |ops| - 1 ==> ops[1..][i] == ops[i + 1];
      if Contains(ops, x) {
        var i :| 0 <= i < |ops| &&
          match ops[i]
          case Single(_) => ops[i] == x
          case Group(children) => Contains(children, x);
        if i > 0 {
          assert ops[1..][i - 1] == ops[i];
        }
      }
    }
  }

  // ---------------------------------------------------------------- left to right

  /** The operation at the end of a path of positions. */
  function At(ops: seq<Operation>, path: seq<nat>): Option<Operation>
    decreases |path|
  {
    if path == [] || |ops| <= path[0] then None
    else if |path| == 1 then Some(ops[path[0]])
    else match ops[path[0]] {
      case Single(_) => None
      case Group(children) => At(children, path[1..])
    }
  }

  predicate SingleAt(ops: seq<Operation>, path: seq<nat>) {
    At(ops, path).Some? && At(ops, path).value.Single?
  }

  /** `p` branches off to the left of `q`. */
  predicate LeftOf(p: seq<nat>, q: seq<nat>)
    decreases |p|
  {
    p != [] && q != [] && (p[0] < q[0] || (p[0] == q[0] && LeftOf(p[1..], q[1..])))
  }

  /** The paths lead to the leaves one by one, from left to right, and miss none. */
  ghost predicate Traverses(ops: seq<Operation>, leaves: seq<Operation>, paths: seq<seq<nat>>) {
    && |paths| == |leaves|
    && (forall i :: 0 <= i < |paths| ==> SingleAt(ops, paths[i]) && At(ops, paths[i]).value == leaves[i])
    && (forall i, j :: 0 <= i < j < |paths| ==> LeftOf(paths[i], paths[j]))
    && (forall path :: SingleAt(ops, path) ==> path in paths)
  }

  function Under(k: nat, paths: seq<seq<nat>>): (r: seq<seq<nat>>)
    ensures |r| == |paths| && forall i :: 0 <= i < |paths| ==> r[i] == [k] + paths[i]
  {
    seq(|paths|, i requires 0 <= i < |paths| => [k] + paths[i])
  }

  function Shifted(paths: seq<seq<nat>>): (r: seq<seq<nat>>)
    requires forall i :: 0 <= i < |paths| ==> paths[i] != []
    ensures |r| == |paths| && forall i :: 0 <= i < |paths| ==> r[i] == [paths[i][0] + 1] + paths[i][1..]
  {
    seq(|paths|, i requires 0 <= i < |paths| => [paths[i][0] + 1] + paths[i][1..])
  }

  lemma InFirst(ops: seq<Operation>, path: seq<nat>)
    requires ops != [] && path != [] && path[0] == 0
    ensures ops[0].Single? ==> (SingleAt(ops, path) <==> path == [0])
    ensures ops[0].Group? ==> At(ops, path) == if path == [0] then Some(ops[0]) else At(ops[0].ops, path[1..])
  {
    if |path| == 1 {
      assert path == [0];
    }
  }

  lemma InRest(ops: seq<Operation>, path: seq<nat>)
    requires ops != [] && path != []
    ensures At(ops, [path[0] + 1] + path[1..]) == At(ops[1..], path)
  {
    var longer := [path[0] + 1] + path[1..];
    assert longer[1..] == path[1..] && |longer| == |path|;
    if path[0] < |ops[1..]| {
      assert ops[longer[0]] == ops[1..][path[0]];
    }
  }

  lemma {:induction false} LeavesLeftToRight(ops: seq<Operation>) returns (paths: seq<seq<nat>>)
    ensures Traverses(ops, Leaves(ops), paths)
    decreases ops
  {
    if ops == [] {
      paths := [];
    } else {
      var first := FirstPaths(ops);
      var rest := LeavesLeftToRight(ops[1..]);
      assert forall i :: 0 <= i < |rest| ==> SingleAt(ops[1..], rest[i]);
      paths := first + Shifted(rest);
      JoinTraverses(ops, first, rest);
    }
  }

  /** The paths into the first operation. */
  ghost predicate TraversesFirst(ops: seq<Operation>, paths: seq<seq<nat>>)
    requires ops != []
  {
    && |paths| == |LeavesOf(ops[0])|
    && (forall i :: 0 <= i < |paths| ==>
          paths[i] != [] && paths[i][0] == 0 && SingleAt(ops, paths[i]) && At(ops, paths[i]).value == LeavesOf(ops[0])[i])
    && (forall i, j :: 0 <= i < j < |paths| ==> LeftOf(paths[i], paths[j]))
    && (forall path :: path != [] && path[0] == 0 && SingleAt(ops, path) ==> path in paths)
  }

  lemma {:induction false} FirstPaths(ops: seq<Operation>) returns (paths: seq<seq<nat>>)
    requires ops != []
    ensures TraversesFirst(ops, paths)
    decreases ops, 0
  {
    match ops[0]
    case Single(_) =>
      paths := [[0]];
      forall path | path != [] && path[0] == 0 && SingleAt(ops, path) ensures path in paths {
        InFirst(ops, path);
      }
    case Group(children) =>
      var inner := LeavesLeftToRight(children);
      paths := Under(0, inner);
      forall i | 0 <= i < |inner| ensures SingleAt(ops, paths[i]) && At(ops, paths[i]).value == LeavesOf(ops[0])[i] {
        assert paths[i][1..] == inner[i] && inner[i] != [];
        InFirst(ops, paths[i]);
      }
      forall path | path != [] && path[0] == 0 && SingleAt(ops, path) ensures path in paths {
        InFirst(ops, path);
        assert path == [0] + path[1..];
        assert path[1..] in inner;
        var i :| 0 <= i < |inner| && inner[i] == path[1..];
        assert paths[i] == path;
      }
      forall i, j | 0 <= i < j < |paths| ensures LeftOf(paths[i], paths[j]) {
        assert paths[i][1..] == inner[i] && paths[j][1..] == inner[j];
      }
  }

  /** Every path into the rest of the list, moved one position to the right. */
  lemma RestTraverses(ops: seq<Operation>, rest: seq<seq<nat>>)
    requires ops != [] && Traverses(ops[1..], Leaves(ops[1..]), rest)
    ensures forall i :: 0 <= i < |rest| ==> rest[i] != []
    ensures forall i :: 0 <= i < |rest| ==>
              SingleAt(ops, Shifted(rest)[i]) && At(ops, Shifted(rest)[i]).value == Leaves(ops[1..])[i]
    ensures forall i, j :: 0 <= i < j < |rest| ==> LeftOf(Shifted(rest)[i], Shifted(rest)[j])
  {
    var late := Shifted(rest);
    forall i | 0 <= i < |rest| ensures At(ops, late[i]) == At(ops[1..], rest[i]) {
      InRest(ops, rest[i]);
    }
    forall i, j | 0 <= i < j < |rest| ensures LeftOf(late[i], late[j]) {
      assert LeftOf(rest[i], rest[j]);
      assert late[i][1..] == rest[i][1..] && late[j][1..] == rest[j][1..];
    }
  }

  lemma RestComplete(ops: seq<Operation>, rest: seq<seq<nat>>, path: seq<nat>)
    requires ops != [] && Traverses(ops[1..], Leaves(ops[1..]), rest)
    requires forall i :: 0 <= i < |rest| ==> rest[i] != []
    requires SingleAt(ops, path) && path[0] > 0
    ensures path in Shifted(rest)
  {
    var back := [path[0] - 1] + path[1..];
    assert [back[0] + 1] + back[1..] == path;
    InRest(ops, back);
    assert SingleAt(ops[1..], back);
    var i :| 0 <= i < |rest| && rest[i] == back;
    assert Shifted(rest)[i] == path;
  }

  lemma JoinTraverses(ops: seq<Operation>, first: seq<seq<nat>>, rest: seq<seq<nat>>)
    requires ops != [] && TraversesFirst(ops, first) && Traverses(ops[1..], Leaves(ops[1..]), rest)
    requires forall i :: 0 <= i < |rest| ==> rest[i] != []
    ensures Traverses(ops, Leaves(ops), first + Shifted(rest))
  {
    RestTraverses(ops, rest);
    var paths, leaves := first + Shifted(rest), LeavesOf(ops[0]) + Leaves(ops[1..]);
    assert Leaves(ops) == leaves;
    forall i | 0 <= i < |paths| ensures SingleAt(ops, paths[i]) && At(ops, paths[i]).value == leaves[i] {
      if |first| <= i {
        assert paths[i] == Shifted(rest)[i - |first|];
      }
    }
    forall i, j | 0 <= i < j < |paths| ensures LeftOf(paths[i], paths[j]) {
      if |first| <= i {
        assert LeftOf(Shifted(rest)[i - |first|], Shifted(rest)[j - |first|]);
      }
    }
    forall path | SingleAt(ops, path) ensures path in paths {
      if path[0] > 0 {
        RestComplete(ops, rest, path);
      }
    }
  }
}
