/** The specification of the store's mutations (insertion with level computation, subtree deletion,
    cluster assignment), the consistency the store keeps, and the nested tree projection. */
module TreeStore {
  import opened Wrappers
  import opened JsArray
  import opened DataHelper

  // ---------------------------------------------------------------------------------------------
  // Store consistency
  // ---------------------------------------------------------------------------------------------

  predicate UniqueIds(nodes: seq<Node>)
  {
    forall i, j :: 0 <= i < j < |nodes| ==> nodes[i].id != nodes[j].id
  }

  /** Levels are as insertion computed them: 0 without a parent, one more than a present parent's,
      and the factory's placeholder 1 under a parent that is not in the store. */
  predicate LevelsAgree(nodes: seq<Node>)
  {
    && (forall n :: n in nodes && n.parentId.None? ==> n.level == 0)
    && (forall n, m :: n in nodes && m in nodes && n.parentId == Some(m.id) ==> n.level == m.level + 1)
    && (forall n :: n in nodes && n.parentId.Some? && n.parentId.value !in Ids(nodes) ==> n.level == 1)
  }

  /** Every `children` list names exactly the nodes linked under it, in store order. */
  predicate ChildrenAgree(nodes: seq<Node>)
  {
    forall n :: n in nodes ==> n.children == ChildIds(nodes, n.id)
  }

  /** What every operation of the store keeps. Levels strictly increase along parent links, so the
      links are acyclic and the recursive descent of the deletion terminates. */
  predicate Valid(nodes: seq<Node>)
  {
    UniqueIds(nodes) && LevelsAgree(nodes) && ChildrenAgree(nodes)
  }

  /** Two stores with the same ids and parent links at every position. */
  predicate SameLinks(a: seq<Node>, b: seq<Node>)
  {
    |a| == |b| && forall k :: 0 <= k < |a| ==> a[k].id == b[k].id && a[k].parentId == b[k].parentId
  }

  lemma {:induction false} ChildIdsAppend(a: seq<Node>, b: seq<Node>, id: Id)
    ensures ChildIds(a + b, id) == ChildIds(a, id) + ChildIds(b, id)
  {
    if a != [] {
      assert (a + b)[1..] == a[1..] + b;
      ChildIdsAppend(a[1..], b, id);
    } else {
      assert a + b == b;
    }
  }

  /** An id no node names as its parent has no children. */
  lemma {:induction false} NoChildIds(nodes: seq<Node>, id: Id)
    requires id !in ParentIds(nodes)
    ensures ChildIds(nodes, id) == []
  {
    if nodes != [] {
      assert nodes[0] in nodes;
      assert ParentIds(nodes[1..]) <= ParentIds(nodes) by {
        forall x | x in ParentIds(nodes[1..]) ensures x in ParentIds(nodes) {
          var n :| n in nodes[1..] && n.parentId.Some? && n.parentId.value == x;
          assert n in nodes;
        }
      }
      NoChildIds(nodes[1..], id);
    }
  }

  lemma {:induction false} ChildIdsSameLinks(a: seq<Node>, b: seq<Node>, id: Id)
    requires SameLinks(a, b)
    ensures ChildIds(a, id) == ChildIds(b, id)
  {
    if a != [] {
      ChildIdsSameLinks(a[1..], b[1..], id);
    }
  }

  // ---------------------------------------------------------------------------------------------
  // Insertion (addNodeToSession)
  // ---------------------------------------------------------------------------------------------

  /** What the identifier generator guarantees of a new node: its id is not a node's id, no node names it
      as a parent, and it is not its own parent. */
  predicate FreshFor(nodes: seq<Node>, node: Node)
  {
    node.id !in Ids(nodes) && node.id !in ParentIds(nodes) && node.parentId != Some(node.id)
  }

  /** The store after `addNodeToSession`: the node is appended with its level computed from a live lookup
      of its parent, and its id is appended to that parent's `children`. */
  function InsertNode(nodes: seq<Node>, node: Node): (r: seq<Node>)
    ensures |r| == |nodes| + 1 && r[|nodes|] == node.(level := r[|nodes|].level)
    ensures node.parentId.None? ==> r == nodes + [node.(level := 0)]
    ensures node.parentId.Some? && node.parentId.value !in Ids(nodes) ==> r == nodes + [node]
    ensures node.parentId.Some? && node.parentId.value in Ids(nodes) ==>
      exists j :: 0 <= j < |nodes| && nodes[j].id == node.parentId.value
        && (forall k :: 0 <= k < j ==> nodes[k].id != node.parentId.value)
        && r[|nodes|].level == nodes[j].level + 1
        && r[j] == nodes[j].(children := nodes[j].children + [node.id])
        && forall k :: 0 <= k < |nodes| && k != j ==> r[k] == nodes[k]
  {
    match node.parentId
    case None => nodes + [node.(level := 0)]
    case Some(p) =>
      match IndexOfId(nodes, p)
      case None => nodes + [node]
      case Some(j) =>
        nodes[j := nodes[j].(children := nodes[j].children + [node.id])] + [node.(level := nodes[j].level + 1)]
  }

  /** Insertion never reorders, drops or relinks the nodes already in the store. */
  lemma InsertKeepsLinks(nodes: seq<Node>, node: Node)
    ensures SameLinks(nodes, InsertNode(nodes, node)[..|nodes|])
    ensures forall k :: 0 <= k < |nodes| ==> InsertNode(nodes, node)[k].level == nodes[k].level
  {
  }

  lemma InsertKeepsUnique(nodes: seq<Node>, node: Node)
    requires UniqueIds(nodes) && node.id !in Ids(nodes)
    ensures UniqueIds(InsertNode(nodes, node))
  {
    var r := InsertNode(nodes, node);
    InsertKeepsLinks(nodes, node);
    forall i, j | 0 <= i < j < |r| ensures r[i].id != r[j].id {
      if j == |nodes| {
        assert nodes[i] in nodes;
      } else {
        assert r[i].id == nodes[i].id && r[j].id == nodes[j].id;
      }
    }
  }

  lemma InsertIds(nodes: seq<Node>, node: Node)
    ensures Ids(InsertNode(nodes, node)) == Ids(nodes) + {node.id}
  {
    var r := InsertNode(nodes, node);
    InsertKeepsLinks(nodes, node);
    forall x | x in Ids(nodes) ensures x in Ids(r) {
      var k :| 0 <= k < |nodes| && nodes[k].id == x;
      assert r[k] in r;
    }
    forall x | x in Ids(r) ensures x in Ids(nodes) + {node.id} {
      var k :| 0 <= k < |r| && r[k].id == x;
      if k < |nodes| { assert nodes[k] in nodes; }
    }
  }

  /** A node of the store after insertion is an old node (up to its `children`) or the inserted one. */
  lemma InsertedMember(nodes: seq<Node>, node: Node, n: Node) returns (k: nat)
    requires n in InsertNode(nodes, node)
    ensures k <= |nodes|
    ensures k < |nodes| ==> n == nodes[k].(children := n.children)
    ensures k == |nodes| ==> n == InsertNode(nodes, node)[|nodes|]
  {
    var r := InsertNode(nodes, node);
    InsertKeepsLinks(nodes, node);
    k :| 0 <= k < |r| && r[k] == n;
  }

  lemma InsertKeepsLevels(nodes: seq<Node>, node: Node)
    requires UniqueIds(nodes) && LevelsAgree(nodes) && FreshFor(nodes, node) && IsNewNode(node)
    ensures LevelsAgree(InsertNode(nodes, node))
  {
    var r := InsertNode(nodes, node);
    InsertIds(nodes, node);
    forall n | n in r && n.parentId.None? ensures n.level == 0 {
      var k := InsertedMember(nodes, node, n);
      if k < |nodes| { assert nodes[k] in nodes; }
    }
    forall n, m | n in r && m in r && n.parentId == Some(m.id) ensures n.level == m.level + 1 {
      InsertLinkedLevel(nodes, node, n, m);
    }
    forall n | n in r && n.parentId.Some? && n.parentId.value !in Ids(r) ensures n.level == 1 {
      var k := InsertedMember(nodes, node, n);
      if k < |nodes| { assert nodes[k] in nodes; }
    }
  }

  lemma InsertLinkedLevel(nodes: seq<Node>, node: Node, n: Node, m: Node)
    requires UniqueIds(nodes) && LevelsAgree(nodes) && FreshFor(nodes, node) && IsNewNode(node)
    requires n in InsertNode(nodes, node) && m in InsertNode(nodes, node) && n.parentId == Some(m.id)
    ensures n.level == m.level + 1
  {
    var r := InsertNode(nodes, node);
    var a := InsertedMember(nodes, node, n);
    var b := InsertedMember(nodes, node, m);
    if a < |nodes| && b < |nodes| {
      assert nodes[a] in nodes && nodes[b] in nodes;
    } else if a < |nodes| {
      assert false;
    } else if b < |nodes| {
      assert nodes[b] in nodes;
      var j :| 0 <= j < |nodes| && nodes[j].id == node.parentId.value
        && r[|nodes|].level == nodes[j].level + 1;
      assert b == j;
    }
  }

  lemma InsertKeepsChildren(nodes: seq<Node>, node: Node)
    requires UniqueIds(nodes) && ChildrenAgree(nodes) && FreshFor(nodes, node) && IsNewNode(node)
    ensures ChildrenAgree(InsertNode(nodes, node))
  {
    var r := InsertNode(nodes, node);
    var last := |nodes|;
    InsertKeepsLinks(nodes, node);
    assert r == r[..last] + [r[last]];
    forall n | n in r ensures n.children == ChildIds(r, n.id) {
      ChildIdsAppend(r[..last], [r[last]], n.id);
      ChildIdsSameLinks(nodes, r[..last], n.id);
      assert ChildIds([r[last]], n.id) == (if node.parentId == Some(n.id) then [node.id] else []);
      var k :| 0 <= k < |r| && r[k] == n;
      if k == last {
        NoChildIds(nodes, node.id);
      } else {
        assert nodes[k] in nodes;
        if node.parentId == Some(n.id) {
          var j :| 0 <= j < |nodes| && nodes[j].id == node.parentId.value
            && r[j] == nodes[j].(children := nodes[j].children + [node.id]);
          assert k == j;
        }
      }
    }
  }

  lemma InsertKeepsValid(nodes: seq<Node>, node: Node)
    requires Valid(nodes) && FreshFor(nodes, node) && IsNewNode(node)
    ensures Valid(InsertNode(nodes, node))
  {
    InsertKeepsUnique(nodes, node);
    InsertKeepsLevels(nodes, node);
    InsertKeepsChildren(nodes, node);
  }

  // ---------------------------------------------------------------------------------------------
  // The deleted set: a node together with everything that descends from it through `parent_id`
  // ---------------------------------------------------------------------------------------------

  /** The ids of the nodes whose parent is in `S`. */
  function ChildIdsOf(nodes: seq<Node>, S: set<Id>): set<Id>
  {
    set n | n in nodes && n.parentId.Some? && n.parentId.value in S :: n.id
  }

  /** `S` holds every node whose parent it holds. */
  predicate Closed(nodes: seq<Node>, S: set<Id>)
  {
    forall n :: n in nodes && n.parentId.Some? && n.parentId.value in S ==> n.id in S
  }

  lemma ProperSubsetCard(a: set<Id>, b: set<Id>)
    requires a < b
    ensures |a| < |b|
  {
    assert !(b <= a);
    var x :| x in b && x !in a;
    assert a <= b - {x};
    SubsetCard(a, b - {x});
  }

  lemma {:induction false} SubsetCard(a: set<Id>, b: set<Id>)
    requires a <= b
    ensures |a| <= |b|
    decreases |b|
  {
    if a != {} {
      var x :| x in a;
      SubsetCard(a - {x}, b - {x});
    }
  }

  /** Repeatedly add the children of what has been collected until nothing new appears. */
  function Grow(nodes: seq<Node>, S: set<Id>): (r: set<Id>)
    ensures S <= r && r <= S + Ids(nodes)
    ensures Closed(nodes, r)
    decreases |Ids(nodes) - S|
  {
    var next := S + ChildIdsOf(nodes, S);
    if next == S then S
    else
      ProperSubsetCard(Ids(nodes) - next, Ids(nodes) - S);
      Grow(nodes, next)
  }

  /** The set `deleteNode` collects: `x` and all its transitive descendants. */
  function Subtree(nodes: seq<Node>, x: Id): (r: set<Id>)
    ensures x in r && Closed(nodes, r)
    ensures r <= {x} + Ids(nodes)
  {
    Grow(nodes, {x})
  }

  lemma {:induction false} GrowLeast(nodes: seq<Node>, S: set<Id>, T: set<Id>)
    requires S <= T && Closed(nodes, T)
    ensures Grow(nodes, S) <= T
    decreases |Ids(nodes) - S|
  {
    var next := S + ChildIdsOf(nodes, S);
    if next != S {
      ProperSubsetCard(Ids(nodes) - next, Ids(nodes) - S);
      GrowLeast(nodes, next, T);
    }
  }

  /** The collected set is the least one that holds `x` and every child of what it holds: every
      closed set holding `x` holds it too. */
  lemma SubtreeLeast(nodes: seq<Node>, x: Id, T: set<Id>)
    requires x in T && Closed(nodes, T)
    ensures Subtree(nodes, x) <= T
  {
    GrowLeast(nodes, {x}, T);
  }

  lemma {:induction false} GrowBackward(nodes: seq<Node>, S: set<Id>, y: Id)
    requires y in Grow(nodes, S)
    ensures y in S || exists n :: n in nodes && n.id == y && n.parentId.Some? && n.parentId.value in Grow(nodes, S)
    decreases |Ids(nodes) - S|
  {
    var next := S + ChildIdsOf(nodes, S);
    if next != S {
      ProperSubsetCard(Ids(nodes) - next, Ids(nodes) - S);
      GrowBackward(nodes, next, y);
      if y !in S && y in ChildIdsOf(nodes, S) {
        var n :| n in nodes && n.parentId.Some? && n.parentId.value in S && n.id == y;
        assert n.parentId.value in Grow(nodes, S);
      }
    }
  }

  /** Everything collected besides `x` is the child of something collected. */
  lemma SubtreeBackward(nodes: seq<Node>, x: Id, y: Id)
    requires y in Subtree(nodes, x) && y != x
    ensures exists n :: n in nodes && n.id == y && n.parentId.Some? && n.parentId.value in Subtree(nodes, x)
  {
    GrowBackward(nodes, {x}, y);
  }

  // ---------------------------------------------------------------------------------------------
  // Deletion (deleteNode)
  // ---------------------------------------------------------------------------------------------

  /** `children.filter(cid => cid !== x)`. */
  function RemoveId(ids: seq<Id>, x: Id): (r: seq<Id>)
    ensures forall c :: c in r <==> c in ids && c != x
  {
    Filter(ids, (c: Id) => c != x)
  }

  /** Position of the parent that `deleteNode` unlinks `x` from: the first node with the parent id of
      the first node with id `x`. */
  function ParentIndex(nodes: seq<Node>, x: Id): (r: Option<nat>)
    ensures r.Some? ==> r.value < |nodes|
    ensures r.Some? ==> exists i :: 0 <= i < |nodes| && nodes[i].id == x && nodes[i].parentId == Some(nodes[r.value].id)
  {
    match IndexOfId(nodes, x)
    case None => None
    case Some(i) =>
      match nodes[i].parentId
      case None => None
      case Some(p) => IndexOfId(nodes, p)
  }

  /** The store with `x` removed from its parent's `children`. */
  function Unlink(nodes: seq<Node>, x: Id): (r: seq<Node>)
    ensures SameLinks(nodes, r)
    ensures forall k :: 0 <= k < |nodes| && ParentIndex(nodes, x) != Some(k) ==> r[k] == nodes[k]
    ensures forall k :: 0 <= k < |nodes| && ParentIndex(nodes, x) == Some(k) ==>
      r[k] == nodes[k].(children := RemoveId(nodes[k].children, x))
  {
    match ParentIndex(nodes, x)
    case None => nodes
    case Some(j) => nodes[j := nodes[j].(children := RemoveId(nodes[j].children, x))]
  }

  /** The test `deleteNode`'s filter applies: the node's id was not collected. */
  function OutsideOf(D: set<Id>): Node -> bool
  {
    (n: Node) => n.id !in D
  }

  function KeepOutside(nodes: seq<Node>, D: set<Id>): (r: seq<Node>)
    ensures forall n :: n in r <==> n in nodes && n.id !in D
  {
    Filter(nodes, OutsideOf(D))
  }

  /** The store after `deleteNode(x)`: unchanged when empty; otherwise `x` is unlinked from its parent
      and every node of `Subtree(nodes, x)` is filtered out, the rest keeping their order. */
  function DeleteSubtree(nodes: seq<Node>, x: Id): (r: seq<Node>)
    ensures |r| <= |nodes|
    ensures forall n :: n in r ==> n.id !in Subtree(nodes, x)
  {
    if nodes == [] then nodes else KeepOutside(Unlink(nodes, x), Subtree(nodes, x))
  }

  /** `root_node_id` after `deleteNode(x)`. */
  function RootAfterDelete(nodes: seq<Node>, root: Option<Id>, x: Id): (r: Option<Id>)
    ensures r.None? <==> root.None? || (nodes != [] && root.value in Subtree(nodes, x))
    ensures r.Some? ==> r == root
  {
    if nodes != [] && root.Some? && root.value in Subtree(nodes, x) then None else root
  }

  lemma SameLinksIds(a: seq<Node>, b: seq<Node>)
    requires SameLinks(a, b)
    ensures Ids(a) == Ids(b)
  {
    forall y | y in Ids(a) ensures y in Ids(b) {
      var k :| 0 <= k < |a| && a[k].id == y;
      assert b[k] in b;
    }
    forall y | y in Ids(b) ensures y in Ids(a) {
      var k :| 0 <= k < |b| && b[k].id == y;
      assert a[k] in a;
    }
  }

  /** Deletion removes exactly the collected subtree: the surviving ids are the old ids outside it, and
      every surviving node is an old node, at most with `x` taken out of its `children`. */
  lemma DeleteRemovesExactlySubtree(nodes: seq<Node>, x: Id)
    requires nodes != []
    ensures Ids(DeleteSubtree(nodes, x)) == Ids(nodes) - Subtree(nodes, x)
    ensures forall n :: n in DeleteSubtree(nodes, x) <==> n in Unlink(nodes, x) && n.id !in Subtree(nodes, x)
  {
    var u := Unlink(nodes, x);
    SameLinksIds(nodes, u);
  }

  /** Deletion keeps the survivors in their original relative order: two nodes outside the subtree
      appear in the new store, unlinked from the target, in the order they had. */
  lemma DeleteKeepsOrder(nodes: seq<Node>, x: Id, i: nat, j: nat)
    requires i < j < |nodes| && nodes[i].id !in Subtree(nodes, x) && nodes[j].id !in Subtree(nodes, x)
    ensures exists a, b :: (0 <= a < b < |DeleteSubtree(nodes, x)|
      && DeleteSubtree(nodes, x)[a] == Unlink(nodes, x)[i] && DeleteSubtree(nodes, x)[b] == Unlink(nodes, x)[j]
      && DeleteSubtree(nodes, x)[a].id == nodes[i].id && DeleteSubtree(nodes, x)[b].id == nodes[j].id)
  {
    var u := Unlink(nodes, x);
    var test := OutsideOf(Subtree(nodes, x));
    assert u[i].id == nodes[i].id && u[j].id == nodes[j].id;
    assert DeleteSubtree(nodes, x) == Filter(u, test);
    FilterKeepsOrder(u, test, i, j);
  }

  /** Deletion leaves no orphan: no surviving node names a deleted node as its parent. */
  lemma DeleteLeavesNoOrphan(nodes: seq<Node>, x: Id)
    ensures forall n :: n in DeleteSubtree(nodes, x) && n.parentId.Some? ==> n.parentId.value !in Subtree(nodes, x)
  {
    if nodes != [] {
      var u := Unlink(nodes, x);
      forall n | n in DeleteSubtree(nodes, x) && n.parentId.Some?
        ensures n.parentId.value !in Subtree(nodes, x)
      {
        var k :| 0 <= k < |u| && u[k] == n;
        assert nodes[k] in nodes;
      }
    }
  }

  lemma UniqueMember(nodes: seq<Node>, a: Node, b: Node)
    requires UniqueIds(nodes) && a in nodes && b in nodes && a.id == b.id
    ensures a == b
  {
    var i :| 0 <= i < |nodes| && nodes[i] == a;
    var j :| 0 <= j < |nodes| && nodes[j] == b;
    assert !(i < j) && !(j < i);
  }

  /** Below a node the subtree holds only deeper nodes. */
  lemma SubtreeDeeper(nodes: seq<Node>, xn: Node)
    requires LevelsAgree(nodes) && xn in nodes
    ensures Subtree(nodes, xn.id) <= {xn.id} + set m | m in nodes && m.level > xn.level :: m.id
  {
    var T := {xn.id} + set m | m in nodes && m.level > xn.level :: m.id;
    forall n | n in nodes && n.parentId.Some? && n.parentId.value in T ensures n.id in T {
      if n.parentId.value == xn.id {
        assert n.level == xn.level + 1;
      } else {
        var m :| m in nodes && m.level > xn.level && m.id == n.parentId.value;
        assert n.level == m.level + 1;
      }
    }
    SubtreeLeast(nodes, xn.id, T);
  }

  /** In a consistent store the parent `x` is unlinked from never belongs to the subtree of `x`: levels
      grow strictly down the subtree, and the parent sits one level above `x`. */
  lemma ParentSurvives(nodes: seq<Node>, x: Id)
    requires LevelsAgree(nodes) && ParentIndex(nodes, x).Some?
    ensures nodes[ParentIndex(nodes, x).value].id !in Subtree(nodes, x)
  {
    var j := ParentIndex(nodes, x).value;
    var i :| 0 <= i < |nodes| && nodes[i].id == x && nodes[i].parentId == Some(nodes[j].id);
    var xn, pn := nodes[i], nodes[j];
    assert xn in nodes && pn in nodes;
    SubtreeDeeper(nodes, xn);
    assert xn.level == pn.level + 1;
  }

  lemma UniqueCons(a: Node, t: seq<Node>)
    requires a.id !in Ids(t) && UniqueIds(t)
    ensures UniqueIds([a] + t)
  {
    var s := [a] + t;
    forall i, j | 0 <= i < j < |s| ensures s[i].id != s[j].id {
      assert s[j] == t[j - 1] && t[j - 1] in t;
      if i > 0 { assert s[i] == t[i - 1]; }
    }
  }

  lemma {:induction false} KeepOutsideUnique(nodes: seq<Node>, D: set<Id>)
    requires UniqueIds(nodes)
    ensures UniqueIds(KeepOutside(nodes, D))
  {
    if nodes != [] {
      assert UniqueIds(nodes[1..]) by {
        forall i, j | 0 <= i < j < |nodes| - 1 ensures nodes[1..][i].id != nodes[1..][j].id {
          assert nodes[1..][i] == nodes[i + 1] && nodes[1..][j] == nodes[j + 1];
        }
      }
      KeepOutsideUnique(nodes[1..], D);
      var rest := KeepOutside(nodes[1..], D);
      if nodes[0].id !in D {
        assert KeepOutside(nodes, D) == [nodes[0]] + rest;
        assert Ids(rest) <= Ids(nodes[1..]) by {
          forall y | y in Ids(rest) ensures y in Ids(nodes[1..]) {
            var n :| n in rest && n.id == y;
          }
        }
        UniqueCons(nodes[0], rest);
      } else {
        assert KeepOutside(nodes, D) == rest;
      }
    }
  }

  /** `ids.filter(c => !D.has(c))`. */
  function RemoveAll(ids: seq<Id>, D: set<Id>): (r: seq<Id>)
    ensures forall c :: c in r <==> c in ids && c !in D
  {
    Filter(ids, (c: Id) => c !in D)
  }

  lemma {:induction false} ChildIdsKeepOutside(nodes: seq<Node>, D: set<Id>, id: Id)
    ensures ChildIds(KeepOutside(nodes, D), id) == RemoveAll(ChildIds(nodes, id), D)
  {
    if nodes != [] {
      ChildIdsKeepOutside(nodes[1..], D, id);
      var rest := KeepOutside(nodes[1..], D);
      var a := nodes[0];
      var tail := ChildIds(nodes[1..], id);
      if a.id !in D {
        assert KeepOutside(nodes, D) == [a] + rest;
        assert ([a] + rest)[1..] == rest;
      } else {
        assert KeepOutside(nodes, D) == rest;
      }
      if a.parentId == Some(id) {
        assert ChildIds(nodes, id) == [a.id] + tail;
        assert ([a.id] + tail)[1..] == tail;
      } else {
        assert ChildIds(nodes, id) == tail;
      }
    }
  }

  /** Removing `x` and removing all of `D` agree on a list whose members are in `D` exactly when they are `x`. */
  lemma {:induction false} RemoveIdAsRemoveAll(ids: seq<Id>, x: Id, D: set<Id>)
    requires forall c :: c in ids ==> (c == x <==> c in D)
    ensures RemoveId(ids, x) == RemoveAll(ids, D)
  {
    if ids != [] {
      RemoveIdAsRemoveAll(ids[1..], x, D);
    }
  }

  lemma {:induction false} RemoveAllDisjoint(ids: seq<Id>, D: set<Id>)
    requires forall c :: c in ids ==> c !in D
    ensures RemoveAll(ids, D) == ids
  {
    if ids != [] {
      RemoveAllDisjoint(ids[1..], D);
      assert ids == [ids[0]] + ids[1..];
    }
  }

  /** A surviving node is an old node, at most with `x` taken out of its `children`. */
  lemma SurvivorOrigin(nodes: seq<Node>, x: Id, n: Node) returns (k: nat)
    requires nodes != [] && n in DeleteSubtree(nodes, x)
    ensures k < |nodes| && n.id !in Subtree(nodes, x)
    ensures n == Unlink(nodes, x)[k]
    ensures n == nodes[k].(children := n.children)
  {
    var u := Unlink(nodes, x);
    k :| 0 <= k < |u| && u[k] == n;
  }

  lemma DeleteKeepsLevels(nodes: seq<Node>, x: Id)
    requires nodes != [] && Valid(nodes)
    ensures LevelsAgree(DeleteSubtree(nodes, x))
  {
    var r := DeleteSubtree(nodes, x);
    var D := Subtree(nodes, x);
    DeleteRemovesExactlySubtree(nodes, x);
    forall n | n in r && n.parentId.None? ensures n.level == 0 {
      var k := SurvivorOrigin(nodes, x, n);
      assert nodes[k] in nodes;
    }
    forall n, m | n in r && m in r && n.parentId == Some(m.id) ensures n.level == m.level + 1 {
      var a := SurvivorOrigin(nodes, x, n);
      var b := SurvivorOrigin(nodes, x, m);
      assert nodes[a] in nodes && nodes[b] in nodes;
    }
    forall n | n in r && n.parentId.Some? && n.parentId.value !in Ids(r) ensures n.level == 1 {
      var k := SurvivorOrigin(nodes, x, n);
      assert nodes[k] in nodes;
    }
  }

  /** Every child of `nodes[k]` outside the subtree of `x` is outside it, unless `nodes[k]` is the parent
      `x` is unlinked from, whose only child inside it is `x`. */
  lemma ChildrenInSubtree(nodes: seq<Node>, x: Id, k: nat, c: Id)
    requires Valid(nodes) && k < |nodes| && nodes[k].id !in Subtree(nodes, x)
    requires c in ChildIds(nodes, nodes[k].id)
    ensures c in Subtree(nodes, x) <==> ParentIndex(nodes, x) == Some(k) && c == x
  {
    var D := Subtree(nodes, x);
    var m :| m in nodes && m.parentId == Some(nodes[k].id) && m.id == c;
    if c in D && c != x {
      SubtreeBackward(nodes, x, c);
    }
    if c == x {
      var i := IndexOfId(nodes, x).value;
      assert nodes[i] in nodes;
      UniqueMember(nodes, m, nodes[i]);
      var j := IndexOfId(nodes, nodes[k].id).value;
      assert ParentIndex(nodes, x) == Some(j);
      assert j == k;
    }
  }

  lemma DeleteKeepsChildren(nodes: seq<Node>, x: Id)
    requires nodes != [] && Valid(nodes)
    ensures ChildrenAgree(DeleteSubtree(nodes, x))
  {
    var r := DeleteSubtree(nodes, x);
    var D := Subtree(nodes, x);
    var u := Unlink(nodes, x);
    forall n | n in r ensures n.children == ChildIds(r, n.id) {
      var k := SurvivorOrigin(nodes, x, n);
      assert nodes[k] in nodes;
      ChildIdsKeepOutside(u, D, n.id);
      ChildIdsSameLinks(nodes, u, n.id);
      var cs := ChildIds(nodes, n.id);
      assert ChildIds(r, n.id) == RemoveAll(cs, D);
      forall c | c in cs ensures c in D <==> ParentIndex(nodes, x) == Some(k) && c == x {
        ChildrenInSubtree(nodes, x, k, c);
      }
      if ParentIndex(nodes, x) == Some(k) {
        RemoveIdAsRemoveAll(cs, x, D);
      } else {
        RemoveAllDisjoint(cs, D);
      }
    }
  }

  /** Deletion keeps the store consistent. */
  lemma DeleteKeepsValid(nodes: seq<Node>, x: Id)
    requires Valid(nodes)
    ensures Valid(DeleteSubtree(nodes, x))
  {
    if nodes != [] {
      var u := Unlink(nodes, x);
      assert UniqueIds(u);
      KeepOutsideUnique(u, Subtree(nodes, x));
      DeleteKeepsLevels(nodes, x);
      DeleteKeepsChildren(nodes, x);
    }
  }

  /** In a consistent store, deleting `x` unlinks it from its parent only: that parent survives with
      `x` taken out of its `children`, and every other surviving node is exactly as it was. */
  lemma DeleteUnlinksOnlyTarget(nodes: seq<Node>, x: Id)
    requires Valid(nodes) && nodes != []
    ensures forall k :: 0 <= k < |nodes| && ParentIndex(nodes, x) == Some(k) ==>
      nodes[k].(children := RemoveId(nodes[k].children, x)) in DeleteSubtree(nodes, x)
    ensures forall n :: n in DeleteSubtree(nodes, x) && n !in nodes ==>
      exists k :: 0 <= k < |nodes| && ParentIndex(nodes, x) == Some(k) && n == nodes[k].(children := RemoveId(nodes[k].children, x))
  {
    var u := Unlink(nodes, x);
    if ParentIndex(nodes, x).Some? {
      var k := ParentIndex(nodes, x).value;
      ParentSurvives(nodes, x);
      assert u[k] in u;
    }
    forall n | n in DeleteSubtree(nodes, x) && n !in nodes
      ensures exists k :: 0 <= k < |nodes| && ParentIndex(nodes, x) == Some(k) && n == nodes[k].(children := RemoveId(nodes[k].children, x))
    {
      var k := SurvivorOrigin(nodes, x, n);
      assert nodes[k] in nodes;
    }
  }

  /** The recursive `collect` of `deleteNode`, run as a worklist: take an id, and unless it was already
      collected, collect it and queue the ids of its children. */
  method CollectSubtree(nodes: seq<Node>, x: Id) returns (toDelete: set<Id>)
    ensures toDelete == Subtree(nodes, x)
  {
    toDelete := {};
    var work := [x];
    ghost var D := Subtree(nodes, x);
    while work != []
      invariant toDelete <= D
      invariant forall w :: w in work ==> w in D
      invariant x in toDelete || x in work
      invariant forall n :: n in nodes && n.parentId.Some? && n.parentId.value in toDelete ==> n.id in toDelete || n.id in work
      decreases |D - toDelete|, |work|
    {
      var id := work[0];
      CollectStep(nodes, D, toDelete, work);
      work := work[1..];
      if id !in toDelete {
        ProperSubsetCard(D - (toDelete + {id}), D - toDelete);
        toDelete := toDelete + {id};
        work := work + ChildIds(nodes, id);
      }
    }
    SubtreeLeast(nodes, x, toDelete);
  }

  /** Taking the first id off the worklist and, unless it was collected before, collecting it and
      queueing its children keeps the worklist inside the closed set `D` and keeps every child of a
      collected id collected or queued. */
  lemma CollectStep(nodes: seq<Node>, D: set<Id>, done: set<Id>, work: seq<Id>)
    requires Closed(nodes, D) && work != [] && forall w :: w in work ==> w in D
    requires forall n :: n in nodes && n.parentId.Some? && n.parentId.value in done ==> n.id in done || n.id in work
    ensures forall w :: w in work[1..] ==> w in D
    ensures work[0] in done ==>
      forall n :: n in nodes && n.parentId.Some? && n.parentId.value in done ==> n.id in done || n.id in work[1..]
    ensures forall w :: w in work[1..] + ChildIds(nodes, work[0]) ==> w in D
    ensures forall n :: n in nodes && n.parentId.Some? && n.parentId.value in done + {work[0]} ==>
      n.id in done + {work[0]} || n.id in work[1..] + ChildIds(nodes, work[0])
  {
    var id, rest := work[0], work[1..];
    assert id in work;
    forall w | w in rest ensures w in work {
      var k :| 0 <= k < |rest| && rest[k] == w;
      assert work[k + 1] == w;
    }
    forall n | n in nodes && n.parentId.Some? && n.parentId.value in done ensures n.id in done || n.id == id || n.id in rest {
      if n.id !in done {
        var k :| 0 <= k < |work| && work[k] == n.id;
        if k > 0 {
          assert rest[k - 1] == n.id;
        }
      }
    }
    forall n | n in nodes && n.parentId == Some(id) ensures n.id in ChildIds(nodes, id) {
    }
  }

  // ---------------------------------------------------------------------------------------------
  // Cluster assignment (assignNodeToCluster)
  // ---------------------------------------------------------------------------------------------

  /** The store after `assignNodeToCluster(id, clusterId)`: the first node with the id gets the cluster,
      nothing else changes, and an unknown id changes nothing. */
  function AssignCluster(nodes: seq<Node>, id: Id, clusterId: Option<Id>): (r: seq<Node>)
    ensures |r| == |nodes|
    ensures id !in Ids(nodes) ==> r == nodes
    ensures id in Ids(nodes) ==>
      exists k :: (0 <= k < |nodes| && nodes[k].id == id
        && (forall j :: 0 <= j < k ==> nodes[j].id != id)
        && r == nodes[k := nodes[k].(clusterId := clusterId)])
  {
    match IndexOfId(nodes, id)
    case None => nodes
    case Some(k) => nodes[k := nodes[k].(clusterId := clusterId)]
  }

  /** Same ids, links, levels and `children` at every position. */
  predicate SameShape(a: seq<Node>, b: seq<Node>)
  {
    SameLinks(a, b) && forall k :: 0 <= k < |a| ==> a[k].level == b[k].level && a[k].children == b[k].children
  }

  lemma SameShapeKeepsValid(a: seq<Node>, b: seq<Node>)
    requires Valid(a) && SameShape(a, b)
    ensures Valid(b)
  {
    SameLinksIds(a, b);
    forall n | n in b && n.parentId.None? ensures n.level == 0 {
      var k :| 0 <= k < |b| && b[k] == n;
      assert a[k] in a;
    }
    forall n, m | n in b && m in b && n.parentId == Some(m.id) ensures n.level == m.level + 1 {
      var i :| 0 <= i < |b| && b[i] == n;
      var j :| 0 <= j < |b| && b[j] == m;
      assert a[i] in a && a[j] in a;
    }
    forall n | n in b && n.parentId.Some? && n.parentId.value !in Ids(b) ensures n.level == 1 {
      var k :| 0 <= k < |b| && b[k] == n;
      assert a[k] in a;
    }
    forall n | n in b ensures n.children == ChildIds(b, n.id) {
      var k :| 0 <= k < |b| && b[k] == n;
      assert a[k] in a;
      ChildIdsSameLinks(a, b, n.id);
    }
  }

  lemma AssignKeepsValid(nodes: seq<Node>, id: Id, clusterId: Option<Id>)
    requires Valid(nodes)
    ensures Valid(AssignCluster(nodes, id, clusterId))
  {
    SameShapeKeepsValid(nodes, AssignCluster(nodes, id, clusterId));
  }

  // ---------------------------------------------------------------------------------------------
  // The nested tree (buildTree)
  // ---------------------------------------------------------------------------------------------

  /** A node copied with its `children` list emptied, above the trees of its children. */
  datatype Tree = Tree(node: Node, children: seq<Tree>)

  /** Positions below `n` of the nodes whose parent is `id`, in store order: the order in which
      `buildTree` pushes them onto that parent's `children`. */
  function ChildIndices(nodes: seq<Node>, id: Id, n: nat): (r: seq<nat>)
    requires n <= |nodes|
    ensures forall k :: 0 <= k < |r| ==> r[k] < n && nodes[r[k]].parentId == Some(id)
    ensures forall j :: 0 <= j < n && nodes[j].parentId == Some(id) ==> j in r
  {
    if n == 0 then []
    else ChildIndices(nodes, id, n - 1) + (if nodes[n - 1].parentId == Some(id) then [n - 1] else [])
  }

  /** The position of the last node below `n` carrying `id`: the copy `buildTree`'s id map keeps,
      since each later node with the same id overwrites the entry. */
  function LastBelow(nodes: seq<Node>, id: Id, n: nat): (r: nat)
    requires n <= |nodes| && exists j :: 0 <= j < n && nodes[j].id == id
    ensures r < n && nodes[r].id == id
    ensures forall j :: r < j < n ==> nodes[j].id != id
  {
    if nodes[n - 1].id == id then n - 1 else LastBelow(nodes, id, n - 1)
  }

  /** The position of the copy of `nodes[k]` that the id map keeps. */
  function Kept(nodes: seq<Node>, k: nat): (r: nat)
    requires k < |nodes|
    ensures k <= r < |nodes| && nodes[r].id == nodes[k].id
    ensures forall j :: r < j < |nodes| ==> nodes[j].id != nodes[k].id
  {
    LastBelow(nodes, nodes[k].id, |nodes|)
  }

  /** Without repeated ids every node is its own kept copy. */
  lemma KeptUnique(nodes: seq<Node>, k: nat)
    requires UniqueIds(nodes) && k < |nodes|
    ensures Kept(nodes, k) == k
  {
    var r := Kept(nodes, k);
    assert nodes[r].id == nodes[k].id;
  }

  /** Some node names `id` as its parent. */
  ghost predicate HasChild(nodes: seq<Node>, id: Id)
  {
    exists j :: 0 <= j < |nodes| && nodes[j].parentId == Some(id)
  }

  /** The termination measure of `Project`: a node with children sits at most `MaxLevel` levels
      deep, and every child, whichever copy of it is kept, sits one level deeper. */
  ghost function Height(nodes: seq<Node>, i: nat): nat
    requires i < |nodes|
  {
    if HasChild(nodes, nodes[i].id) && nodes[i].level <= MaxLevel(nodes) then MaxLevel(nodes) - nodes[i].level + 1 else 0
  }

  lemma HeightDecreases(nodes: seq<Node>, i: nat, j: nat)
    requires LevelsAgree(nodes) && i < |nodes| && j < |nodes| && nodes[j].parentId == Some(nodes[i].id)
    ensures Height(nodes, Kept(nodes, j)) < Height(nodes, i)
  {
    var c := Kept(nodes, j);
    assert nodes[i] in nodes && nodes[j] in nodes && nodes[c] in nodes;
    assert HasChild(nodes, nodes[i].id);
    if HasChild(nodes, nodes[c].id) {
      var g :| 0 <= g < |nodes| && nodes[g].parentId == Some(nodes[c].id);
      assert nodes[g] in nodes;
    }
  }

  /** The tree `buildTree` hangs below `nodes[i]`: below it, for every node naming it as parent, in
      store order, the tree of the copy of that node the id map keeps. Without repeated ids that copy
      is the node itself (`KeptUnique`). */
  function Project(nodes: seq<Node>, i: nat): (t: Tree)
    requires LevelsAgree(nodes) && i < |nodes|
    ensures t.node.id == nodes[i].id && t.node.children == []
    ensures forall k :: 0 <= k < |t.children| ==> t.children[k].node.id in ChildIds(nodes, nodes[i].id)
    decreases Height(nodes, i)
  {
    var cs := ChildIndices(nodes, nodes[i].id, |nodes|);
    Tree(nodes[i].(children := []),
         seq(|cs|, k requires 0 <= k < |cs| =>
           HeightDecreases(nodes, i, cs[k]);
           Project(nodes, Kept(nodes, cs[k]))))
  }

  /** The ids in a tree. */
  ghost function TreeIds(t: Tree): set<Id>
  {
    {t.node.id} + set k, y | 0 <= k < |t.children| && y in TreeIds(t.children[k]) :: y
  }

  /** The ids at the heads of a list of trees. */
  function HeadIds(ts: seq<Tree>): seq<Id>
  {
    seq(|ts|, k requires 0 <= k < |ts| => ts[k].node.id)
  }

  /** One unfolding of `Project`. */
  lemma ProjectShape(nodes: seq<Node>, i: nat)
    requires LevelsAgree(nodes) && i < |nodes|
    ensures Project(nodes, i).node == nodes[i].(children := [])
    ensures |Project(nodes, i).children| == |ChildIndices(nodes, nodes[i].id, |nodes|)|
    ensures forall k :: 0 <= k < |Project(nodes, i).children| ==>
      Project(nodes, i).children[k] == Project(nodes, Kept(nodes, ChildIndices(nodes, nodes[i].id, |nodes|)[k]))
  {
  }

  lemma {:induction false} ChildIndicesIds(nodes: seq<Node>, id: Id, n: nat)
    requires n <= |nodes|
    ensures |ChildIndices(nodes, id, n)| == |ChildIds(nodes[..n], id)|
    ensures forall k :: 0 <= k < |ChildIndices(nodes, id, n)| ==>
      nodes[ChildIndices(nodes, id, n)[k]].id == ChildIds(nodes[..n], id)[k]
  {
    if n > 0 {
      ChildIndicesIds(nodes, id, n - 1);
      assert nodes[..n] == nodes[..n - 1] + [nodes[n - 1]];
      ChildIdsAppend(nodes[..n - 1], [nodes[n - 1]], id);
    }
  }

  /** Every node whose parent is present appears below that parent in the projected tree, in store
      order: the projected children of `nodes[i]` carry exactly the ids of its `children` list. */
  lemma ProjectChildrenInOrder(nodes: seq<Node>, i: nat)
    requires Valid(nodes) && i < |nodes|
    ensures Project(nodes, i).node == nodes[i].(children := [])
    ensures HeadIds(Project(nodes, i).children) == ChildIds(nodes, nodes[i].id) == nodes[i].children
  {
    ProjectShape(nodes, i);
    ChildIndicesIds(nodes, nodes[i].id, |nodes|);
    assert nodes[..|nodes|] == nodes;
    assert nodes[i] in nodes;
    var cs := ChildIndices(nodes, nodes[i].id, |nodes|);
    forall k | 0 <= k < |cs| ensures Project(nodes, i).children[k].node.id == nodes[cs[k]].id {
      ProjectShape(nodes, Kept(nodes, cs[k]));
    }
  }

  lemma TreeIdsChild(t: Tree, k: nat, y: Id)
    requires k < |t.children| && y in TreeIds(t.children[k])
    ensures y in TreeIds(t)
  {
  }

  lemma TreeIdsSplit(t: Tree, y: Id) returns (k: nat)
    requires y in TreeIds(t) && y != t.node.id
    ensures k < |t.children| && y in TreeIds(t.children[k])
  {
    k :| 0 <= k < |t.children| && y in TreeIds(t.children[k]);
  }

  /** A tree whose root carries `id` and whose children are, one for one, the subtrees of the nodes
      whose parent is `id` lies within the subtree of `id` ... */
  lemma TreeIdsWithin(nodes: seq<Node>, id: Id, t: Tree, cs: seq<nat>)
    requires forall k :: 0 <= k < |cs| ==> cs[k] < |nodes| && nodes[cs[k]].parentId == Some(id)
    requires t.node.id == id && |t.children| == |cs|
    requires forall k :: 0 <= k < |cs| ==> TreeIds(t.children[k]) == Subtree(nodes, nodes[cs[k]].id)
    ensures TreeIds(t) <= Subtree(nodes, id)
  {
    var D := Subtree(nodes, id);
    forall y | y in TreeIds(t) ensures y in D {
      if y != id {
        var k := TreeIdsSplit(t, y);
        assert nodes[cs[k]] in nodes;
        SubtreeLeast(nodes, nodes[cs[k]].id, D);
      }
    }
  }

  /** ... and is closed under taking children when every child of `id` has a tree among them. */
  lemma TreeIdsClosed(nodes: seq<Node>, id: Id, t: Tree, cs: seq<nat>)
    requires forall j :: 0 <= j < |nodes| && nodes[j].parentId == Some(id) ==> j in cs
    requires forall k :: 0 <= k < |cs| ==> cs[k] < |nodes|
    requires t.node.id == id && |t.children| == |cs|
    requires forall k :: 0 <= k < |cs| ==> TreeIds(t.children[k]) == Subtree(nodes, nodes[cs[k]].id)
    ensures Closed(nodes, TreeIds(t))
  {
    forall n | n in nodes && n.parentId.Some? && n.parentId.value in TreeIds(t) ensures n.id in TreeIds(t) {
      var j :| 0 <= j < |nodes| && nodes[j] == n;
      if n.parentId.value == id {
        var k :| 0 <= k < |cs| && cs[k] == j;
        TreeIdsChild(t, k, n.id);
      } else {
        var k := TreeIdsSplit(t, n.parentId.value);
        TreeIdsChild(t, k, n.id);
      }
    }
  }

  /** The tree below a node holds exactly the ids that deleting that node removes. */
  lemma {:induction false} ProjectIsSubtree(nodes: seq<Node>, i: nat)
    requires LevelsAgree(nodes) && i < |nodes|
    ensures TreeIds(Project(nodes, i)) == Subtree(nodes, nodes[i].id)
    decreases Height(nodes, i)
  {
    var t := Project(nodes, i);
    var cs := ChildIndices(nodes, nodes[i].id, |nodes|);
    ProjectShape(nodes, i);
    assert nodes[i] in nodes;
    forall k | 0 <= k < |cs| ensures TreeIds(t.children[k]) == Subtree(nodes, nodes[cs[k]].id) {
      HeightDecreases(nodes, i, cs[k]);
      ProjectIsSubtree(nodes, Kept(nodes, cs[k]));
    }
    TreeIdsWithin(nodes, nodes[i].id, t, cs);
    TreeIdsClosed(nodes, nodes[i].id, t, cs);
    SubtreeLeast(nodes, nodes[i].id, TreeIds(t));
  }

  /** The test `buildTree` applies to elect its root: no parent in the store, and no parent at all
      or level 0. */
  predicate IsTreeRoot(nodes: seq<Node>, k: nat)
    requires k < |nodes|
  {
    var n := nodes[k];
    !(n.parentId.Some? && n.parentId.value in Ids(nodes)) && (n.parentId.None? || n.level == 0)
  }

  /** The first loop of `buildTree`: a map keyed by every id in the store, each later node with an
      id overwriting the entry of an earlier one. */
  method IndexById(nodes: seq<Node>) returns (nodeMap: map<Id, nat>)
    ensures forall id :: id in nodeMap <==> id in Ids(nodes)
    ensures forall k :: 0 <= k < |nodes| ==> nodes[k].id in nodeMap && nodeMap[nodes[k].id] == Kept(nodes, k)
  {
    nodeMap := map[];
    for i := 0 to |nodes|
      invariant forall id :: id in nodeMap <==> exists k :: 0 <= k < i && nodes[k].id == id
      invariant forall id :: id in nodeMap ==>
        nodeMap[id] < i && nodes[nodeMap[id]].id == id && forall j :: nodeMap[id] < j < i ==> nodes[j].id != id
    {
      nodeMap := nodeMap[nodes[i].id := i];
    }
    IndexKeepsLast(nodes, nodeMap);
  }

  /** A map holding, for every id in the store, the position of its last node is keyed by exactly the
      store's ids and maps each node's id to its kept copy. */
  lemma IndexKeepsLast(nodes: seq<Node>, nodeMap: map<Id, nat>)
    requires forall id :: id in nodeMap <==> exists k :: 0 <= k < |nodes| && nodes[k].id == id
    requires forall id :: id in nodeMap ==>
      nodeMap[id] < |nodes| && nodes[nodeMap[id]].id == id && forall j :: nodeMap[id] < j < |nodes| ==> nodes[j].id != id
    ensures forall id :: id in nodeMap <==> id in Ids(nodes)
    ensures forall k :: 0 <= k < |nodes| ==> nodes[k].id in nodeMap && nodeMap[nodes[k].id] == Kept(nodes, k)
  {
    forall id | id in Ids(nodes) ensures id in nodeMap {
      var n :| n in nodes && n.id == id;
      var k :| 0 <= k < |nodes| && nodes[k] == n;
    }
    forall k | 0 <= k < |nodes| ensures nodes[k].id in nodeMap && nodeMap[nodes[k].id] == Kept(nodes, k) {
      assert nodes[k].id in nodeMap;
      var r, l := nodeMap[nodes[k].id], Kept(nodes, k);
      assert nodes[l].id == nodes[k].id && nodes[r].id == nodes[k].id;
    }
  }

  /** The names every plain object `{}` inherits from `Object.prototype`. Looking one up gives a
      function (or, for `__proto__`, the prototype itself): truthy, and without a `children` array. */
  const ObjectPrototypeNames: set<string> := {
    "constructor", "hasOwnProperty", "isPrototypeOf", "propertyIsEnumerable", "toLocaleString",
    "toString", "valueOf", "__proto__", "__defineGetter__", "__defineSetter__", "__lookupGetter__",
    "__lookupSetter__"}

  /** `nodes[k]` names as parent an id no node has but the id map inherits: `nodeMap[parent_id]` is
      truthy, so the walk takes the linking branch, and `push` is called on an undefined `children`. */
  predicate InheritedParent(nodes: seq<Node>, inherited: set<string>, k: nat)
    requires k < |nodes|
  {
    nodes[k].parentId.Some? && nodes[k].parentId.value !in Ids(nodes) && nodes[k].parentId.value in inherited
  }

  /** What `buildTree` elects when its walk completes: null exactly when no node is a tree root;
      otherwise the projection of the kept copy of the last tree root. */
  predicate ElectedTree(nodes: seq<Node>, tree: Option<Tree>)
    requires LevelsAgree(nodes)
  {
    && (tree.None? <==> forall k :: 0 <= k < |nodes| ==> !IsTreeRoot(nodes, k))
    && (tree.Some? ==>
      exists k :: (0 <= k < |nodes| && IsTreeRoot(nodes, k) && tree.value == Project(nodes, Kept(nodes, k))
        && forall j :: k < j < |nodes| ==> !IsTreeRoot(nodes, j)))
  }

  /** The outcome of `buildTree`: the root it returns, or the `TypeError` its walk throws. */
  datatype Built = Built(tree: Option<Tree>) | Thrown

  /** `buildTree`: index the nodes by id in a plain object, then walk them in order, hanging each node
      whose parent the object yields under that parent and electing each other node without a parent
      (or at level 0) as the root, so the last such node wins. The root is the copy the id map keeps
      for that node's id. Null for an empty store. A parent id that no node has but that the object
      inherits from `Object.prototype` makes the walk throw. */
  method BuildTree(nodes: seq<Node>) returns (r: Built)
    requires LevelsAgree(nodes)
    ensures r.Thrown? <==> exists k :: 0 <= k < |nodes| && InheritedParent(nodes, ObjectPrototypeNames, k)
    ensures r.Built? ==> ElectedTree(nodes, r.tree)
  {
    if |nodes| == 0 {
      return Built(None);
    }
    var nodeMap := IndexById(nodes);
    var root, thrown := ElectRoot(nodes, nodeMap, ObjectPrototypeNames);
    if thrown {
      return Thrown;
    }
    // the map does not change during the walk, so looking the elected id up now gives the copy the
    // walk took at the election
    if root.Some? {
      var kept := nodeMap[nodes[root.value].id];
      assert kept == Kept(nodes, root.value);
      r := Built(Some(Project(nodes, kept)));
    } else {
      r := Built(None);
    }
  }

  /** `buildTree` with an id map that has no inherited names (`Object.create(null)` or a `Map`): a
      dangling parent id is then always a missing parent, and the walk never throws. */
  method BuildTreeOwnKeys(nodes: seq<Node>) returns (tree: Option<Tree>)
    requires LevelsAgree(nodes)
    ensures ElectedTree(nodes, tree)
  {
    if |nodes| == 0 {
      return None;
    }
    var nodeMap := IndexById(nodes);
    var root, thrown := ElectRoot(nodes, nodeMap, {});
    assert !thrown;
    if root.Some? {
      var kept := nodeMap[nodes[root.value].id];
      assert kept == Kept(nodes, root.value);
      tree := Some(Project(nodes, kept));
    } else {
      tree := None;
    }
  }

  /** The second loop of `buildTree`, as far as the root goes: a node whose parent the map yields is
      hung below it, which throws when the map yields an inherited name rather than a node; any other
      node without a parent, or at level 0, is elected, the last one winning. `inherited` holds the
      names the map yields besides its own keys. */
  method ElectRoot(nodes: seq<Node>, nodeMap: map<Id, nat>, inherited: set<string>) returns (root: Option<nat>, thrown: bool)
    requires forall id :: id in nodeMap <==> id in Ids(nodes)
    ensures thrown <==> exists k :: 0 <= k < |nodes| && InheritedParent(nodes, inherited, k)
    ensures !thrown ==> (root.None? <==> forall k :: 0 <= k < |nodes| ==> !IsTreeRoot(nodes, k))
    ensures !thrown && root.Some? ==>
      root.value < |nodes| && IsTreeRoot(nodes, root.value) && forall j :: root.value < j < |nodes| ==> !IsTreeRoot(nodes, j)
  {
    root, thrown := None, false;
    for i := 0 to |nodes|
      invariant forall k :: 0 <= k < i ==> !InheritedParent(nodes, inherited, k)
      invariant root.None? <==> forall k :: 0 <= k < i ==> !IsTreeRoot(nodes, k)
      invariant root.Some? ==>
        (root.value < i && IsTreeRoot(nodes, root.value) && forall j :: root.value < j < i ==> !IsTreeRoot(nodes, j))
    {
      var node := nodes[i];
      assert IsTreeRoot(nodes, i) <==>
        !(node.parentId.Some? && node.parentId.value in nodeMap) && (node.parentId.None? || node.level == 0);
      assert InheritedParent(nodes, inherited, i) <==>
        node.parentId.Some? && node.parentId.value !in nodeMap && node.parentId.value in inherited;
      if node.parentId.Some? && (node.parentId.value in nodeMap || node.parentId.value in inherited) {
        if node.parentId.value !in nodeMap {
          // the lookup yields an inherited member, whose `children` is undefined
          return None, true;
        }
        // hung under its parent's kept copy: Project lists it among that copy's children
      } else if node.parentId.None? || node.level == 0 {
        root := Some(i);
      }
    }
  }

  /** A store `buildTree` throws on where a map without inherited names gives a tree: a root and a
      node whose parent id is "constructor", as `create-single-node` stores it from a request. */
  lemma ConstructorParentThrows()
    ensures var nodes := [CreateNode("r", "s", "Root", None, Facilitator),
                          CreateNode("n", "s", "Child", Some("constructor"), Participant)];
      && LevelsAgree(nodes) && IsTreeRoot(nodes, 0) && InheritedParent(nodes, ObjectPrototypeNames, 1)
  {
    var root, child := CreateNode("r", "s", "Root", None, Facilitator), CreateNode("n", "s", "Child", Some("constructor"), Participant);
    var nodes := [root, child];
    assert Ids(nodes) == {"r", "n"} by {
      assert forall n :: n in nodes <==> n == root || n == child;
    }
  }

  /** In a store without repeated ids, the tree is the projection of the last elected node itself. */
  lemma BuildTreeUnique(nodes: seq<Node>, k: nat)
    requires LevelsAgree(nodes) && UniqueIds(nodes) && k < |nodes|
    ensures Project(nodes, Kept(nodes, k)) == Project(nodes, k)
  {
    KeptUnique(nodes, k);
  }

  /** In a consistent store with a single parentless node, `getRootNode` and the root `buildTree`
      elects are that node; otherwise the two may differ (first versus last candidate). */
  lemma RootQueriesAgree(nodes: seq<Node>, k: nat)
    requires LevelsAgree(nodes) && k < |nodes| && nodes[k].parentId.None?
    requires forall j :: 0 <= j < |nodes| && j != k ==> nodes[j].parentId.Some?
    ensures GetRootNode(nodes) == Some(nodes[k])
    ensures IsTreeRoot(nodes, k) && forall j :: 0 <= j < |nodes| && j != k ==> !IsTreeRoot(nodes, j)
  {
    forall j | 0 <= j < |nodes| && j != k ensures !IsRootLike(nodes[j]) && !IsTreeRoot(nodes, j) {
      assert nodes[j] in nodes;
      if nodes[j].parentId.value in Ids(nodes) {
        var m :| m in nodes && m.id == nodes[j].parentId.value;
      }
    }
  }
}
