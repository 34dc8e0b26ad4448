/** The in-memory causal-tree store of a workshop session: entity factories, the store's queries,
    the specification of its mutations, and the Session object whose fields they update. */
module DataHelper {
  import opened Wrappers
  import opened JsArray

  /** Identifiers are never empty (the generator always produces `prefix_time_random`), so a present
      reference is always truthy. */
  type Id = s: string | s != [] witness "node"

  datatype Author = Facilitator | Participant
  datatype Agency = Low | Med | High
  datatype Phase = Seeding | Growing | Deepening | Clustering | Reflection

  /** One causal statement. `children` lists the ids of the nodes linked under it. */
  datatype Node = Node(
    id: Id,
    sessionId: Id,
    parentId: Option<Id>,
    text: string,
    level: nat,
    author: Author,
    tags: seq<string>,
    clusterId: Option<Id>,
    agency: Option<Agency>,
    needsDeepening: bool,
    children: seq<Id>)

  datatype Cluster = Cluster(id: Id, sessionId: Id, labelText: string, colour: string, description: string)

  datatype PromptLog = PromptLog(id: Id, sessionId: Id, nodeId: Id, promptText: string, responseText: Option<string>)

  /** The counters shown on the dashboard. */
  datatype Stats = Stats(totalNodes: nat, totalClusters: nat, maxDepth: nat, shallowNodes: nat, unclusteredNodes: nat)

  /** The seven colours a cluster created without one is given. */
  const Palette: seq<string> := ["#F6D365", "#FDA085", "#A8E6CF", "#FFB3BA", "#BAE1FF", "#FFFFBA", "#E0BBE4"]

  // ---------------------------------------------------------------------------------------------
  // Entity factories (the identifiers they generate are supplied by the caller)
  // ---------------------------------------------------------------------------------------------

  /** The provisional level the node factory gives: 0 without a parent, 1 with one. */
  function PlaceholderLevel(parentId: Option<Id>): nat
  {
    if parentId.Some? then 1 else 0
  }

  /** A node as the factory leaves it, before it is inserted into a store. */
  predicate IsNewNode(node: Node)
  {
    node.level == PlaceholderLevel(node.parentId) && node.children == []
  }

  function CreateNode(id: Id, sessionId: Id, text: string, parentId: Option<Id>, author: Author): (n: Node)
    ensures IsNewNode(n)
    ensures n.id == id && n.sessionId == sessionId && n.text == text && n.parentId == parentId && n.author == author
    ensures n.clusterId.None? && n.agency.None? && n.tags == [] && n.needsDeepening
  {
    Node(id, sessionId, parentId, text, PlaceholderLevel(parentId), author, [], None, None, true, [])
  }

  /** `colour` is "" when the caller gave none; `pick` is the random draw `Math.floor(Math.random() * 7)`. */
  function CreateCluster(id: Id, sessionId: Id, labelText: string, colour: string, description: string, pick: nat): (c: Cluster)
    requires pick < |Palette|
    ensures colour != "" ==> c.colour == colour
    ensures colour == "" ==> c.colour in Palette
    ensures c.id == id && c.sessionId == sessionId && c.labelText == labelText && c.description == description
  {
    Cluster(id, sessionId, labelText, if colour != "" then colour else Palette[pick], description)
  }

  function CreatePromptLog(id: Id, sessionId: Id, nodeId: Id, promptText: string, responseText: Option<string>): (l: PromptLog)
    ensures l.id == id && l.sessionId == sessionId && l.nodeId == nodeId
    ensures l.promptText == promptText && l.responseText == responseText
  {
    PromptLog(id, sessionId, nodeId, promptText, responseText)
  }

  // ---------------------------------------------------------------------------------------------
  // Queries
  // ---------------------------------------------------------------------------------------------

  function Ids(nodes: seq<Node>): set<Id>
  {
    set n | n in nodes :: n.id
  }

  /** The ids that some node names as its parent. */
  function ParentIds(nodes: seq<Node>): set<Id>
  {
    set n | n in nodes && n.parentId.Some? :: n.parentId.value
  }

  /** Position of the first node with the given id (what `nodes.find(n => n.id === id)` picks). */
  function IndexOfId(nodes: seq<Node>, id: Id): (r: Option<nat>)
    ensures r.Some? ==> r.value < |nodes| && nodes[r.value].id == id
    ensures r.Some? ==> forall k :: 0 <= k < r.value ==> nodes[k].id != id
    ensures r.None? <==> id !in Ids(nodes)
  {
    if nodes == [] then None
    else if nodes[0].id == id then Some(0)
    else match IndexOfId(nodes[1..], id)
      case None => (assert Ids(nodes) == {nodes[0].id} + Ids(nodes[1..]); None)
      case Some(k) => Some(k + 1)
  }

  /** `getNode`: the first node with the id, or null. */
  function GetNode(nodes: seq<Node>, id: Id): (r: Option<Node>)
    ensures r.Some? <==> id in Ids(nodes)
    ensures r.Some? ==> r.value in nodes && r.value.id == id
    ensures r.Some? ==> exists k :: 0 <= k < |nodes| && r.value == nodes[k] && forall j :: 0 <= j < k ==> nodes[j].id != id
  {
    match IndexOfId(nodes, id)
    case None => None
    case Some(k) => Some(nodes[k])
  }

  /** `getChildren`: the nodes whose parent is `id`, in store order. */
  function GetChildren(nodes: seq<Node>, id: Id): (r: seq<Node>)
    ensures forall n :: n in r <==> n in nodes && n.parentId == Some(id)
  {
    Filter(nodes, (n: Node) => n.parentId == Some(id))
  }

  /** The ids of `GetChildren(nodes, id)`, in store order: what a consistent `children` list holds. */
  function ChildIds(nodes: seq<Node>, id: Id): (r: seq<Id>)
    ensures forall c :: c in r <==> exists n :: n in nodes && n.parentId == Some(id) && n.id == c
  {
    if nodes == [] then []
    else (if nodes[0].parentId == Some(id) then [nodes[0].id] else []) + ChildIds(nodes[1..], id)
  }

  /** The ids of a list of nodes, in order. */
  function IdsOf(ns: seq<Node>): (r: seq<Id>)
    ensures |r| == |ns| && forall k :: 0 <= k < |ns| ==> r[k] == ns[k].id
  {
    if ns == [] then [] else [ns[0].id] + IdsOf(ns[1..])
  }

  /** `ChildIds` lists the ids of `GetChildren`, one for one and in the same order. */
  lemma {:induction false} ChildIdsOfChildren(nodes: seq<Node>, id: Id)
    ensures ChildIds(nodes, id) == IdsOf(GetChildren(nodes, id))
  {
    if nodes != [] {
      ChildIdsOfChildren(nodes[1..], id);
      if nodes[0].parentId == Some(id) {
        var rest := GetChildren(nodes[1..], id);
        assert GetChildren(nodes, id) == [nodes[0]] + rest;
        assert ([nodes[0]] + rest)[1..] == rest;
      }
    }
  }

  /** The test `getRootNode` applies. */
  predicate IsRootLike(n: Node)
  {
    n.parentId.None? || n.level == 0
  }

  /** `getRootNode`: the first node without a parent or at level 0; null for an empty store. */
  function GetRootNode(nodes: seq<Node>): (r: Option<Node>)
    ensures r.Some? <==> exists k :: 0 <= k < |nodes| && IsRootLike(nodes[k])
    ensures r.Some? ==> exists k :: 0 <= k < |nodes| && r.value == nodes[k] && IsRootLike(nodes[k])
                                    && forall j :: 0 <= j < k ==> !IsRootLike(nodes[j])
  {
    match FindIndex(nodes, IsRootLike)
    case None => None
    case Some(k) => Some(nodes[k])
  }

  /** No node names `id` as its parent. */
  predicate IsLeaf(nodes: seq<Node>, id: Id)
  {
    forall m :: m in nodes ==> m.parentId != Some(id)
  }

  /** The test `getShallowNodes` applies: no children, and a level below `minDepth`. */
  function ShallowTest(nodes: seq<Node>, minDepth: int): Node -> bool
  {
    (n: Node) => |GetChildren(nodes, n.id)| == 0 && n.level < minDepth
  }

  /** `getShallowNodes`: leaves whose level is below `minDepth`, in store order (`ShallowKeepsOrder`). */
  function GetShallowNodes(nodes: seq<Node>, minDepth: int): (r: seq<Node>)
    ensures forall n :: n in r <==> n in nodes && IsLeaf(nodes, n.id) && n.level < minDepth
  {
    assert forall n: Node :: |GetChildren(nodes, n.id)| == 0 <==> IsLeaf(nodes, n.id) by {
      forall n: Node ensures |GetChildren(nodes, n.id)| == 0 <==> IsLeaf(nodes, n.id) {
        if m: Node :| m in nodes && m.parentId == Some(n.id) { assert m in GetChildren(nodes, n.id); }
        var cs := GetChildren(nodes, n.id);
        if |cs| != 0 { assert cs[0] in cs; }
      }
    }
    Filter(nodes, ShallowTest(nodes, minDepth))
  }

  /** The shallow nodes come in store order. */
  lemma ShallowKeepsOrder(nodes: seq<Node>, minDepth: int, i: nat, j: nat)
    requires i < j < |nodes| && nodes[i] in GetShallowNodes(nodes, minDepth) && nodes[j] in GetShallowNodes(nodes, minDepth)
    ensures exists a, b :: (0 <= a < b < |GetShallowNodes(nodes, minDepth)|
      && GetShallowNodes(nodes, minDepth)[a] == nodes[i] && GetShallowNodes(nodes, minDepth)[b] == nodes[j])
  {
    FilterKeepsOrder(nodes, ShallowTest(nodes, minDepth), i, j);
  }

  /** `getNodesInCluster`. */
  function GetNodesInCluster(nodes: seq<Node>, clusterId: Id): (r: seq<Node>)
    ensures forall n :: n in r <==> n in nodes && n.clusterId == Some(clusterId)
  {
    Filter(nodes, (n: Node) => n.clusterId == Some(clusterId))
  }

  /** The largest level in the store, 0 for an empty one. */
  function MaxLevel(nodes: seq<Node>): (r: nat)
    ensures forall n :: n in nodes ==> n.level <= r
    ensures nodes == [] ==> r == 0
    ensures nodes != [] ==> exists n :: n in nodes && n.level == r
  {
    if nodes == [] then 0
    else
      var rest := MaxLevel(nodes[1..]);
      if nodes[0].level >= rest then nodes[0].level else rest
  }

  /** `getSessionStats`, with the shallow count taken at the default depth 3. */
  function GetSessionStats(nodes: seq<Node>, clusters: seq<Cluster>): (s: Stats)
    ensures s.totalNodes == |nodes| && s.totalClusters == |clusters|
    ensures forall n :: n in nodes ==> n.level <= s.maxDepth
    ensures (nodes == [] && s.maxDepth == 0) || exists n :: n in nodes && n.level == s.maxDepth
    ensures s.shallowNodes == |GetShallowNodes(nodes, 3)|
    ensures s.unclusteredNodes == |Filter(nodes, (n: Node) => n.clusterId.None?)|
  {
    Stats(|nodes|, |clusters|, MaxLevel(nodes), |GetShallowNodes(nodes, 3)|,
          |Filter(nodes, (n: Node) => n.clusterId.None?)|)
  }
}
