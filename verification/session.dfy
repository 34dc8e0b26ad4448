/** A facilitation session: the mutable record that `createSession` builds and that the store operations of
    `data-helper.js` update in place. */
module SessionStore {
  import opened Wrappers
  import opened DataHelper
  import opened TreeStore

  /** The wire name of a phase. */
  function PhaseName(p: Phase): string
  {
    match p
    case Seeding => "seeding"
    case Growing => "growing"
    case Deepening => "deepening"
    case Clustering => "clustering"
    case Reflection => "reflection"
  }

  /** `validPhases.includes(s)`, answered with the phase so named. */
  function ParsePhase(s: string): (r: Option<Phase>)
    ensures r.Some? ==> PhaseName(r.value) == s
    ensures r.None? ==> forall p: Phase :: PhaseName(p) != s
  {
    if s == "seeding" then Some(Seeding)
    else if s == "growing" then Some(Growing)
    else if s == "deepening" then Some(Deepening)
    else if s == "clustering" then Some(Clustering)
    else if s == "reflection" then Some(Reflection)
    else None
  }

  /** Every phase is accepted under its own name. */
  lemma ParsePhaseName(p: Phase)
    ensures ParsePhase(PhaseName(p)) == Some(p)
  {
    match p
    case Seeding =>
    case Growing =>
    case Deepening =>
    case Clustering =>
    case Reflection =>
  }

  class Session {
    const id: Id
    var title: string
    var facilitatorName: string
    var rootNodeId: Option<Id>
    var phase: Phase
    var nodes: seq<Node>
    var clusters: seq<Cluster>
    var promptLogs: seq<PromptLog>
    var reflection: Option<string>

    /** Everything the node operations leave alone. */
    function Meta(): (string, string, Phase, seq<Cluster>, seq<PromptLog>, Option<string>)
      reads this
    {
      (title, facilitatorName, phase, clusters, promptLogs, reflection)
    }

    /** The store consistency that every store operation keeps. */
    predicate Consistent()
      reads this
    {
      TreeStore.Valid(nodes)
    }

    /** `createSession`: empty collections, phase seeding, and a freshly generated root id that no node
        carries yet. A missing (empty) title or facilitator name falls back to its default. */
    constructor (id: Id, rootId: Id, title: string, facilitatorName: string)
      ensures this.id == id && rootNodeId == Some(rootId) && phase == Seeding && reflection.None?
      ensures this.title == if title == "" then "Untitled Session" else title
      ensures this.facilitatorName == if facilitatorName == "" then "Facilitator" else facilitatorName
      ensures nodes == [] && clusters == [] && promptLogs == []
      ensures Consistent()
    {
      this.id := id;
      this.title := if title == "" then "Untitled Session" else title;
      this.facilitatorName := if facilitatorName == "" then "Facilitator" else facilitatorName;
      rootNodeId := Some(rootId);
      phase := Seeding;
      nodes := [];
      clusters := [];
      promptLogs := [];
      reflection := None;
    }

    /** `addNodeToSession`: look the parent up, set the level from it (0 without a parent, parent's
        level + 1 under a present parent, the factory's placeholder otherwise), push the id onto the
        parent's `children`, elect the root if none is recorded, and append the node. */
    method AddNode(node: Node) returns (placed: Node)
      modifies this
      ensures nodes == InsertNode(old(nodes), node) && placed == nodes[|nodes| - 1]
      ensures rootNodeId == if node.parentId.None? && old(rootNodeId).None? then Some(node.id) else old(rootNodeId)
      ensures Meta() == old(Meta())
      ensures old(Consistent()) && IsNewNode(node) && FreshFor(old(nodes), node) ==> Consistent()
    {
      ghost var before := nodes;
      placed := node;
      if node.parentId.Some? {
        var j := IndexOfId(nodes, node.parentId.value);
        if j.Some? {
          placed := placed.(level := nodes[j.value].level + 1);
          nodes := nodes[j.value := nodes[j.value].(children := nodes[j.value].children + [node.id])];
        }
      } else {
        placed := placed.(level := 0);
        if rootNodeId.None? {
          rootNodeId := Some(node.id);
        }
      }
      nodes := nodes + [placed];
      if TreeStore.Valid(before) && IsNewNode(node) && FreshFor(before, node) {
        InsertKeepsValid(before, node);
      }
    }

    /** `deleteNode`: collect the node and its descendants, drop the node's id from its parent's
        `children`, filter the collected nodes out and clear the root reference if it was collected.
        An empty store is left alone. The collection runs as a worklist that skips ids already
        collected, so it terminates whatever the parent links. */
    method DeleteNode(x: Id) returns (deleted: bool)
      modifies this
      ensures deleted <==> old(nodes) != []
      ensures nodes == DeleteSubtree(old(nodes), x)
      ensures rootNodeId == RootAfterDelete(old(nodes), old(rootNodeId), x)
      ensures Meta() == old(Meta())
      ensures old(Consistent()) ==> Consistent()
    {
      if nodes == [] {
        return false;
      }
      ghost var before := nodes;
      var toDelete := CollectSubtree(nodes, x);
      var p := ParentIndex(nodes, x);
      if p.Some? {
        nodes := nodes[p.value := nodes[p.value].(children := RemoveId(nodes[p.value].children, x))];
      }
      assert nodes == Unlink(before, x);
      nodes := KeepOutside(nodes, toDelete);
      if rootNodeId.Some? && rootNodeId.value in toDelete {
        rootNodeId := None;
      }
      if TreeStore.Valid(before) {
        DeleteKeepsValid(before, x);
      }
      deleted := true;
    }

    /** `assignNodeToCluster`: the first node with the id gets the cluster; the updated node is
        returned, or nothing when no node has the id. */
    method AssignNodeToCluster(nodeId: Id, clusterId: Option<Id>) returns (updated: Option<Node>)
      modifies this
      ensures nodes == AssignCluster(old(nodes), nodeId, clusterId)
      ensures updated.None? <==> nodeId !in Ids(old(nodes))
      ensures updated.Some? ==> updated.value in nodes && updated.value.id == nodeId && updated.value.clusterId == clusterId
      ensures rootNodeId == old(rootNodeId) && Meta() == old(Meta())
      ensures old(Consistent()) ==> Consistent()
    {
      var k := IndexOfId(nodes, nodeId);
      if k.None? {
        return None;
      }
      ghost var before := nodes;
      nodes := nodes[k.value := nodes[k.value].(clusterId := clusterId)];
      updated := Some(nodes[k.value]);
      if TreeStore.Valid(before) {
        AssignKeepsValid(before, nodeId, clusterId);
      }
    }

    /** `addClusterToSession`: append the cluster. */
    method AddCluster(cluster: Cluster)
      modifies this
      ensures clusters == old(clusters) + [cluster]
      ensures nodes == old(nodes) && rootNodeId == old(rootNodeId) && title == old(title)
      ensures facilitatorName == old(facilitatorName) && phase == old(phase) && promptLogs == old(promptLogs)
      ensures reflection == old(reflection)
    {
      clusters := clusters + [cluster];
    }

    /** `addPromptLog`: append the log entry; the log only grows. */
    method AddPromptLog(log: PromptLog)
      modifies this
      ensures promptLogs == old(promptLogs) + [log]
      ensures nodes == old(nodes) && rootNodeId == old(rootNodeId) && title == old(title)
      ensures facilitatorName == old(facilitatorName) && phase == old(phase) && clusters == old(clusters)
      ensures reflection == old(reflection)
    {
      promptLogs := promptLogs + [log];
    }

    /** `updatePhase`: move to the named phase when the name is one of the five; anything else changes
        nothing. */
    method UpdatePhase(newPhase: string)
      modifies this
      ensures ParsePhase(newPhase).Some? ==> phase == ParsePhase(newPhase).value && PhaseName(phase) == newPhase
      ensures ParsePhase(newPhase).None? ==> phase == old(phase)
      ensures nodes == old(nodes) && rootNodeId == old(rootNodeId) && title == old(title)
      ensures facilitatorName == old(facilitatorName) && clusters == old(clusters) && promptLogs == old(promptLogs)
      ensures reflection == old(reflection)
    {
      var p := ParsePhase(newPhase);
      if p.Some? {
        phase := p.value;
      }
    }
  }
}
