/** The session-changing bodies of the request handlers in `routes.js`, as methods over a `Session`
    taking the request fields as parameters, and the two cluster lookups the views use. Identifiers the
    handlers generate arrive as parameters; the collaborator behind each helper is an oracle. */
module Routes {
  import opened Wrappers
  import opened JsArray
  import opened JsString
  import opened DataHelper
  import opened TreeStore
  import opened SessionStore
  import opened LlmHelper

  // ---------------------------------------------------------------------------------------------
  // Cluster lookups
  // ---------------------------------------------------------------------------------------------

  const DefaultClusterColour: string := "#b1b4b6"
  const UnclusteredLabel: string := "Unclustered"

  /** Position of the first cluster whose id is `clusterId`; a node without a cluster matches none. */
  function ClusterIndex(clusters: seq<Cluster>, clusterId: Option<Id>): (r: Option<nat>)
    ensures r.Some? ==> r.value < |clusters| && clusterId == Some(clusters[r.value].id)
    ensures r.Some? ==> forall j :: 0 <= j < r.value ==> clusterId != Some(clusters[j].id)
    ensures r.None? <==> forall c :: c in clusters ==> clusterId != Some(c.id)
  {
    FindIndex(clusters, (c: Cluster) => clusterId == Some(c.id))
  }

  /** `getClusterColour`: the colour of the first cluster with the id, or the neutral grey. */
  function GetClusterColour(clusters: seq<Cluster>, clusterId: Option<Id>): (r: string)
    ensures (forall c :: c in clusters ==> clusterId != Some(c.id)) ==> r == DefaultClusterColour
    ensures forall k ::
      (0 <= k < |clusters| && clusterId == Some(clusters[k].id) && forall j :: 0 <= j < k ==> clusterId != Some(clusters[j].id))
      ==> r == clusters[k].colour
  {
    match ClusterIndex(clusters, clusterId)
    case None => DefaultClusterColour
    case Some(k) => clusters[k].colour
  }

  /** `getClusterLabel`: the label of the first cluster with the id, or "Unclustered". */
  function GetClusterLabel(clusters: seq<Cluster>, clusterId: Option<Id>): (r: string)
    ensures (forall c :: c in clusters ==> clusterId != Some(c.id)) ==> r == UnclusteredLabel
    ensures forall k ::
      (0 <= k < |clusters| && clusterId == Some(clusters[k].id) && forall j :: 0 <= j < k ==> clusterId != Some(clusters[j].id))
      ==> r == clusters[k].labelText
  {
    match ClusterIndex(clusters, clusterId)
    case None => UnclusteredLabel
    case Some(k) => clusters[k].labelText
  }

  // ---------------------------------------------------------------------------------------------
  // Adding several nodes under one parent
  // ---------------------------------------------------------------------------------------------

  /** The store after `addNodeToSession` of one new node per text, in order, all under `parent`. */
  function InsertAll(nodes: seq<Node>, sessionId: Id, texts: seq<string>, parent: Option<Id>, ids: seq<Id>, author: Author)
    : (r: seq<Node>)
    requires |ids| == |texts|
    ensures |r| == |nodes| + |texts|
    decreases |texts|
  {
    if texts == [] then nodes
    else
      var n := |texts| - 1;
      InsertNode(InsertAll(nodes, sessionId, texts[..n], parent, ids[..n], author),
                 CreateNode(ids[n], sessionId, texts[n], parent, author))
  }

  /** Insertion keeps each earlier node's id, link, text, author and session. */
  lemma InsertFrameAt(nodes: seq<Node>, node: Node, k: nat)
    requires k < |nodes|
    ensures var r := InsertNode(nodes, node);
      && r[k].id == nodes[k].id && r[k].parentId == nodes[k].parentId && r[k].text == nodes[k].text
      && r[k].author == nodes[k].author && r[k].sessionId == nodes[k].sessionId
  {
    match node.parentId
    case None =>
    case Some(p) =>
      match IndexOfId(nodes, p)
      case None =>
      case Some(j) =>
  }

  /** The inserted node comes last, with its own id, link, text, author and session. */
  lemma InsertLastAt(nodes: seq<Node>, node: Node)
    ensures var r := InsertNode(nodes, node);
      && r[|nodes|].id == node.id && r[|nodes|].parentId == node.parentId && r[|nodes|].text == node.text
      && r[|nodes|].author == node.author && r[|nodes|].sessionId == node.sessionId
  {
    match node.parentId
    case None =>
    case Some(p) =>
      match IndexOfId(nodes, p)
      case None =>
      case Some(j) =>
  }

  /** Position `k` after a batch: an earlier node keeps its id, link, text, author and session; the
      node made from the i-th text has the i-th id, that text, the parent, the author and the session. */
  lemma {:induction false} InsertAllAt(nodes: seq<Node>, sessionId: Id, texts: seq<string>, parent: Option<Id>,
                                      ids: seq<Id>, author: Author, k: nat)
    requires |ids| == |texts| && k < |nodes| + |texts|
    ensures var r := InsertAll(nodes, sessionId, texts, parent, ids, author);
      k < |nodes| ==>
        && r[k].id == nodes[k].id && r[k].parentId == nodes[k].parentId && r[k].text == nodes[k].text
        && r[k].author == nodes[k].author && r[k].sessionId == nodes[k].sessionId
    ensures var r := InsertAll(nodes, sessionId, texts, parent, ids, author);
      k >= |nodes| ==>
        && r[k].id == ids[k - |nodes|] && r[k].text == texts[k - |nodes|] && r[k].parentId == parent
        && r[k].author == author && r[k].sessionId == sessionId
    decreases |texts|
  {
    if texts != [] {
      var n := |texts| - 1;
      var prev := InsertAll(nodes, sessionId, texts[..n], parent, ids[..n], author);
      var node := CreateNode(ids[n], sessionId, texts[n], parent, author);
      assert InsertAll(nodes, sessionId, texts, parent, ids, author) == InsertNode(prev, node);
      if k < |nodes| + n {
        InsertAllAt(nodes, sessionId, texts[..n], parent, ids[..n], author, k);
        InsertFrameAt(prev, node, k);
        assert k >= |nodes| ==> ids[..n][k - |nodes|] == ids[k - |nodes|] && texts[..n][k - |nodes|] == texts[k - |nodes|];
      } else {
        InsertLastAt(prev, node);
      }
    }
  }

  /** The ids a handler generates for its new nodes: distinct, naming no node, referred to by no node,
      and not the parent the nodes go under. */
  predicate FreshIds(nodes: seq<Node>, ids: seq<Id>, parent: Option<Id>)
  {
    && (forall i, j :: 0 <= i < j < |ids| ==> ids[i] != ids[j])
    && (forall i :: 0 <= i < |ids| ==> ids[i] !in Ids(nodes) && ids[i] !in ParentIds(nodes) && parent != Some(ids[i]))
  }

  lemma InsertAllFreshFor(nodes: seq<Node>, sessionId: Id, texts: seq<string>, parent: Option<Id>, ids: seq<Id>,
                          author: Author)
    requires |ids| == |texts| && texts != [] && FreshIds(nodes, ids, parent)
    ensures FreshFor(InsertAll(nodes, sessionId, texts[..|texts| - 1], parent, ids[..|ids| - 1], author),
                     CreateNode(ids[|ids| - 1], sessionId, texts[|texts| - 1], parent, author))
  {
    var n := |texts| - 1;
    var r := InsertAll(nodes, sessionId, texts[..n], parent, ids[..n], author);
    forall m | m in r ensures m.id != ids[n] && m.parentId != Some(ids[n]) {
      var p :| 0 <= p < |r| && r[p] == m;
      InsertAllAt(nodes, sessionId, texts[..n], parent, ids[..n], author, p);
      if p < |nodes| {
        assert nodes[p] in nodes;
      } else {
        assert m.id == ids[p - |nodes|];
      }
    }
  }

  /** Adding fresh nodes keeps the store consistent. */
  lemma {:induction false} InsertAllKeepsValid(nodes: seq<Node>, sessionId: Id, texts: seq<string>, parent: Option<Id>,
                                              ids: seq<Id>, author: Author)
    requires |ids| == |texts| && Valid(nodes) && FreshIds(nodes, ids, parent)
    ensures Valid(InsertAll(nodes, sessionId, texts, parent, ids, author))
    decreases |texts|
  {
    if texts != [] {
      var n := |texts| - 1;
      assert FreshIds(nodes, ids[..n], parent);
      InsertAllKeepsValid(nodes, sessionId, texts[..n], parent, ids[..n], author);
      InsertAllFreshFor(nodes, sessionId, texts, parent, ids, author);
      InsertKeepsValid(InsertAll(nodes, sessionId, texts[..n], parent, ids[..n], author),
                       CreateNode(ids[n], sessionId, texts[n], parent, author));
    }
  }

  /** Adding one more node to the end of a batch. */
  lemma InsertAllSnoc(nodes: seq<Node>, sessionId: Id, texts: seq<string>, parent: Option<Id>, ids: seq<Id>,
                      author: Author, text: string, id: Id)
    requires |ids| == |texts|
    ensures InsertAll(nodes, sessionId, texts + [text], parent, ids + [id], author)
         == InsertNode(InsertAll(nodes, sessionId, texts, parent, ids, author), CreateNode(id, sessionId, text, parent, author))
  {
    assert (texts + [text])[..|texts|] == texts;
    assert (ids + [id])[..|ids|] == ids;
  }

  /** One more text, taking the next of the ids. */
  lemma InsertAllPrefixSnoc(nodes: seq<Node>, sessionId: Id, texts: seq<string>, parent: Option<Id>, ids: seq<Id>,
                            author: Author, text: string, k: nat)
    requires |texts| == k < |ids|
    ensures InsertAll(nodes, sessionId, texts + [text], parent, ids[..k + 1], author)
         == InsertNode(InsertAll(nodes, sessionId, texts, parent, ids[..k], author),
                       CreateNode(ids[k], sessionId, text, parent, author))
  {
    assert ids[..k + 1] == ids[..k] + [ids[k]];
    InsertAllSnoc(nodes, sessionId, texts, parent, ids[..k], author, text, ids[k]);
  }

  /** The batch of the first `k + 1` texts is the batch of the first `k` and one more insertion. */
  lemma InsertAllStep(nodes: seq<Node>, sessionId: Id, texts: seq<string>, parent: Option<Id>, ids: seq<Id>,
                      author: Author, k: nat)
    requires |ids| == |texts| && k < |texts|
    ensures InsertAll(nodes, sessionId, texts[..k + 1], parent, ids[..k + 1], author)
         == InsertNode(InsertAll(nodes, sessionId, texts[..k], parent, ids[..k], author),
                       CreateNode(ids[k], sessionId, texts[k], parent, author))
  {
    assert texts[..k + 1][..k] == texts[..k];
    assert ids[..k + 1][..k] == ids[..k];
  }

  /** The root reference after adding a batch under `parent`: only parentless nodes are elected, and
      only when none is recorded, so the first of them. */
  function RootAfterBatch(root: Option<Id>, parent: Option<Id>, ids: seq<Id>): Option<Id>
  {
    if root.None? && parent.None? && ids != [] then Some(ids[0]) else root
  }

  /** One more insertion moves the root reference on as a batch one longer would. */
  lemma RootAfterStep(root: Option<Id>, parent: Option<Id>, ids: seq<Id>, k: nat)
    requires k < |ids|
    ensures RootAfterBatch(root, parent, ids[..k + 1])
         == if parent.None? && RootAfterBatch(root, parent, ids[..k]).None? then Some(ids[k])
            else RootAfterBatch(root, parent, ids[..k])
  {
    assert ids[..k + 1][0] == ids[0];
  }

  /** `forEach` over the texts, creating and adding one node for each. */
  method AddNodes(s: Session, texts: seq<string>, parent: Option<Id>, ids: seq<Id>, author: Author)
    requires |ids| == |texts|
    modifies s
    ensures s.nodes == InsertAll(old(s.nodes), s.id, texts, parent, ids, author)
    ensures s.rootNodeId == RootAfterBatch(old(s.rootNodeId), parent, ids)
    ensures s.Meta() == old(s.Meta())
  {
    for k := 0 to |texts|
      invariant s.nodes == InsertAll(old(s.nodes), s.id, texts[..k], parent, ids[..k], author)
      invariant s.rootNodeId == RootAfterBatch(old(s.rootNodeId), parent, ids[..k])
      invariant s.Meta() == old(s.Meta())
    {
      var node := CreateNode(ids[k], s.id, texts[k], parent, author);
      var placed := s.AddNode(node);
      InsertAllStep(old(s.nodes), s.id, texts, parent, ids, author, k);
      RootAfterStep(old(s.rootNodeId), parent, ids, k);
    }
    assert texts[..|texts|] == texts && ids[..|ids|] == ids;
  }

  // ---------------------------------------------------------------------------------------------
  // POST /session/create
  // ---------------------------------------------------------------------------------------------

  /** Creating a session: the seed, when not blank, becomes the first node, trimmed, written by the
      facilitator, and is recorded as the root in place of the generated root id. */
  method CreateSessionWithSeed(id: Id, rootId: Id, title: string, facilitatorName: string, seed: string, seedId: Id)
    returns (s: Session)
    ensures fresh(s) && s.id == id && s.phase == Seeding && s.clusters == [] && s.promptLogs == []
    ensures IsBlank(seed) ==> s.nodes == [] && s.rootNodeId == Some(rootId)
    ensures !IsBlank(seed) ==> s.nodes == [CreateNode(seedId, id, Trim(seed), None, Facilitator)] && s.rootNodeId == Some(seedId)
    ensures !IsBlank(seed) ==> s.nodes[0].text == Trim(seed) && s.nodes[0].level == 0 && s.nodes[0].author == Facilitator
    ensures s.title == if title == "" then "Untitled Session" else title
    ensures s.facilitatorName == if facilitatorName == "" then "Facilitator" else facilitatorName
    ensures s.reflection.None?
    ensures s.Consistent()
  {
    s := new Session(id, rootId, title, facilitatorName);
    if !IsBlank(seed) {
      var rootNode := CreateNode(seedId, id, Trim(seed), None, Facilitator);
      var placed := s.AddNode(rootNode);
      assert s.nodes == [rootNode] && TreeStore.Valid(s.nodes);
      s.rootNodeId := Some(rootNode.id);
    }
  }

  // ---------------------------------------------------------------------------------------------
  // POST /session/:sessionId/participant/respond
  // ---------------------------------------------------------------------------------------------

  /** The parent a response goes under: the node named in the request, if it exists. */
  function ResponseParent(nodes: seq<Node>, nodeId: Option<Id>): (r: Option<Id>)
    ensures r.Some? ==> nodeId == r && r.value in Ids(nodes)
    ensures nodeId.Some? && nodeId.value in Ids(nodes) ==> r == nodeId
  {
    match nodeId
    case None => None
    case Some(x) =>
      match GetNode(nodes, x)
      case None => None
      case Some(parentNode) => Some(parentNode.id)
  }

  /** The texts of the nodes a response becomes: the whole response for a single idea, otherwise the
      text of each idea in turn. */
  function ResponseTexts(response: string, analysis: Analysis): (r: seq<string>)
    ensures analysis.ideaCount == 1 ==> r == [response]
    ensures analysis.ideaCount != 1 ==> |r| == |analysis.ideas| && forall k :: 0 <= k < |r| ==> r[k] == analysis.ideas[k].text
  {
    if analysis.ideaCount == 1 then [response]
    else seq(|analysis.ideas|, k requires 0 <= k < |analysis.ideas| => analysis.ideas[k].text)
  }

  /** A participant's response: an empty response changes nothing; otherwise it is analysed and
      becomes one node (a single idea, holding the whole response) or one node per idea, in order,
      all under the named node if it exists and parentless otherwise. */
  method ParticipantRespond(s: Session, response: string, nodeId: Option<Id>, ask: string -> Reply<Analysis>, ids: seq<Id>)
    requires |ids| == |ResponseTexts(response, AnalyzeResponse(response, ask))|
    modifies s
    ensures response == [] ==> s.nodes == old(s.nodes) && s.rootNodeId == old(s.rootNodeId)
    ensures response != [] ==>
      s.nodes == InsertAll(old(s.nodes), s.id, ResponseTexts(response, AnalyzeResponse(response, ask)),
                           ResponseParent(old(s.nodes), nodeId), ids, Participant)
    ensures response != [] && AnalyzeResponse(response, ask).ideaCount == 1 ==>
      |s.nodes| == |old(s.nodes)| + 1 && s.nodes[|old(s.nodes)|].text == response
    ensures response != [] && ask(response).Failure? ==>
      |s.nodes| == |old(s.nodes)| + 1 && s.nodes[|old(s.nodes)|].text == response
    ensures response != [] ==> forall k :: |old(s.nodes)| <= k < |s.nodes| ==>
      s.nodes[k].parentId == ResponseParent(old(s.nodes), nodeId) && s.nodes[k].author == Participant
    ensures response != [] ==> s.rootNodeId == RootAfterBatch(old(s.rootNodeId), ResponseParent(old(s.nodes), nodeId), ids)
    ensures s.Meta() == old(s.Meta())
    ensures old(s.Consistent()) && FreshIds(old(s.nodes), ids, ResponseParent(old(s.nodes), nodeId)) ==> s.Consistent()
  {
    if response == [] {
      return;
    }
    var analysis := AnalyzeResponse(response, ask);
    var parentId := ResponseParent(s.nodes, nodeId);
    ghost var before := s.nodes;
    AddNodes(s, ResponseTexts(response, analysis), parentId, ids, Participant);
    forall k | |before| <= k < |s.nodes|
      ensures s.nodes[k].parentId == parentId && s.nodes[k].author == Participant
    {
      InsertAllAt(before, s.id, ResponseTexts(response, analysis), parentId, ids, Participant, k);
    }
    if analysis.ideaCount == 1 {
      InsertAllAt(before, s.id, ResponseTexts(response, analysis), parentId, ids, Participant, |before|);
    }
    if Valid(before) && FreshIds(before, ids, parentId) {
      InsertAllKeepsValid(before, s.id, ResponseTexts(response, analysis), parentId, ids, Participant);
    }
  }

  // ---------------------------------------------------------------------------------------------
  // POST /session/:sessionId/create-nodes
  // ---------------------------------------------------------------------------------------------

  /** The idea texts that become nodes: each one that is not blank, trimmed, in order. */
  function NonBlankTrimmed(ideas: seq<string>): (r: seq<string>)
    ensures |r| <= |ideas|
  {
    if ideas == [] then []
    else
      var n := |ideas| - 1;
      NonBlankTrimmed(ideas[..n]) + if IsBlank(ideas[n]) then [] else [Trim(ideas[n])]
  }

  /** Exactly the trims of the ideas that are not blank become node texts. */
  lemma {:induction false} NonBlankTrimmedMembers(ideas: seq<string>)
    ensures forall t :: t in NonBlankTrimmed(ideas) <==> exists i :: 0 <= i < |ideas| && !IsBlank(ideas[i]) && t == Trim(ideas[i])
  {
    if ideas != [] {
      var n := |ideas| - 1;
      NonBlankTrimmedMembers(ideas[..n]);
      assert forall i :: 0 <= i < n ==> ideas[..n][i] == ideas[i];
    }
  }

  /** Nodes from split ideas: one node per idea that is not blank, with its text trimmed, in the
      order given, all under the requested parent (which need not exist). */
  method CreateNodes(s: Session, ideas: seq<string>, parentId: Option<Id>, ids: seq<Id>)
    requires |ids| == |NonBlankTrimmed(ideas)|
    modifies s
    ensures s.nodes == InsertAll(old(s.nodes), s.id, NonBlankTrimmed(ideas), parentId, ids, Participant)
    ensures s.rootNodeId == RootAfterBatch(old(s.rootNodeId), parentId, ids)
    ensures s.Meta() == old(s.Meta())
    ensures old(s.Consistent()) && FreshIds(old(s.nodes), ids, parentId) ==> s.Consistent()
  {
    ghost var before := s.nodes;
    var made := 0;
    for i := 0 to |ideas|
      invariant made == |NonBlankTrimmed(ideas[..i])| <= |ids|
      invariant s.nodes == InsertAll(before, s.id, NonBlankTrimmed(ideas[..i]), parentId, ids[..made], Participant)
      invariant s.rootNodeId == RootAfterBatch(old(s.rootNodeId), parentId, ids[..made])
      invariant s.Meta() == old(s.Meta())
    {
      NonBlankStep(before, s.id, ideas, parentId, ids, Participant, i);
      if !IsBlank(ideas[i]) {
        var node := CreateNode(ids[made], s.id, Trim(ideas[i]), parentId, Participant);
        var placed := s.AddNode(node);
        RootAfterStep(old(s.rootNodeId), parentId, ids, made);
        made := made + 1;
      }
    }
    NonBlankWhole(ideas, ids);
    if Valid(before) && FreshIds(before, ids, parentId) {
      InsertAllKeepsValid(before, s.id, NonBlankTrimmed(ideas), parentId, ids, Participant);
    }
  }

  /** One more idea: a blank one leaves the batch as it is, any other adds its trim under the next id. */
  lemma NonBlankStep(nodes: seq<Node>, sessionId: Id, ideas: seq<string>, parent: Option<Id>, ids: seq<Id>,
                     author: Author, i: nat)
    requires i < |ideas| && |NonBlankTrimmed(ideas)| == |ids|
    ensures |NonBlankTrimmed(ideas[..i + 1])| <= |ids|
    ensures IsBlank(ideas[i]) ==> NonBlankTrimmed(ideas[..i + 1]) == NonBlankTrimmed(ideas[..i])
    ensures !IsBlank(ideas[i]) ==>
      && |NonBlankTrimmed(ideas[..i + 1])| == |NonBlankTrimmed(ideas[..i])| + 1
      && InsertAll(nodes, sessionId, NonBlankTrimmed(ideas[..i + 1]), parent, ids[..|NonBlankTrimmed(ideas[..i])| + 1], author)
         == InsertNode(InsertAll(nodes, sessionId, NonBlankTrimmed(ideas[..i]), parent, ids[..|NonBlankTrimmed(ideas[..i])|], author),
                       CreateNode(ids[|NonBlankTrimmed(ideas[..i])|], sessionId, Trim(ideas[i]), parent, author))
  {
    var texts := NonBlankTrimmed(ideas[..i]);
    NonBlankSnoc(ideas, i);
    NonBlankPrefix(ideas, i + 1);
    if !IsBlank(ideas[i]) {
      InsertAllPrefixSnoc(nodes, sessionId, texts, parent, ids, author, Trim(ideas[i]), |texts|);
    }
  }

  lemma NonBlankSnoc(ideas: seq<string>, i: nat)
    requires i < |ideas|
    ensures NonBlankTrimmed(ideas[..i + 1]) == NonBlankTrimmed(ideas[..i]) + if IsBlank(ideas[i]) then [] else [Trim(ideas[i])]
  {
    assert ideas[..i + 1][..i] == ideas[..i];
  }

  /** After the last idea the batch is the whole list of texts under all the ids. */
  lemma NonBlankWhole(ideas: seq<string>, ids: seq<Id>)
    requires |NonBlankTrimmed(ideas)| == |ids|
    ensures NonBlankTrimmed(ideas[..|ideas|]) == NonBlankTrimmed(ideas)
    ensures ids[..|ids|] == ids
  {
    assert ideas[..|ideas|] == ideas;
  }

  lemma {:induction false} NonBlankPrefix(ideas: seq<string>, i: nat)
    requires i <= |ideas|
    ensures |NonBlankTrimmed(ideas[..i])| <= |NonBlankTrimmed(ideas)|
    decreases |ideas|
  {
    if i < |ideas| {
      var n := |ideas| - 1;
      var prefix := ideas[..n];
      assert prefix[..i] == ideas[..i];
      NonBlankPrefix(prefix, i);
      assert |NonBlankTrimmed(ideas[..i])| <= |NonBlankTrimmed(prefix)|;
      NonBlankGrows(ideas);
    } else {
      assert ideas[..i] == ideas;
    }
  }

  lemma NonBlankGrows(ideas: seq<string>)
    requires ideas != []
    ensures |NonBlankTrimmed(ideas[..|ideas| - 1])| <= |NonBlankTrimmed(ideas)|
  {
  }

  // ---------------------------------------------------------------------------------------------
  // GET /session/:sessionId/suggest-clusters
  // ---------------------------------------------------------------------------------------------

  /** The node list after assigning every in-range index of `indices` to the cluster, in order; each
      assignment goes to the node currently at that index. */
  function AssignIndices(nodes: seq<Node>, indices: seq<int>, clusterId: Id): (r: seq<Node>)
    ensures |r| == |nodes|
    ensures forall k :: 0 <= k < |nodes| ==> r[k] == nodes[k].(clusterId := r[k].clusterId)
    decreases |indices|
  {
    if indices == [] then nodes
    else
      var prev := AssignIndices(nodes, indices[..|indices| - 1], clusterId);
      var index := indices[|indices| - 1];
      if 0 <= index < |prev| then AssignCluster(prev, prev[index].id, Some(clusterId)) else prev
  }

  /** The node list after every suggestion's assignments, suggestion by suggestion. */
  function ApplySuggestions(nodes: seq<Node>, suggestions: seq<Suggestion>, clusterIds: seq<Id>): (r: seq<Node>)
    requires |clusterIds| == |suggestions|
    ensures |r| == |nodes|
    ensures forall k :: 0 <= k < |nodes| ==> r[k] == nodes[k].(clusterId := r[k].clusterId)
    decreases |suggestions|
  {
    if suggestions == [] then nodes
    else
      var n := |suggestions| - 1;
      AssignIndices(ApplySuggestions(nodes, suggestions[..n], clusterIds[..n]), suggestions[n].nodeIndices, clusterIds[n])
  }

  /** `description || ''`. */
  function DescriptionOrEmpty(description: Option<string>): string
  {
    match description
    case None => ""
    case Some(d) => d
  }

  /** The clusters the suggestions become, each created without a colour (so with a palette colour). */
  function NewClusters(sessionId: Id, suggestions: seq<Suggestion>, clusterIds: seq<Id>, picks: seq<nat>): (r: seq<Cluster>)
    requires |clusterIds| == |suggestions| == |picks| && forall k :: 0 <= k < |picks| ==> picks[k] < |Palette|
    ensures |r| == |suggestions|
    ensures forall k :: 0 <= k < |r| ==>
      && r[k].id == clusterIds[k] && r[k].labelText == suggestions[k].labelText && r[k].colour in Palette
      && r[k].description == DescriptionOrEmpty(suggestions[k].description)
  {
    seq(|suggestions|, k requires 0 <= k < |suggestions| =>
      CreateCluster(clusterIds[k], sessionId, suggestions[k].labelText, "", DescriptionOrEmpty(suggestions[k].description), picks[k]))
  }

  /** The last suggestion that lists index `k`, if any. */
  function LastListing(suggestions: seq<Suggestion>, k: nat): (r: Option<nat>)
    ensures r.Some? ==> r.value < |suggestions| && k as int in suggestions[r.value].nodeIndices
    ensures r.Some? ==> forall i :: r.value < i < |suggestions| ==> k as int !in suggestions[i].nodeIndices
    ensures r.None? ==> forall i :: 0 <= i < |suggestions| ==> k as int !in suggestions[i].nodeIndices
  {
    if suggestions == [] then None
    else if k as int in suggestions[|suggestions| - 1].nodeIndices then Some(|suggestions| - 1)
    else LastListing(suggestions[..|suggestions| - 1], k)
  }

  /** With distinct ids, assigning the node at an index touches exactly that position. */
  lemma AssignAt(nodes: seq<Node>, index: nat, c: Option<Id>)
    requires UniqueIds(nodes) && index < |nodes|
    ensures AssignCluster(nodes, nodes[index].id, c) == nodes[index := nodes[index].(clusterId := c)]
  {
    assert nodes[index].id in Ids(nodes);
  }

  /** One suggestion's assignments: a node gets the cluster exactly when its index is listed. */
  lemma {:induction false} AssignIndicesEffect(nodes: seq<Node>, indices: seq<int>, clusterId: Id)
    requires UniqueIds(nodes)
    ensures UniqueIds(AssignIndices(nodes, indices, clusterId))
    ensures forall k :: 0 <= k < |nodes| ==>
      AssignIndices(nodes, indices, clusterId)[k]
        == if k in indices then nodes[k].(clusterId := Some(clusterId)) else nodes[k]
    decreases |indices|
  {
    if indices != [] {
      var n := |indices| - 1;
      var prev := AssignIndices(nodes, indices[..n], clusterId);
      AssignIndicesEffect(nodes, indices[..n], clusterId);
      assert indices == indices[..n] + [indices[n]];
      if 0 <= indices[n] < |prev| {
        AssignAt(prev, indices[n], Some(clusterId));
      }
    }
  }

  /** Across suggestions the last one that lists a node's index decides its cluster; a node whose index
      no suggestion lists keeps its cluster. */
  lemma {:induction false} LastSuggestionWins(nodes: seq<Node>, suggestions: seq<Suggestion>, clusterIds: seq<Id>)
    requires UniqueIds(nodes) && |clusterIds| == |suggestions|
    ensures UniqueIds(ApplySuggestions(nodes, suggestions, clusterIds))
    ensures forall k :: 0 <= k < |nodes| ==>
      ApplySuggestions(nodes, suggestions, clusterIds)[k]
        == match LastListing(suggestions, k)
           case None => nodes[k]
           case Some(i) => nodes[k].(clusterId := Some(clusterIds[i]))
    decreases |suggestions|
  {
    if suggestions != [] {
      var n := |suggestions| - 1;
      LastSuggestionWins(nodes, suggestions[..n], clusterIds[..n]);
      AssignIndicesEffect(ApplySuggestions(nodes, suggestions[..n], clusterIds[..n]), suggestions[n].nodeIndices, clusterIds[n]);
    }
  }

  /** The inner `forEach` of the cluster suggestions: every in-range index in turn assigns the node
      currently there to the cluster. */
  method AssignListed(s: Session, indices: seq<int>, clusterId: Id)
    modifies s
    ensures s.nodes == AssignIndices(old(s.nodes), indices, clusterId)
    ensures s.rootNodeId == old(s.rootNodeId) && s.Meta() == old(s.Meta())
    ensures old(s.Consistent()) ==> s.Consistent()
  {
    for j := 0 to |indices|
      invariant s.nodes == AssignIndices(old(s.nodes), indices[..j], clusterId)
      invariant s.rootNodeId == old(s.rootNodeId) && s.Meta() == old(s.Meta())
      invariant old(s.Consistent()) ==> s.Consistent()
    {
      assert indices[..j + 1][..j] == indices[..j];
      var index := indices[j];
      if 0 <= index < |s.nodes| {
        var updated := s.AssignNodeToCluster(s.nodes[index].id, Some(clusterId));
      }
    }
    assert indices[..|indices|] == indices;
  }

  /** Cluster suggestions: a session with fewer than five nodes is left alone; otherwise each suggestion
      becomes a cluster, appended in order, and every in-range index it lists assigns the node there to
      it, later assignments overwriting earlier ones. */
  method SuggestClustersRoute(s: Session, ask: string -> Reply<seq<Suggestion>>, clusterIds: seq<Id>, picks: seq<nat>)
    requires |clusterIds| == |SuggestClusters(s.nodes, ask)| == |picks|
    requires forall k :: 0 <= k < |picks| ==> picks[k] < |Palette|
    modifies s
    ensures |old(s.nodes)| < 5 ==> s.nodes == old(s.nodes) && s.clusters == old(s.clusters)
    ensures |old(s.nodes)| >= 5 ==>
      && s.clusters == old(s.clusters) + NewClusters(s.id, SuggestClusters(old(s.nodes), ask), clusterIds, picks)
      && s.nodes == ApplySuggestions(old(s.nodes), SuggestClusters(old(s.nodes), ask), clusterIds)
    ensures s.rootNodeId == old(s.rootNodeId) && s.title == old(s.title) && s.facilitatorName == old(s.facilitatorName)
    ensures s.phase == old(s.phase) && s.promptLogs == old(s.promptLogs) && s.reflection == old(s.reflection)
    ensures old(s.Consistent()) ==> s.Consistent()
  {
    if |s.nodes| < 5 {
      return;
    }
    var suggestions := SuggestClusters(s.nodes, ask);
    for i := 0 to |suggestions|
      invariant s.clusters == old(s.clusters) + NewClusters(s.id, suggestions[..i], clusterIds[..i], picks[..i])
      invariant s.nodes == ApplySuggestions(old(s.nodes), suggestions[..i], clusterIds[..i])
      invariant s.rootNodeId == old(s.rootNodeId) && s.title == old(s.title) && s.facilitatorName == old(s.facilitatorName)
      invariant s.phase == old(s.phase) && s.promptLogs == old(s.promptLogs) && s.reflection == old(s.reflection)
      invariant old(s.Consistent()) ==> s.Consistent()
    {
      ApplySuggestion(s, suggestions[i], clusterIds[i], picks[i]);
      NewClustersStep(old(s.clusters), s.id, suggestions, clusterIds, picks, i);
      ApplySuggestionsStep(old(s.nodes), suggestions, clusterIds, i);
    }
    SuggestionsWhole(suggestions, clusterIds, picks);
  }

  /** One suggestion: its cluster is appended, then each in-range index it lists is assigned to it. */
  method ApplySuggestion(s: Session, suggestion: Suggestion, clusterId: Id, pick: nat)
    requires pick < |Palette|
    modifies s
    ensures s.clusters == old(s.clusters) + [CreateCluster(clusterId, s.id, suggestion.labelText, "",
                                                           DescriptionOrEmpty(suggestion.description), pick)]
    ensures s.nodes == AssignIndices(old(s.nodes), suggestion.nodeIndices, clusterId)
    ensures s.rootNodeId == old(s.rootNodeId) && s.title == old(s.title) && s.facilitatorName == old(s.facilitatorName)
    ensures s.phase == old(s.phase) && s.promptLogs == old(s.promptLogs) && s.reflection == old(s.reflection)
    ensures old(s.Consistent()) ==> s.Consistent()
  {
    var cluster := CreateCluster(clusterId, s.id, suggestion.labelText, "", DescriptionOrEmpty(suggestion.description), pick);
    s.AddCluster(cluster);
    AssignListed(s, suggestion.nodeIndices, cluster.id);
  }

  /** One more suggestion: one more cluster, made from that suggestion, after the `existing` ones. */
  lemma NewClustersStep(existing: seq<Cluster>, sessionId: Id, suggestions: seq<Suggestion>, clusterIds: seq<Id>,
                        picks: seq<nat>, i: nat)
    requires |clusterIds| == |suggestions| == |picks| && forall k :: 0 <= k < |picks| ==> picks[k] < |Palette|
    requires i < |suggestions|
    ensures existing + NewClusters(sessionId, suggestions[..i + 1], clusterIds[..i + 1], picks[..i + 1])
         == existing + NewClusters(sessionId, suggestions[..i], clusterIds[..i], picks[..i])
            + [CreateCluster(clusterIds[i], sessionId, suggestions[i].labelText, "",
                             DescriptionOrEmpty(suggestions[i].description), picks[i])]
  {
    var longer := NewClusters(sessionId, suggestions[..i + 1], clusterIds[..i + 1], picks[..i + 1]);
    var shorter := NewClusters(sessionId, suggestions[..i], clusterIds[..i], picks[..i]);
    var last := CreateCluster(clusterIds[i], sessionId, suggestions[i].labelText, "",
                              DescriptionOrEmpty(suggestions[i].description), picks[i]);
    forall k | 0 <= k < |longer| ensures longer[k] == (shorter + [last])[k] {
      if k < i {
        assert longer[k] == shorter[k];
      }
    }
    assert longer == shorter + [last];
    assert existing + (shorter + [last]) == existing + shorter + [last];
  }

  /** One more suggestion: its listed indices are assigned after the earlier ones. */
  lemma ApplySuggestionsStep(nodes: seq<Node>, suggestions: seq<Suggestion>, clusterIds: seq<Id>, i: nat)
    requires |clusterIds| == |suggestions| && i < |suggestions|
    ensures ApplySuggestions(nodes, suggestions[..i + 1], clusterIds[..i + 1])
         == AssignIndices(ApplySuggestions(nodes, suggestions[..i], clusterIds[..i]), suggestions[i].nodeIndices, clusterIds[i])
  {
    assert suggestions[..i + 1][..i] == suggestions[..i] && clusterIds[..i + 1][..i] == clusterIds[..i];
  }

  lemma SuggestionsWhole(suggestions: seq<Suggestion>, clusterIds: seq<Id>, picks: seq<nat>)
    ensures suggestions[..|suggestions|] == suggestions
    ensures clusterIds[..|clusterIds|] == clusterIds && picks[..|picks|] == picks
  {
  }

  // ---------------------------------------------------------------------------------------------
  // GET /session/:sessionId/node/:nodeId/deepen, POST .../generate-reflection, GET .../reset-tree
  // ---------------------------------------------------------------------------------------------

  /** Deepening a node: a follow-up question for the node's text at its level is logged against it; an
      unknown node changes nothing. */
  method Deepen(s: Session, nodeId: Id, ask: (string, nat) -> Reply<string>, logId: Id)
    modifies s
    ensures nodeId !in Ids(old(s.nodes)) ==> s.promptLogs == old(s.promptLogs)
    ensures nodeId in Ids(old(s.nodes)) ==>
      var n := GetNode(old(s.nodes), nodeId).value;
      s.promptLogs == old(s.promptLogs) + [CreatePromptLog(logId, s.id, nodeId, GenerateFollowUp(n.text, n.level, ask), None)]
    ensures s.nodes == old(s.nodes) && s.rootNodeId == old(s.rootNodeId) && s.title == old(s.title)
    ensures s.facilitatorName == old(s.facilitatorName) && s.phase == old(s.phase) && s.clusters == old(s.clusters)
    ensures s.reflection == old(s.reflection)
  {
    var node := GetNode(s.nodes, nodeId);
    if node.None? {
      return;
    }
    var question := GenerateFollowUp(node.value.text, node.value.level, ask);
    s.AddPromptLog(CreatePromptLog(logId, s.id, node.value.id, question, None));
  }

  /** Generating the reflection: stored on the session, the rest untouched. */
  method GenerateReflectionRoute(s: Session, ask: Summary -> Reply<string>)
    modifies s
    ensures s.reflection == Some(GenerateReflection(old(s.nodes), old(s.clusters), ask))
    ensures s.nodes == old(s.nodes) && s.rootNodeId == old(s.rootNodeId) && s.title == old(s.title)
    ensures s.facilitatorName == old(s.facilitatorName) && s.phase == old(s.phase) && s.clusters == old(s.clusters)
    ensures s.promptLogs == old(s.promptLogs)
  {
    var reflection := GenerateReflection(s.nodes, s.clusters, ask);
    s.reflection := Some(reflection);
  }

  /** Resetting the tree: every collection emptied, the reflection and root reference cleared, the phase
      back to seeding; the session's identity, title and facilitator stay. */
  method ResetTree(s: Session)
    modifies s
    ensures s.nodes == [] && s.clusters == [] && s.promptLogs == []
    ensures s.reflection.None? && s.rootNodeId.None? && s.phase == Seeding
    ensures s.title == old(s.title) && s.facilitatorName == old(s.facilitatorName)
    ensures s.Consistent()
  {
    s.nodes := [];
    s.clusters := [];
    s.promptLogs := [];
    s.reflection := None;
    s.rootNodeId := None;
    s.phase := Seeding;
  }
}
