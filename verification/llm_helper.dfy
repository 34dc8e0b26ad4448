/** The deterministic logic around the calls to the hosted language model in `llm-helper.js`. Each
    call is an oracle `ask` from the request the helper sends to the collaborator's `Reply`; a
    `Failure` stands for everything the helper's `catch` absorbs. */
module LlmHelper {
  import opened Wrappers
  import opened JsArray
  import opened JsString
  import opened DataHelper

  // ---------------------------------------------------------------------------------------------
  // analyzeResponse
  // ---------------------------------------------------------------------------------------------

  datatype Idea = Idea(text: string, kind: string)

  /** The parsed analysis: how many ideas the response holds, and the ideas. */
  datatype Analysis = Analysis(ideaCount: int, ideas: seq<Idea>)

  /** `analyzeResponse`: the collaborator's analysis of the text, or on failure a single idea holding
      the whole text, of kind "unknown". */
  function AnalyzeResponse(text: string, ask: string -> Reply<Analysis>): (a: Analysis)
    ensures ask(text).Success? ==> a == ask(text).payload
    ensures ask(text).Failure? ==>
      a.ideaCount == 1 && |a.ideas| == 1 && a.ideas[0].text == text && a.ideas[0].kind == "unknown"
  {
    match ask(text)
    case Success(analysis) => analysis
    case Failure => Analysis(1, [Idea(text, "unknown")])
  }

  // ---------------------------------------------------------------------------------------------
  // generateFollowUp
  // ---------------------------------------------------------------------------------------------

  /** The follow-up questions used when the collaborator fails, by depth. */
  const FollowUpFallbacks: seq<string> := [
    "Why might that be?",
    "What contributes to that?",
    "What makes that true?",
    "Can you give an example of when this happens?"
  ]

  /** `generateFollowUp`: the collaborator's question, trimmed, or the fallback for the depth, clamped
      to the last one. */
  function GenerateFollowUp(text: string, depth: nat, ask: (string, nat) -> Reply<string>): (q: string)
    ensures ask(text, depth).Success? ==> q == Trim(ask(text, depth).payload)
    ensures ask(text, depth).Failure? ==> q in FollowUpFallbacks
    ensures ask(text, depth).Failure? && depth == 0 ==> q == "Why might that be?"
    ensures ask(text, depth).Failure? && depth == 1 ==> q == "What contributes to that?"
    ensures ask(text, depth).Failure? && depth == 2 ==> q == "What makes that true?"
    ensures ask(text, depth).Failure? && depth >= 3 ==> q == "Can you give an example of when this happens?"
  {
    match ask(text, depth)
    case Success(question) => Trim(question)
    case Failure => FollowUpFallbacks[if depth < |FollowUpFallbacks| - 1 then depth else |FollowUpFallbacks| - 1]
  }

  // ---------------------------------------------------------------------------------------------
  // checkVagueness
  // ---------------------------------------------------------------------------------------------

  /** Phrases that mark a vague answer anywhere in it, ignoring case. */
  const VaguePhrases: seq<string> := ["i don't know", "not sure", "maybe", "just is", "it's like that"]

  /** Answers that are vague only as the whole text, ignoring case. */
  const BareAnswers: seq<string> := ["yes", "no", "ok", "okay"]

  const DefaultNudge: string := "Can you describe a specific situation or moment when you noticed this?"

  /** The heuristic that decides vagueness before any call: some pattern matches, or the trimmed text
      is shorter than ten characters. The patterns are ASCII, so matching them case-insensitively is
      matching them against the text with its ASCII letters folded to lower case. */
  predicate IsVague(text: string)
    ensures |text| < 10 ==> IsVague(text)
  {
    || (exists i :: 0 <= i < |VaguePhrases| && Includes(Lower(text), VaguePhrases[i]))
    || Lower(text) in BareAnswers
    || |Trim(text)| < 10
  }

  datatype Vagueness = Vagueness(isVague: bool, nudge: Option<string>)

  /** `checkVagueness`: the heuristic alone decides `isVague`; only a vague text is sent to the
      collaborator, whose nudge is trimmed, with a fixed nudge on failure. */
  function CheckVagueness(text: string, ask: string -> Reply<string>): (v: Vagueness)
    ensures v.isVague == IsVague(text)
    ensures !IsVague(text) ==> v.nudge.None?
    ensures IsVague(text) && ask(text).Failure? ==> v.nudge == Some(DefaultNudge)
    ensures IsVague(text) && ask(text).Success? ==> v.nudge == Some(Trim(ask(text).payload))
  {
    if !IsVague(text) then Vagueness(false, None)
    else
      match ask(text)
      case Success(nudge) => Vagueness(true, Some(Trim(nudge)))
      case Failure => Vagueness(true, Some(DefaultNudge))
  }

  lemma {:induction false} LowerAppend(a: string, b: string)
    ensures Lower(a + b) == Lower(a) + Lower(b)
  {
    var whole, la, lb := Lower(a + b), Lower(a), Lower(b);
    forall i | 0 <= i < |whole| ensures whole[i] == (la + lb)[i] {
      if i < |a| {
        assert (a + b)[i] == a[i];
      } else {
        assert (a + b)[i] == b[i - |a|];
      }
    }
    assert whole == la + lb;
  }

  /** A vague phrase, in any mix of upper and lower case, makes any text around it vague. */
  lemma VaguePhraseAnywhere(before: string, phrase: string, after: string, i: nat)
    requires i < |VaguePhrases| && Lower(phrase) == VaguePhrases[i]
    ensures IsVague(before + phrase + after)
  {
    var s := Lower(before + phrase + after);
    LowerAppend(before + phrase, after);
    LowerAppend(before, phrase);
    assert s == Lower(before) + VaguePhrases[i] + Lower(after);
    assert s[|before|..|before| + |phrase|] == VaguePhrases[i];
    assert OccursAt(s, VaguePhrases[i], |before|);
  }

  /** A bare answer is vague however it is capitalised, but only as the whole text: followed by a
      space and anything else, it no longer matches the whole-text pattern. */
  lemma BareAnswerOnlyWhole(answer: string, rest: string)
    requires Lower(answer) in BareAnswers
    ensures IsVague(answer)
    ensures Lower(answer + " " + rest) !in BareAnswers
  {
    var s := Lower(answer + " " + rest);
    LowerAppend(answer + " ", rest);
    LowerAppend(answer, " ");
    assert s[|answer|] == ' ';
  }

  // ---------------------------------------------------------------------------------------------
  // suggestClusters
  // ---------------------------------------------------------------------------------------------

  /** One suggested cluster; a missing description is `None`, missing indices the empty list. */
  datatype Suggestion = Suggestion(labelText: string, description: Option<string>, nodeIndices: seq<int>)

  /** `texts.join('\n- ')`. */
  function JoinBullets(texts: seq<string>): string
  {
    if texts == [] then [] else if |texts| == 1 then texts[0] else texts[0] + "\n- " + JoinBullets(texts[1..])
  }

  function Texts(nodes: seq<Node>): (r: seq<string>)
    ensures |r| == |nodes| && forall k :: 0 <= k < |nodes| ==> r[k] == nodes[k].text
  {
    seq(|nodes|, k requires 0 <= k < |nodes| => nodes[k].text)
  }

  /** The user message: the node texts as a bulleted list, each index referring to the node there. */
  function NodeListPrompt(nodes: seq<Node>): string
  {
    "- " + JoinBullets(Texts(nodes))
  }

  /** `suggestClusters`: no suggestions for fewer than five nodes (the collaborator is not asked) or on
      failure; otherwise the collaborator's suggestions for the bulleted node list. */
  function SuggestClusters(nodes: seq<Node>, ask: string -> Reply<seq<Suggestion>>): (r: seq<Suggestion>)
    ensures |nodes| < 5 ==> r == []
    ensures |nodes| >= 5 && ask(NodeListPrompt(nodes)).Failure? ==> r == []
    ensures |nodes| >= 5 && ask(NodeListPrompt(nodes)).Success? ==> r == ask(NodeListPrompt(nodes)).payload
  {
    if |nodes| < 5 then []
    else
      match ask(NodeListPrompt(nodes))
      case Success(suggestions) => suggestions
      case Failure => []
  }

  // ---------------------------------------------------------------------------------------------
  // generateReflection
  // ---------------------------------------------------------------------------------------------

  datatype ClusterCount = ClusterCount(labelText: string, nodeCount: nat)

  /** What the collaborator is shown of a session. */
  datatype Summary = Summary(totalNodes: nat, clusters: seq<ClusterCount>, sampleNodes: seq<string>)

  const SampleSize: nat := 10

  const FallbackReflection: string :=
    "This session explored multiple interconnected themes. Consider reviewing the clusters to identify which area feels most important to address next."

  /** The summary: the node total, one entry per cluster in cluster order with its label and the
      number of nodes carrying its id, and the texts of the first ten nodes. */
  function ReflectionSummary(nodes: seq<Node>, clusters: seq<Cluster>): (s: Summary)
    ensures s.totalNodes == |nodes|
    ensures |s.clusters| == |clusters|
    ensures forall k :: 0 <= k < |clusters| ==>
      s.clusters[k].labelText == clusters[k].labelText && s.clusters[k].nodeCount == |GetNodesInCluster(nodes, clusters[k].id)|
    ensures |s.sampleNodes| == if |nodes| < SampleSize then |nodes| else SampleSize
    ensures forall k :: 0 <= k < |s.sampleNodes| ==> s.sampleNodes[k] == nodes[k].text
  {
    var sample := if |nodes| < SampleSize then nodes else nodes[..SampleSize];
    Summary(|nodes|,
            seq(|clusters|, k requires 0 <= k < |clusters| => ClusterCount(clusters[k].labelText, |GetNodesInCluster(nodes, clusters[k].id)|)),
            Texts(sample))
  }

  /** `generateReflection`: the collaborator's reflection on the summary, trimmed, or the fixed text
      on failure. */
  function GenerateReflection(nodes: seq<Node>, clusters: seq<Cluster>, ask: Summary -> Reply<string>): (r: string)
    ensures ask(ReflectionSummary(nodes, clusters)).Failure? ==> r == FallbackReflection
    ensures ask(ReflectionSummary(nodes, clusters)).Success? ==> r == Trim(ask(ReflectionSummary(nodes, clusters)).payload)
  {
    match ask(ReflectionSummary(nodes, clusters))
    case Success(reflection) => Trim(reflection)
    case Failure => FallbackReflection
  }

  /** The counts summed over the clusters. */
  function SumCounts(cs: seq<ClusterCount>): nat
  {
    if cs == [] then 0 else SumCounts(cs[..|cs| - 1]) + cs[|cs| - 1].nodeCount
  }

  function ClusterIds(clusters: seq<Cluster>): set<Id>
  {
    set c | c in clusters :: c.id
  }

  /** The nodes whose cluster is one of `ids`, counted. */
  function CountInAny(nodes: seq<Node>, ids: set<Id>): nat
  {
    if nodes == [] then 0
    else CountInAny(nodes[1..], ids) + if nodes[0].clusterId.Some? && nodes[0].clusterId.value in ids then 1 else 0
  }

  lemma {:induction false} CountInAnySplit(nodes: seq<Node>, ids: set<Id>, id: Id)
    requires id !in ids
    ensures CountInAny(nodes, ids + {id}) == CountInAny(nodes, ids) + |GetNodesInCluster(nodes, id)|
  {
    if nodes != [] {
      CountInAnySplit(nodes[1..], ids, id);
      assert nodes == [nodes[0]] + nodes[1..];
      FilterAppend([nodes[0]], nodes[1..], (n: Node) => n.clusterId == Some(id));
    }
  }

  lemma {:induction false} SumCountsSnoc(cs: seq<ClusterCount>, c: ClusterCount)
    ensures SumCounts(cs + [c]) == SumCounts(cs) + c.nodeCount
  {
    assert (cs + [c])[..|cs|] == cs;
  }

  lemma SummarySnoc(nodes: seq<Node>, clusters: seq<Cluster>)
    requires clusters != []
    ensures ReflectionSummary(nodes, clusters).clusters
      == ReflectionSummary(nodes, clusters[..|clusters| - 1]).clusters
       + [ClusterCount(clusters[|clusters| - 1].labelText, |GetNodesInCluster(nodes, clusters[|clusters| - 1].id)|)]
  {
  }

  lemma ClusterIdsSnoc(clusters: seq<Cluster>)
    requires clusters != []
    requires forall i, j :: 0 <= i < j < |clusters| ==> clusters[i].id != clusters[j].id
    ensures ClusterIds(clusters) == ClusterIds(clusters[..|clusters| - 1]) + {clusters[|clusters| - 1].id}
    ensures clusters[|clusters| - 1].id !in ClusterIds(clusters[..|clusters| - 1])
  {
    var init := clusters[..|clusters| - 1];
    assert clusters == init + [clusters[|clusters| - 1]];
  }

  /** With distinct cluster ids, the per-cluster counts of the summary add up to the number of nodes
      assigned to one of the listed clusters; no node is counted twice. */
  lemma {:induction false} SummaryCountsPartition(nodes: seq<Node>, clusters: seq<Cluster>)
    requires forall i, j :: 0 <= i < j < |clusters| ==> clusters[i].id != clusters[j].id
    ensures SumCounts(ReflectionSummary(nodes, clusters).clusters) == CountInAny(nodes, ClusterIds(clusters))
  {
    if clusters == [] {
      assert ClusterIds(clusters) == {};
      NoneInEmpty(nodes);
    } else {
      var init := clusters[..|clusters| - 1];
      var last := clusters[|clusters| - 1];
      SummaryCountsPartition(nodes, init);
      SummarySnoc(nodes, clusters);
      SumCountsSnoc(ReflectionSummary(nodes, init).clusters, ClusterCount(last.labelText, |GetNodesInCluster(nodes, last.id)|));
      ClusterIdsSnoc(clusters);
      CountInAnySplit(nodes, ClusterIds(init), last.id);
    }
  }

  lemma {:induction false} NoneInEmpty(nodes: seq<Node>)
    ensures CountInAny(nodes, {}) == 0
  {
    if nodes != [] {
      NoneInEmpty(nodes[1..]);
    }
  }
}
