# Causality garden: a verified model of the session store, its helpers and handlers

The causality-support prototype runs facilitated "causality garden" workshops. A session holds a tree of
causal statements (nodes), theme clusters over those nodes and a log of the follow-up prompts that were
put to participants. This project models, in Dafny, the parts of the prototype that decide what the
session holds:

- **The store** (`app/lib/data-helper.js`): the entity factories, the `Session` object that
  `addNodeToSession`, `deleteNode`, `assignNodeToCluster`, `addClusterToSession`, `addPromptLog` and
  `updatePhase` update in place, and the read-only queries (`getNode`, `getChildren`, `getRootNode`,
  `buildTree`, `getShallowNodes`, `getNodesInCluster`, `getSessionStats`).
- **The language-model helpers** (`app/lib/llm-helper.js`). The model service is an oracle parameter
  that either succeeds with a payload or fails. What is modelled is the logic around the call: the
  vagueness heuristic, the fewer-than-five-nodes short cut, the fallbacks and the reflection summary.
- **The handlers that change a session** (`app/routes.js`): session creation with a seed, the
  participant response, node creation from split ideas, cluster suggestion, follow-up prompts,
  reflection and reset. Each is a method on a `Session`, and the request fields are parameters.
- **The template filters** (`app/filters.js`): `splitSentences`, and the token replacement of
  `formatDate`, with the date's fields given.

Files:

- `wrappers.dfy`: `Option` and the oracle's `Reply`.
- `js_array.dfy`: `Array.prototype.filter`/`find`/`findIndex`.
- `js_string.dfy`: `trim`, JavaScript white space, ASCII case folding, `includes`.
- `data_helper.dfy`: entities, factories and queries.
- `tree_store.dfy`: the store's consistency and the specification of its mutations.
- `session.dfy`: the `Session` class.
- `llm_helper.dfy`, `routes.dfy` and `filters.dfy`: the three remaining source files.

The store's consistency, `TreeStore.Valid`, has three parts:

- node ids are unique;
- every node whose parent is present sits one level below it;
- every node's `children` list is exactly the ids of the nodes naming it as parent, in store order.

Every mutation keeps `Valid` when the identifiers it is given are fresh. In the source, identifiers
come from `generateId` (clock plus randomness); here the caller passes them in.

## Model

| member | source | states |
|---|---|---|
| DataHelper.CreateNode | app/lib/data-helper.js:35-59 | A new node has the given id, session, text, parent and author. Its level is the placeholder: 0 without a parent, 1 with one. It has no children, tags, cluster or agency, and needs deepening. |
| DataHelper.CreateCluster | app/lib/data-helper.js:64-85 | A cluster keeps an explicit colour. Without one, its colour is one of the seven palette colours. |
| DataHelper.CreatePromptLog | app/lib/data-helper.js:90-99 | The log entry records the session, node, prompt and optional response it was given. |
| SessionStore.Session.constructor | app/lib/data-helper.js:15-30 | A new session is in phase seeding with empty nodes, clusters and logs. It has a fresh root id. Empty title and facilitator fall back to "Untitled Session" and "Facilitator". The store is consistent. |
| SessionStore.Session.AddNode | app/lib/data-helper.js:104-130 | The new node list is `InsertNode` of the old one. The root is elected only by a parentless node and only when no root is recorded. Nothing else changes. Inserting a fresh node keeps the store consistent. |
| TreeStore.InsertNode | app/lib/data-helper.js:104-130 | The node is appended last and earlier nodes keep their order. Without a parent, the level becomes 0. Under a present parent, the level is the parent's level + 1 and the id is appended to that parent's `children`. Under a missing parent, the placeholder level stays and no list changes. |
| TreeStore.InsertKeepsValid | app/lib/data-helper.js:104-130 | Inserting a node fresh for the store keeps ids unique, levels one below parents, and children lists equal to the child ids in order. |
| TreeStore.InsertIds | app/lib/data-helper.js:128 | Insertion adds exactly the new id to the store's ids. |
| DataHelper.IndexOfId | app/lib/data-helper.js:135-138 | The result is the position of the first node with the id, or none exactly when no node has it. |
| DataHelper.GetNode | app/lib/data-helper.js:135-138 | A node is found exactly when some node has the id. The one found has that id and is the first such node: no earlier node carries the id. |
| DataHelper.GetChildren | app/lib/data-helper.js:143-146 | The result holds exactly the store's nodes whose parent is the id. |
| DataHelper.ChildIdsOfChildren | app/lib/data-helper.js:143-146 | The child ids used for `children` lists are, in order, the ids of the nodes `getChildren` returns. |
| DataHelper.GetRootNode | app/lib/data-helper.js:151-154 | The result is the first node that has no parent or is at level 0. It is null exactly when no node qualifies, so also for an empty store. |
| TreeStore.IndexById | app/lib/data-helper.js:162-165 | The map built in the first pass has exactly the store's ids as its own keys. Each id maps to the last node carrying it, because later nodes overwrite earlier entries. |
| TreeStore.Kept | app/lib/data-helper.js:162-165 | The copy of a node that the id map keeps has the same id, sits at or after the node, and no later node carries that id. |
| TreeStore.KeptUnique | app/lib/data-helper.js:162-165 | Without repeated ids, every node is its own kept copy. |
| TreeStore.ElectRoot | app/lib/data-helper.js:166-174 | The second pass throws exactly when some node names as parent an id that no node has but that the map inherits. Otherwise it elects nothing exactly when no node is a tree root, and else the last tree root. |
| TreeStore.BuildTree | app/lib/data-helper.js:159-177 | The call throws exactly when some node names as parent an id that no node has and that is a member of `Object.prototype` (such as "constructor"). Otherwise the result is null exactly when no node is a tree root, and else the projection of the kept copy of the last node that has no parent, or a missing parent and level 0. Below each node hang the kept copies of the nodes naming its id as parent, in store order. |
| TreeStore.BuildTreeOwnKeys | app/lib/data-helper.js:159-177 | With a map that looks up its own keys only, the call never throws: a dangling parent id counts as a missing parent, and the result is the tree `BuildTree` gives when it does not throw. |
| TreeStore.ConstructorParentThrows | app/lib/data-helper.js:169-170 | A consistent store of a root and a node whose parent id is "constructor" has a tree root, yet `BuildTree` throws on it. |
| TreeStore.Project | app/lib/data-helper.js:163-170 | The projected node keeps its id and gets a fresh `children` list. Every child hung below it carries an id that names it as parent. Order and extent are `ProjectChildrenInOrder` and `ProjectIsSubtree`. |
| TreeStore.BuildTreeUnique | app/lib/data-helper.js:159-177 | Without repeated ids, the tree is the projection of the elected node itself. |
| TreeStore.ProjectChildrenInOrder | app/lib/data-helper.js:163-170 | In a consistent store, a node's projected children are the nodes naming it as parent, in store order, which is its `children` list. |
| TreeStore.ProjectIsSubtree | app/lib/data-helper.js:159-177 | The ids in the projected tree of a node are exactly the node and its transitive descendants. |
| TreeStore.RootQueriesAgree | app/lib/data-helper.js:151-177 | With a single parentless node, `getRootNode` and `buildTree` both pick that node. |
| DataHelper.GetShallowNodes | app/lib/data-helper.js:182-189 | The result holds exactly the nodes that no node names as parent and whose level is below the minimum depth. |
| DataHelper.ShallowKeepsOrder | app/lib/data-helper.js:182-189 | Two shallow nodes appear in the result in the order they have in the store. |
| DataHelper.GetNodesInCluster | app/lib/data-helper.js:216-219 | The result holds exactly the nodes whose cluster is the given one. |
| DataHelper.MaxLevel | app/lib/data-helper.js:253 | The result bounds every level and is the level of some node. It is 0 for an empty store. |
| DataHelper.GetSessionStats | app/lib/data-helper.js:246-257 | Counts nodes and clusters. Max depth is the largest level (0 when empty). Shallow nodes uses depth 3. Unclustered is the number of nodes without a cluster. |
| SessionStore.Session.AddCluster | app/lib/data-helper.js:194-200 | The cluster is appended and every other field is unchanged. |
| SessionStore.Session.AssignNodeToCluster | app/lib/data-helper.js:205-211 | Only the first node with the id changes, and only its cluster. The updated node is returned. An absent id changes nothing and returns none. The store stays consistent. |
| TreeStore.AssignCluster | app/lib/data-helper.js:205-211 | The same length. An absent id leaves the list as it was. Otherwise the first node with the id gets the cluster and every other node is untouched. |
| TreeStore.AssignKeepsValid | app/lib/data-helper.js:205-211 | Changing a cluster keeps the store consistent. |
| SessionStore.Session.AddPromptLog | app/lib/data-helper.js:224-230 | The entry is appended and every other field is unchanged. |
| SessionStore.ParsePhase | app/lib/data-helper.js:236-237 | A name is accepted exactly when it is the name of one of the five phases, and the phase answered has that name. |
| SessionStore.ParsePhaseName | app/lib/data-helper.js:236-237 | Each phase is accepted under its own name. |
| SessionStore.Session.UpdatePhase | app/lib/data-helper.js:235-241 | A valid name sets the phase to the one so named. Any other value leaves the whole session unchanged. |
| TreeStore.Subtree | app/lib/data-helper.js:269-276 | The deleted set contains the node, is closed under "child of", and holds no id outside the store except the node's own. |
| TreeStore.SubtreeLeast | app/lib/data-helper.js:269-276 | The deleted set lies inside every child-closed set containing the node: it is the smallest. |
| TreeStore.SubtreeBackward | app/lib/data-helper.js:269-276 | Every deleted id other than the node's own belongs to a node whose parent is also deleted. |
| TreeStore.CollectSubtree | app/lib/data-helper.js:269-276 | The worklist collection returns exactly the node and its transitive descendants. |
| SessionStore.Session.DeleteNode | app/lib/data-helper.js:265-296 | An empty store is left alone and reports no deletion. Otherwise the store becomes the subtree deletion of the old one, and the root is cleared exactly when it was deleted. The other fields are unchanged. Consistency is kept. |
| TreeStore.DeleteRemovesExactlySubtree | app/lib/data-helper.js:266-288 | The surviving ids are the old ids minus the deleted set. A node survives exactly when it was outside the deleted set, with only its parent's `children` list changed. |
| TreeStore.Unlink | app/lib/data-helper.js:278-285 | Only the parent that `find` picks for the deleted node changes: the target id leaves its `children`. Every other node and every id and parent link stay as they were. |
| TreeStore.DeleteSubtree | app/lib/data-helper.js:265-288 | The store never grows and no surviving node has an id in the deleted subtree. The full characterisation is `DeleteRemovesExactlySubtree` and `DeleteKeepsOrder`. |
| TreeStore.KeepOutside | app/lib/data-helper.js:288 | The filter keeps exactly the nodes whose id is outside the deleted set. |
| TreeStore.DeleteKeepsOrder | app/lib/data-helper.js:278-288 | Two surviving nodes keep their relative store order after deletion. |
| JsArray.FilterKeepsOrder | app/lib/data-helper.js:288 | `filter` keeps the relative order of any two elements it keeps. |
| TreeStore.DeleteLeavesNoOrphan | app/lib/data-helper.js:269-288 | No surviving node names a deleted node as its parent. |
| TreeStore.DeleteUnlinksOnlyTarget | app/lib/data-helper.js:278-285 | In the deleted node's parent, only the deleted id leaves `children`. Every other surviving node is unchanged. |
| TreeStore.ParentSurvives | app/lib/data-helper.js:278-285 | When levels agree, the deleted node's parent is not itself deleted, so the unlinking is visible in the result. |
| TreeStore.RootAfterDelete | app/lib/data-helper.js:290-293 | The root becomes null exactly when it was recorded and lay in the deleted set. Otherwise it is unchanged. |
| TreeStore.DeleteKeepsValid | app/lib/data-helper.js:265-296 | Deletion keeps the store consistent. |
| LlmHelper.AnalyzeResponse | app/lib/llm-helper.js:12-56 | On success the service's analysis is returned. On failure the result is one idea whose text is the input, of type "unknown". |
| LlmHelper.GenerateFollowUp | app/lib/llm-helper.js:64-97 | On success the trimmed answer is returned. On failure the fallback is `fallbacks[min(depth, 3)]`, from "Why might that be?" at depth 0 to the example question at depth 3 and beyond. |
| LlmHelper.IsVague | app/lib/llm-helper.js:105-115 | Any answer shorter than ten characters is vague, whatever it says. The phrase and bare-answer tests are `VaguePhraseAnywhere` and `BareAnswerOnlyWhole`. |
| LlmHelper.CheckVagueness | app/lib/llm-helper.js:104-148 | `isVague` is decided by the heuristic alone. Without vagueness there is no nudge. When vague, the nudge is the trimmed answer or, on failure, the fixed nudge. |
| LlmHelper.VaguePhraseAnywhere | app/lib/llm-helper.js:105-114 | A vague phrase anywhere, in any letter case, makes a text vague. |
| LlmHelper.BareAnswerOnlyWhole | app/lib/llm-helper.js:111-114 | yes/no/ok/okay make a text vague when they are the whole text. Followed by more words they no longer match. |
| LlmHelper.SuggestClusters | app/lib/llm-helper.js:154-189 | Fewer than five nodes give no suggestions. So does a failure. Otherwise the service's suggestions are returned. |
| LlmHelper.ReflectionSummary | app/lib/llm-helper.js:201-208 | The total is the number of nodes. There is one entry per cluster, in order, with its label and its node count. The sample is the texts of the first min(10, n) nodes. |
| LlmHelper.SummaryCountsPartition | app/lib/llm-helper.js:203-206 | With distinct cluster ids, the per-cluster counts add up to the number of nodes in some cluster. |
| LlmHelper.GenerateReflection | app/lib/llm-helper.js:196-235 | On success the trimmed answer is returned. On failure the fixed fallback reflection is returned. |
| Routes.GetClusterColour | app/routes.js:27-30 | The colour of the first cluster with the id, or '#b1b4b6' when none has it. |
| Routes.GetClusterLabel | app/routes.js:33-36 | The label of the first cluster with the id, or 'Unclustered' when none has it. |
| Routes.CreateSessionWithSeed | app/routes.js:62-76 | A seed that is non-blank after trimming gives exactly one node: the trimmed text, level 0, author facilitator, and it becomes the root. A blank seed leaves the store empty. The title and facilitator fall back to "Untitled Session" and "Facilitator" when empty. The reflection is empty. |
| Routes.InsertAllAt | app/routes.js:166-175 | After a batch insertion, earlier nodes keep their identity, text and links. The k-th new node carries the k-th id and text, the shared parent and the author. |
| Routes.InsertAllKeepsValid | app/routes.js:166-175 | A batch of fresh nodes keeps the store consistent. |
| Routes.AddNodes | app/routes.js:166-175 | Adding the texts one by one leaves the batch insertion of all of them. The root follows the batch rule and nothing else changes. |
| Routes.ResponseParent | app/routes.js:163-164 | The parent is the requested node when it exists, and null otherwise. |
| Routes.ResponseTexts | app/routes.js:166-175 | A single idea gives the whole response. Otherwise there is one text per idea, in order. |
| Routes.ParticipantRespond | app/routes.js:151-179 | An empty response changes nothing. A single idea, or a failed analysis, adds exactly one node holding the full response. Otherwise one node is added per idea, in order. All new nodes share the parent and the participant author. Consistency is kept for fresh ids. A parentless response node becomes the root when none is recorded. |
| Routes.NonBlankTrimmedMembers | app/routes.js:275-280 | The texts kept are exactly the trimmed ideas that are not blank. |
| Routes.CreateNodes | app/routes.js:266-289 | One node per non-blank idea is added, in input order, with trimmed text and the shared parent. Only nodes and root change. Consistency is kept for fresh ids. |
| Routes.NewClusters | app/routes.js:393-401 | One cluster per suggestion, in order, with its label, its description (or ""), and a palette colour. |
| Routes.AssignIndices | app/routes.js:403-410 | One suggestion's assignments change only cluster ids: every node keeps its place and all its other fields. Which nodes get the cluster is `AssignIndicesEffect`. |
| Routes.ApplySuggestions | app/routes.js:393-410 | All suggestions' assignments, in order, change only cluster ids. The cluster a node ends with is `LastSuggestionWins`. |
| Routes.AssignIndicesEffect | app/routes.js:403-410 | A suggestion assigns its cluster exactly to the nodes at the listed indices inside the store. Invalid indices are skipped and other nodes are untouched. |
| Routes.LastSuggestionWins | app/routes.js:392-410 | A node's cluster is that of the last suggestion listing its index. A node no suggestion lists keeps its cluster. |
| Routes.AssignListed | app/routes.js:403-410 | The loop over one suggestion's indices leaves exactly its assignments, and keeps consistency. |
| Routes.SuggestClustersRoute | app/routes.js:381-419 | Fewer than five nodes leave the session unchanged. Otherwise the new clusters are appended and the assignments of all suggestions applied. Root, title, phase, logs and reflection stay. Consistency is kept. |
| Routes.Deepen | app/routes.js:331-353 | For an existing node, one prompt log is appended with the follow-up question for the first node carrying the id, as `getNode` finds it. An unknown node changes nothing. |
| Routes.GenerateReflectionRoute | app/routes.js:451-467 | The session's reflection becomes the generated (or fallback) reflection. Nothing else changes. |
| Routes.ResetTree | app/routes.js:472-490 | Nodes, clusters and logs become empty. Reflection and root become null, and the phase is seeding. Id, title and facilitator stay. |
| Filters.Collapse | app/filters.js:46 | `replace(/\s+/g, ' ')` never lengthens the text, leaves it in the collapsed shape, and gives an all-white-space result exactly when the input is all white space. |
| Filters.CollapseAllSpace | app/filters.js:46 | Collapsing white space runs gives an all-white-space result exactly when the input is all white space. |
| Filters.CollapseShape | app/filters.js:46 | After collapsing, the only white space is single blanks, never two in a row. |
| Filters.Matches | app/filters.js:48 | There are at most as many matches as characters, and no match is empty. Their shape and coverage are `MatchesShape` and `MatchesCoverText`. |
| Filters.MatchesShape | app/filters.js:48 | Every match of `/[^.!?]+[.!?]?/g` is non-empty. It starts outside `[.!?]` and holds a terminator at most as its last character. Over collapsed text, every match is collapsed. |
| Filters.MatchesEmpty | app/filters.js:48 | Nothing matches exactly when the text consists of terminators only. |
| Filters.MatchesCoverText | app/filters.js:48 | The matches, joined, give back the whole text except terminators that start it or follow another terminator. |
| Filters.SplitSentences | app/filters.js:44-50 | An empty value gives no sentence, and no sentence is empty. |
| Filters.SplitEmptyIffBlank | app/filters.js:44-50 | `splitSentences` gives no sentence exactly when the value is empty or white space only. |
| Filters.SplitPieces | app/filters.js:44-50 | Every sentence is non-empty and has no white space at either end. It holds no white space but single blanks. Unless the text is terminators only, a terminator can only be its last character. A text of terminators only comes back whole. |
| Filters.ReplaceAll | app/filters.js:32-38 | Replacing a token by itself leaves the text unchanged. What a replacement removes is `ReplaceAllWithout`. |
| Filters.ReplaceAllNoMatch | app/filters.js:32-38 | A global replacement with no occurrence leaves the text unchanged. |
| Filters.ReplaceAllWithout | app/filters.js:32-38 | A replacement sharing no character with its pattern leaves no occurrence. It also brings no other absent token back. |
| Filters.FormatDate | app/filters.js:13-16 | An empty value gives the empty string. A value that is not a date is returned as it is. |
| Filters.ParseDecimalString | app/filters.js:21 | The decimal digits of a number read back as the number. |
| Filters.PadTwoDigits | app/filters.js:18 | Below 100, a padded field has two digits and reads back as the value. |
| Filters.PartsArePlain | app/filters.js:20-28 | Every date part is digits and minus signs only. |
| Filters.Render | app/filters.js:30-39 | A pattern holding none of the seven tokens renders as itself. That no token survives is `RenderLeavesNoToken`. |
| Filters.RenderLeavesNoToken | app/filters.js:30-39 | With plain parts, none of yyyy, yy, MM, dd, HH, mm, ss survives the seven replacements. |
| Filters.FormatDateLeavesNoToken | app/filters.js:13-39 | A formatted date holds none of the seven tokens. |
| Filters.RenderFullYear | app/filters.js:31-33 | `yyyy` renders as the full year, because it is replaced before `yy`. |
| Filters.ShortTokenFirstDoublesYear | app/filters.js:31-33 | Replacing `yy` first would turn `yyyy` into the short year twice. |

## Left out

- The OpenAI client, the prompts, and the shape of the JSON it returns (`app/lib/llm-helper.js:1-10` and the request bodies). Each call is an oracle parameter returning success with a payload or failure; a successful payload is trusted as typed.
- `generateId`'s clock and randomness: identifiers are parameters. Freshness is a hypothesis of the consistency clauses, not a precondition.
- `createCluster`'s random palette pick: it is a `pick` parameter, so the colour is "some palette member".
- Every `created_at` and `timestamp` value.
- Express routing, `res.render`/`redirect`, `findSession` over the cookie session list, and the middleware exposing the lookups to views. A missing session is not modelled; the handlers receive the session.
- The `tempAnalysis` scratch state and the `process-response`, `response-analysis` and `add-response` handlers that read and write it.
- The `create-single-node`, `update-phase` and node `delete` handlers are not separate members: each forwards to `Session.AddNode`, `Session.UpdatePhase` or `Session.DeleteNode`.
- The `await` ordering of the handlers: each runs to completion with the oracle's answer.
- `formatDate`'s `Date` parsing, local time zone and `isNaN` test: the parsed fields come in as `Option<DateFields>`, None standing for an invalid date.
- `formatDate` and `splitSentences` take any JavaScript value and apply `String(value)`; here the value is a string, with "" as the falsy case.
- `$`-patterns in replacement strings: the date parts never contain `$`.
- Lengths (the ten-character vagueness threshold among them) are counted in characters, not UTF-16 code units.
- `export/header/header.js`, the DOM wiring of a menu toggle, is not part of this model.
- Session import/export and sample loading are not part of this model.
- SessionStore.Session.DeleteNode: the descendant collection is a worklist that skips collected ids, so it terminates even on cyclic parent links, where the recursive `collect` would not.
- TreeStore.BuildTree: requires every node's level to agree with its present parent's. Every store built through `AddNode` with fresh ids (`FreshFor`: the id names no node, no parent link, and not the new node's own parent) satisfies this; a store where a repeated id is added below its own descendant does not. It is needed because a datatype tree cannot represent the cyclic object graph the source would link from cyclic parent links.
- TreeStore.BuildTree: a node whose own id is `__proto__` is kept as an ordinary key of the id map. In the source, that assignment replaces the map's prototype instead. Node ids come from `generateId`, so no store the routes build has such an id.
- TreeStore.BuildTree: the source links shared objects, so a repeated id puts the one kept copy at several places in the tree. The model repeats that copy as a value, so it does not capture that the places are the same object.
- Routes.InsertAll: its own contract states only the length. What each position holds is the contract of `Routes.InsertAllAt`.
- Routes.NonBlankTrimmed: its own contract states only a length bound. Its members are characterised by `Routes.NonBlankTrimmedMembers`.

## Findings

| source | as written | input that shows it | evidently intended | confidence | as-written member | corrected member |
|---|---|---|---|---|---|---|
| app/lib/data-helper.js:161-170 | `nodeMap` is a plain `{}`, so `nodeMap[node.parent_id]` also finds the members it inherits from `Object.prototype`. For a dangling parent id such as "constructor", the lookup is truthy and `.children.push` is called on `undefined`, which throws a `TypeError`. `create-single-node` stores any `parentId` a request sends (app/routes.js:291-299, 309-317), and the dashboard calls `buildTree` (app/routes.js:91). | A store of a root node and a node with `parent_id` "constructor" and level 1 | A dangling parent id counts as a missing parent, as it does for every other id: the map has no prototype (`Object.create(null)`, a `Map`, or a `hasOwnProperty` test) | high, not executed | TreeStore.BuildTree, TreeStore.ConstructorParentThrows | TreeStore.BuildTreeOwnKeys |
