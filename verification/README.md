# SharpInference core, modelled in Dafny

SharpInference is a small forward-chaining inference engine.

**Facts** live in a tree of nodes addressed by slash-separated paths:
- `.` stays at the current node;
- `..` goes to the parent;
- a missing child can be created on the way.

**Rules** are methods whose parameters name the facts they read. Loading a model does two things:
- registers every rule under its name;
- subscribes the rule to the node of every fact it reads.

**Writes and runs.** A write that changes a fact's value unions that node's subscribers into the agenda. The agenda is an insertion-ordered hash set (`LinkedHashSet`). `Run` snapshots the agenda, replaces it with an empty one and executes the snapshot. It repeats this until the agenda is empty or `MaxLoop` sweeps have run.

## Modules

The model is functional: immutable datatypes and pure functions.

| module | models |
|---|---|
| `Wrappers` | `Option` for C# null. `Result` and `Outcome` for the exceptions the code raises. `Outcome` keeps the state reached when the exception left the method. |
| `Strings` | The `System.String` operations used on paths: `Trim('/')`, `TrimEnd('/')`, `Split('/', 2)`, `IsNullOrWhiteSpace`, `StartsWith("/")`. |
| `Values` | Boxed fact values, with `Null` and structural equality (`object.Equals`). |
| `LinkedHashSets` | `LinkedHashSet<T>`: a key set plus a duplicate-free sequence, with every `ISet` operation. |
| `Facts` | `Fact` and `Fact.Combine`. |
| `RuleAttributes` | The `Path` default and its setter. |
| `RuleInfos` | Fact-path composition (`GetRulePath`, `CreateFactPathList`) and the paths `Execute` reads. |
| `TreeNodes` | The tree as a map from absolute keys to node data. The root is `[]`; a node's parent is its key minus the last name. Covers `GetNode`, the path indexer and `AddRule`. |
| `InferenceEngines` | The engine: constructor, equality-gated indexer, `Load` minus reflection, `Execute` and the `Run` loop. |

`GetNode` resolves a path one split at a time. It is related to an independent reference: split the whole path into segments (`Segments`), then walk them (`WalkFrom`). That walk gives two things:
- where a path leads when nodes are created (`Target`);
- where it leads when they are not (`Find`).

A rule's effect is a function from the rule and its argument values to the facts it returns. `Execute` takes a `WriteBack` mode:
- `Discard` is the code as written: the loop over the returned pairs has an empty body.
- `Apply` writes every returned fact through the engine's setter.

`Load` takes a `Subscription` mode:
- `Untrimmed` is the code as written: `AddRule` resolves each stored fact path as it is.
- `Trimmed` resolves the path the rule's execution reads, trimmed of slashes as the indexers trim it.

A rule carries an optional name, its fact paths, its root and its method's parameter count (`arity`). Invoking a rule whose parameter count differs from its fact count throws.

## Model

| member | source | states |
|---|---|---|
| LinkedHashSets.Count | Formix.Inference.Core/LinkedHashSet.cs:240-246 | The dictionary's size equals the number of enumerated items (the class invariant makes the key set and the list agree). |
| LinkedHashSets.Empty | Formix.Inference.Core/LinkedHashSet.cs:21-25 | The parameterless constructor contains nothing and enumerates nothing. |
| LinkedHashSets.Clear | Formix.Inference.Core/LinkedHashSet.cs:261-265 | Afterwards the set is valid, enumerates nothing and counts zero. |
| LinkedHashSets.Contains | Formix.Inference.Core/LinkedHashSet.cs:267-270 | The dictionary lookup agrees with membership in the enumeration order. |
| LinkedHashSets.Add | Formix.Inference.Core/LinkedHashSet.cs:50-59 | Returns true exactly when the item was absent, and then appends it at the end. Otherwise returns false and changes nothing. The invariant is kept. |
| LinkedHashSets.Remove | Formix.Inference.Core/LinkedHashSet.cs:277-287 | Returns true exactly when the item was present. Afterwards it is absent, and the other items keep their relative order. |
| LinkedHashSets.UnionWith | Formix.Inference.Core/LinkedHashSet.cs:224-234 | The old items keep their places at the front. The members become those of the set and of `other`. |
| LinkedHashSets.UnionWithOrder | Formix.Inference.Core/LinkedHashSet.cs:224-234 | The appended items come from `other`, in the order of their first occurrence there. |
| LinkedHashSets.UnionWithIdempotent | Formix.Inference.Core/LinkedHashSet.cs:224-234 | A second union with the same items changes nothing. |
| LinkedHashSets.FromSeq | Formix.Inference.Core/LinkedHashSet.cs:28-44 | The enumerable constructor holds exactly the given items, enumerated in the order of their first occurrence. |
| LinkedHashSets.ExceptWith | Formix.Inference.Core/LinkedHashSet.cs:61-71 | Exactly the items not in `other` survive, in their old order. |
| LinkedHashSets.IntersectWith | Formix.Inference.Core/LinkedHashSet.cs:73-88 | Exactly the items also in `other` survive, in their old order. |
| LinkedHashSets.SymmetricExceptWith | Formix.Inference.Core/LinkedHashSet.cs:201-222 | Membership becomes the symmetric difference. The surviving old items come first, in their old order. |
| LinkedHashSets.IsSubsetOf | Formix.Inference.Core/LinkedHashSet.cs:139-153 | True exactly when every member occurs in `other`. |
| LinkedHashSets.IsSupersetOf | Formix.Inference.Core/LinkedHashSet.cs:155-169 | True exactly when every item of `other` is a member. |
| LinkedHashSets.Overlaps | Formix.Inference.Core/LinkedHashSet.cs:171-185 | True exactly when some item of `other` is a member. |
| LinkedHashSets.IsProperSubsetOf | Formix.Inference.Core/LinkedHashSet.cs:90-110 | The counting code as written. It implies that `other` has an item that is not a member. It coincides with strict inclusion when `other` has no repeats. |
| LinkedHashSets.ProperSubsetOfCountsRepeats | Formix.Inference.Core/LinkedHashSet.cs:90-110 | {1, 2} counts as a proper subset of [1, 1, 3], though 2 is not in it. |
| LinkedHashSets.IsProperSubsetOfSet | Formix.Inference.Core/LinkedHashSet.cs:90-110 | True exactly when the members are strictly included in the items of `other`. |
| LinkedHashSets.IsProperSupersetOf | Formix.Inference.Core/LinkedHashSet.cs:112-137 | The counting code as written. When it accepts, the items of `other` are strictly included in the members, so its only defect is rejecting some strict subsets that are written with repeats. It coincides with strict inclusion when `other` has no repeats. |
| LinkedHashSets.ProperSupersetOfCountsRepeats | Formix.Inference.Core/LinkedHashSet.cs:112-137 | {1, 2, 3} does not count as a proper superset of [1, 1], though it is one. |
| LinkedHashSets.IsProperSupersetOfSet | Formix.Inference.Core/LinkedHashSet.cs:112-137 | True exactly when the items of `other` are strictly included in the members. |
| LinkedHashSets.SetEquals | Formix.Inference.Core/LinkedHashSet.cs:187-199 | The counting code as written. It implies that `other`'s items are members. It coincides with set equality when `other` has no repeats. |
| LinkedHashSets.SetEqualsCountsRepeats | Formix.Inference.Core/LinkedHashSet.cs:187-199 | {1, 2} counts as equal to [1, 1]. |
| LinkedHashSets.SetEqualsSet | Formix.Inference.Core/LinkedHashSet.cs:187-199 | True exactly when the items of `other` are the members. |
| Strings.Trim | Formix.Inference.Core/InferenceEngine.cs:54 | The result neither starts nor ends with a slash. It is the text of the input between its leading slashes and a run of trailing slashes. |
| Strings.TrimEnd | Formix.Inference.Core/RuleInfo.cs:94 | The result is a prefix of the input, every character dropped is a slash, and it does not end with one. |
| Strings.TrimIdempotent | Formix.Inference.Core/TreeNode.cs:89 | Trimming a trimmed path changes nothing. |
| Strings.SplitFirst | Formix.Inference.Core/TreeNode.cs:136-142 | The head has no slash. With a slash in the input, head + "/" + rest gives the input back. Without one, the head is the whole input. |
| Strings.SplitFirstOfJoin | Formix.Inference.Core/TreeNode.cs:136-142 | Splitting h + "/" + r, for a slash-free h, gives back h and r. |
| Strings.JoinSplitAll | Formix.Inference.Core/TreeNode.cs:136 | Splitting at every slash and joining again gives the path back. |
| Facts.CastToString | Formix.Inference.Core/Fact.cs:48 | The `(string)` cast passes strings and null. Anything else throws an invalid cast. |
| Facts.Combine | Formix.Inference.Core/Fact.cs:35-53 | As documented: one fact per complete pair, n/2 of them. Fact k has name `pairs[2k]` and value `pairs[2k+1]`. A trailing unpaired element is ignored. It fails only on a name position that is not a string. |
| Facts.CombineAsWritten | Formix.Inference.Core/Fact.cs:43-53 | On even lengths it agrees with `Combine`. On odd lengths it always fails, and when every name casts it fails by reading past the end. |
| Facts.NamesCastStep | Formix.Inference.Core/Fact.cs:43-53 | The names of an array cast exactly when its first name casts and the names after its first pair cast, the step each loop round takes. |
| Facts.CombineOddLengthThrows | Formix.Inference.Core/Fact.cs:35-53 | ["a", 1, "b"] throws as written, while the documented behaviour gives the single fact ("a", 1). |
| RuleAttributes.NewRuleAttribute | Formix.Inference.Core/RuleAttribute.cs:17-20 | The default path is "/". |
| RuleAttributes.WithPath | Formix.Inference.Core/RuleAttribute.cs:35-42 | The stored path always starts with a slash. A value starting with one is stored verbatim (exactly then); any other gets one slash in front. |
| RuleAttributes.WithPathIdempotent | Formix.Inference.Core/RuleAttribute.cs:35-42 | Setting the path to its current value changes nothing. |
| RuleAttributes.WithPathLastWins | Formix.Inference.Core/RuleAttribute.cs:35-42 | Of two sets, only the second one's value matters. |
| RuleInfos.RulePath | Formix.Inference.Core/RuleInfo.cs:106-121 | "." without a rule attribute, else the attribute's path. Either way it has no slash at either end and is the text between the path's leading and trailing slashes. |
| RuleInfos.Attributed | Formix.Inference.Core/RuleInfo.cs:86-101 | Exactly the attribute paths of the parameters carrying a fact attribute, at most one per parameter, and one for every parameter exactly when every parameter carries one. |
| RuleInfos.AttributedAppend | Formix.Inference.Core/RuleInfo.cs:86-101 | The attribute paths of a concatenated parameter list are those of its first part followed by those of its second. |
| RuleInfos.FactPathList | Formix.Inference.Core/RuleInfo.cs:82-104 | One path per parameter that carries a fact attribute, in parameter order; other parameters contribute nothing. |
| RuleInfos.FactPathListAppend | Formix.Inference.Core/RuleInfo.cs:82-104 | The path list of a concatenated parameter list is the concatenation of the two lists. |
| RuleInfos.RuleName | Formix.Inference.Core/RuleInfo.cs:109-116 | The rule attribute's name when there is one that is not blank, otherwise the method's name. |
| RuleInfos.NewRuleAsWritten | Formix.Inference.Core/RuleInfo.cs:18-29 | As written the name is never assigned and stays null. The root is "", the arity is the parameter count, and the fact paths are composed from the attributed parameters and the rule path. |
| RuleInfos.NewRule | Formix.Inference.Core/RuleInfo.cs:18-29 | As `NewRuleAsWritten`, except that the name is the one `GetRulePath` computes: the rule attribute's non-blank name, else the method's. |
| RuleInfos.NewRuleCallable | Formix.Inference.Core/RuleInfo.cs:82-104 | A rule built from a method can be invoked with its gathered arguments exactly when every parameter carries a fact attribute. |
| RuleInfos.BareRuleRootsFactPaths | Formix.Inference.Core/RuleInfo.cs:88-99 | Under a bare rule attribute, whose path is "/", a relative fact path gets exactly one leading slash and an absolute one is kept, so every fact path is rooted. |
| TreeNodes.NewTree | Formix.Inference.Core/TreeNode.cs:24-31 | A lone root with a null value and no rules. |
| TreeNodes.GetNode | Formix.Inference.Core/TreeNode.cs:129-172 | The tree stays valid and only grows by fresh nodes; a non-null result is a node of it; without `create` nothing changes. |
| TreeNodes.GetNodeCreating | Formix.Inference.Core/TreeNode.cs:129-172 | With `create`, the node reached is where the reference walk of the path's segments ends, and exactly the nodes the walk enters are added. |
| TreeNodes.GetNodeFinding | Formix.Inference.Core/TreeNode.cs:129-172 | Without `create`, the node reached is where the reference walk ends if every node it enters exists, and null otherwise. |
| TreeNodes.GetNodeTarget | Formix.Inference.Core/TreeNode.cs:129-172 | With `create`, the node reached is the path's target. |
| TreeNodes.GetNodeWithCreate | Formix.Inference.Core/TreeNode.cs:161-171 | With `create`, it reaches the walk's target. It adds exactly the entered nodes that were missing, all fresh, and no existing node changes. |
| TreeNodes.GetNodeWithoutCreate | Formix.Inference.Core/TreeNode.cs:161-166 | Without `create`, it reaches the walk's target when every entered node exists, else null, and never changes the tree. |
| TreeNodes.ResolveAfterCreate | Formix.Inference.Core/TreeNode.cs:161-171 | After a creating resolution, a non-creating one finds the same node, and a second creating one changes nothing. |
| TreeNodes.BlankPathIsSelf | Formix.Inference.Core/TreeNode.cs:131-134 | An empty or whitespace-only path is the node itself and creates nothing. |
| TreeNodes.LeadingDotIsSelf | Formix.Inference.Core/TreeNode.cs:144-147 | "./rest" resolves exactly as "rest" from the same node. |
| TreeNodes.LeadingDotDotIsParent | Formix.Inference.Core/TreeNode.cs:149-158 | "../rest" is null at the root even when creating, and otherwise resolves "rest" from the parent. |
| TreeNodes.MissingChildIsNull | Formix.Inference.Core/TreeNode.cs:161-166 | A missing child without `create` gives null and leaves the tree unchanged. |
| TreeNodes.ChildThenParentCancels | Formix.Inference.Core/TreeNode.cs:149-171 | "h/../rest" leads where "rest" leads. |
| TreeNodes.SplitAllOfJoin | Formix.Inference.Core/TreeNode.cs:136 | Splitting u + "/" + w at every slash gives the parts of u followed by the parts of w. |
| TreeNodes.SegmentsOfSlashJoin | Formix.Inference.Core/TreeNode.cs:129-172 | The segments of u + "/" + w are every part of u followed by the segments of w. |
| TreeNodes.WalkAppend | Formix.Inference.Core/TreeNode.cs:129-172 | Resolving two runs of segments one after the other is resolving the second from where the first ends, and nowhere when the first leaves the tree. |
| TreeNodes.WalkNames | Formix.Inference.Core/TreeNode.cs:160-171 | Segments none of which is "." or ".." descend by exactly those names. |
| TreeNodes.Get | Formix.Inference.Core/TreeNode.cs:87-95 | The value of the node the trimmed path finds without creating; null when it finds none. |
| TreeNodes.Set | Formix.Inference.Core/TreeNode.cs:96-103 | Creates exactly the missing nodes on the trimmed path and stores the value where it leads. Every other value is unchanged, and created nodes hold null. No rule set changes. |
| TreeNodes.Store | Formix.Inference.Core/TreeNode.cs:99-102 | Only the found node's value changes; no node is added and no rule set changes. |
| TreeNodes.SetThenGet | Formix.Inference.Core/TreeNode.cs:85-104 | Reading a path right after writing it gives the value written, whenever the path stays inside the tree. |
| TreeNodes.SetElsewhere | Formix.Inference.Core/TreeNode.cs:85-104 | A write leaves what any path to a different existing node reads. |
| TreeNodes.SetAboveRootStoresNothing | Formix.Inference.Core/TreeNode.cs:96-103 | A path climbing above the root stores nothing and changes no existing node. |
| TreeNodes.SetTwoNames | Formix.Inference.Core.Tests/TreeNodeTests.cs:10-31 | Writing "/a/b" to a new tree stores the value in `b` under `a`, and reading "/a/b" gives it back. |
| TreeNodes.SetTwoNamesWithDot | Formix.Inference.Core.Tests/TreeNodeTests.cs:10-31 | "/a/./b/" writes the same node as "/a/b". |
| TreeNodes.SetThreeNamesWithDotDot | Formix.Inference.Core.Tests/TreeNodeTests.cs:34-39 | "/a/b/../c" writes `c` under `a`, the node "/a/c" addresses. |
| TreeNodes.SubscribeCompletes | Formix.Inference.Core/TreeNode.cs:111-118 | The subscription loop completes exactly when every path leads somewhere; otherwise a null dereference stops it. |
| TreeNodes.SubscribeKeys | Formix.Inference.Core/TreeNode.cs:113-115 | It creates only the nodes the walks enter, all of them when it completes. |
| TreeNodes.SubscribeKeepsValues | Formix.Inference.Core/TreeNode.cs:111-118 | No value changes; created nodes hold null. |
| TreeNodes.SubscribedAtEachTarget | Formix.Inference.Core/TreeNode.cs:113-117 | When the loop completes, the rule is in the rule set of the node each path leads to. |
| TreeNodes.SubscribeLeavesOthers | Formix.Inference.Core/TreeNode.cs:111-118 | A node no path leads to keeps its rule set. |
| TreeNodes.SubscribeKeepsRules | Formix.Inference.Core/TreeNode.cs:116 | Rule sets only grow, keeping their order. |
| TreeNodes.SubscribeAddsOnlyRule | Formix.Inference.Core/TreeNode.cs:116 | The only rule added anywhere is the one being subscribed. |
| TreeNodes.Subscribe | Formix.Inference.Core/TreeNode.cs:113-117 | The tree stays valid, and the only exception is the null dereference of a path that resolves to null. |
| TreeNodes.AddAt | Formix.Inference.Core/TreeNode.cs:116 | The node's rules become its old rules plus the rule, the old ones keeping their order, and no other node changes. |
| TreeNodes.SubscribeOne | Formix.Inference.Core/TreeNode.cs:113-117 | Subscribing one path that leads somewhere completes, creates exactly the nodes its walk enters, and puts the rule on the node it leads to. |
| TreeNodes.AddRuleAsWrittenSubscribes | Formix.Inference.Core/TreeNode.cs:111-118 | As written, each stored fact path is resolved untrimmed from the root and the rule lands on its node. The call completes exactly when every path leads somewhere. |
| TreeNodes.AddRuleAsWritten | Formix.Inference.Core/TreeNode.cs:111-118 | The tree stays valid, and the only exception is the null dereference of a stored fact path that resolves to null. |
| TreeNodes.AddRuleSubscribes | Formix.Inference.Core/TreeNode.cs:111-118 | Corrected: the rule lands on the node of each path its execution reads, trimmed as the indexers trim. The call completes exactly when all of them lead somewhere. |
| TreeNodes.AddRule | Formix.Inference.Core/TreeNode.cs:111-118 | The tree stays valid, and the only exception is the null dereference of a read path that resolves to null. |
| TreeNodes.AbsoluteFactPathAsWritten | Formix.Inference.Core/TreeNode.cs:113-116 | Untrimmed, the fact path "/n" subscribes the rule under the root's empty-named child, while writes of "/n" reach `n`, which is not even created. |
| TreeNodes.AbsoluteFactPathCorrected | Formix.Inference.Core/TreeNode.cs:113-116 | Resolving the read path subscribes the rule on `n`, the node writes of "/n" reach. |
| TreeNodes.RelativeFactPathWalk | Formix.Inference.Core/RuleInfo.cs:92-95 | A relative fact path leads where its attribute path leads from the node the rule path (without trailing slashes, split at every slash) leads to from the root. |
| TreeNodes.RootedPathMisplaced | Formix.Inference.Core/TreeNode.cs:111-118 | Any downward rooted path "/g" resolved verbatim lands under the empty-named child of the root; trimmed, as the indexers read it, it lands at g. The two nodes differ. |
| TreeNodes.UnrootedFactPathAgrees | Formix.Inference.Core/RuleInfo.cs:59-63 | For a rule at the root, a fact path with no slash at either end is read exactly at the path stored, so the verbatim and the trimmed subscriptions agree on it. |
| TreeNodes.RelativeFactPathAgrees | Formix.Inference.Core/RuleInfo.cs:92-95 | Under a rule path with text left once its trailing slashes are dropped, a relative fact path without a trailing slash is read exactly where it is stored. |
| TreeNodes.DotDotRootedChangesFailure | Formix.Inference.Core/TreeNode.cs:111-118 | The fact path "/../n" subscribes the rule to n verbatim, but leaves the tree once trimmed, so the trimmed subscription throws. |
| InferenceEngines.NewEngine | Formix.Inference.Core/InferenceEngine.cs:22-28 | A lone root, no rules, an empty agenda, and `MaxLoop` 100. |
| InferenceEngines.Get | Formix.Inference.Core/InferenceEngine.cs:52-59 | The engine's getter is the root node's indexer getter. |
| InferenceEngines.Set | Formix.Inference.Core/InferenceEngine.cs:61-72 | The setter keeps the registry and `MaxLoop`, only adds nodes, and keeps the old agenda in front. |
| InferenceEngines.Write | Formix.Inference.Core/InferenceEngine.cs:64-71 | Stores the value in the found node. A write that changes no value leaves the agenda alone; a changing one keeps the old agenda in front and adds exactly the node's subscribers. |
| InferenceEngines.GetFinds | Formix.Inference.Core/InferenceEngine.cs:52-59 | The getter gives the value of the node the trimmed path finds without creating, and null when it finds none. |
| InferenceEngines.SetWritesLikeNodeIndexer | Formix.Inference.Core/InferenceEngine.cs:61-72 | The engine's setter leaves the tree exactly as the node setter on the root does. |
| InferenceEngines.SetQueues | Formix.Inference.Core/InferenceEngine.cs:64-71 | A write that changes no value leaves the agenda alone. A changing write makes the agenda the old one plus the node's subscribers. |
| InferenceEngines.SetQueuesSubscribersInOrder | Formix.Inference.Core/InferenceEngine.cs:66-70 | The subscribers a changing write queues come after the old agenda, in subscription order. |
| InferenceEngines.SetSameValue | Formix.Inference.Core/InferenceEngine.cs:61-72 | Writing the value a node already holds changes no value and queues nothing; only missing nodes on the way are created. |
| InferenceEngines.SetIdempotent | Formix.Inference.Core/InferenceEngine.cs:61-72 | Writing the same value twice is the same as writing it once. |
| InferenceEngines.SetThenGet | Formix.Inference.Core/InferenceEngine.cs:50-73 | Reading a path right after writing it gives the value written, whenever the path stays inside the tree. |
| InferenceEngines.Register | Formix.Inference.Core/InferenceEngine.cs:89-91 | A null name throws before anything changes, and so does a duplicate name. A fresh name is registered, and only a null dereference in the subscription can follow. Registration never touches the agenda. |
| InferenceEngines.RegisterSubscribes | Formix.Inference.Core/InferenceEngine.cs:89-91 | A freshly named rule is subscribed to the node each of its paths leads to: the stored fact paths as written, the read paths when trimmed. Registration completes exactly when every such path leads somewhere, and no value changes. |
| InferenceEngines.RootedFactNotQueuedAsWritten | Formix.Inference.Core/InferenceEngine.cs:61-92 | As written, after registering a rule that reads "/n", writing a new value to "/n" does not queue it. |
| InferenceEngines.RootedFactQueuedTrimmed | Formix.Inference.Core/InferenceEngine.cs:61-92 | With the paths trimmed, the same write queues the rule. |
| InferenceEngines.Load | Formix.Inference.Core/InferenceEngine.cs:81-93 | Rules are registered in order, stopping at the first that throws. Only a null name, a duplicate name or a null dereference can throw. The registry only grows and the agenda is untouched. |
| InferenceEngines.LoadAsWrittenThrows | Formix.Inference.Core/InferenceEngine.cs:89-90 | As written, the first rule a model yields has a null name, so `Load` throws before anything is registered or subscribed. |
| InferenceEngines.RegisterByRuleName | Formix.Inference.Core/RuleInfo.cs:109-116 | Once the name is assigned, a rule is registered under the rule attribute's non-blank name or the method's name; a name already taken throws. |
| InferenceEngines.LoadIdsDistinct | Formix.Inference.Core/InferenceEngine.cs:87-92 | A completed load had no name twice. |
| InferenceEngines.LoadIdsNew | Formix.Inference.Core/InferenceEngine.cs:87-92 | In a completed load every rule had a name, and none was registered before. |
| InferenceEngines.LoadAddsIds | Formix.Inference.Core/InferenceEngine.cs:87-92 | After a completed load, a name is registered exactly when it was registered before or is the name of one of the rules. |
| InferenceEngines.LoadKeepsRegistered | Formix.Inference.Core/InferenceEngine.cs:87-92 | A completed load keeps the rules registered before it. |
| InferenceEngines.LoadMapsIds | Formix.Inference.Core/InferenceEngine.cs:87-92 | After a completed load, each rule's name maps to that rule. |
| InferenceEngines.ArgumentsReadReadPaths | Formix.Inference.Core/RuleInfo.cs:59-63 | A rule gets one argument per fact name. Argument i is the getter applied to root + "/" + name i, which is what the node indexer finds at the read path, where the trimmed subscription puts the rule. |
| InferenceEngines.ApplyFacts | Formix.Inference.Core/Fact.cs:7-10 | Each fact is written through the setter in order. The registry never changes, and the agenda and the tree only grow. |
| InferenceEngines.ApplyFactsCompletes | Formix.Inference.Core/Fact.cs:7-10 | Writing the facts back completes exactly when no fact's name is null. |
| InferenceEngines.Execute | Formix.Inference.Core/RuleInfo.cs:57-71 | A rule whose parameter count differs from its fact count throws on invocation, changing nothing. As written, nothing the rule returns reaches the engine, so execution completes exactly when the rule can be invoked. The registry never changes, and the agenda only grows. |
| InferenceEngines.ExecuteCompletes | Formix.Inference.Core/RuleInfo.cs:57-71 | With the facts applied, executing a rule completes exactly when it can be invoked and every name it returns is non-null. |
| InferenceEngines.ExecuteApplies | Formix.Inference.Core/RuleInfo.cs:57-71 | With the facts applied, executing an invocable rule is writing back the facts it returns for its gathered arguments. |
| InferenceEngines.Sweep | Formix.Inference.Core/InferenceEngine.cs:105-108 | The registry never changes, and the agenda only grows. As written, a sweep leaves the engine as it was. |
| InferenceEngines.SweepSingle | Formix.Inference.Core/InferenceEngine.cs:105-108 | A sweep of one rule is one execution of it. |
| InferenceEngines.SweepAppend | Formix.Inference.Core/InferenceEngine.cs:105-108 | Sweeping b1 + b2 sweeps b1 and then, unless that threw, b2 from the engine b1 left: the rules run in snapshot order, each seeing the writes of those before it, stopping at the first throw. |
| InferenceEngines.SweepDiscardCompletes | Formix.Inference.Core/InferenceEngine.cs:105-108 | As written, a sweep completes exactly when every rule of the snapshot can be invoked. |
| InferenceEngines.SweepOne | Formix.Inference.Core/InferenceEngine.cs:105-108 | With the facts applied, a sweep of one invocable rule writes back the facts it returns. |
| InferenceEngines.ApplyOne | Formix.Inference.Core/Fact.cs:7-10 | Writing back one named fact is one write through the engine's setter. |
| InferenceEngines.RunFrom | Formix.Inference.Core/InferenceEngine.cs:100-110 | An empty agenda or an exhausted loop count returns at once. Otherwise the first sweep runs the agenda's snapshot, and at most `maxLoop - loop` sweeps run. |
| InferenceEngines.RunFromStep | Formix.Inference.Core/InferenceEngine.cs:101-109 | With work left and sweeps to spare, a round sweeps the snapshot and, if that completes, continues the loop with the sweep count one higher. |
| InferenceEngines.RunFromSweepsNonEmpty | Formix.Inference.Core/InferenceEngine.cs:100-104 | No sweep runs an empty snapshot. |
| InferenceEngines.RunFromStops | Formix.Inference.Core/InferenceEngine.cs:100-110 | A run that ends normally leaves the agenda empty unless the loop count ran out. |
| InferenceEngines.Run | Formix.Inference.Core/InferenceEngine.cs:98-111 | An empty agenda returns at once and at most `MaxLoop` sweeps run. A run that ends normally leaves the agenda empty unless `MaxLoop` sweeps ran. |
| InferenceEngines.RunDiscardsRuleOutput | Formix.Inference.Core/RuleInfo.cs:65-70 | As written, a run sweeps the agenda once and changes no fact, whatever the rules return; it completes exactly when every queued rule can be invoked. |
| InferenceEngines.RunAppliesRuleOutput | Formix.Inference.Core/InferenceEngine.cs:98-111 | With facts applied, an invocable rule returning one fact for a path with no subscribers leaves that fact set after a one-sweep run. |

## Left out

- Reflection, replaced by plain inputs:
  - method discovery in `Load` (`GetMethods` and the `object` method filter);
  - `GetCustomAttribute`;
  - `MethodInfo.Invoke`.

  A rule is given by its method's name, its parameters' optional fact-attribute paths and an optional rule attribute. Its effect is a function parameter.
- `Load`'s `root` parameter: the method body never reads it, so it is absent.
- `GetModelName`: its result is never used, so the model name is absent. The call itself still runs in the constructor (RuleInfo.cs:76) and is covered by the next line.
- Null attribute strings: `RuleAttributes.WithPath` and `RuleInfos.NewRule` take only non-null strings. In C# a null string throws a `NullReferenceException` during rule construction, which aborts `Load`:
  - `[Rule(Path = null)]` in the path setter (RuleAttribute.cs:35);
  - `[Fact(null)]` when the fact path is built (RuleInfo.cs:92);
  - `[Model(null)]` in `GetModelName` (RuleInfo.cs:132).
- Rule identity: a C# `RuleInfo` is compared by reference in the agenda and the node rule sets, while the model's rule is a value compared by its contents. This changes nothing, because `Register` rejects null and duplicate names, so the registered rules are pairwise distinct values.
- The node name: the constructor assigns the `Name` property to itself, so every node's name is null. Nothing reads it, so nodes carry no name and their key serves as their identity.
- `AddRule` reads `rule.Facts`, which `RuleInfo` does not declare. The model reads the fact names, the only path list a rule has.
- Order of a node's rule set: the C# node uses a `HashSet`, whose enumeration order is unspecified. The model enumerates subscribers in subscription order, so the order `UnionWith` appends them to the agenda is one admissible order.
- InferenceEngines.Execute: the cast of the rule's return value to `object[]` is not modelled. A rule that returns null (a `void` method) would make the loop's `Length` read throw; here an effect always returns a sequence of facts. Of the ways `MethodInfo.Invoke` can reject its arguments, only a wrong argument count is modelled: an argument whose type does not match its parameter is left out, because values carry no parameter types here. Exceptions thrown by the rule itself are not modelled either.
- LinkedHashSets.SymmetricExceptWith: states only membership and that the surviving old items come first in their old order. The order of the appended items depends on `HashSet` enumeration, which is unspecified.
- `ArgumentNullException` checks on null arguments, `CopyTo` bounds, `IsReadOnly` and the capacity constructors of `LinkedHashSet`: the model has no null collections, and the others carry no logic.
- Boxed values: `Value` covers null, integers, strings and booleans. Floating-point values are left out.
- `StartsWith("/")` is culture-sensitive in .NET. It is modelled as a comparison of the first character, which agrees for every path without ignorable characters.
- The `MaxLoop` setter: `maxLoop` is a plain field of the engine state.
- The test model `WeightModel` and its floating-point conversions are left out.

## Findings

| source | as written | input that shows it | evidently intended | confidence | as-written member | corrected member |
|---|---|---|---|---|---|---|
| Formix.Inference.Core/Fact.cs:43-53 | The loop runs while `i < Length` and reads `pairs[i + 1]`, so an odd-length array reads past its end. | `["a", 1, "b"]` (`Facts.CombineOddLengthThrows`) | The trailing element is ignored, giving one fact ("a", 1), as the method's documentation says. | high; not executed | Facts.CombineAsWritten | Facts.Combine |
| Formix.Inference.Core/RuleInfo.cs:65-70 | The loop over the rule's returned name/value pairs has an empty body, so no rule ever changes a fact. | An agenda of one rule returning one fact for a path with no subscribers (`InferenceEngines.RunDiscardsRuleOutput`). | Returned facts are written through the engine setter, as the `Fact` class documents. | medium (unfinished code); not executed | InferenceEngines.RunDiscardsRuleOutput | InferenceEngines.RunAppliesRuleOutput |
| Formix.Inference.Core/TreeNode.cs:111-118 | `AddRule` resolves each fact path untrimmed. An absolute fact path "/n" subscribes the rule under a child of the root named "". Under a bare rule attribute every relative fact path is rooted too (`RuleInfos.BareRuleRootsFactPaths`). | A rule at the root reading "/n" (`TreeNodes.AbsoluteFactPathAsWritten`); after loading it, writing "/n" does not queue it (`InferenceEngines.RootedFactNotQueuedAsWritten`). | The rule is subscribed to `n`, the node the engine's setter writes for "/n" and the getter reads it from (`InferenceEngines.RootedFactQueuedTrimmed`). Trimming also changes which paths fail: "/../n" subscribes verbatim but leaves the tree once trimmed (`TreeNodes.DotDotRootedChangesFailure`). | high; not executed | TreeNodes.AbsoluteFactPathAsWritten | TreeNodes.AbsoluteFactPathCorrected |
| Formix.Inference.Core/RuleInfo.cs:18-29 | The constructor never assigns `Name`; `GetRulePath` computes the name into a local and drops it. `Load` then adds every rule to the registry under the null key. | Any model with one public method (`InferenceEngines.LoadAsWrittenThrows`): `Dictionary.Add` throws `ArgumentNullException` before the rule is subscribed. | The rule is registered under its rule attribute's non-blank name or its method's name (`RuleInfos.RuleName`, `InferenceEngines.RegisterByRuleName`). | high; not executed | InferenceEngines.LoadAsWrittenThrows | RuleInfos.NewRule |
| Formix.Inference.Core/LinkedHashSet.cs:90-110 | `IsProperSubsetOf` counts `other`'s items with repetition. | {1, 2} against [1, 1, 3] (`LinkedHashSets.ProperSubsetOfCountsRepeats`) | Strict set inclusion, as `ISet` documents. | high; not executed | LinkedHashSets.IsProperSubsetOf | LinkedHashSets.IsProperSubsetOfSet |
| Formix.Inference.Core/LinkedHashSet.cs:112-137 | `IsProperSupersetOf` compares against `other`'s count with repetition, so it wrongly rejects a strict subset written with repeats. It never wrongly accepts. | {1, 2, 3} against [1, 1] (`LinkedHashSets.ProperSupersetOfCountsRepeats`) | Strict set inclusion, as `ISet` documents. | high; not executed | LinkedHashSets.IsProperSupersetOf | LinkedHashSets.IsProperSupersetOfSet |
| Formix.Inference.Core/LinkedHashSet.cs:187-199 | `SetEquals` compares sizes against `other`'s count with repetition. | {1, 2} against [1, 1] (`LinkedHashSets.SetEqualsCountsRepeats`) | Set equality, as `ISet` documents. | high; not executed | LinkedHashSets.SetEquals | LinkedHashSets.SetEqualsSet |

`Register`, and so `Load`, take a `Subscription` mode: `Untrimmed` is `AddRule` as written, `Trimmed` the corrected one. `RuleInfos.NewRule` is the corrected constructor and `NewRuleAsWritten` the one as written. `Run`'s `Apply` mode uses the corrected write-back.
