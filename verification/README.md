# A verified model of PAPA's rule engine and analysis core

PAPA compiles capa rules, runs them bottom-up over a program, and takes shortcuts on the way
that must not change the answer. Underneath, it recovers functions and basic blocks from bytes,
emulates instructions, searches signature trees, hashes, lays out tables and writes JSON. The
modules here model that code branch by branch and prove that the shortcuts are harmless and
that the recovery, arithmetic and text layers do exactly what they are for.

Every part has a reference meaning written independently of the algorithm (a predicate over
trees, a path in a graph, a grammar, a padded message) and a theorem for all inputs connecting
the two. Where the original updates state in place the model is a class or a loop with the same
fields and the same order of updates; where it is pure recursion the model is a function.

How the modules fit together:

- **Rules.** `Features`, `Engine`, `Rules` and `Optimizer` hold feature sets, statement trees,
  their three evaluators and the cost-sorted reordering. `Subscopes` compiles nested scopes
  away, `BottomUp` says what a unit's run leaves, and `Readings` gives trees as their authors
  wrote them a meaning of their own. `Matching`, `Fixpoint` and `Guards` treat the one-pass
  matcher, `FeatureIndex` the candidate index, `Graphs`, `TopologicalOrder` and `FunctionLoops` the two
  Kahn peels. `RuleSets` is the build pipeline, `StaticCapabilities` the run over a program;
  `BuiltPasses`, `BuiltCorpus`, `FileScopeSet` and `WholeRun` join them end to end.
  `LimitationGate` is the cheap file pass and `Workers` the threads. `RegexPrefilter` is the
  literal filter, proved against a match semantics for the pattern grammar of section 15.10 of
  ECMA-262, 3rd edition.
- **Code discovery.** `Locations` (locations and cross-references), `CodeBlocks` (the block walk
  and its registration), `Discovery` (the driver's callbacks), `FlowHistory` (what a history of
  callbacks leaves in the stores), `FlowAccount` (what every event of a run gives rise to, and
  what it needs to have gone before it), `FlowProgress` (stretches of a run) and `CodeFlow` (the
  re-entrant engine).
- **Support.** `TextLines`, `ColumnWidths`, `Wrapping`, `TableRows` (tables); `WideArithmetic`,
  `EmulatorMemory`, `WorkQueue` (emulator); `ByteCursor`, `Flirt`, `FlirtReader`, `FlirtWriter`
  (signatures); `StreamingHash` (digests); `JsonText`, `JsonLayout`, `JsonWriter` (JSON); `Sorting`
  (what the library's stable sort computes); `Arithmetic`, `ByteOrder`, `Decimals` and `Sequences`
  (shared small facts).

Opaque inputs are parameters: the regex engine is any relation between a pattern and a string,
the disassembler any reader of non-empty instructions inside the address space, extractors are
the features they return, a compression function or checksum is any function. Whatever is
stateful and out of sight (the jump-table resolver, the no-return oracle, a watcher that may
stop an emulation) answers nondeterministically, so the theorems cover every answer it could
give.

Two statements about the code that are easily taken for granted are false, and the model says
where they fail. A run need not record what is true: it does when references are guarded, that
is, no rule refers to itself and no referenced name is both a rule and a namespace
(`BuiltPasses.ScopePassIsFixpoint`, `WholeRun.WholeVerdict`), and it need not otherwise
(`Fixpoint.SelfNegationHasNoModel` and `BuiltPasses.AmbiguousReferenceBreaks` give failing
corpora, the second with the order the sort yields for it). Putting producers first is the
exact condition on the references of a list (`Guards.GuardIsExact`). Where instructions are disjoint and
edges lead to instruction starts, the blocks of a function are disjoint exactly when none of
them flows into the function's own entry, which an edge to the entry rules out
(`CodeBlocks.BlocksAreDisjoint`, `CodeBlocks.EdgeToEntry`; `CodeBlocks.EntryWithoutEdge` gives
two blocks that overlap).

## Model

| member | source | states |
|---|---|---|
| `Features.FeatureSet.Add` | src/features/feature.cpp:53-66 | the entry gains the address, every other entry is untouched, and the string and bytes indices still list exactly the keys of their kind, each once |
| `Features.FeatureSet.AddAll` | src/features/feature.cpp:68-74 | a batch is added pair by pair, keeping the indices exact |
| `Features.FeatureSet.MergeIn` | src/features/feature.cpp:76-89 | in any visiting order the result is the key-by-key union of places, keeping the indices exact |
| `Features.AddedAllPlaces` | src/features/feature.cpp:68-74 | a key is present afterwards exactly if it was before or occurs in the batch, and its places are exactly the old ones and the batch's |
| `Engine.MatchesQuick` | src/features/common.cpp:75-81 | the scanning, prefix, wildcard and lookup paths each answer whether some entry of the set satisfies the feature |
| `Engine.EvaluateFeature` | src/features/common.cpp:57-73 | the result-building form has the same verdict; without short circuit it reports exactly the places of all satisfying entries, with it a subset |
| `Engine.Evaluate` | src/engine.cpp:21-162 | on any subscope-free tree, short-circuit or full, success is the reference meaning; full evaluation gives the complete result tree, short circuit only drops places |
| `Engine.EvaluateAnd` | src/engine.cpp:21-51 | conjunction in both modes, with places only on success |
| `Engine.EvaluateSome` | src/engine.cpp:108-133 | counting in both modes, with the optional idiom always true |
| `Engine.EvaluateQuick` | src/engine.cpp:241-290 | the probe pass has the same verdict as evaluation, without building a result |
| `Engine.HoldCountPositive` | src/engine.cpp:58-76 | some child holds exactly when the number that hold is positive, so Or and a one-of-n agree |
| `Optimizer.OptimizeKeepsMeaning` | src/rules/optimizer.cpp:75-102 | reordering changes neither the verdict nor the full set of places, for every tree and feature set |
| `Optimizer.OptimizeSorts` | src/rules/optimizer.cpp:75-90 | the children come out in ascending cost, as a permutation, equal costs in source order |
| `Optimizer.OptimizedNode` | src/rules/optimizer.cpp:75-102 | the same of the node as reordered: its kind and count are kept, its children come out cheapest first, a negation is looked through and everything else is left alone |
| `Optimizer.OptimizeKeepsShape` | src/rules/optimizer.cpp:75-102 | the names a tree refers to and its freedom from subscopes survive reordering |
| `Optimizer.FeaturesByClass` | src/rules/optimizer.cpp:16-90 | among the features of a reordered node those of the whole sample come first and those decided by a scan last |
| `Optimizer.CostOrder` | src/rules/optimizer.cpp:16-45 | global features cost less than lookups and lookups less than scans, and nothing else differs in cost |
| `Optimizer.CompoundCost` | src/rules/optimizer.cpp:49-72 | a compound costs one more than its children together, hence more than any of them |
| `Rules.Hierarchy` | src/rules/rule.cpp:49-62 | the trimmed prefixes of a namespace are exactly the non-empty ones that enclose it at a slash boundary |
| `Rules.HierarchyOrder` | src/rules/rule.cpp:49-62 | they come specific before general, hence without repeats |
| `Rules.NamespaceHierarchy` | src/rules/rule.cpp:49-62 | the truncating loop yields that list, and nothing for an absent or empty namespace |
| `Rules.CollectMatchRefs` | src/engine.cpp:210-236 | appends the match: names of a tree in pre-order and nothing from inside a subscope |
| `Matching.IndexRuleMatches` | src/engine.cpp:191-208 | announces the rule's name and every enclosing namespace at every address, and nothing when there is no address |
| `Matching.MatchRules` | src/engine.cpp:293-315 | the loop's final feature set and result table are those of trying each rule in order against the set so far |
| `Matching.HoldsFrame` | src/engine.cpp:293-315 | a verdict depends only on the base features and on the names the tree refers to |
| `Fixpoint.FiresIsFinal` | src/engine.cpp:293-315 | once nothing that a rule refers to is still to be announced, the rule matches exactly when it holds on the final set, with negation and counting |
| `Fixpoint.UniqueModel` | src/engine.cpp:293-315 | the final set is the one and only feature set that adds exactly the announcements of the rules true in it |
| `Fixpoint.OrderIrrelevant` | src/engine.cpp:293-315 | two orders that respect the references end in the same set and match the same rules |
| `Fixpoint.SameTables` | src/engine.cpp:293-315 | they record equal tables as well, result trees and places included |
| `Fixpoint.RecordedIffHolds` | src/engine.cpp:293-315 | a rule is recorded if and only if its tree is true on the final feature set, and what is recorded is the whole result of evaluating it there |
| `Fixpoint.SelfNegationHasNoModel` | src/engine.cpp:293-315 | a rule that negates itself is recorded although false at the end, and no feature set at all is a model |
| `Guards.GuardIsExact` | src/engine.cpp:293-315 | producers come first if and only if every list of rules with these names and references, over every starting set, records exactly what is true at its end |
| `Guards.UnguardedBreaks` | src/engine.cpp:293-315 | where a rule refers to a name that it or a later rule announces, there are subscope-free trees with the very same references for which a run from nothing records that rule although it is false at the end |
| `BuiltPasses.ScopePassIsFixpoint` | src/rules/ruleset.cpp:241-312 | in a built corpus with guarded references every scope's pass records exactly what is true at its end and ends in the unique model |
| `BuiltPasses.AmbiguousReferenceBreaks` | src/rules/ruleset.cpp:267-273 | a name that is both a rule and a namespace resolves to the rule alone: here is a corpus that builds, with its indexes and the order the sort gives it, in which a recorded rule is false at the end |
| `FeatureIndex.ComputeNeed` | src/rules/feature_index.cpp:126-169 | the recursion with its running best and running union computes the required features and their score |
| `FeatureIndex.NeedIsNecessary` | src/rules/feature_index.cpp:126-169 | a tree that holds has one of its required features in the set, and each of them is decided by a lookup |
| `FeatureIndex.IndexableIs` | src/rules/feature_index.cpp:23-55 | a feature can be a key of the index exactly if in every set it matches when and only when present, and it is neither the architecture nor a match feature |
| `FeatureIndex.NeedIsFound` | src/rules/feature_index.cpp:126-169 | a tree is indexed exactly if something is required of it: some child of an And, every child of a choice, a count from one up |
| `FeatureIndex.EitherTakesAll` | src/rules/feature_index.cpp:149-161 | a choice requires what each of its children requires, and is no more selective than any of them |
| `FeatureIndex.EitherTakesNoMore` | src/rules/feature_index.cpp:149-161 | it requires nothing that no child does, and its score is that of one of them |
| `FeatureIndex.AndTakesMostSelective` | src/rules/feature_index.cpp:136-148 | an And is indexed by its highest-scoring constrained child, ties going to fewer features |
| `FeatureIndex.ScoreOrder` | src/rules/feature_index.cpp:59-107 | from strings through APIs, exports and rare numbers down to mnemonics, blocks and formats, each kind is ranked by how selective it is |
| `FeatureIndex.RuleFeatureIndex.Build` | src/rules/feature_index.cpp:173-187 | afterwards the postings list exactly the rules that need each feature, and the rest always run |
| `FeatureIndex.RuleFeatureIndex.Select` | src/rules/feature_index.cpp:189-208 | yields exactly the candidates, in the order given to Build |
| `FeatureIndex.NonCandidateNeverHolds` | src/rules/feature_index.cpp:189-208 | a rule that is no candidate for the initial set holds at no later point of the run either |
| `FeatureIndex.SelectLosesNothing` | src/rules/ruleset.cpp:127-139 | matching only the candidates gives the same results and final set as matching every rule, although match features are injected after selection |
| `Subscopes.ExtractSubscopesIn` | src/rules/ruleset.cpp:40-79 | the counter-threading walk produces the rewritten tree and the spawned rules of the recursive specification |
| `Subscopes.ExtractSubscopeRules` | src/rules/ruleset.cpp:173-191 | rewrites every input rule in place and appends the spawned ones |
| `Subscopes.ExtractIsSubscopeFree` | src/rules/ruleset.cpp:40-79 | no subscope is left in the rewritten tree or in any spawned rule |
| `Subscopes.SpawnedNamesDistinct` | src/rules/ruleset.cpp:48-58 | all rules spawned from one tree have different names, at every nesting depth |
| `BottomUp.StartMatches` | src/capabilities/static_.cpp:158-184 | a match feature is in a unit's starting set exactly when it was announced at a unit strictly inside |
| `BottomUp.StartHolds` | src/capabilities/static_.cpp:141-216 | any other feature is in a unit's starting set at an address exactly when the unit, the shared features or a unit inside it gives it there |
| `Readings.MeansFrame` | src/rules/ruleset.cpp:40-79 | the meaning of a tree as written depends only on what is announced, inside and here, of the names it mentions |
| `Readings.ExtractKeepsMeaning` | src/rules/ruleset.cpp:40-79 | wherever a bottom-up run is reflected in the feature set, the rewritten tree holds exactly when the tree as written, subscopes, negations, counts and hand-written references included, means so |
| `Readings.SpawnMeans` | src/capabilities/static_.cpp:141-216 | a spawned rule announces its name exactly at the units of its scope where the subscope it came from is answered and means so |
| `Readings.CompiledRuleFires` | src/capabilities/static_.cpp:141-216 | a compiled rule that is settled in its scope's list matches exactly where its tree as written means so |
| `BuiltCorpus.Listed` | src/rules/ruleset.cpp:142-171 | after the build a compiled rule is tried at its scope exactly when every reference in it is answered, and nothing else is tried |
| `BuiltCorpus.SpawnedPlaced` | src/rules/ruleset.cpp:142-171 | a spawned rule is tried at its own scope unless a reference in it is unanswered, and nothing else answers to its name at any scope |
| `BuiltCorpus.GuardedWellOrdered` | src/rules/ruleset.cpp:241-312 | in a corpus guarded as its authors wrote it, the order of every scope, synthetic rules included, puts producers first |
| `Graphs.PeelStep` | src/features/extractors/papa_native/function.cpp:38-46 | taking a ready node and subtracting its edges keeps the peeling invariant, multi-edges counted |
| `Graphs.PeelEnd` | src/features/extractors/papa_native/function.cpp:38-47 | when nothing is ready, everything was peeled if and only if the graph has no cycle |
| `Graphs.StuckHasCycle` | src/features/extractors/papa_native/function.cpp:38-47 | if every remaining node has a remaining predecessor, there is a closed walk |
| `FunctionLoops.FindCycle` | src/features/extractors/papa_native/function.cpp:29-48 | the peel answers true exactly when the successor multigraph has a cycle |
| `FunctionLoops.ExtractLoop` | src/features/extractors/papa_native/function.cpp:52-76 | a function is marked as looping exactly when following successors between distinct blocks can come back; duplicate starts, foreign targets and self-loops as in the code |
| `TopologicalOrder.SortGroup` | src/rules/ruleset.cpp:251-311 | returns every rule of the scope once, each resolved same-scope dependency first and always the least ready name next, or reports a cycle exactly when the dependencies have one |
| `TopologicalOrder.CycleOfRules` | src/rules/ruleset.cpp:258-282 | the built successor graph has a cycle exactly when the rules' resolved dependencies do |
| `TopologicalOrder.WholeOrder` | src/rules/ruleset.cpp:293-309 | an order that leaves nothing out places every rule of the group exactly once |
| `TopologicalOrder.DependenciesFirstIsWellOrdered` | src/rules/ruleset.cpp:262-282 | with references guarded, dependencies first means every producer of a referenced name comes first |
| `RuleSets.RuleSet.IndexRules` | src/rules/ruleset.cpp:193-215 | succeeds exactly on non-empty distinct names, and then the indexes answer for exactly the rules and the namespaces above them |
| `RuleSets.RuleSet.ValidateDependencies` | src/rules/ruleset.cpp:217-239 | keeps, in one pass, exactly the rules all of whose references answered before the pass, and re-indexes |
| `RuleSets.RuleSet.TopologicallySort` | src/rules/ruleset.cpp:241-313 | succeeds exactly when no scope's dependencies run in a circle, and then orders every scope |
| `RuleSets.RuleSet.Build` | src/rules/ruleset.cpp:155-170 | the steps after extraction succeed exactly on a buildable corpus |
| `RuleSets.FromRules` | src/rules/ruleset.cpp:142-171 | a corpus is refused exactly when a name is empty or repeated or a scope is cyclic; otherwise the result holds exactly the surviving compiled rules |
| `RuleSets.RuleSet.Match` | src/rules/ruleset.cpp:127-139 | through the feature index, the outcome is that of matching every rule of the scope in order |
| `RuleSets.ResolvesByIndex` | src/rules/ruleset.cpp:226-229 | a name is in one of the indexes exactly when some rule answers to it |
| `StaticCapabilities.MergeInto` | src/capabilities/static_.cpp:113-122 | appends every entry list of the source to the destination's, in any visiting order |
| `StaticCapabilities.InjectMatchFeatures` | src/capabilities/static_.cpp:126-137 | announces every known recorded rule at every address it matched at, and nothing else |
| `StaticCapabilities.FindInstructionCapabilities` | src/capabilities/static_.cpp:141-155 | the instruction pass yields the unit's final set and its match table |
| `StaticCapabilities.FindBasicBlockCapabilities` | src/capabilities/static_.cpp:158-184 | the block pass starts from the merged instruction sets and keeps the instruction tables |
| `StaticCapabilities.FindCodeCapabilities` | src/capabilities/static_.cpp:187-216 | the function pass starts from the merged block sets and keeps all inner tables |
| `StaticCapabilities.Reduce` | src/capabilities/static_.cpp:258-269 | the ordered reduction lists library functions, feature counts and merged tables in function order |
| `StaticCapabilities.ReductionIs` | src/capabilities/static_.cpp:258-269 | reducing the slots gives exactly the matches of the functions that are not library code |
| `StaticCapabilities.FindStaticCapabilities` | src/capabilities/static_.cpp:221-290 | the whole run equals its specification: every function, the reduction, the injections, the file pass and the four merges |
| `FileScopeSet.FileStartIs` | src/capabilities/static_.cpp:271-277 | the file pass starts from the file's own features and every match feature exactly where a unit of an analysed function announced it |
| `FileScopeSet.FileBaseHolds` | src/capabilities/common.cpp:81-95 | any other feature is in the file's starting set at an address exactly when the file, the shared features or a unit of an analysed function gives it there |
| `FileScopeSet.RecordedIn` | src/capabilities/static_.cpp:279-287 | the run records a name exactly when the file pass or some unit of an analysed function does |
| `WholeRun.UnitVerdict` | src/capabilities/static_.cpp:141-216 | for every rule of a guarded corpus, and every rule without `match:` of its own: it is recorded on a unit exactly when the unit is of its scope, the rule is answered, and the tree its author wrote means so there |
| `WholeRun.FileVerdict` | src/capabilities/static_.cpp:271-281 | the same for the file pass, where the tree sees the file's own features and every unit of every analysed function |
| `WholeRun.SelfContainedVerdict` | src/capabilities/static_.cpp:221-290 | a rule without `match:` of its own is recorded exactly when its tree means so somewhere, whatever else the corpus holds |
| `WholeRun.RunIsAccount` | src/capabilities/static_.cpp:221-290 | what a run announces at every unit and at the file is exactly what is true there, as written |
| `WholeRun.AccountIsUnique` | src/capabilities/static_.cpp:221-290 | a program has only one such account, which mentions no order, list or synthetic rule |
| `WholeRun.WholeVerdict` | src/capabilities/static_.cpp:221-290 | in a guarded corpus a run over a program records a rule exactly when the tree its author wrote is answered and true somewhere by the one account of the program: nesting, negation, counting and hand-written references included |
| `WholeRun.BuildAndRun` | src/capabilities/static_.cpp:221-290 | building and running as one call: refused exactly when not buildable, and otherwise the table records exactly what is true: of every rule of a guarded corpus, and of every rule without `match:` of its own in any corpus |
| `LimitationGate.NamespaceStartsWith` | src/capabilities/common.cpp:27-34 | true for the prefix itself and whatever lies below it at a slash, and for nothing else |
| `LimitationGate.Close` | src/capabilities/common.cpp:51-69 | the walk returns a set closed under name and namespace references that holds the seeds and lies in every such set |
| `LimitationGate.LimitationGateRules` | src/capabilities/common.cpp:38-79 | yields the closure's file-scope rules in the scope's own order |
| `LimitationGate.GateTable` | src/capabilities/common.cpp:118-137 | running only the closure gives each of its rules the very result, tree and places, of the whole file-scope run |
| `LimitationGate.GateDecides` | src/capabilities/common.cpp:97-149 | the limitation verdict of the gate equals that of the full file pass, for any indexed corpus and starting set |
| `LimitationGate.HasStaticLimitation` | src/capabilities/common.cpp:139-149 | true exactly when some recorded rule is known and in the limitation namespace |
| `LimitationGate.FindLimitationCapabilities` | src/capabilities/common.cpp:118-137 | the gate pass decides as the full pass and records each closure rule alike |
| `LimitationGate.FindFileCapabilities` | src/capabilities/common.cpp:97-116 | the full file pass, from the same starting set |
| `Workers.ResolveWorkerCount` | src/capabilities/static_.cpp:59-72 | at least one worker, never more than requested, and more than one only with at least 24 functions for each |
| `Workers.MostWorkers` | src/capabilities/static_.cpp:59-72 | no larger count within the request, or the hardware if none was made, leaves every worker 24 functions |
| `Workers.AtMostOnce` | src/capabilities/static_.cpp:76-109 | under every schedule no index is run twice and none outside the range is run |
| `Workers.ExactlyOnce` | src/capabilities/static_.cpp:76-109 | when no body throws and all workers finish, each index ran exactly once and its slot holds its body's value |
| `Workers.ReportsErrors` | src/capabilities/static_.cpp:92-95 | an error is reported exactly when some body that was begun threw |
| `Workers.SchedulesEnd` | src/capabilities/static_.cpp:83-96 | no schedule keeps the workers busy for more than three steps an index and one a worker |
| `Workers.ParallelAggregate` | src/capabilities/static_.cpp:241-269 | whatever the worker count and schedule, the reduction gives the aggregate of the single-threaded run |
| `RegexPrefilter.FindClassEnd` | src/util/regex_prefilter.cpp:26-38 | the index loop finds the end of a class that the suffix recursion describes, or gives up with it |
| `RegexPrefilter.FindBracketEnd` | src/util/regex_prefilter.cpp:42-59 | the same for groups, with nesting, escapes and classes inside them |
| `RegexPrefilter.RequiredLiteral` | src/util/regex_prefilter.cpp:97-137 | the scanner's run, best and break-out logic computes the literal of the suffix recursion |
| `RegexPrefilter.AtomToken` | src/util/regex_prefilter.cpp:97-137 | at top level the text of every grammatical atom is read as that atom, unless it is an unescaped closing bracket or brace, an unknown escape, or holds a class that cannot be delimited: then, and only then, the scanner gives up |
| `RegexPrefilter.RepeatToken` | src/util/regex_prefilter.cpp:69-93 | every quantifier is read as what it means: present or not, and whether the atom may be left out |
| `RegexPrefilter.BarGivesUp` | src/util/regex_prefilter.cpp:97-137 | a top-level alternative means no literal is required |
| `RegexPrefilter.PrefilterSound` | src/util/regex_prefilter.cpp:97-144 | for every grammatical pattern and haystack: if it matches anywhere, with groups, classes and anchors meaning anything at all, the required literal occurs |
| `RegexPrefilter.RequiredIs` | src/util/regex_prefilter.cpp:97-137 | a literal is found exactly when every atom can be read, and it is then the longest run of literals the terms ask for |
| `RegexPrefilter.NoLongerStretch` | src/util/regex_prefilter.cpp:97-137 | no stretch of terms that a match must have one after the other is longer than the literal found |
| `RegexPrefilter.PlainIsItself` | src/util/regex_prefilter.cpp:97-137 | a pattern of plain printable characters requires itself, folded when case is ignored |
| `RegexPrefilter.RegexMatches` | src/features/common.cpp:122-130 | the filtered scan over the strings answers as the unfiltered one, and an uncompiled pattern matches nothing |
| `RegexPrefilter.FilterIsExact` | src/features/common.cpp:102-130 | skipping a string without the literal never skips a match |
| `Locations.Floor` | src/features/extractors/papa_native/viv/location_db.cpp:9-21 | the greatest start not past an address |
| `Locations.PutOnlyAdds` | src/features/extractors/papa_native/viv/location_db.cpp:5-21 | defining a range at an undefined address defines it up to the next start and undefines nothing |
| `Locations.LocationDb.AddLocation` | src/features/extractors/papa_native/viv/location_db.cpp:5-7 | the location is filed under its start, replacing one already there |
| `Locations.LocationDb.IsLocation` | src/features/extractors/papa_native/viv/location_db.cpp:23-26 | true exactly for the start of a non-empty location |
| `Locations.XrefDb.AddCodeXref` | src/features/extractors/papa_native/viv/xref_db.cpp:5-16 | one edge per pair whose flags accumulate, nothing else changes, and the target set stays exact |
| `CodeBlocks.WalkBlock` | src/features/extractors/papa_native/viv/codeblocks.cpp:55-102 | one walk reports the block's size, its end marker if it has one, and the starts it asks for |
| `CodeBlocks.FindStarts` | src/features/extractors/papa_native/viv/codeblocks.cpp:38-103 | the visited starts are the least set that holds the entry and everything the walks ask for |
| `CodeBlocks.AnalyzeFunction` | src/features/extractors/papa_native/viv/codeblocks.cpp:33-127 | every non-empty block of a reached start is registered once, in strictly ascending order, and nothing else changes in the store |
| `CodeBlocks.LastIsEmpty` | src/features/extractors/papa_native/viv/codeblocks.cpp:106-120 | the early break at a trailing begin marker only ever drops an empty block |
| `CodeBlocks.BlockIsMaximalRun` | src/features/extractors/papa_native/viv/codeblocks.cpp:55-102 | a block is a maximal run of instructions tiling it, and no boundary inside it has an inbound code edge |
| `CodeBlocks.BlockSizeIs` | src/features/extractors/papa_native/viv/codeblocks.cpp:55-102 | from the edges' own flags: inside a block every edge but the last instruction's is a call's or an indirect one, and it ends exactly where execution does not fall through, branches, would meet an edge target or finds no instruction |
| `CodeBlocks.AsksAre` | src/features/extractors/papa_native/viv/codeblocks.cpp:70-94 | a walk asks for exactly the targets of edges that are neither a call's nor indirect, and for what a block that ends by falling through runs into |
| `CodeBlocks.ReachIsLeast` | src/features/extractors/papa_native/viv/codeblocks.cpp:38-103 | the starts found are the least set with the entry and all that these edges lead to |
| `CodeBlocks.RegisteredAre` | src/features/extractors/papa_native/viv/codeblocks.cpp:38-127 | a block is registered exactly if such a path of blocks leads to its start, with the size these flags give it |
| `CodeBlocks.BlocksAreDisjoint` | src/features/extractors/papa_native/viv/codeblocks.cpp:33-127 | with disjoint instructions, and edges and entry on instruction starts only, the blocks of a function are pairwise disjoint if and only if none of them flows into the entry |
| `CodeBlocks.EdgeToEntry` | src/features/extractors/papa_native/viv/codeblocks.cpp:96-101 | an inbound code edge to the entry is enough for that: no block flows past an edge target |
| `CodeBlocks.EntryWithoutEdge` | src/features/extractors/papa_native/viv/codeblocks.cpp:33-127 | an entry without one, reached by a jump back and a fall-through, is recovered with two overlapping blocks |
| `CodeBlocks.CodeBlockStore.AddCodeBlock` | src/features/extractors/papa_native/viv/codeblocks.cpp:11-16 | appended to its function's list; the last writer owns the start |
| `Discovery.Driver.OnOpcode` | src/features/extractors/papa_native/viv/discovery.cpp:79-92 | defines the instruction, notes a missing fall-through, and records every targeted edge but the fall-through |
| `Discovery.Driver.OnFunction` | src/features/extractors/papa_native/viv/discovery.cpp:94-103 | a first report lists the function and recovers its blocks from exactly what the stores hold then; a repeated one changes nothing |
| `Discovery.Driver.IsDefined` | src/features/extractors/papa_native/viv/discovery.cpp:71-73 | true exactly inside some location |
| `FlowHistory.SaneDecoded` | src/features/extractors/papa_native/viv/discovery.cpp:79-92 | an instruction extends the history so that it still accounts for every location, edge and missing fall-through held, nothing is decoded twice, and earlier recoveries keep the stores they saw |
| `FlowHistory.SaneReported` | src/features/extractors/papa_native/viv/discovery.cpp:94-103 | so does a report, which pins the stores its function is recovered from |
| `FlowHistory.BranchesAre` | src/features/extractors/papa_native/viv/cf_context.cpp:13-36 | the edges of an instruction are its fall-through, first, and its call, jump or indirect edge, each exactly when its kind has one; a return has none |
| `FlowHistory.EdgeIs` | src/features/extractors/papa_native/viv/discovery.cpp:79-92 | there is a cross-reference exactly where an instruction's edge other than its fall-through or a case of a table gives one, with exactly the flags it was ever recorded with |
| `CodeFlow.CodeFlowContext.ReportFunction` | src/features/extractors/papa_native/viv/cf_context.cpp:85-115 | reports the function and, one level deep, exactly those whose only wait it was; the wait indices stay mutual inverses |
| `CodeFlow.CodeFlowContext.Fire` | src/features/extractors/papa_native/viv/cf_context.cpp:85-113 | the function callback runs only for a function with no outstanding wait |
| `CodeFlow.CodeFlowContext.Decode` | src/features/extractors/papa_native/viv/cf_context.cpp:196-210 | the instruction callback runs only for an undefined address, which is then defined |
| `CodeFlow.CodeFlowContext.AddEntryPoint` | src/features/extractors/papa_native/viv/cf_context.cpp:117-134 | the call ends, restores the active path, undefines nothing, leaves every function it entered reported or held by a wait, and leaves open nothing of what it began; the function was entered, unless there are too many |
| `CodeFlow.CodeFlowContext.AddCodeFlow` | src/features/extractors/papa_native/viv/cf_context.cpp:136-298 | the flow restores the path it pushed, which never repeats an address nor exceeds 512, keeps both wait indices inverse, follows every edge it found, and leaves blocked only what is being flowed or was reported |
| `CodeFlow.CodeFlowContext.FlowFrom` | src/features/extractors/papa_native/viv/cf_context.cpp:182-272 | the entry is decoded if it can be, and no edge is left open: the queue was worked off or the flow hit its limit; whatever a flow defers, it first decoded something |
| `CodeFlow.CodeFlowContext.FollowBranch` | src/features/extractors/papa_native/viv/cf_context.cpp:212-271 | each edge is followed: a callee entered or deferred, a jump into an unfinished ancestor made to wait, any other target queued unless it was visited, suppressed or is not executable; all invariants are kept |
| `CodeFlow.CodeFlowContext.FollowInsn` | src/features/extractors/papa_native/viv/cf_context.cpp:196-271 | once an instruction is flowed, each of its edges and each case of its table was followed, or its target is in the queue or was visited |
| `CodeFlow.CodeFlowContext.DrainBlocked` | src/features/extractors/papa_native/viv/cf_context.cpp:284-297 | re-entering blocked functions keeps all invariants, never lengthens the blocked list, and keeps on it only what is being flowed or was reported |
| `CodeFlow.WaitAdded` | src/features/extractors/papa_native/viv/cf_context.cpp:263-266 | adding a wait to both indices keeps them mutual inverses without empty entries |
| `CodeFlow.WaitsReleased` | src/features/extractors/papa_native/viv/cf_context.cpp:92-105 | releasing a function keeps them inverses, and drops exactly the functions that waited on nothing else |
| `CodeFlow.MakePointerAt` | src/features/extractors/papa_native/viv/discovery.cpp:34-69 | only an undefined readable site is defined, and then an undefined target that looks like code is entered |
| `CodeFlow.Explore` | src/features/extractors/papa_native/viv/discovery.cpp:31-69 | every run from nothing: the history accounts for all the stores hold and for itself: every edge of a decoded instruction, every case of a table and every function entered was followed up or the history says why not, and nothing in it is without its cause; no address is decoded twice, decoded addresses stay defined, each reported function is listed once with the blocks recovered from the stores as they stood at its first report, no other function has blocks, every entered function is reported or waiting, and blocks recovered at a tidy moment are pairwise disjoint |
| `CodeFlow.FallThroughDecoded` | src/features/extractors/papa_native/viv/cf_context.cpp:212-270 | in every such run the address after an instruction that is no jump is decoded if it can be, unless the call does not return, a table lies there or the flow hit its limit |
| `CodeFlow.CalleeDecoded` | src/features/extractors/papa_native/viv/cf_context.cpp:228-259 | in every such run a called function is entered and its first instruction decoded if it can be, unless there are too many functions or the call was made at the depth limit |
| `FlowAccount.AnsweredLater` | src/features/extractors/papa_native/viv/cf_context.cpp:182-297 | what was followed stays so: a later state answers for every edge an earlier one did and for what was open then and has been closed |
| `FlowAccount.Discharged` | src/features/extractors/papa_native/viv/cf_context.cpp:182-192 | a flow whose queue is worked off, or that stops at its limit, leaves no edge open |
| `FlowProgress.ReportCaused` | src/features/extractors/papa_native/viv/cf_context.cpp:85-115 | a function is reported only when every function it ever waited for was reported since |
| `ColumnWidths.RoundHalfEven` | src/render/table.cpp:82-88 | from zero up the nearest integer, a tie to the even one; below zero the next integer up, as division toward zero has it |
| `ColumnWidths.CeilDiv` | src/render/table.cpp:91-93 | the least integer not below the quotient as long as the numerator is above minus the divisor |
| `ColumnWidths.RatioDistribute` | src/render/table.cpp:246-263 | for any total: with at least one ratio and none negative the shares sum to the total exactly, if and only if the total is not negative or the last ratio is below two, and stop one short otherwise; a total from zero up gives no negative share, and every prefix at least its proportion |
| `ColumnWidths.RatioReduce` | src/render/table.cpp:265-292 | for any arguments the shares are those of the loop, one slot after the other; from zero up it takes at most the total and within every cap: exactly the total, unless some slot reached its cap |
| `ColumnWidths.LongestLine` | src/render/table.cpp:67-78 | the width of the widest newline-delimited line |
| `ColumnWidths.NaturalFits` | src/render/table.cpp:319-329 | at its natural width a column fits every line of every cell |
| `ColumnWidths.CollapseRound` | src/render/table.cpp:337-356 | a round narrows only the widest columns, never below the next width, by at least one and at most the excess, so the early break is never taken |
| `ColumnWidths.Collapse` | src/render/table.cpp:331-363 | the loop ends and stops at the limit exactly, or at nothing left when the limit is negative |
| `ColumnWidths.PadToMinimum` | src/render/table.cpp:365-369 | padding only widens, to the minimum width or the limit, whichever is smaller |
| `ColumnWidths.ComputeColumnWidths` | src/render/table.cpp:314-371 | the final sum is the natural one cut to the limit, raised to the minimum width as far as the limit allows; cutting only narrows and padding only widens |
| `Wrapping.Words` | src/render/table.cpp:124-138 | the words tile the text end to end, each one run of non-space ending where the next begins |
| `Wrapping.DivideLine` | src/render/table.cpp:294-312 | for any width every piece fits after trailing space is dropped or is one over-long word, breaks fall at word starts after some text, and none could have been later |
| `Wrapping.WrappingIsUnique` | src/render/table.cpp:294-312 | a line can be wrapped like that in one way only, so the greedy breaks are determined |
| `TableRows.RunsFrom` | src/render/table.cpp:96-108 | the runs carry exactly the slice's text and styles and change style at every seam |
| `TableRows.MakeLine` | src/render/table.cpp:142-159 | the line is the piece fitted to the width with an ellipsis or padding, each kept character in its own style |
| `TableRows.PiecesAreTheLine` | src/render/table.cpp:162-187 | the pieces between the breaks make up the line again |
| `TableRows.WrapCell` | src/render/table.cpp:162-187 | at any width, every hard line is wrapped greedily and every piece fitted, in order |
| `TableRows.CellTextsAreExact` | src/render/table.cpp:162-187 | at any width, every line of a wrapped cell is exactly as wide as the cell, if and only if there is room for a character, or none is asked for and there is no text to show |
| `TableRows.EmitRuns` | src/render/table.cpp:204-214 | colour changes nothing that is visible, and without it only text is written |
| `TableRows.RowTextIsExact` | src/render/table.cpp:217-240 | a row line takes at least the sum of the widths plus one cell a column plus one, and exactly that if and only if every text in it is as wide as its column |
| `TableRows.EmitRow` | src/render/table.cpp:217-240 | at any widths, the row fails exactly when a column narrower than its padding has fewer lines than another; otherwise its lines hold the cells' wrapped lines in order, short cells padded, and are all exactly as wide as the columns if and only if each cell has room |
| `TableRows.Border` | src/render/table.cpp:190-201 | a rule is as wide as the rows if and only if no width is negative, and wider otherwise |
| `TableRows.RenderAt` | src/render/table.cpp:375-391 | at any widths, the table is drawn exactly when every row can be, and is then a rectangle of lines exactly as wide as the columns if and only if every cell has room; without colour only text is written |
| `TableRows.Render` | src/render/table.cpp:375-391 | layout and drawing together: drawn exactly when every row can be at the computed widths; then every line is as wide as the natural table if that is available, otherwise as wide as what is available, raised to the minimum width as far as that fits, if and only if each cell has room |
| `WideArithmetic.UmulHiIsExact` | src/features/extractors/papa_native/emu/intel_emulator.cpp:373-385 | with the wrapped product it makes the whole 128-bit product; no intermediate sum overflows |
| `WideArithmetic.SmulHiIsExact` | src/features/extractors/papa_native/emu/intel_emulator.cpp:388-397 | the true high word of the signed product, as a word |
| `WideArithmetic.Udiv128` | src/features/extractors/papa_native/emu/intel_emulator.cpp:405-423 | for a positive divisor the remainder is exact and the quotient exact modulo 2^64, despite the 65-bit intermediate |
| `WideArithmetic.DivideStep` | src/features/extractors/papa_native/emu/intel_emulator.cpp:409-421 | one step compares the 65-bit remainder with the divisor exactly, by its top bit |
| `WideArithmetic.Cpu.Mul64` | src/features/extractors/papa_native/emu/intel_emulator.cpp:872-881 | rdx:rax is the product, and the flags say whether rdx was needed |
| `WideArithmetic.Cpu.Imul64` | src/features/extractors/papa_native/emu/intel_emulator.cpp:899-912 | rdx:rax read as a signed value is the signed product, and the flags are clear exactly when it fits rax |
| `WideArithmetic.Cpu.Div64` | src/features/extractors/papa_native/emu/intel_emulator.cpp:951-979 | a zero divisor changes nothing and is reported; otherwise quotient modulo 2^64 and exact remainder |
| `WideArithmetic.Cpu.Idiv64` | src/features/extractors/papa_native/emu/intel_emulator.cpp:981-1050 | signed division truncating toward zero, the remainder taking the dividend's sign, both modulo 2^64 |
| `EmulatorMemory.FindMap` | src/features/extractors/papa_native/emu/memory.cpp:23-30 | the first region holding the address, none exactly if there is none |
| `EmulatorMemory.ProbeIs` | src/features/extractors/papa_native/emu/memory.cpp:32-49 | a range may be accessed exactly if the first region that holds its first byte holds all its bytes and grants the access |
| `EmulatorMemory.SandboxMemory.ReadBytes` | src/features/extractors/papa_native/emu/memory.cpp:62-82 | overlay over backing, or taint when the range is not readable within one region |
| `EmulatorMemory.SandboxMemory.Write` | src/features/extractors/papa_native/emu/memory.cpp:113-134 | stores a prefix: all of it, unless the range is not writable or the overlay is full, byte by byte until a new one finds it full, and never outgrows the cap |
| `EmulatorMemory.StoredIsRead` | src/features/extractors/papa_native/emu/memory.cpp:62-134 | stored bytes are read back, and reads outside them are unchanged |
| `EmulatorMemory.ContentsAt` | src/features/extractors/papa_native/emu/memory.cpp:51-82 | a readable address holds what was stored there, else the region's own byte, else the filler |
| `EmulatorMemory.ValueIsRead` | src/features/extractors/papa_native/emu/memory.cpp:102-143 | a value written is the value read at the same place, modulo its size |
| `EmulatorMemory.SandboxMemory.ReadValue` | src/features/extractors/papa_native/emu/memory.cpp:102-111 | the bytes at a place read as one number, least significant first |
| `EmulatorMemory.SandboxMemory.WriteValue` | src/features/extractors/papa_native/emu/memory.cpp:136-143 | stores the bytes of a number, least significant first |
| `ByteOrder.LittleRoundTrip` | src/features/extractors/papa_native/emu/memory.cpp:102-143 | a number written in n bytes reads back modulo 256^n |
| `EmulatorMemory.Undo` | src/features/extractors/papa_native/emu/memory.cpp:145-151 | restoring a snapshot undoes every write since, for every later read |
| `WorkQueue.PushPath` | src/features/extractors/papa_native/emu/workspace_emulator.cpp:146-157 | a path is queued exactly when neither bound would be exceeded, and the running total of overlay entries stays exact |
| `WorkQueue.RunFunction` | src/features/extractors/papa_native/emu/workspace_emulator.cpp:137-239 | for any instruction behaviour the run ends, and its history is one in which every step follows from those before it, every executed address is mapped, every branch is queued with the memory as it is, and the queue is within both bounds after every event; the memory is what the history left; it executes at most the step budget, no address more than the hit limit, and leaves no path queued unless stopped |
| `WorkQueue.EntryIsQueued` | src/features/extractors/papa_native/emu/workspace_emulator.cpp:159-166 | every complete run begins by queueing the function itself with the memory as it is, unless that exceeds a bound |
| `WorkQueue.BranchesAreQueued` | src/features/extractors/papa_native/emu/workspace_emulator.cpp:220-228 | after an instruction with several branches comes the queueing of its distinct targets, in order and with the memory as it is, as far as the bounds allow |
| `WorkQueue.NextIsExecuted` | src/features/extractors/papa_native/emu/workspace_emulator.cpp:171-232 | otherwise, and after a path is taken up, what stands there is executed, unless the budget is spent, it is unmapped, hit too often, cannot be decoded or the watcher stops the run |
| `WorkQueue.LastIsTaken` | src/features/extractors/papa_native/emu/workspace_emulator.cpp:167-171 | when a path is done and others are queued, the last one queued is taken up |
| `WorkQueue.RunIsBounded` | src/features/extractors/papa_native/emu/workspace_emulator.cpp:171-200 | no run executes more than the step budget, or an address more than the hit limit, or one that is not mapped |
| `WorkQueue.ResumesFromBranch` | src/features/extractors/papa_native/emu/workspace_emulator.cpp:161-226 | a path taken up resumes from exactly the memory left by the instruction that branched to it, or the run's own, whatever other paths wrote in between |
| `ByteCursor.Vle16RoundTrip` | include/papa/features/extractors/papa_native/flirt/byte_cursor.h:62-80 | every 15-bit value is read back from its encoding, whatever surrounds it |
| `ByteCursor.Vle32RoundTrip` | include/papa/features/extractors/papa_native/flirt/byte_cursor.h:84-124 | every 32-bit value is read back from its 1, 2, 4 or 5 byte encoding |
| `ByteCursor.Cursor.ReadVle32` | include/papa/features/extractors/papa_native/flirt/byte_cursor.h:84-124 | fails without moving, or takes exactly the encoding's bytes |
| `ByteCursor.Cursor.ReadBytes` | include/papa/features/extractors/papa_native/flirt/byte_cursor.h:127-134 | fails without moving exactly when too few bytes remain |
| `Flirt.PatternMatches` | src/features/extractors/papa_native/flirt/flirt_tree.cpp:22-35 | true exactly when the buffer is long enough and agrees at every position that is not a wildcard |
| `Flirt.ModuleVerifies` | src/features/extractors/papa_native/flirt/flirt_matcher.cpp:16-35 | length, checksum and every tail byte |
| `Flirt.ExtensionMatchesLess` | src/features/extractors/papa_native/flirt/flirt_tree.cpp:22-35 | a pattern accepts only what any prefix of it accepts |
| `Flirt.PruningIsSafe` | src/features/extractors/papa_native/flirt/flirt_matcher.cpp:39-44 | below a node whose pattern fails there is nothing to find |
| `Flirt.CollectMatching` | src/features/extractors/papa_native/flirt/flirt_matcher.cpp:39-55 | the pruned search appends exactly the leaf modules whose own pattern matches and that verify, in pre-order |
| `Flirt.NodeMatches` | src/features/extractors/papa_native/flirt/flirt_matcher.cpp:59-75 | true exactly when that list is non-empty |
| `FlirtReader.BuildSegment` | src/features/extractors/papa_native/flirt/flirt_reader.cpp:415-425 | wildcards exactly where the mask has its bit, literals in order everywhere else |
| `FlirtReader.SegmentIsUnique` | src/features/extractors/papa_native/flirt/flirt_reader.cpp:375-426 | no bytes spell two segments |
| `FlirtReader.NodeIsUnique` | src/features/extractors/papa_native/flirt/flirt_reader.cpp:357-437 | no bytes spell two trees |
| `FlirtReader.ParseModuleNames` | src/features/extractors/papa_native/flirt/flirt_reader.cpp:167-222 | reads exactly the names the bytes spell, offsets accumulated with their signs, or fails exactly when they are cut short |
| `FlirtReader.ParseTailBytes` | src/features/extractors/papa_native/flirt/flirt_reader.cpp:225-246 | reads exactly the counted tail bytes, or fails exactly when they are cut short |
| `FlirtReader.ParseReferencedFunctions` | src/features/extractors/papa_native/flirt/flirt_reader.cpp:249-289 | the same for the referenced functions with their two forms of length |
| `FlirtReader.ParseLeafModules` | src/features/extractors/papa_native/flirt/flirt_reader.cpp:292-354 | reads exactly the groups and modules the flag bytes continue, each with its names, tail and references |
| `FlirtReader.ReadPattern` | src/features/extractors/papa_native/flirt/flirt_reader.cpp:375-426 | succeeds exactly when the bytes at the cursor spell a segment that keeps the pattern within 32 bytes, and yields the prefix followed by that segment |
| `FlirtReader.ParseNode` | src/features/extractors/papa_native/flirt/flirt_reader.cpp:357-437 | succeeds exactly when the bytes at the cursor spell a tree within the limits, and yields that tree and its end; child patterns extend their parent's, and leaves are exactly where modules are |
| `FlirtReader.SearchBody` | src/features/extractors/papa_native/flirt/flirt_reader.cpp:441-476 | over any body that spells a tree within the limits, and no other, search and test agree with brute force over its leaves |
| `FlirtWriter.LeafHeader` | src/features/extractors/papa_native/flirt/flirt_reader.cpp:292-312 | the checksum of a group is read with its high byte first |
| `FlirtWriter.LeafHeld` | src/features/extractors/papa_native/flirt/flirt_reader.cpp:292-354 | modules written in any grouping are the modules read back, with their names, signs, tails and references, whatever stands around them |
| `FlirtWriter.SegmentSpelled` | src/features/extractors/papa_native/flirt/flirt_reader.cpp:375-426 | the mask with a bit for every wildcard and the literals in order spell the segment |
| `FlirtWriter.NodeHeld` | src/features/extractors/papa_native/flirt/flirt_reader.cpp:357-437 | every tree within the limits is spelled by what is written for it |
| `FlirtWriter.ReadBack` | src/features/extractors/papa_native/flirt/flirt_reader.cpp:357-476 | reading what was written for a tree gives that tree, whatever follows |
| `StreamingHash.ZeroCountIsLeast` | src/util/hash.cpp:79-91 | the padding takes the fewest zero bytes that leave exactly eight for the length |
| `StreamingHash.PaddedIs` | src/util/hash.cpp:73-99 | the padding is one 0x80 byte, zeros to the block boundary, and last the bit count, which reads back in the stated byte order |
| `StreamingHash.LengthReads` | src/util/hash.cpp:92-97 | the eight length bytes read as the bit count, most significant first for SHA and least significant first for MD5 |
| `StreamingHash.Hasher.Update` | src/util/hash.cpp:142-172 | however the data splits at block boundaries, the state stays the fold over the whole blocks and the buffer the rest |
| `StreamingHash.Hasher.PadAndFinalize` | src/util/hash.cpp:73-99 | absorbs exactly the padding of section 4.1 of RFC 6234, section 4 of RFC 3174, or sections 3.1 and 3.2 of RFC 1321, in one block or two |
| `StreamingHash.Hasher.Finalize` | src/util/hash.cpp:216-225 | yields the digest of everything added since the last reset and leaves the hasher as new |
| `StreamingHash.DigestOfChunks` | src/util/hash.cpp:142-225 | any split of a message gives the digest of the whole message |
| `JsonText.RoundTrip` | src/util/json_writer.cpp:38-211 | reading the printed text of any value tree gives that tree back, compact or pretty |
| `JsonText.ValueRead` | src/util/json_writer.cpp:38-211 | whatever may follow it, a printed value is read back and nothing more is consumed |
| `JsonText.CharsRead` | src/util/json_writer.cpp:184-211 | every string survives escaping, control bytes, quotes and backslashes included |
| `JsonText.NumberRead` | src/util/json_writer.cpp:131-151 | every integer survives its decimal text |
| `JsonText.TextIsInjective` | src/util/json_writer.cpp:38-211 | no two value trees share a text |
| `JsonLayout.PrintedLaid` | src/util/json_writer.cpp:30-123 | every text is laid out by its nesting: lines break after a bracket, a comma and before an end, each indented by two spaces for every open container, one space after a colon, and no other white space; compact, none at all |
| `JsonWriter.Writer.StartValue` | src/util/json_writer.cpp:54-61 | refused exactly for a value without a key inside an object, and then nothing is written |
| `JsonWriter.Writer.Begin` | src/util/json_writer.cpp:63-92 | opens a container after the right separator, or refuses and changes nothing |
| `JsonWriter.Writer.End` | src/util/json_writer.cpp:71-103 | refused exactly on a mismatched bracket or a dangling key; otherwise closes, on its own line only if there was content |
| `JsonWriter.Writer.Key` | src/util/json_writer.cpp:105-123 | refused exactly outside an object or after another key |
| `JsonWriter.Writer.EmitEscapedString` | src/util/json_writer.cpp:184-211 | appends the quoted, escaped form |
| `JsonWriter.WriteValue` | src/util/json_writer.cpp:63-182 | driving the writer over a value appends exactly that value's text and leaves the nesting as it was |
| `JsonWriter.Print` | src/util/json_writer.cpp:26-211 | a fresh writer yields one text, laid out by its nesting, and an RFC 8259 reader gives the value back |

## Left out

Representation:

- Statement trees, FLIRT nodes and JSON trees are values: rewriting a child slot in place, ownership
  and null child slots (no parser builds one) are not captured.
- Lookup tables with unspecified iteration order are maps visited in any order; the priority queue
  of the sort is a set from which the least name is taken; the library's sorts are modelled by what
  they compute (`Sorting.StableSort`).
- Integers are unbounded except where wrap-around matters (`WideArithmetic`, the bit counter of
  `StreamingHash`, the worker count): 64-bit address wrap-around in code discovery, 32-bit column
  widths and counter overflow are not modelled.
- Floating-point feature values are reals, so NaN is absent.
- Branch flags are the set of bits that are on; a string or text has one character per byte.
- Exceptions are result values or, for a subscope met during evaluation and a writer driven out of
  order, a precondition or a refusal.
- Threads are atomic steps of workers over a shared counter; relaxed memory order, thread creation
  and joining are not modelled.

Weaker than the source in places:

- WholeRun.WholeVerdict: takes a corpus whose references are guarded, every nested subscope strictly narrower than
  its parent, and no written name or namespace spelling a synthetic name. For an unguarded corpus only the rules
  without `match:` of their own have a verdict, because there the recorded table can depend on the order.
- WholeRun.BuildAndRun: the same guard for rules with `match:` of their own.
- Fixpoint.RecordedIffHolds: an unguarded corpus may still meet the equivalence, depending on its trees and the
  features; the guard is exact over all trees with the same references (`Guards.GuardIsExact`).
- CodeBlocks.BlocksAreDisjoint: assumes disjoint instructions and code edges into instruction starts or undefined bytes;
  without these, blocks may overlap and nothing is claimed.
- CodeFlow.Explore: held functions are not claimed to be reported eventually, because release is one level deep; which
  calls do not return is the oracle's answer of the moment, so no edge is claimed to be suppressed.
- CodeFlow.CodeFlowContext.ResolveTable: the resolver answers arbitrarily; the instruction window handed to it is not built.
- StreamingHash.Digest: the compression functions, their round constants and the encoding of the digest words
  are parameters.
- JsonText.RoundTrip: integers only; floating-point text and a second root value are not written.
- ColumnWidths.RatioReduce: for negative totals, ratios or caps only the loop's own shares are stated, and likewise
  for negative ratios in `ColumnWidths.RatioDistribute`; neither promises a sum there.
- TableRows.Render: takes rows as long as the header, as the source indexes them.
- WideArithmetic.Cpu.Imul64: the carry and overflow flags only; parity and sign flags, the narrower operand sizes and
  the two- and three-operand forms are not modelled.

Not modelled:

- Rule text parsing, rule directories, the command line, console output, report assembly and the ordinal and COM tables.
- The regex engine itself (any relation stands for it) and pattern features outside the cited grammar.
- Instruction decoding, operand classification, PE and import parsing, inflation and the FLIRT header.
- Feature hashing, and extraction of features from instructions, blocks, functions and files.
- Materialising recovered functions, the no-return scan, thunk detection and FLIRT naming, which could re-enter
  discovery through the function callback.
- The emulator's instruction semantics other than 64-bit multiply and divide, its registers, taint bookkeeping and hooks.
