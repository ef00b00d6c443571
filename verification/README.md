# Verified model of the VIL AI pipeline compiler and AI gateway

This project models, in Dafny, four parts of the repository and proves properties of them for all inputs and all runs.

1. **The AI pipeline compiler** (`crates/vil_ai_compiler`). `DagBuilder.Build` resolves ids and rejects cycles; `Compile`
   sorts the DAG layer by layer, fuses chains of `Transform` nodes, drops redundant `Cache` nodes, remaps dependencies and
   rebuilds the parallel tiers; `Execute` runs the plan. The methods follow the source phase by phase, on mutable arrays
   where the source has them, and are proved against one functional description of the plan, `Lowering.PlanOf`. About that
   description the project proves that compilation preserves meaning, loses no operation, keeps reachability and layers
   correctly, and that the outcome of an execution does not depend on the schedule.
2. **The AI gateway** (`crates/vil_ai_gateway`). Concurrent chats are a state machine whose steps are the atomic statements
   of `chat`; the read-locked and the write-locked half of `can_proceed` are separate steps and time only grows. The breaker,
   health and metrics guarantees hold in every reachable state of every interleaving. The class `AiGateway` holds the real
   fields and runs `Chat` as in the source, each shared access being one step of that machine.
3. **The cycle checks of `vil check`** (`crates/vil_cli/src/checker.rs`). Recursive depth-first searches over shared sets,
   proved sound and complete for the workflow check, and characterised exactly for the route check.
4. **Two chunkers** (`crates/vil_chunker`). The greedy sentence chunker is optimal; sliding windows reconstruct the text.

## Where the code and its documentation differ

- `compile` documents the elimination of redundant caches (crates/vil_ai_compiler/src/compiler.rs:45-50), but the remapping of
  dependencies (lines 186-201) follows `fused_into` only. A step whose predecessor is a redundant cache loses that dependency;
  the test at lines 422-439 only checks that the cache itself is gone. The model keeps the code as it is (`Dropped`), beside
  the evident intent in which a redundant cache is replaced by its own predecessor (`Bridged`).
  `Limits.CacheChainLosesItsConsumer` exhibits the difference, and `Limits.PreservedExactlyWhenNoneDropped` states exactly
  which DAGs the code compiles faithfully under every interpretation; `Reachability.WrittenIsExactWhenCovered` states exactly
  for which DAGs its dependencies still express all paths. Only `Bridged` needs caches to be idempotent: reading a cache
  through a second cache with the same key gives the same value.
- The route check claims to report cycles of three or more nodes (crates/vil_cli/src/checker.rs:143-145). Removing one
  direction of every bidirectional pair in hash order can also break such a cycle: `RouteCheck.VerdictDependsOnOrder` shows
  four routes that are reported under one order and pass under another. Which manifests this concerns can be read off the
  routes: every order reports exactly when the one-way routes alone lead from a declared node into a cycle
  (`RouteOrders.ReportedInEveryOrderExactly`), and some order reports exactly when a declared node leads into a cycle with at
  least one one-way route (`RouteOrders.ReportedInSomeOrderExactly`).
- A sentence chunk's `end` is computed as its start plus the length of its content
  (crates/vil_chunker/src/semantic.rs:45), not as a position in the text: for `A.  B.`, with two blanks, the chunk `A. B.`
  claims the positions 0 to 5 (`SentenceSlices.TwoBlanksMisplace`). All chunks of a text are slices of it, whatever the
  budget, exactly when the text starts at a character that is not blank and separates its sentences by single ' ' characters
  (`SentenceSlices.AlwaysSlicesExactly`).

## How the files fit together

- `Wrappers`, `Arithmetic`, `Seqs`, `Graphs`: general definitions (paths, reachability, depth, layers, topological orders).
- `Pipeline`, `Builder`, `Kahn`, `Fusion`, `Plan`, `Lowering`, `Compiler`: the DAG, its builder and the compiler.
- `Meaning`, `Limits`, `Reachability`, `Conservation`, `PlanShape`, `FusedRuns`, `Executor`: what is proved about plans and their execution.
- `Walks`, `CycleSearch`, `WorkflowCheck`, `RouteCheck`, `RouteOrders`: the depth-first searches and what they report.
- `Breaker`, `Health`, `Metrics`, `GatewayProtocol`, `GatewayRuns`, `GatewayProgress`, `Gateway`, `Routing`: the gateway.
- `Tokens`, `SentenceChunker`, `SentenceSlices`, `SlidingWindow`: the chunkers.

## Model

| member | source | states |
|---|---|---|
| Builder.DagBuilder.constructor | crates/vil_ai_compiler/src/dag.rs:81-83 | a new builder is empty |
| Builder.DagBuilder.Node | crates/vil_ai_compiler/src/dag.rs:86-89 | appends the node and leaves the edges alone |
| Builder.DagBuilder.Edge | crates/vil_ai_compiler/src/dag.rs:92-95 | appends the edge by name and leaves the nodes alone |
| Builder.DagBuilder.Build | crates/vil_ai_compiler/src/dag.rs:98-130 | a built DAG has unique ids, edges in range, no cycle, and is the described graph; each of the three errors occurs exactly in its situation, names the first offender, and duplicates take precedence over unknown ends, unknown ends over cycles |
| Builder.IndexIds | crates/vil_ai_compiler/src/dag.rs:100-105 | finds the first repeated id, or maps every id to its position |
| Builder.ResolveEdges | crates/vil_ai_compiler/src/dag.rs:107-117 | resolves all edges, or reports the first unknown end, source before target |
| Builder.DescriptionUnique | crates/vil_ai_compiler/src/dag.rs:98-130 | with unique ids a description determines the DAG |
| Pipeline.EdgeBothWays | crates/vil_ai_compiler/src/dag.rs:56-69 | predecessors and successors describe the same edges |
| Pipeline.SourcesInEdgeOrder | crates/vil_ai_compiler/src/dag.rs:56-61 | one predecessor for each edge into the node, in edge order |
| Pipeline.TargetsInEdgeOrder | crates/vil_ai_compiler/src/dag.rs:64-69 | one successor for each edge out of the node, in edge order |
| Kahn.HasCycle | crates/vil_ai_compiler/src/dag.rs:134-161 | the last-in-first-out Kahn loop answers true exactly when a non-empty closed path exists; the counters never underflow and the loop ends |
| Kahn.Release | crates/vil_ai_compiler/src/dag.rs:150-157 | finishing a node leaves every counter at the number of pending predecessor edges and returns exactly the nodes that became ready, each once |
| Kahn.InDegrees | crates/vil_ai_compiler/src/compiler.rs:61-64 | the initial counters count the predecessor edges |
| Kahn.ProcessTier | crates/vil_ai_compiler/src/compiler.rs:84-96 | one round keeps the order topological, the counters exact, and hands on exactly the ready nodes |
| Kahn.LayeredSort | crates/vil_ai_compiler/src/compiler.rs:60-101 | all nodes are sorted exactly when the DAG is acyclic, and then the tiers are the sets of nodes of each longest-path depth, in index order |
| Kahn.ExhaustedQueueDecides | crates/vil_ai_compiler/src/dag.rs:147-160 | whatever the order of removal, an exhausted queue has seen all nodes exactly when there is no cycle |
| Graphs.DepthBoundsPaths | crates/vil_ai_compiler/src/compiler.rs:75-97 | no path into a node is longer than its depth |
| Graphs.DepthIsAttained | crates/vil_ai_compiler/src/compiler.rs:75-97 | some path into a node is as long as its depth |
| Graphs.LayersPartition | crates/vil_ai_compiler/src/compiler.rs:75-97 | layers are non-empty and put every node at its depth |
| Graphs.LayeredOrderIsTopological | crates/vil_ai_compiler/src/compiler.rs:75-97 | the layers in order list every node once, after its predecessors |
| Compiler.FuseTarget | crates/vil_ai_compiler/src/compiler.rs:109-118 | the node fused next, if any, is the one `FusedRuns.FollowsExactly` describes by the edges alone |
| Compiler.FuseTransforms | crates/vil_ai_compiler/src/compiler.rs:107-121 | every absorbed node is marked with the unabsorbed head of its chain, and no other node is marked; `FusedRuns.AbsorbedExactly` says by the edges alone which nodes those are |
| Compiler.MarkRedundant | crates/vil_ai_compiler/src/compiler.rs:126-141 | exactly the caches behind an equal-keyed sole predecessor cache are marked |
| Compiler.FindFusedChild | crates/vil_ai_compiler/src/compiler.rs:161-164 | the search among the successors finds the next node of the chain exactly when there is one |
| Compiler.CollectOperations | crates/vil_ai_compiler/src/compiler.rs:154-174 | the walk ends and collects the operations of the whole chain in order |
| Compiler.DependencyOf | crates/vil_ai_compiler/src/compiler.rs:189-200 | a predecessor contributes the step of its surviving representative, and a redundant cache contributes nothing |
| Compiler.AddStep | crates/vil_ai_compiler/src/compiler.rs:186-211 | the next step is the specified one, and the index map stays exact |
| Compiler.BuildSteps | crates/vil_ai_compiler/src/compiler.rs:145-212 | the steps are those of the surviving nodes in execution order |
| Compiler.Schedule | crates/vil_ai_compiler/src/compiler.rs:214-258 | tiers are the longest-path layers of the dependency graph and every step lists the rest of its tier |
| Compiler.Compile | crates/vil_ai_compiler/src/compiler.rs:51-264 | fails exactly for cyclic graphs; otherwise returns the plan that `PlanOf` describes, for repeated node ids too; which nodes its steps carry, in which order, with which dependencies, is stated on the nodes and edges of the DAG alone by the `FusedRuns` rows |
| FusedRuns.FollowsExactly | crates/vil_ai_compiler/src/compiler.rs:107-121 | a chain goes on from p to i exactly when both are Transforms and one edge joins them, the only one out of p and the only one into i |
| FusedRuns.AbsorbedExactly | crates/vil_ai_compiler/src/compiler.rs:107-121 | a node is absorbed if and only if some node fuses into it in this sense |
| FusedRuns.OwnStepExactly | crates/vil_ai_compiler/src/compiler.rs:107-147 | a node has a step of its own if and only if nothing fuses into it and it does not repeat a Cache, its only edge coming from a Cache with the same key |
| FusedRuns.StepCarriesFullRun | crates/vil_ai_compiler/src/compiler.rs:154-184 | every step of every compiled plan has the id of the first node of a run of fusing nodes that cannot be made longer at either end, and carries exactly this run: a single node as it is, several ones by their operations in order |
| FusedRuns.FusedSideBySide | crates/vil_ai_compiler/src/compiler.rs:107-184 | whenever p fuses into i, node i has no step, and its operation directly follows that of p in the body of one step |
| FusedRuns.StepsInDepthOrder | crates/vil_ai_compiler/src/compiler.rs:75-97 | steps are in the order of their nodes' longest incoming paths, and of their indices at equal depth |
| FusedRuns.DirectDependencies | crates/vil_ai_compiler/src/compiler.rs:186-211 | a step has one dependency for each edge into its node that does not come from a repeating Cache, in edge order, and each names the step whose run holds the edge's source |
| Fusion.FuseNextIsAbsorbed | crates/vil_ai_compiler/src/compiler.rs:103-121 | following a chain forward and being absorbed by a predecessor are the same relation |
| Fusion.ChainIsLinked | crates/vil_ai_compiler/src/compiler.rs:160-174 | consecutive chain nodes are edges, and all but the head are absorbed |
| Fusion.NodeOnItsRootsChain | crates/vil_ai_compiler/src/compiler.rs:107-121 | every node lies on its root's chain and on no other root's chain |
| Fusion.PredecessorEndsChain | crates/vil_ai_compiler/src/compiler.rs:186-201 | a predecessor of an unabsorbed node is the last of its chain |
| Lowering.ResolveIsRoot | crates/vil_ai_compiler/src/compiler.rs:193-198 | without redundancy the representative of a node is its fusion root |
| Lowering.DependenciesAreEarlierSurvivors | crates/vil_ai_compiler/src/compiler.rs:186-201 | every dependency is a surviving node placed strictly earlier |
| Lowering.LoweredEdges | crates/vil_ai_compiler/src/compiler.rs:186-211 | dependency edges lead, in predecessor order, to the steps of the representatives |
| Lowering.PlansAgree | crates/vil_ai_compiler/src/compiler.rs:186-201 | when no surviving node has a redundant predecessor, the plan as written is the bridged plan |
| Meaning.ChainValue | crates/vil_ai_compiler/src/compiler.rs:160-181 | running the remaining operations of a chain on its head's value gives the value of its last node |
| Meaning.BodyValue | crates/vil_ai_compiler/src/compiler.rs:154-184 | a step body applied to the DAG values of the predecessors gives the DAG value of the chain's end |
| Meaning.FusedValue | crates/vil_ai_compiler/src/compiler.rs:107-121 | under every interpretation the chain of a node's fusion root ends in the node's own value, when the node ends its chain |
| Meaning.ResolvedValue | crates/vil_ai_compiler/src/compiler.rs:123-141 | with idempotent caches, replacing a redundant cache by its representative does not change the value |
| Meaning.ScheduledStepValue | crates/vil_ai_compiler/src/compiler.rs:214-258 | tiers and parallel ids do not change what a step computes |
| Meaning.BridgedPlanPreserves | crates/vil_ai_compiler/src/compiler.rs:103-212 | the evident intent: under every interpretation with idempotent caches each step of the bridged plan has the DAG value of its chain's last node, for all DAGs |
| Meaning.WrittenPlanPreserves | crates/vil_ai_compiler/src/compiler.rs:103-264 | the code: when no dependency is dropped, each step of the returned plan has the DAG value of its chain's last node, under every interpretation |
| Limits.PreservedExactlyWhenNoneDropped | crates/vil_ai_compiler/src/compiler.rs:186-201 | the returned plan preserves meaning under all interpretations if and only if no surviving node has a redundant cache among its predecessors |
| Limits.DroppingIsVisible | crates/vil_ai_compiler/src/compiler.rs:186-201 | every dropped dependency changes some step's value under one fixed interpretation, whose caches are idempotent |
| Limits.LoneConsumerMovesUp | crates/vil_ai_compiler/src/compiler.rs:186-201 | any surviving node whose only predecessor is a redundant cache ends in the first tier without dependencies |
| Limits.CacheChainLosesItsConsumer | crates/vil_ai_compiler/src/compiler.rs:422-439 | for two equal caches before a generator the generator ends in the first tier without dependencies, although the first cache reaches it |
| Reachability.DependenciesAreKeptPaths | crates/vil_ai_compiler/src/compiler.rs:186-201 | as written, for every DAG: a step is a transitive dependency of another if and only if its node reaches the other's without passing through a redundant cache; bridged, if and only if it reaches it |
| Reachability.DependencyIsPath | crates/vil_ai_compiler/src/compiler.rs:186-201 | a transitive dependency between steps is a path between their nodes, for every DAG as written |
| Reachability.PathIsBridgedDependency | crates/vil_ai_compiler/src/compiler.rs:186-201 | the evident intent: a path between surviving nodes is a transitive dependency of the bridged plan |
| Reachability.ReachabilityIsExact | crates/vil_ai_compiler/src/compiler.rs:107-121 | paths between surviving nodes and transitive dependencies coincide, bridged or when nothing is dropped |
| Reachability.WrittenIsExactWhenCovered | crates/vil_ai_compiler/src/compiler.rs:186-201 | as written, they coincide if and only if the representative of every dropped cache still reaches the node that lost it without passing through a redundant cache |
| Conservation.BodyCarriesChain | crates/vil_ai_compiler/src/compiler.rs:154-184 | a step carries the operations of its chain in chain order |
| Conservation.ChainsPartition | crates/vil_ai_compiler/src/compiler.rs:107-121 | the chains of the steps list every node that is not redundant exactly once |
| Conservation.OperationsConserved | crates/vil_ai_compiler/src/compiler.rs:154-181 | the operations of all steps are the operations of all Transform nodes, each as often |
| PlanShape.PlanIsWellFormed | crates/vil_ai_compiler/src/compiler.rs:214-264 | for every DAG dependencies name strictly earlier steps, and the tiers partition the step indices into non-empty groups |
| PlanShape.TierIsLongestDependencyPath | crates/vil_ai_compiler/src/compiler.rs:217-233 | in every compiled plan a step's tier is the length of its longest dependency path |
| PlanShape.DependenciesInEarlierTiers | crates/vil_ai_compiler/src/compiler.rs:217-246 | a transitive dependency lies in a strictly earlier tier, so no two steps of a tier are related |
| PlanShape.PeersAreTheRestOfTheTier | crates/vil_ai_compiler/src/compiler.rs:248-258 | `can_parallel_with` is exactly the rest of the tier, and symmetric |
| PlanShape.PeersInTierOrder | crates/vil_ai_compiler/src/compiler.rs:248-258 | `can_parallel_with` lists the ids of the other steps of the tier, each once, in tier order |
| PlanShape.LayeringsAgree | crates/vil_ai_compiler/src/compiler.rs:75-97 | when nothing is fused or eliminated, the rebuilt tiers are Kahn's layers, tier by tier |
| Executor.AllOkMeansNoneFailed | crates/vil_ai_compiler/src/executor.rs:35-47 | `all_ok` holds exactly when the failure count is zero |
| Executor.FailedCountExactly | crates/vil_ai_compiler/src/executor.rs:41-47 | the failure count is the number of results that report a failure |
| Executor.AllOkMeansAllCompleted | crates/vil_ai_compiler/src/executor.rs:34-39 | on compiled plans `all_ok`, which admits skipped steps, holds if and only if every step completed, whatever the handler |
| Executor.ExecuteTier | crates/vil_ai_compiler/src/executor.rs:78-108 | a tier's loop is a run of its steps in order on top of what ran before |
| Executor.Execute | crates/vil_ai_compiler/src/executor.rs:69-115 | the report is a run of the tiers in order, counting them |
| Executor.DryRun | crates/vil_ai_compiler/src/executor.rs:118-120 | a dry run is an execution with the handler that always succeeds, counting all tiers |
| Executor.HandlerRunsAfterDependencies | crates/vil_ai_compiler/src/executor.rs:81-92 | for any plan and handler, a step is skipped exactly unless each of its dependencies has an earlier Ok result |
| Executor.HandlerDecides | crates/vil_ai_compiler/src/executor.rs:81-111 | a step that is not skipped is handed the ids with an earlier Ok result and gets what its handler says: Ok for a success, the handler's own message for a failure |
| Executor.OneResultEach | crates/vil_ai_compiler/src/executor.rs:69-115 | a schedule that respects dependencies gives every step exactly one result, and no others |
| Executor.StatusUnfold | crates/vil_ai_compiler/src/executor.rs:81-107 | a step is skipped exactly when one of its dependencies is not Ok, else its handler decides |
| Executor.SkippedMeansFailedUpstream | crates/vil_ai_compiler/src/executor.rs:81-107 | a step is skipped if and only if some transitive dependency failed |
| Executor.StatusIsFinal | crates/vil_ai_compiler/src/executor.rs:69-115 | with a handler that depends only on the step, a step is Ok exactly when it and all its transitive dependencies succeed on their own |
| Executor.ScheduleIndependence | crates/vil_ai_compiler/src/executor.rs:69-115 | any two schedules that respect dependencies give every step the same status |
| Executor.ShuffledTiersRespect | crates/vil_ai_compiler/src/executor.rs:74-79 | running the tiers in order, in any order inside each, respects dependencies |
| Executor.IndexOrderRespects | crates/vil_ai_compiler/src/compiler.rs:24-25 | so does running the steps in index order |
| Executor.PlanOutcome | crates/vil_ai_compiler/src/executor.rs:69-115 | on every compiled plan, shuffled tiers and index order give each step the same schedule-free status |
| Executor.OutcomeOnDag | crates/vil_ai_compiler/src/executor.rs:69-115 | read off the DAG: a step ends Ok if and only if it succeeds together with all survivors that reach its node without passing through a dropped dependency |
| Executor.DryRunCompletesEverything | crates/vil_ai_compiler/src/executor.rs:118-120 | a dry run of a compiled plan yields Ok for every step |
| CycleSearch.CycleFinder.Enter | crates/vil_cli/src/checker.rs:181-182 | entering a node keeps the search invariant and puts the node on the stack |
| CycleSearch.CycleFinder.Leave | crates/vil_cli/src/checker.rs:194-195 | leaving a node keeps the invariant, takes it off the stack and finishes it |
| CycleSearch.CycleFinder.DfsList | crates/vil_cli/src/checker.rs:249-270 | true means a circuit reachable from the root of the call; false means the node is finished and the stack restored |
| CycleSearch.CycleFinder.DfsSet | crates/vil_cli/src/checker.rs:175-196 | the same for hash sets walked in any order |
| CycleSearch.FinishedRootsReachNoCircuit | crates/vil_cli/src/checker.rs:249-270 | once all roots are finished, no circuit can be reached from them |
| CycleSearch.BackEdgeClosesCircuit | crates/vil_cli/src/checker.rs:263-264 | meeting a node of the stack again closes a circuit |
| WorkflowCheck.AddItems | crates/vil_cli/src/checker.rs:224-237 | the adjacency lists hold exactly the declared dependencies, whether bare or with options, detached or not |
| WorkflowCheck.NamesDepExactly | crates/vil_cli/src/manifest.rs:1082-1087 | an id is a dependency exactly when some entry is this id, bare or with options, whatever `detach` says |
| WorkflowCheck.CircuitsAreDependencyCycles | crates/vil_cli/src/checker.rs:221-247 | circuits reachable from declared ids are exactly the dependency cycles, undeclared ids included |
| WorkflowCheck.SearchFrom | crates/vil_cli/src/checker.rs:246-284 | the loop over the ids finds a circuit exactly when one can be reached from them |
| WorkflowCheck.CheckWorkflow | crates/vil_cli/src/checker.rs:221-284 | a workflow fails the check if and only if its dependency relation, read off the entries themselves, has a cycle |
| WorkflowCheck.CheckWorkflows | crates/vil_cli/src/checker.rs:218-289 | the check passes exactly when no workflow is cyclic, and the failures name exactly the cyclic ones |
| RouteCheck.HostOf | crates/vil_cli/src/checker.rs:150-151 | the part of an endpoint before its first dot |
| RouteCheck.BuildGraph | crates/vil_cli/src/checker.rs:147-156 | the graph holds exactly the routes between different hosts |
| RouteCheck.Clean | crates/vil_cli/src/checker.rs:158-168 | cleaning in key order gives exactly the specified graph |
| RouteCheck.CleaningKeepsOneDirection | crates/vil_cli/src/checker.rs:158-168 | for every key order, cleaning adds nothing, keeps all one-way edges and exactly one direction of every pair |
| RouteCheck.SearchFrom | crates/vil_cli/src/checker.rs:198-205 | the loop over the declared nodes, in any order, finds a circuit exactly when one can be reached from them |
| RouteCheck.CheckRoutes | crates/vil_cli/src/checker.rs:146-216 | the verdict is that of the cleaned graph for some order of the keys |
| RouteCheck.ReportedCycleIsReal | crates/vil_cli/src/checker.rs:143-205 | a reported cycle is a simple cycle of at least three routes of the manifest |
| RouteCheck.OneWayCycleIsReported | crates/vil_cli/src/checker.rs:158-205 | a cycle without bidirectional pairs through a declared node is reported for every order |
| RouteCheck.VerdictDependsOnOrder | crates/vil_cli/src/checker.rs:159-168 | the routes a-b, b-a, b-c, c-a are reported under one key order and pass under another |
| RouteOrders.ReportedInEveryOrderExactly | crates/vil_cli/src/checker.rs:158-205 | every key order reports if and only if the one-way routes alone lead from a declared node into a cycle |
| RouteOrders.EveryOrderMeansOneWayCycle | crates/vil_cli/src/checker.rs:158-205 | with all hosts declared: if and only if some cycle uses no bidirectional pair |
| RouteOrders.ReportedInSomeOrderExactly | crates/vil_cli/src/checker.rs:158-205 | some key order reports if and only if a declared node leads into a cycle with at least one one-way route |
| RouteOrders.SomeOrderMeansMixedCycle | crates/vil_cli/src/checker.rs:158-205 | with all hosts declared: if and only if some cycle has a one-way route |
| Breaker.CircuitBreaker.constructor | crates/vil_ai_gateway/src/circuit_breaker.rs:24-32 | a new breaker is closed without failures |
| Breaker.CircuitBreaker.ReadPhase | crates/vil_ai_gateway/src/circuit_breaker.rs:38-53 | the read-locked decision: admit, reject or try the upgrade |
| Breaker.CircuitBreaker.WritePhase | crates/vil_ai_gateway/src/circuit_breaker.rs:55-65 | admits one probe from an open breaker whose timeout has elapsed, and nothing else |
| Breaker.CircuitBreaker.CanProceed | crates/vil_ai_gateway/src/circuit_breaker.rs:35-66 | both phases in a row |
| Breaker.CircuitBreaker.RecordSuccess | crates/vil_ai_gateway/src/circuit_breaker.rs:69-74 | closes the breaker from any state |
| Breaker.CircuitBreaker.RecordFailure | crates/vil_ai_gateway/src/circuit_breaker.rs:77-104 | counts up or trips when closed, reopens when half-open, leaves an open breaker alone; the counter never overflows; `Breaker.OpenSinceFailure` says since when it is open |
| Breaker.AtMostOneAdmission | crates/vil_ai_gateway/src/circuit_breaker.rs:35-66 | while a breaker is not closed, a second admission comes only after a recorded outcome that directly follows the first |
| Breaker.ProbeWaitsForRecovery | crates/vil_ai_gateway/src/circuit_breaker.rs:55-63 | such an admission is a probe, preceded by the failure that opened the breaker (its probe's own, or the one that completed the threshold) with only failures in between, and at least the recovery timeout after that failure |
| Breaker.OpenSinceFailure | crates/vil_ai_gateway/src/circuit_breaker.rs:77-104 | an open breaker is open since the instant of the failure, told from the recorded events alone, that opened it |
| Breaker.DecisionFromHistory | crates/vil_ai_gateway/src/circuit_breaker.rs:35-66 | the whole decision told from the recorded events alone: it admits below the threshold, rejects behind a probe, and otherwise rejects until the recovery timeout after the failure that opened it has passed and lets the request through both phases from then on |
| Breaker.HalfOpenWaitsForRecord | crates/vil_ai_gateway/src/circuit_breaker.rs:49-51 | what happens next to a half-open breaker is a recorded outcome |
| Breaker.HalfOpenEndsInProbe | crates/vil_ai_gateway/src/circuit_breaker.rs:59-62 | a half-open breaker's last event is the admission of its probe |
| Breaker.StateRefinesHistory | crates/vil_ai_gateway/src/circuit_breaker.rs:69-104 | the state is Closed{k} with k the trailing failures while k is zero or below the failure threshold, and not closed otherwise |
| Health.HealthTracker.RecordSuccess | crates/vil_ai_gateway/src/health.rs:138-150 | changes one model's entry by one good sample and no other entry |
| Health.HealthTracker.RecordFailure | crates/vil_ai_gateway/src/health.rs:153-166 | changes one model's entry by one bad sample and no other entry |
| Health.HealthRefinesSamples | crates/vil_ai_gateway/src/health.rs:138-166 | after any samples the totals count all of them and all failed ones, and the window holds exactly the latest hundred |
| Health.StatusFromLatest | crates/vil_ai_gateway/src/health.rs:96-108 | the status follows from the errors among the latest hundred samples, in whole-number terms |
| Metrics.GatewayMetrics.RecordRequest | crates/vil_ai_gateway/src/metrics.rs:35-37 | adds one request and changes no other counter |
| Metrics.GatewayMetrics.RecordSuccess | crates/vil_ai_gateway/src/metrics.rs:39-41 | adds one success and changes no other counter |
| Metrics.GatewayMetrics.RecordFailure | crates/vil_ai_gateway/src/metrics.rs:43-45 | adds one failure and changes no other counter |
| Metrics.GatewayMetrics.RecordFailover | crates/vil_ai_gateway/src/metrics.rs:47-49 | adds one failover and changes no other counter |
| Metrics.GatewayMetrics.RecordCircuitRejection | crates/vil_ai_gateway/src/metrics.rs:51-54 | adds one rejection and changes no other counter |
| GatewayProtocol.StepKeepsInv | crates/vil_ai_gateway/src/gateway.rs:149-232 | every step of every chat, in any interleaving, keeps each chat on its route and each breaker equal to its replayed lawful history, with a half-open breaker's probe in flight |
| GatewayProtocol.BreakerStep | crates/vil_ai_gateway/src/circuit_breaker.rs:35-104 | a chat's action on one breaker keeps all breakers in order |
| GatewayRuns.StepKeepsBalance | crates/vil_ai_gateway/src/gateway.rs:149-232 | every step keeps counters and health totals equal to the sum of what the chats added |
| GatewayRuns.BreakerAdmitsOneProbe | crates/vil_ai_gateway/src/gateway.rs:160-168 | in every reachable state a breaker that was not closed has admitted at most one chat per recorded outcome, and that one no earlier than the recovery timeout after the failure that opened it |
| GatewayRuns.RecoveryTakesTime | crates/vil_ai_gateway/src/circuit_breaker.rs:35-104 | in every run, from the step that opens a breaker to the step that admits its probe at least the recovery timeout passes on the clock |
| GatewayRuns.BreakerDecides | crates/vil_ai_gateway/src/circuit_breaker.rs:35-66 | what a breaker decides in any reachable state about a request at any instant, told from its recorded events |
| GatewayRuns.AnswerIsAboutArrival | crates/vil_ai_gateway/src/circuit_breaker.rs:35-52 | in every run the read-locked answer to a chat is the breaker's decision about the instant at which the chat began to ask, however long it waited |
| GatewayRuns.HalfOpenHasProbeInFlight | crates/vil_ai_gateway/src/gateway.rs:160-228 | in every reachable state a half-open breaker's probe is still in flight, nobody else is admitted, and any report leaves half-open |
| GatewayRuns.BreakerRefinesOutcomes | crates/vil_ai_gateway/src/circuit_breaker.rs:69-104 | in every reachable state a breaker is Closed{k} if and only if k outcomes since the last success failed and k is zero or below the failure threshold |
| GatewayRuns.FailureListsTheRoute | crates/vil_ai_gateway/src/gateway.rs:157-232 | `AllProvidersFailed` lists each entry of the route once, in route order |
| GatewayRuns.RequestsAddUp | crates/vil_ai_gateway/src/gateway.rs:150-231 | at any time requests are successes plus failures plus chats without providers plus chats in flight |
| GatewayRuns.QuiescentAccounts | crates/vil_ai_gateway/src/gateway.rs:149-232 | at rest, health requests are failovers plus chats with an admission, health requests minus errors are successes, and health requests plus rejections are all entries tried |
| GatewayProgress.ChatFinishes | crates/vil_ai_gateway/src/gateway.rs:149-232 | however chats are interleaved, a chat takes at most eight steps for each entry of its route and one more, and has finished once it has taken them |
| GatewayProgress.UnfinishedCanMove | crates/vil_ai_gateway/src/gateway.rs:149-232 | a chat that has not finished can always take its next step |
| Gateway.AiGateway.constructor | crates/vil_ai_gateway/src/gateway.rs:109-130 | one closed breaker per model, and the initial state of the protocol |
| Gateway.AiGateway.TryAdmit | crates/vil_ai_gateway/src/gateway.rs:160-162 | the admission decision is that of the protocol steps, and only this chat moves |
| Gateway.AiGateway.CallProvider | crates/vil_ai_gateway/src/gateway.rs:170-182 | counts the attempt, a failover from the second attempt on, and takes the provider's reply |
| Gateway.AiGateway.Report | crates/vil_ai_gateway/src/gateway.rs:187-227 | health takes one sample, the latency of an answer or an error, and then the breaker takes the reply |
| Gateway.AiGateway.Chat | crates/vil_ai_gateway/src/gateway.rs:149-232 | a chat returns the outcome the protocol assigns to it, which fits its route (nobody to ask, a note for every entry in order, or an answer by a model of the route) and its replies (every note is a refusal or that provider's own message, an answer comes from a provider that answered), leaves other chats alone, and leaves the gateway in a reachable state |
| Gateway.AiGateway.RouteAndChat | crates/vil_ai_gateway/src/gateway.rs:149-232 | the whole entry point: the route is a permutation of the configured providers chosen by the policy, and the chat runs over it |
| Routing.StableSortIsStable | crates/vil_ai_gateway/src/gateway.rs:264-291 | sorting by a key orders the providers, loses none, and keeps those with equal keys in their original order |
| Routing.RotationIsPermutation | crates/vil_ai_gateway/src/gateway.rs:299-305 | a rotation loses no provider |
| Routing.Router.RouteOrder | crates/vil_ai_gateway/src/gateway.rs:258-308 | every policy returns a permutation of the providers: unchanged, stably sorted, or entry i being provider (counter + i) mod n, with the counter moving on by one |
| Routing.EachProviderLeadsOnce | crates/vil_ai_gateway/src/gateway.rs:293-305 | among as many consecutive counter values as there are providers each provider comes first exactly once |
| Routing.EachLeadsOnceExactly | crates/vil_ai_gateway/src/gateway.rs:293-305 | each of n providers leads exactly once in n consecutive draws of the wrapping counter if and only if the draws do not cross the wrap or n divides the counter's range |
| Tokens.WordsSplit | crates/vil_chunker/src/strategy.rs:52-56 | the words of a text split at any cut beside a blank |
| Tokens.EstimateIsCeiling | crates/vil_chunker/src/strategy.rs:52-56 | the token estimate is the least whole number not below 1.3 a word, so a budget holds it exactly when it holds 1.3 a word |
| Tokens.BlankCodePoints | crates/vil_chunker/src/strategy.rs:52-56 | the blanks are the code points 9, 10, 12, 13 and 32 |
| Tokens.TrimWords | crates/vil_chunker/src/semantic.rs:105-105 | trimming loses no word and leaves no blank at either end |
| Tokens.TrimDropsBlanks | crates/vil_chunker/src/semantic.rs:105-105 | trimming drops nothing but blanks at the two ends |
| SentenceChunker.SplitSentences | crates/vil_chunker/src/semantic.rs:90-129 | returns the sentences of the text, and their words are the words of the text |
| SentenceChunker.SentencesUnique | crates/vil_chunker/src/semantic.rs:90-129 | the definition of the sentences of a text leaves no choice |
| SentenceChunker.SentenceEndsAtMark | crates/vil_chunker/src/semantic.rs:97-129 | a sentence ends at the first full stop, exclamation or question mark in front of a blank, or with the text |
| SentenceChunker.CloseSentence | crates/vil_chunker/src/semantic.rs:104-114 | closing a sentence at a boundary extends the split and skips the blanks behind it |
| SentenceChunker.WouldOverflow | crates/vil_chunker/src/semantic.rs:32-38 | the sentence is turned away exactly when the buffer is not empty and 1.3 tokens a word exceed the budget |
| SentenceChunker.Flush | crates/vil_chunker/src/semantic.rs:40-51 | the flushed chunk carries exactly the buffered sentences |
| SentenceChunker.GroupSentences | crates/vil_chunker/src/semantic.rs:26-82 | the chunks are the greedy grouping of the sentences under the budget at 1.3 tokens a word, each with its words' token count rounded up |
| SentenceChunker.GreedyStaysAhead | crates/vil_chunker/src/semantic.rs:31-64 | after any number of groups the greedy grouping has placed at least as many sentences as any other |
| SentenceChunker.GreedyIsOptimal | crates/vil_chunker/src/semantic.rs:31-82 | greedy grouping uses the fewest groups of any in-order grouping within the budget |
| SentenceChunker.ChunksKeepWords | crates/vil_chunker/src/semantic.rs:20-86 | the chunks' words, one after the other, are the words of the sentences |
| SentenceChunker.Chunker.Chunk | crates/vil_chunker/src/semantic.rs:21-85 | no word is lost, added or moved, a chunk with more than the budget at 1.3 tokens a word is a single sentence, each chunk counts its tokens rounded up, and no other grouping of the same sentences needs fewer chunks |
| SentenceSlices.ChunkIsSliceExactly | crates/vil_chunker/src/semantic.rs:40-51 | for one chunk: the text from its start to its end is its content if and only if its own sentences start at a non-blank and are separated by single ' ' characters |
| SentenceSlices.AlwaysSlicesExactly | crates/vil_chunker/src/semantic.rs:20-86 | for one text: all chunks are slices of it, under every budget, if and only if it starts at a non-blank and separates its sentences by single ' ' characters |
| SentenceSlices.TwoBlanksMisplace | crates/vil_chunker/src/semantic.rs:40-51 | for the text `A.  B.` the chunk `A. B.` claims the positions 0 to 5, where the text reads otherwise |
| SlidingWindow.WordSpans | crates/vil_chunker/src/sliding.rs:32-51 | exactly one span per word, in order, with no word cut |
| SlidingWindow.SliceWords | crates/vil_chunker/src/sliding.rs:63-65 | the text between two spans holds exactly the words from one to the other |
| SlidingWindow.StitchedWords | crates/vil_chunker/src/sliding.rs:61-83 | the first window's words and every later window's words minus the overlap are the words covered so far |
| SlidingWindow.WindowWords | crates/vil_chunker/src/sliding.rs:57-66 | window k holds the words from k steps on, as many as the window takes or the text has left |
| SlidingWindow.CompleteCount | crates/vil_chunker/src/sliding.rs:57-83 | windows that stop at the first one reaching the end number one plus the started steps beyond the first window |
| SlidingWindow.SlidingWindowChunker.constructor | crates/vil_chunker/src/sliding.rs:15-22 | accepts exactly the parameters the assertions allow |
| SlidingWindow.SlidingWindowChunker.Chunk | crates/vil_chunker/src/sliding.rs:26-86 | every window is the exact slice of the text holding its words, with 1.3 tokens a word rounded up; windows stitched without overlap give back all words; and there are exactly 1 + ceil(max(0, n - W) / (W - overlap)) of them |

## Left out

- Compiler.Compile: requires edges in range, which `DagBuilder.Build` establishes; for a hand-made DAG with an edge out of range the source panics. What is proved about meaning, reachability and execution of a plan assumes unique ids, which `Build` establishes too.
- Compiler.CollectOperations: keeps fused operations as a sequence of names; the source prints them joined by " | ".
- Gateway.AiGateway.Chat: runs one chat at a time on the object; interleavings of chats are covered by the protocol the method refines. Chats are assumed not to be cancelled while they wait.
- Gateway.AiGateway.RouteAndChat: counts the request after the route is chosen, where the source counts it before; the two do not touch the same state. The price and latency keys are not tied to the cost and health trackers.
- Breaker.CircuitBreaker.CanProceed: runs both phases without interruption; other requests between the phases are covered by the protocol, whose phases are separate steps. Time is a natural number of nanoseconds that never decreases, compared in whole milliseconds; the truncation of elapsed milliseconds to 64 bits is not modelled.
- Routing.Router.RouteOrder: costs and latencies are arbitrary real keys read once; incomparable floating-point values and keys that change while sorting are not modelled.
- Tokens.WordsSplit: blanks are the space, tab, line feed, form feed and carriage return, and a character is one byte; the vertical tab, which `trim` and `split_whitespace` of the source treat as blank but `is_ascii_whitespace` does not, Unicode white space and multi-byte characters are not modelled. The token estimate is the exact ceiling of 13/10 of the word count, without floating-point rounding.
- Tokens.TrimWords: trims these five blanks only, on one-byte characters.
- SentenceChunker.SplitSentences: trims and skips these five blanks only, on one-byte characters.
- SlidingWindow.WordSpans: separates words at these five blanks only, on one-byte characters.
- Health.HealthTracker.RecordSuccess: the time of the last success is left out.
- Health.HealthTracker.RecordFailure: the time of the last failure is left out.
- Health.HealthRefinesSamples: average and 99th-percentile latency and `best_model` are left out; error rates are exact fractions.
- Metrics.GatewayMetrics.RecordRequest: 64-bit overflow of the counters and the success rate of the snapshot are left out.
- Executor.Execute: handlers are functions of the step and the completed ids; handlers with hidden state and logging are left out.
- RouteCheck.CheckRoutes: hash iteration order is an arbitrary order of the keys, which a set iteration chooses freely in the model.
- Cost tracking, response contents, configuration builders, HTTP handlers and logging of the gateway.
- Printing, file checks and node-type checks of `vil check`.
- Chunk metadata, and the table and code chunkers.
