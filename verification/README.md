# Verified models of Rolldown

Dafny models of the parts of Rolldown whose correctness is hardest to see from the code, with proofs.
`dafny verify dfyconfig.toml` checks everything.

* **Retained sizes** (`Digraph`, `DepthFirst`, `DominatorForest`, `Dominators`, `Weights`, `RetainedSizes`,
  `Worklist`, `GraphAnalysis`). The graph analysis behind the bundle metrics: a depth-first numbering, iterative
  dominators over a shared parent array, one fold for the retained sizes. The result is proved against graph
  reachability alone: what a module retains is what becomes unreachable without it.
* **Dev engine** (`TaskInputs`, `BundlingTasks`, `Coordinator`, `CoordinatorProtocol`, `CoordinatorLimits`,
  `CoordinatorHistory`, `EnsureLatest`). The coordinator is a class whose methods are proved equal to functions on its
  state; those functions, a FIFO mailbox and at most one task in flight form a transition system, about whose runs the theorems are. A task sends its one
  completion message before its future resolves.
* **Patch delivery** (`PatchIds`, `PendingPayloads`, `DeliveryProtocol`). Ship maps, pending payloads and sequence
  numbers under arbitrary interleavings of lock sections; each entry point is proved to be a sequence of the
  protocol's actions.
* **Wrapped-module initialization** (`InitTargets`, `InitRouter`, `InitRoutes`, `EagerPaths`, `EntryInits`,
  `InitDelegation`, `InitDemands`, `InitCoverage`, `InitCompletion`, `InitDelegationLimits`, `InitNamespaceChains`).
  Which `init_*` calls an import record owns, and which a same-chunk forwarder makes.
* **File emitter** (`FileEmitters`, `EmitterRuns`). Deduplication, renaming and re-flushing over whole runs.
* **Smaller pieces**: `JsonExpressions`, `JsonMeaning` and `ObjectLiterals` (computed `__proto__` keys), `GlobPaths`,
  `GlobSegments`, `GlobWalk` and `GlobResults` (import globs), `DynamicGlobs` (globs of dynamic imports), `WorkerPool`
  (worker permits).
* `Sets`, `Sorting`, `Strings` and `Wrappers` are shared helpers.

## Where a promise does not hold as it stands

* `InitDelegation`: with a cycle of partial forwarders, the comment at
  `crates/rolldown/src/esm_init_obligations.rs:1015-1016` says that the visited cut keeps a redundant init and never
  drops one. `RingEmitsIfEven` shows that the cut alternates: an even cycle keeps it everywhere, an odd cycle drops it
  everywhere (statements that tree shaking excluded are served elsewhere and are not part of this model).
* The early-out at lines 413-420 of that file relies on the forwarder, which need not demand what is delegated to it: a
  read of `u.x` demands the owner of `x`, but a forwarder that re-exports the namespace `u` again demands nothing for it.
  If a later statement of such a chain is excluded, nobody whom the importer reaches over obligations calls the owner, and
  if the last two are, no module does. `EmittedIffSettled` is the exact condition for any program,
  `NamespaceReadIsCoveredIff` for chains of every length, `NamespaceReadCanBeLost` a program. `DelegationLosesNothing` is
  what holds. An unwrapped module also runs at its own place in the chunk, which none of this counts.
* Even without cycles a demanded target need not be emitted itself, as the forwarder may stop at a wrapped barrel in front
  of it (`LeafIsLeftToBarrel`); `DemandIsInitialized` says that the target is initialized in the end.
  A member read of a binding that is also taken whole demands only what the binding stands for
  (`TakenWholeHidesMember`); `DemandIff` is the exact demand of any record.
* `Coordinator`: `Idle` does not mean that the queue is empty: `IdleWithQueueIff` says exactly when, `IdleWithQueuedTask`
  is a run. A change parked behind a failed full build can stay parked while the output counts as fresh: `ParkedIff` says
  exactly when changes are parked, `FreshWithParkedChange` is a run. After a failed rebuild the next task must include a
  rebuild (`crates/rolldown_dev/src/bundle_coordinator.rs:212-216`), but an edit that was queued before the failure
  follows it without one: `FailedRebuildIsRebuiltIff` says exactly when, `QueuedEditDoesNotRebuild` is a run.
* `FileEmitters`: an emitted content can be lost if its id is shared with an asset of a given file name or with a flushed
  prebuilt chunk. `EmissionIsCovered` gives the exact condition, `GivenNameCanDropContent` an instance. A prebuilt chunk
  that is emitted with other code after its first flush is not output again (`ReemittedChunkIsDropped`); `ChunkIsLatestIff`
  says exactly when the last emission is what was output.
* `GlobPaths`: the split of path and pattern panics exactly if the longest common byte suffix of the two begins inside a
  character (`Split`, `SplitCanFail`).
* `DynamicGlobs`: backslashes in literals are not escaped (`BackslashIsLost`). The pattern is exact if and only if there
  is none (`ExactIffNoBackslash`); the same holds for missing none of the texts (`NothingMissedIffNoBackslash`).
* `WorkerPool`: dropping an unfinished `acquire_all` loses the permits it has (`CancelConservesIff`), and two of them can
  block each other: `CanGetStuckIff` says for which pools, `OneCollectorNeverStuck` that it takes two.

## Assumptions

* Sizes and byte sums are natural numbers; `u64` wrap-around is not modelled. Module ids are indices.
* A bundling run, an HMR computation, a lazy compile, the file watcher and the plugins are arbitrary results that are given
  as parameters (`BundlingTasks.Environment`). A success with output is taken to cover everything handed to tasks so far.
* Client ids are not reused; ids come from a counter below 2^32.
* Hash maps iterate in an arbitrary order, which the methods choose nondeterministically.
* Content hashes and reference ids do not collide. A rendered and deconflicted file name is a parameter of an emission.
* File trees are finite, and do not change during a walk.

## Model

| member | source | states |
|---|---|---|
| GraphAnalysis.Analyze | crates/rolldown_devtools_metrics/src/graph.rs:52-250 | the whole analysis, for every module graph: no result exactly if there is no entry; otherwise each node has exact reachability, its true immediate dominator, the bytes and modules that become unreachable without it, and the totals agree with the graph |
| DepthFirst.PostOrder | crates/rolldown_devtools_metrics/src/graph.rs:92-120 | the explicit-stack search finishes each reachable vertex exactly once and no other, in an order where every vertex but the root has a predecessor that finishes later |
| DepthFirst.ForwardUnlessCycle | crates/rolldown_devtools_metrics/src/graph.rs:92-126 | an edge goes to a smaller or equal reverse post-order number only if it closes a cycle; on acyclic graphs the order is topological |
| GraphAnalysis.RpoNumbers | crates/rolldown_devtools_metrics/src/graph.rs:121-125 | each reachable vertex has the number of its position, no other vertex has one |
| GraphAnalysis.ReversedWithout | crates/rolldown_devtools_metrics/src/graph.rs:158-158 | the visiting order is the reverse post-order without the root |
| GraphAnalysis.StaticPredecessors | crates/rolldown_devtools_metrics/src/graph.rs:128-142 | the predecessor lists are exactly the static edges between reachable vertices, the root standing in for being an entry |
| DominatorForest.Intersect | crates/rolldown_devtools_metrics/src/graph.rs:147-157 | the two-finger climb ends, and its result is the vertex whose chain to the root is the intersection of the two chains |
| Dominators.StaleIsSafe | crates/rolldown_devtools_metrics/src/graph.rs:161-176 | during the first pass no pointer is left stale below a vertex that moves up, because of the visiting order |
| Dominators.PassStep | crates/rolldown_devtools_metrics/src/graph.rs:163-175 | visiting one vertex keeps: every strict dominator of a vertex dominates its parent, chains cover dominators, and changes are seen later in the same pass |
| Dominators.ChangeLowersSum | crates/rolldown_devtools_metrics/src/graph.rs:159-176 | after the first pass, a change strictly lowers the sum of the parents' numbers, so the loop ends |
| Dominators.FixpointIsDominatorTree | crates/rolldown_devtools_metrics/src/graph.rs:159-176 | when a pass changes nothing, the chain of every reachable vertex is exactly the set of vertices on every path from the root, also for irreducible graphs and self-loops |
| Dominators.ParentIsImmediateDominator | crates/rolldown_devtools_metrics/src/graph.rs:159-176 | the parent is the strict dominator that every other strict dominator dominates |
| Dominators.MeetPredecessors | crates/rolldown_devtools_metrics/src/graph.rs:164-172 | folding `intersect` over the processed predecessors yields the meet of their chains |
| Dominators.Pass | crates/rolldown_devtools_metrics/src/graph.rs:161-176 | one pass over the shared array keeps the invariant, and either changes nothing and is a fixpoint or lowers the sum of the parents' numbers |
| Dominators.ImmediateDominators | crates/rolldown_devtools_metrics/src/graph.rs:144-176 | the loop ends with the dominator tree of the graph |
| RetainedSizes.FoldIntoDominators | crates/rolldown_devtools_metrics/src/graph.rs:178-194 | the single post-order fold leaves in every vertex the sum over its dominator subtree |
| RetainedSizes.SiblingsAddUp | crates/rolldown_devtools_metrics/src/graph.rs:178-194 | subtrees of siblings are disjoint, and their sums add up to the weight of their union |
| GraphAnalysis.UnderIsLost | crates/rolldown_devtools_metrics/src/graph.rs:178-194 | a dominator subtree is exactly what becomes unreachable without its root |
| GraphAnalysis.RetainedIsLost | crates/rolldown_devtools_metrics/src/graph.rs:178-194 | `retained_bytes` is the weight of what becomes statically unreachable without the module |
| GraphAnalysis.UnreachableLosesNothing | crates/rolldown_devtools_metrics/src/graph.rs:213-240 | a module that is not statically reachable retains nothing |
| GraphAnalysis.TopsPartition | crates/rolldown_devtools_metrics/src/graph.rs:178-240 | the subtrees hanging off the virtual root partition the statically reachable modules, so their retained sizes sum to `static_bytes` |
| Worklist.MarkReachable | crates/rolldown_devtools_metrics/src/graph.rs:196-211 | the worklist marks exactly what the entries reach over static and dynamic edges |
| GraphAnalysis.Assemble | crates/rolldown_devtools_metrics/src/graph.rs:213-250 | the last loop builds one node per module from the tables above, and totals that are the sums over the static and the dynamic-only modules |
| TaskInputs.MergeKeepsWork | crates/rolldown_dev/src/types/task_input.rs:32-90 | merging two mergeable inputs covers every change either covers and still asks for every stage either asked for, unless a full build absorbs the other |
| TaskInputs.MergeableIff | crates/rolldown_dev/src/types/task_input.rs:32-60 | a full build absorbs any input; otherwise two inputs go together exactly if neither is a full build and both update or neither does |
| TaskInputs.MergeFrontKeepsCoverage | crates/rolldown_dev/src/bundle_coordinator.rs:341-352 | the merged task and what stays queued cover exactly what was queued before |
| TaskInputs.MergeFrontKeepsFullBuild | crates/rolldown_dev/src/bundle_coordinator.rs:341-352 | the merged task is a full build exactly if the front one is |
| TaskInputs.MergedQueueDoesWork | crates/rolldown_dev/src/bundle_coordinator.rs:341-352 | the front of the queue is merged up to the first input that does not go with it; the result asks for a stage exactly if one of them does, and has the latest change of every file |
| BundlingTasks.BundlingTask.Run | crates/rolldown_dev/src/bundling_task.rs:103-124 | one completion report per task, with the error stage and output flag of the stages that ran; what the update callback is told, and the sessions and payloads that are left |
| BundlingTasks.BundlingTask.RunInner | crates/rolldown_dev/src/bundling_task.rs:126-233 | a failing watch hook tells and changes nothing; a reload reason is told to all clients and replaces the HMR stage by a full build; otherwise an HMR stage pushes its updates, or fails and is reported; the callback is called at most once, and the flags are those of the stages that ran |
| BundlingTasks.BundlingTask.GenerateHmrUpdates | crates/rolldown_dev/src/bundling_task.rs:235-357 | success: every connected client's counter moves by the number of its patches, which carry the numbers in between and leave without their stamps, and every client keeps the newest eight of its old and new payloads; failure: sessions and payloads are untouched, and the task goes on only if the callback was told |
| PendingPayloads.DevContext.RecordPatches | crates/rolldown_dev/src/bundling_task.rs:304-323 | the payloads of a push are recorded one after the other, each with its own eviction, and the updates leave without their stamps |
| PendingPayloads.PushKeepsNewest | crates/rolldown_dev/src/bundling_task.rs:304-323 | evicting after every insertion of a push keeps, for every client, what one eviction after all of them would keep |
| BundlingTasks.BundlingTask.FinalErrorStage | crates/rolldown_dev/src/bundling_task.rs:78-90 | a rebuild error is reported if there is one, otherwise an HMR error if there is one, even after a rebuild that succeeded |
| BundlingTasks.FullBuildSuccessHasOutput | crates/rolldown_dev/src/bundling_task.rs:103-233 | a task that reports success after a full build produced output, which the coordinator relies on without looking |
| BundlingTasks.SuccessWithoutOutput | crates/rolldown_dev/src/bundling_task.rs:103-233 | a success without output is exactly an HMR-only task whose update was not upgraded |
| BundlingTasks.ReportTells | crates/rolldown_dev/src/bundling_task.rs:103-233 | the report of every task by paths and stages: a changed tsconfig or a lost update upgrades it, when there is output, and which error comes first |
| Coordinator.BundleCoordinator.ScheduleIfStale | crates/rolldown_dev/src/bundle_coordinator.rs:313-384 | the whole new state: when idle or failed with something queued, the front tasks are merged and started; otherwise nothing changes |
| Coordinator.BundleCoordinator.HandleFileChanges | crates/rolldown_dev/src/bundle_coordinator.rs:187-245 | the whole new state: queued as a task, or parked while a full build runs; the kind of the task is that of CoordinatorHistory.EditAddsTask |
| Coordinator.BundleCoordinator.HandleWatchEvent | crates/rolldown_dev/src/bundle_coordinator.rs:181-186 | a batch of events becomes one map of changes before it is handled |
| Coordinator.BundleCoordinator.HandleBundleCompleted | crates/rolldown_dev/src/bundle_coordinator.rs:247-309 | the whole new state for each in-progress state and report: staleness, parked changes re-queued or kept, rescheduling |
| Coordinator.BundleCoordinator.EnsureLatestOutput | crates/rolldown_dev/src/bundle_coordinator.rs:388-440 | the reply and the new state in every state |
| Coordinator.BundleCoordinator.TriggerFull | crates/rolldown_dev/src/bundle_coordinator.rs:442-449 | the queue is replaced by a full build, which starts if nothing runs |
| Coordinator.BundleCoordinator.HandleModuleChanged | crates/rolldown_dev/src/bundle_coordinator.rs:148-165 | the queue and staleness after a lazily compiled module changed |
| Coordinator.BundleCoordinator.Run | crates/rolldown_dev/src/bundle_coordinator.rs:84-180 | the message loop handles the messages in order up to the close message |
| Coordinator.HandleKeepsAccount | crates/rolldown_dev/src/bundle_coordinator.rs:187-309 | a change that waits, is queued or was given to a task stays so over every message |
| Coordinator.AccountedForever | crates/rolldown_dev/src/bundle_coordinator.rs:84-309 | the same over every run, in any order of messages |
| Coordinator.NoChangeIsLost | crates/rolldown_dev/src/bundle_coordinator.rs:187-309 | every accepted file change is, ever after, waiting, queued, handed to a task, or subsumed by a full build |
| Coordinator.NoModuleChangeIsLost | crates/rolldown_dev/src/bundle_coordinator.rs:148-165 | the same for changes reported by lazy compiles |
| CoordinatorProtocol.AtMostOneTaskRuns | crates/rolldown_dev/src/bundle_coordinator.rs:247-384 | in every reachable state before close the future is present exactly in the two in-progress states, at most one task runs, so both unwraps are safe and no completion is ignored as unexpected |
| CoordinatorProtocol.RunHasOneTask | crates/rolldown_dev/src/bundle_coordinator.rs:247-440 | the full invariant of the FIFO mailbox, the running task and its single completion message |
| CoordinatorProtocol.FreshCoversAcceptedChanges | crates/rolldown_dev/src/bundle_coordinator.rs:187-309 | idle, nothing queued or waiting and not stale: every accepted change was handed to a task, and the last task succeeded with output |
| CoordinatorLimits.StallsIff | crates/rolldown_dev/src/bundle_coordinator.rs:181-384 | a message leaves the coordinator idle with a queue exactly if it ends a full build well before queued tasks with nothing parked, or it was so before and the message reschedules nothing |
| CoordinatorLimits.IdleWithQueueIff | crates/rolldown_dev/src/bundle_coordinator.rs:247-384 | in every run, idle with a queue holds exactly if some full build ended that way and only such messages were handled since |
| CoordinatorLimits.ParksIff | crates/rolldown_dev/src/bundle_coordinator.rs:181-384 | a message leaves changes parked outside a full build exactly if it fails the full build they waited for, or they were parked before and it neither is the next edit after a failed full build nor starts a full build |
| CoordinatorLimits.ParkedIff | crates/rolldown_dev/src/bundle_coordinator.rs:181-384 | in every run, changes are parked outside a full build exactly if some full build failed on them and no message since picked them up |
| CoordinatorLimits.IdleWithQueuedTask | crates/rolldown_dev/src/bundle_coordinator.rs:285-287 | a run with honest reports that ends idle with a queued task |
| CoordinatorLimits.FreshWithParkedChange | crates/rolldown_dev/src/bundle_coordinator.rs:269-283 | a run with honest reports that ends with output that counts as fresh and a change still parked |
| CoordinatorHistory.RunRemembers | crates/rolldown_dev/src/bundle_coordinator.rs:187-384 | in every run, the state tells whether a full build runs, or how the task that ended last ended; after a failure short of a full build nothing is queued |
| CoordinatorHistory.EditAddsTask | crates/rolldown_dev/src/bundle_coordinator.rs:187-245 | in every run, an edit outside a full build adds one input for the latest change of each file: a full build after a failed one, otherwise an update, with a rebuild if and only if the option says always or no task has started since one failed in its rebuild stage |
| CoordinatorHistory.RecoveringEditRebuilds | crates/rolldown_dev/src/bundle_coordinator.rs:209-225 | the edit that follows a failed rebuild starts at once, alone, and rebuilds |
| CoordinatorHistory.EditWaitsForFullBuild | crates/rolldown_dev/src/bundle_coordinator.rs:192-196 | an edit during a full build starts and queues nothing; it waits and replaces what waited for the same file |
| CoordinatorHistory.EndGoesOn | crates/rolldown_dev/src/bundle_coordinator.rs:247-309 | what the end of a task starts: a failed full build nothing, a successful one what waited for it after what is queued, any other task the queue |
| CoordinatorHistory.RequestsStart | crates/rolldown_dev/src/bundle_coordinator.rs:148-180 | what each request adds and starts, in every state of every run |
| CoordinatorHistory.FailedRebuildIsRebuiltIff | crates/rolldown_dev/src/bundle_coordinator.rs:205-225 | in every run, the task after one that failed in its rebuild stage rebuilds if and only if nothing was queued at the failure or what was merged from the queue does |
| CoordinatorHistory.QueuedEditDoesNotRebuild | crates/rolldown_dev/src/bundle_coordinator.rs:205-225 | a run where an edit queued before the failure follows it without a rebuild |
| CoordinatorHistory.StaleIff | crates/rolldown_dev/src/bundle_coordinator.rs:247-309 | in every run, the output counts as stale exactly if no task has ended, the last one was no success with output, or a lazily compiled module has changed since |
| EnsureLatest.CompletionLowersBacklog | crates/rolldown_dev/src/bundle_coordinator.rs:247-309 | handling a completion strictly lowers queued tasks plus running task plus one for parked changes |
| EnsureLatest.EnsureReply | crates/rolldown_dev/src/bundle_coordinator.rs:388-440 | which reply `ensure_latest_bundle_output` gets, and what it does to the backlog |
| EnsureLatest.CallMayStartAnyTime | crates/rolldown_dev/src/dev_engine.rs:244-295 | every state the coordinator can reach before close is one in which a call may start |
| EnsureLatest.LoopCountIsBounded | crates/rolldown_dev/src/dev_engine.rs:244-295 | if nobody else sends during the call, the retry loop asks at most once more than the backlog plus the messages already waiting, so below 100 of these it never gives up |
| EnsureLatest.StepDoesWork | crates/rolldown_dev/src/dev_engine.rs:244-295 | every step of loop, coordinator and task lowers a measure: the call ends |
| EnsureLatest.NeverStuck | crates/rolldown_dev/src/dev_engine.rs:244-295 | a call that has not ended always has a step, because the completion message is sent before the future resolves |
| EnsureLatest.EndsSettled | crates/rolldown_dev/src/dev_engine.rs:244-295 | when it ends without giving up, the output is fresh with nothing queued, unless a build failed |
| PatchIds.PatchIdInvertsName | crates/rolldown_dev/src/dev_context.rs:85-95 | `patch_id_of` inverts the decimal file-name format, for every prefix and every 32-bit id |
| PatchIds.PatchIdOfBothKinds | crates/rolldown_dev/src/dev_context.rs:85-95 | it does so for both kinds of file name the engine makes |
| PatchIds.PatchIdOfName | crates/rolldown_dev/src/dev_context.rs:85-95 | the id of any name at all: the number between its last `_` and `.js`, with or without a plus sign, if it fits 32 bits, and 0 otherwise |
| PatchIds.NamesAreDistinct | crates/rolldown_dev/src/dev_context.rs:85-95 | names of different ids never collide, even across kinds |
| PendingPayloads.DevContext.InsertPendingPayload | crates/rolldown_dev/src/dev_context.rs:61-82 | after an insertion the client keeps at most eight payloads, those with the highest patch ids; other clients' are untouched |
| PendingPayloads.KeptEntriesAreUnique | crates/rolldown_dev/src/dev_context.rs:61-82 | what is kept does not depend on the iteration order of the map |
| PendingPayloads.DroppingKeepsNewest | crates/rolldown_dev/src/dev_context.rs:61-82 | dropping all but the last eight of the sorted entries keeps the newest |
| PendingPayloads.KeptAreHighest | crates/rolldown_dev/src/dev_context.rs:61-95 | of a client's entries exactly those are kept that fewer than eight others come after, by the number in the name and then by name |
| PendingPayloads.NewPayloadIsKept | crates/rolldown_dev/src/dev_context.rs:61-95 | a payload whose name has an id above all pending ones of its client stays, and nothing that is dropped has a higher id than what stays |
| PendingPayloads.PushKeepsHighest | crates/rolldown_dev/src/bundling_task.rs:304-323 | a whole push leaves each client the entries with the eight highest ids among its old and new ones |
| PendingPayloads.DevContext.RegisterClient | crates/rolldown_dev/src/dev_engine.rs:316-326 | a registered client starts with an empty session; nobody else changes |
| PendingPayloads.DevContext.RemoveClient | crates/rolldown_dev/src/dev_engine.rs:328-340 | the session and all of the client's pending payloads go |
| PendingPayloads.DevContext.NotifyPayloadDelivered | crates/rolldown_dev/src/dev_engine.rs:342-353 | the payload is consumed at most once and max-merged into its client's ship map |
| PendingPayloads.DevContext.AssignSeqs | crates/rolldown_dev/src/bundling_task.rs:285-302 | each session's counter moves by the number of its patches, the patches carry the numbers in between in order, and a patch without a session keeps its number |
| DeliveryProtocol.NotifyTakesThenMerges | crates/rolldown_dev/src/dev_engine.rs:342-353 | a delivery report does to the maps what taking the payload and then merging it does in the protocol |
| DeliveryProtocol.RegisterReadsThenInserts | crates/rolldown_dev/src/dev_engine.rs:316-326 | a registration is reading the top-level map and then inserting the session |
| DeliveryProtocol.RemoveDropsSessionThenPayloads | crates/rolldown_dev/src/dev_engine.rs:328-340 | a removal is dropping the session and then the payloads |
| DeliveryProtocol.InsertIsInsertPayload | crates/rolldown_dev/src/dev_context.rs:61-82 | an insertion with its eviction is one action of the protocol |
| DeliveryProtocol.AssignNumbersPatches | crates/rolldown_dev/src/bundling_task.rs:285-302 | numbering a push is numbering its patches one by one, and each number is sent |
| DeliveryProtocol.PushFollowsProtocol | crates/rolldown_dev/src/bundling_task.rs:285-323 | a whole push is a run of enabled actions with the same effect, and keeps the invariant of the protocol |
| DeliveryProtocol.ShippedIsMaximumOfDeliveries | crates/rolldown_dev/src/dev_engine.rs:316-353 | under every interleaving of lock sections (client ids fresh), a ship map is the maximum over the payloads delivered while pending, each counted once |
| DeliveryProtocol.MergeIsMaximum | crates/rolldown_dev/src/dev_engine.rs:342-353 | the max-merge computes the maximum of everything merged so far |
| DeliveryProtocol.MaximumIsUnique | crates/rolldown_dev/src/dev_engine.rs:342-353 | that maximum ignores order and repetition |
| DeliveryProtocol.ShippedNeverDecreases | crates/rolldown_dev/src/dev_engine.rs:316-353 | a ship map never loses a module or lowers a stamp |
| DeliveryProtocol.NumbersHaveNoGaps | crates/rolldown_dev/src/bundling_task.rs:285-323 | in every run the patches of a session carry 1, 2, 3, … without gaps, and no client has more than eight pending payloads |
| DeliveryProtocol.SnapshotIsFrozen | crates/rolldown_dev/src/dev_engine.rs:308-324 | in every run, a session has the top-level map as it was when its client began to register |
| InitRouter.RouteTargets | crates/rolldown/src/esm_init_obligations.rs:1076-1195 | the explicit stack with reversed pushes and deferred targets yields what the recursive source-order search with a shared visited set yields, and ends |
| InitRouter.Route | crates/rolldown/src/esm_init_obligations.rs:1086-1195 | the loop keeps: targets so far followed by the recursive search over the stack is the whole answer |
| InitRouter.PopVisit | crates/rolldown/src/esm_init_obligations.rs:1105-1190 | popping a fresh module and pushing its children in reverse leaves the same work |
| InitRouter.RouteYieldsEachTargetOnce | crates/rolldown/src/esm_init_obligations.rs:1076-1195 | each target appears at most once per call: exactly the own targets of the modules visited first in it |
| InitRoutes.RouteFollowsSourceOrder | crates/rolldown/src/esm_init_obligations.rs:1140-1192 | each target lies at the end of a trail of records from the root over newly visited modules, and the trails ascend: what comes through an earlier record stands before what comes through a later one, and a module's own initializer behind all that its records yield |
| InitRoutes.RouteOutcome | crates/rolldown/src/esm_init_obligations.rs:1076-1195 | one call, by the module table alone: it visits what paths of followed records reach, misses nothing these lead to, and yields each carrier and initializer that such a module contributes once, and nothing else |
| EagerPaths.CollectEagerRetainedPathModules | crates/rolldown/src/esm_init_obligations.rs:1203-1235 | a module is eager exactly if a path of retained imports reaches it through modules with side effects only |
| EagerPaths.RouteRetained | crates/rolldown/src/esm_init_obligations.rs:1076-1110 | the router with a retained path uses exactly that set |
| EntryInits.EmissionIsFilteredRegistration | crates/rolldown/src/esm_init_obligations.rs:200-265 | the emitted calls are the registered ones whose wrapper the chunk has a name for, in the same order |
| EntryInits.EachWrapperOnceInOrder | crates/rolldown/src/esm_init_obligations.rs:200-265 | each wanted wrapper is called, that of the first export by name that asks for it; no wrapper is called at two positions, the calls ascend by execution order, and nothing else is called |
| EntryInits.IterationOrderIsIrrelevant | crates/rolldown/src/esm_init_obligations.rs:200-265 | the result does not depend on the order in which the export map iterates |
| InitDelegation.CollectTargets | crates/rolldown/src/esm_init_obligations.rs:386-547 | the collector with its early-out, wrapper stop, name rules and subtraction returns what the recursive specification returns |
| InitDemands.DemandIff | crates/rolldown/src/esm_init_obligations.rs:405-547 | a record demands a target if and only if it calls the importee as a whole, the importee initializes the rest itself, a carrier of a local route has it, or the module's own statements, exports and imports need a symbol that leads to it |
| InitDemands.MemberReadIsDemanded | crates/rolldown/src/esm_init_obligations.rs:731-841 | for a namespace import and a named one alike, an included read of a member demands what the member leads to |
| InitDemands.WholeUseIsDemanded | crates/rolldown/src/esm_init_obligations.rs:466-500 | a binding that is used, re-exported or read as a whole demands all it stands for |
| InitDemands.TakenWholeHidesMember | crates/rolldown/src/esm_init_obligations.rs:474-500 | a program where a member that is read is not demanded, because the binding is also taken as a whole |
| InitDemands.ObligationIff | crates/rolldown/src/esm_init_obligations.rs:70-149 | the records a module emits for, by its statements |
| InitDemands.EmitsOwnDemand | crates/rolldown/src/esm_init_obligations.rs:405-437 | a record whose importee is no unwrapped module of the same chunk emits its whole demand |
| InitDemands.LeavesAllToForwarder | crates/rolldown/src/esm_init_obligations.rs:405-420 | such a module is left to call everything: always off strict mode, in strict mode if every static import of it is emitted |
| InitDemands.SharesWithForwarder | crates/rolldown/src/esm_init_obligations.rs:521-535 | otherwise the record emits the difference, and all of it on the way round a cycle |
| InitDelegation.DischargedTargets | crates/rolldown/src/esm_init_obligations.rs:1017-1065 | the forwarder's obligations are collected in statement order with the visited set threaded through |
| InitDelegation.EmitsOnlyWhatIsDemanded | crates/rolldown/src/esm_init_obligations.rs:527-547 | subtraction only removes: nothing is emitted that the record does not demand |
| InitDelegation.DischargedIsDemanded | crates/rolldown/src/esm_init_obligations.rs:1017-1065 | whatever a forwarder is credited with, one of its own obligations demands, and in strict mode one that the early-out does not let off, whatever was visited before |
| InitCoverage.EmittedIffSettled | crates/rolldown/src/esm_init_obligations.rs:386-547 | strict mode, no cycle among the forwarders reached, no assumption on linking: the importer or a forwarder it reaches over obligations emits the target if and only if one of them has an obligation that demands it and is not let off by the early-out |
| InitCoverage.CoveredIffSettled | crates/rolldown/src/esm_init_obligations.rs:386-547 | the same equivalence for coverage, where a call to a wrapped module in front of the target also counts |
| InitCoverage.RouteDemands | crates/rolldown/src/esm_init_obligations.rs:448-521 | what an export has one hop away is demanded by the exporter's own record for it, unless that record stops at a wrapper in front |
| InitCoverage.CarriedIsCovered | crates/rolldown/src/esm_init_obligations.rs:405-521 | a chain of re-exports over any number of modules and namespaces, each record of which is an obligation of its module, covers the target at its end |
| InitCoverage.OwnHopIsObligation | crates/rolldown/src/esm_init_obligations.rs:985-1003 | a forwarder that passes the early-out check emits the record behind each of its exports |
| InitCoverage.KeptHopsCarry | crates/rolldown/src/esm_init_obligations.rs:405-437 | with consistent linking, every delegation relies on a carried chain as soon as the further hops of the chains are obligations too |
| InitCoverage.DelegationLosesNothing | crates/rolldown/src/esm_init_obligations.rs:405-547 | strict mode, no cycle among the forwarders reached: if what the early-out delegates relies on carried chains, every demand is covered, that is, emitted by the importer or a forwarder it reaches, or behind a wrapper whose `init_*` one of them emits |
| InitCoverage.UnshadowedTargetIsEmitted | crates/rolldown/src/esm_init_obligations.rs:405-547 | with no called wrapper in front of it, the target itself is emitted by one of them |
| InitNamespaceChains.NamespaceReadIsCoveredIff | crates/rolldown/src/esm_init_obligations.rs:405-437 | a member read through a namespace that any number of forwarders re-export is linked and demanded whatever tree shaking keeps; it is covered if and only if the first re-export is not kept or all up to the namespace re-export are, and called by no module at all if and only if the first is kept and the last two are not |
| InitNamespaceChains.ChainIsCoveredIff | crates/rolldown/src/esm_init_obligations.rs:405-437 | the same for all modules that act as such a chain, where it is also exactly when the delegations are carried |
| InitNamespaceChains.NamespaceReadCanBeLost | crates/rolldown/src/esm_init_obligations.rs:405-437 | the shortest such program that is consistently linked and not covered |
| InitCompletion.DemandIsInitialized | crates/rolldown/src/esm_init_obligations.rs:386-547 | strict mode, no import cycle in what the importer reaches, carried delegations, wrapped modules that carry what lies behind them: running the importer initializes every demanded target, through the calls emitted on the way and the wrapped modules these open |
| InitCompletion.BehindIsInitialized | crates/rolldown/src/esm_init_obligations.rs:405-547 | what lies behind a wrapped module is initialized by running that module |
| InitDelegationLimits.RingEmitsIfEven | crates/rolldown/src/esm_init_obligations.rs:1015-1036 | on a cycle of partial forwarders that ask each other for one target, every member emits it if the cycle is even and none if it is odd |
| InitDelegationLimits.LinkedRingDropsLeaf | crates/rolldown/src/esm_init_obligations.rs:1015-1036 | a consistently linked cycle of three whose wrapped leaf no member emits |
| InitDelegationLimits.LeafIsLeftToBarrel | crates/rolldown/src/esm_init_obligations.rs:405-437 | an acyclic program where nobody emits the demanded leaf itself, because the forwarder emits the wrapped barrel before it |
| InitDelegationLimits.BarrelInitializesLeaf | crates/rolldown/src/esm_init_obligations.rs:405-437 | there the leaf is initialized all the same, by the barrel |
| FileEmitters.FileEmitter.EmitFile | crates/rolldown_common/src/file_emitter.rs:174-256 | the whole new state of an emission: rejected names, deduplication and the re-picked shortest name, insertion, and the failures that change nothing |
| FileEmitters.FileEmitter.InsertNewFile | crates/rolldown_common/src/file_emitter.rs:333-363 | insertion marks an already flushed entry dirty exactly if its content changed |
| FileEmitters.FileEmitter.FlushAssets | crates/rolldown_common/src/file_emitter.rs:365-408 | the flush outputs each dirty entry once, sorted by file name, drains it, and records the hash of what was flushed, in any iteration order |
| FileEmitters.FileEmitter.AddAdditionalFiles | crates/rolldown_common/src/file_emitter.rs:365-445 | the whole flush; the number of conflict warnings does not depend on the iteration order |
| FileEmitters.FlushLeaves | crates/rolldown_common/src/file_emitter.rs:365-445 | a flush empties each dirty entry and records its hash, marks all entries and chunks, and takes the lower-case name of every first flush and no other |
| FileEmitters.FlushedAssetsAreOrdered | crates/rolldown_common/src/file_emitter.rs:395-411 | the assets come in the byte order of their file names, one for each dirty entry, its names by length and then in byte order |
| FileEmitters.FileEmitter.EmitPrebuiltChunk | crates/rolldown_common/src/file_emitter.rs:168-172 | a prebuilt chunk is stored under the id of its file name |
| EmitterRuns.EmissionIsCovered | crates/rolldown_common/src/file_emitter.rs:174-256 | after a successful emission its content is held in full or already flushed exactly if its id is not shared with another kind of entry |
| EmitterRuns.LatestContentIsNeverLost | crates/rolldown_common/src/file_emitter.rs:174-411 | over any run without shared ids, an asset not marked emitted holds its latest content, and after a flush the last flushed content of every asset is its last emitted one |
| EmitterRuns.ShortestNameWins | crates/rolldown_common/src/file_emitter.rs:193-218 | over any run of the build phase without a flush, an asset has all the names its content was emitted with, and the file name that was rendered for the shortest of them |
| EmitterRuns.ChunkIsLatestIff | crates/rolldown_common/src/file_emitter.rs:168-445 | over any such run, after a flush the flushed form of a prebuilt chunk is its last emitted one if and only if its last emission after its first flush since the reset, if any, did not differ from what that flush output |
| EmitterRuns.ReplacedAfterFirstFlush | crates/rolldown_common/src/file_emitter.rs:168-445 | read forward from that first flush, whatever is emitted and flushed later, the chunk stays as it was output then |
| EmitterRuns.ReemittedChunkIsDropped | crates/rolldown_common/src/file_emitter.rs:168-172 | emitting a prebuilt chunk, flushing, emitting it with other code and flushing again drops the new code |
| EmitterRuns.ReflushedIff | crates/rolldown_common/src/file_emitter.rs:333-363 | over any run without shared ids, an emission makes a flushed asset wait for the next flush if and only if its content is not what was flushed, and has no say about any other asset |
| EmitterRuns.SecondFlushAddsNothing | crates/rolldown_common/src/file_emitter.rs:365-445 | an immediate second flush finds nothing and changes nothing |
| EmitterRuns.FileNameIsStable | crates/rolldown_common/src/file_emitter.rs:193-218 | once an asset was flushed, or while the output phase lasts, its file name never changes, over any further run |
| EmitterRuns.GivenNameCanDropContent | crates/rolldown_common/src/file_emitter.rs:174-256 | an asset whose given file name is the hash text of another asset's content: emitting that content again loses it |
| JsonExpressions.JsonToJsExpression | crates/rolldown_plugin_utils/src/data_to_esm.rs:21-42 | the segment-copying loop computes the left-to-right rewriting of every key pattern after a delimiter |
| JsonExpressions.RewriteValue | crates/rolldown_plugin_utils/src/data_to_esm.rs:21-42 | rewriting the printed form of any value, inside any surrounding text, prints it with computed keys and leaves the rest to itself |
| JsonExpressions.RewriteComputesProtoKeys | crates/rolldown_plugin_utils/src/data_to_esm.rs:21-42 | for every JSON value, rewriting its compact text equals printing it with every `__proto__` key computed at every depth: no string and no longer key changes |
| JsonMeaning.EveryMemberIsOwn | crates/rolldown_plugin_utils/src/data_to_esm.rs:21-42 | read back as JavaScript, where a plain `__proto__` key sets the prototype, the rewritten text of every JSON value is the value with each member its object's own at every depth; without the rewriting each `__proto__` member would set the prototype |
| JsonExpressions.OnlyProtoStartsKey | crates/rolldown_plugin_utils/src/data_to_esm.rs:25-28 | the pattern begins at an opening quote only for the string `__proto__` with a colon behind it |
| JsonExpressions.FreshName | crates/rolldown_plugin_utils/src/data_to_esm.rs:59-66 | the loop ends with the first numbered name that is no key of the object |
| GlobPaths.GetCommonBase | crates/rolldown_plugin_vite_import_glob/src/utils.rs:452-489 | the longest prefix ending at a segment boundary in every glob path; the project root exactly if that prefix is empty |
| GlobSegments.BaseIsSharedSegments | crates/rolldown_plugin_vite_import_glob/src/utils.rs:452-489 | the base is the path segments that all glob paths begin with, and the project root if these are none or only the empty one before a leading slash |
| GlobPaths.SharedBoundary | crates/rolldown_plugin_vite_import_glob/src/utils.rs:462-481 | the scan of one path finds the longest shared boundary below the current one |
| GlobPaths.Split | crates/rolldown_plugin_vite_import_glob/src/utils.rs:85-90 | literal path followed by pattern is the resolved glob and the pattern has all glob characters of the common suffix; it fails exactly if the common suffix begins inside a UTF-8 character |
| GlobPaths.CommonSuffix | crates/rolldown_plugin_vite_import_glob/src/utils.rs:117-133 | the longest common suffix in bytes |
| GlobPaths.FindGlobSyntax | crates/rolldown_plugin_vite_import_glob/src/utils.rs:105-115 | the cut is at the last slash before the first glob character |
| GlobPaths.SplitCanFail | crates/rolldown_plugin_vite_import_glob/src/utils.rs:85-90 | two texts on which the split fails |
| GlobPaths.EscapedIsLiteral | crates/rolldown_plugin_vite_import_glob/src/utils.rs:93-103 | the escaped path matches exactly the path |
| GlobPaths.ToAbsoluteGlob | crates/rolldown_plugin_vite_import_glob/src/utils.rs:93-103 | the loop computes the escaped path followed by the pattern |
| GlobWalk.FollowLink | crates/rolldown_plugin_vite_import_glob/src/utils.rs:156-172 | the branch is extended by the link's target, and refused exactly if an earlier walk went through it |
| GlobWalk.FollowKeepsBranch | crates/rolldown_plugin_vite_import_glob/src/utils.rs:156-172 | the roots of the walks on a branch stay pairwise distinct |
| GlobWalk.DepthIsBounded | crates/rolldown_plugin_vite_import_glob/src/utils.rs:578-612 | the nesting depth is at most the number of directories |
| GlobWalk.WalkTree | crates/rolldown_plugin_vite_import_glob/src/utils.rs:578-612 | the stack of iterators yields the recursive walk with linked directories in place, and ends on every finite tree whatever its links |
| GlobWalk.FoundIffReachable | crates/rolldown_plugin_vite_import_glob/src/utils.rs:137-172 | refusing circular links loses nothing: a file is found exactly if subdirectories and links lead to it |
| GlobResults.WalkShowsFiles | crates/rolldown_plugin_vite_import_glob/src/utils.rs:137-172 | a file is found if and only if a path of names that are not hidden leads to it over directories and links, and it is shown under such a path |
| GlobResults.FilesComeInOrder | crates/rolldown_plugin_vite_import_glob/src/utils.rs:578-612 | the files come in ascending order of the paths they are shown under, so a linked directory stands where its link does and no path comes twice |
| GlobWalk.EveryReachableFileIsFound | crates/rolldown_plugin_vite_import_glob/src/utils.rs:156-172 | a chain of links that would be refused can be shortened to one that is followed and reaches the same file |
| DynamicGlobs.GlobIsExact | crates/rolldown_plugin_vite_dynamic_import_vars/src/dynamic_import_to_glob.rs:58-116 | for every text: it matches the raw glob exactly if the argument can evaluate to it |
| DynamicGlobs.GlobFailsIff | crates/rolldown_plugin_vite_dynamic_import_vars/src/dynamic_import_to_glob.rs:58-125 | an error is reported exactly if a literal that is looked into has an asterisk or an operator is not `+` |
| DynamicGlobs.CollapsedMatches | crates/rolldown_plugin_vite_dynamic_import_vars/src/dynamic_import_to_glob.rs:126-128 | collapsing pairs of wildcards keeps what is matched |
| DynamicGlobs.EscapedMatches | crates/rolldown_plugin_vite_dynamic_import_vars/src/dynamic_import_to_glob.rs:38-55 | the escaping keeps what is matched, for globs without a backslash |
| DynamicGlobs.PatternIsExact | crates/rolldown_plugin_vite_dynamic_import_vars/src/dynamic_import_to_glob.rs:38-116 | without a backslash in its literals, the pattern of an argument matches exactly the texts the argument can be |
| DynamicGlobs.ExactIffNoBackslash | crates/rolldown_plugin_vite_dynamic_import_vars/src/dynamic_import_to_glob.rs:38-128 | the pattern matches exactly those texts if and only if no literal has a backslash |
| DynamicGlobs.NothingMissedIffNoBackslash | crates/rolldown_plugin_vite_dynamic_import_vars/src/dynamic_import_to_glob.rs:38-128 | with unknown parts that have no backslash, the pattern misses none of those texts if and only if no literal has one |
| DynamicGlobs.BackslashIsLost | crates/rolldown_plugin_vite_dynamic_import_vars/src/dynamic_import_to_glob.rs:38-55 | a template with a backslash in a string literal whose pattern misses every text it can be |
| WorkerPool.StepConserves | crates/rolldown_binding/src/worker_manager.rs:27-84 | every acquire, release and bulk send keeps each worker index in exactly one place |
| WorkerPool.PermitsAreExclusive | crates/rolldown_binding/src/worker_manager.rs:27-84 | in every run without dropped requests no worker is used twice, and a permit for all workers excludes everybody else |
| WorkerPool.CancelConservesIff | crates/rolldown_binding/src/worker_manager.rs:33-42 | dropping an unfinished request keeps the indices exactly if it had not received any |
| WorkerPool.StuckNeedsTwoCollectors | crates/rolldown_binding/src/worker_manager.rs:33-42 | without dropped requests, only two concurrent `acquire_all` calls, each with a part, can block the pool |
| WorkerPool.CanGetStuckIff | crates/rolldown_binding/src/worker_manager.rs:13-42 | without dropped requests, a pool can get stuck exactly if it has no worker and a task, or at least two workers and two tasks |
| WorkerPool.OneCollectorNeverStuck | crates/rolldown_binding/src/worker_manager.rs:13-42 | with a worker, a run with at most one `acquire_all` never gets stuck |

## Left out

- InitCoverage.DelegationLosesNothing: stops at a wrapper in front whose `init_*` is emitted, which is needed (LeafIsLeftToBarrel); InitCompletion.DemandIsInitialized goes on from there, for wrapped modules that carry what lies behind them by obligations of their own. Only obligations count as reaching a module, not the order of execution in the chunk.
- InitDelegation.CollectTargets: sets of targets instead of vectors, so the order given by `sort_consumer_local_targets` and duplicates are not modelled; the targets of one symbol (namespace expansion, carriers per symbol, canonical references) are a table.
- InitRouter.RouteTargets: liveness, ownership and carrier queries are tables of the context instead of callbacks.
- InitTargets: the rank-based order of consumer-local targets (`crates/rolldown/src/esm_init_obligations.rs:579-686`).
- EntryInits.EachWrapperOnceInOrder: top-level await only as a flag carried along.
- EnsureLatest.EndsSettled: says nothing when a build failed or when messages keep arriving during the call.
- CoordinatorProtocol.FreshCoversAcceptedChanges: a module change that arrives after a failed full build is not part of the freshness claim.
- Coordinator.BundleCoordinator.Run: watcher registration, path subscriptions, state snapshots and the close handshake.
- BundlingTasks.BundlingTask.Run: resolver cache clearing, additional assets, and the callbacks other than that for updates; other entry points may come between the lock sections of a push, which DeliveryProtocol allows and the task's own contracts do not.
- DeliveryProtocol.NumbersHaveNoGaps: lazy-compile payloads carry no sequence number and are only pending entries.
- GraphAnalysis.Analyze: interning of string ids and sorting of the report; vertices are numbered from the start.
- FileEmitters.FileEmitter.EmitFile: file-name templates, sanitizing and the deconflicting counter; chunk emission through the module loader; source maps; the shard locks of concurrent callers.
- JsonMeaning.EveryMemberIsOwn: of the escapes in a string literal only those that JSON texts use are read.
- JsonExpressions.FreshName: the rest of the named-export layout and the `JSON.parse` form of large objects.
- GlobPaths.Split: alias resolution of the glob before it is split.
- GlobWalk.WalkTree: matching, self-import exclusion and lower-casing of the files found; errors of the file system.
- DynamicGlobs.NothingMissedIffNoBackslash: unknown parts with backslashes of their own, where a wildcard in front of a lost backslash can take it.
- DynamicGlobs.PatternIsExact: query suffixes, the checks for `./` and an extension, template literals whose cooked text differs from the raw one, `concat` on arrays and `+` on numbers; wildcards stand for texts that are closed under concatenation, and `**` as a whole path segment has no meaning of its own. The pattern is pasted between double quotes into the generated code, whose own escapes are not read again here; braces that a lost backslash leaves outside a class match nothing. The source builds template and `concat` globs by appending in loops, which are recursive functions here.
- WorkerPool.StepConserves: the asynchronous channel is a sequence, one message per step; that it is first in, first out plays no role in what is proved.
- `crates/rolldown/src/chunk_graph.rs`: the chunk index and the module orders; its central invariant depends on removal sites outside that file.
- Report rendering, terminal output, percentages, bindings, AST visitors and the thin plugin wrappers.
