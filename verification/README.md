# Verified model of Grapher's execution core

This project models, in Dafny, the parts of Grapher whose correctness rests on an argument rather than on one
function body, and proves what they keep:

- **Compiler** (`Paths`, `Model`, `Downstream`, `AlternatePath`, `Layering`, `Compiler`, `Reduction`, `NodeId`): the
  execution-graph compiler as its work lists run it, and what its answers mean as graph theory. Node names are strings
  ordered as `BTreeSet<String>` orders them. Diagnostics and warnings carry the nodes, edges and paths they report.
- **Planner** (`Planner`): batches of node and edge edits, the topology projection, and a workspace whose saved graph
  changes only through the compiler.
- **Attachment inputs** (`AttachmentInputs`, `AttachmentRecovery`): staging, removal and delivery as lists of atomic file
  steps. A crash is a prefix of such a list; agents edit or delete their copies between operations.
- **Context repair** (`ContextRepair`): the `context` hook that closes unanswered tool calls.
- **Turn logic** (`TurnHandoff`, `RouteDecision`, `Verdict`): when the loop of `run_turn` may leave a settled agent, how
  a partitioner's answer is read, and how a feedback verdict is read and repaired.
- **Environments and devices** (`Versions`, `Environment`, `DeviceLeases`, `LeaseContention`): version ancestry,
  selection of an environment from the inputs of a node, all-or-nothing device leases, and who gets one in contention.
- **Cleanup** (`Cleanup`): one attempt at removing what a Run owns, and any sequence of failing and retried attempts.

Loops and in-place updates of the source are methods proved against functions or predicates; the properties are lemmas
about those. What each operation answers is also stated without them, in terms of the graph, the files, the fields of a
Run, the events of a turn or the text itself: in `CompilerAnswers`, `NodeIdAnswers`, `PlannerAnswers`,
`AttachmentOwnership`, `RepairAnswers`, `TurnExits`, `RouteAnswers`, `VerdictAnswers`, `EnvironmentAnswers`,
`DeviceAnswers` and `CleanupAnswers`. `Wrappers`, `Whitespace`, `Text`, `Names`, `Collections` and `Sorting` hold what
several modules share.

## Where the code and its promises differ

- **Cleanup and protected sources.** Removing a checkout `.grapher-workspaces/<owner>/<checkout>` also removes the
  directory `<owner>` when that leaves it empty, without asking whether `<owner>` is a protected source
  (`Cleanup.ProtectedOwnerLost`). `Cleanup.ProtectedLostIff` says that this is the only way to lose one.
- **Cleanup and sharing.** Sharing is decided target by target, so removing a Run's whole workspace root also removes
  a checkout inside it that another Run needs (`Cleanup.NestedCheckoutLost`). `Cleanup.SharedLostIff` says exactly when,
  and `Cleanup.NeededSurvives` and `Cleanup.NeededInPlaceSurvives` what holds over failing and retried attempts.
- **Steers accepted late.** `send_steer` keeps the handoff open "until Pi responds" (`backend/src/engine.rs:437-443`),
  but its waiter gives the request up after ten seconds (`engine.rs:470-477`). A later acceptance finds no request and
  does not reopen the turn, so the loop leaves without the turn that was accepted (`TurnHandoff.LateAcceptanceCutOff`).
  `TurnHandoff.AcceptedSteerKeptIff` gives the exact condition.
- **Renamed attachments.** Removing an attachment leaves its receipts, which name the content but not the file. An id
  staged again under another name with the same content is then taken for delivered when deletions are preserved, and
  never arrives (`AttachmentInputs.RenamedInputLost`); `AttachmentInputs.NamedDeliveryIff` says exactly when.
- **Interrupted receipts.** A crash inside the write of a receipt leaves one that no operation removes: every later
  delivery of that id to that workspace fails while the id is staged (`AttachmentRecovery.HalfReceiptForever`, and
  `HalfReceiptRun` for such a run). `AttachmentInputs.RetryIff` says from which cut positions a retry succeeds.
- **Interrupted staging.** A crash inside the write of a manifest leaves an id that can be neither staged again, removed
  nor delivered, ever (`AttachmentRecovery.UnreadableForever`, `UnreadableRun`); one inside the content blocks staging
  until the id is removed. `AttachmentRecovery.StageRetryIff` and `RemovableIff` say exactly when.
- **Continuation.** With `continuation` the context hook drops one failed assistant message per pass, so it is not
  idempotent when two failed ones follow each other (`ContextRepair.ContinuationNotIdempotent`);
  `ContextRepair.ContinuationIdempotentIff` gives the exact condition.
- **Second delivery.** A delivery that preserves deletions, followed by one that does not, delivers again
  (`AttachmentInputs.SecondDeliversAgain`); `AttachmentInputs.SecondDelivery` says exactly when.
- **Order of inputs.** Selection for a workspace takes the code version of the first local input, so that field, and no
  other choice, can depend on the order of the inputs (`Environment.CodeFollowsOrder`); `Environment.CodeFixedIff` says
  exactly when.
- **Device ids.** Two spellings of one device id differ as ids but share a lock file, so asking for both never succeeds
  (`DeviceLeases.TwoSpellingsNeverAvailable`). Keys are sorted as they are spelled, which need not be the order of their
  lock files: two attempts that spell their devices differently may refuse each other
  (`LeaseContention.SpellingsMayRefuseEachOther`). `LeaseContention.AllRefusedIff` gives the exact condition, and
  `LeaseContention.SomeoneGetsThrough` and `UsualAscends` exclude it for ids in their usual spelling.

## Model

| member | source | states |
|---|---|---|
| Downstream.Search | backend/src/compiler.rs:11-26 | the work list ends with exactly the start and everything reachable from it through dependency edges |
| Downstream.InvalidationIsClosed | backend/src/compiler.rs:344-354 | the invalidation set is closed under dependents and its complement under ancestors |
| Downstream.InvalidationIsLeast | backend/src/compiler.rs:11-26 | every set with the target that is closed under dependents includes it |
| AlternatePath.Search | backend/src/compiler.rs:28-57 | a path is returned iff one avoids the direct edge, and it is then a simple one, no avoiding path is shorter, and it is the first among the shortest |
| AlternatePath.FollowBack | backend/src/compiler.rs:46-51 | walking the `previous` table back spells the route by which the node was found |
| AlternatePath.FirstPathUnique | backend/src/compiler.rs:32-45 | only one path is the first of the shortest, so the order of the edges does not show in a diagnostic |
| Layering.Layers | backend/src/compiler.rs:239-276 | each visited node is in the batch of its longest dependency path; a node is not visited iff it is on a cycle or after one |
| Layering.CountingDecrements | backend/src/compiler.rs:262-272 | an in-degree counter is at least one whenever it is decremented |
| Layering.VisitBatch | backend/src/compiler.rs:257-276 | visiting one batch keeps every counter equal to the unvisited predecessors and yields exactly the nodes that become ready |
| Layering.LayeredUnique | backend/src/compiler.rs:254-276 | the batches are determined by the nodes and the dependency edges |
| Layering.LongestStartsAtRoot | backend/src/compiler.rs:244-248 | the longest path that fixes a node's batch starts at a root |
| Layering.DependenciesComeFirst | backend/src/compiler.rs:254-276 | a dependency is always in an earlier batch than its dependent |
| Layering.AcyclicIffNothingBound | backend/src/compiler.rs:277-294 | every node is visited iff there is no dependency cycle |
| Compiler.StructuralErrorsIff | backend/src/compiler.rs:159-238 | nothing is reported before ordering iff names are present and differ even by case, tasks are not blank, edges are known, simple and loop-free, and each feedback source has one target |
| Compiler.RouteErrorsIff | backend/src/compiler.rs:295-302 | E207 is absent iff every feedback source depends on its target |
| Compiler.RedundancyReportIff | backend/src/compiler.rs:303-318 | E209 is absent iff no dependency edge has another path beside it |
| Compiler.CompileWithPolicy | backend/src/compiler.rs:147-361 | the earliest failing stage reports, with exactly its nodes, edges and paths; otherwise the plan has the longest-path batches, the sorted roots and terminals, and the warnings (`CompilerAnswers` says what each is) |
| Compiler.Compile | backend/src/compiler.rs:137-139 | that answer with redundancy rejected |
| Compiler.CompileLegacy | backend/src/compiler.rs:143-145 | that answer with redundancy tolerated |
| CompilerAnswers.ReportIff | backend/src/compiler.rs:147-361 | a graph is refused iff something is wrong with its nodes or edges, or it has a cycle, or a feedback source does not come after its target, or an edge is redundant and that is rejected; exactly the problems of the earliest of these stages are reported |
| CompilerAnswers.StructuralReportIff | backend/src/compiler.rs:159-238 | before ordering, exactly these are reported: an empty graph, empty and repeated names, a name that folds like the last one before it, blank tasks, unknown ends with what is missing, self and repeated edges, and all targets of a source with several |
| CompilerAnswers.StructuralInOrder | backend/src/compiler.rs:159-235 | these reports come in the order of the nodes, then of the edges, then of the sources by name, none twice |
| CompilerAnswers.RefusalCodes | backend/src/compiler.rs:147-361 | which codes a refusal carries, each iff the graph has the fault it stands for and no earlier stage failed |
| CompilerAnswers.CycleReport | backend/src/compiler.rs:277-294 | E101 names exactly the nodes on or after a cycle, ascending, and the dependency edges among them as listed |
| CompilerAnswers.RouteReportIff | backend/src/compiler.rs:295-302 | E207 is reported exactly for each route whose source is not reached from its target, with all that is reached |
| CompilerAnswers.RoutesInOrder | backend/src/compiler.rs:295-302 | in the order of the graph |
| CompilerAnswers.RedundantReportIff | backend/src/compiler.rs:303-318 | E209 is reported exactly for each dependency with another path beside it, with the first of the shortest |
| CompilerAnswers.WarningIff | backend/src/compiler.rs:319-354 | a plan warns exactly of tasks that several nodes share, of the marker in nodes without a route, and for each route of all that comes after its target |
| CompilerAnswers.WarningsInOrder | backend/src/compiler.rs:319-354 | shared tasks come first, by their text, then nodes and routes in the order of the graph, each once |
| CompilerAnswers.PlanEnds | backend/src/compiler.rs:244-253 | a plan's terminals are exactly the nodes after which nothing comes, its roots those before which nothing comes, both ascending |
| CompilerAnswers.EveryNodeBetween | backend/src/compiler.rs:244-253 | every node comes after a root and before a terminal, or is one |
| CompilerAnswers.PlanBatches | backend/src/compiler.rs:254-276 | every node is in exactly one batch, its dependencies are in earlier ones, and one of them is in the batch just before |
| Reduction.AnswerUnique | backend/src/compiler.rs:147-361 | the compiler has exactly one answer, down to the paths in its diagnostics |
| Reduction.LegacyOrRedundant | backend/src/compiler.rs:303-318 | for a graph the legacy policy accepts, compiling returns the same plan or one E209 for each redundant edge, in order |
| Reduction.ReducedGraphKeepsPlan | backend/src/compiler.rs:141-145 | deleting all redundant edges at once keeps reachability and gives a graph that compiles to the identical plan, warnings included |
| Reduction.ReducedKeepsReachability | backend/src/compiler.rs:303-315 | without its redundant arcs an acyclic graph reaches the same nodes |
| Reduction.ReducedHasNoRedundancy | backend/src/compiler.rs:303-315 | deleting all redundant arcs at once leaves none |
| Reduction.ReducedKeepsDepth | backend/src/compiler.rs:254-276 | and leaves every node in its batch |
| Reduction.AcceptedIsTransitiveReduction | backend/src/compiler.rs:303-318 | what is accepted, and that an edge of an accepted graph is exactly a pair in order with nothing strictly between |
| Reduction.ReductionUnique | backend/src/compiler.rs:28-57 | acyclic irredundant graphs with equal reachability are equal |
| Reduction.SameOrderSameDependencies | backend/src/compiler.rs:303-315 | two accepted graphs that order the same pairs have the same dependency edges |
| Reduction.ListingOrderIrrelevant | backend/src/compiler.rs:239-276 | batches, roots and terminals do not depend on how nodes and edges are listed |
| Reduction.AcceptanceOrderIrrelevant | backend/src/compiler.rs:147-361 | listing nodes and edges in another order keeps a graph accepted or refused, and its batches, roots and terminals |
| Reduction.FeedbackSourceIsInvalidated | backend/src/compiler.rs:295-299 | every accepted feedback source lies in the invalidation set of its target |
| NodeId.BuildSlug | backend/src/compiler.rs:69-91 | the loop with its separator flag writes the lower-case words joined by single dashes, cut to length and trimmed |
| NodeId.SlugShape | backend/src/compiler.rs:69-91 | a slug is not empty, has at most 24 characters, only lower-case letters, digits and inner dashes |
| NodeId.IdShape | backend/src/compiler.rs:65-97 | an id is a single path component of 1 to 64 characters with at most one dot, and legacy names map to themselves |
| NodeId.IdsDistinct | backend/src/compiler.rs:65-97 | in a graph that compiles, distinct nodes get ids that differ even without regard to case, if the short hashes of its non-legacy names differ |
| NodeIdAnswers.SlugIs | backend/src/compiler.rs:69-91 | the slug is "node" if the name has no word, else its words joined by dashes, cut to 24 characters and without the dashes left at the end |
| NodeIdAnswers.OneWord | backend/src/compiler.rs:71-74 | a run of letters and digits is one word, in lower case |
| NodeIdAnswers.SeparatedWords | backend/src/compiler.rs:75-79 | every other character only separates words |
| NodeIdAnswers.KeptIff | backend/src/compiler.rs:65-116 | a name is its own id iff it has 1 to 64 plain characters and is no Windows device; any other gets its slug, a dot and twelve digits of its hash |
| Planner.NodeEditLeaves | backend/resources/planner.ts:189-193 | one node edit leaves the given node once, or none of that name and, if it deletes, no edge there; all else occurs as often as before |
| Planner.EdgeEditLeaves | backend/resources/planner.ts:195-198 | one edge edit leaves the given edge once between its ends, or none; all else occurs as often as before |
| Planner.DuplicateTargets | backend/resources/planner.ts:41-53 | a batch has no report iff its targets differ; every target given before is reported exactly once, in order, with its first position |
| Planner.NodeBatch | backend/resources/planner.ts:189-193 | what a batch of node edits with different targets leaves |
| Planner.EdgeBatch | backend/resources/planner.ts:195-198 | what a batch of edge edits with different targets leaves |
| Planner.NodeBatchOrderIrrelevant | backend/resources/planner.ts:189-193 | such a batch gives the same nodes and edges in any order |
| Planner.EdgeBatchOrderIrrelevant | backend/resources/planner.ts:195-198 | so does a batch of edge edits |
| Planner.RepeatedTargetOrderMatters | backend/resources/planner.ts:41-53 | with a repeated target the order does matter |
| Planner.Project | backend/resources/planner.ts:16-39 | one pass over the edges fills the two tables and the list of unrepresented edges |
| Planner.TopologyPartitions | backend/resources/planner.ts:16-39 | the projection loses no edge and doubles none |
| Planner.TopologyDeterminesEdges | backend/resources/planner.ts:16-39 | equal topologies come from the same edges |
| Planner.AcceptedIsRepresented | backend/resources/planner.ts:22-27 | on an accepted graph nothing is unrepresented and the two tables alone say which edges there are |
| Planner.RemovedIff | backend/src/compiler.rs:124-135 | E210 names exactly the unremovable nodes that are missing |
| Planner.Workspace.Mutate | backend/resources/planner.ts:221-249 | the saved graph changes only to an edited graph the compiler accepts, and the response says which roots; every other outcome leaves it and carries the codes of the first stage that fails |
| Planner.EveryRunStaysAccepted | backend/resources/planner.ts:221-249 | a corollary of the gate: over every run of edits the saved graph stays accepted and no unremovable node is lost |
| Planner.EmptyGraphAccepted | backend/src/compiler.rs:159-161 | the graph editing starts from is accepted |
| PlannerAnswers.NodeEditIs | backend/resources/planner.ts:189-193 | a node edit keeps the other nodes in order and appends the given one with its task, or an empty one; a deletion keeps only the edges elsewhere |
| PlannerAnswers.EdgeEditIs | backend/resources/planner.ts:195-198 | an edge edit keeps the edges between other ends in order and appends the given one unless it deletes |
| PlannerAnswers.NodeBatchIs | backend/resources/planner.ts:189-193 | which nodes and edges a batch of node edits leaves, in terms of the names, tasks and deletions given |
| PlannerAnswers.EdgeBatchIs | backend/resources/planner.ts:195-198 | which edges a batch of edge edits leaves |
| PlannerAnswers.MutateIs | backend/resources/planner.ts:221-249 | a call changes the graph iff the compiler process answered, the targets differ, nothing is wrong with the edited graph and no unremovable node is lost; the roots are left out iff these are the first nodes of an empty graph |
| PlannerAnswers.RejectionCodes | backend/resources/planner.ts:224-237 | a rejection carries one code for each repeated target, else that of the compiler process, else those of the compiler, else one for each unremovable name lost |
| PlannerAnswers.LeftOver | backend/resources/planner.ts:25-27 | an edge is left over in a topology iff an end is unknown or its source has an earlier route, in the order of the graph |
| PlannerAnswers.DirectDependencies | backend/resources/planner.ts:30-31 | the direct dependencies of a node are the known sources of its dependency edges, in the order of the graph |
| PlannerAnswers.FeedbackTo | backend/resources/planner.ts:28-29 | a source is shown with the target of its first route between known nodes |
| AttachmentInputs.Store.ImmutableFile | backend/src/attachment_inputs.rs:71-91 | creates the file or demands its exact content, and stops after any prefix of its steps if interrupted |
| AttachmentInputs.Store.Stage | backend/src/attachment_inputs.rs:93-115 | content first, manifest last, as a list of file steps cut off anywhere |
| AttachmentInputs.Store.Remove | backend/src/attachment_inputs.rs:117-140 | manifest first, content last, as a list of file steps cut off anywhere; refused as `AttachmentOwnership.RemoveDoneIff` says |
| AttachmentInputs.Store.Deliver | backend/src/attachment_inputs.rs:173-251 | per id: receipt removed, copy written, receipt written, or kept, skipped or refused |
| AttachmentInputs.CollectIds | backend/src/attachment_inputs.rs:162-172 | the ids delivered are those whose UUID, slash-terminated, stands after the directory name somewhere in the task text, each once and in order |
| AttachmentInputs.Store.DeliverTask | backend/src/attachment_inputs.rs:154-251 | delivery from the text of a task |
| AttachmentInputs.RunKeepsInv | backend/src/attachment_inputs.rs:93-251 | over all runs of crashing operations and agent edits, a readable manifest is backed by whole content and a whole receipt by an earlier whole copy |
| AttachmentInputs.StagedIsComplete | backend/src/attachment_inputs.rs:112-114 | a readable manifest names an upload that is there in full, under its hash |
| AttachmentInputs.ReceiptProvesDelivery | backend/src/attachment_inputs.rs:203-213 | a whole receipt proves that this workspace once held a complete copy with that hash, under a name such content was uploaded with |
| AttachmentInputs.DeliverDoneIff | backend/src/attachment_inputs.rs:173-249 | a delivery succeeds iff every staged id is intact, owned, undamaged and not half copied |
| AttachmentInputs.DeliverEffect | backend/src/attachment_inputs.rs:208-248 | after a success each id is delivered: copies that were there are kept, missing ones are written or, exactly when deletions are preserved and a receipt exists, left missing |
| AttachmentInputs.DeliveryOverRuns | backend/src/attachment_inputs.rs:154-251 | over all runs, a successful delivery leaves a whole receipt and a complete copy, or a complete copy was in this workspace before, under a name the content was uploaded with |
| AttachmentInputs.NamedDeliveryIff | backend/src/attachment_inputs.rs:203-223 | over all runs, a successful delivery means that the file the manifest names is or was complete in the workspace iff it does not skip a missing copy, or that very name was complete there before |
| AttachmentInputs.OneNameDelivers | backend/src/attachment_inputs.rs:203-241 | content uploaded under one name only is always delivered under that name |
| AttachmentInputs.RenamedInputLost | backend/src/attachment_inputs.rs:134-138 | a run that stages an id again under another name and never delivers it, though delivery succeeds |
| AttachmentInputs.RetryIff | backend/src/attachment_inputs.rs:203-249 | a delivery cut off anywhere can be repeated iff the cut is not inside a receipt, and not inside a copy unless what was written has the hash of the whole |
| AttachmentRecovery.StageRetryIff | backend/src/attachment_inputs.rs:71-115 | staging cut off anywhere can be repeated iff the cut is inside neither file |
| AttachmentRecovery.RemovableIff | backend/src/attachment_inputs.rs:125-137 | and the upload can be removed iff the cut is not inside the manifest |
| AttachmentRecovery.RemovalRepeats | backend/src/attachment_inputs.rs:125-137 | a removal cut off anywhere can be repeated |
| AttachmentRecovery.UnreadableRefuses | backend/src/attachment_inputs.rs:81-88 | an id whose manifest cannot be read can be neither staged, removed nor delivered |
| AttachmentRecovery.UnreadableForever | backend/src/attachment_inputs.rs:93-251 | over every run, no operation ever repairs such a manifest |
| AttachmentRecovery.UnreadableRun | backend/src/attachment_inputs.rs:112-114 | a run that leaves one |
| AttachmentRecovery.HalfReceiptForever | backend/src/attachment_inputs.rs:203-207 | over every run, a receipt that was cut off stays, and refuses every delivery of its id to its workspace while the id is staged |
| AttachmentRecovery.HalfReceiptRun | backend/src/attachment_inputs.rs:241-248 | a run that leaves one |
| AttachmentInputs.TruncatedCopyRefused | backend/src/attachment_inputs.rs:209-218 | a copy without a receipt whose content differs always refuses the delivery |
| AttachmentInputs.DeliverKeepsCopies | backend/src/attachment_inputs.rs:208-241 | wherever a delivery stops, it has changed and removed no copy that was there |
| AttachmentInputs.SecondDelivery | backend/src/attachment_inputs.rs:219-223 | a second delivery succeeds, and has nothing to do iff it preserves deletions or nothing was deleted |
| AttachmentInputs.SecondDeliversAgain | backend/src/attachment_inputs.rs:219-241 | a run after which a preserved deletion is undone by a delivery that does not preserve it |
| AttachmentInputs.StagedFilesKept | backend/src/attachment_inputs.rs:154-251 | no delivery touches staged files |
| AttachmentOwnership.CallIs | backend/src/attachment_inputs.rs:71-140 | a call does all of its file steps and answers, or is interrupted after exactly those its process survives |
| AttachmentOwnership.RemoveDoneIff | backend/src/attachment_inputs.rs:117-140 | a removal goes through iff there is no manifest, or one that can be read and names this node and this file; then manifest and content go, otherwise nothing changes |
| AttachmentOwnership.OnlyItsNameRemoves | backend/src/attachment_inputs.rs:125-137 | over every run, content and manifest of a readable upload stay as they are until a call removes it for its node under the name its manifest gives |
| AttachmentOwnership.StageDoneIff | backend/src/attachment_inputs.rs:93-115 | staging goes through iff the name is one plain path component and both files are absent or the same; a refusal writes at most absent content |
| AttachmentOwnership.DeliverAcceptedIff | backend/src/attachment_inputs.rs:173-218 | a delivery goes through iff each id is not staged, or its manifest names this node and a plain file, the content has the hash given, a receipt agrees, and a copy without receipt is whole |
| AttachmentOwnership.DeliverLeaves | backend/src/attachment_inputs.rs:208-248 | and leaves the receipt, with the copy that was there, or none if preserved, or a new one |
| AttachmentOwnership.NamedIff | backend/src/attachment_inputs.rs:162-172 | a task names an id exactly where the directory name, 36 characters that parse to it, and a slash stand |
| ContextRepair.Repair | engine/prompt-extension.ts:42-93 | the loop over `index` and `end` yields exactly the projection the lemmas are about |
| ContextRepair.RepairIdempotent | engine/prompt-extension.ts:43-46 | repairing again changes nothing, whatever the clock says |
| ContextRepair.UnchangedIff | engine/prompt-extension.ts:81-83 | repair changes nothing iff every well-formed call has its result in time |
| ContextRepair.OtherMessagesKept | engine/prompt-extension.ts:81-90 | messages that are no tool results are kept in order |
| ContextRepair.Conserved | engine/prompt-extension.ts:71-90 | every message occurs as often as before, but for the orphaned results left out and one closing result for each unanswered call |
| ContextRepair.EveryCallAnswered | engine/prompt-extension.ts:73-90 | in both modes, each call of a well-formed tool message has a result before the next assistant or user message |
| ContextRepair.ContinuationDrops | engine/prompt-extension.ts:54-70 | continuing is repairing and then dropping the failed last assistant message with the results of malformed calls |
| ContextRepair.ContinuingKeeps | engine/prompt-extension.ts:54-70 | other messages are kept in order, except that one |
| ContextRepair.ContinuationIdempotentIff | engine/prompt-extension.ts:54-70 | a second continuation pass changes nothing unless the message dropped was preceded by another failed one |
| ContextRepair.ContinuationNotIdempotent | engine/prompt-extension.ts:54-55 | two failed assistant messages, dropped one per pass |
| RepairAnswers.RepairGroup | engine/prompt-extension.ts:57-89 | a message and its tail are repaired by themselves: unchanged unless a call is unanswered; then the results of its calls, an error result with the stock text, the call's id and name and the message's date for each unanswered call, and the other messages |
| RepairAnswers.ContinuingGroup | engine/prompt-extension.ts:55-70 | continuing, a failed message that begins the last group goes with the results of its malformed calls; any other last group is repaired |
| RepairAnswers.Balance | engine/prompt-extension.ts:71-90 | the repaired history and the orphans left out hold the same messages, as often, as the history and the closing results added |
| RepairAnswers.AskingIff | engine/prompt-extension.ts:57-64 | a message asks iff it stopped for tools and its calls have non-empty ids and names, no id twice; what failed is what broke off or asked otherwise |
| RepairAnswers.MarkersFiltered | engine/prompt-extension.ts:47-48 | only the continuation markers are taken out first |
| TurnHandoff.Session.SendSteer | backend/src/engine.rs:440-479 | a tracked request is registered before it is sent and given up if it cannot be |
| TurnHandoff.Session.Receive | backend/src/engine.rs:1547-1655 | one agent event, branch by branch, on the loop's variables and the pending requests |
| TurnHandoff.Session.Loop | backend/src/engine.rs:1492-1702 | the loop stops at the first round with a reason to, and with that reason: a child that is gone at its end, else at the head of the next a due handoff before the deadline (`TurnExits.StopsIff`) |
| TurnHandoff.LeavesIff | backend/src/engine.rs:1496-1514 | the exit is open iff no request is open and the last start, settle, rejection or acceptance was a settle or a rejection, long enough ago |
| TurnHandoff.PendingIff | backend/src/engine.rs:440-479 | a request is pending iff registered and neither answered nor given up since |
| TurnHandoff.AcceptanceReopensIff | backend/src/engine.rs:1580-1598 | over all runs, an acceptance reopens the turn iff its request is registered and since then neither answered nor given up |
| TurnHandoff.AcceptedSteerNotCutOff | backend/src/engine.rs:1592-1598 | when the loop leaves, the agent has ended after every steer accepted while its request was open |
| TurnHandoff.AcceptedSteerKeptIff | backend/src/engine.rs:437-443 | from an acceptance on, every way the run can go on makes the loop wait for the agent to end, iff the request was still open or the agent had not ended before |
| TurnHandoff.LateAcceptanceCutOff | backend/src/engine.rs:470-477 | a run in which a steer accepted after ten seconds is cut off |
| TurnHandoff.RegisteredSteerResolved | backend/src/engine.rs:437-440 | when the loop leaves, every registered steer has been answered or given up |
| TurnHandoff.SettledEventuallyLeaves | backend/src/engine.rs:1508-1513 | a settled agent with nothing open is left after the delay, even if statistics never arrive |
| TurnHandoff.FinalMessageDecides | backend/src/engine.rs:1603-1627 | the last assistant message fixes the text and the error, unless a later event carries an error |
| TurnExits.StopsIff | backend/src/engine.rs:1492-1702 | the loop stops because the child is gone, first; else because the handoff is due, whatever the deadline; else because the clock has reached the deadline |
| TurnExits.LoopIs | backend/src/engine.rs:1492-1702 | what the loop returns is the reason of the first round that has one |
| TurnExits.DueIff | backend/src/engine.rs:1496-1514 | the handoff is due iff no request is open and the agent settled, with no start since, more than 0 ms ago for a partitioner and 500 ms else, and a second more while statistics are outstanding |
| TurnExits.GoneIff | backend/src/engine.rs:1676-1700 | the child is gone iff the pipes are closed and it has exited, or a quiet round comes more than two seconds after the quiet round that first saw its exit |
| TurnExits.MarkIff | backend/src/engine.rs:1563-1601 | a step says that the agent began iff it is a start, or an acceptance of an open request that will start a turn; that it ended iff it settled or rejected the initial prompt |
| TurnExits.NewsIsCovered | backend/src/engine/context_stats.rs:21-75 | while statistics are enabled every change is followed by a request for them, at once or when the outstanding one is answered, never two at a time |
| TurnExits.GivenUpOnly | backend/src/engine/context_stats.rs:33-63 | they are given up only by a refused or foreign answer, or when a request cannot be sent |
| TurnExits.FirstErrorStays | backend/src/engine.rs:1628-1646 | between events that set the error anew, the first error stays |
| TurnExits.OverrideIs | backend/src/engine.rs:1565-1654 | which error the events that set it anew leave |
| RouteDecision.ParseRouteDecision | backend/src/engine.rs:625-778 | the six steps decide exactly as: bottom-most line naming one route, else the markers in order, else the last route word, else serial (`RouteAnswers.DecisionIff`) |
| RouteDecision.TokenIff | backend/src/engine.rs:656-661 | a token of the text is exactly a word that stands alone in it |
| RouteDecision.HasInLine | backend/src/engine.rs:643 | a word stands alone in the text iff it does in one of its lines |
| RouteDecision.CleanWordNames | backend/src/engine.rs:629-640 | a text that is one route word between punctuation names that route, so step 1 adds nothing |
| RouteDecision.NoLineDecides | backend/src/engine.rs:704-722 | if no line decides, the text names both routes or neither, so step 4 adds nothing |
| RouteDecision.OnlyRouteNamed | backend/src/engine.rs:642-673 | a text that names one route decides for it |
| RouteDecision.TokensAreLast | backend/src/engine.rs:725-772 | the scan for the last place of a token always finds one, so its partial arms are never taken |
| RouteDecision.LaterWordDecides | backend/src/engine.rs:725-763 | the scan compares the last places at which the two words stand alone |
| RouteDecision.GraphIsNamed | backend/src/engine.rs:622-625 | the graph route is chosen only by a text with "parallel" as a word of its own |
| RouteAnswers.DecisionIff | backend/src/engine.rs:625-778 | the route is that of the lowest line that names one route and not the other; else of the first marker in the list whose last mention is followed by one route; else of the last route word; else serial |
| RouteAnswers.BottomLineIff | backend/src/engine.rs:643-673 | a line decides iff it names one route and no line below it does |
| RouteAnswers.ByMarkerIff | backend/src/engine.rs:675-702 | a marker decides iff its last mention is followed by one route and no marker before it in the list decides |
| RouteAnswers.LastLineDecides | backend/src/engine.rs:643-673 | a last line that names one route decides, whatever stands above it |
| Verdict.FeedbackIff | backend/src/engine.rs:2224-2232 | a verdict is read iff the last line with any text is the marker and white space |
| Verdict.BodyIs | backend/src/engine.rs:2217-2222 | the body of a readable answer is what stands on the lines before the marker, with its end trimmed |
| Verdict.BodyRoundTrip | backend/src/engine.rs:2217-2222 | reading back a body, a newline, a marker and white space gives the body with its end trimmed |
| Verdict.BodyIffVerdict | backend/src/engine.rs:2217-2219 | a body is read iff the verdict is |
| Verdict.RepairFeedbackVerdict | backend/src/engine.rs:2239-2270 | at most two further turns, each only after an unreadable answer; the outcome is the answer after them or its error |
| Verdict.RepairSucceedsIff | backend/src/engine.rs:2239-2270 | repair succeeds iff some answer within two turns is readable and all before it arrived |
| Verdict.ReadableUntouched | backend/src/engine.rs:2249-2252 | a readable answer is returned unchanged with no further turn |
| VerdictAnswers.FeedbackMeans | backend/src/engine.rs:2224-2232 | an answer gives feedback iff its last line with any text is `<FEEDBACK>`, accepts iff it is `<ACCEPT>`, and breaks the protocol otherwise |
| VerdictAnswers.BodyMeans | backend/src/engine.rs:2217-2222 | the body is what stands above that line up to the white space at its end |
| VerdictAnswers.RepairIs | backend/src/engine.rs:2239-2270 | repair turn by turn: the first marked answer, the error of a failed turn, or a broken protocol after two turns |
| Versions.Ancestors | backend/src/workspace_files.rs:532-545 | the work list finds a version and all its ancestors, or fails iff one is missing or there are more than 10000 |
| Versions.DescendsTransitive | backend/src/workspace_files.rs:208-210 | descent is transitive, failures included |
| Versions.DescendsAntisymmetric | backend/src/workspace_files.rs:208-210 | in an acyclic store two versions that descend from each other are one |
| Versions.RunsAreAcyclic | backend/src/workspace_files.rs:486-530 | over every run of captures no version is its own ancestor and no parent is missing |
| EnvironmentAnswers.DescendsIff | backend/src/workspace_files.rs:532-545 | one version descends from another iff a chain of parents leads there, all ancestors are saved, and there are at most ten thousand |
| Environment.Select | backend/src/environment.rs:755-805 | the input the authority names, else the pair all inputs share, else the first input that descends from all, else a refusal |
| Environment.SelectOrderIrrelevant | backend/src/environment.rs:755-805 | the chosen environment and launch, or the refusal, are the same for every order of inputs with distinct names |
| Environment.SelectAfterCaptures | backend/src/environment.rs:786-799 | for permuted inputs, with whatever versions captures leave, no further assumption is needed |
| Environment.ChosenDescendsFromAll | backend/src/environment.rs:791-799 | a corollary of the last rule: a descendant choice descends from every input |
| Environment.MergedIs | backend/src/environment.rs:848-851 | sorting and removing neighbours that repeat leaves exactly the hints given, in strict order |
| Environment.MergedUnique | backend/src/environment.rs:848-851 | only which hints there are matters |
| Environment.WorkspaceOrderIrrelevant | backend/src/environment.rs:820-869 | for any order of the inputs selection for a workspace is refused or not alike, a taken digest included, stores the same record and gives the same environment, launch, layout and reason |
| Environment.CodeFixedIff | backend/src/environment.rs:826-839 | the code version of the result is the same for every order iff the inputs with the node's own layout agree on it |
| Environment.CodeFollowsOrder | backend/src/environment.rs:826-839 | two inputs of which the first listed decides the code version |
| Environment.MergedValid | backend/src/environment.rs:852-854 | the merged launch record passes the checks of the records it comes from |
| Environment.Environments.SelectForWorkspace | backend/src/environment.rs:820-869 | the base's environment, under a persisted launch record whose hints are exactly the sorted union of all contributing hints; refused iff some record is unusable or its digest is taken by another content |
| Environment.Environments.SelectFor | backend/src/environment.rs:809-819 | strict selection unless the policy is best-effort |
| Environment.Environments.SaveLaunch | backend/src/environment.rs:628-637 | a record is stored under its digest and never replaced by another |
| EnvironmentAnswers.RefusedIff | backend/src/environment.rs:755-805 | when selection is refused, and with which refusal: no input, different domains, an authority that is no input, inputs that differ where descendants are not allowed or launches differ, or no input that descends from all |
| EnvironmentAnswers.SelectedIs | backend/src/environment.rs:765-805 | what is selected, unchanged but for the names it is selected from |
| EnvironmentAnswers.WorkspaceAnswer | backend/src/environment.rs:809-869 | for a workspace: the first input of its own layout that runs there now, else the baseline, under the record merged from all hints, with the reason and the inputs recorded |
| EnvironmentAnswers.HintOrder | backend/src/environment.rs:848-850 | hints are ordered by manager, selector and executable |
| DeviceLeases.LockDirectory.AcquireIds | backend/src/environment_resources.rs:180-196 | an uncontended attempt takes all lock files or none, and succeeds iff all ids are valid, free and differ |
| DeviceLeases.RunKeepsInv | backend/src/environment_resources.rs:151-196 | over every interleaving each lock file is held by one live attempt that took it |
| DeviceLeases.LeasesExclusive | backend/src/environment_resources.rs:151-196 | no lock file is held by two attempts, and a lease holds that of every device it names |
| DeviceLeases.EndedAttemptHoldsNothing | backend/src/environment_resources.rs:180-196 | an attempt that fails or ends leaves no lock file it took held, and touches no other |
| DeviceLeases.AloneSucceeds | backend/src/environment_resources.rs:168-196 | run alone on valid, free, different devices an attempt gets its lease |
| DeviceLeases.TwoSpellingsNeverAvailable | backend/src/environment_resources.rs:188 | ids that differ only in case can never be leased together |
| DeviceAnswers.RefusalIs | backend/src/environment_resources.rs:180-196 | a refusal is about the first key in sorted order that is no device id or whose lock file is held or shared with an earlier key, and says which |
| DeviceAnswers.TakesNext | backend/src/environment_resources.rs:184-194 | among other attempts, the next lock file is taken iff the key is a device id and nobody holds it |
| DeviceAnswers.LockFile | backend/src/environment_resources.rs:188 | the lock file of an id is its lower-case spelling between `cuda-` and `.lock` |
| LeaseContention.SomeoneGetsThrough | backend/src/environment_resources.rs:180-196 | over every interleaving in which all attempts take their lock files in one order, an attempt is refused only beside another one that is not, and that holds the lock file wanted or a later one |
| LeaseContention.UsualAscends | backend/src/environment_resources.rs:181-188 | sorting puts different ids in their usual spelling in the order of their lock files |
| LeaseContention.AllRefusedIff | backend/src/environment_resources.rs:182-193 | any number of attempts may all come to be refused, none of them gone yet, iff positions in their lists of keys make a circle of waiting |
| LeaseContention.AscendingDoNotWait | backend/src/environment_resources.rs:182-188 | taken in one order, lock files leave no such circle |
| LeaseContention.SpellingsMayRefuseEachOther | backend/src/environment_resources.rs:182-188 | two attempts at the same two devices, spelled differently, that may refuse each other |
| Cleanup.ResolveIs | backend/src/cleanup.rs:76-149 | a valid target resolves to its own path whenever there is anything at or below it |
| Cleanup.PathsIdentifyTargets | backend/src/cleanup.rs:76-149 | distinct valid targets have distinct paths, but for shadow repositories that differ in the recorded source |
| Cleanup.LegacyCovers | backend/src/cleanup.rs:253-278 | a recorded checkout path yields a valid target that is that checkout, or the Run's own worktree root above it |
| Cleanup.CollectedBelongs | backend/src/cleanup.rs:329-390 | what a collection adds to the targets on record is valid and the Run's own workspace, or a checkout the Run has on record under the checkout's own execution or planning id |
| Cleanup.UnresolvedIff | backend/src/cleanup.rs:383-407 | a binding stays unresolved iff it is missing, no workspace is known, and its path tells no parent |
| Cleanup.RemovePaths | backend/src/workspace_cleanup.rs:138-171 | removal takes only roots and the owner directories they empty, and all of them unless a fault stops it |
| Cleanup.LostIff | backend/src/workspace_cleanup.rs:138-171 | a removal that succeeds takes a path iff it is at or under a root, or an owner directory left empty that the file system lets go |
| Cleanup.Cleaner.CollectRoots | backend/src/cleanup.rs:591-627 | exactly the unshared targets that exist and are above no protected source are handed to removal |
| Cleanup.Cleaner.Execute | backend/src/cleanup.rs:535-632 | stale, refused or carried out, with the store and the disk each leaves (`CleanupAnswers` says when) |
| Cleanup.Cleaner.Attempt | backend/src/cleanup.rs:681-689 | the same, a failure being recorded on the pending row |
| Cleanup.InvalidPlanRemovesNothing | backend/src/cleanup.rs:467-472 | a corollary: one target that does not resolve stops the attempt before anything is removed |
| Cleanup.LaterEventCancels | backend/src/cleanup.rs:537-542 | a corollary: a later event on a live Run ends its workspace cleanup with nothing removed and nothing disowned |
| Cleanup.ActiveOrUnprovenRefused | backend/src/cleanup.rs:543-557 | a corollary: a Run at work, or one without a tombstone, is left alone and stays pending |
| Cleanup.FailureKeepsOwnership | backend/src/store/cleanup.rs:196-205 | a corollary: a failed attempt keeps its row and everyone's ownership and counts the failure |
| Cleanup.SuccessEndsOneTask | backend/src/store/cleanup.rs:207-228 | a corollary: success ends one pending cleanup, and ownership ends only for a deleted Run |
| Cleanup.FinishedOnlyWhenGone | backend/src/cleanup.rs:580-632 | a cleanup finishes only when stale, or when nothing is left at or under any unshared, unprotected target |
| Cleanup.FinishesIff | backend/src/cleanup.rs:535-632 | an attempt ends its task iff the task is stale, or its plan is carried out with nothing unresolved and every root not inside another one removed |
| Cleanup.RootsAreSafe | backend/src/cleanup.rs:591-627 | no path handed to removal is at or above a protected source or is the path of a target another Run needs |
| Cleanup.SharedLostIff | backend/src/workspace_cleanup.rs:138-171 | a removal that succeeds takes what another Run needs iff a removed directory lies strictly above it, or it is an owner directory left empty |
| Cleanup.NestedIs | backend/src/cleanup.rs:76-149 | a target lies above another one only if it holds that one's trusted root, or is the workspace root of the Run that owns the checkout, or is a data directory named like the shadow bucket |
| Cleanup.ProtectedLostIff | backend/src/workspace_cleanup.rs:158-168 | a removal that succeeds takes a protected source iff it is an owner directory left empty |
| Cleanup.ProtectedOwnerLost | backend/src/workspace_cleanup.rs:158-168 | an attempt, every outcome of which loses a protected owner directory with its last checkout |
| Cleanup.NestedCheckoutLost | backend/src/workspace_cleanup.rs:136-147 | an attempt, every outcome of which loses a live Run's checkout with a deleted Run's workspace root |
| Cleanup.TaskKeptUntilSettled | backend/src/cleanup.rs:681-689 | over any run of failing and retried attempts, a pending cleanup stays until one attempt finds it stale or has removed all it had to |
| Cleanup.NeededSurvives | backend/src/cleanup.rs:580-627 | over any run of failing and retried attempts with whatever file faults, what a Run needs disappears only in its own cleanup, with a removed directory strictly above it, or as an emptied owner directory |
| Cleanup.NeededInPlaceSurvives | backend/src/cleanup.rs:580-627 | so it stays, if attempts are made neither at the Run in need nor at the owner of the checkout, its trusted root holds a protected source, and no owner directory has its path |
| Cleanup.SourcesSurvive | backend/src/cleanup.rs:580-627 | over any run in which only cleanup touches the disk, a recorded source disappears only as an emptied owner directory |
| Cleanup.OrdinarySourcesSurvive | backend/src/cleanup.rs:580-627 | and never if it does not stand directly in a workspace bucket |
| CleanupAnswers.AtWorkLeftAlone | backend/src/cleanup.rs:543-547 | an attempt at a Run where the task left it, with a node running or planning, publishing or merging, fails with the disk unchanged, the task kept and the failure counted |
| CleanupAnswers.IdleGoesOn | backend/src/cleanup.rs:537-553 | being at work is all that keeps a Run whose targets can be collected from being cleaned |
| CleanupAnswers.OnlyRemoves | backend/src/cleanup.rs:535-632 | an attempt creates nothing on the disk and changes no link |
| CleanupAnswers.OwnAttemptIdle | backend/src/cleanup.rs:537-553 | no attempt at the task of a live Run at work touches the disk, however old the task |
| CleanupAnswers.AtWorkKeeps | backend/src/cleanup.rs:535-627 | over every run of attempts with whatever faults, what a Run at work needs is only taken by an attempt at another Run, with a directory above it or as an emptied owner directory |
| CleanupAnswers.AtWorkInPlaceSurvives | backend/src/cleanup.rs:535-627 | its own worktrees and checkouts, in a place that holds a recorded source, stay whatever is attempted |
| CleanupAnswers.ValidIffInLayout | backend/src/cleanup.rs:60-149 | a target is valid iff its path is in the layout: a data bucket and a plain id, a Run's own workspace root, a checkout, or a shadow repository with its name |
| CleanupAnswers.ResolveIff | backend/src/cleanup.rs:76-149 | a target resolves iff it is in the layout and every directory from its trusted root on is there and no link |
| CleanupAnswers.TakenIff | backend/src/workspace_cleanup.rs:138-171 | a removal that succeeds takes a path iff a root is at or above it, or it is the owner directory of a removed checkout that then holds nothing else and that the file system lets go |
| CleanupAnswers.SharedIff | backend/src/store/cleanup.rs:230-289 | a target is spared iff another Run with events owns it, names its planning, session, merger or checkout id, or refers to its shadow repository and is not deleted |
| CleanupAnswers.RootIff | backend/src/cleanup.rs:591-627 | a path is handed to removal iff it is where a target resolves that no other Run needs and that is above no protected source |
| CleanupAnswers.CollectedIff | backend/src/cleanup.rs:163-407 | a collection has exactly the workspaces owned, those of the binding, those of recorded checkouts, and those beside a missing source |
| CleanupAnswers.ConfiguredIff | backend/src/cleanup.rs:163-208 | by its binding a Run owns its environment, its worktrees in the private parent, both roots beside the source, and the shadow repository of the source |
| CleanupAnswers.CollectedOkIff | backend/src/cleanup.rs:329-347 | it goes through iff markers can be read, and the binding too unless some workspace is on record |
| CleanupAnswers.RecoverIs | backend/src/cleanup.rs:558-578 | an unresolved repository is resolved iff workspaces are found by its binding or beside it |
| CleanupAnswers.EnqueuedIs | backend/src/store/cleanup.rs:119-139 | a new task starts with no failure, a task that is there keeps its count |
| CleanupAnswers.SuccessRecorded | backend/src/store/cleanup.rs:207-228 | a cleanup that ends is recorded at the sequence of its task; the record of a deleted Run goes |

## Left out

- Message prose, JSON encodings, UUID parsing, hashing and Unicode lower-casing: taken as parameters, with the few laws
  that are used stated as `Lawful` or as hypotheses.
- Threads, pipes, process trees, output buffering and parked shells of `engine.rs`: the event stream, the pending
  requests, a clock, and what each round of the loop finds remain; a steer registering between the exit check and the
  exit itself is not modelled.
- Untracked steers: they never enter the pending requests.
- `handoff` of the planner across roles, prewarmed processes and session selection.
- Directories, links, permissions and `fsync` in `AttachmentInputs`: files are a map; a failing file operation is an
  interruption. Byte offsets of the task text are character offsets, and UUID parsing is a parameter.
- Concurrent staging and removal of one attachment id.
- Reserved Windows names in `node_id` output: `con.<hash>` is produced for "CON".
- The clock read by context repair: all results closed in one pass carry one reading.
- `Text.Lines` and `Whitespace.IsSpace` follow Rust's `lines` and `char::is_whitespace`; the conversion to lower case
  before `parse_route_decision` works on its result.
- Planner argument normalisation, tool registration and the file that stores the graph.
- Environment discovery, capture of file contents, initialisation commands and the fingerprint of the native baseline.
- Lock files of device leases: taking one is atomic, and a failed attempt closes all of its own in one
  step; the probe after taking them succeeds or fails as a parameter.
- The database behind cleanup: what a Run's history names is given with the Run; file faults are parameters.
- Cleanup.Cleaner.Execute: the pruning of refs in a shared shadow repository is one success or failure before removal.
- Cleanup.CollectedBelongs: for a Run that still exists; the data directories that a deletion adds are given with the
  deletion, and the name of the shadow repository is a parameter.
- Links and other entries that are no directories on a cleanup path are in `blocked` and refuse. Roots are recorded
  canonically; a link put at one later is refused here, while the code follows it if it leads to a directory.
- Cleanup.LostIff: for paths not themselves named `.grapher-workspaces`. A directory so named may hold owner
  directories, and the order of the roots decides whether these are gone in time; `Cleanup.RemovePaths` bounds what is
  taken in all cases.
- Cleanup.ProtectedLostIff: for sources not so named; `Cleanup.SourcesSurvive` gives the one direction for all.
- The scheduler in `runtime.rs`: not part of this model.
