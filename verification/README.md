# Verified control-plane core

A Dafny model of the parts of the control plane that keep state over long runs, with proofs of
what every run keeps. Each component has two halves: a specification on values (functions for
the operations, a step function and a run function for the component, and the lemmas about
them), and, where the source is imperative, a class or method that works in place like the
source and is proved equal to that specification.

| component | specification | in-place code |
|---|---|---|
| task graph and statuses | `Digraph.dfy`, `TaskModel.dfy`, `TaskGate.dfy`, `TaskStatus.dfy` | `Digraph.dfy`, `TaskController.dfy` |
| approval quorum protocol | `Approval.dfy`, `ApprovalRules.dfy`, `ApprovalSerial.dfy`, `ApprovalOverlap.dfy` | `ApprovalEngine.dfy` |
| slot allocator | `Allocator.dfy`, `QueueOrder.dfy` | `RuntimeAllocator.dfy` |
| runtime manager | `RuntimeModel.dfy` | `RuntimeManager.dfy` |
| canonical serialization | `Canonical.dfy`, `JsonReader.dfy` | (pure in the source) |
| Merkle trees and proofs | `Merkle.dfy`, `MerkleBinding.dfy`, `MerkleBytes.dfy` | `Merkle.dfy`, `MerkleBytes.dfy` |
| record chain check | `HashChain.dfy` | `HashChain.dfy` |
| audit writer | `Ledger.dfy`, `LedgerCheck.dfy` | `AuditWriter.dfy` |
| evidence chain | `Evidence.dfy` | `Evidence.dfy` |
| cron calculator | `Calendar.dfy`, `CalendarDays.dfy`, `CronField.dfy`, `Cron.dfy`, `CronText.dfy` | `Cron.dfy` |
| discrete-event clock | `EventQueue.dfy`, `ClockOverlap.dfy` | `SimulationClock.dfy` |
| lease lock, schedule runner | `Lease.dfy` | `ScheduleRunner.dfy` |
| ring buffer and replay | `EventStore.dfy` | `EventStore.dfy` |
| sliding-window rate limiter | `RateLimit.dfy` | `RateLimit.dfy` |

`Arithmetic.dfy` holds the few division facts, and `Shared.dfy` the few declarations, that
several modules use.
`dafny verify dfyconfig.toml` checks the whole project. Automatic induction is switched off in
every lemma, so each proof names the induction it uses.

## How the source is represented

- Ids, random values and the clock are parameters. Asynchronous code is cut at its awaits: a
  call in flight is a value that holds its local variables, and any other call may run between
  two of its stretches. Two awaits with nothing between them are one cut.
- The approval store hands out shallow copies, so every copy of a request shares one
  `decisions` array while its scalar fields go stale. The arrays live in `State.logs`; a
  request names its array by position.
- The storage of the audit writer answers a call with what it holds at that moment, and the
  writer uses the answer after the await, whatever has been stored since. A restart is a new
  writer over the same storage.
- Hashes are free: a digest is a datatype constructor applied to what was hashed, so different
  inputs have different digests. Interior nodes of a Merkle tree have their own constructor;
  the leaves are any digests, as in the source, which separates the domain of interior nodes
  only. Module `MerkleBytes` drops the assumption that every hash string is a digest: it works
  on byte strings of any length, as the verifier does.
- Strings of the serializers are sequences of UTF-16 code units; elsewhere a text is compared
  and nothing else.
- Times and priorities of the simulation clock are reals, as rounding plays no part in them.
  Callbacks are a function from the world to a new world and the clock calls they make.
  `SimulationClock` models one advance at a time; `ClockOverlap` cuts advances at their await
  and lets them overlap.
- Dates are read in UTC, or in a zone a fixed number of minutes ahead of it. Day of month and
  day of week of a cron expression are combined with "and", and the time zone argument is not
  used, as in the code.

## Where the code falls short of its documentation

Each point names a lemma with a concrete run or input in which the promise fails, and the one
that says exactly when it holds.

- Completing a task is meant to queue its ready dependents. The cascade also picks dependents
  in BACKLOG, which has no transition to QUEUED: the call throws and every dependent behind
  that one is stranded (`BacklogStrandsDependents`; exactly when: `CompletionWakesDependents`).
- `addDependency` with one id twice records no dependency, is not rejected as a cycle, and
  lists the task among its own dependents (`SelfLinkIsKept`; exactly when a link is rejected:
  `LinkRejectedExactly`; exactly which runs keep the two lists inverse: `RunShape`).
- A move to EXECUTING is not gated by dependencies (`ExecutesTooEarly`; exactly when a move
  starts a task too early: `ExecutingExactly`; exactly which runs keep all work under way
  ready: `ReadyRuns`).
- Decisions that overlap can overwrite a verdict (`OverlapRevivesRejection`; exactly when a
  record is overwritten: `OverwrittenExactly`, over stretches of runs `RecordStaysExactly`).
- A decision that overtakes the requester's own call leaves a promise that nobody ever settles
  (`EarlyDecisionLosesPromise`; exactly when a verdict settles a promise: `SettlesExactly`;
  exactly which waiting promises can still be settled: `WaitsInVainExactly`). The quorum itself
  holds in every interleaving.
- Ending a drain does not serve the queue (`UndrainingStrandsWaiter`; exactly when a run is
  work-conserving: `RunIsWorkConserving`).
- Starting a runtime under the session of a live one loses the older slot for ever
  (`DuplicateLosesSlot`), and so does a shutdown in whose await a runtime registers
  (`ShutdownLosesSlot`); exactly the steps that lose a slot: `StepExact`.
- A writer that accepts records before it is initialized repeats sequence numbers
  (`RestartRepeats`), and so does one whose `initialize` comes back during a flush, even over a
  storage that was empty (`LateLoadRepeats`). A batch lost by a failed flush is noticed only
  until the writer is initialized again (`ReloadHides`). Exactly which runs, with failures,
  restarts and initializations at any moment, keep the stored ledger acceptable:
  `PassesExactly`; exactly which lose nothing: `RunsAreLossless`.
- The source cites RFC 6962, whose section 2.1 separates leaves from nodes and splits lists at
  a power of two. The code repeats an odd last node and does not mark leaves
  (`RepeatedLeafCollides`, `NodeAsLeafCollides`; exactly which lists share a root:
  `RootsEqualExactly`, `AnyRootsEqualExactly`). Intact evidence chains are bound at any length.
- The proof verifier checks no lengths: a leaf that is not as long as a digest can be passed
  off (`EmptyLeafPasses`), and so can an interior node with a shorter proof (`InteriorPasses`);
  exactly when what verifies is a leaf: `MerkleBytes.SoundExactly`.
- The clock accepts tasks in the past and then runs backwards (`PastTaskTurnsClockBack`), and so
  it does when advances overlap (`OverlapTurnsClockBack`); exactly which calls set it back:
  `ClockOverlap.TurnsBackExactly`; exactly which runs never let that happen:
  `OrderlyRunsExactly`.
- A run that outlives its lease overlaps with the next one (`OverrunOverlaps`; exactly when a
  run starts: `StartsExactly`).
- The chain check anchors neither end of the ledger, so a lost newest record goes unnoticed
  (`TruncationPasses`; exactly which deletions do: `DeletionExactly`).
- The three canonical serializers agree on plain JSON and are not interchangeable beyond it:
  the tool gateway prints every date as `{}` (`DatesDisagree`; exactly when two texts agree:
  `CanonExact`).

## Model

| member | source | states |
|---|---|---|
| `Digraph.SettledIsAcyclic` | packages/control-plane/src/TaskController.ts:310-346 | a list of all nodes in which each comes after its prerequisites rules out every cycle |
| `Digraph.ClosedSuffixIsCycle` | packages/control-plane/src/TaskController.ts:310-346 | the path reported when a grey node is met again is a genuine cycle: each step an edge, first id equal to last |
| `Digraph.Follow` | packages/control-plane/src/TaskController.ts:310-346 | looking at one dependency either finds a genuine cycle or finishes that dependency, with grey exactly the current path and black nodes settled |
| `Digraph.Dfs` | packages/control-plane/src/TaskController.ts:310-346 | the three-colour search from a white node either finds a genuine cycle or finishes the node; it ends because white nodes decrease |
| `Digraph.ValidateNoCycles` | packages/control-plane/src/TaskController.ts:310-346 | reports a cycle exactly when the dependency graph has one, for every finite map, and the reported path is one |
| `Digraph.Visit` | packages/control-plane/src/TaskController.ts:258-279 | the recursive visit lists every node it reaches once, prerequisites first on an acyclic graph |
| `Digraph.TopologicalOrder` | packages/control-plane/src/TaskController.ts:258-279 | lists each task once on every graph; prerequisites come first exactly when the graph is acyclic |
| `TaskModel.CreateKeepsWellFormed` | packages/control-plane/src/TaskController.ts:42-100 | creating a task keeps references closed, the graph acyclic and dependents the inverse of dependencies; its own cycle check always passes |
| `TaskModel.AddDependencyShape` | packages/control-plane/src/TaskController.ts:102-130 | adding a dependency keeps the same; the inverse relation breaks exactly for an existing task linked to itself |
| `TaskModel.LinkRejectedExactly` | packages/control-plane/src/TaskController.ts:102-130 | a link is rejected as a cycle if and only if it joins two different tasks of which the prerequisite already depends, directly or not, on the other |
| `Digraph.NewEdgeExactly` | packages/control-plane/src/TaskController.ts:102-130 | one more edge closes a cycle of an acyclic graph if and only if its end reaches its start |
| `TaskModel.CascadeExact` | packages/control-plane/src/TaskController.ts:295-308 | the cascade queues exactly the startable dependents ahead of the first stuck one, changes nothing else, and throws exactly when one is stuck |
| `TaskModel.CompletionWakesDependents` | packages/control-plane/src/TaskController.ts:132-156 | after a completion exactly the startable dependents behind the first stuck one are left PLANNED with all prerequisites completed |
| `TaskModel.RunShape` | packages/control-plane/src/TaskController.ts:42-130 | in every run the graph stays acyclic and closed; dependents is exactly the inverse of dependencies if and only if no operation linked an existing task to itself |
| `TaskModel.EntryIsGated` | packages/control-plane/src/TaskController.ts:132-156 | whatever the operation, a task enters QUEUED or RUNNING only when all its current prerequisites are completed |
| `TaskModel.NoBacklogRun` | packages/control-plane/src/state/TaskState.ts:94-112 | a run that never asks for BACKLOG has no task in BACKLOG |
| `TaskModel.RunWakesDependents` | packages/control-plane/src/TaskController.ts:132-156 | in such a run every completion succeeds and leaves no startable dependent behind |
| `TaskGate.BacklogStrandsDependents` | packages/control-plane/src/TaskController.ts:299-306 | a run from the empty controller in which a completion throws and strands a startable dependent |
| `TaskGate.ExecutesTooEarly` | packages/control-plane/src/TaskController.ts:132-156 | a run from the empty controller that leaves a task EXECUTING while its prerequisite is QUEUED |
| `TaskGate.SelfLinkIsKept` | packages/control-plane/src/TaskController.ts:102-130 | a run in which a task linked to itself is not rejected, gets no prerequisite and is listed among its own dependents |
| `TaskGate.ExecutingExactly` | packages/control-plane/src/TaskController.ts:132-156 | a move to EXECUTING starts a task with an uncompleted prerequisite exactly from QUEUED, RUNNING, PAUSED, VERIFYING or RETRY when it has one before the call |
| `TaskGate.ReadyExactly` | packages/control-plane/src/TaskController.ts:102-216 | an operation keeps every RUNNING, EXECUTING and VERIFYING task ready if and only if it starts no unready task by EXECUTING, links no busy task to an uncompleted one, and forces no retry of a completed one that a busy task needs |
| `TaskGate.ReadyRuns` | packages/control-plane/src/TaskController.ts:42-216 | at every moment of a run all such tasks have their prerequisites completed if and only if every operation of the run was of that kind |
| `TaskGate.RetriesAreBounded` | packages/control-plane/src/TaskController.ts:179-193 | in every run without forced retries the accepted retries of a task, counted over the operations, never exceed the limit it was created with |
| `TaskGate.RetryExactly` | packages/control-plane/src/TaskController.ts:179-216 | after any run an unforced retry is accepted if and only if the task has failed and fewer retries of it were accepted so far than the limit it was created with, a forced one whenever the task exists; which error each refusal names, and that only the status changes besides the count |
| `TaskStatus.TransitionsBothWays` | packages/control-plane/src/state/TaskState.ts:94-112 | the table of successors against the sources of every status, in both directions |
| `TaskStatus.StatusExactly` | packages/control-plane/src/TaskController.ts:132-156 | a status change is refused, in this order, for an unknown task, a status not reachable from its own and a gated one with an unfinished prerequisite; otherwise it is made, and unless it completes a task nothing else changes |
| `TaskStatus.RequeueExactly` | packages/control-plane/src/TaskController.ts:200-210 | the retry timer queues the task exactly when it still waits for its retry and nothing hinders it |
| `TaskStatus.CreateExactly` | packages/control-plane/src/TaskController.ts:42-100 | creation is refused for a known id and then for a missing prerequisite; otherwise the new task, its status and the lists of its prerequisites are determined and nothing else changes |
| `TaskController.TaskController.CreateTask` | packages/control-plane/src/TaskController.ts:42-100 | the in-place code yields the specified outcome and map, and keeps the invariant |
| `TaskController.TaskController.AddDependency` | packages/control-plane/src/TaskController.ts:102-130 | likewise; a rejected link leaves the map exactly as it was and names a genuine cycle of the graph it would have made |
| `TaskController.TaskController.UnfulfilledDependencies` | packages/control-plane/src/TaskController.ts:281-293 | lists exactly the prerequisites that are not completed; it is empty exactly when the gate opens |
| `TaskController.TaskController.SetTaskStatus` | packages/control-plane/src/TaskController.ts:132-156 | status change, gate, illegal transitions and cascade as specified |
| `TaskController.TaskController.CheckAndQueueDependents` | packages/control-plane/src/TaskController.ts:295-308 | the loop over dependents, each queued by a nested status change, is the specified cascade |
| `TaskController.TaskController.RetryTask` | packages/control-plane/src/TaskController.ts:179-216 | a retry needs a failed task with retries left, or force; it counts and sets RETRY |
| `TaskController.TaskController.OnRetryTimer` | packages/control-plane/src/TaskController.ts:200-210 | the timer queues a task that still waits for its retry, through the gate |
| `TaskController.TaskController.GetTopologicalOrder` | packages/control-plane/src/TaskController.ts:258-279 | on every reachable map each task once, every dependency before the tasks that depend on it |
| `Approval.StepKeepsLogs` | packages/approval-engine/src/ApprovalResolver.ts:52-78 | an accepted decision comes from a new user with an allowed role and is no forbidden self-approval, although most checks read a stale copy |
| `Approval.StepKeepsCopies` | packages/approval-engine/src/ApprovalResolver.ts:43-161 | every copy of a request, stale or not, that claims approval is backed by enough approvals in its array |
| `Approval.ApproversAreCounted` | packages/approval-engine/src/ApprovalResolver.ts:121-122 | over distinct users, counting approvals counts approvers |
| `Approval.QuorumInEveryInterleaving` | packages/approval-engine/src/ApprovalResolver.ts:43-161 | in every interleaving of submissions, decisions and sweeps, approved is stored or returned only when at least the required number of different allowed users approved, and auto_approved only where the policy says so |
| `Approval.VerdictIsExact` | packages/approval-engine/src/ApprovalResolver.ts:97-150 | in every interleaving an accepted decision stores rejected if it rejects, approved exactly when the approvers suffice, and pending otherwise |
| `Approval.SettledAtMostOnce` | packages/approval-engine/src/ApprovalResolver.ts:163-181 | in every interleaving each requester's promise is settled at most once |
| `ApprovalRules.DecisionExactly` | packages/approval-engine/src/ApprovalResolver.ts:43-95 | over every interleaving a resumed decision is accepted if and only if the copy it fetched is pending, has the tenant the decision was made under, allows the role in any case, is no forbidden self-approval, and nobody by that user is in the shared array; otherwise it ends with the error of the first rule broken and changes nothing |
| `ApprovalRules.ObjectionExactly` | packages/approval-engine/src/ApprovalResolver.ts:52-95 | the first broken rule, for every request, decision and array |
| `ApprovalRules.RequestsAreSubmitted` | packages/approval-engine/src/ApprovalEngine.ts:57-93 | in every interleaving a stored request has tenant, risk, requester, deadline and required count of a submission under its id |
| `ApprovalRules.DefaultRules` | packages/approval-engine/src/ApprovalPolicy.ts:11-73 | who may decide under the default policy, risk by risk, and when an own request may be decided |
| `ApprovalRules.DefaultQuorum` | packages/approval-engine/src/ApprovalPolicy.ts:11-73 | under the default policy, in every interleaving, an approved critical request was approved by two different admins or owners other than its requester, a high one by another operator, admin or owner, a medium one by somebody, and only low ones are approved by themselves |
| `ApprovalRules.DefaultVerdict` | packages/approval-engine/src/ApprovalPolicy.ts:11-73 | and an accepted approval approves at once except for a critical request, which it approves exactly when there are two approvers |
| `ApprovalRules.ListedInOrder` | packages/approval-engine/src/ApprovalRequest.ts:171-181 | the pending list holds the pending records in the order of the keys |
| `ApprovalRules.KeysInOrder` | packages/approval-engine/src/ApprovalRequest.ts:159-190 | in every interleaving the keys stand in the order of their first submission |
| `ApprovalSerial.TerminalIsAbsorbing` | packages/approval-engine/src/ApprovalResolver.ts:43-161 | in every run without overlapping calls a record that has left pending never changes again |
| `ApprovalSerial.NoPromiseIsLost` | packages/approval-engine/src/ApprovalEngine.ts:57-108 | without overlap a promise waits exactly for the requests that are still pending |
| `ApprovalSerial.PromisesTellVerdict` | packages/approval-engine/src/ApprovalResolver.ts:163-181 | without overlap every settled promise told the final status that the store holds for ever |
| `ApprovalOverlap.SweepIsExact` | packages/approval-engine/src/ApprovalTimeout.ts:41-70 | in every run, overlaps included, a sweep that starts when no call is in flight and that nothing interrupts times out exactly the pending requests past their deadline, settles exactly their promises and touches nothing else |
| `ApprovalOverlap.OverwrittenExactly` | packages/approval-engine/src/ApprovalResolver.ts:43-161 | in every reachable state a record changes if and only if the event is a new submission under its id, an accepted decision on a copy still pending unless the store shows its status and count already, or a sweep whose next overdue pending copy it is unless the store shows it timed out |
| `ApprovalOverlap.RecordStaysExactly` | packages/approval-engine/src/ApprovalRequest.ts:159-190 | over any stretch of any run a record stays as it is if and only if no event of the stretch is of that kind |
| `ApprovalOverlap.ResolvedForGood` | packages/approval-engine/src/ApprovalResolver.ts:43-161 | in every interleaving the record of a resolved request of which no call in flight holds a pending copy never changes again under new ids |
| `ApprovalOverlap.SettlesExactly` | packages/approval-engine/src/ApprovalResolver.ts:163-181 | in every interleaving with new ids a final verdict or timeout settles the requester's promise if and only if the requester's call has registered it and nothing settled it before |
| `ApprovalOverlap.StrandedForGood` | packages/approval-engine/src/ApprovalResolver.ts:163-181 | a promise that waits for a resolved request, and that no call in flight can settle, is never settled |
| `ApprovalOverlap.WaitsInVainExactly` | packages/approval-engine/src/ApprovalEngine.ts:86-107 | whenever no call is in flight, a waiting promise can be settled by some continuation if and only if its request is pending |
| `ApprovalOverlap.OverlapRevivesRejection` | packages/approval-engine/src/ApprovalResolver.ts:47-54 | with overlap a rejection can become an approval |
| `ApprovalOverlap.EarlyDecisionLosesPromise` | packages/approval-engine/src/ApprovalEngine.ts:86-107 | a decision that overtakes the registration of the promise leaves it waiting for a resolved request, and no continuation with new ids settles it |
| `ApprovalEngine.ApprovalEngine.RequestApproval` | packages/approval-engine/src/ApprovalEngine.ts:57-93 | the stretch up to the first await is a step of the protocol |
| `ApprovalEngine.ApprovalEngine.ProcessDecision` | packages/approval-engine/src/ApprovalResolver.ts:43-48 | likewise: the fetch of a copy |
| `ApprovalEngine.ApprovalEngine.ResumeDecision` | packages/approval-engine/src/ApprovalResolver.ts:48-150 | the uninterrupted stretch from the fetched copy to the store update is a step of the protocol |
| `ApprovalEngine.ApprovalEngine.ListPending` | packages/approval-engine/src/ApprovalRequest.ts:171-181 | copies of exactly the pending records, in insertion order |
| `ApprovalEngine.ApprovalEngine.CheckExpiredRequests` | packages/approval-engine/src/ApprovalTimeout.ts:41-44 | the start of a sweep is a step of the protocol |
| `ApprovalEngine.ApprovalEngine.ResumeSweep` | packages/approval-engine/src/ApprovalTimeout.ts:46-52 | the loop up to its next store update is a step of the protocol |
| `ApprovalEngine.ApprovalEngine.ResumeCall` | packages/approval-engine/src/ApprovalEngine.ts:46-108 | every other stretch, with the registration and settlement of promises |
| `Allocator.SortSpec` | packages/runtime-manager/src/RuntimeAllocator.ts:196-212 | the queue is ordered by priority, then request time; every request is kept; ties keep their arrival order |
| `QueueOrder.QueueIsInOrder` | packages/runtime-manager/src/RuntimeAllocator.ts:196-212 | in every run nobody waits before a request of higher priority, in the order critical, high, normal, low, or before an earlier one of equal priority |
| `QueueOrder.TiesKeepArrival` | packages/runtime-manager/src/RuntimeAllocator.ts:196-212 | a request that has to wait goes behind those of its priority and time and moves none of the others |
| `QueueOrder.ReleaseServesInOrder` | packages/runtime-manager/src/RuntimeAllocator.ts:98-112 | in every run a release serves its waiters in that order, and of two waiters of one tenant and agent never the later one alone |
| `QueueOrder.RequestIsAnswered` | packages/runtime-manager/src/RuntimeAllocator.ts:63-96 | in every run a request is refused exactly during a drain, waits exactly when a cap is used up by the active slots, and is otherwise granted at once |
| `QueueOrder.WaitersMeetCaps` | packages/runtime-manager/src/RuntimeAllocator.ts:140-194 | unless a release during a drain stranded somebody, whoever waits waits for a cap that the active slots use up |
| `Allocator.ScanServesFirst` | packages/runtime-manager/src/RuntimeAllocator.ts:179-194 | one pass over the queue it edits serves exactly as starting over from the front after every grant, and leaves every waiter blocked |
| `Allocator.StepSaturates` | packages/runtime-manager/src/RuntimeAllocator.ts:63-112 | an operation leaves every waiter blocked by some cap if and only if it is not a release during a drain that frees a slot some waiter could use |
| `Allocator.ReleaseSaturates` | packages/runtime-manager/src/RuntimeAllocator.ts:98-112 | a release outside a drain leaves every waiter blocked, whatever the queue was before; during a drain see `StepSaturates` |
| `Allocator.RunIsSound` | packages/runtime-manager/src/RuntimeAllocator.ts:140-232 | in every run, drains included, both counter maps equal the number of active slots per key without zero entries, no cap is exceeded and the queue is in order |
| `Allocator.RunIsWorkConserving` | packages/runtime-manager/src/RuntimeAllocator.ts:140-194 | at every moment of a run, drains included, each waiting request is blocked by some cap if and only if no such release occurred |
| `Allocator.WithoutDrains` | packages/runtime-manager/src/RuntimeAllocator.ts:140-194 | in particular a run that never drains is work-conserving throughout |
| `Allocator.RunConserves` | packages/runtime-manager/src/RuntimeAllocator.ts:63-112 | in every run each accepted request has been served exactly once, has timed out, or still waits |
| `Allocator.WithoutIsExact` | packages/runtime-manager/src/RuntimeAllocator.ts:214-219 | a queue timeout takes out the first waiter with the id and nothing else |
| `Allocator.UndrainingStrandsWaiter` | packages/runtime-manager/src/RuntimeAllocator.ts:133-138 | after a drain a waiter can be left although it could be served |
| `RuntimeAllocator.RuntimeAllocator.CanAllocateImmediately` | packages/runtime-manager/src/RuntimeAllocator.ts:140-156 | true exactly when none of the three caps is reached |
| `RuntimeAllocator.RuntimeAllocator.RequestSlot` | packages/runtime-manager/src/RuntimeAllocator.ts:63-96 | rejects while draining, grants or queues, as specified |
| `RuntimeAllocator.RuntimeAllocator.ReleaseSlot` | packages/runtime-manager/src/RuntimeAllocator.ts:98-112 | frees a known slot, updates both counters and serves the queue |
| `RuntimeAllocator.RuntimeAllocator.ProcessQueue` | packages/runtime-manager/src/RuntimeAllocator.ts:179-194 | the loop that removes items from the list it scans is the specified scan |
| `RuntimeAllocator.RuntimeAllocator.RemoveFromQueue` | packages/runtime-manager/src/RuntimeAllocator.ts:214-219 | removes the first waiter with the id, if any |
| `RuntimeModel.TerminatedKeeps` | packages/runtime-manager/src/RuntimeManager.ts:235-249 | handling a termination releases exactly the slot of that runtime and leaves every other slot with its holder |
| `RuntimeModel.TerminatedTwice` | packages/runtime-manager/src/RuntimeManager.ts:198-208 | handling it a second time changes nothing |
| `RuntimeModel.KillListExact` | packages/runtime-manager/src/RuntimeManager.ts:210-219 | killing a list releases exactly the slots of its chosen runtimes and spares the others |
| `RuntimeModel.KillAllExact` | packages/runtime-manager/src/RuntimeManager.ts:210-219 | for a non-empty tenant a runtime survives if and only if it was live and has another tenant, and exactly the slots held for that tenant are released; without a tenant, or with an empty one, no runtime survives |
| `RuntimeModel.ListKeepsOrder` | packages/runtime-manager/src/RuntimeManager.ts:85-249 | runtimes that live on keep their order in the list and new ones come last, so kills go through them in the order of registration |
| `RuntimeModel.ShutdownReleasesAll` | packages/runtime-manager/src/RuntimeManager.ts:221-228 | up to its await a shutdown releases the slot of every live runtime and leaves none |
| `RuntimeModel.NothingAfterShutdown` | packages/runtime-manager/src/RuntimeManager.ts:221-228 | whatever happens after a shutdown has begun no slot is granted any more, not even one it freed, and nobody joins the queue |
| `RuntimeModel.ExpiredExactly` | packages/runtime-manager/src/RuntimeAllocator.ts:214-219 | a queue timeout takes out the first waiter with the id and changes nothing else of the manager |
| `RuntimeModel.ClaimExact` | packages/runtime-manager/src/RuntimeManager.ts:68-134 | turning a granted slot into a runtime keeps the accounting if and only if no live runtime has its session; otherwise the older slot is lost |
| `RuntimeModel.ClearExact` | packages/runtime-manager/src/RuntimeManager.ts:229-233 | the clear after the await keeps the accounting if and only if no runtime is registered; otherwise the slots of all registered ones are lost |
| `RuntimeModel.OnlyClaimsRefill` | packages/runtime-manager/src/RuntimeManager.ts:221-233 | what a clear can lose are runtimes claimed since the shutdown killed all others |
| `RuntimeModel.StepExact` | packages/runtime-manager/src/RuntimeManager.ts:68-249 | of all operations exactly such claims and clears break the accounting, and exactly they lose a slot |
| `RuntimeModel.RunKeepsInv` | packages/runtime-manager/src/RuntimeManager.ts:68-249 | at every moment of a run each live runtime holds exactly one slot, the slot maps are inverse and every other active slot is in flight, if and only if no operation claimed a live session or cleared a registered runtime |
| `RuntimeModel.ReleasedForGood` | packages/runtime-manager/src/RuntimeAllocator.ts:98-112 | in every run a released slot never becomes active again, so no run releases a slot twice |
| `RuntimeModel.LostForGood` | packages/runtime-manager/src/RuntimeManager.ts:235-249 | in every run a lost slot stays active for ever |
| `RuntimeModel.DuplicateLosesSlot` | packages/runtime-manager/src/RuntimeManager.ts:85-109 | a run from the start in which a second runtime under a live session loses the first one's slot in every continuation |
| `RuntimeModel.ShutdownLosesSlot` | packages/runtime-manager/src/RuntimeManager.ts:221-233 | a run from the start in which a runtime registers during a shutdown's await and its slot is lost in every continuation |
| `RuntimeManager.RuntimeManager.CreateRuntime` | packages/runtime-manager/src/RuntimeManager.ts:68-83 | the call up to its await asks for a slot unless the manager is shutting down |
| `RuntimeManager.RuntimeManager.ClaimSlot` | packages/runtime-manager/src/RuntimeManager.ts:85-134 | the call after its await registers the instance in all three maps |
| `RuntimeManager.RuntimeManager.HandleInstanceTerminated` | packages/runtime-manager/src/RuntimeManager.ts:235-249 | the guarded clean-up is the specified one |
| `RuntimeManager.RuntimeManager.TerminateInstance` | packages/runtime-manager/src/RuntimeInstance.ts:209-217 | the clean-up runs once, in the middle of the status change, and not for an instance that has terminated |
| `RuntimeManager.RuntimeManager.TerminateRuntime` | packages/runtime-manager/src/RuntimeManager.ts:198-208 | the event and the direct call together clean up exactly once |
| `RuntimeManager.RuntimeManager.EmergencyKillAll` | packages/runtime-manager/src/RuntimeManager.ts:210-219 | the loop over the live map, which it shrinks, kills exactly the chosen runtimes and counts them |
| `RuntimeManager.RuntimeManager.Stop` | packages/runtime-manager/src/RuntimeManager.ts:221-228 | the stretch of a shutdown up to its await |
| `RuntimeManager.RuntimeManager.FinishStop` | packages/runtime-manager/src/RuntimeManager.ts:229-233 | the stretch after it, which clears the maps |
| `Canonical.CanonReadable` | packages/audit-engine/src/AuditHasher.ts:40-74 | two texts of plain values, each followed by a delimiter, agree only if the values do: a text can be read back without ambiguity |
| `Canonical.CanonFaithful` | packages/audit-engine/src/AuditHasher.ts:40-74 | plain values have one text if and only if they are the same JSON value; insertion order of keys does not matter |
| `Canonical.NormalIsPlain` | packages/audit-engine/src/AuditHasher.ts:40-74 | every value has the text of a plain one, its reading by that serializer |
| `Canonical.CanonExact` | packages/tool-gateway/src/types.ts:95-111 | for all values and any two serializers the texts are equal exactly when both read the same JSON value |
| `Canonical.PlainAgree` | packages/evidence/src/EvidenceHasher.ts:35-78 | the three serializers print one text for every plain value |
| `Canonical.DatesDisagree` | packages/tool-gateway/src/types.ts:95-111 | the tool gateway prints all dates alike and like no other serializer; the others print two dates alike only if they are one |
| `JsonReader.CanonIsRead` | packages/audit-engine/src/AuditHasher.ts:40-74 | for every object value and each of the three serializers, a reader of JSON after sections 3 to 7 of RFC 8259 reads the text, with nothing left over, as what the serializer makes of the value, and the keys of every object in it ascend strictly by their first differing code unit |
| `JsonReader.EscapedExactly` | packages/audit-engine/src/AuditHasher.ts:40-74 | which code units are printed as they are, which by a short escape and which by four lower-case hexadecimal digits |
| `JsonReader.PairsAreCopied` | packages/audit-engine/src/AuditHasher.ts:40-74 | a surrogate pair is printed as it is |
| `JsonReader.SignExactly` | packages/audit-engine/src/AuditHasher.ts:40-74 | a number is printed with a minus sign exactly when it is negative |
| `Merkle.ProofComplete` | packages/audit-engine/src/AuditHasher.ts:126-187 | the proof generated for any leaf verifies against the root |
| `Merkle.ProofSound` | packages/audit-engine/src/AuditHasher.ts:161-187 | over digests, a proof with the left/right pattern of an index that verifies at all verifies that leaf, with the generated hashes |
| `Merkle.LayerSizes` | packages/audit-engine/src/AuditHasher.ts:80-121 | layer k over n leaves has ceil(n / 2^k) nodes and the last layer is the root |
| `Merkle.RootBinds` | packages/audit-engine/src/AuditHasher.ts:80-121 | lists of equal length with equal roots are equal |
| `Merkle.RootBindsDistinct` | packages/audit-engine/src/AuditHasher.ts:80-121 | over different leaves of one level the root binds the list, whatever its length |
| `Merkle.RepeatedLeafCollides` | packages/audit-engine/src/AuditHasher.ts:98-117 | repeating the last leaf of an odd list keeps its root |
| `Merkle.NodeAsLeafCollides` | packages/audit-engine/src/AuditHasher.ts:80-121 | the tree does not tell a leaf from an interior node |
| `MerkleBinding.CompletionExtends` | packages/audit-engine/src/AuditHasher.ts:98-117 | filling a list up level by level, the last block repeated where a level is odd, keeps the list as a prefix and reaches a power of two |
| `MerkleBinding.SameHeightExactly` | packages/audit-engine/src/AuditHasher.ts:80-121 | lists of one height, of any digests, share a root if and only if they share that completion |
| `MerkleBinding.RootsEqualExactly` | packages/audit-engine/src/AuditHasher.ts:80-121 | over leaves that are no interior nodes, lists of any two lengths share a root if and only if they share their completion |
| `MerkleBinding.AnyRootsEqualExactly` | packages/audit-engine/src/AuditHasher.ts:80-121 | over any leaves they do exactly when the layer of the taller tree at the other's height has the other's completion |
| `MerkleBinding.ProvesLeafExactly` | packages/audit-engine/src/AuditHasher.ts:161-187 | over digests, with any left/right pattern: a proof that verifies proves a leaf if it is as long as the tree is high, and over leaves that are no interior nodes only then |
| `MerkleBytes.FoldEncodes` | packages/audit-engine/src/AuditHasher.ts:161-187 | on digests the byte-level verifier computes what the digest-level one does |
| `MerkleBytes.SoundExactly` | packages/audit-engine/src/AuditHasher.ts:161-187 | over byte strings, steps and proofs of any length and pattern: what verifies is a leaf if and only if it is thirty-two bytes long and the proof has as many steps as the tree has levels above its leaves |
| `MerkleBytes.SoundAtIndex` | packages/audit-engine/src/AuditHasher.ts:161-187 | with the pattern of an index: it is the leaf at that index, with the generated hashes, if and only if it is thirty-two bytes long |
| `MerkleBytes.InteriorPasses` | packages/audit-engine/src/AuditHasher.ts:161-187 | an interior node passes with a proof that is a step short |
| `MerkleBytes.EmptyLeafPasses` | packages/audit-engine/src/AuditHasher.ts:161-187 | the empty leaf passes for the second of two leaves |
| `MerkleBytes.VerifyRawProof` | packages/audit-engine/src/AuditHasher.ts:161-187 | the verifier's loop over byte strings |
| `Merkle.BuildLayer` | packages/audit-engine/src/AuditHasher.ts:98-117 | the pairing loop |
| `Merkle.LayersAbove` | packages/audit-engine/src/AuditHasher.ts:98-121 | each layer is the pairing of the one below and all have one root |
| `Merkle.BuildMerkleTree` | packages/audit-engine/src/AuditHasher.ts:80-121 | the items become leaves, hashed unless they are hashes, and the loop returns the root and all layers; the zero hash for no items |
| `Merkle.DataExactly` | packages/audit-engine/src/AuditHasher.ts:21-24 | which data share a leaf: equal strings, other values that serialize alike, and a string with the value whose canonical text it is |
| `Merkle.GetMerkleProof` | packages/audit-engine/src/AuditHasher.ts:126-156 | the walk up any layers that it stays inside yields the sibling steps; an index out of range none |
| `Merkle.ProofInTree` | packages/audit-engine/src/AuditHasher.ts:126-156 | in the layers of a tree the walk stays inside and yields the proof of the leaf |
| `Merkle.VerifyMerkleProof` | packages/audit-engine/src/AuditHasher.ts:161-187 | over digests: folds the steps over the leaf and compares with the root |
| `Merkle.ComputeMerkleRoot` | packages/evidence/src/EvidenceHasher.ts:83-118 | the evidence package computes the same root |
| `HashChain.VerifyChainIntegrity` | packages/audit-engine/src/AuditHasher.ts:192-243 | the loop over the sorted records names the first one that breaks the chain |
| `HashChain.VerdictIgnoresOrder` | packages/audit-engine/src/AuditHasher.ts:192-243 | the verdict, with the sequence it names, does not depend on the order of the records |
| `HashChain.ValidIsChainable` | packages/audit-engine/src/AuditHasher.ts:192-243 | records are accepted exactly when some arrangement of them is a chain |
| `HashChain.BrokenIsFirst` | packages/audit-engine/src/AuditHasher.ts:207-240 | a refusal names the first record, in order of sequence, that breaks the chain |
| `HashChain.FinalHashBinds` | packages/audit-engine/src/AuditHasher.ts:30-34 | chains of one length with one final hash agree on every sequence, link and canonical payload |
| `HashChain.AcceptedLedgersAgree` | packages/audit-engine/src/AuditHasher.ts:192-243 | so do accepted ledgers: record by record they hold the same payload as the serializer reads it |
| `HashChain.DeletionExactly` | packages/audit-engine/src/AuditHasher.ts:192-243 | of the sub-lists of an accepted ledger, in any order, exactly the contiguous stretches are accepted |
| `HashChain.TruncationPasses` | packages/audit-engine/src/AuditHasher.ts:192-243 | an accepted ledger without its newest record is accepted |
| `Ledger.SealExtends` | packages/audit-engine/src/AuditWriter.ts:180-239 | starting a flush extends ledger and blocks by the front of the queue and keeps sequence, links and tiling |
| `Ledger.SealTakes` | packages/audit-engine/src/AuditWriter.ts:180-189 | a flush takes the front of the queue, as much of it as the batch size allows |
| `Ledger.CalmExactly` | packages/audit-engine/src/AuditWriter.ts:139-260 | an operation keeps the ledger whole and every payload if and only if it fails no flush, assigns nothing but what the writer has already, and restarts only an empty writer |
| `Ledger.RunsAreLossless` | packages/audit-engine/src/AuditWriter.ts:139-260 | at every moment of a run of an initialized writer nothing is lost or reordered and the ledger is whole, if and only if every operation was calm in that sense; then the stored ledger passes the integrity check, blocks tile and link, and an idle writer has an empty queue |
| `LedgerCheck.StoreExactly` | packages/audit-engine/src/AuditHasher.ts:192-243 | storing a batch keeps an accepted ledger acceptable if and only if none of its numbers is taken and one of its ends joins a stored record, unless nothing is stored |
| `LedgerCheck.PassesExactly` | packages/audit-engine/src/AuditWriter.ts:123-260 | in every run of a new writer over any accepted storage, with failures, restarts and initializations at any moment, the stored records pass the check at every moment if and only if every batch that was stored fitted in that sense |
| `LedgerCheck.TipExactly` | packages/audit-engine/src/AuditWriter.ts:180-209 | over a whole ledger a batch fits exactly when its flush began with the number and hash of the ledger's end, or the ledger is empty |
| `LedgerCheck.CountersExactly` | packages/audit-engine/src/AuditWriter.ts:139-260 | a writer that runs undisturbed over a whole ledger, whatever its counters: the check passes if and only if the ledger was empty, nothing has been stored since, or the counters were those of its end |
| `LedgerCheck.EarlyAppendExactly` | packages/audit-engine/src/AuditWriter.ts:123-178 | until an initialization comes back, the check passes what a new writer stores over a whole ledger if and only if that was empty |
| `LedgerCheck.LostBatchExactly` | packages/audit-engine/src/AuditWriter.ts:241-260 | after a failed flush, until another disturbance, the loss goes unnoticed if and only if nothing had been stored before or nothing is stored since |
| `LedgerCheck.ReloadHidesLoss` | packages/audit-engine/src/AuditWriter.ts:139-151 | an uninterrupted initialization makes the writer sound again whatever it had lost, so that the loss is not noticed in any calm run |
| `LedgerCheck.RestartRepeats` | packages/audit-engine/src/AuditWriter.ts:123-151 | a run in which a new writer over a used storage repeats a number |
| `LedgerCheck.LateLoadRepeats` | packages/audit-engine/src/AuditWriter.ts:139-145 | a run from an empty storage in which an initialization that comes back during a flush makes the next batch repeat a number |
| `LedgerCheck.ReloadHides` | packages/audit-engine/src/AuditWriter.ts:241-260 | a run in which a lost batch is noticed, and with an initialization after the loss is not |
| `AuditWriter.AuditWriter.constructor` | packages/audit-engine/src/AuditWriter.ts:123-137 | a new writer starts at sequence zero and the genesis hash, whatever its storage holds |
| `AuditWriter.AuditWriter.Initialize` | packages/audit-engine/src/AuditWriter.ts:139-140 | initialization up to its first await: the latest record is fetched at the call |
| `AuditWriter.AuditWriter.OnLatestRecord` | packages/audit-engine/src/AuditWriter.ts:140-145 | up to its second await: the fetched record is assigned, whatever the storage holds by now, and the latest block is fetched |
| `AuditWriter.AuditWriter.OnLatestBlock` | packages/audit-engine/src/AuditWriter.ts:145-150 | to its end: the fetched block is assigned |
| `AuditWriter.AuditWriter.LinkBatch` | packages/audit-engine/src/AuditWriter.ts:189-209 | the loop numbers and links a batch from the current sequence and hash |
| `AuditWriter.AuditWriter.BeginFlush` | packages/audit-engine/src/AuditWriter.ts:180-242 | the stretch of a flush up to the first storage call |
| `AuditWriter.AuditWriter.AppendPayload` | packages/audit-engine/src/AuditWriter.ts:167-178 | an append is refused exactly when the queue is full |
| `AuditWriter.AuditWriter.OnRecordsAppended` | packages/audit-engine/src/AuditWriter.ts:242-243 | the records are stored, the block is next |
| `AuditWriter.AuditWriter.OnBlockAppended` | packages/audit-engine/src/AuditWriter.ts:243-248 | the block is stored |
| `AuditWriter.AuditWriter.EndFlush` | packages/audit-engine/src/AuditWriter.ts:249-260 | the end of a flush, failed or not, starts the next one when something is queued |
| `Evidence.EvidenceChainBuilder.AddEvidence` | packages/evidence/src/EvidenceChain.ts:22-52 | adds one block and keeps the chain numbered, linked and hashed |
| `Evidence.EvidenceChainBuilder.Seal` | packages/evidence/src/EvidenceChain.ts:54-67 | every sealed chain passes the verifier |
| `Evidence.VerifyChain` | packages/evidence/src/EvidenceVerifier.ts:25-88 | the loop lists exactly the violations; valid exactly when there is none |
| `Evidence.SoundChain` | packages/evidence/src/EvidenceVerifier.ts:25-88 | the verifier accepts exactly the intact chains under their own Merkle root |
| `Evidence.ReportExactly` | packages/evidence/src/EvidenceVerifier.ts:25-88 | the report names every wrong index, link, content hash and root, nothing else and nothing twice, block by block |
| `Evidence.RootDeterminesChain` | packages/evidence/src/EvidenceVerifier.ts:25-88 | two accepted chains with one root are identical, whatever their lengths |
| `Evidence.LastHashDeterminesChain` | packages/evidence/src/EvidenceChain.ts:22-52 | two intact chains with one last hash are identical, whatever their lengths |
| `CronField.NumeralReads` | packages/scheduler/src/ScheduleRepository.ts:110-149 | a printed number is read back by both number readers of the matcher |
| `CronField.FieldReads` | packages/scheduler/src/ScheduleRepository.ts:110-149 | for any list of stars, numbers, ranges and steps the text matcher accepts exactly the values the field means |
| `CronField.ScheduleReads` | packages/scheduler/src/ScheduleRepository.ts:92-108 | a whole expression is split into its five fields and matches exactly the dates all five mean |
| `CronText.PartsExactly` | packages/scheduler/src/ScheduleRepository.ts:46-90 | for every expression, however spaced and in letters of any case: its fields are the words of what its name stands for, or its own words in small letters |
| `CronText.SpacingIsIgnored` | packages/scheduler/src/ScheduleRepository.ts:46-108 | a written schedule means what its fields mean however its words are spaced |
| `CronText.InvalidExactly` | packages/scheduler/src/ScheduleRepository.ts:51-55 | an expression is invalid exactly when it has not five words and is no name |
| `CronText.NamesRun` | packages/scheduler/src/ScheduleRepository.ts:72-90 | when each of the seven names runs next |
| `CronText.ParseExactly` | packages/scheduler/src/ScheduleRepository.ts:110-149 | an integer is read from the digits in front, with one sign before them; what follows is ignored, and without a digit there is none |
| `CronText.NumberExactly` | packages/scheduler/src/ScheduleRepository.ts:110-149 | a range bound is read from nothing but digits, with at most a plus before them; an empty one is zero |
| `CalendarDays.DaysFollow` | packages/scheduler/src/ScheduleRepository.ts:92-108 | over all days each date and weekday follows the one before by the rules of the Gregorian calendar |
| `CalendarDays.EpochIsThursday` | packages/scheduler/src/ScheduleRepository.ts:92-108 | day zero, and no other, is Thursday, 1 January 1970 |
| `CalendarDays.MinutesFollow` | packages/scheduler/src/ScheduleRepository.ts:92-108 | over all minutes each follows the one before as on a clock, with the date of its day |
| `Cron.CalculateNextRun` | packages/scheduler/src/ScheduleRepository.ts:46-70 | for a host clock at a fixed offset from UTC, the outcome is the search result or one of the two errors |
| `Cron.ZoneShifts` | packages/scheduler/src/ScheduleRepository.ts:46-109 | an offset shifts start and result of the search, so what is proved in UTC holds at every fixed offset |
| `Cron.SearchForward` | packages/scheduler/src/ScheduleRepository.ts:56-68 | the minute-by-minute loop is the bounded search |
| `Cron.NextRunIsLeast` | packages/scheduler/src/ScheduleRepository.ts:46-70 | the result is the least matching whole minute strictly after the start; failure exactly when none of the 366 * 1440 candidates matches |
| `Cron.NextRunIsMonotone` | packages/scheduler/src/ScheduleRepository.ts:46-70 | a later start never gives an earlier run |
| `Cron.YearlySucceeds` | packages/scheduler/src/ScheduleRepository.ts:72-90 | `@yearly` always succeeds, at the next 1 January; it needs the whole bound exactly from the first minute of a leap year |
| `Cron.MonthlySucceeds` | packages/scheduler/src/ScheduleRepository.ts:72-90 | `@monthly` always succeeds, at the start of the next month |
| `Cron.WeeklySucceeds` | packages/scheduler/src/ScheduleRepository.ts:72-90 | `@weekly` always succeeds, at the start of the next Sunday |
| `Cron.DailySucceeds` | packages/scheduler/src/ScheduleRepository.ts:72-90 | `@daily` always succeeds, at the next midnight |
| `Cron.HourlySucceeds` | packages/scheduler/src/ScheduleRepository.ts:72-90 | `@hourly` always succeeds, at the next full hour |
| `EventQueue.EnqueueKeepsOrder` | packages/simulation-engine/src/SimulationClock.ts:86-113 | inserting keeps the queue ordered by time, priority and insertion |
| `EventQueue.TraceIsOrdered` | packages/simulation-engine/src/SimulationClock.ts:126-143 | two tasks of an advance run in time, priority and insertion order whenever the later one was already scheduled when the earlier one ran |
| `EventQueue.NothingDueIsSkipped` | packages/simulation-engine/src/SimulationClock.ts:126-143 | an advance that ends runs every task that was due and is not cancelled on the way |
| `EventQueue.RunsOnce` | packages/simulation-engine/src/SimulationClock.ts:133-138 | no task runs twice in an advance |
| `EventQueue.TurnsBackExactly` | packages/simulation-engine/src/SimulationClock.ts:133-138 | at any point of any advance the clock runs backwards exactly when some task is queued in the past at that moment |
| `EventQueue.TimeNeverDecreases` | packages/simulation-engine/src/SimulationClock.ts:126-143 | if nothing is ever scheduled in the past, not even by callbacks, time never decreases and never passes the target |
| `EventQueue.PastTaskTurnsClockBack` | packages/simulation-engine/src/SimulationClock.ts:86-113 | otherwise it can decrease |
| `EventQueue.DrainComposes` | packages/simulation-engine/src/SimulationClock.ts:126-143 | advancing to a and then to b runs the same tasks in the same order, with the same result, as advancing to b |
| `EventQueue.DrainUnique` | packages/simulation-engine/src/SimulationClock.ts:126-143 | what an advance that ends runs does not depend on the bound used to describe it |
| `ClockOverlap.EveryTaskOnce` | packages/simulation-engine/src/SimulationClock.ts:86-164 | in every interleaving of overlapping advances, schedulings and cancellations each task is exactly one of run once, cancelled or still queued |
| `ClockOverlap.TurnsBackExactly` | packages/simulation-engine/src/SimulationClock.ts:86-164 | in every interleaving a call sets the clock back if and only if it takes up a task or target while some task is queued in the past, or resumes an advance whose target has been passed |
| `ClockOverlap.ForwardExactly` | packages/simulation-engine/src/SimulationClock.ts:126-155 | no call whatever can set the clock back exactly when nothing is queued in the past and no advance in flight has been overtaken |
| `ClockOverlap.OrderlyRunsExactly` | packages/simulation-engine/src/SimulationClock.ts:86-155 | with callbacks that schedule nothing in the past: that is so at every moment of an interleaving if and only if nobody schedules in the past and no call carries the clock past the target of an advance in flight; and then time never decreases |
| `ClockOverlap.OverlapTurnsClockBack` | packages/simulation-engine/src/SimulationClock.ts:126-143 | two overlapping advances, the nearer of which ends last and sets the clock back |
| `SimulationClock.SimulationClock.Schedule` | packages/simulation-engine/src/SimulationClock.ts:86-113 | the insertion loop |
| `SimulationClock.SimulationClock.CancelTask` | packages/simulation-engine/src/SimulationClock.ts:157-164 | removes the task and says whether it was queued |
| `SimulationClock.SimulationClock.AdvanceTo` | packages/simulation-engine/src/SimulationClock.ts:126-143 | refuses a target in the past; otherwise runs exactly the specified trace, leaves nothing due and shows the target |
| `SimulationClock.SimulationClock.AdvanceToNextTask` | packages/simulation-engine/src/SimulationClock.ts:148-155 | runs the first task, if any |
| `Lease.StartsExactly` | packages/scheduler/src/ScheduleLock.ts:22-46 | in every interleaving a run gets the lease if and only if every active run of its schedule has outlived its own |
| `Lease.GrantExactly` | packages/scheduler/src/ScheduleRunner.ts:48-70 | a granted lease is recorded under the key and lasts sixty seconds; a refusal skips the run |
| `Lease.RenewsExactly` | packages/scheduler/src/ScheduleLock.ts:48-58 | in every interleaving a renewal moves the end of a lease exactly when it has not run out, and otherwise changes nothing |
| `Lease.NoOverlap` | packages/scheduler/src/ScheduleRunner.ts:48-120 | two runs of a schedule that are both within their leases are one run |
| `Lease.LateReleaseIsHarmless` | packages/scheduler/src/ScheduleLock.ts:60-67 | a release, however late, never removes a successor's lease |
| `Lease.FinishedOwnsNothing` | packages/scheduler/src/ScheduleRunner.ts:48-120 | in every interleaving a run that is over, however it ended, owns no lease entry; every entry belongs to an active run |
| `Lease.EveryExitReleases` | packages/scheduler/src/ScheduleRunner.ts:48-120 | whatever its awaited calls do, exceptions included, a run is over after at most five resumptions and owns no entry then |
| `Lease.ResultExactly` | packages/scheduler/src/ScheduleRunner.ts:48-120 | how a run ends is determined by the outcomes of the calls it awaits |
| `Lease.OverrunOverlaps` | packages/scheduler/src/ScheduleLock.ts:22-46 | a run that outlives its lease does overlap |
| `ScheduleRunner.ScheduleLock.AcquireLease` | packages/scheduler/src/ScheduleLock.ts:22-46 | refuses a held key, replaces an expired entry, issues a fresh token |
| `ScheduleRunner.ScheduleLock.RenewLease` | packages/scheduler/src/ScheduleLock.ts:48-58 | extends only an unexpired entry with the same token |
| `ScheduleRunner.ScheduleLock.ReleaseLease` | packages/scheduler/src/ScheduleLock.ts:60-67 | removes only the entry with the same token |
| `ScheduleRunner.ScheduleRunner.RunSchedule` | packages/scheduler/src/ScheduleRunner.ts:48-120 | an undisturbed run is skipped on a held key, and otherwise frees the key whatever its four awaited calls do |
| `EventStore.RingBuffer.Append` | packages/event-bus/src/EventStore.ts:40-51 | one event more in the log that the buffer stands for, with head, count and counters in step |
| `EventStore.RingBuffer.GetAllBufferedEvents` | packages/event-bus/src/EventStore.ts:89-102 | the last min(n, capacity) events appended since the last clear, in order |
| `EventStore.SelectedIsExact` | packages/event-bus/src/EventStore.ts:57-72 | a query selects exactly the matching events, each as often as it is stored |
| `EventStore.SelectedInOrder` | packages/event-bus/src/EventStore.ts:57-72 | and keeps their order |
| `EventStore.LatestIsGreatest` | packages/event-bus/src/EventStore.ts:40-55 | the latest sequence is the greatest of the tenant, zero without any |
| `EventStore.AnswerExactly` | packages/event-bus/src/EventStore.ts:57-76 | the matching events are those that no field of the query rules out, each as often and in the order it is stored, and the answer is the slice of them that offset and limit cut, for negative values too |
| `EventStore.RingBuffer.RunQuery` | packages/event-bus/src/EventStore.ts:57-76 | the matching buffered events, sliced by offset and limit as JavaScript slices |
| `EventStore.RingBuffer.GetLatestSequence` | packages/event-bus/src/EventStore.ts:53-55 | the greatest sequence appended for the tenant since the last clear, evicted events included |
| `EventStore.RingBuffer.Clear` | packages/event-bus/src/EventStore.ts:108-113 | the empty log |
| `EventStore.HandledIsPrefix` | packages/event-bus/src/EventReplay.ts:50-70 | the delivered events are those before the first one that the handler refuses |
| `EventStore.ReplayPage` | packages/event-bus/src/EventReplay.ts:38-72 | one page delivers the next stretch of matching events, or ends the replay |
| `EventStore.Replay` | packages/event-bus/src/EventReplay.ts:28-80 | delivers every matching event from the offset on exactly once, in order, up to the first exception; complete exactly when all were delivered; always ends |
| `RateLimit.NoWindowExceedsQuota` | packages/tenancy/src/TenantLimits.ts:94-128 | in every run with a clock that does not run backwards, every half-open window of the given length holds at most the quota of allowed requests |
| `RateLimit.AllowedExactly` | packages/tenancy/src/TenantLimits.ts:94-128 | in every run a request is allowed if and only if fewer than the quota were allowed within the window that ends with it |
| `RateLimit.VerdictExactly` | packages/tenancy/src/TenantLimits.ts:94-128 | in every run an allowed request is told how many more the window has room for and a wait of zero; a refused one that there is no room and a wait of at least a second |
| `RateLimit.RetryIsLeast` | packages/tenancy/src/TenantLimits.ts:106-118 | and not before: until the last of the reported seconds begins a silent tenant is still refused |
| `RateLimit.RetryIsHonoured` | packages/tenancy/src/TenantLimits.ts:106-118 | a refused tenant that stays silent for the reported time is allowed next |
| `RateLimit.TenantLimits.SetTenantQuota` | packages/tenancy/src/TenantLimits.ts:76-92 | changes the quota of one tenant only |
| `RateLimit.TenantLimits.CheckRateLimit` | packages/tenancy/src/TenantLimits.ts:94-128 | verdict and remembered timestamps as specified, no other tenant affected |

## Left out

- Real cryptography: SHA-256, HMAC, key derivation and encryption; digests are free constructors, and upper and lower case of hexadecimal digits are not distinguished.
- `shredRecords` rewrites payloads without rehashing; no chain claim covers it.
- bigint, function, symbol, fractional and very large numbers in the serializers; `Int` stands for the integers that JavaScript prints in plain decimal.
- `CronField.FieldReads`: is about printed fields; other texts, such as empty or malformed items, are modelled by the matcher and have no meaning of their own.
- `JsonReader.CanonIsRead`: the reader knows no insignificant white space, fractions or exponents, because no text contains any.
- The timeouts that a policy sets per risk level; a submission states its deadline.
- Parsing of cron numbers in hexadecimal, exponent or fractional form (taken as not a number), white space outside ASCII, and the range limits of JavaScript dates.
- `Cron.CalculateNextRun`: leaves out daylight saving, because local time is then no fixed offset.
- Ids, random tokens, timestamps and clock readings, which are parameters.
- Listeners that call back into a component while it emits an event, other than the manager's `terminated` handler and the clock's own callbacks.
- Task fields other than status, dependencies, dependents and the two retry counts, and how long the backoff timer of a retry waits; `OnRetryTimer` may fire at any moment.
- `delete` of the approval store, listing by tenant, the parameters that an approval carries, and the contents of audit events.
- The health monitor, recovery, pausing, locking and log buffers of runtimes. A late event of an instance that another one replaced under its session acts as a termination of the newer one.
- `RuntimeManager` may pass undefined caps that overwrite the defaults; caps are given natural numbers.
- Flush timers, `start` and `stop` of the audit writer, and a storage call that fails after it has stored a part.
- A flush of a writer that was replaced over the same storage and is still running; `Restart` ends it.
- The order in which failed flushes reject their promises.
- `AuditWriter.AuditWriter.BeginFlush`: assumes a batch size of at least one, because with zero the writer never makes progress.
- `reset`, time scale and snapshots of the clock, and `tick`, which is an advance to the current time plus a step; task ids are serial numbers.
- `SimulationClock.SimulationClock.AdvanceTo`: is about one advance at a time that ends, because callbacks may schedule due tasks for ever; overlapping advances are in `ClockOverlap`.
- `clear` of the lock, the schedule repository, misfire policies and the scheduler's `tick`; at-most-once firing per due time is not claimed, as a run does not recheck that it is due.
- Throttling, progress reports and durations of a replay; events appended while a replay is running.
- `Merkle.GetMerkleProof`: leaves out layers too short for the walk, where the source puts undefined entries into the proof.
- `Merkle.VerifyMerkleProof`: takes digests; strings of other lengths are in `MerkleBytes.VerifyRawProof`, which takes the decoded bytes, so how a malformed hexadecimal string is cut short is not modelled.
- `RateLimit.NoWindowExceedsQuota`: is about one fixed positive quota and window, because a changed quota changes the promise.
- `ApprovalSerial.TerminalIsAbsorbing`: like the other lemmas on runs without overlap, also asks that request ids are not reused, because saving a request under a used id replaces its record.
- `ApprovalOverlap.SweepIsExact`: is about a sweep that nothing interrupts; interrupted ones are covered by the lemmas over all interleavings.
- Event routing, policies by pattern, secret detection, path handling, cost estimation, exporters, user interface and transport code, which would add easier members.
