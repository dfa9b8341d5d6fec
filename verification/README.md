# A model of the hub

The hub keeps each workspace as an append-only log of events that clients push and pull
through a relay, shows that log as a paginated timeline and a task board, and guards it with
a small control plane (members, invites, sidecar stores, device logins, metering). This
project models the state machines and algorithms at the centre of it and proves what they
keep, over whole runs rather than single calls.

`dafny verify dfyconfig.toml` checks everything.

## How the model is laid out

| Part | Modules |
|---|---|
| Relay log: file, hydration, appends, crashes, `since` reads | `Ndjson`, `FirstWins`, `LogFile`, `RelayMachine`, `RelayQueue`, `ProjectLog`, `Watermark`, `SampleCodec` |
| Backward pagination: order, window, merge, client | `Ordering`, `Timeline`, `PaginatedFeed`, `FeedHistory`, `FeedClient`, `CursorCodec` |
| Task board order | `TaskOrder` |
| Control plane: tables, authorization, handlers, ownership | `Tables`, `Policy`, `Workspace`, `Permissions`, `Ownership`, `WorkspaceDb` |
| Device login (RFC 8628) | `DeviceGrant` |
| Metering and billing | `Metering`, `Billing` |
| Codecs: UTF-8, routes, lane ids | `Text`, `Utf8`, `Routes`, `LaneId` |
| Shared | `Options`, `Sequences` |

Code that changes state in place has a class whose methods are proved equal to functions on
values (`ProjectLog.Log`, `FeedClient.Feed`, `TaskOrder.Sorter`, `WorkspaceDb.Db`,
`DeviceGrant.DeviceTable`, `Metering.UsageTable`); whole runs are proved about those functions.

Asynchronous code is a machine whose steps are the points where it can be interrupted. In the
relay these are the queueing of an append, its start, each piece of its write, its publication
in memory, a failure, a crash and a restart. In the gateway a handler that awaits a request body is
two steps, one that authorizes and one that writes, because other requests run in between.

What is taken from outside: JSON text is an arbitrary codec with the laws in `Ndjson.Lawful`
(an encoding is one non-blank line, parses back, and neither a cut encoding nor a cut encoding
with another glued to it parses); `SampleCodec` shows that the laws can be met. Random ids and
tokens are opaque values that are not drawn twice. Clocks only move forward. Memory ids and
task ids are unique. SQLite tables are maps with their keys and the foreign keys to `stores`;
a transaction is one step.

## Where the code differs from what is said of it

- "Memory never claims more than the file holds" (packages/relay/src/store.ts:104-109) is true, id by id, of
  every run in which each write starts at the end of a line, failed writes and crashes included
  (`RelayMachine.MemoryNeverClaimsMoreThanTheFile`). The code does not check that condition. For a single
  append, `LogFile.AppendClaimsIff` says exactly when it is true afterwards, and
  `RelayMachine.TornTailLosesTheNextAppend` shows an acknowledged event that is gone after the next restart.
  The order of the two can differ even where the ids do not; `LogFile.AppendAgreesIff` and
  `LogFile.AppendKeepsPrefixIff` say exactly when an append leaves them equal, or memory a beginning of the file.
- "Under-returning is not [safe]" (packages/relay/src/store.ts:162-166): what a client lacks after a pull is
  exactly what it lacked of the events that the log places up to its watermark (`Watermark.PullCompleteIff`).
  After a restart the file decides that order (`Watermark.RestartedPullCompleteIff`), and after a write that
  failed at the end of a line it can differ from the one the client saw, so that the client never receives an
  event (`Watermark.FailedWriteReordersTheLog`).
- The feed drops replies for other workspaces, not for earlier visits to the same one
  (packages/web/src/lib/paginated-timeline.ts:71). Leaving and returning with an older page under way leaves
  a page missing from the items (`PaginatedFeed.ReturningLeavesAGap`). Such a reply is harmless exactly when
  what is held starts at the item it was asked for or inside the page, and nothing has arrived beneath the
  page since (`PaginatedFeed.OlderPageFitsIff`); comparing the request's cursor with the one held would tell
  the former. A late reply or failure of an earlier visit also clears the flag that keeps older requests
  apart, so that two of one visit can be under way (`PaginatedFeed.ReturningAllowsTwoOlderRequests`).
- "Order-independent" merging (packages/web/src/lib/timeline-page.ts:9-13) holds within each argument.
  Exchanging the two changes the result exactly when they hold different copies of an item
  (`Timeline.MergeCommutesIff`): the loaded one wins (`Timeline.MergePrefersLoaded`).
- The last-owner rule does not keep every store owned: a sole owner who is the only member may leave
  while invites live on (packages/gateway/src/stores.ts:162-166). A store loses its owner exactly by its only
  member's departure (`Ownership.OwnerLostIff`), and has members without an owner exactly after a join that
  finds it empty (`Ownership.HeadlessIff`), over whole runs as well (`Ownership.OwnerlessWasDeserted`,
  `Ownership.EverHeadlessIff`). Whether that can follow shows at the moment of leaving: it can if and only if
  an invite to the store is alive or one is being minted (`Ownership.LeavingStrandsIff`). A store without an
  owner can get one again, exactly through a role change authorized before the owner left, whose body
  arrives later (`Ownership.OwnerlessRegainsOwnerIff`, `Ownership.LateRoleChangeGivesAnOwner`).
- Deleting a store does not delete its source-store rows, which refer to it
  (packages/gateway/src/stores.ts:215-223, packages/gateway/src/db.ts:172-180), so it rolls back exactly
  when there are any (`Tables.DeleteStoreAllOrNothing`). Creating a workspace, registering a source store in it
  and deleting it is such a run: the deletion is allowed and changes nothing (`Ownership.TeardownRollsBack`).
- Lane ids are called collision-free (packages/replica/src/workspace.ts:9-12). Every id that needs the
  hexadecimal form shares its lane with one other (`LaneId.EveryMixedIdHasAShadow`); ids of one length never do.
- `parse` and `toPath` (packages/web/src/lib/use-app-location.ts:20-35) bring a path to a canonical form in one
  step unless its first segment is `personal` with a letter escaped (`Routes.CanonicalIsIdempotentIff`). The
  app rewrites a path only to the id of a workspace it shows, and minted ids are never of that kind
  (`Routes.MintedIdsAreCanonicalOnce`), so users do not meet it.

## Model

| member | source | states |
|---|---|---|
| Ndjson.SplitIsInverseOfJoin | packages/relay/src/store.ts:87 | cutting the file at its newlines loses nothing, and no line holds a newline |
| Ndjson.LoadConcat | packages/relay/src/store.ts:79-102 | hydrating a file that ends at a line boundary and then more text is hydrating the file and going on with the text; a rejected hydration stops there |
| Ndjson.ScanDistinct | packages/relay/src/store.ts:98-100 | whatever a file holds, its index has no id twice |
| FirstWins.FreshIsFirstOccurrences | packages/relay/src/store.ts:113-119 | what appends keep, from nothing, is the list of first occurrences, defined independently by position |
| FirstWins.FreshIds | packages/relay/src/store.ts:113-119 | an append keeps exactly the ids not stored yet, each once |
| FirstWins.FreshConcat | packages/relay/src/store.ts:110-133 | two appends in a row keep what one append of both batches would |
| FirstWins.FreshTwice | packages/relay/src/store.ts:104-105 | pushing a batch again stores nothing |
| FirstWins.FreshIsSubsequence | packages/relay/src/store.ts:104-106 | an append keeps the batch's own order |
| FirstWins.SameIdsInAnyOrder | packages/relay/src/store.ts:110-133 | the stored id set is the same for every order of the same pushes |
| LogFile.LoadIsFirstWins | packages/relay/src/store.ts:79-102 | hydration rejects exactly when a line that is not blank holds `null`, and otherwise indexes the first occurrence of each id among the lines' events, skipping what does not parse or has no id |
| LogFile.ScanCutText | packages/relay/src/store.ts:87-101 | hydrating what an append wrote, cut at any character, indexes exactly the events whose encodings landed whole |
| LogFile.LoadCutWrite | packages/relay/src/store.ts:121-123 | a write cut at any character onto a line boundary adds a prefix of the batch's new events, and leaves a beginning of one encoding as the last line |
| LogFile.LoadTornWrite | packages/relay/src/store.ts:121-123 | a write onto an unfinished line loses the fragment and the first event glued to it, and nothing else |
| LogFile.AppendClaimsIff | packages/relay/src/store.ts:104-127 | for any memory, and any file whose unfinished line, if it has one, does not parse with the next encoding glued to it (as after a torn write): after an append that stores something, every id memory holds is in the file's index if and only if the finished lines held memory's ids before, and the file ended at a line boundary or the first new event is on a finished line already |
| LogFile.AppendAgreesIff | packages/relay/src/store.ts:104-127 | likewise, file and memory hold the same list afterwards if and only if the finished lines hold memory and then a beginning of what is stored, not empty when the last line is unfinished |
| LogFile.AppendKeepsPrefixIff | packages/relay/src/store.ts:104-127 | likewise, memory is a beginning of the file's index afterwards if and only if the finished lines hold memory and then a beginning of what is stored or more than that |
| LogFile.AppendKeepsStepIff | packages/relay/src/store.ts:104-127 | starting in step, the two agree after an append that stores something if and only if the file ended at a line boundary |
| LogFile.TornAppendDropsFirst | packages/relay/src/store.ts:121-123 | with an unfinished last line, the first event of the next append is not in the file's index |
| RelayMachine.MemoryNeverClaimsMoreThanTheFile | packages/relay/src/store.ts:104-133 | over every interleaving of pushes, piecemeal and failed writes, crashes and reopens in which each write starts at a line boundary: every id memory holds is in the file's index, hydration never rejects, and between jobs the two lists are equal unless a write has failed part way since the store was opened |
| RelayMachine.MemoryIsAPrefixOfTheFile | packages/relay/src/store.ts:104-133 | when each write also agrees with the order of the file, memory is at every moment a beginning of the file's index |
| RelayMachine.RelayFromTheStart | packages/relay/src/store.ts:46-133 | both from an empty directory |
| RelayMachine.FileDuringWrite | packages/relay/src/store.ts:123-127 | in the middle of a job the file holds what it held before and the landed events that are new to it; with no failed write behind it, that is memory and the landed events |
| RelayMachine.StepExtendsLogIff | packages/relay/src/store.ts:79-133 | a step shortens or reorders what readers get exactly when it is a crash and memory is not a beginning of the file's index |
| RelayMachine.LogIsAppendOnly | packages/relay/src/store.ts:110-133 | over the runs above the durable log only grows, in order, and never holds an id twice, crashes and reopens included |
| RelayMachine.RunRefinesFirstWins | packages/relay/src/store.ts:62-133 | over every interleaving of queued appends, writes failed anywhere, crashes and restarts, with no assumption on file or codec: a read returns at every moment the first-wins set of exactly the finished batches, never part of one, and what was accepted is what is stored, if and only if at each crash the file's index is memory |
| RelayQueue.PushesAreServedInOrder | packages/relay/src/store.ts:110-133 | over every run, crashes and failures included, the pushes taken while the store is up meet their fates (finished, failed, lost in a crash) in the order in which they were made; the others wait in that order, the one being written and then the queue |
| RelayQueue.LogFollowsThePushes | packages/relay/src/store.ts:110-133 | without failures and crashes, read off the steps: the finished jobs are a beginning of the pushes, the log is the first-wins set of that beginning, and each push was told exactly the ids it added to those before it |
| RelayMachine.CleanCrashIff | packages/relay/src/store.ts:79-127 | when that is so at a crash, in terms of the write: unless a write had failed before, exactly when no event of a write in progress has landed |
| RelayMachine.AcceptedOnce | packages/relay/src/store.ts:110-128 | over those runs, failed writes included, the accepted lists in job order are the log's ids, and no id is accepted twice |
| RelayMachine.SameIdsInAnyJobOrder | packages/relay/src/store.ts:110-133 | two of those runs that finish the same pushes in different orders store the same ids |
| RelayMachine.UndisturbedRunsAreSafe | packages/relay/src/store.ts:110-133 | without failed writes and without crashes during one, each write starts at a line boundary, agrees with the order of the file, and each crash is clean: the conditions above are met by themselves |
| RelayMachine.AppendRun | packages/relay/src/store.ts:110-133 | what one append with nothing else queued does to file, memory and result |
| RelayMachine.FreshResume | packages/relay/src/store.ts:113-119 | pushing a batch again when its first m new events are stored keeps exactly the rest |
| RelayMachine.CrashRecovery | packages/relay/src/store.ts:79-127 | after a crash at any character of a write, reopening yields what the file held before (the old log, unless a write had failed) and a prefix of what the batch adds; pushing the batch again completes memory without a duplicate, and the file too if and only if nothing was missing or the cut fell on a line boundary |
| RelayMachine.TornTailLosesTheNextAppend | packages/relay/src/store.ts:121-127 | from any state whose file ends inside a line, the next append is acknowledged and readable, and its first event is gone after one more restart |
| RelayMachine.TornStateIsReachable | packages/relay/src/store.ts:121-127 | one crash inside the first line of a file reaches such a state |
| ProjectLog.Log.Hydrate | packages/relay/src/store.ts:79-102 | the loop over lines builds exactly the file's index, and fails exactly when a line throws |
| ProjectLog.Log.FilterBatch | packages/relay/src/store.ts:113-119 | the loop over the batch keeps the first occurrence of each id not stored |
| ProjectLog.Log.Publish | packages/relay/src/store.ts:124-127 | memory grows by the written events, with the seen-set in step |
| ProjectLog.Log.Append | packages/relay/src/store.ts:110-133 | the new file, log and accepted ids, and that they are the machine's own steps for one append |
| ProjectLog.Log.Read | packages/relay/src/store.ts:167-173 | a read is everything after the watermark's first occurrence, or everything |
| ProjectLog.ReopenAfterAppend | packages/relay/src/store.ts:46-56 | restarting over the file left behind rebuilds the log that was in memory |
| Watermark.FindId | packages/relay/src/store.ts:171 | the first index with the id, or -1 exactly when none has it |
| Watermark.PullCatchesUp | packages/relay/src/store.ts:162-173 | a client that holds the log up to its watermark holds all of it after a pull, however much the log has grown, and was sent exactly what it lacked if and only if its watermark is not an event's empty id |
| Watermark.PullsConcatenateToLog | packages/relay/src/server.ts:149-157 | over any growth of the log between pulls, the replies put end to end are the log: no gap, no repeat |
| Watermark.UnknownMarkOverReturns | packages/relay/src/store.ts:162-173 | an unknown watermark returns everything, so the client ends with every id |
| Watermark.PullCompleteIff | packages/relay/src/store.ts:162-173 | whatever a client holds, it holds every event after a pull if and only if its watermark is empty or it held those the log places up to it |
| Watermark.RestartedPullCompleteIff | packages/relay/src/store.ts:79-102 | after a restart from any state the file's index decides the same |
| Watermark.PullAfterAnyRun | packages/relay/src/store.ts:162-173 | a client caught up before any run of the relay whose writes start at a line boundary and agree with the order of the file is complete after its next pull |
| Watermark.FailedWriteReordersTheLog | packages/relay/src/store.ts:123-131 | a write that fails at a line boundary, two more appends and a restart: the client never receives one event |
| Ordering.SortSorts | packages/replica/src/timeline.ts:83-86 | sorting by (at, id) permutes, and is strictly ascending on distinct keys |
| Ordering.SortedIsUnique | packages/replica/src/timeline.ts:83-86 | there is one ascending arrangement, so the algorithm behind `sort` does not matter |
| Ordering.LessIff | packages/replica/src/timeline.ts:84-85 | one string is less than another exactly when it is a proper beginning of it or has the smaller character where they first differ |
| Ordering.BeforeIff | packages/replica/src/timeline.ts:83-86 | one key is before another exactly when its time is earlier in that sense, or the times are equal and its id is |
| Timeline.PoolAtOwnKey | packages/replica/src/timeline.ts:33-36 | asking for what is before an item's own key returns exactly the items beneath it |
| Timeline.ReadReturnsTheNewest | packages/replica/src/timeline.ts:138-154 | a page is ascending and holds at most the limit (50 if none is given) of what is older than the cursor; every item left out is older than every item in it; `hasMore` says exactly whether one is left out, the page is then full and the cursor is its oldest item's key |
| Timeline.PagesCoverThePool | packages/replica/src/timeline.ts:140-154 | following the cursor ends, visits every item exactly once in max(1, ceil(n/limit)) pages, and the pages put back together are the whole timeline |
| Timeline.NewerArrivalsChangeNoOlderPage | packages/replica/src/timeline.ts:140-154 | items newer than a cursor that arrive between requests change no page beneath it |
| Timeline.MergeIsUnion | packages/web/src/lib/timeline-page.ts:14-19 | the merge holds exactly the loaded items and those of the page with new ids, ascending |
| Timeline.MergeIgnoresArrivalOrder | packages/web/src/lib/timeline-page.ts:9-19 | neither the order of the loaded items nor that of the page matters |
| Timeline.MergeCommutesIff | packages/web/src/lib/timeline-page.ts:9-19 | loaded items and page can be exchanged if and only if they hold no two different copies of an item |
| Timeline.MergePrefersLoaded | packages/web/src/lib/timeline-page.ts:9-19 | of two copies that differ the merge keeps the loaded one |
| Timeline.MergeIsContiguousIff | packages/web/src/lib/timeline-page.ts:14-19 | merging a slice of the log under a suffix gives the suffix from the slice's start if and only if the slice starts no later than the suffix and reaches it |
| Timeline.MergeOlderPage | packages/web/src/lib/timeline-page.ts:14-19 | the two loops and the sort compute that merge |
| PaginatedFeed.ActivationHoldsSuffix | packages/web/src/lib/paginated-timeline.ts:36-83 | over any run within activations, with replies in any order and lost ones: the items are the ascending, id-unique suffix of the timeline from the cursor, at most one request is under way, and `hasMore` is false exactly when the whole timeline is held |
| PaginatedFeed.OlderPageFitsIff | packages/web/src/lib/paginated-timeline.ts:70-76 | when an older page arrives, asked for in this visit or an earlier one and whatever has arrived meanwhile, the client holds the suffix from its cursor if and only if what it held starts at the item the page was asked for or inside the page, and beneath the page lies what lay there |
| PaginatedFeed.AlwaysInOrder | packages/web/src/lib/paginated-timeline.ts:36-83 | over every run at all, replies of earlier visits and arrivals anywhere in the timeline included, the items are ascending and hold no id twice |
| PaginatedFeed.FeedFromTheStart | packages/web/src/lib/paginated-timeline.ts:28-83 | both from the empty client, on any server whose memories have unique ids |
| FeedHistory.OpeningShowsLastFirstPage | packages/web/src/lib/paginated-timeline.ts:36-46 | after any run, opening a workspace shows at once the first page of it that was delivered last while it was open, or nothing when there was none, and offers no more |
| FeedHistory.ShownUntilTheFirstPage | packages/web/src/lib/paginated-timeline.ts:36-61 | over any run within activations, that is what is shown until the visit's own first page arrives |
| FeedHistory.ShownIsPainted | packages/web/src/lib/paginated-timeline.ts:36-83 | over every run, the items are what the run's openings and deliveries put there, read off the steps and without the cache |
| FeedHistory.ShownBelongsToTheOpenWorkspace | packages/web/src/lib/paginated-timeline.ts:36-83 | over every run, replies of earlier visits included, every item shown is a memory of the open workspace |
| FeedHistory.FeedShowsItsWorkspace | packages/web/src/lib/paginated-timeline.ts:28-83 | both from the empty client |
| FeedHistory.ReadingOnShowsTheNewest | packages/web/src/lib/paginated-timeline.ts:36-83 | opening a workspace and asking n times for older items shows exactly the newest n + 1 pages' worth of its timeline, in order, and offers more exactly when there is more |
| PaginatedFeed.ReturningLeavesAGap | packages/web/src/lib/paginated-timeline.ts:63-83 | for every page size and every timeline longer than two pages, leaving with an older page under way and returning leaves a page missing from the items, with the cursor already below it |
| PaginatedFeed.ReturningAllowsTwoOlderRequests | packages/web/src/lib/paginated-timeline.ts:63-83 | for every page size and every timeline longer than a page, a run across two visits after which two older requests of one visit are under way |
| FeedClient.Feed.Activate | packages/web/src/lib/paginated-timeline.ts:36-61 | opening a workspace paints its own cached page or nothing and resets the rest, as the machine's step does |
| FeedClient.Feed.FirstPageArrived | packages/web/src/lib/paginated-timeline.ts:47-54 | the first page replaces the items unless the workspace changed, as the machine's step does |
| FeedClient.Feed.LoadOlder | packages/web/src/lib/paginated-timeline.ts:63-69 | a request for older items goes out with the current cursor, only when none is under way |
| FeedClient.Feed.OlderPageArrived | packages/web/src/lib/paginated-timeline.ts:70-76 | an older page is merged beneath the items and moves the cursor, as the machine's step does |
| FeedClient.Feed.OlderPageFailed | packages/web/src/lib/paginated-timeline.ts:78-82 | a failed older fetch changes nothing but the in-flight flag |
| TaskOrder.TopoOrderPermutes | packages/web/src/lib/tasks-timeline.ts:51-77 | on any graph, cycles included, the result is a permutation of the input |
| TaskOrder.PredecessorsFirst | packages/web/src/lib/tasks-timeline.ts:51-77 | of two tasks with an edge between them, the predecessor comes first unless it depends, directly or transitively, on its successor |
| TaskOrder.AcyclicPredecessorsFirst | packages/web/src/lib/tasks-timeline.ts:51-77 | without cycles every predecessor comes first |
| TaskOrder.AllPredecessorsFirstIff | packages/web/src/lib/tasks-timeline.ts:51-77 | every predecessor comes first if and only if no task depends, directly or transitively, on itself |
| TaskOrder.TopoOrderIgnoresInputOrder | packages/web/src/lib/tasks-timeline.ts:58-60 | the order of the input does not matter |
| TaskOrder.JumpsAheadOnlyWhenNeeded | packages/web/src/lib/tasks-timeline.ts:51-77 | a task comes before one created earlier (or at the same time with a smaller id) only if that one, or one created before it, depends on it |
| TaskOrder.DependenciesInListedOrder | packages/web/src/lib/tasks-timeline.ts:64-74 | when a task is placed, two of its dependencies still to be placed come in the order in which it lists them, unless one listed no later than the first needs the second |
| TaskOrder.OldestTasksDependencies | packages/web/src/lib/tasks-timeline.ts:64-77 | in the whole order, likewise for the dependencies of the task created first |
| TaskOrder.Sorter.VisitTask | packages/web/src/lib/tasks-timeline.ts:64-74 | the recursive closure terminates on any graph, leaves the stack as it found it, and computes the specified walk |
| TaskOrder.ComputeTopoOrder | packages/web/src/lib/tasks-timeline.ts:56-77 | the whole computation computes the specified order |
| Tables.RemoveMemberKeepsAnOwner | packages/gateway/src/stores.ts:162-179 | removal is refused exactly when the only owner would leave others behind, and never leaves members without an owner |
| Tables.SetRoleKeepsAnOwner | packages/gateway/src/stores.ts:181-202 | a role change is refused exactly when it demotes the only owner, and never costs a store its last owner |
| Tables.DeleteStoreAllOrNothing | packages/gateway/src/stores.ts:214-223 | teardown removes every membership, invite and sidecar row of the store and nothing else, or nothing; it succeeds exactly when no source-store row refers to the store |
| Tables.RegisteredIff | packages/gateway/src/source-stores.ts:37-59 | registering a source store succeeds exactly when it is the account's afterwards |
| Policy.DataPlaneGate | packages/gateway/src/policy.ts:57-95 | who may read or write which store, in one condition on membership, personal ownership, read-only and scope; every refusal is a 403 |
| Policy.ControlPlaneGate | packages/gateway/src/policy.ts:97-108 | who may read, change or administer a workspace, and that exactly non-members with a usable key are answered "not found", the other refusals being 403 |
| Policy.NarrowingNeverGrants | packages/gateway/src/policy.ts:46-109 | making a key read-only or scoped never turns a refusal into a grant, on either plane |
| Workspace.StepKeepsInv | packages/gateway/src/workspace.ts:194-401 | every handler step keeps foreign keys, invite accounting, private stores and sidecar parents |
| Workspace.Run | packages/gateway/src/workspace.ts:55-401 | those properties hold after every sequence of handler steps |
| Workspace.JoinAddsOneMember | packages/gateway/src/invites.ts:110-148 | a join adds exactly the caller as a member of the invite's store and pays one use, when the key is unrestricted, the invite alive and the caller not a member; otherwise nothing changes |
| Workspace.ReachableStates | packages/gateway/src/invites.ts:46-148 | in every reachable state an invite's count is the number of joins of the run that added a row to the members with it, and at most its limit; a store never shared has no invite and no member but its creator as owner, and sidecars hang off existing stores |
| Workspace.ReachedGate | packages/gateway/src/policy.ts:57-95 | in every reachable state, who may read or write which store, in terms of rows that exist |
| Workspace.ReachedSidecars | packages/gateway/src/policy.ts:60-67 | in every reachable state, a sidecar's parent is an existing workspace or personal store, and its decision is the parent's |
| Workspace.ReachedNarrowing | packages/gateway/src/workspace.ts:55-401 | in every reachable state, a request with a narrower key of the account is refused or does what it does with the wider one |
| Workspace.DeadInviteNeverAdmits | packages/gateway/src/invites.ts:110-148 | a revoked, expired, exhausted or deleted invite adds no row to the members over any later run, and no join with its key at any later moment changes any table |
| Permissions.MemberLeavesIff | packages/gateway/src/workspace.ts:333-401 | over any step, a member's row goes if and only if, with an unrestricted key, its account leaves or an owner removes it and that does not leave others without an owner, or an owner deletes the store and no source store is registered in it |
| Permissions.MemberAppearsIff | packages/gateway/src/workspace.ts:55-299 | an account becomes an owner by a step if and only if it makes the workspace, and a member if and only if it enters with the key of a live invite |
| Permissions.RoleChangesIff | packages/gateway/src/workspace.ts:302-330 | a member who stays has the role it had, unless the body of a role change that waits for it arrives and does not demote the only owner |
| Permissions.InviteRowsIff | packages/gateway/src/workspace.ts:194-401 | an invite is new exactly when a valid mint that waits arrives, and then stands as asked for; it goes exactly when an owner deletes its store; it changes exactly by an owner's revocation or by an entrance, which costs one use |
| Permissions.StoreRowsIff | packages/gateway/src/workspace.ts:55-401 | a store is new exactly when an account makes it, and not shared; it goes exactly when an owner deletes it and no source store is registered; it becomes shared exactly when a mint for it arrives |
| Permissions.SourceRowsIff | packages/gateway/src/source-stores.ts:37-59 | a source store is new exactly when a registration that waits arrives and finds its store, belongs to the account that asked, and never goes or changes hands |
| Permissions.SidecarRowsIff | packages/gateway/src/derived-stores.ts:32-66 | a sidecar is new exactly when somebody who may enter its parent asks for the first of its kind, never changes its parent, and goes exactly with it |
| Permissions.PersonalRowsIff | packages/gateway/src/personal-store.ts:23-34 | an account gets one personal store, the first time it asks, for good |
| Permissions.WaitingRowsIff | packages/gateway/src/workspace.ts:147-330 | a request waits for its body from when an owner's unrestricted key asks to mint or to change a role, or the key of somebody who may enter and write asks to register, unchanged, until that body arrives |
| Permissions.WaitingWasAdmitted | packages/gateway/src/workspace.ts:147-330 | over whole runs, every request that waits was admitted by a step of the run, at a moment when its author owned the store, or could enter it and write |
| Permissions.MintedForAtMost | packages/gateway/src/invites.ts:46-148 | an invite minted for m uses adds at most m members over any later run |
| Permissions.InviteExpires | packages/gateway/src/invites.ts:110-148 | an invite that expires in ms is not alive after any run that takes that long |
| Ownership.OwnerLostIff | packages/gateway/src/workspace.ts:333-359 | a step leaves a store that had an owner, or did not exist, without one if and only if it is the departure of its only member |
| Ownership.HeadlessIff | packages/gateway/src/invites.ts:115-148 | a step leaves a store with members and no owner, which was not so before, if and only if it is a join of the store while it has no member |
| Ownership.OwnerlessWasDeserted | packages/gateway/src/stores.ts:162-202 | over whole runs, a store is without an owner at some moment if and only if some step is its only member's departure; found without an owner, it had no member at all at some moment |
| Ownership.EverHeadlessIff | packages/gateway/src/stores.ts:162-202 | over whole runs, a store has members and no owner at some moment if and only if some step is a join that finds it without members |
| Ownership.DesertedEndsHeadlessIff | packages/gateway/src/invites.ts:46-148 | a store without members can come to have members and no owner if and only if an invite to it is alive or one is being minted |
| Ownership.LeavingStrandsIff | packages/gateway/src/workspace.ts:333-359 | what can be checked before the only member leaves: the same condition decides whether the store can end so |
| Ownership.OwnerlessRegainsOwnerIff | packages/gateway/src/workspace.ts:302-330 | a step gives an ownerless store an owner if and only if it is the body of a pending role change to owner for one of its members |
| Ownership.OwnerlessForGood | packages/gateway/src/workspace.ts:302-401 | when role changes finish while their author still owns the store, an ownerless store stays, and stays ownerless, for good |
| Ownership.LateRoleChangeGivesAnOwner | packages/gateway/src/workspace.ts:302-359 | a run in which a late body gives an ownerless store an owner |
| Ownership.TeardownRollsBack | packages/gateway/src/workspace.ts:389-401 | a run whose last step, an allowed deletion, changes nothing because a source store is registered |
| WorkspaceDb.Db.CreateStore | packages/gateway/src/stores.ts:45-63 | the two inserts, and that the creator is the new store's owner |
| WorkspaceDb.Db.AddMember | packages/gateway/src/stores.ts:149-160 | the account is a member afterwards, an existing role is kept, and nobody else's changes |
| WorkspaceDb.Db.RemoveMember | packages/gateway/src/stores.ts:167-179 | the guarded delete, and when it is refused, in terms of owners and members |
| WorkspaceDb.Db.SetRole | packages/gateway/src/stores.ts:185-202 | the guarded update, and when it is refused |
| WorkspaceDb.Db.MintInvite | packages/gateway/src/invites.ts:46-68 | a fresh key on an existing store has exactly the limit and expiry asked for and is alive until it expires, the store is shared, and no other invite or store changes |
| WorkspaceDb.Db.RevokeInvite | packages/gateway/src/invites.ts:99-108 | known exactly when the invite exists and belongs to the store; then it is dead at every time afterwards; nothing else of it and no other invite changes |
| WorkspaceDb.Db.RedeemInvite | packages/gateway/src/invites.ts:115-148 | exactly when it joins; a new member gets one row and pays one use, a member pays none, and a refusal changes nothing |
| WorkspaceDb.Db.GetOrCreateDerivedStore | packages/gateway/src/derived-stores.ts:32-50 | finds or creates the one sidecar of a parent and kind, and finds it again whatever id is drawn |
| WorkspaceDb.Db.DeleteStore | packages/gateway/src/stores.ts:215-223 | the statements of the teardown in order, and the rollback |
| DeviceGrant.NormalizeIsStable | packages/gateway/src/device.ts:26-29 | a typed code reads the same however often it is normalized |
| DeviceGrant.ShownCodeReads | packages/gateway/src/device.ts:26-29 | a code on the screen reads as itself when typed as shown, without the dash, or in lower case |
| DeviceGrant.StartIff | packages/gateway/src/device.ts:53-78 | in any run a start hands out the first of its eleven drawn codes that no live device shows, with its label and time, and fails exactly when there is none |
| DeviceGrant.ApprovalIff | packages/gateway/src/device.ts:101-117 | in any run an approval takes effect if and only if the device is live (begun at most ten minutes ago and not collected), shows the code that was typed, and has not been approved |
| DeviceGrant.PollRepliesIff | packages/gateway/src/device.ts:131-154 | the reply to a poll after any run, from what was begun, approved and answered before: expired exactly when the device is not live; else slow-down exactly within five seconds of the last paced answer; else delivered, to the approving account with the label of the start, exactly when somebody approved; else pending; never denied |
| DeviceGrant.BegunIsAStart | packages/gateway/src/device.ts:53-78 | every grant of a run was begun by a start step of it, with that step's label, at its time, with one of its drawn codes |
| DeviceGrant.ApprovalIsAStep | packages/gateway/src/device.ts:101-117 | every approval of a run is a step of it by that account, which found the device live and showing the code that was typed |
| DeviceGrant.EveryPollIsAnswered | packages/gateway/src/device.ts:131-154 | over any run the answers are those of its polls, in order, and the clock is the time that elapsed |
| DeviceGrant.DeliveredOnceToItsApprover | packages/gateway/src/device.ts:126-154 | over any run a device code is delivered at most once, to the one account approved while it was pending and unexpired; every later poll reads as expired |
| DeviceGrant.AnswersArePaced | packages/gateway/src/device.ts:146-149 | two answers for one code that are neither slow-down nor expiry are at least five seconds apart |
| DeviceGrant.DeviceTable.StartDeviceAuth | packages/gateway/src/device.ts:53-78 | the sweep, the re-rolled user code and the new pending row; or, with no free code, the sweep alone |
| DeviceGrant.DeviceTable.ApproveDevice | packages/gateway/src/device.ts:101-117 | approves the row of the typed code exactly when it is pending and unexpired |
| DeviceGrant.DeviceTable.PollDeviceToken | packages/gateway/src/device.ts:131-154 | the poll's answer and row changes; a delivery consumes the row |
| Metering.MeteringIsConserved | packages/gateway/src/usage.ts:21-36 | over any run of metered requests, any window and any set of stores, each counter's total is the sum of the requests, and there is one row per day and store |
| Metering.RowsTellTheCalls | packages/gateway/src/usage.ts:21-36 | after any requests, the row of a day and store holds their number and their bytes in each direction on top of what it held, and there is no row without a request |
| Metering.BillingIsConserved | packages/gateway/src/overview.ts:214-268 | the per-account sums and the usage of stores without an owner among the accounts are the window's total: nothing billed twice, nothing lost |
| Metering.BillsCoverTheCalls | packages/gateway/src/overview.ts:204-281 | from requests to bills: the bills and the usage that bills to nobody are the sum of the requests in the window |
| Metering.StoresWithoutRowsBillToNobody | packages/gateway/src/overview.ts:214-227 | a store bills to somebody exactly when it has a row among the stores or the personal stores |
| Metering.BillsToItsLastRow | packages/gateway/src/overview.ts:214-227 | a store bills to the account of its last row among the personal stores, and without one there, of its last row among the workspaces |
| Billing.SidecarsBillToNobody | packages/gateway/src/overview.ts:211-227 | in every reached state sidecars bill to nobody, a workspace bills to its creator exactly while it exists, and a personal store to the account whose it is |
| Metering.UsageTable.RecordUsage | packages/gateway/src/usage.ts:21-36 | the upsert of one day's row for one store |
| Metering.UsageTable.TrafficSince | packages/gateway/src/overview.ts:95-107 | the three accumulated totals are the window's sums |
| Metering.GatherBilling | packages/gateway/src/overview.ts:204-281 | the billing loops give every account the sums of the window's rows of the stores it owns |
| Utf8.DecodeEncode | packages/web/src/lib/use-app-location.ts:26 | strict UTF-8 decoding undoes encoding on every string |
| Utf8.EncodeDecode | packages/web/src/lib/use-app-location.ts:26 | strict decoding accepts only encodings |
| Utf8.LenientEncode | packages/replica/src/timeline.ts:24 | lenient decoding undoes encoding too |
| Utf8.KnownEncodings | packages/web/src/lib/use-app-location.ts:34 | the encoding gives the bytes of RFC 3629's examples (section 7) |
| Utf8.KnownReplacements | packages/replica/src/timeline.ts:24 | a malformed text gets one replacement for each longest beginning of a character and for each byte that begins none |
| CursorCodec.Base64UrlRoundTrip | packages/replica/src/timeline.ts:19-24 | unpadded base64url decoding undoes encoding on every byte string |
| CursorCodec.Alphabet | packages/replica/src/timeline.ts:19-21 | the digits are those of the URL-safe alphabet (section 5 of RFC 4648), in order |
| CursorCodec.KnownEncodings | packages/replica/src/timeline.ts:19-21 | the encoding gives the first test vectors of RFC 4648 (section 10), without padding |
| CursorCodec.CursorRoundTripIff | packages/replica/src/timeline.ts:19-30 | decoding a cursor undoes encoding it if and only if `at` is not empty and does not hold the separator, and the id is not empty |
| CursorCodec.AcceptedCursorsRoundTrip | packages/replica/src/timeline.ts:23-30 | whatever text a client sends, a cursor the decoder accepts survives the wire |
| CursorCodec.PageCursorsSurviveTheWire | packages/replica/src/timeline.ts:140-154 | when no item has an empty time or id or the separator in its time, every cursor a page hands out comes back as the key it was made from |
| Routes.ComponentRoundTrip | packages/web/src/lib/use-app-location.ts:26-34 | percent-decoding undoes percent-encoding on every string |
| Routes.KnownEscapes | packages/web/src/lib/use-app-location.ts:34 | escapes are those of the UTF-8 bytes, in capitals |
| Routes.RouteRoundTripIff | packages/web/src/lib/use-app-location.ts:20-35 | `parse` undoes `toPath` on exactly the personal view, the default view, and workspaces whose id is neither empty nor `personal` |
| Routes.ParseOfWorkspacePath | packages/web/src/lib/use-app-location.ts:20-35 | which route the path of any workspace route opens |
| Routes.CanonicalIsIdempotentIff | packages/web/src/lib/use-app-location.ts:20-35 | parsing and making a path again twice is doing it once, and keeps the route, if and only if its first segment is not `personal` in disguise |
| Routes.MintedIdsAreCanonicalOnce | packages/web/src/App.tsx:319-331 | on the paths the app rewrites, whose ids are minted ones, once is enough |
| Routes.EscapedLetterDisguises | packages/web/src/lib/use-app-location.ts:24-26 | such paths exist on every tab |
| LaneId.LaneIsLowercase | packages/replica/src/workspace.ts:9-21 | every lane id matches the lowercase pattern as a whole |
| LaneId.LaneSpellsTheId | packages/replica/src/workspace.ts:14-21 | a plain suffix is kept as it is; any other id is spelled out, two lowercase hexadecimal digits for each byte, the high one first |
| LaneId.LanesCollideIff | packages/replica/src/workspace.ts:14-21 | two workspaces share a lane if and only if they are one or one's suffix is the hexadecimal of the other's whole id |
| LaneId.LanesOfOneLengthDiffer | packages/replica/src/workspace.ts:14-21 | ids of one length never share a lane |
| LaneId.EveryMixedIdHasAShadow | packages/replica/src/workspace.ts:9-21 | every id that needs the hexadecimal form has another that shares its lane |

## Left out

- One project at a time: the relay's map from project id to log, `stats`, directories and `open` over several projects. Projects share no state.
- Hydration that rejects: `open` then fails, and the model's store does not come up. The relay can also be asked for a project first seen after `open`, whose file is unreadable; it then runs on an empty index. With a lawful codec no file the relay wrote rejects (`RelayMachine.MemoryNeverClaimsMoreThanTheFile`).
- RelayMachine.MemoryNeverClaimsMoreThanTheFile: over runs whose writes start at a line boundary, which the code does not enforce. From an unfinished line, `LogFile.AppendClaimsIff` decides each append that completes; what a second torn write in a row leaves on that line depends on more of JSON than the laws say.
- File system errors other than a cut or failed write; a file's characters stand for its bytes.
- JSON, UTF-16 surrogates and locale: strings are sequences of Unicode characters, compared character by character, where the code compares UTF-16 units.
- Watermark.PullsConcatenateToLog: leaves out events whose id is the empty string, which the relay accepts; a watermark equal to it asks for everything (`Watermark.PullCatchesUp` has the exact condition).
- Pushed events are objects with a string id, as packages/relay/src/server.ts:87-95 checks before an append.
- PaginatedFeed.ActivationHoldsSuffix: assumes that what arrives in the open workspace while it is read is newer than the cursors in use, and that no reply of an earlier visit is delivered, which is the activation condition. The page size is a parameter (the code's is 50). Error text, the spinner, `sessionStorage` and callbacks kept from an earlier rendering are not modelled.
- FeedHistory.ShownUntilTheFirstPage: within activations; over other runs an older page of an earlier visit that arrives meanwhile is merged in, as `FeedHistory.ShownIsPainted` says of every run.
- The projection of memories in `readTimeline` (authors, tags) and the pull from the hub before it; items are taken with their ids and times.
- `computeSegments`, `timeDomain`, `linearScale`, the live feed, grouping by author and the fold that lists tasks: smaller than what is here.
- Store names, member e-mails, join times, source-store labels, token rows and the listing queries. An invite's key stands for its id and its token hash.
- Metering.GatherBilling: the workspace, member and stored-byte counts of a bill, and the order of the usage rows. Days are numbers.
- Metering failures, which the proxy ignores.
- A denied device grant has an answer but no step leads to it, as in the code.
- CursorCodec: padding characters are skipped like any other character outside the alphabet.
- HTTP, cookies, OAuth, hashing, SQLite's locking and migrations, React, and the frozen legacy gateway.
