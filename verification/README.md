# Verified model of synapse-agent's protocols and text transformations

A Dafny model of the stateful kernels and text transformations of synapse-agent, with proofs over all runs and all
inputs. `dafny verify dfyconfig.toml` checks the project. Each file holds one module of the same name.

- **Persistent WebSocket** (`WebSocketLoop`, `WebSocketOrder`, `WebSocketTask`, `WebSocketSlot`): the command loop that
  owns a socket and serves queued requests one at a time, interleaved with requesters, consumers and the server; and the
  shared slot that hands out connections under a connect lock and a state lock.
- **ACP kernels** (`EventBridge`, `EventBridgeSystem`, `EventBridgeRace`, `Permissions`, `PermissionSystem`, `OwnerRegistry`,
  `TerminalGateway`): the bounded event bridge, the permission registry racing with cancellation, the reference-counted
  owners and the terminal ownership of a session. Each is a state machine whose step is one lock section or one stretch
  without an await, together with a class that has the original's fields and sections. The class methods are specified
  by the functions the steps are made of; those of the permission coordinator state their whole effect themselves.
- **ACP catalog** (`CursorCodec`, `CursorGrammar`, `Ordering`, `Paging`, `UpdateLog`, `Catalog`): the opaque cursor,
  keyset paging over a table that changes between pages, and the bounded update log.
- **Snapshot reclamation** (`Reclaim`, `ReclaimTheorems`): scan, target selection and blob rewriting, and what live
  threads reconstruct to before and after.
- **File editing** (`Unicode`, `FileEncoding`, `Lines`, `UnifiedDiff`, `ExactEdit`, `ReadWindow`): encoding detection and
  its inverse, unified diffs, exact edits, and the read window with its output budget.
- **Git output and path search** (`GitParsers`, `Worktrees`, `ArtifactChunks`, `CapText`, `PathTree`, `PathLevels`,
  `PathSearch`): parsers with their inverse printers, bounded reads, and the pruned breadth-first search behind path
  completion.
- `Wrappers` and `Collections` hold the option and result types and a few facts about sequences and sets.

Runs are finite sequences of steps from the initial state; a step that is not enabled leaves the state as it is, so a
statement about all sequences is a statement about all interleavings. I/O, clocks, identifiers and the answers of the
server, the client and git are parameters or nondeterministic choices.

## Where the code does not do what its comments say

- A request still queued when the WebSocket loop returns ends without an event and without an error, and these are the
  only ones that do (`WebSocketLoop.SilentEndIff`, `WebSocketLoop.SilentEndIsReachable`); a close lets everything
  submitted before it finish and nothing after it begin (`WebSocketOrder.CloseServesFirst`).
- Dropping all handles does not end the loop, because it owns a sender of its own queue (`WebSocketLoop.NeverHangsUp`,
  `WebSocketLoop.OrphanWaitsForever`).
- The drained flag of the event bridge is set after the lock is left, so `close` can miss an event published in between
  (`EventBridgeRace.CloseDeliversIff`, `EventBridgeRace.RaceIsReachable`).
- Naming a channel more often than `keep` on the command line strips the newest snapshot
  (`ReclaimTheorems.RepeatedChannelIff`, `ReclaimTheorems.KeptIsStrippedIff`, `ReclaimTheorems.NamedTwice`), and when two
  channels have a snapshot to strip at the same checkpoint only the last removal is written
  (`ReclaimTheorems.AllTargetsRemovedIff`, `ReclaimTheorems.FirstRemovalLost`).
- Coalescing puts a preview that does not fit back at the tail of the queue, which reorders it
  (`EventBridge.CoalesceKeepsOrderIff`) and can move it behind the close sentinel (`EventBridge.SentinelOvertakes`);
  where an envelope cannot be replaced, the swallowed text is lost (`EventBridge.CoalesceKeepsTextIff`).
- A page with a limit below the default loses rows (`Paging.SmallLimitLosesRowsIff`, `Paging.SmallLimitLosesOldest`).
- A context-only patch is not the identity on every file (`UnifiedDiff.ContextPatchIsIdentityIff`,
  `UnifiedDiff.ContextLosesNewline`), and reversing a patch does not restore every file
  (`UnifiedDiff.ReverseRestoresIff`, `UnifiedDiff.ReverseMisses`).
- `git worktree` paths with a line break or with white space at either end do not come back
  (`Worktrees.WorktreesSurviveIff`, `Worktrees.BrokenPaths`).

## Model

| member | source | states |
|---|---|---|
| WebSocketLoop.DeliveredIsOwnResponse | rust/synapse-core-tool/src/llm.rs:223-277 | In every run, what an iterator has been given is a prefix of the server's own response to that request, possibly followed by one error, and it is the complete response exactly when a terminal event was forwarded; nothing left over from another request is ever delivered. |
| WebSocketLoop.NothingUnreadBetweenRequests | rust/synapse-core-tool/src/llm.rs:217-222 | Whenever the loop waits for a command or is about to send a frame, no event of an earlier request is unread or still to come. |
| WebSocketLoop.EndsCompleteBeforeReturn | rust/synapse-core-tool/src/llm.rs:223-277 | As long as the loop has not returned, an iterator ends only with its whole response. |
| WebSocketLoop.SilentEndIff | rust/synapse-core-tool/src/llm.rs:223-277 | At every return of the loop all iterators end, and one that is still held stops short of its response without an error if and only if its request was still in the queue, also when it was queued while the socket was being closed. |
| WebSocketLoop.NeverHangsUp | rust/synapse-core-tool/src/llm.rs:47-62 | `recv` never comes back empty: the spawned loop owns its connection and with it a sender of its own queue. |
| WebSocketLoop.OrphanWaitsForever | rust/synapse-core-tool/src/llm.rs:47-62 | Once every handle is dropped while the loop waits for a command, no step of anybody makes it return. |
| WebSocketLoop.SilentEndIsReachable | rust/synapse-core-tool/src/llm.rs:233-243 | A concrete run in which that happens: two requests are queued, sending the first one fails, and the loop returns with the second in the queue. |
| WebSocketLoop.NextOfResponse | rust/synapse-core-tool/src/llm.rs:246-256 | Forwarding the next event leaves exactly the rest of the response to come; nothing follows a terminal event and the forwarded part is then the whole response. |
| WebSocketLoop.ActiveSettles | rust/synapse-core-tool/src/llm.rs:248-268 | A failed request has been given a prefix of its response and the error, or nobody holds its iterator any more. |
| WebSocketLoop.ReturnKeeps | rust/synapse-core-tool/src/llm.rs:223-277 | The return leaves every request with a complete response, a prefix followed by the error, a dropped receiver, or nothing sent. |
| WebSocketLoop.StepKeepsInv | rust/synapse-core-tool/src/llm.rs:223-277 | Every step of requesters, consumers, the server and the loop keeps the invariant: the active request has been given exactly the part of its response already read, the rest is on the wire or still at the server, queued requests have been given nothing, channels hold at most 64 items. |
| WebSocketOrder.ServedInOrder | rust/synapse-core-tool/src/llm.rs:228-289 | In every run that has not returned, the commands taken so far followed by the queue are the commands submitted so far, in order, requests and closes alike. |
| WebSocketOrder.CloseServesFirst | rust/synapse-core-tool/src/llm.rs:228-289 | When the loop hangs up because of a close, every request submitted before the first close has been given its whole response, and every later one is still queued and has been given nothing. |
| WebSocketOrder.FramesFollowOrder | rust/synapse-core-tool/src/llm.rs:233-243 | The server receives the frames of exactly the requests taken, in that order; only the last one can be missing. |
| WebSocketOrder.TerminalEndsRequest | rust/synapse-core-tool/src/llm.rs:161-180 | A request ends with a completed, failed or incomplete response or with an error event, and with no other event. |
| WebSocketOrder.WaitsIff | rust/synapse-core-tool/src/llm.rs:301-313 | Back-pressure: a command waits exactly when eight are queued, an event or error for a held iterator exactly when 64 items are unread. |
| WebSocketTask.Connection.IteratorsSeeOnlyTheirResponse | rust/synapse-core-tool/src/llm.rs:244-269 | The same safety statement about the fields of the imperative loop at every one of its awaits. |
| WebSocketTask.Connection.RunLoop | rust/synapse-core-tool/src/llm.rs:223-277 | The outer loop carries out only steps of the protocol (its recorded history reaches its fields), whatever the others do at each await, and returning means having hung up. |
| WebSocketTask.Connection.StreamEvents | rust/synapse-core-tool/src/llm.rs:244-269 | The inner loop: it goes back to waiting for commands only after a terminal event, and returns only by ending the connection. |
| WebSocketTask.Connection.RecvCommand | rust/synapse-core-tool/src/llm.rs:228-232 | Taking a command starts a request or the closing of the connection; there is no other way for the wait to end. |
| WebSocketTask.Connection.SendRaw | rust/synapse-core-tool/src/llm.rs:233-243 | Sending the frame starts streaming, or fails and leaves the error to be reported. |
| WebSocketTask.Connection.Recv | rust/synapse-core-tool/src/llm.rs:245-267 | Receiving hands over the next event of the active request or a failure. |
| WebSocketTask.Connection.SendChunk | rust/synapse-core-tool/src/llm.rs:247-256 | A forwarded terminal event ends the request, a refused send leads to the closing of the connection. |
| WebSocketTask.Connection.SendError | rust/synapse-core-tool/src/llm.rs:258-267 | Reporting an error leads to the closing of the connection, whether or not anybody listens. |
| WebSocketTask.Connection.CloseAndReturn | rust/synapse-core-tool/src/llm.rs:271-274 | Closing the socket is one more await; whatever was queued until it is over goes with the receiver. |
| WebSocketSlot.SlotEmptyWhenStoring | rust/synapse-core-tool/src/llm.rs:532-541 | Whenever an opener comes back from a successful handshake the slot is empty, so it stores its own connection and the other branch is never taken. |
| WebSocketSlot.AtMostOneLive | rust/synapse-core-tool/src/llm.rs:488-568 | At most one connection at a time is dialling or serving without having been told to close. |
| WebSocketSlot.OnlyOwnConnectionRemoved | rust/synapse-core-tool/src/llm.rs:53-61 | The exit of a loop and the close of a (possibly stale) handle remove their own connection or nothing. |
| WebSocketSlot.RemovedIsClosedOrClosing | rust/synapse-core-tool/src/llm.rs:495-568 | A connection that leaves the slot has finished or is about to be told to close. |
| WebSocketSlot.OpensShare | rust/synapse-core-tool/src/llm.rs:495-503 | While the cached connection serves and is not closed, all opens share it and no further handshake is started. |
| WebSocketSlot.OpenDials | rust/synapse-core-tool/src/llm.rs:505-541 | An open that cannot share dials one connection of its own; a successful handshake leaves that connection in the slot, a failed one leaves nothing. |
| WebSocketSlot.CloseTellsCached | rust/synapse-core-tool/src/llm.rs:315-338 | Closing the handle of the cached connection, or the cached connection itself, tells that connection to close, whatever the tasks do in between. |
| WebSocketSlot.CloseFinishes | rust/synapse-core-tool/src/llm.rs:315-338 | Nothing else is needed for it: the close runs through to the queued command and an empty slot. |
| WebSocketSlot.ToldWasClosed | rust/synapse-core-tool/src/llm.rs:315-338 | Conversely a connection told to close was closed while it was the cached one. |
| WebSocketSlot.ExitClears | rust/synapse-core-tool/src/llm.rs:53-61 | A loop that has come back leaves the slot without its connection and any other one where it is. |
| WebSocketSlot.StepKeepsInv | rust/synapse-core-tool/src/llm.rs:488-568 | The invariant behind these, kept by every step of openers, closers, handles and loops. |
| WebSocketSlot.ConnectionCache.OpenOrSpawn | rust/synapse-core-tool/src/llm.rs:491-528 | First half of an open on the slot itself: share, or forget a closed connection and dial. |
| WebSocketSlot.ConnectionCache.StoreOrFail | rust/synapse-core-tool/src/llm.rs:529-541 | Second half of an open: store the new connection or fail, nothing else. |
| WebSocketSlot.ConnectionCache.ClearIfOwn | rust/synapse-core-tool/src/llm.rs:53-61 | After a loop has ended the slot does not hold its connection; another one stays. |
| WebSocketSlot.ConnectionCache.CloseHandleLook | rust/synapse-core-tool/src/llm.rs:323-328 | The look section of a handle's close. |
| WebSocketSlot.ConnectionCache.CloseHandleTake | rust/synapse-core-tool/src/llm.rs:329-335 | The take section of a handle's close: what it takes is the handle's own connection or nothing. |
| WebSocketSlot.ConnectionCache.CloseCached | rust/synapse-core-tool/src/llm.rs:552-568 | Closing the cached connection empties the slot and tells what it held to close. |
| ReclaimTheorems.ReconstructionPreserved | scripts/reclaim_checkpoint_snapshots.py:5-25 | From the oldest kept snapshot of a channel onward, and where a channel has no snapshot yet, every checkpoint reconstructs to the same value as before, for every replay function (also one with overwrites) and every target order. |
| ReclaimTheorems.LatestPreserved | scripts/reclaim_checkpoint_snapshots.py:5-25 | In particular the newest value of every channel of every thread is the same after the run. |
| ReclaimTheorems.UnchangedIffSeedKept | scripts/reclaim_checkpoint_snapshots.py:228-234 | For one channel the guarantee is exact: what is replayed at a checkpoint is unchanged if and only if there is no snapshot there yet or the nearest one was kept. |
| ReclaimTheorems.KeptNotTargeted | scripts/reclaim_checkpoint_snapshots.py:228-234 | With distinct channel names, none of the newest `keep` snapshots is ever a target. |
| ReclaimTheorems.TargetedIff | scripts/reclaim_checkpoint_snapshots.py:97-117 | Exactly what a run gives up: a full snapshot (never a plain value) of a named channel, and only if at least `keep` later checkpoints of the thread hold one too. |
| ReclaimTheorems.StripKeepsTheRest | scripts/reclaim_checkpoint_snapshots.py:134-155 | For any target list: rows, thread and checkpoint ids, unreadable blobs and all other channels survive, and a channel disappears only from a row that was a target for it. |
| ReclaimTheorems.AllTargetsRemovedIff | scripts/reclaim_checkpoint_snapshots.py:137-149 | All targeted channels of a row are gone if and only if the targets that hit the row name a single channel: each update is computed from the row as it was before. |
| ReclaimTheorems.FirstRemovalLost | scripts/reclaim_checkpoint_snapshots.py:137-149 | Two channels targeted at one checkpoint: the first removal is overwritten by the second. |
| ReclaimTheorems.StrippedWhenNotKept | scripts/reclaim_checkpoint_snapshots.py:228-234 | A single-channel run removes every snapshot it does not keep. |
| ReclaimTheorems.SnapshotsAfterRun | scripts/reclaim_checkpoint_snapshots.py:228-234 | After a single-channel run the snapshots left are exactly the kept ones. |
| ReclaimTheorems.SecondRunStripsNothing | scripts/reclaim_checkpoint_snapshots.py:223-254 | A second single-channel run finds no target. |
| ReclaimTheorems.RepeatedChannelIff | scripts/reclaim_checkpoint_snapshots.py:112-116 | For a run that names one channel any number of times, what a reader of the newest value of a thread replays is unchanged if and only if the thread has no snapshot or the channel is named at most `keep` times. |
| ReclaimTheorems.KeptIsStrippedIff | scripts/reclaim_checkpoint_snapshots.py:228-234 | Such a run strips a snapshot that is listed as kept if and only if the list is longer than `keep` and `keep` is no multiple of the number of namings. |
| ReclaimTheorems.KeptAndTargetedIff | scripts/reclaim_checkpoint_snapshots.py:228-234 | For any channel list: an id is both among the kept and among the targets of a channel exactly when the channel is named `m` times, its list is longer than `keep` and `keep` is no multiple of `m`. |
| ReclaimTheorems.NamedTwice | scripts/reclaim_checkpoint_snapshots.py:112-116 | An input on which that happens: one snapshot, its channel named twice, one to keep; the kept snapshot is gone and its checkpoint is replayed from nothing. |
| Reclaim.Reclaim | scripts/reclaim_checkpoint_snapshots.py:184-267 | The whole run: refused exactly when `keep` is below 1; otherwise the targets are all but the newest `keep` of each list and the table is the original with those targets stripped; re-reading a target cannot fail. |
| Reclaim.ScanSnapshots | scripts/reclaim_checkpoint_snapshots.py:97-117 | The nested dictionary lists, for every thread and channel, its snapshot ids in ascending order, skipping unreadable blobs. |
| Reclaim.ScanRow | scripts/reclaim_checkpoint_snapshots.py:109-116 | What one row adds to the dictionary, channel by channel. |
| Reclaim.SelectTargets | scripts/reclaim_checkpoint_snapshots.py:225-234 | A triple is a target exactly when it is among all but the newest `keep` of its list, and kept exactly when among the newest. |
| Reclaim.StripSnapshots | scripts/reclaim_checkpoint_snapshots.py:134-155 | Computing all updates first and writing them afterwards equals stripping row by row; it fails exactly when a targeted row cannot be read, and then nothing is written. |
| Reclaim.PlanIsReadable | scripts/reclaim_checkpoint_snapshots.py:104-108 | Targets come from readable rows only. |
| EventBridgeSystem.AcceptedAreAccountedFor | src/synapse/acp/events.py:56-135 | At every step accepted = dropped previews + enqueued + pending, the queue never exceeds `max_preview_events + 1`, and only previews are ever dropped. |
| EventBridgeSystem.PreviewDroppedIff | src/synapse/acp/events.py:98-107 | A preview is dropped exactly when `max_preview_events + 1` entries are queued; otherwise it goes to the tail. |
| EventBridgeSystem.PreviewsDeliveredInOrder | src/synapse/acp/events.py:94-135 | Delivered previews are a subsequence of the previews handed to the loop, in order. |
| EventBridgeSystem.CloseDeliversEverything | src/synapse/acp/events.py:77-84 | When `close` has returned, every accepted event was delivered once or counted as a dropped preview; every terminal event was delivered. |
| EventBridgeSystem.EveryStepDrains | src/synapse/acp/events.py:77-84 | Once intake is closed every step lowers a natural-number measure. |
| EventBridgeSystem.DrainNeverStuck | src/synapse/acp/events.py:77-84 | And until `close` returns some step is possible, so it cannot hang. |
| EventBridgeRace.CloseDeliversIff | src/synapse/acp/events.py:77-84 | With the decrement and the setting of the drained flag as two steps: when `close` sees the flag, it is sure to deliver everything accepted if and only if nothing is pending at that moment. |
| EventBridgeRace.CloseDeliversWithoutRace | src/synapse/acp/events.py:117-122 | If in no step of the run an event was published between a last decrement and its `set()`, `close` delivers everything accepted. |
| EventBridgeRace.RaceIsReachable | src/synapse/acp/events.py:56-71 | A run in which a publish comes between the two, `close` sees the stale flag, and an accepted event can be lost. |
| EventBridgeRace.Simulates | src/synapse/acp/events.py:94-122 | Until `close` has seen a stale flag, every step is a step of the one-step system, on the state with the flag as it should be. |
| EventBridgeSystem.StepKeepsInv | src/synapse/acp/events.py:56-135 | Each atomic stretch keeps the counters, the shape of the queue with its sentinel, conservation and preview order. |
| EventBridge.CoalesceConserves | src/synapse/acp/events.py:137-173 | Merging joins the texts of a prefix of same-kind previews in order, unless the envelope cannot be replaced, and keeps the rest of the queue as a multiset. |
| EventBridge.SwallowsItsRun | src/synapse/acp/events.py:137-165 | A preview swallows nothing unless it is an answer or reasoning delta, and then exactly the longest run of previews of its kind at the head of the queue. |
| EventBridge.CoalesceKeepsTextIff | src/synapse/acp/events.py:167-173 | All text is kept if and only if the envelope can be replaced or there was no text to join to it. |
| EventBridge.CoalesceKeepsOrderIff | src/synapse/acp/events.py:149-156 | The rest keeps its order if and only if all its entries are equal, because the first one that does not fit is put back at the tail. |
| EventBridge.SentinelOvertakes | src/synapse/acp/events.py:149-156 | A preview put back that way can land behind the close sentinel. |
| EventBridge.ACPEventBridge.constructor | src/synapse/acp/events.py:30-48 | A new bridge is open, drained and empty, with one slot more than its preview capacity. |
| EventBridge.ACPEventBridge.Publish | src/synapse/acp/events.py:56-62 | Publishing is accepted exactly while the bridge is open, and then counts one pending callback and clears the drained flag. |
| EventBridge.ACPEventBridge.FinishCallback | src/synapse/acp/events.py:117-122 | The drained flag is set when the last pending callback ends. |
| EventBridge.ACPEventBridge.EnqueuePreviewEvent | src/synapse/acp/events.py:98-107 | A preview is queued, or counted as dropped when the queue is full; either way its callback is finished. |
| EventBridge.ACPEventBridge.EnqueueTerminalEvent | src/synapse/acp/events.py:109-115 | A terminal event is always queued. |
| EventBridge.ACPEventBridge.CoalescePreview | src/synapse/acp/events.py:137-173 | The `get_nowait` loop computes the merged envelope and leaves the queue the lemmas speak about. |
| PermissionSystem.MarkedNeverAllows | src/synapse/acp/permissions.py:94-107 | A request that `cancel_session` meets before its settle section ends cancelled or with an error; it never returns an allow. |
| PermissionSystem.CancelMarksAllActive | src/synapse/acp/permissions.py:126-136 | `cancel_session` marks every request of the session that has not reached its settle section and asks its client call to stop. |
| PermissionSystem.DecisionIsChosen | src/synapse/acp/permissions.py:62-98 | Whatever any request ends with, other than a cancellation, a client chose: in its answer to that very request or, for one answered from the policy table, in an always-answer of the same session for the same action, given before and not cancelled since. |
| PermissionSystem.AnsweredFromTableIff | src/synapse/acp/permissions.py:62-66 | A call is answered at once, with kind and option id of the policy, exactly when an always-answer of that kind stands: stored for the session and action, not cancelled and not replaced since. |
| PermissionSystem.ClientAskedIff | src/synapse/acp/permissions.py:62-83 | The client is asked exactly when no answer stands and no unfinished request has the same id. |
| PermissionSystem.PoliciesAreStanding | src/synapse/acp/permissions.py:89-93 | The policy table as the history of the run: an entry is there exactly when an answer that stands says so. |
| PermissionSystem.EndingIsExplained | src/synapse/acp/permissions.py:85-124 | How each request that went to the client ends: with the client's own decision unless it was marked, cancelled if it was, with an error only for want of a usable answer. |
| PermissionSystem.AnswerIsReturned | src/synapse/acp/permissions.py:85-98 | A usable answer is returned, and an always-answer stored, unless the request has been marked. |
| PermissionSystem.WaitCanEnd | src/synapse/acp/permissions.py:108-124 | A waiting request can time out at any moment; it raises and its id is free again. |
| PermissionSystem.CancelSparesOthers | src/synapse/acp/permissions.py:126-141 | Cancelling a session leaves requests and policies of other sessions as they are. |
| PermissionSystem.PoliciesAreChosen | src/synapse/acp/permissions.py:89-93 | Every stored policy of a session was chosen by a client of that session for the same normalised action since the session was last cancelled. |
| PermissionSystem.DuplicateLeavesOriginal | src/synapse/acp/permissions.py:79-83 | A duplicate id raises and leaves the registered request, the registry and the policies unchanged. |
| PermissionSystem.RemoveTakesOwnEntry | src/synapse/acp/permissions.py:118-124 | Leaving `resolve` removes exactly the request's own entry. |
| PermissionSystem.StepKeepsRegistry | src/synapse/acp/permissions.py:79-124 | The registry maps each id to the one unfinished request that registered it, at every step. |
| PermissionSystem.StepKeepsRequests | src/synapse/acp/permissions.py:85-141 | Every step keeps what is known of each request: marks survive, decisions are the client's, pending always-answers are recorded as consents. |
| PermissionSystem.StepKeepsPolicies | src/synapse/acp/permissions.py:90-93 | Every step keeps stored policies within the consents given since the last cancel. |
| Permissions.PolicyKeySameWords | src/synapse/acp/permissions.py:164-166 | Two action names share a policy key exactly when they have the same words up to case folding, for any folding of characters. |
| Permissions.SpacingIsIgnored | src/synapse/acp/permissions.py:164-166 | The words of an action are read off whatever white space, in front, between and behind, separates them. |
| Permissions.PolicyKeyIdempotent | src/synapse/acp/permissions.py:164-166 | Normalising a key changes nothing, for any folding that keeps white space apart and is idempotent. |
| Permissions.AsciiFolds | src/synapse/acp/permissions.py:164-166 | Folding of ASCII letters is such a folding. |
| Permissions.DecodeOutcome | src/synapse/acp/permissions.py:168-185 | A decision is the kind of the offered option the client selected, one of the four valid kinds, or cancelled exactly for a cancelled outcome. |
| Permissions.SelectedIff | src/synapse/acp/permissions.py:176-185 | A selection counts exactly when the last option offered under that id has one of the four kinds, and that kind is the decision. |
| Permissions.PermissionCoordinator.Register | src/synapse/acp/permissions.py:79-83 | Registration succeeds exactly for a new id; a refused request's own RPC is asked to stop. |
| Permissions.PermissionCoordinator.StorePolicy | src/synapse/acp/permissions.py:90-93 | The policy is stored only while the entry is pending. |
| Permissions.PermissionCoordinator.Settle | src/synapse/acp/permissions.py:94-98 | A marked entry yields cancelled and stays marked; any other is settled with its decision. |
| Permissions.PermissionCoordinator.Remove | src/synapse/acp/permissions.py:123-124 | Only this entry leaves the registry. |
| Permissions.PermissionCoordinator.CancelSession | src/synapse/acp/permissions.py:126-141 | Exactly the entries of the session are marked and their RPCs asked to stop, exactly its policies are dropped, and the registry keeps its entries. |
| OwnerRegistry.CountsAgree | src/synapse/acp/sessions.py:194-300 | Before shutdown every owner's count is the number of registered sessions plus in-flight closes that use it, also for owners already closed; afterwards this holds of every owner nobody has taken charge of closing. A counted owner has a count of at least one. |
| OwnerRegistry.NeverClosedInUse | src/synapse/acp/sessions.py:226-300 | No owner is closed, or about to be, while a registered session uses it. |
| OwnerRegistry.ClosedAtMostOnce | src/synapse/acp/sessions.py:226-300 | No owner is closed twice, however closes race with each other and with the shutdown. |
| OwnerRegistry.ClosedExactlyOnce | src/synapse/acp/sessions.py:226-316 | Once no session uses an owner and nothing is in flight for it, it has been closed exactly once, also when closing a session raises. |
| OwnerRegistry.LastCloseClosesOwner | src/synapse/acp/sessions.py:226-300 | Closing the only session of an owner closes the owner; closing one of several does not. |
| OwnerRegistry.RegisteredIff | src/synapse/acp/sessions.py:194-259 | The session table as the history of the run: it holds a session exactly when it was registered with that owner and neither closed nor swept away since. |
| OwnerRegistry.StepKeepsOwner | src/synapse/acp/sessions.py:173-316 | The per-owner balance of count, users, in-flight closes and closings is kept by every lock section. |
| OwnerRegistry.ACPSessionRegistry.RetainOwner | src/synapse/acp/sessions.py:280-285 | Retaining adds one to the owner's count. |
| OwnerRegistry.ACPSessionRegistry.RegisterSession | src/synapse/acp/sessions.py:194-200 | A new id is stored and its owner retained; a taken id changes nothing. |
| OwnerRegistry.ACPSessionRegistry.PopSession | src/synapse/acp/sessions.py:227-230 | Closing removes the session from the dictionary, if it is there. |
| OwnerRegistry.ACPSessionRegistry.ReleaseOne | src/synapse/acp/sessions.py:287-300 | Releasing subtracts one, or removes the entry and makes the caller close the owner. |
| OwnerRegistry.ACPSessionRegistry.TakeAll | src/synapse/acp/sessions.py:255-259 | The shutdown takes all sessions and owners and leaves both dictionaries empty. |
| TerminalGateway.OwnedWereCreated | src/synapse/acp/client_services.py:114-182 | The owned set only ever contains terminals this session created. |
| TerminalGateway.EmptyAfterClose | src/synapse/acp/client_services.py:176-182 | After a close the owned set is empty and stays empty through any further run. |
| TerminalGateway.EveryTerminalReleased | src/synapse/acp/client_services.py:136-145 | Once close and all in-flight creates have finished, a release was requested for every terminal whose creation returned, also for those that came back after the close began. |
| TerminalGateway.EveryStepWindsUp | src/synapse/acp/client_services.py:176-191 | Once the gateway is closed every step lowers a natural-number measure, except a further close, which changes nothing; no create is begun any more. |
| TerminalGateway.WindUpNeverStuck | src/synapse/acp/client_services.py:176-191 | And until everything is released some such step is possible. |
| TerminalGateway.ReleasedWereCreated | src/synapse/acp/client_services.py:136-191 | A release is only ever requested for a terminal the session created. |
| TerminalGateway.ReleaseGoesThrough | src/synapse/acp/client_services.py:163-167 | Releasing an owned terminal requests it from the client and then forgets that one terminal; if the request fails the session keeps it. |
| TerminalGateway.OwnedChange | src/synapse/acp/client_services.py:136-182 | The owned set changes only by a create that comes back before the close, by a release that went through, and by the close. |
| TerminalGateway.StepKeepsInv | src/synapse/acp/client_services.py:114-191 | At every step each created terminal is owned, being swept, on its way to the lock section, or requested to be released. |
| TerminalGateway.ClientServiceGateway.EnrollTerminal | src/synapse/acp/client_services.py:137-145 | The terminal is added unless the gateway is closed. |
| TerminalGateway.ClientServiceGateway.RequireTerminal | src/synapse/acp/client_services.py:169-174 | Use is allowed exactly for owned terminals of an open gateway. |
| TerminalGateway.ClientServiceGateway.DiscardTerminal | src/synapse/acp/client_services.py:166-167 | Exactly the released terminal leaves the set. |
| TerminalGateway.ClientServiceGateway.CloseGateway | src/synapse/acp/client_services.py:177-182 | The first close takes all terminals to sweep; later ones do nothing. |
| CursorCodec.CursorRoundTrip | src/synapse/acp/lifecycle.py:27-42 | Decoding an encoded cursor gives back both strings, for all Unicode strings. |
| CursorGrammar.CursorIff | src/synapse/acp/lifecycle.py:32-42 | A cursor denotes a position exactly when it is base64 of the UTF-8 of a JSON array of two strings, by the grammar of section 7 of RFC 8259; any other one is read as no cursor. |
| CursorGrammar.PairIff | src/synapse/acp/lifecycle.py:36-38 | The reader takes exactly the texts that the grammar allows for two strings, and reads them as the strings they denote. |
| CursorGrammar.WrittenForm | src/synapse/acp/lifecycle.py:28-28 | Each character is written as itself, as its short escape, or in lower-case hexadecimal, in ASCII only. |
| CursorGrammar.CursorIsUrlSafe | src/synapse/acp/lifecycle.py:29-29 | A cursor consists of letters, digits, `-` and `_`. |
| CursorGrammar.EitherAlphabet | src/synapse/acp/lifecycle.py:36-36 | The letters of the standard base64 alphabet are read like those of the URL-safe one. |
| CursorCodec.PairRead | src/synapse/acp/lifecycle.py:28-28 | Reading the JSON array of two escaped strings (section 7 of RFC 8259, ASCII escapes with surrogate pairs) gives back both strings. |
| CursorCodec.StringRead | src/synapse/acp/lifecycle.py:28-28 | A JSON string literal is read back whole, whatever follows it. |
| CursorCodec.Base64Read | src/synapse/acp/lifecycle.py:29-38 | Decoding base64url text (sections 4 and 5 of RFC 4648) gives back the bytes. |
| CursorCodec.PaddingRecomputed | src/synapse/acp/lifecycle.py:29-36 | Stripping the padding and recomputing it from the length restores the text. |
| CursorCodec.Base64Shape | src/synapse/acp/lifecycle.py:29-29 | Padded base64 text is a whole number of groups of four and ends in at most two padding signs. |
| Paging.WalkListsUntouchedOnce | src/synapse/acp/lifecycle.py:331-358 | Following cursors from the start until there is none, with any changes to other sessions between the pages, lists every session left untouched exactly once and under no other timestamp, and everything in strictly descending (updated_at, session_id) order. |
| Paging.WalkOneStamp | src/synapse/acp/lifecycle.py:344-358 | No walk, finished or not, lists an untouched session under another timestamp. |
| Paging.WalkDescends | src/synapse/acp/lifecycle.py:344-358 | A walk from any cursor is strictly descending and below its cursor. |
| Paging.WalkCovers | src/synapse/acp/lifecycle.py:344-358 | A finished walk contains every untouched session below its cursor. |
| Paging.PageListsRows | src/synapse/acp/lifecycle.py:338-353 | A page of any limit lists at most 50 sessions, newest first, each with the timestamp and directory it has in the table, older than the cursor and in the directory asked for. |
| Paging.PageCovers | src/synapse/acp/lifecycle.py:338-358 | A default page lists every due session, or the 50 newest of them and a cursor after which exactly the others are due. |
| Paging.WalkListsRows | src/synapse/acp/lifecycle.py:338-358 | Every session a walk lists had that timestamp and directory in the table of one of its pages. |
| Paging.LargeLimitIsDefault | src/synapse/acp/lifecycle.py:348-353 | Limits above the page size are the page size. |
| Paging.SmallLimitLosesRowsIff | src/synapse/acp/lifecycle.py:348-357 | With a smaller limit the page returns one row too many and no cursor; rows are lost exactly when more than `limit + 1` match. |
| Paging.SmallLimitLosesOldest | src/synapse/acp/lifecycle.py:348-357 | An input on which that happens: three sessions and a limit of 1. |
| UpdateLog.StoredIsTopOfHistory | src/synapse/acp/lifecycle.py:133-164 | After any appends and overwrites, pruned each time, the stored log is the `n` largest (sequence, index) keys of the whole history, each with the payload last written for it. |
| UpdateLog.StoredIsMostRecent | src/synapse/acp/lifecycle.py:133-164 | In terms of single updates: what is stored is as last written, and whatever is not stored any more comes before everything that is. |
| UpdateLog.KeepsTwoThousand | src/synapse/acp/lifecycle.py:157-164 | 2000 updates are kept, or all of them. |
| UpdateLog.TopAfterInsert | src/synapse/acp/lifecycle.py:157-164 | Pruning before an insertion makes no difference to pruning after it. |
| UpdateLog.StoredSize | src/synapse/acp/lifecycle.py:157-164 | The log holds all keys of the history, or exactly `n` once there are that many. |
| UpdateLog.NextSequenceIsNew | src/synapse/acp/lifecycle.py:182-189 | The next sequence exceeds every sequence ever appended, pruned ones included. |
| Catalog.ACPSessionCatalog.Create | src/synapse/acp/lifecycle.py:194-252 | A session is inserted unless its id exists; updates are untouched, and a new session has nothing to replay, whatever was stored under its id before. |
| Catalog.ACPSessionCatalog.Touch | src/synapse/acp/lifecycle.py:260-271 | Only the timestamp of that session changes, and its title if one is given. |
| Catalog.ACPSessionCatalog.Delete | src/synapse/acp/lifecycle.py:273-279 | The session and its updates go, nothing else. |
| Catalog.ACPSessionCatalog.AppendUpdate | src/synapse/acp/lifecycle.py:133-155 | An append to an unknown session does nothing; otherwise it inserts or replaces one update, touches the session and prunes to 2000. |
| Catalog.ACPSessionCatalog.PruneUpdates | src/synapse/acp/lifecycle.py:157-164 | Exactly the 2000 largest keys of the session stay. |
| Catalog.ACPSessionCatalog.Updates | src/synapse/acp/lifecycle.py:166-180 | The replay: the payloads of all stored keys, in strictly ascending key order; what the catalog stores always reads back as an object, so nothing is skipped, and an unknown session replays nothing. |
| UpdateLog.ReplayIsUnique | src/synapse/acp/lifecycle.py:166-180 | Keys in ascending order and their payloads leave no freedom: a log has only one replay. |
| Catalog.ACPSessionCatalog.NextUpdateSequence | src/synapse/acp/lifecycle.py:182-189 | One more than the largest stored sequence. |
| FileEncoding.EncodeUndoesDetect | rust/synapse-core-tool/src/file_access.rs:68-121 | Whenever bytes are accepted as UTF-8 (with or without a mark) or as marked UTF-16LE/BE, encoding the decoded text returns the same bytes. |
| FileEncoding.MarksAreRead | rust/synapse-core-tool/src/file_access.rs:68-121 | Which bytes mean which text: after FF FE each pair is a UTF-16 code unit with the low byte first, after FE FF with the high byte first, after EF BB BF and without a mark the bytes are UTF-8. |
| FileEncoding.RefusedIff | rust/synapse-core-tool/src/file_access.rs:68-121 | Bytes are refused exactly when they begin with a mark and encode no text that way, and left to guessing exactly when there is no mark and they are not UTF-8. |
| FileEncoding.DetectUndoesMarkedEncode | rust/synapse-core-tool/src/file_access.rs:22-57 | Text written with a byte order mark is read back as the same text and encoding. |
| FileEncoding.DetectUndoesPlainEncodeIff | rust/synapse-core-tool/src/file_access.rs:68-82 | Unmarked UTF-8 is read back as itself if and only if the text does not start with U+FEFF. |
| FileEncoding.EncodeUtf16Bytes | rust/synapse-core-tool/src/file_access.rs:39-57 | The loop writes FF FE or FE FF and then each code unit with the low or the high byte first. |
| Unicode.Utf8DecodesEncoded | rust/synapse-core-tool/src/file_access.rs:77-82 | UTF-8 decoding undoes encoding (section 3 of RFC 3629). |
| Unicode.Utf8EncodesDecoded | rust/synapse-core-tool/src/file_access.rs:77-82 | UTF-8 encoding undoes decoding: overlong forms, surrogates and values above U+10FFFF are never accepted. |
| Unicode.Utf16DecodesEncoded | rust/synapse-core-tool/src/file_access.rs:106-121 | UTF-16 decoding undoes encoding (sections 2.1 and 2.2 of RFC 2781). |
| Unicode.Utf16EncodesDecoded | rust/synapse-core-tool/src/file_access.rs:106-121 | UTF-16 encoding undoes decoding: unpaired surrogates are never accepted. |
| UnifiedDiff.ApplyUnifiedDiff | rust/synapse-core-tool/src/file_tools.rs:308-381 | Applying a patch is folding its hunks over the lines in order: an error names the first hunk whose old block is missing, a patch without hunks is invalid, otherwise the folded lines are rendered with the file's line ending. |
| UnifiedDiff.ApplyHunks | rust/synapse-core-tool/src/file_tools.rs:326-374 | The index-and-splice loop computes that fold and the hunk count. |
| UnifiedDiff.ReadHunk | rust/synapse-core-tool/src/file_tools.rs:332-349 | The inner loop collects one hunk: its old block is the context and removed lines up to the next header without their marks, in order, its new block the context and added lines. |
| UnifiedDiff.BodyBlocks | rust/synapse-core-tool/src/file_tools.rs:337-349 | Each context or removed line stands in the old block at the position counted by those before it, each context or added line likewise in the new block, and nothing else does. |
| UnifiedDiff.HunkOfHeader | rust/synapse-core-tool/src/file_tools.rs:329-349 | There is one hunk for each line that begins with `@@`, and it reads the lines from there to the next such line. |
| Lines.StrLinesRead | rust/synapse-core-tool/src/file_tools.rs:326-326 | A patch is split into its lines, whatever mixture of LF and CRLF endings it has and whether or not the last line ends. |
| UnifiedDiff.AddToEmptyFile | rust/synapse-core-tool/src/file_tools.rs:318-328 | An empty file has no line: adding to it gives just the added lines. |
| UnifiedDiff.FindBlock | rust/synapse-core-tool/src/file_tools.rs:351-362 | The search returns the leftmost occurrence, the start for an empty block, or none. |
| UnifiedDiff.FoldHasTrace | rust/synapse-core-tool/src/file_tools.rs:329-374 | A success comes with a run in which each hunk replaces the leftmost occurrence and leaves what is before and after it; a failure at hunk `n` with such a run of the hunks before it into lines that do not contain its old block. |
| UnifiedDiff.TraceIsFold | rust/synapse-core-tool/src/file_tools.rs:329-374 | Conversely such a run settles the result: the edit succeeds exactly when every hunk in turn finds its block, with one possible outcome. |
| UnifiedDiff.FoldGrowth | rust/synapse-core-tool/src/file_tools.rs:366-369 | The number of lines changes by exactly the hunks' additions minus removals. |
| UnifiedDiff.BodyGrowth | rust/synapse-core-tool/src/file_tools.rs:337-349 | A hunk's additions minus removals are its lines marked plus minus those marked minus. |
| UnifiedDiff.ContextPatchIsIdentityIff | rust/synapse-core-tool/src/file_tools.rs:309-381 | A patch of matching context only returns the content byte for byte if and only if the content is empty, or has uniform line endings, at most one trailing newline and something besides newlines. |
| UnifiedDiff.ContextLosesNewline | rust/synapse-core-tool/src/file_tools.rs:320-379 | An input on which it is not: one context line in a file with two trailing newlines. |
| UnifiedDiff.UnchangedLinesIff | rust/synapse-core-tool/src/file_tools.rs:309-381 | The same for any edit that changes no line: normalising, splitting, joining and restoring the trailing newline lose nothing on exactly those contents. |
| UnifiedDiff.ContextFold | rust/synapse-core-tool/src/file_tools.rs:337-341 | Context-only hunks change no line. |
| UnifiedDiff.ReverseRestoresIff | rust/synapse-core-tool/src/file_tools.rs:351-369 | Applying a one-hunk patch and then its reverse always succeeds, and restores the lines if and only if the inserted block's leftmost occurrence in the result is where it was placed. |
| UnifiedDiff.ReverseMisses | rust/synapse-core-tool/src/file_tools.rs:351-369 | An input on which it does not: replacing a line by one that also stands above it, and back. |
| UnifiedDiff.SwappedBody | rust/synapse-core-tool/src/file_tools.rs:337-349 | Exchanging plus and minus in a hunk exchanges its old and new block. |
| Lines.NormalizeOfExpand | rust/synapse-core-tool/src/file_tools.rs:315-317 | Writing newlines as CRLF and normalising gives the text back. |
| Lines.ExpandOfNormalize | rust/synapse-core-tool/src/file_tools.rs:315-317 | Normalising and writing CRLF gives the text back when every newline was one. |
| Lines.JoinOfSplit | rust/synapse-core-tool/src/file_tools.rs:318-377 | Splitting at newlines and joining with an ending rewrites exactly the newlines. |
| ExactEdit.ApplyExactEdit | rust/synapse-core-tool/src/file_tools.rs:213-250 | Exactly when it succeeds and with what: the first of the candidates that is wanted; a single edit splits the file as before + old + after and returns before + new + after; replace-all cuts the file at the old text from left to right and joins the pieces by the new one, with their number and the length that results; errors tell none from several. |
| ExactEdit.Candidates | rust/synapse-core-tool/src/file_tools.rs:252-277 | One to three distinct pairs: as given, with LF, with CRLF endings; none with an empty old text. |
| ExactEdit.NoMatchIff | rust/synapse-core-tool/src/file_tools.rs:230-245 | The non-overlapping scan counts zero exactly when the text occurs nowhere. |
| ExactEdit.ReplaceLength | rust/synapse-core-tool/src/file_tools.rs:228-234 | Replacing all matches changes the length by their number times the difference in length. |
| ExactEdit.ReplaceJoins | rust/synapse-core-tool/src/file_tools.rs:228-234 | Replacing all is cutting at the pattern from left to right and joining by the replacement; there is one more piece than matches, and no piece holds the pattern. |
| ExactEdit.ExpandIsReplace | rust/synapse-core-tool/src/file_tools.rs:263-267 | Writing CRLF for every newline is what the general replacement does. |
| ExactEdit.OverlappingCountsOnce | rust/synapse-core-tool/src/file_tools.rs:239-240 | "Exactly once" means once in the left-to-right scan: two overlapping occurrences count as one. |
| ReadWindow.WindowsTileFile | rust/synapse-core-tool/src/file_tools.rs:180-186 | Successive line windows put together are the file's text, for every limit. |
| ReadWindow.WindowsAreFull | rust/synapse-core-tool/src/file_tools.rs:180-186 | And every window but the last has as many lines as asked for, up to 10 000. |
| ReadWindow.LinesEndAtNewlines | rust/synapse-core-tool/src/file_tools.rs:180-180 | A line ends at its newline and nowhere else. |
| ReadWindow.RenderWithBudget | rust/synapse-core-tool/src/file_tools.rs:68-81 | The output is the longest run of whole lines from the start that fits the budget, and truncation is reported exactly when not everything fits. |
| ReadWindow.AssembleIsJoin | rust/synapse-core-tool/src/file_tools.rs:73-79 | For lines that are not empty the output is their join by newlines. |
| GitParsers.ParseNumstat | rust/synapse-gui/src/git_fs.rs:1095-1116 | The token loop fills the map that the round-trip lemmas speak about. |
| GitParsers.NumstatRoundTrip | rust/synapse-gui/src/git_fs.rs:1078-1116 | Printing any numstat records in git's `-z` layout and parsing them gives each path its counts, including renames, binary markers and paths with tabs. |
| GitParsers.LaterRecordWins | rust/synapse-gui/src/git_fs.rs:1095-1116 | The entry of a path is that of the last record naming it. |
| GitParsers.NumTokenRead | rust/synapse-gui/src/git_fs.rs:1078-1093 | The three columns of a token are read back, whatever the path contains after the second tab. |
| GitParsers.ParsePrinted | rust/synapse-gui/src/git_fs.rs:1083-1087 | Decimal counts within 32 bits are parsed back. |
| GitParsers.ParseU32Iff | rust/synapse-gui/src/git_fs.rs:1083-1087 | A column is a number exactly when it is decimal digits within 32 bits, after an optional plus sign and any zeros. |
| GitParsers.DashIsBinary | rust/synapse-gui/src/git_fs.rs:1079-1081 | A dash in either column marks a binary file. |
| GitParsers.ParseNameStatus | rust/synapse-gui/src/git_fs.rs:1121-1141 | The token loop appends the records the round-trip lemma speaks about. |
| GitParsers.NameStatusRoundTrip | rust/synapse-gui/src/git_fs.rs:1121-1141 | Printing any name-status records and parsing them gives the same list, renames and copies with both paths. |
| Worktrees.ReadWorktrees | rust/synapse-gui/src/git_fs.rs:1172-1212 | The line loop computes the worktrees of the blocks. |
| Worktrees.WorktreesRead | rust/synapse-gui/src/git_fs.rs:1174-1212 | Parsing git's porcelain layout gives every worktree without line breaks back in order, with path and commit trimmed on both sides and the branch name at its end. |
| Worktrees.WorktreesSurviveIff | rust/synapse-gui/src/git_fs.rs:1174-1212 | Parsing git's output for any worktrees gives them back unchanged if and only if none has white space where it is trimmed and none has a line break in it. |
| Worktrees.BrokenPaths | rust/synapse-gui/src/git_fs.rs:1190-1209 | Inputs on which they do not come back: a path with a line break and a path that ends in a space. |
| Worktrees.OneMain | rust/synapse-gui/src/git_fs.rs:1178-1189 | Whatever the output, exactly the first worktree listed is the main one. |
| Worktrees.LinesSay | rust/synapse-gui/src/git_fs.rs:1194-1208 | A path or commit is trimmed, a branch value outside `refs/heads/` kept, and other lines say nothing. |
| Worktrees.NoPathNoWorktree | rust/synapse-gui/src/git_fs.rs:1178-1189 | A block that names no path lists nothing. |
| ArtifactChunks.ChunksTileFile | rust/synapse-gui/src/git_fs.rs:1873-1910 | Reading on from `next_offset` until `eof`, with any limits, yields the bytes of the file; no chunk exceeds the maximum and only the last says `eof`. |
| ArtifactChunks.ChunkCount | rust/synapse-gui/src/git_fs.rs:1888-1899 | With one limit throughout, the number of calls is the size divided by the clamped limit, rounded up. |
| ArtifactChunks.ReadsUpToEnd | rust/synapse-gui/src/git_fs.rs:1880-1899 | A read is refused exactly when it starts behind the end of the file; at the end it is empty and says `eof`. |
| CapText.CapText | rust/synapse-gui/src/git_fs.rs:1049-1059 | Text over the cap is cut to the longest prefix of whole characters that fits, and the result says whether it was cut. |
| CapText.BoundariesArePrefixes | rust/synapse-gui/src/git_fs.rs:1053-1057 | The byte positions the loop accepts are exactly ends of character prefixes. |
| PathSearch.GlobCandidates | src/synapse/commands/slash_complete.py:654-782 | Results are distinct, at most `limit`, and each is the path of a shown child, or with the fallback of a reachable entry, whose own name starts with the typed base ignoring case. Without the fallback they are direct matches in the order of the listing, all of them if they fit. With it they are sorted, directories first and by name, and contain all direct matches, all matches down to some depth and otherwise only matches one level deeper, and every matching reachable entry when neither cap is reached. |
| PathSearch.Search | src/synapse/commands/slash_complete.py:728-776 | The breadth-first loop ends on every finite tree, looks at 2000 entries at most, finds only and below the caps all matching reachable entries; whatever cap ends it, it has found all matches down to some depth and besides only matches one level deeper. |
| PathSearch.ScanNext | src/synapse/commands/slash_complete.py:735-776 | Each turn of the loop lowers the weight of the queue and loses nothing that was still to be found. |
| PathSearch.ScanDir | src/synapse/commands/slash_complete.py:741-773 | One directory contributes exactly the matches of the entries looked at, and all of them unless a cap is reached. |
| PathSearch.DirectPhase | src/synapse/commands/slash_complete.py:706-719 | The direct children contribute their matches in the order of the listing until the cap. |
| PathSearch.ScandirEntries | src/synapse/commands/slash_complete.py:637-651 | The listing is the function `Shown`. |
| PathSearch.ShownSpec | src/synapse/commands/slash_complete.py:637-651 | What is listed is the first 500 of the visible entries, directories first and by name ignoring case; nothing if the listing fails. |
| PathTree.ReachableOfDir | src/synapse/commands/slash_complete.py:735-773 | Queueing subdirectories and continuing finds exactly what the recursive description of the tree finds. |
| PathTree.ReachableIff | src/synapse/commands/slash_complete.py:735-773 | What the fallback can find is exactly the paths of the visible entries that lie in the tree behind no hidden, skipped or unreadable directory and whose own names start with the typed base, ignoring case. |
| PathTree.MatchesIff | src/synapse/commands/slash_complete.py:707-709 | A name matches exactly when it begins with the typed base, letter for letter, ignoring case. |
| PathTree.FallbackFindsIff | src/synapse/commands/slash_complete.py:735-773 | In terms of names: what the fallback can find is exactly the names on the way to a matching entry, joined by slashes behind the prefix, backslashes turned round, with a slash after a directory. |
| PathTree.NeverThrough | src/synapse/commands/slash_complete.py:610-634 | The way never leads through `.git`, `node_modules` and the other tool directories, nor through a hidden one. |
| PathLevels.WithinIff | src/synapse/commands/slash_complete.py:727-773 | Less than `n` levels down means a path of at most `n` names. |
| PathTree.ReachableMatch | src/synapse/commands/slash_complete.py:760-771 | In particular every candidate of the fallback is the path of such an entry. |
| PathSearch.DirectMatch | src/synapse/commands/slash_complete.py:708-716 | Every direct candidate comes from a shown entry whose name starts with the typed base, ignoring case. |
| PathSearch.DirectIsNamed | src/synapse/commands/slash_complete.py:708-716 | A direct candidate is the typed directory and the name of the child, with a slash if it is a directory and without a leading `./`. |
| PathTree.PopWeighsLess | src/synapse/commands/slash_complete.py:736-757 | Replacing a directory in the queue by directories inside it lowers the weight: the search terminates. |
| PathSearch.SortSorts | src/synapse/commands/slash_complete.py:780-781 | Sorting by the key (directories first, lower-cased path) yields an ascending list. |
| PathSearch.SortPermutes | src/synapse/commands/slash_complete.py:780-781 | Sorting permutes the candidates. |
| PathSearch.SortStable | src/synapse/commands/slash_complete.py:780-781 | Candidates with equal keys keep their order. |
| PathSearch.CompleteDistinct | src/synapse/commands/slash_complete.py:785-803 | Full-line completions of distinct candidates are distinct. |
| PathSearch.CycleReturns | src/synapse/commands/slash_complete.py:812-827 | Cycling as often as there are candidates returns to the start, and fewer steps never meet a candidate twice. |
| PathSearch.CycleReaches | src/synapse/commands/slash_complete.py:812-827 | Every candidate is reached from every other. |
| PathSearch.CycleVisitsAll | src/synapse/commands/slash_complete.py:812-827 | After `n` steps the candidate is the one `n` places further round the ring. |
| PathSearch.Cycle | src/synapse/commands/slash_complete.py:812-827 | There is no next candidate exactly when there is none at all; without a current one, or with one that is not in the list, the first is next. |

## Left out

- WebSocketLoop.DeliveredIsOwnResponse: events are carried as values, not as their JSON text; assumes that the server ends each response at its first terminal event and says nothing between responses, which is what the code relies on.
- WebSocketTask.Connection.RunLoop: watches the loop for a bounded number of awaits; the bound is a parameter and limits only how long it is watched.
- WebSocketSlot.OpensShare: lines 495-508 are one critical section; nothing is claimed about deadlock on the nested state lock.
- EventBridgeSystem.CloseDeliversEverything: for envelopes without a nested event, the shape the agent publishes, a consumer that does not raise and one call of `close`; here the decrement and the setting of the drained flag are one step, and `EventBridgeRace.CloseDeliversIff` says what changes when they are two.
- EventBridgeSystem.PreviewsDeliveredInOrder: no order is claimed between terminals and previews or among blocked terminals, because terminals are enqueued by separately spawned coroutines.
- PermissionSystem.PoliciesAreChosen: the stretch from the policy lookup to the registration is one step, since no lock body awaits and the lock is therefore free; a coroutine cancelled while it waits for the lock and `shutdown` are not modelled.
- Worktrees.WorktreesRead: for worktrees without line breaks; of others `Worktrees.WorktreesSurviveIff` says that they do not come back, not what does.
- Permissions.PolicyKeyIdempotent: the case folding table is not spelt out; any table that keeps white space apart and is idempotent will do, and the permission system is proved for every table.
- OwnerRegistry.ClosedExactlyOnce: assumes that a closed owner is not registered again and that a duplicate create brings an owner of its own; being cancelled while waiting for the lock is not modelled.
- TerminalGateway.EveryTerminalReleased: cancellation between the return of the creating call and the lock section is not modelled.
- ReclaimTheorems.ReconstructionPreserved: one checkpoint namespace and a linear chain of checkpoints, as the script itself orders them; ids are their positions in that order.
- ReclaimTheorems.KeptNotTargeted: for distinct channel names; `ReclaimTheorems.RepeatedChannelIff` and `ReclaimTheorems.KeptIsStrippedIff` say what happens to a channel named several times.
- ReclaimTheorems.SecondRunStripsNothing: for one channel, because several channels at one checkpoint can lose a removal.
- CursorCodec.CursorRoundTrip: the JSON reader accepts the compact two-string form only; lone surrogates and characters outside the base64 alphabets are refused.
- CursorGrammar.CursorIff: about that reader; the original's also takes white space and elements that are not strings, and skips characters outside the base64 alphabets.
- Paging.WalkListsUntouchedOnce: for the default page size, the only one the paging is right for.
- Catalog.ACPSessionCatalog.Create: the columns written once and only handed back are one opaque value, the thread id is the session id, and schema migration is not modelled; stored payloads are opaque text.
- FileEncoding.EncodeUndoesDetect: statistical guessing and legacy encodings are a library's; such input is one case without a claim.
- ExactEdit.ApplyExactEdit: lengths count characters.
- PathSearch.GlobCandidates: the limit is at least 1 (the default is 100); symbolic links count as files, case is folded for ASCII letters, and a directory that becomes unreadable while it is listed is not modelled; splitting the token into parent and base is left to the caller.
- PathTree.FallbackFindsIff: for trees without empty names, which is what a directory listing can hold; likewise PathLevels.WithinIff.
- Lock poisoning, transport errors' texts, statistics and printing: not modelled.
- HTTP and SSE streaming, proxy parsing, pyo3 glue, SQLite, msgpack and running git: foreign calls.
- Fingerprints, backups and exclusive access in the reclamation script: operational checks around the rewrite.
- `authorize`, the file-system methods and the tool builders of the client gateway: path handling of the platform.
- Binary file detection, directory listings and line truncation in the read tool: thin wrappers.
- References, stashes, blame, artifact path resolution and validators in `git_fs.rs`: formatting and platform-dependent paths.
- Slash-command rendering, hints and suggesters, the user interfaces, agent assembly, prompts and MCP plumbing: I/O.
