# abtars: verified models of its protocols and data paths

Dafny models of the parts of abtars where a mistake loses a request, a credential or a connection,
with proofs about every run of them. `dafny verify dfyconfig.toml` checks everything.

The environment is always the adversary: sockets, timers, promise continuations, failing writes,
crashes and completion orders are free choices, and the theorems quantify over all of them.

| part | modules | what is proved |
|---|---|---|
| signed-WSS route controller | `RouteProtocol`, `RouteHandshake`, `RouteFields`, `RouteController` | the class, with its real fields and the flags of every old socket's closures, takes exactly the steps of a small automaton; theorems about every run of that automaton, among them which events make a route ready and which make it fail |
| durable request outbox | `Outbox`, `RequestOutbox`, `OutboxAnswers`, `OutboxRuns`, `OutboxReload`, `OutboxJson`, `Utf8` | the class against a value model of memory and disk; what each operation answers and stores, field by field; durability, agreement of memory and disk, and exactly which histories keep the file loadable; the sizes are those of the JSON text in UTF-8 |
| boot graph | `BootGraph`, `CycleDetector`, `BootDispatcher`, `BootEqualNames` | detection of cycles, both directions; every completion order yields one and the same report; which nodes are missing from it, exactly; runs begin in dependency order |
| dotenv secret migration | `Text`, `Dotenv`, `SecretMigration`, `SecretDecisions`, `SecretRecovery`, `EnvBoot` | which value a line assigns, exactly when each outcome is reached, crash safety, lossless rewriting, idempotence, recovery from any crash point, suppression of unsafe values |
| sealed tool proxy | `SealedProxy`, `SealedGreeting` | newline framing in chunks of any size; FIFO correlation, exactly when it holds, from the first hello on; what each answer tells; what settles an authentication |
| agent-call limiter | `RateLimiter` | with any clock: exactly when pruning is invisible and exactly when no window overflows; the reported wait is exact |
| tmux command line | `ShellQuoting` | a POSIX shell reads back the argument list |
| drain round robin | `DrainPeers`, `Arithmetic` | distinct, adjacent selections; exactly when every named peer is reached |

How the layers meet: methods of a class have the source's branches and are proved against
specification functions (`Abstract() == P.OnX(old(Abstract()))`, `Outcome(View(), ok) ==
Perform(...)`, `View() == Drain(...)`); the lemmas are about these functions over whole runs, and
state what the functions come to in other terms: the events of a run, the fields of a request, the
text of a line, the members of a reply; and a
method such as `RouteController.Drive`, `BootDispatcher.RunBoot` or `SealedProxy.Converse` runs the
class through a whole history and ends in the state the lemmas speak about.

## Where the code and its promises differ

* Reconnect after a terminal failure. The comment at
  src/components/abmind-route-controller.ts:366-369 says that non-transient failures keep their
  terminal classification. They do for `pin_mismatch` and `retry_exhausted`. After
  `authentication_failed` and `negotiation_failed` the generation has not moved, so the close event
  of the same socket makes the route reconnect, or `retry_exhausted` if no budget is left.
  `TerminalFailureCanRevive` gives a run, `UnavailableIsLeftOnlyByClose` and `RevivesExactly` the
  exact conditions.
* A written outbox file that the next load quarantines. `append` checks less than `load` demands, the
  entry bound is checked before the bookkeeping of a delivery is added, and `load` itself checks only
  the file bound before it writes what it has migrated or normalised. `AdmittedYetNotReloadable` gives
  a request that is admitted, sent, and then quarantined with the whole file; `TakenOverOnceOnly` one
  whose file the first restart takes over and the second quarantines. `WrittenFileLoads` says of every
  operation, `MigratedFileLoads` and `NormalisedFileLoads` of the two writes of `load`, exactly when
  the file will be taken over again, and `ReadableExactlyIfHarmless` of whole histories. The durability
  theorems therefore ask of the caller (`Careful`) what the outbox does not check: a new id, valid
  names, room for bookkeeping, no retry past the attempt limit, and a next attempt that is a time.
* A retry whose next attempt is no time. `markRetryWait` counts the attempt in memory and then throws
  while converting that time, before anything is written (lines 188-191). `TornRetryDisagrees` is an
  instance; `AgreeAfterOperation` says that this is the only operation after which memory and disk
  disagree, and `MemoryAndDiskAgree` that they go on disagreeing exactly until the next write that
  lands or the next restart.
* Unsolicited replies in the sealed proxy. A reply without an outstanding call makes the handler
  return with frames left in its buffer; `UnsolicitedReplyMisleads` shows that the next answer then
  depends on where chunks were cut. `RepliesAnswerInOrder`, and `RepliesAnswerFromHello` for
  conversations from their beginning, say that the k-th reply answers the k-th call exactly for hosts
  that never do this.
* The timer of an earlier authentication (src/cli/abtars-sealed-mcp.ts:144-149) takes away the resolver
  of the one in progress and settles only its own promise. `StaleTimeoutStalls` gives a run,
  `StalledExactly` says that this is the only way to stall, and `StalledForever` that a stalled proxy
  never authenticates.
* Boot nodes behind a rejected dependency have no report entry at all; they are not `skipped`.
  `RequiredFailureLeavesNoEntry` is an instance, `NoEntryExactly` says which nodes these are: those
  whose first trouble, first trouble by first trouble, is an unknown name or a failed required node.
* Boot nodes of equal name. The detector looks at the last node of a name only, while an earlier one
  may be the one whose body is started. `EqualNamesCanHang` gives four nodes, without a cycle as the
  detector sees them, on which two bodies wait for each other for ever. The boot is proved for every
  list of nodes none of which, earlier ones of equal name included, closes a cycle; then one body is
  started for each name.
* Recovery of a migration. A second run after a crash ends with the store of an uninterrupted one, but
  an empty assignment whose key had its values in files rewritten before the crash is never removed:
  `EmptyAssignmentStaysBehind`; `SecondRunRecovers` says exactly which files end differently.
* A wall clock set back. The limiter then no longer knows the calls it pruned at the later time:
  `KeptShowsTheWindow` says exactly when it still sees a whole window, `SetBackOverflows` gives a run
  with more calls in one hour than allowed, and `WindowsBoundedExactly` says that a window overflows
  exactly if an admission found more calls lost in one than room.
* Empty names among the peers. The cursor moves by the peers selected, so places without a name can
  hold it still: `EmptyNameBlocks`; `EveryNamedPeerIsReached` says that all named peers are reached
  exactly if no stretch as long as the budget is without a name.

## Model

| member | source | states |
|---|---|---|
| RouteProtocol.NoNegotiationIsStranded | src/components/abmind-route-controller.ts:120-390 | in every run each generation opens one socket and settles one promise, and all are settled but the one in progress |
| RouteProtocol.LeavingSettles | src/components/abmind-route-controller.ts:324-352 | a step that moves past a generation has settled its establishment by the end of the step |
| RouteProtocol.CallbackOrder | src/components/abmind-route-controller.ts:240-309 | per generation: ready once, lost once, ready never after lost, nothing after lost, frames only after ready |
| RouteProtocol.ClosedForever | src/components/abmind-route-controller.ts:169-196 | after close the route stays closed and no effect of any kind happens in any continuation |
| RouteProtocol.BudgetBeforeFirstReady | src/components/abmind-route-controller.ts:364-390 | until the first ready, the automatic establishments of a run and the one armed for are paid from the attempt limit |
| RouteProtocol.NeverExhaustedOnceReady | src/components/abmind-route-controller.ts:364-375 | once ever ready, retry_exhausted is unreachable and every loss arms a reconnect |
| RouteProtocol.UnavailableIsLeftOnlyByClose | src/components/abmind-route-controller.ts:213-237 | without negotiate or close, state or reason of an unavailable route change if and only if the current socket closes after a failed authentication or negotiation |
| RouteProtocol.RevivesExactly | src/components/abmind-route-controller.ts:292-375 | an unavailable route reconnects if and only if moreover it was ready once or has attempts left; otherwise it becomes retry_exhausted |
| RouteProtocol.TerminalFailureCanRevive | src/components/abmind-route-controller.ts:292-302 | a run in which a failed authentication is turned back into a reconnect, against the comment at 366-369 |
| RouteProtocol.BackoffGrows | src/components/abmind-route-controller.ts:392-396 | delays never shrink and never exceed the maximum |
| RouteProtocol.BackoffDoubles | src/components/abmind-route-controller.ts:392-396 | the first delay is the smaller of base and maximum, and each later one the smaller of twice the one before and the maximum |
| RouteProtocol.BackoffReachesTheMaximum | src/components/abmind-route-controller.ts:392-396 | with a positive base the delay ends at the maximum |
| RouteProtocol.StepKeepsInv | src/components/abmind-route-controller.ts:120-390 | every event in every state keeps accounting, publication order and budget |
| RouteHandshake.ReadyOnlyByHandshake | src/components/abmind-route-controller.ts:240-309 | in every run, ready is announced or a promise resolved only after, on that generation and in this order: an open with its pin matching, the acknowledgement with no unsignable challenge and no timeout since the open, a control frame signed and sent, the response with these capabilities with no refusal and no timeout in between, and its continuation |
| RouteHandshake.HandshakeMakesReady | src/components/abmind-route-controller.ts:240-309 | conversely, from any run with a connection in progress that schedule, with any neutral events in between, ends ready with these capabilities, the promise resolved and ready announced |
| RouteHandshake.FailedOnlyFor | src/components/abmind-route-controller.ts:213-289 | each terminal reason of a run has its cause among the events of that generation: a refused pin; a broken or timed-out authentication or a control frame that cannot be signed; a refused, timed-out or unsent control exchange |
| RouteHandshake.FailuresFollow | src/components/abmind-route-controller.ts:213-289 | conversely each of these events, in the phase it concerns, ends the establishment with that reason |
| RouteHandshake.DelaysGrowWithRetries | src/components/abmind-route-controller.ts:364-396 | in every run the attempts are the reconnects armed since the route was last ready, and the armed delay is the backoff of that many |
| RouteHandshake.EndsOfSocket | src/components/abmind-route-controller.ts:292-352 | what a close or an error of the current socket comes to before it opened, during the handshake and when ready: reason, generation, attempts, delay, rejections and the loss published |
| RouteHandshake.StartsExactly | src/components/abmind-route-controller.ts:120-144 | a negotiate starts the next generation exactly if the route is neither closed nor ready and no promise is shared, a timer exactly if it is reconnecting; otherwise nothing changes |
| RouteHandshake.SharedUntilSettled | src/components/abmind-route-controller.ts:139-142 | the shared promise is forgotten exactly when it is the one that settled |
| RouteHandshake.DeliveredExactly | src/components/abmind-route-controller.ts:282-290 | a message reaches the owner exactly if it came on the current socket with no control exchange pending |
| RouteHandshake.ClosesExactly | src/components/abmind-route-controller.ts:169-196 | close leaves the route closed without a socket, and rejects exactly the promise in progress |
| RouteProtocol.MessagesDecide | src/components/abmind-route-controller.ts:429-524 | during authentication the acknowledgement passes it and an unsignable challenge fails it; during the control exchange the response of that generation settles it; no other message changes the phase |
| RouteFields.ReadyMeansNegotiated | src/components/abmind-route-controller.ts:112-118 | ready exactly with capabilities, negotiated generation, a socket of the current generation, everReady, no timer |
| RouteFields.StatesMatch | src/components/abmind-route-controller.ts:71-91 | in each well-formed state the public state, the reason and the armed delay are those of the phase |
| RouteFields.ProgressIsEnabled | src/components/abmind-route-controller.ts:240-309 | an unsettled establishment always has a due event that can happen and that settles it or brings it strictly nearer |
| RouteProtocol.StepBringsOn | src/components/abmind-route-controller.ts:240-320 | no event sets a negotiation in progress back; a due one settles it or brings it strictly nearer |
| RouteProtocol.SettlesWithinFive | src/components/abmind-route-controller.ts:198-322 | an establishment settles at the latest with its fifth due event, whatever else happens in between |
| RouteFields.DisabledIsIgnored | src/components/abmind-route-controller.ts:240-320 | what the runtime cannot deliver, the automaton ignores, so arbitrary schedules cover all real ones |
| RouteController.Drive | src/components/abmind-route-controller.ts:84-400 | the class fed any schedule is in the state of the automaton's run on that schedule |
| RouteController.RouteController.IsReady | src/components/abmind-route-controller.ts:112-118 | true exactly in the ready phase with an open socket, and then negotiated on that socket |
| RouteController.RouteController.Negotiate | src/components/abmind-route-controller.ts:120-144 | closed and ready answer at once, concurrent calls share one promise, otherwise one new generation |
| RouteController.RouteController.Close | src/components/abmind-route-controller.ts:169-196 | the whole close step: pending control dropped, active establishment rejected, sockets gone |
| RouteController.RouteController.Send | src/components/abmind-route-controller.ts:159-167 | true exactly when ready, open and accepted, and then over a socket negotiated in this generation |
| RouteController.RouteController.Fail | src/components/abmind-route-controller.ts:213-237 | settles once; a stale or closed failure only rejects; transient plans a reconnect, terminal becomes unavailable |
| RouteController.RouteController.LoseRoute | src/components/abmind-route-controller.ts:324-352 | leaves the generation, rejects what is unsettled, publishes the loss, plans a reconnect |
| RouteController.RouteController.ScheduleReconnect | src/components/abmind-route-controller.ts:364-390 | no second timer, no timer when closed, exhausted before the first ready, otherwise armed for the next attempt with the backoff of that attempt |
| RouteController.RouteController.Establish | src/components/abmind-route-controller.ts:198-238 | opens the next generation and registers its establishment and shared promise |
| RouteController.RouteController.OnSocketOpen | src/components/abmind-route-controller.ts:240-257 | stale opens are ignored, a pin mismatch is terminal, otherwise authentication starts |
| RouteController.RouteController.OnSocketMessage | src/components/abmind-route-controller.ts:282-290 | both listeners of one socket, in order, against the automaton's message step, and which phase each message leads to |
| RouteController.RouteController.HandleControlMessage | src/components/abmind-route-controller.ts:497-524 | only the response to the pending control settles it, resolved or rejected |
| RouteController.RouteController.OnSocketClose | src/components/abmind-route-controller.ts:292-309 | close of old, unconnected and connected sockets, against the automaton's close step |
| RouteController.RouteController.OnSocketError | src/components/abmind-route-controller.ts:311-320 | only an error before the connection counts, as a transient failure |
| RouteController.RouteController.OnAuthSettled | src/components/abmind-route-controller.ts:257-279 | continuation of authenticate, stale or current |
| RouteController.RouteController.OnAuthTimeout | src/components/abmind-route-controller.ts:402-460 | the handshake timeout rejects authentication of its own socket only |
| RouteController.RouteController.OnControlSettled | src/components/abmind-route-controller.ts:260-276 | continuation of the control exchange: ready with callbacks, or negotiation_failed |
| RouteController.RouteController.OnControlTimeout | src/components/abmind-route-controller.ts:480-484 | the control timeout clears the pending control, which is its own |
| RouteController.RouteController.OnReconnectTimer | src/components/abmind-route-controller.ts:380-389 | the timer opens the next generation and shares its promise |
| RouteController.RouteController.OnSharedSettled | src/components/abmind-route-controller.ts:139-142 | the shared promise is forgotten only if it is still the one that settled |
| OutboxRuns.AppendedRequestSurvives | src/components/abmind-request-outbox.ts:131-152 | once append returned true, and until its id is removed, after any careful history an entry in memory or on disk has the request's id, method, request id, key, body, version and payload, was created at that moment, has its deadline retryDeadlineMs later, and counts exactly the recorded retries |
| OutboxAnswers.AppendStores | src/components/abmind-request-outbox.ts:131-152 | after a true answer the last entry, in memory and on disk, has every field of the request, admitted now with no attempt, and the others are as they were |
| OutboxAnswers.AppendAnswers | src/components/abmind-request-outbox.ts:131-152 | true exactly if neither quarantined nor degraded, fewer than 200 entries, the entry within 524288 bytes, the file within 10000000 and written; false changes no entry, and degrades exactly if it was the file |
| OutboxAnswers.MoveStores | src/components/abmind-request-outbox.ts:171-209 | which fields of the first entry of that id a successful transition changes, in memory and on disk, and that no other entry changes |
| OutboxAnswers.MoveAnswers | src/components/abmind-request-outbox.ts:171-209 | a transition is true exactly if such an entry is in a state that allows it, its next attempt is a time, and the file is small enough and written; refused it changes nothing |
| OutboxAnswers.AcknowledgeAnswers | src/components/abmind-request-outbox.ts:212-219 | true for an unknown id; otherwise exactly if the file without that entry is written, and then it is gone |
| OutboxAnswers.PrunesExactly | src/components/abmind-request-outbox.ts:261-281 | an entry leaves exactly if it is terminal-unknown and older than thirty days or has fifty younger such ones before it |
| OutboxAnswers.LoadDemands | src/components/abmind-request-outbox.ts:81-104 | what a current file must satisfy to be taken over, in numbers |
| OutboxAnswers.RestartMeans | src/components/abmind-request-outbox.ts:391-405 | what was in flight waits for a retry due at once until its deadline; every other entry is as stored |
| OutboxAnswers.DueExactly | src/components/abmind-request-outbox.ts:159-168 | when an entry of each state may be sent |
| OutboxJson.EntryIsItsText | src/components/abmind-request-outbox.ts:106-108 | the size an entry is bounded by is the number of UTF-8 octets of its JSON text |
| OutboxJson.EntryV1IsItsText | src/components/abmind-request-outbox.ts:46-58 | likewise for an entry of the first format |
| OutboxJson.EntriesAreTheirText | src/components/abmind-request-outbox.ts:323-371 | the size of an array that load checks is the length of its JSON text, elements that are no entries included |
| OutboxJson.FileIsItsText | src/components/abmind-request-outbox.ts:416-427 | the size a file is bounded by is the number of UTF-8 octets of its JSON text |
| OutboxJson.StringReadsBack | src/components/abmind-request-outbox.ts:416-427 | any text written as a JSON string is read back, whatever follows it |
| Utf8.BytesAreEncoded | src/components/abmind-request-outbox.ts:106-108 | a strict UTF-8 reader gives the text back from its encoding, whose length is the byte count used everywhere |
| OutboxRuns.EntriesSurvive | src/components/abmind-request-outbox.ts:131-434 | over operations, failed writes, crashes and restarts an entry keeps request and deadline, gains exactly its recorded retries, and stays terminal-unknown once it is |
| OutboxRuns.MemoryAndDiskAgree | src/components/abmind-request-outbox.ts:171-219 | after any history from any disk, memory and disk have the same delivery fields once crash-normalised, if and only if no retry was torn since the last landed write and restart |
| OutboxRuns.AgreeAfterOperation | src/components/abmind-request-outbox.ts:131-281 | an operation keeps memory and disk in agreement if and only if it is no retry of a live entry with a next attempt that is no time |
| OutboxRuns.TornRetryDisagrees | src/components/abmind-request-outbox.ts:184-196 | one stored entry, one such retry: memory counts an attempt the disk does not |
| OutboxRuns.RollbackRestores | src/components/abmind-request-outbox.ts:171-219 | a failed write restores every delivery field, though not the diagnostics |
| OutboxRuns.AppendedFileLoads | src/components/abmind-request-outbox.ts:81-152 | after a successful append the file loads if and only if the id was new, the names are valid and the deadline is not before creation |
| OutboxRuns.TransitionFileLoads | src/components/abmind-request-outbox.ts:171-209 | after a successful transition the file loads if and only if the entry as it was, with the bookkeeping this operation adds, is within the bound |
| OutboxRuns.AdmittedYetNotReloadable | src/components/abmind-request-outbox.ts:146-146 | a request admitted and sent durably whose file the restart quarantines |
| OutboxRuns.BookkeepingIsBounded | src/components/abmind-request-outbox.ts:106-108 | how much room delivery bookkeeping can take |
| OutboxRuns.SafeDiskOpens | src/components/abmind-request-outbox.ts:370-405 | a file of safe entries is never quarantined and loads as its crash normalisation |
| OutboxRuns.QuarantinedNeverWrites | src/components/abmind-request-outbox.ts:131-281 | a quarantined outbox changes neither memory nor disk |
| OutboxRuns.QuarantinePreserves | src/components/abmind-request-outbox.ts:407-414 | corrupt or foreign content is kept in place or moved aside, never overwritten |
| OutboxRuns.MigrationKeepsDeadlines | src/components/abmind-request-outbox.ts:322-368 | first-format entries keep their request and their attempts; the deadline follows creation; expired ones become terminal-unknown by timeout |
| OutboxRuns.MigratedFileLoads | src/components/abmind-request-outbox.ts:322-368 | a migrated file loads again if and only if every migrated entry is within the bound and its times satisfy the current format |
| OutboxReload.ReadableExactlyIfHarmless | src/components/abmind-request-outbox.ts:131-434 | in every history from a readable file the file stays readable throughout if and only if each event was harmless: it wrote nothing, or its condition on the state before it held |
| OutboxReload.WrittenFileLoads | src/components/abmind-request-outbox.ts:131-281 | for each of the six operations: the file it writes loads if and only if a condition on the entries before it holds |
| OutboxReload.RemovalFileLoads | src/components/abmind-request-outbox.ts:211-281 | acknowledging and pruning entries that would load leaves a file that loads |
| OutboxReload.NormalisedFileLoads | src/components/abmind-request-outbox.ts:391-405 | the file that load writes after normalising loads again if and only if no in-flight entry without a next attempt is at the bound |
| OutboxReload.TakenOverOnceOnly | src/components/abmind-request-outbox.ts:386-405 | a request whose file one restart takes over and the next quarantines |
| OutboxReload.QuarantinedExactly | src/components/abmind-request-outbox.ts:285-368 | load quarantines exactly unreadable files and those it fails to migrate |
| OutboxRuns.SecondSendIsRefused | src/components/abmind-request-outbox.ts:170-181 | after a successful markInFlight, and without a recorded retry or a restart since, every further markInFlight of that id is refused |
| OutboxRuns.RemovedStaysAway | src/components/abmind-request-outbox.ts:211-219 | a removed id stays absent from memory and disk in every later history that does not admit it anew |
| OutboxRuns.AcknowledgedIsAbsent | src/components/abmind-request-outbox.ts:211-219 | a successful acknowledge leaves the id neither in memory nor on disk |
| OutboxRuns.PruningKeepsTheRecent | src/components/abmind-request-outbox.ts:260-281 | pruning leaves at most 50 terminal-unknown entries, none too old, and every other entry |
| OutboxRuns.TransitionRewritesOne | src/components/abmind-request-outbox.ts:170-209 | a transition touches the delivery fields of one entry; attempts grow by one exactly for retries; terminal-unknown is never left |
| RequestOutbox.ScanV1 | src/components/abmind-request-outbox.ts:322-361 | the loop accepts exactly valid, distinct, bounded entries and migrates them |
| RequestOutbox.ScanV2 | src/components/abmind-request-outbox.ts:370-390 | the loop accepts exactly valid, distinct, bounded entries |
| RequestOutbox.RequestOutbox.constructor | src/components/abmind-request-outbox.ts:118-124 | opening any disk gives the specified memory and disk |
| RequestOutbox.RequestOutbox.Load | src/components/abmind-request-outbox.ts:285-320 | missing, corrupt, foreign, old and current files |
| RequestOutbox.RequestOutbox.MigrateV1 | src/components/abmind-request-outbox.ts:362-368 | migrated entries are written before use, or everything is quarantined |
| RequestOutbox.RequestOutbox.ValidateV2 | src/components/abmind-request-outbox.ts:391-405 | in-flight entries are normalised, written if possible, and returned either way |
| RequestOutbox.RequestOutbox.Checkpoint | src/components/abmind-request-outbox.ts:416-434 | the file becomes the entries or stays as it was, and a failure degrades |
| RequestOutbox.RequestOutbox.Append | src/components/abmind-request-outbox.ts:131-152 | admission guards, then durable or rolled back; if true, the entries are the earlier ones and one with every field of the request |
| RequestOutbox.RequestOutbox.MarkInFlight | src/components/abmind-request-outbox.ts:171-181 | durable before a send, or rolled back with lastAttemptAt unset |
| RequestOutbox.RequestOutbox.MarkRetryWait | src/components/abmind-request-outbox.ts:184-196 | one more attempt recorded durably, or everything restored, or, with a next attempt that is no time, three fields changed in memory and a throw |
| RequestOutbox.RequestOutbox.MarkTerminalUnknown | src/components/abmind-request-outbox.ts:199-209 | terminal durably, or rolled back with lastFailure unset |
| RequestOutbox.RequestOutbox.Acknowledge | src/components/abmind-request-outbox.ts:212-219 | removed durably, or put back in its place |
| RequestOutbox.RequestOutbox.PruneTerminalUnknown | src/components/abmind-request-outbox.ts:261-281 | the keep/drop loop and its durable removal |
| RequestOutbox.RequestOutbox.PeekDue | src/components/abmind-request-outbox.ts:159-168 | null exactly if nothing is due; otherwise the earliest-created due entry, the first among equals, before its deadline |
| RequestOutbox.RequestOutbox.CountEntries | src/components/abmind-request-outbox.ts:227-243 | counts partition the entries; the least next attempt of the non-terminal ones |
| BootDispatcher.RunBoot | src/boot/boot-graph.ts:22-80 | on nodes that a rank orders, equal names included, every wake-up and completion order ends, with one body started for each name, the one final report, every promise settled, every run started at most once and exactly for ok or failed, and each start after the ok of every required and the end of every known optional dependency |
| BootDispatcher.BootAcyclic | src/boot/boot-graph.ts:22-80 | no rank need be given: if no cycle goes through any of the nodes, the report has for each node ok exactly if all it transitively requires is known and healthy, failed exactly if only the node itself is not, skipped and blocked by d exactly if d is its first trouble and leads to no culprit, and nothing exactly if it leads to one |
| BootDispatcher.DetectAndBoot | src/boot/boot-graph.ts:22-109 | with distinct names the detector's null, which is given exactly for acyclic graphs, is all the boot needs for that report |
| BootEqualNames.EqualNamesCanHang | src/boot/boot-graph.ts:25-71 | four nodes with an equal name, no cycle by the detector, and a boot that never ends |
| BootDispatcher.RequiredFailureLeavesNoEntry | src/boot/boot-graph.ts:36-63 | a node behind a failed required one has no entry, on a concrete graph |
| BootDispatcher.NobodyWaitsForever | src/boot/boot-graph.ts:29-71 | while a promise is unsettled something can still step |
| BootDispatcher.SettledMeansFinal | src/boot/boot-graph.ts:57-79 | once all are settled the report is the recursive verdict of the graph |
| BootDispatcher.Dispatcher.Advance | src/boot/boot-graph.ts:29-71 | whatever can happen next to a node brings it nearer its end; every other task already there stays as it was |
| BootDispatcher.Dispatcher.Resolve | src/boot/boot-graph.ts:29-69 | memoised resolution: a second call changes nothing, a first one starts only what the rank puts below |
| BootDispatcher.Dispatcher.ContinueBody | src/boot/boot-graph.ts:31-66 | the body from one dependency on to its next await, before the memo entry is stored |
| BootDispatcher.Dispatcher.Wake | src/boot/boot-graph.ts:36-50 | after an await: rejection, skip with the blocking name, or the next dependency |
| BootDispatcher.Dispatcher.RunSettled | src/boot/boot-graph.ts:54-65 | success, failure of an optional node, failure of a required one |
| BootDispatcher.Dispatcher.Drain | src/boot/boot-graph.ts:71-71 | any order of steps comes to an end at which nothing can step |
| BootGraph.OkExactlyIfAllNeedsHealthy | src/boot/boot-graph.ts:33-65 | a node ends ok if and only if all it transitively requires is known and healthy |
| BootGraph.VerdictIsIndependent | src/boot/boot-graph.ts:33-65 | outcomes outside the required closure never change a node's verdict |
| BootGraph.NoEntryExactly | src/boot/boot-graph.ts:33-65 | a node has no entry if and only if its first trouble leads, first trouble by first trouble, to an unknown name or a failed node that is not optional; likewise when its promise is rejected |
| BootGraph.FailedAndSkippedExactly | src/boot/boot-graph.ts:33-65 | failed exactly if all required dependencies are fine and the node is not healthy; skipped by d exactly if d is its first trouble and leads to no culprit |
| BootGraph.BodiesAreRanked | src/boot/boot-graph.ts:25-71 | resolving in order starts one body for every name, along whose dependencies the rank falls |
| BootGraph.DistinctMerged | src/boot/boot-graph.ts:83-109 | with distinct names the detector's verdict is about all the nodes |
| BootGraph.VerdictIgnoresRank | src/boot/boot-graph.ts:33-65 | the verdict does not depend on the order used to justify the recursion |
| BootGraph.ByNameFindsEach | src/boot/boot-graph.ts:25-25 | with distinct names the map holds each node |
| CycleDetector.DetectCycle | src/boot/boot-graph.ts:83-109 | null if and only if the graph over both kinds of dependency is acyclic; otherwise a real path whose last name occurred before |
| CycleDetector.CycleDetector.Dfs | src/boot/boot-graph.ts:88-102 | the search returns a closing path or finishes its node after all its dependencies |
| CycleDetector.FinishingRanks | src/boot/boot-graph.ts:88-102 | the finishing order is a rank |
| Text.JoinSplit | src/boot/env-secret-migration.ts:76-99 | splitting a file into lines and joining gives the file |
| Text.SplitJoin | src/boot/env-secret-migration.ts:225-231 | joined lines split into the same lines |
| Dotenv.ParseDotenvLines | src/boot/env-secret-migration.ts:76-99 | each line is an assignment of a value to a name exactly if it reads so, and nothing is lost: the raw lines joined are the file |
| Dotenv.ReadsExactly | src/boot/env-secret-migration.ts:78-96 | a line is parsed as an assignment of that value to that name if and only if it is the name, an equals sign and the value, plain or inside equal quotes, with white space around |
| Dotenv.ParsesAssignment | src/boot/env-secret-migration.ts:84-96 | for every environment name, white space around and text without white space at its ends, the value is the text, or its inside if equal quotes enclose it |
| Dotenv.OtherExactly | src/boot/env-secret-migration.ts:79-88 | a line is no assignment if and only if no environment name precedes its first equals sign; blank lines and comments never are |
| Dotenv.SecretNamesExactly | src/boot/env-secret-migration.ts:66-69 | a credential name is an environment name with one of five suffixes |
| Text.SpaceExactly | src/boot/env-secret-migration.ts:79-79 | which characters trimming removes |
| Text.TrimsAround | src/boot/env-secret-migration.ts:79-90 | trimming removes exactly the white space around a text |
| SecretMigration.NeverLosesCredential | src/boot/env-secret-migration.ts:162-223 | after any prefix of decisions and, after all of them, any set of rewrites: a readable secret, or all source lines still there |
| SecretMigration.DecisionsMatchTheStore | src/boot/env-secret-migration.ts:162-223 | what each outcome means for the values, the store before and the store after |
| SecretDecisions.OutcomesExactly | src/boot/env-secret-migration.ts:162-223 | for every key not skipped, each of the five outcomes exactly when: from which values the files assign, what the store has, and what throws |
| SecretDecisions.StoresWhatIsWritten | src/boot/env-secret-migration.ts:183-194 | a migrated key is stored with the text that stands on its line in a file, without quotes and white space around |
| SecretDecisions.CollectedIsWritten | src/boot/env-secret-migration.ts:128-143 | the values collected for a key are exactly those that some line of some file assigns to it |
| SecretDecisions.RemovedExactly | src/boot/env-secret-migration.ts:183-222 | the lines that leave the files are those of keys migrated or kept |
| SecretMigration.OtherSlotsUntouched | src/boot/env-secret-migration.ts:183-194 | only keys decided migrated change their slot |
| SecretMigration.RewrittenReadsBack | src/boot/env-secret-migration.ts:225-231 | a rewritten file parses to the original lines minus exactly the removed ones, in order |
| SecretMigration.KeptLinesAreKept | src/boot/env-secret-migration.ts:225-231 | a line stays exactly if it is no assignment of a removed key |
| SecretMigration.SecondRunOnlyRepeatsRejections | src/boot/env-secret-migration.ts:121-240 | run again on its own results: nothing committed, nothing rewritten, exactly the rejections repeated |
| SecretRecovery.SecondRunRecovers | src/boot/env-secret-migration.ts:162-240 | from every crash point the second run ends with the store of an uninterrupted one, and each file the same if and only if it was rewritten before or no removed key in it has lost all its values |
| SecretRecovery.EmptyAssignmentStaysBehind | src/boot/env-secret-migration.ts:167-169 | an empty assignment that a crash between two rewrites leaves for good |
| SecretRecovery.DecisionAfterCrash | src/boot/env-secret-migration.ts:162-223 | the decision on each key after a crash: rejections repeat, committed keys are not migrated again |
| SecretMigration.PlanFacts | src/boot/env-secret-migration.ts:162-223 | one decision per credential key, present exactly if the matrix yields one |
| SecretMigration.KeysOfAreSorted | src/boot/env-secret-migration.ts:138-162 | the keys are the assigned credential names, sorted |
| SecretMigration.SortedIsUnique | src/boot/env-secret-migration.ts:162-162 | sorting leaves no choice of order |
| EnvBoot.RunSecretMigration | src/boot/env-secret-migration.ts:121-240 | the whole pass, with commits interleaved, equals the plan made against the store as it was; a migrated key holds any non-empty value the files assign to it |
| EnvBoot.GroupByKey | src/boot/env-secret-migration.ts:128-143 | per key the values in order over all files, and the sorted keys |
| EnvBoot.DecideKey | src/boot/env-secret-migration.ts:176-222 | the matrix, with the commit where and only where it says migrated |
| EnvBoot.DecideKeys | src/boot/env-secret-migration.ts:162-223 | decisions, store, keys to unset and committed keys after the loop |
| EnvBoot.RewriteFiles | src/boot/env-secret-migration.ts:225-237 | exactly the touched files, rewritten, with the keys removed from each |
| EnvBoot.EnvBoot.ApplyRewrites | src/boot/env.ts:103-115 | rewrites in order, failures suppress their keys, and no credential is lost at any point of the loop |
| EnvBoot.EnvBoot.ReloadSecrets | src/boot/env.ts:145-158 | readable secrets enter the environment, never over an operator's value |
| EnvBoot.EnvBoot.Unset | src/boot/env.ts:163-168 | suppressed keys leave the environment unless the operator set them |
| EnvBoot.EnvBoot.Boot | src/boot/env.ts:61-168 | nothing lost; operator values untouched; rejected, uncleaned or unreadable-source keys unusable; cleaned keys hold the stored value; exactly which names are in the environment afterwards, and with which value |
| EnvBoot.EnvBoot.BootAborted | src/boot/env.ts:86-101 | when planning throws after any number of keys: nothing rewritten, nothing lost, every credential assigned in the files unusable |
| EnvBoot.ScanForKeys | src/boot/env.ts:93-99 | the fallback scan misses no credential assignment the parser sees |
| EnvBoot.NothingLostWith | src/boot/env.ts:103-115 | with any set of rewrites written, every credential is stored or fully present |
| SealedGreeting.RepliesAnswerFromHello | src/cli/abtars-sealed-mcp.ts:76-153 | from the fresh session, with hellos, timers, calls and chunks in any order: nothing is answered before the acknowledgement, and from then on the k-th reply answers the k-th call if and only if every reply was solicited and a record; the k-th answer then tells what the k-th reply says |
| SealedGreeting.FirstWordSettles | src/cli/abtars-sealed-mcp.ts:95-107 | an awaited authentication is settled by the first frame that says anything about one: a greeting authenticates, a refusal or an error fails it, a null ends the process |
| SealedGreeting.IdleLeavesAwaited | src/cli/abtars-sealed-mcp.ts:95-107 | frames that say nothing about an authentication are consumed and change nothing else |
| SealedGreeting.UnawaitedIgnored | src/cli/abtars-sealed-mcp.ts:95-107 | with no authentication awaited every frame is consumed and none changes anything, but one too large |
| SealedGreeting.AuthenticationCycle | src/cli/abtars-sealed-mcp.ts:136-153 | concurrent requests share one authentication, its own timer fails it, and then another can be awaited |
| SealedGreeting.StaleTimeoutStalls | src/cli/abtars-sealed-mcp.ts:138-153 | a refused hello, a second one, and the first one's timer leave an authentication nothing can settle |
| SealedGreeting.StalledExactly | src/cli/abtars-sealed-mcp.ts:136-153 | an authentication is left that nothing can settle if and only if an earlier one's timer fired while it was awaited |
| SealedGreeting.StalledForever | src/cli/abtars-sealed-mcp.ts:136-153 | such a proxy never authenticates, whatever the host sends |
| SealedProxy.RepliesAnswerInOrder | src/cli/abtars-sealed-mcp.ts:76-133 | for any chunking and interleaving the k-th reply answers the k-th call, the rest stay queued, and the process dies exactly if a frame is too large, if and only if the host never replied more often than called, nor with null; the k-th answer is a result with its text or JSON exactly if that reply says ok and has one, and otherwise a failure with the text of its error or the fixed one |
| SealedProxy.AnswerMeans | src/cli/abtars-sealed-mcp.ts:110-116 | what a reply becomes for the agent: result or failure, and with which text; the relation leaves no choice |
| SealedProxy.DrainStops | src/cli/abtars-sealed-mcp.ts:108-116 | one pass that comes upon a reply without a call or a null: what it has answered, what stays queued and buffered, and that only a null ends the process |
| SealedProxy.DrainAnswersReplies | src/cli/abtars-sealed-mcp.ts:79-121 | the new answers of any pass are those to its first replies and calls, one for one |
| SealedProxy.ReceivedFrame | src/cli/abtars-sealed-mcp.ts:86-94 | a frame is a reply exactly if it is neither blank nor malformed and no frame up to it exceeds 65536 octets |
| SealedProxy.ChunkingIsInvisible | src/cli/abtars-sealed-mcp.ts:79-121 | the same bytes and calls give the same answers and the same fate |
| SealedProxy.UnsolicitedReplyMisleads | src/cli/abtars-sealed-mcp.ts:108-109 | two chunkings of the same bytes after an unsolicited reply give different answers |
| SealedProxy.OnlyAnAckAuthenticates | src/cli/abtars-sealed-mcp.ts:95-107 | without calls nothing is answered, and only an acknowledgement of a pending hello authenticates |
| SealedProxy.DrainAnswers | src/cli/abtars-sealed-mcp.ts:81-121 | one pass over a buffer of solicited replies |
| SealedProxy.DrainTakes | src/cli/abtars-sealed-mcp.ts:81-121 | one pass over any buffer: which whole frames it consumes, and fewer answers than replies once one is unsolicited |
| SealedProxy.Converse | src/cli/abtars-sealed-mcp.ts:79-133 | the class driven by any calls and chunks is in the state the conversation theorems describe |
| SealedProxy.Proxy.OnData | src/cli/abtars-sealed-mcp.ts:79-121 | the handler's loop with its early returns leaves the specified session; its new answers tell what the replies in the buffer say, one for one, and there are none before authentication |
| RateLimiter.EveryWindowIsBounded | src/components/agent-api-rate-limit.ts:10-32 | a log in which every call found room, whatever the clock did, has no window above the limit |
| RateLimiter.KeptShowsTheWindow | src/components/agent-api-rate-limit.ts:19-30 | the pruned list shows a window as the whole log does if and only if no call in it was pruned by a look at a later time, and less otherwise |
| RateLimiter.SetBackOverflows | src/components/agent-api-rate-limit.ts:12-31 | a clock set back by a day lets three calls into an hour that allows two |
| RateLimiter.RetryAfterIsExact | src/components/agent-api-rate-limit.ts:22-27 | the window has room again exactly when the reported wait has passed, if no call intervenes |
| RateLimiter.RateLimiter.CheckRateLimit | src/components/agent-api-rate-limit.ts:10-32 | whatever the clock says: admitted if and only if both lists left by this caller's earlier looks have room, other callers unaffected, the wait reported; with no call lost, admitted if and only if fewer calls than allowed were admitted in the last hour and in the last day |
| RateLimiter.WindowsBoundedExactly | src/components/agent-api-rate-limit.ts:10-32 | no window, wherever it ends, is over the limit if and only if no admission found more calls lost in one than room |
| RateLimiter.ShownAndLost | src/components/agent-api-rate-limit.ts:19-30 | in every window, calls shown and calls lost are all the calls |
| RateLimiter.LogCounts | src/components/agent-api-rate-limit.ts:19-20 | the length of a window is the number of admissions later than its beginning |
| RateLimiter.NothingLostCounts | src/components/agent-api-rate-limit.ts:19-30 | with no call of a window lost, the pruned list counts its admissions |
| RateLimiter.RateLimiter.NoHourOverflows | src/components/agent-api-rate-limit.ts:10-32 | in every reachable state, no hour of any caller is over its limit if and only if no admission found more calls lost than room; and so it is if none was lost |
| RateLimiter.RateLimiter.NoDayOverflows | src/components/agent-api-rate-limit.ts:10-32 | likewise for a day |
| RateLimiter.SteadyNeverLost | src/components/agent-api-rate-limit.ts:12-20 | a clock that is never set back loses no call |
| RateLimiter.RateLimiter.HourlyWaitIsExact | src/components/agent-api-rate-limit.ts:22-24 | in every reachable state, with a clock never set back, the wait of an hourly denial is exact |
| ShellQuoting.BuildTmuxTokens | scripts/remote-swarm-live-e2e.ts:149-165 | rejects exactly on an unacceptable argument; otherwise unquoted tokens are the arguments themselves, quoted ones stand in quotes, and the joined line reads back as the argument list |
| ShellQuoting.LineReadsBack | scripts/remote-swarm-live-e2e.ts:144-165 | splitting and quote removal of the joined tokens give the original arguments |
| ShellQuoting.ReadsEscaped | scripts/remote-swarm-live-e2e.ts:122-124 | any text survives single-quote escaping, whatever follows |
| ShellQuoting.SafeIsLiteral | scripts/remote-swarm-live-contracts.ts:45-45 | no safe character is special to a shell |
| ShellQuoting.SafeExactly | scripts/remote-swarm-live-contracts.ts:45-45 | the safe characters are the visible ASCII ones but 21 |
| ShellQuoting.AcceptedExactly | scripts/remote-swarm-live-contracts.ts:569-571 | quoted, every text of 1 to 16384 characters is accepted; unquoted, of 1 to 2048 safe ones |
| ShellQuoting.ReadsToken | scripts/remote-swarm-live-contracts.ts:569-571 | a token, quoted or safe, reads as one word |
| DrainPeers.SelectDrainPeers | src/boot/heartbeat-tier3.ts:26-39 | the selected peers, never more than the budget and none of its named places missing, and a next cursor below twice their number |
| DrainPeers.EveryNamedPeerIsReached | src/boot/heartbeat-tier3.ts:26-39 | every named peer is selected in the end from every cursor if and only if no stretch as long as the budget is without a name, and then within as many ticks as there are places |
| DrainPeers.EmptyNameBlocks | src/boot/heartbeat-tier3.ts:34-38 | two places, the first without a name, a budget of one: the cursor never moves |
| DrainPeers.FairShare | src/boot/heartbeat-tier3.ts:26-39 | without an empty stretch everyone named is taken within n ticks; with all named each tick takes min(n, budget) and ceil(n / min) ticks are enough |
| DrainPeers.RunTicks | src/boot/heartbeat-tier3.ts:292-311 | any number of ticks over any peers, each storing its cursor for the next: the selections, and everyone named selected in time unless a stretch is empty |
| DrainPeers.TickSelectsDistinctPlaces | src/boot/heartbeat-tier3.ts:34-37 | one tick never takes a place twice |
| DrainPeers.TicksAreAdjacent | src/boot/heartbeat-tier3.ts:292-311 | with the cursor fed back, tick t starts where t full intervals end |
| DrainPeers.SelectedIsInterval | src/boot/heartbeat-tier3.ts:34-37 | with no empty name the selection is the cyclic interval from the start |

## Left out

- Route controller: `new WebSocket` throwing, callbacks that call back into the controller or throw, the `connectDelay` override, `snapshot`, and logging; pin checks, signatures and capability parsing are free outcomes.
- Route controller: request ids of control exchanges are named by their generation, so two exchanges never share an id.
- Outbox: an existing file that cannot be read is taken as an empty outbox (lines 287-291); reads of an existing file are assumed to succeed here.
- Outbox: except for the next attempt of a retry, times are integer milliseconds printed as four-digit-year ISO stamps, so comparing the strings is comparing the numbers; version and attempts are unbounded naturals; the length of a method name is counted in characters, and lone surrogates do not occur.
- Outbox: `get` and `peekDue` return values; a caller that mutates the returned object is not modelled. Unknown extra fields of a current-format entry are not modelled.
- Outbox: the pump that drives it, `isExhausted` and `terminalUnknownRecords`; no bound on sends is claimed, since `markRetryWait` does not enforce the attempt limit.
- BootEqualNames.EqualNamesCanHang: is one instance; boots of lists in which some node of an equal name closes a cycle are not otherwise modelled, since some of them hang and some do not.
- Boot graph: the copy into `phaseHealth`, durations, error texts and logging; other boot phases.
- Migration: file names in `sources` and reason texts, a commit that fails after a partial write, and the later cleanup of `<secret>` lines.
- Sealed proxy: sending frames to the host, the requests that are answered without the host, and JSON itself, which is a free parser; a call made before authentication is not forwarded in the model until its turn has come.
- RateLimiter.RateLimiter.CheckRateLimit: `checkPeerPostLimit` beside it is left out as a single comparison.
- ShellQuoting.LineReadsBack: tilde expansion and leading assignments of unquoted words are not part of the reader; `boundedAppend` is left out as a plain truncation.
- DrainPeers.FairShare: speaks of selection; a tick that runs into its wall-clock deadline drains fewer peers than it selected.
- Live acceptance drivers, field-by-field validators, the watchdog harness and the command-line entry points: network orchestration or one-branch checks.
