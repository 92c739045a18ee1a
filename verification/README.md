# MikroClaw: a Dafny model of its scheduler, its gateway and its text formats

MikroClaw is a small C agent for MikroTik routers. This project models the parts of it whose
correctness is not visible in one function, and proves what they promise.

**The subagent scheduler** (`Scheduler`, `TaskTable`, `TaskQueues`, `Subagents`). A fixed table
of task slots, driven by submit, poll and cancel while the operating system forks and reaps
children. Every micro-step is an event that carries what the system answered (a pid, an exit, a
result file, a clock reading); the classes write the slot array in place and keep a ghost trace,
and `Valid()` says the table is what the state machine makes of that trace. The theorems are about
every trace: conservation and uniqueness (`TaskLedger`), worker bounds, matching of exits to
tasks, and the drain bound (`TaskProgress`), the processes behind the slots (`TaskChildren`), what
series of calls can lead to (`TaskCalls`, `TaskStale`), the story behind every task in the table
(`TaskStory`), and the JSON listing (`TaskListing`).

**The gateway** (`RateLimit`, `RateHistory`, `VisitHistory`, `GatewayAuth`, `GatewayHeaders`,
`Gateways`, `GatewayRuns`). The 128-slot rate limiter refines a map from addresses to client automata, the 16-slot
token table refines the history of issued tokens, and the gate order of `mikroclaw_run` composes
them; a gateway object records every reply. The theorems are temporal: grants per window and per
interval, the time a run of failures takes, and which requests are admitted: those the bearer check
exempts, and those with a token that an earlier reply handed out.

**Printers and scanners** (`Json`, `Channels`, `Inbound`, `RouterOs`, `Base64`, `ApiFraming`, `LlmStream`,
`Allowlist`, `StoragePath`). Buffer-filling methods with exact arithmetic, each against an
independent reading: the string grammar of section 7 of RFC 8259, section 4 of RFC 4648, the
RouterOS word framing, the plain meaning of a comma list or a path.

Conventions. A `char` stands for one byte of the C program; a C string (`CText.CString`) is its
content without the NUL; a `char[N]` buffer is an `array<char>`; `Held` reads the string in a
buffer and `Fit` is what `snprintf("%s")` keeps. `strstr`, `strcmp`, `strlen` and `snprintf` are
taken as their definitions. Slots of a C struct array are values in an array, and a pointer to a
slot is its index. Clock readings, random bytes, `fork` and `waitpid` answers are parameters.

Results that differ from a first reading of the code:

- A cancelled slot keeps its pid, so an exit can be credited to it: `TaskProgress.ReapLandsIff`
  gives the exact condition. `TaskStale.StaleSlotHidesWorker` is a series of submit, cancel and
  poll calls in which a finished child leaves its task RUNNING, although the system never returned
  the pid of an unreported child; then the worker is lost for ever, unless that task is cancelled
  (`TaskChildren.JamLasts`), and that cancellation sends SIGTERM to a pid that is no child. In
  `TaskStale.SignalGoesAstray` it is another task's child by then. `TaskChildren.SignalledIff` says
  when the pid is alive, and whose. When `fork` never returns a pid some slot in use still records,
  every exit lands (`TaskProgress.EveryReapLands`) and only own living children are signalled
  (`TaskChildren.SignalledIsAlive`); while no running task is cancelled the system itself sees to
  that (`TaskChildren.UncancelledReapsLand`).
- The worker limit bounds RUNNING slots, not processes. `TaskCalls.ChildrenUnbounded`: whatever the
  limit, some calls leave as many children alive as there are pids. `TaskChildren.ChildrenCount`:
  the children are as many as the RUNNING slots that are not lost (whose child was not reported in
  vain) and the unreported children of tasks cancelled while they ran, so they stay within the limit
  exactly when these do.
- Identifiers repeat after 2^32 submissions (`TaskLedger.UniqueIff`), and any number is issued by
  some calls (`TaskCalls.IssuedUnbounded`).
- A task's result goes unescaped, and cut, into its status reply: `TaskListing.StatusReadsIff` says
  when the reply carries the task. A result that fills its field never comes back: `TaskListing.FullResultIsLost`.
- One window never grants more than the quota (`RateHistory.WindowQuota`), but an interval of its
  length can grant twice the quota less one, and no more: `VisitHistory.VisitsWindow`,
  `VisitHistory.VisitsMeetBound`. Only for windows of one second the quota is the bound. A
  caller who looked an address up before its first request would get one more:
  `RateHistory.TwoWindowsBound`, `VisitHistory.TwoWindowsBoundIsMet`.
- An accepted storage path can lead above the base, because the name that is opened is cut to 511
  bytes: `StoragePath.CutNameClimbs`, and `StoragePath.BelowBaseIff` for the exact condition.
- The header scanner also finds a field in the request line or in the body
  (`GatewayHeaders.FoundWithoutFieldIff`), and no field spelled in another case
  (`GatewayHeaders.OtherSpellingIsMissed`).
- Under PAIRING_REQUIRED the bearer check exempts the paths `/health` and `/pair` whatever the verb,
  and the task routes are answered before it: `Gateways.AdmittedIffHanded` is the exact condition,
  `Gateways.ExemptPathsAdmitted` the case of POST `/health` and GET `/pair`.
- The "auth locked" reply of `src/mikroclaw.c:408-418` is never given: `VisitHistory.AdmittedIsNotLocked`.
- The channels' scanner does not undo escapes and loses messages that are empty or end in a
  backslash: `Channels.ScannerMeetsPrinter`, `Channels.MessageSurvivesIff`.
- A Basic header over 186 credential bytes is cut or dropped (`RouterOs.HeaderExactIff`), and a user
  name with a colon arrives as another one: `RouterOs.LoginArrivesIff`.
- A streamed value ends at its first quote, escaped or not, and after 511 bytes:
  `LlmStream.StreamIsItsPieces`.
- An empty API word is read as the end of its sentence: `ApiFraming.StreamRoundTripIff`.

Assumptions. The clock is never negative at start and never goes back. `src/gateway_auth.c:157-169`
relies on it: a slot whose random fill failed stays in use with its old expiry. Where a theorem asks
for it (`TaskChildren.Lawful`), `fork` returns neither pid 1, nor the caller's, nor that of an
unreported child, and `waitpid` reports only unreported children.

## Model

| member | source | states |
|---|---|---|
| `TaskQueues.TaskQueue.constructor` | src/task_queue.c:25-41 | all slots free; 100 of them unless a positive size is asked for |
| `TaskQueues.TaskQueue.Add` | src/task_queue.c:51-75 | succeeds exactly for a non-empty type, a non-empty id buffer and a free slot; then the lowest free slot holds the queued task under the next identifier, and nothing else changes |
| `TaskQueues.TaskQueue.Get` | src/task_queue.c:77-88 | the lowest slot in use under the identifier, or none |
| `TaskQueues.TaskQueue.FindByPid` | src/task_queue.c:90-101 | the lowest slot in use recording the pid, or none; none for a pid that is not positive |
| `TaskQueues.TaskQueue.NextQueued` | src/task_queue.c:103-113 | the lowest queued slot, or none |
| `TaskQueues.TaskQueue.CountRunning` | src/task_queue.c:115-128 | the number of running slots |
| `TaskQueues.TaskQueue.Cleanup` | src/task_queue.c:130-150 | frees exactly the terminal slots completed more than `ttl` seconds ago, 300 when `ttl` is not positive |
| `TaskQueues.TaskQueue.ListJson` | src/task_queue.c:156-179 | with three bytes or more the buffer holds the complete listing of the one slot-order prefix its headroom rule admits |
| `TaskListing.ShownIsUnique` | src/task_queue.c:164-178 | the headroom rule determines the prefix shown |
| `TaskListing.ListingReadsBack` | src/task_queue.c:156-179 | a byte-level JSON reader takes the listing as one array whose objects give the tasks' identifiers and statuses in order |
| `TaskTable.IdInjective` | src/task_queue.c:69 | the printed identifier determines counter and process id, and is never cut by its field |
| `TaskTable.IdReads` | src/task_queue.c:69 | an identifier is `task_`, the counter in decimal, `_` and the process id in decimal, at most 31 bytes |
| `TaskTable.CountUpdate` | src/task_queue.c:115-128 | overwriting a slot moves a count by that slot's contribution only |
| `Scheduler.SpawnConsumesOne` | src/subagent.c:23-62 | each spawn, failed or not, takes one task out of QUEUED and adds at most one to RUNNING: the dispatch loop's termination measure |
| `Scheduler.PollPhases` | src/subagent.c:110-157 | a poll is reap all, then dispatch, then expire |
| `Subagents.Subagent.constructor` | src/subagent.c:64-76 | default sizes 4 and 100; an empty trace |
| `Subagents.Subagent.Submit` | src/subagent.c:102-108 | refused without effect, or exactly one submit event whose new identifier is what the caller gets |
| `Subagents.Subagent.SpawnTask` | src/subagent.c:23-62 | failed for an unknown type or a failed fork, running under the child's pid otherwise; one slot changes |
| `Subagents.Subagent.ReapOne` | src/subagent.c:119-144 | one waitpid answer is one reap event of the state machine |
| `Subagents.Subagent.DispatchQueued` | src/subagent.c:146-154 | the loop terminates and performs exactly the dispatch events of the state machine |
| `Subagents.Subagent.Poll` | src/subagent.c:110-157 | one poll is exactly the reap, dispatch and expire events of the state machine; afterwards RUNNING is at most the worker limit, and reaches it or nothing is queued |
| `TaskStory.SubmitOutcome` | src/task_queue.c:51-75 | the lowest free slot gets type, parameters (`{}` for none) and time as submitted, cut to 31 and 1023 bytes, and no other slot changes |
| `TaskStory.DispatchOutcome` | src/subagent.c:23-62 | the lowest queued task runs under the pid `fork` returned if its type is one of the four known, and fails with the reason otherwise; no other slot changes |
| `TaskStory.ReapOutcome` | src/subagent.c:119-144 | the first slot in use under the pid, if running, is COMPLETE exactly for status 0 and a file that begins with 0, FAILED otherwise, with the file's line, the exit's time and no pid; no other slot changes |
| `TaskStory.ExpireOutcome` | src/task_queue.c:130-150 | exactly the terminal slots completed more than 300 seconds before are freed |
| `TaskStory.CancelOutcome` | src/subagent.c:182-197 | the first slot in use under the identifier is CANCELLED at that time, nothing else of it and no other slot changes |
| `TaskStory.CompleteStory` | src/subagent.c:23-144 | over any run, a task found COMPLETE was submitted with what it shows, dispatched to a child, and reported by an exit of that child's pid with status 0 and code 0, whose line and time it shows; between these moments it was QUEUED and RUNNING in its slot |
| `TaskStory.OverStory` | src/subagent.c:23-144 | over any run, a task found COMPLETE or FAILED was decided by an exit of its pid, by whether that succeeded, or failed to start |
| `TaskStory.CancelledStory` | src/subagent.c:182-197 | over any run, a task found CANCELLED was cancelled under its identifier at the time it shows |
| `TaskStory.ExitDecides` | src/subagent.c:119-144 | behind any run with fresh forks, the exit of a running task's child decides that task |
| `TaskStory.PollSweeps` | src/subagent.c:110-157 | behind a poll no task is left that was over for more than 300 seconds; its slot is free, and those over for less are as they were |
| `Subagents.Subagent.Cancel` | src/subagent.c:182-197 | -1 exactly for an unknown identifier; otherwise CANCELLED whatever the status was, and SIGTERM goes to the pid a running task's slot records, which after a lawful run is a child not yet reported if the slot is not lost or forks were fresh |
| `Subagents.Subagent.GetJson` | src/subagent.c:159-173 | -1 exactly without a buffer or for an unknown identifier; otherwise the status text, cut to the buffer, which reads as the task's object exactly when its result has nothing to escape and nothing was cut; a completed task shows the line of an exit in the trace that succeeded |
| `TaskListing.StatusReadsIff` | src/subagent.c:169-171 | the status reply in a buffer of any size is a JSON object with identifier, status and result exactly when the result has nothing to escape and the text fits the buffer |
| `TaskListing.FullResultIsLost` | src/mikroclaw.c:484-503 | a result of 4095 bytes never comes back in the route's 4096-byte reply, whatever its characters |
| `Subagents.Subagent.ListJson` | src/subagent.c:175-180 | in every reachable table the listing is valid JSON for a slot-order prefix of the tasks |
| `Subagents.ReachableSubagent` | src/subagent.c:102-157 | every reachable scheduler object keeps the worker limit and accounts for every identifier once |
| `TaskLedger.StepKeepsInv` | src/subagent.c:23-197 | every step keeps the counter, the identifiers, the pid/status agreement, the expiry records and the worker limit |
| `TaskLedger.RunningNeverExceedsWorkers` | src/subagent.c:146-154 | at no point of any run do more slots RUN than there are workers |
| `TaskLedger.Conservation` | src/task_queue.c:51-150 | in every run, of every identifier: copies in the table plus copies expired equal times issued, even past the counter's wrap |
| `TaskLedger.UniqueIff` | src/task_queue.c:69 | identifiers are pairwise distinct exactly up to 2^32 submissions |
| `TaskCalls.IssuedUnbounded` | src/task_queue.c:65-69 | for every configuration and every n some calls issue n identifiers, distinct exactly when n is at most 2^32 |
| `TaskLedger.NothingLostOrDuplicated` | src/task_queue.c:51-150 | up to 2^32 submissions every issued identifier is in one slot or expired once, and only terminal tasks more than 300 s past completion expire |
| `TaskLedger.FateOnlyAdvances` | src/subagent.c:110-197 | between any two moments of a run a task's fate only advances: unissued, queued, running, complete or failed, cancelled, gone; no reap alters a cancelled task |
| `TaskLedger.AtMostFiveChanges` | src/subagent.c:110-197 | a whole life is at most five changes: issue, three of status, departure |
| `TaskProgress.PollIsWorkConserving` | src/subagent.c:146-156 | after any poll all workers are busy or nothing is queued |
| `TaskChildren.ChildrenCount` | src/subagent.c:110-197 | in every run the children forked and not yet reported are at most the running slots that are not lost plus the unreported children of tasks cancelled while they ran; in every lawful run exactly as many, so they stay within the worker limit if and only if these do |
| `TaskChildren.LostWhen` | src/subagent.c:119-144 | a running slot is lost, its child reported in vain, exactly when a lower slot in use records the pid at that moment |
| `TaskChildren.SignalledIff` | src/subagent.c:190-192 | in every lawful run the pid that is sent SIGTERM is a living child exactly when the slot is not lost or the pid was given to another task's child since; unless lost, a slot shares its child with no other |
| `TaskChildren.SignalledIsAlive` | src/subagent.c:190-192 | with fresh forks no slot is ever lost, so in lawful runs who is sent SIGTERM is a child not yet reported, and not signalled before |
| `TaskCalls.ChildrenUnbounded` | src/subagent.c:102-197 | for every configuration and every n up to 2^31 - 3, the number of pids from 2 on but the caller's, some calls of submit, cancel and poll lead, lawfully and with fresh forks, to n children alive and an empty table |
| `TaskProgress.ReapLandsIff` | src/subagent.c:119-144 | an exit finishes the task running under that pid exactly when no lower slot in use records the pid |
| `TaskStale.StaleSlotHidesWorker` | src/subagent.c:110-197 | for every pid the system may return, a series of calls, lawful throughout, in which a cancelled slot's stale pid keeps another task RUNNING after its child's exit was reported; then nobody is alive, cancelling that task signals its old pid, and without that cancellation the slot never changes and nothing is dispatched again |
| `TaskStale.SignalGoesAstray` | src/subagent.c:182-197 | with two workers or more, a lawful series of calls after which cancelling one task signals the child of another |
| `TaskChildren.JamLasts` | src/subagent.c:119-154 | once every worker is taken and no child is alive, every lawful continuation that cancels none of the running tasks leaves them all unchanged and dispatches nothing |
| `TaskProgress.EveryReapLands` | src/subagent.c:119-144 | when forks are fresh, every exit of a running task's child finishes exactly that task |
| `TaskChildren.UncancelledReapsLand` | src/subagent.c:119-144 | in every lawful run in which no running task is cancelled, forks are fresh, so every exit finishes exactly its task |
| `TaskProgress.PollTakesARound` | src/subagent.c:110-157 | a poll that reaps everything running takes a full round of workers off the queue |
| `TaskProgress.BacklogDrains` | src/subagent.c:119-154 | from every state a run with fresh forks reaches, ceil(q / workers) polls that reap all running children leave none of q tasks queued and one more none running, whichever forks fail |
| `RateLimit.RateLimiter.constructor` | src/rate_limit.c:55-64 | defaults 10, 60, 60; no client tracked |
| `RateLimit.RateLimiter.LookupEntry` | src/rate_limit.c:26-53 | finds the address's client or creates it in a free slot; fails exactly for the empty address or a newcomer to a full table |
| `RateLimit.RateLimiter.AllowRequest` | src/rate_limit.c:70-93 | refines the map: one client changes, and the answer is the automaton's |
| `RateLimit.RateLimiter.RecordAuthFailure` | src/rate_limit.c:95-117 | refines the map: the failure is counted and from the fifth on locks the client for an escalating time |
| `RateLimit.RateLimiter.RecordAuthSuccess` | src/rate_limit.c:119-130 | refines the map: failures and lock are cleared |
| `RateLimit.RateLimiter.IsLocked` | src/rate_limit.c:132-154 | refines the map: the seconds left of a lock, none otherwise |
| `RateLimit.ClientsUpdate` | src/rate_limit.c:26-53 | used slots keep distinct addresses, and rewriting one slot rewrites one entry of the map |
| `RateLimit.ClientsSize` | src/rate_limit.c:26-53 | the map is full exactly when every slot is used |
| `RateHistory.CallIsLocal` | src/rate_limit.c:70-154 | a call changes no other address's client; a newcomer is taken while fewer than 128 are tracked, and a full table refuses him and stays as it is |
| `RateHistory.RunKeepsClients` | src/rate_limit.c:26-53 | over any run tracked addresses only grow and never exceed 128 |
| `RateHistory.GrantKeepsWindow` | src/rate_limit.c:82-92 | counting a request keeps what the open and the previous window say about all grants so far |
| `RateHistory.TwoWindowsBound` | src/rate_limit.c:70-93 | over any run of the limiter's functions, any window-long interval grants an address at most 2 * max_requests, or max_requests for a window of one second, and one grant more spans a window |
| `RateHistory.AskFirstBound` | src/rate_limit.c:70-93 | in windows longer than a second one grant less, over any run in which an address is first met by a request |
| `RateHistory.WindowQuota` | src/rate_limit.c:82-92 | over any run, whatever the clock does, no window of an address grants more than max_requests, its windows do not overlap, and every grant precedes the end of its window |
| `RateHistory.AdmittedIffRoom` | src/rate_limit.c:70-93 | behind any run a request is granted exactly when no lock refuses it and its window is over or has granted fewer than max_requests |
| `VisitHistory.TwoWindowsBoundIsMet` | src/rate_limit.c:86-92 | for any limits with a window of two seconds or more, a run of the limiter's functions that meets its bound |
| `VisitHistory.VisitsAskFirst` | src/mikroclaw.c:397-444 | gateway requests meet a new address only through the admission check |
| `VisitHistory.VisitsWindow` | src/mikroclaw.c:397-404 | over any series of gateway requests, any window-long interval grants an address at most 2 * max_requests - 1, or max_requests for a window of one second |
| `VisitHistory.VisitsMeetBound` | src/mikroclaw.c:397-404 | for any limits, a series of gateway requests that meets that bound |
| `VisitHistory.AdmittedIsNotLocked` | src/mikroclaw.c:397-419 | an admitted request is never seen as locked by the check that follows |
| `VisitHistory.VisitEffect` | src/mikroclaw.c:397-444 | what one gateway request does to its address's client |
| `VisitHistory.LockAfterFailures` | src/rate_limit.c:95-154 | over any series of visits, n failures since the last success, the last at f, refuse a request at x for a lock exactly when n is 5 or more and x < f + lockout * (n - 4), or * 5 from the ninth failure on; the lock check tells the seconds left |
| `VisitHistory.LockoutArithmetic` | src/rate_limit.c:95-117 | k >= 9 failures of one address without a success: the k-th is at least lockout * (10 + 5 (k - 9)) seconds after the fifth |
| `VisitHistory.LockoutIsMet` | src/rate_limit.c:95-117 | a series of gateway requests that keeps exactly that distance, where the window is no longer than the lockout or max_requests is at least k |
| `GatewayAuth.ValidityIsHistory` | src/gateway_auth.c:172-193 | in a faithful table a live slot holds a token exactly when it was issued less than ttl ago |
| `GatewayAuth.IssueKeepsFaith` | src/gateway_auth.c:157-168 | filling a slot that is not live adds exactly the new token to the history, now and at all later times |
| `GatewayAuth.DeadWriteKeepsFaith` | src/gateway_auth.c:157-163 | a failed random fill, or freeing an expired slot, changes no token's validity at any later time |
| `GatewayAuth.TokenTable.Exchange` | src/gateway_auth.c:143-170 | with the right code and working randomness succeeds exactly while fewer than 16 tokens are unexpired; a live token is never overwritten |
| `GatewayAuth.DrawnCharacter` | src/gateway_auth.c:85-105 | character k of a token is the letter or digit that random byte k picks modulo 62 |
| `GatewayAuth.SameTokenIff` | src/gateway_auth.c:85-105 | two draws give the same token exactly when their 95 bytes agree modulo 62 |
| `GatewayAuth.TokenTable.Validate` | src/gateway_auth.c:172-193 | accepts a non-empty token exactly when it was issued less than ttl seconds ago |
| `GatewayHeaders.ExtractHeader` | src/gateway_auth.c:195-236 | copies the header function's value, cut to the buffer |
| `GatewayHeaders.ExtractBearer` | src/gateway_auth.c:238-251 | what follows "Bearer " in the Authorization value |
| `GatewayHeaders.HeaderFound` | src/gateway_auth.c:195-236 | in any CR LF framed request the first field line spelled as the name is found, its value whole but for leading blanks and the buffer's cut |
| `GatewayHeaders.OtherSpellingIsMissed` | src/gateway_auth.c:195-236 | an Authorization field in lower case is not found |
| `GatewayHeaders.FoundWithoutFieldIff` | src/gateway_auth.c:195-236 | in a framed request without a field line for the name, a value is found all the same exactly when the request line or the body starts with the name and a colon, or a line feed in the body is followed by them |
| `GatewayHeaders.BearerFound` | src/gateway_auth.c:238-251 | a token in the first Authorization line is extracted byte for byte, cut to 248 bytes and to the caller's buffer |
| `Gateways.Gateway.Authenticate` | src/mikroclaw.c:421-535 | pairing, task routes and bearer gate decide as the history of issued tokens says |
| `Gateways.Gateway.PassGates` | src/mikroclaw.c:397-535 | rate limit first, then authentication; the limiter's calls grow by exactly the calls of one visit, and the record by the reply |
| `Gateways.Gateway.Handle` | src/mikroclaw.c:378-535 | health routes touch nothing; everyone else is answered by limiter and history, and limiter, token table and recorded replies stay in step |
| `GatewayRuns.FailureCount` | src/mikroclaw.c:421-535 | among the replies to an address, a rejected pairing and an unauthorized request count as failures, a pairing and an admission by token restart the count, every other reply leaves it alone |
| `GatewayRuns.GatewayLock` | src/mikroclaw.c:397-535 | in every reachable gateway these failures decide the lock of every further request, as in `LockAfterFailures` |
| `GatewayRuns.GatewayLockout` | src/mikroclaw.c:397-528 | in every reachable gateway, of k >= 9 replies to one address that rejected a pairing or a token, with neither a pairing nor an admission by token between, the k-th was recorded at least lockout * (10 + 5 * (k - 9)) seconds after the fifth |
| `GatewayRuns.PairedIff` | src/mikroclaw.c:421-445 | in every reachable gateway, a framed POST /pair that was not rate limited gets a token exactly when its X-Pairing-Code, cut to 63 bytes, is the code, 95 random bytes came, and fewer than 16 handed-out tokens are unexpired; it is rejected otherwise |
| `GatewayRuns.PairedToken` | src/gateway_auth.c:85-105 | in every reachable gateway each character of a handed-out token is the one its random byte picks |
| `GatewayRuns.SameTokens` | src/gateway_auth.c:85-105 | in every reachable gateway two replies hand out the same token exactly when their draws agree modulo 62 |
| `Gateways.HandedForCode` | src/mikroclaw.c:421-445 | in every reachable gateway tokens were handed out to pairing requests with the code only |
| `Gateways.GatewayWindow` | src/mikroclaw.c:397-404 | in every reachable gateway: at most the quota in each window of an address, and the bound of `VisitsWindow` in any window-long interval |
| `Gateways.PairThenUse` | src/mikroclaw.c:421-535 | in every reachable gateway, a token any earlier reply handed out, sent as the first Authorization line, gets every later request admitted until it expires, unless the rate limit refuses it |
| `Gateways.AdmittedIffHanded` | src/mikroclaw.c:421-535 | in every reachable gateway, a request that was not rate limited was admitted exactly when it is no pairing and no task route, and no pairing is required, or its path is `/health` or `/pair`, or it carries a token that an earlier reply handed out less than ttl seconds before; task routes are answered without that check |
| `Gateways.ExemptPathsAdmitted` | src/mikroclaw.c:513-535 | under PAIRING_REQUIRED, POST /health and GET /pair are admitted without a token |
| `Json.JsonEscape` | src/json.c:147-194 | succeeds exactly when escaped text and NUL fit; the buffer then holds the escaped text, and is emptied otherwise |
| `Json.ReadEscaped` | src/json.c:147-194 | the string grammar reads escaped text back as the original and ends exactly at the closing quote |
| `Json.EscapedFixedIff` | src/json.c:157-175 | escaping changes nothing exactly when nothing needs it |
| `Json.EscapeIs` | src/json.c:157-175 | two characters for the seven bytes with a short form, six for other control characters, none for the rest |
| `Json.ReadPrintedObject` | src/routeros.c:69-86 | an object printed around an escaped string carries exactly that string |
| `Channels.BuildBody` | src/channels/discord.c:92-96 | refused exactly when the escaped message exceeds 4095 bytes; otherwise the body is complete |
| `Channels.BodyCarriesMessage` | src/channels/slack.c:92-96 | a byte-level JSON reader takes the body as one object carrying exactly the message |
| `Channels.ExtractJsonStringField` | src/channels/discord.c:24-60 | on any text: nothing where the field is not announced or no closing quote follows; otherwise the text up to the first quote without a backslash before it, cut to the buffer, unless nothing of it is left |
| `Inbound.FieldOfObject` | src/channels/discord.c:128-136 | of an object of printed members the escaped value of the first member with that key is delivered, cut to the buffer, wherever it stands and whatever the other values hold; nothing for an empty value |
| `Inbound.NoFieldOfObject` | src/channels/slack.c:128-136 | an object none of whose members has the key yields nothing |
| `Channels.ScannerMeetsPrinter` | src/channels/discord.c:24-60 | on the channel's own body the scanner yields exactly the escaped message when it is non-empty and does not end in a backslash, nothing otherwise |
| `Channels.MessageSurvivesIff` | src/channels/slack.c:24-60 | the message itself comes back exactly when it is non-empty and has nothing to escape |
| `RouterOs.RouterosCtx.constructor` | src/routeros.c:37-48 | the stored fields and header |
| `RouterOs.RouterosCtx.BuildAuthHeader` | src/routeros.c:21-35 | the header buffer holds the stored header of the kept credentials |
| `RouterOs.HeaderExactIff` | src/routeros.c:21-48 | the stored header is the exact Basic header if and only if no field was cut and the credentials have at most 186 octets |
| `RouterOs.LoginArrivesIff` | src/routeros.c:21-48 | a receiver who decodes the stored header and splits at the first colon gets user and password if and only if, besides, the user has no colon |
| `RouterOs.BuildBody` | src/routeros.c:69-86 | refused exactly when the escaped command exceeds 4082 bytes; otherwise the body is complete |
| `RouterOs.BodyCarriesCommand` | src/routeros.c:74-86 | the body is one JSON object whose only member is the command |
| `Base64.Base64Encode` | src/base64.c:6-30 | refused exactly when text and NUL do not fit; otherwise in bounds, nothing behind the NUL touched |
| `Base64.EncodeLength` | src/base64.c:8 | 4 * ceil(n / 3) characters |
| `Base64.SymbolIs` | src/base64.c:3-26 | the symbols are the standard alphabet in its order |
| `Base64.DecodeEncode` | src/base64.c:13-26 | the strict decoder inverts the encoder on all octet strings |
| `ApiFraming.LengthRoundTrip` | install/mikroclaw-install.py:508-519 | a length code is read back whatever follows it, and takes 1, 2 or 3 bytes below 128, 16384 and 2097152 |
| `ApiFraming.LengthPrefixFree` | install/mikroclaw-install.py:508-519 | no length code is a prefix of another |
| `ApiFraming.SendSentence` | install/mikroclaw-install.py:522-526 | sends the whole sentence, or raises at the first oversized word with the words before it sent |
| `ApiFraming.StreamDecodes` | install/mikroclaw-install.py:522-526 | any series of sentences is received cut at its empty words |
| `ApiFraming.StreamRoundTripIff` | install/mikroclaw-install.py:508-526 | sentences come back as sent if and only if no word is empty |
| `LlmStream.NextContentValue` | src/llm_stream.c:6-37 | the next value, cut to the buffer, and a cursor strictly ahead |
| `LlmStream.ExtractText` | src/llm_stream.c:39-59 | 0 exactly when the chunks' total is below the buffer; in any case as much of their concatenation as fits |
| `LlmStream.ForEachChunk` | src/llm_stream.c:61-77 | delivers exactly the chunks up to the first one refused |
| `LlmStream.FramesDeliver` | src/llm_stream.c:6-77 | well-framed quote-free values are delivered one by one, each cut to 511 bytes |
| `LlmStream.StreamIsItsPieces` | src/llm_stream.c:6-77 | where no needle starts but those announcing the values, the chunks are exactly the values if and only if no value contains a quote or has more than 511 bytes |
| `Allowlist.SenderAllowed` | src/channels/allowlist.c:5-46 | a non-empty sender passes no list, `*`, and otherwise exactly a list with an item that, trimmed of blanks, equals him |
| `StoragePath.IsSafePath` | src/storage_local.c:12-24 | accepts exactly the non-empty relative paths without a `..` component |
| `StoragePath.BelowBaseIff` | src/storage_local.c:12-57 | with a base of at most 255 bytes, walking the opened name of an accepted path stays at or below the base exactly when the joined name is shorter than 512 bytes, or the kept name does not end in `..`, or the kept path entered a directory before that, or the base leads to the root |
| `StoragePath.CutNameClimbs` | src/storage_local.c:56-57 | an accepted path whose cut name leads above the base |

## Left out

- NULL arguments: the guards at the head of the C functions are not modelled; Dafny's types exclude NULL.
- Machine integers: apart from the 32-bit identifier counter, `int` and `time_t` arithmetic is unbounded (request counts, failure counts, lockout products, buffer sizes).
- Subagents.Subagent.Poll: the forked child's body and the result file's text parsing are inputs; the children `waitpid` reports form a finite list.
- Subagents: `subagent_destroy` and the HTTP route that calls submit, whose test at `src/mikroclaw.c:451` takes a length for an error code.
- RateLimit.RateLimiter.LookupEntry: addresses have fewer than 64 bytes, as in the caller's buffer; longer ones would be cut and never found again.
- Gateways.Gateway.Handle: a gateway with both limiter and token table; request-line parsing, the reply texts and everything after the gates are not modelled, and the locked reply is shown unreachable rather than given.
- GatewayAuth.TokenTable: the random sources are one list of bytes that may end early; the pairing code's own draw is a parameter.
- StoragePath.BelowBaseIff: resolution is lexical; symbolic links, file access and the `mkdir` of a write are not modelled.
- LlmStream.ExtractText: input and output are different buffers; the aliased call in `src/llm.c:183` is not covered, and the chunk buffer is allocated per round.
- LlmStream.ForEachChunk: the callback answers from a fixed script, which covers every behaviour that depends only on how many chunks it was given.
- Json.ReadObject: the reader used as reference has no insignificant whitespace and string members only, which is what the program prints, and it reads bytes: text that is not UTF-8, which section 8.1 of RFC 8259 excludes between systems, passes it.
- ApiFraming.SendSentence: words are their UTF-8 payloads; the encoding itself and the socket are not modelled.
- Base64: shifts and masks of non-negative numbers are written as division and remainder.
- Channels.ExtractJsonStringField: the calls around it (the body behind the first empty line, the bot filter, the order of sender and text) are not modelled.
- Sockets, TLS, curl, files, signals, environment variables, the LLM and memU clients, the function registry, configuration, the installers' user interfaces.
- `src/crypto.c`, the jsmn-based lookups of `src/json.c`, `safe_workspace_path`: they rest on libraries or system calls that are not part of this model.
