# Verified models of the daemon's API layer

A Dafny model of the parts of the daemon's API layer whose promises range over all inputs, all
interleavings or all runs, with proofs. Each module follows one component:

- `TaskLifecycle`: cancel, companion cancel and retry racing with the scheduler over task rows
- `TaskCreation`: inline task creation with an idempotency key
- `WorkspaceLock`: the per-project lock shared by git fetches, git pushes and executor mutations
- `ApiKeys`: create, rotate, revoke and update of API keys
- `DoctorRepairs`: the five table checks of the doctor and their repairs
- `LockoutLimiter`: the per-IP lockout for failed authentication
- `WorkflowMasking`: the doctor check for failures that end in a COMPLETED terminal
- `ConfigRedaction`: redaction of the configuration dump
- `Base64Fallback`: the four-way base64 decoder for uploaded artifacts (RFC 4648, sections 3.2, 4 and 5)
- `CgiResponse`, `CgiHeaderLines`: the parser for git-http-backend responses (section 6 of RFC 3875)
- `MatrixBlock`: replacing and reading the generated block of the editions page
- `UnitSpecifiers`: expansion of `%h` and `%%` in unit files
- `Tags`: tag normalisation and the source-name suffix
- `InlineArtifacts`: inlining artifact bodies under a shared byte budget
- `SectionPaging`, `Utf8`: reading a document section page by page
- `Bytes`, `Options`: byte strings, white space trimming, optional values

How the model is built:

- The concurrent components are step systems. A state holds the shared rows or locks and one record per
  request, with its program counter and its possibly stale snapshot. `Apply` performs one atomic step,
  a step that is not enabled changes nothing, and `Run` folds `Apply` over an arbitrary sequence of
  steps. Faults (a failing statement, a lost reply, a failing enqueue) are parameters of the steps. So
  a lemma about `Run(steps)` speaks about every interleaving of any number of requests.
- Code that loops and updates is a method proved equal to a specification function; the lemmas then say
  what that function means. The lockout limiter and the doctor's database are classes.
- Clocks are parameters. Strings that the code treats as bytes are sequences of bytes.
- `dafny verify dfyconfig.toml` checks the whole project.

## Where the code does less than it says

The model follows the code. Each of these is a lemma.

- The handler and the repository interface describe the requeue of a retry as gated on a finished
  status, but the statement also accepts PENDING: `RetryOverwritesPending`; `RetryWrites` shows that
  PENDING is the only exception.
- A cancel leaves the lease on the row and the scheduler's release looks at the lease alone, so a cancel
  that was answered with success can be undone: the task is queued again without a retry
  (`CancelIsUndone`) or ends FAILED (`CancelEndsFailed`). `CancelStandsIff` says exactly when a cancel
  stands; for moves to QUEUED from any finished status `BackToQueueIff` and `AllByRetryIff` do.
- The key updates refuse a revoked key on the listed row only: `UpdateCanLandOnRevokedKey`, with the exact
  condition in `UpdateLandsOnRevokedIff`. A rotation can copy a key that is by then revoked, and miss an
  update: `RotationCopiesRevoked`, with the exact conditions in `RotationCopiesListed`.
- Tasks without a project, and only these, are not excluded from each other by the workspace lock:
  `EmptyKeyDoesNotExclude`, `MutationsOverlapIff`.
- A repairing doctor run reports OK for every check even when more than 100 rows were found:
  `OkWithLeasesLeft`; `SecondRun` gives the exact condition for the next run to find nothing.
- A tag of commas and white space can pass the blank test and is then stored as a blank: `LoneCommaTag`;
  `StoredBlankIff` and `ListHoldsBlankIff` say exactly when, and `StableIff` when normalising is stable.
- Past an exhausted budget an empty artifact is marked truncated although nothing of it is missing:
  `EmptyMarkedTruncated`; `TruncatedForNothingIff` has the condition.
- A section that is not valid UTF-8 does not come back byte for byte from its pages:
  `InvalidByteIsReplaced`; `PagesJoinToSection` has the condition.
- A response whose header lines end in LF is misread when its body holds a CRLF blank line: `LfBodyLost`;
  `RoundTripLfIff` has the condition.
- A block text that contains the end marker is not read back whole, and replacing it again is not replacing
  at once: `EndMarkerAsText`; `ExtractAfterReplace` and `ReplaceTwice` have the condition.

## Model

| member | source | states |
|---|---|---|
| `TaskLifecycle.StepKeepsInv` | internal/api/handlers.go:785-1071 | one step of any request or of the scheduler keeps the invariant: counters in bounds, the table equal to the replay of the write log, every handler write made against a live row its guard accepts |
| `TaskLifecycle.RunKeepsInv` | internal/api/handlers.go:785-1071 | that invariant holds in every reachable state |
| `TaskLifecycle.ReadOutcome` | internal/api/handlers.go:801-832 | a cancel or retry goes on exactly if the task is there, in its own project, and in a status the handler accepts; a task of another project is answered like a missing one |
| `TaskLifecycle.DecidesOnOwnTask` | internal/api/handlers.go:811-815 | in every reachable state a request that has decided or written read a row of the project it is addressed to |
| `TaskLifecycle.WritesOwnProject` | internal/api/handlers.go:811-815 | in every run in which no whole-row update moves a task to another project, a request writes only rows of its own task and project |
| `TaskLifecycle.CancelOutcome` | internal/api/handlers.go:834-860 | a decided cancel succeeds exactly on a live QUEUED, LEASED, RUNNING or PENDING row and changes its status alone |
| `TaskLifecycle.RetryOutcome` | internal/api/handlers.go:1011-1059 | a decided retry succeeds exactly on a live FAILED, CANCELLED, COMPLETED or PENDING row, is enqueued, and writes one attempt more than the row it read had, or attempt 1 on a reset |
| `TaskLifecycle.FaultOutcome` | internal/api/handlers.go:801-846 | a read or statement that fails, or whose reply is lost, is answered with a server error; a failing one writes nothing |
| `TaskLifecycle.EnqueueFails` | internal/api/handlers.go:1049-1056 | a retry whose enqueue fails is answered with a server error although its row is QUEUED |
| `TaskLifecycle.ClaimOutcome` | internal/persistence/postgres/task_repository.go:741-762 | only QUEUED tasks without a lease are leased, and a release by anyone who does not hold the lease changes nothing |
| `TaskLifecycle.ReleaseOutcome` | internal/scheduler/scheduler.go:1011-1046 | a release clears the lease and grants another attempt exactly while the snapshot's bound allows |
| `TaskLifecycle.AttemptsStayBounded` | internal/api/handlers.go:1011-1032 | 1 <= attempt <= max_attempts in every reachable state, for rows created with any counters the table accepts, although retries, the scheduler and whole-row updates write both from stale snapshots |
| `TaskLifecycle.LogIsComplete` | internal/persistence/postgres/task_repository.go:284-298 | the rows are what replaying the committed writes gives, and each write's recorded before-image is what the earlier ones left |
| `TaskLifecycle.CancelSparesTerminal` | internal/api/handlers.go:834-841 | no cancel, by the handler or by the companion tool, ever overwrites a terminal status, and it changes nothing but the status |
| `TaskLifecycle.OneWritePerSuccess` | internal/api/handlers.go:841-1059 | a request commits at most one write, success is answered only to a request that committed one, and a refusal never hides one |
| `TaskLifecycle.AnsweredAsCommitted` | internal/api/handlers.go:841-1070 | if neither its reply nor its enqueue is lost, an answered request was told of success iff it committed a write |
| `TaskLifecycle.QueuedOncePerRetry` | internal/api/handlers.go:1049-1056 | a task is on the queue once for each retry of it answered with success, and for nothing else |
| `TaskLifecycle.RetryWrites` | internal/api/handlers.go:1022-1047 | among requests, exactly the winning retries move a row to QUEUED, and the live row was finished exactly when it was not PENDING |
| `TaskLifecycle.SecondWinNeedsAnotherRun` | internal/api/handlers.go:1028-1047 | between two winning retries of one task there is a write, not a retry's, that took the task out of QUEUED: the second of two clicks loses |
| `TaskLifecycle.BackToQueueIff` | internal/persistence/postgres/task_repository.go:741-762 | a step takes a finished task back to QUEUED iff it is a winning retry, a release of a lease the row still carries, or an outright write; without a lease on the row no release does it |
| `TaskLifecycle.FinishedToQueuedMoves` | internal/api/handlers.go:1022-1047 | in every run in which nothing sets a task to QUEUED outright, a write from a finished status to QUEUED is a winning retry's, or the row still carried a lease |
| `TaskLifecycle.AllByRetryIff` | internal/api/handlers.go:1022-1047 | in every run, all such writes are retries' iff no step releases a finished task that still carries its lease or sets one to QUEUED outright |
| `TaskLifecycle.CancelIsUndone` | internal/persistence/postgres/task_repository.go:284-289 | a run without any retry or outright write in which a cancel answered with success is undone by the worker's release |
| `TaskLifecycle.CancelEndsFailed` | internal/scheduler/scheduler.go:1011-1046 | a run of the same kind in which the cancelled task ends FAILED |
| `TaskLifecycle.LeavesCancelledIff` | internal/persistence/postgres/task_repository.go:284-298 | a step takes a task out of CANCELLED iff it is a winning retry, a release of the lease it carries to another status, or an outright write of another status |
| `TaskLifecycle.StaysCancelledIff` | internal/persistence/postgres/task_repository.go:284-298 | from any state, a cancelled task stays CANCELLED through any further steps iff none of them is such a step |
| `TaskLifecycle.CancelStandsIff` | internal/api/handlers.go:834-841 | a winning cancel makes its task CANCELLED, keeps the lease, and stands through every continuation of the run iff none of its steps is such a step |
| `TaskLifecycle.RetryOverwritesPending` | internal/persistence/postgres/task_repository.go:417-441 | a run, of retries and scheduler steps only, in which a retry that read FAILED lands on a PENDING task |
| `TaskCreation.StepKeepsInv` | internal/api/handlers.go:431-506 | one step keeps index, table, answers and queue consistent |
| `TaskCreation.RunKeepsInv` | internal/api/handlers.go:431-506 | they are consistent in every reachable state |
| `TaskCreation.RequestIsAsSent` | internal/api/handlers.go:431-433 | a request keeps the project it was sent to and the trimmed text of its key, or no key when that is nothing |
| `TaskCreation.OneRowPerKey` | deployments/postgres/schema/001_initial.sql:300-301 | two rows with one project and one non-blank key are the same row |
| `TaskCreation.OneRowPerSentKey` | internal/api/handlers.go:431-497 | requests sent to one project with key texts that trim to the same non-empty text create at most one row between them |
| `TaskCreation.AnswersNameTheSameRow` | internal/api/handlers.go:435-504 | all 200 and 202 answers for one project and key name one existing row with that key, and at most one of them is a 202 |
| `TaskCreation.SentKeyNamesOneRow` | internal/api/handlers.go:431-504 | all their 200 and 202 answers name one row, which exists in that project under that text |
| `TaskCreation.EnqueuedAtMostOnce` | internal/api/handlers.go:484-497 | creation enqueues a row at most once, and only with a 202 of the row's creator |
| `TaskCreation.Undisturbed` | internal/api/handlers.go:435-504 | left undisturbed, a request is answered 200 with the row of its key if there is one, else 202 with a new row that is queued |
| `TaskCreation.DuplicateAnswers` | internal/api/handlers.go:473-480 | an insert that meets the index is answered 200 with the row it met |
| `TaskCreation.FaultAnswers` | internal/api/handlers.go:441-492 | a lookup, insert or enqueue that fails is answered 500 and adds nothing |
| `WorkspaceLock.StepKeepsInv` | internal/api/git_http.go:83-142 | one step of any actor keeps the lock shape, the match of holders and critical sections, and what fetches have seen |
| `WorkspaceLock.RunKeepsInv` | internal/api/git_http.go:83-142 | so does every run |
| `WorkspaceLock.MutualExclusion` | internal/workspacelock/workspacelock.go:47-75 | two actors inside one project are both fetches: one writer at most, no reader beside a writer |
| `WorkspaceLock.EmptyKeyDoesNotExclude` | internal/workspacelock/workspacelock.go:55-58 | a run in which two mutations without a project can write at once |
| `WorkspaceLock.MutationsOverlapIff` | internal/workspacelock/workspacelock.go:52-62 | some run has two mutations of p inside together iff p is the empty project |
| `WorkspaceLock.OverlapIff` | internal/workspacelock/workspacelock.go:47-75 | exactly which two users can be inside together in some run: of different projects, without a project, or both fetches |
| `WorkspaceLock.FetchSeesOnePublishedTree` | internal/api/git_http.go:85-86 | all a fetch reads from acquire to release is one tree, the one the last finished writer left |
| `WorkspaceLock.OnlySectionsHoldLocks` | internal/api/git_http.go:129-142 | a lock's holders are exactly the actors inside their critical section; no finished or waiting request holds one |
| `WorkspaceLock.StepSparesTree` | internal/api/git_http.go:87-93 | while a writer is inside, a step changes the tree only if it is that writer's own write |
| `WorkspaceLock.WriterOwnsTree` | internal/api/git_http.go:87-93 | over any continuation, until a push ends, the tree is what its own writes made it, whatever tasks are leased meanwhile |
| `WorkspaceLock.RefusedPushNeverWrites` | internal/api/git_http.go:215-238 | a push that meets an active task at the gate never writes, in any continuation |
| `WorkspaceLock.GateOutcome` | internal/api/git_http.go:215-238 | a push goes on to write exactly if no active task was counted, or the count failed, and the guards could be re-asserted |
| `WorkspaceLock.EndsFromInside` | internal/api/git_http.go:129-142 | no request ends without having been inside, and no push without an answer from the gate |
| `WorkspaceLock.PublishedAtTheEnd` | internal/api/git_http.go:85-93 | what readers may see of a project changes only when a push or mutation of it ends |
| `WorkspaceLock.EveryRequestCanFinish` | internal/api/git_http.go:129-142 | from every reachable state some continuation finishes any given request: no deadlock |
| `ApiKeys.ActionIsLocal` | internal/api/api_key_handlers.go:223-561 | an action of a request addressed to one project deletes no row, revives none, changes no owner, and leaves other projects' rows alone |
| `ApiKeys.RunKeepsInv` | internal/api/api_key_handlers.go:223-561 | in every reachable state, lost replies included, a key is revoked exactly when the statement of an answered revoke or finished rotation of that key, in its project, revoked it |
| `ApiKeys.ListAnswers` | internal/api/api_key_handlers.go:223-268 | a key of another project is answered like a missing one, and only a revoke goes on with a revoked key |
| `ApiKeys.WriteAnswers` | internal/api/api_key_handlers.go:223-561 | a statement is answered with success exactly if it committed and its reply came back |
| `ApiKeys.CreateStores` | internal/api/api_key_handlers.go:100-137 | a create inserts a live key of its project with what was asked for |
| `ApiKeys.UpdateStores` | internal/persistence/postgres/api_key_repository.go:277-324 | an update stores the value asked for in its own column and leaves every other column of the live row |
| `ApiKeys.FaultAnswers` | internal/api/api_key_handlers.go:223-561 | a list or statement that fails is answered with an error and changes no row |
| `ApiKeys.RotationEnds` | internal/api/api_key_handlers.go:285-302 | a rotation that has minted is answered with success whether or not the old key could be revoked |
| `ApiKeys.OtherProjectsUntouched` | internal/api/api_key_handlers.go:223-561 | in every interleaving no request changes a row of a project it is not addressed to, however stale its list is |
| `ApiKeys.RevokedForGood` | internal/persistence/postgres/api_key_repository.go:249-257 | over every continuation a row keeps its project, and a revoked row stays revoked |
| `ApiKeys.RotationNeverLeavesBothDead` | internal/api/api_key_handlers.go:223-302 | when a rotation has revoked the old key, its replacement exists with the old key's project and attributes, with its workflows and push right unless updated since, and is live unless another request revoked it |
| `ApiKeys.UpdateCanLandOnRevokedKey` | internal/api/api_key_handlers.go:492-561 | a run in which an update is answered with success on a revoked key |
| `ApiKeys.RevokedDuring` | internal/persistence/postgres/api_key_repository.go:249-257 | a live key is revoked during a run iff one of its steps is the committing statement of a revoke or rotation of that key |
| `ApiKeys.UpdateLandsOnRevokedIff` | internal/api/api_key_handlers.go:399-561 | an update stores its value in the row of the key, and lands on a revoked row iff one of the steps between its list and its write is a revoking statement |
| `ApiKeys.RowDuring` | internal/persistence/postgres/api_key_repository.go:277-324 | over any run each of the two columns holds the value of its last committed update, or its first value, and the other columns never change |
| `ApiKeys.RotationCopiesListed` | internal/api/api_key_handlers.go:243-285 | a rotation mints a live copy of the key as listed; the key is revoked by then iff a step in between revoked it, and the copy matches it iff the updates in between changed nothing |
| `ApiKeys.RotationCopiesRevoked` | internal/api/api_key_handlers.go:262-285 | a run in which a key is given the push right and revoked, and a live copy without that right is minted |
| `DoctorRepairs.ReleaseFinds` | internal/api/doctor_handlers.go:433-446 | releasing leases takes those ids off the stale finding and changes no other check's finding |
| `DoctorRepairs.UnwatchFinds` | internal/api/doctor_handlers.go:501-511 | removing watchers clears that finding and changes no other |
| `DoctorRepairs.FailFinds` | internal/api/doctor_handlers.go:583-592 | failing executions takes those ids off the stuck finding and changes no other |
| `DoctorRepairs.UnleakFinds` | internal/api/doctor_handlers.go:624-630 | clearing leaked leases clears that finding and changes no other |
| `DoctorRepairs.SweepFinds` | internal/api/doctor_handlers.go:904-930 | deleting dangling rows clears the three probes and changes no other finding |
| `DoctorRepairs.PassFinds` | internal/api/doctor_handlers.go:329-342 | after all five repairs only the leases and executions that the limited queries did not return are left |
| `DoctorRepairs.PassLeaves` | internal/api/doctor_handlers.go:384-453 | of n stale leases or stuck executions a pass leaves max(0, n - 100), and no other finding |
| `DoctorRepairs.SecondPassCleanIff` | internal/api/doctor_handlers.go:384-641 | the next pass finds nothing if and only if at most 100 leases were stale and at most 100 executions stuck |
| `DoctorRepairs.RemainingAfterPasses` | internal/api/doctor_handlers.go:384-641 | after k passes exactly max(0, n - 100 k) are left, and the tables are clean exactly when both counts were at most 100 k |
| `DoctorRepairs.CleanPassWritesNothing` | internal/api/doctor_handlers.go:384-641 | on clean tables a repairing pass changes no row |
| `DoctorRepairs.ReleasedRow` | internal/api/doctor_handlers.go:433-446 | a released task is QUEUED, its four lease columns are NULL, updated_at is now, and nothing else changes |
| `DoctorRepairs.CleanedRow` | internal/api/doctor_handlers.go:624-630 | a finished task with a lease id keeps its status and loses its four lease columns; no other task changes |
| `DoctorRepairs.TaskRowAfter` | internal/api/doctor_handlers.go:433-446 | after a pass no task has come or gone; a released one is QUEUED, a leaked one keeps its status, both without lease columns; all others are as they were |
| `DoctorRepairs.ExecutionRowAfter` | internal/api/doctor_handlers.go:583-592 | after a pass no execution has come or gone; a listed stuck one is FAILED with the doctor's message and time, all others are as they were |
| `DoctorRepairs.OtherRowsAfter` | internal/api/doctor_handlers.go:904-930 | a watcher, audit or usage row survives, unchanged, exactly when it is in no finding |
| `DoctorRepairs.TasklessUsageKept` | internal/api/doctor_handlers.go:886-899 | usage rows with a NULL or empty task_id are never removed |
| `DoctorRepairs.FindingsInColumns` | internal/api/doctor_handlers.go:384-392 | each check's finding in terms of the columns of its rows |
| `DoctorRepairs.OldestFirst` | internal/api/doctor_handlers.go:385-393 | the limited query returns at most 100 rows, in order, none of them later than a row left out |
| `DoctorRepairs.Database.CheckStaleLeases` | internal/api/doctor_handlers.go:384-453 | reports the oldest stale leases; with fix exactly these are released |
| `DoctorRepairs.Database.CheckOrphanedWatchers` | internal/api/doctor_handlers.go:456-519 | reports the watchers of terminal tasks; with fix exactly these are gone, and fixed counts their tasks |
| `DoctorRepairs.Database.CheckStuckExecutions` | internal/api/doctor_handlers.go:523-600 | reports the oldest stuck executions; with fix exactly these are failed |
| `DoctorRepairs.Database.CheckTaskStateAudit` | internal/api/doctor_handlers.go:603-641 | counts terminal tasks with a lease; with fix exactly these lose it |
| `DoctorRepairs.Database.CheckOrphanFKRows` | internal/api/doctor_handlers.go:879-972 | counts the dangling rows of three tables; with fix exactly these are gone |
| `DoctorRepairs.ChecksCompose` | internal/api/doctor_handlers.go:329-342 | with or without fix, every check of a run reports what it would report on the tables as the run found them |
| `DoctorRepairs.Database.RunTableChecks` | internal/api/doctor_handlers.go:329-342 | a run without fix changes nothing, a run with fix is one pass; its counts are those of the tables it found |
| `DoctorRepairs.SecondRun` | internal/api/doctor_handlers.go:321-381 | a repairing run answers OK throughout; the next run finds nothing iff neither limit was exceeded, and then writes nothing |
| `DoctorRepairs.OkWithLeasesLeft` | internal/api/doctor_handlers.go:447-450 | with n > 100 stale leases a repairing run answers OK and leaves n - 100 stale |
| `LockoutLimiter.AuthFailureLimiter.constructor` | internal/api/auth_failure_limiter.go:36-53 | non-positive settings become 15 failures, 5 minutes, 15 minutes |
| `LockoutLimiter.AuthFailureLimiter.Allowed` | internal/api/auth_failure_limiter.go:57-72 | the verdict and the remaining lockout of the bucket map |
| `LockoutLimiter.AuthFailureLimiter.RecordFailure` | internal/api/auth_failure_limiter.go:76-111 | the new bucket map is one counted failure followed by the prune |
| `LockoutLimiter.AuthFailureLimiter.Prune` | internal/api/auth_failure_limiter.go:104-110 | deleting while ranging leaves exactly the buckets that are not prunable |
| `LockoutLimiter.PruningBounds` | internal/api/auth_failure_limiter.go:103-110 | after a counted failure the map has at most 10000 buckets, or only ones that are locked or whose window is open |
| `LockoutLimiter.PrunedIff` | internal/api/auth_failure_limiter.go:104-109 | exactly the buckets are removed whose lockout is strictly past and whose window has run out |
| `LockoutLimiter.BucketsSimulate` | internal/api/auth_failure_limiter.go:76-111 | the pruned map simulates one never-pruned bucket per IP |
| `LockoutLimiter.PruningIsInvisible` | internal/api/auth_failure_limiter.go:57-111 | after any failures of any IPs, verdict and retry time are those of an unpruned limiter that saw this IP's failures only |
| `LockoutLimiter.SparseNeverLocks` | internal/api/auth_failure_limiter.go:76-102 | with fewer than maxFailures failures in every span of one window no lockout starts |
| `LockoutLimiter.SparseIsAllowed` | internal/api/auth_failure_limiter.go:57-102 | such an IP is always allowed, whatever the other IPs do |
| `LockoutLimiter.BurstLocks` | internal/api/auth_failure_limiter.go:92-102 | from any unlocked bucket 2*maxFailures-1 failures within one window, fewer if some are counted already, start a lockout |
| `LockoutLimiter.BurstBlocks` | internal/api/auth_failure_limiter.go:57-102 | after any history, an allowed IP that fails BurstBound times within one window is told to wait the full lockout; BurstBound is 2*maxFailures-1, or one less when the lockout is longer than the window, as by default |
| `LockoutLimiter.BurstIsBlocked` | internal/api/auth_failure_limiter.go:57-111 | the same for the shared, pruning limiter, however the failures of other IPs are mixed in |
| `LockoutLimiter.BurstBoundIsTight` | internal/api/auth_failure_limiter.go:92-102 | for every configuration with maxFailures > 1 there are a history and a burst of BurstBound-1 failures within one window during which the IP is never blocked |
| `LockoutLimiter.LockoutLastsExactly` | internal/api/auth_failure_limiter.go:84-91 | in the shared, pruning limiter an IP told to wait d, never more than the lockout, is blocked until exactly d later and allowed at that instant, whatever fails meanwhile |
| `WorkflowMasking.ResolveOnFailTerminal` | internal/api/doctor_workflow_onfail.go:92-119 | the loop computes the bounded walk |
| `WorkflowMasking.WalkSound` | internal/api/doctor_workflow_onfail.go:92-119 | a positive answer names a masking terminal that on_success really reaches |
| `WorkflowMasking.WalkComplete` | internal/api/doctor_workflow_onfail.go:92-119 | every masking terminal within reach of the hops is found |
| `WorkflowMasking.EndsInTime` | internal/api/doctor_workflow_onfail.go:75-119 | a walk that ends does so within len(steps) hops, by the pigeonhole principle |
| `WorkflowMasking.CompletedInAnyCase` | internal/api/doctor_workflow_onfail.go:104-108 | exactly the spellings of COMPLETED in any case count |
| `WorkflowMasking.FuelSuffices` | internal/api/doctor_workflow_onfail.go:75-119 | len(steps)+1 iterations decide the unbounded question, on cyclic and broken workflows too |
| `WorkflowMasking.FuelIsTight` | internal/api/doctor_workflow_onfail.go:75-119 | for every n there is a workflow of n steps that n iterations get wrong |
| `WorkflowMasking.ScanIsExact` | internal/api/doctor_workflow_onfail.go:69-85 | reporting by len(steps)+1 iterations is reporting by the unbounded question |
| `WorkflowMasking.ScanFuelIsTight` | internal/api/doctor_workflow_onfail.go:69-85 | for every n > 0 a scan of some workflow of n steps with n iterations reports nothing although one step is masked |
| `WorkflowMasking.CheckStep` | internal/api/doctor_workflow_onfail.go:71-79 | a step is masked iff it has an on_fail from which some number of hops reaches a masking terminal, and the terminal named is one this step's on_fail reaches |
| `WorkflowMasking.ScanWorkflowOnFail` | internal/api/doctor_workflow_onfail.go:69-85 | exactly those steps are reported, each once, each with a masking terminal that its own on_fail reaches |
| `ConfigRedaction.IsSecretKey` | internal/api/config_show_handler.go:151-158 | true if and only if some token occurs in the key |
| `ConfigRedaction.RedactScalar` | internal/api/config_show_handler.go:165-191 | the walk below a secret key |
| `ConfigRedaction.RedactField` | internal/api/config_show_handler.go:117-140 | the choice between the two walks for one key |
| `ConfigRedaction.RedactSecrets` | internal/api/config_show_handler.go:113-149 | the walk over keys |
| `ConfigRedaction.HidesIff` | internal/api/config_show_handler.go:54-158 | a key hides what is below it iff it is none of the seven exempt keys and is "env" or contains one of the eleven tokens, in any case and, for tokens, with underscores anywhere |
| `ConfigRedaction.CaseDoesNotMatter` | internal/api/config_show_handler.go:117 | keys that differ in the case of ASCII letters only are hidden alike |
| `ConfigRedaction.OutputShowsNoSecret` | internal/api/config_show_handler.go:113-191 | in the output every string below a key that hides is empty or the placeholder |
| `ConfigRedaction.HidesExactlyStrings` | internal/api/config_show_handler.go:160-191 | below a secret key two values look alike iff they differ in non-empty strings alone |
| `ConfigRedaction.RedactsAlikeIffAgree` | internal/api/config_show_handler.go:54-191 | two configurations redact alike iff they agree everywhere but in non-empty strings below secret keys or env maps |
| `ConfigRedaction.OutputAgreesWithInput` | internal/api/config_show_handler.go:113-191 | redaction keeps shape, list lengths, keys, numbers, booleans, nulls, empty strings and visible strings |
| `ConfigRedaction.RedactIsIdempotent` | internal/api/config_show_handler.go:113-191 | redacting twice is redacting once |
| `Base64Fallback.DecodersAgree` | internal/api/extract_inputs.go:243-260 | a text that two of the four decoders accept decodes alike in both |
| `Base64Fallback.ChainIsAnyDecoder` | internal/api/extract_inputs.go:243-260 | the chain returns b iff the text is not empty and some decoder returns b: the order does not matter |
| `Base64Fallback.DecodeOfEncode` | internal/api/extract_inputs.go:247-258 | each decoder inverts its encoding (RFC 4648, sections 3.2, 4 and 5) |
| `Base64Fallback.RoundTrip` | internal/api/extract_inputs.go:243-260 | non-empty data in any of the four encodings, with CR and LF bytes put in anywhere, comes back exactly |
| `Base64Fallback.RoundTripUnwrapped` | internal/api/extract_inputs.go:243-260 | in particular without line breaks |
| `Base64Fallback.AcceptedIsEncoding` | internal/api/extract_inputs.go:247-258 | a decoder accepts nothing but the encoding of what it returns, up to the unused bits of the last digit |
| `Base64Fallback.ChainReturnsEncoded` | internal/api/extract_inputs.go:243-260 | what the chain returns is encoded in its input in one of the four encodings, line breaks aside |
| `CgiResponse.ParseCgiOutput` | internal/api/git_http.go:330-377 | the loop over header lines, with both errors, computes the parse |
| `CgiResponse.HeaderLineOfField` | internal/api/git_http.go:349-371 | a printed header line is read as its field |
| `CgiResponse.BlankLineFound` | internal/api/git_http.go:334-346 | the first blank line is the one that ends the header block, whatever the body holds |
| `CgiResponse.RoundTrip` | internal/api/git_http.go:330-377 | a printed response (section 6 of RFC 3875) parses back to its status, each key's values in order, and its exact body |
| `CgiResponse.RoundTripLfIff` | internal/api/git_http.go:334-346 | a response printed with LF line ends parses back to its status, headers and body iff its body holds no CRLF blank line |
| `CgiResponse.LfBodyLost` | internal/api/git_http.go:334-346 | the body CR LF CR LF is lost |
| `CgiHeaderLines.NoColonFails` | internal/api/git_http.go:354-357 | after well-formed lines, the first line without a colon makes the parse fail with that line, whatever follows |
| `CgiHeaderLines.BadStatusFails` | internal/api/git_http.go:360-367 | so does a status line whose text up to the first space is no number |
| `CgiHeaderLines.AtoiIff` | internal/api/git_http.go:363-366 | a number is an optional sign and at least one digit, within 64 bits |
| `CgiHeaderLines.AtoiSigned` | internal/api/git_http.go:363-366 | decimal digits are read as their number, with either sign |
| `CgiHeaderLines.StatusInAnyCase` | internal/api/git_http.go:360 | of the ASCII names exactly the spellings of Status in any case set the status |
| `CgiHeaderLines.LongS` | internal/api/git_http.go:360 | the long s folds to an s, and to no other letter |
| `CgiHeaderLines.SameHeaderIff` | internal/api/git_http.go:370 | two names go under one header key iff they differ in case only |
| `CgiHeaderLines.HeaderKeyShape` | internal/api/git_http.go:370 | a header key has its name's letters, upper case at the start and after a hyphen, lower case elsewhere |
| `CgiHeaderLines.SpacesDoNotMatter` | internal/api/git_http.go:358-359 | white space around name and value does not matter |
| `CgiHeaderLines.LinesAsTheyCome` | internal/api/git_http.go:350-353 | CRs at the end of a line are dropped and empty lines skipped |
| `CgiHeaderLines.HeadersOnly` | internal/api/git_http.go:342-346 | without a blank line everything is header and the body is empty |
| `CgiHeaderLines.NoHeaders` | internal/api/git_http.go:334-346 | a response that starts with its blank line has no headers, status 200, and the rest for its body |
| `MatrixBlock.EditionsMarkersProper` | internal/editions/block.go:8-11 | the two markers of the page have the properties the laws need |
| `MatrixBlock.BeginMarkerText` | internal/editions/block.go:9 | the begin marker, letter by letter |
| `MatrixBlock.EndMarkerText` | internal/editions/block.go:10 | the end marker, letter by letter |
| `MatrixBlock.ReplaceRefuses` | cmd/docs-gen/editions.go:26-37 | which pages are refused, with which error |
| `MatrixBlock.ExtractsIff` | internal/editions/block.go:16-25 | a block is found exactly on the pages that can be replaced |
| `MatrixBlock.FirstEnd` | cmd/docs-gen/editions.go:26-39 | the first end marker of a rewritten page is the new text's first one, else the page's own |
| `MatrixBlock.ReplacePreservesSurroundings` | cmd/docs-gen/editions.go:26-39 | all before the begin marker and from the end marker on is preserved, for every text |
| `MatrixBlock.ReplaceTwice` | cmd/docs-gen/editions.go:26-39 | replacing with x then y is replacing with y, iff x does not contain the end marker |
| `MatrixBlock.ReplaceWithSame` | cmd/docs-gen/editions.go:26-39 | replacing a block with the text it holds changes nothing |
| `MatrixBlock.ExtractRebuilt` | internal/editions/block.go:16-26 | for every text written, what is read back is its part before its first end marker, without outer white space |
| `MatrixBlock.ExtractAfterReplace` | internal/editions/block.go:16-26 | what was written is read back, up to outer white space, iff it does not contain the end marker |
| `MatrixBlock.EndMarkerAsText` | cmd/docs-gen/editions.go:26-39 | the end marker as text is not read back, and replacing it again is not replacing at once |
| `UnitSpecifiers.ExpandUnitSpecifiers` | internal/api/doctor_env_freshness.go:211-236 | the index loop computes the expansion |
| `UnitSpecifiers.SpecifierMeaning` | internal/api/doctor_env_freshness.go:218-234 | in front of any rest, %h is the home path, %% a percent sign, and % before any other byte or at the end itself |
| `UnitSpecifiers.ExpandOfEscape` | internal/api/doctor_env_freshness.go:205-236 | doubling every percent sign and expanding gives any string back, for every home path |
| `UnitSpecifiers.HarmlessIff` | internal/api/doctor_env_freshness.go:218-234 | exactly which texts may follow a lone percent sign without changing meaning |
| `UnitSpecifiers.ExpandDistributesIff` | internal/api/doctor_env_freshness.go:211-236 | expansion distributes over a + b iff a does not end in an unpaired percent sign or b is harmless after one |
| `Tags.DedupInOrder` | internal/api/companion_mcp_memory.go:671-699 | survivors of the de-duplication stand in the order of their first occurrence |
| `Tags.DedupElements` | internal/api/companion_mcp_memory.go:691-695 | de-duplication loses and invents nothing |
| `Tags.DedupDistinct` | internal/api/companion_mcp_memory.go:691-695 | and repeats nothing |
| `Tags.NormalizedIsEncodable` | internal/api/companion_mcp_memory.go:673-704 | at most ten tags, distinct, non-empty, free of commas, at most 32 bytes each |
| `Tags.CleanTag` | internal/api/companion_mcp_memory.go:680-690 | trim, cut and comma replacement of one tag |
| `Tags.CleanBytes` | internal/api/companion_mcp_memory.go:680-690 | byte for byte, a tag is stored as its first 32 trimmed bytes with a space for every comma |
| `Tags.NormalizeTags` | internal/api/companion_mcp_memory.go:673-704 | the loop computes the first ten of the de-duplicated cleaned tags |
| `Tags.TrimmedIff` | internal/api/companion_mcp_memory.go:680-690 | a raw tag is stored without outer white space iff its trimmed first 32 bytes neither begin nor end with a comma and do not end in white space |
| `Tags.StableIff` | internal/api/companion_mcp_memory.go:673-704 | normalising again changes nothing iff all raw tags that are kept have such ends |
| `Tags.StoredBlankIff` | internal/api/companion_mcp_memory.go:680-690 | a raw tag is stored as a blank iff its trimmed first 32 bytes are nothing but commas and white space, and not empty |
| `Tags.ListHoldsBlankIff` | internal/api/companion_mcp_memory.go:673-704 | the list holds a blank iff it keeps such a raw tag |
| `Tags.LoneCommaTag` | internal/api/companion_mcp_memory.go:680-690 | the tag "," is one of them |
| `Tags.SplitOfJoin` | internal/api/companion_mcp_memory.go:687-690 | splitting joined comma-free tags on commas gives them back |
| `Tags.TagsReadBack` | internal/api/companion_mcp_memory.go:706-714 | past the name and the marker, splitting the suffix gives the normalised list; without tags the name is untouched |
| `Tags.SuffixDeterminesTags` | internal/api/companion_mcp_memory.go:669-714 | under one name, two tag lists give one stored name iff they normalise alike |
| `InlineArtifacts.CompanionInlineArtifacts` | internal/api/companion_mcp.go:1018-1069 | one entry per deliverable, each shown, cut, refused or marked by where its body lies in the whole text |
| `InlineArtifacts.EveryDeliverableOnce` | internal/api/companion_mcp.go:1034-1042 | entries stand one to one, in order, for the non-transcript OUTPUT artifacts |
| `InlineArtifacts.EntriesKeepIdentity` | internal/api/companion_mcp.go:1043-1049 | each entry carries id, name and size of the artifact at its position |
| `InlineArtifacts.InlinedIsPrefix` | internal/api/companion_mcp.go:1009-1064 | the contents joined are the first min(64 KiB, total) bytes of the readable bodies joined |
| `InlineArtifacts.UnmarkedIff` | internal/api/companion_mcp.go:1050-1064 | an entry has no mark iff it carries its whole body, iff the body was readable and fits before the cap |
| `InlineArtifacts.CompleteIff` | internal/api/companion_mcp.go:1014-1017 | nothing is missing iff the bodies total at most 64 KiB, iff every entry marked truncated had an empty body |
| `InlineArtifacts.TruncatedForNothingIff` | internal/api/companion_mcp.go:1055-1061 | an entry is marked truncated with nothing missing iff its body is empty and the bodies before it reach the cap |
| `InlineArtifacts.EmptyMarkedTruncated` | internal/api/companion_mcp.go:1055-1057 | an empty deliverable after a 64 KiB one is such an entry |
| `Utf8.EncodeOfDecode` | internal/api/document_tools.go:345-354 | text to runes and back is the identity iff the text is valid UTF-8 (section 3 of RFC 3629) |
| `Utf8.DecodeOfEncode` | internal/api/document_tools.go:345-354 | runes that are no surrogates come back exactly from their UTF-8 text, which is valid |
| `Utf8.SpaceIsWhiteSpace` | internal/api/companion_mcp_memory.go:680 | what trimming takes off is exactly Unicode white space, character by character |
| `SectionPaging.HandleReadSection` | internal/api/document_tools.go:334-372 | the clamps and slices compute the page of the clamped range |
| `SectionPaging.NextPageAdvances` | internal/api/document_tools.go:334-370 | next_offset is there exactly when more is announced, and lies the effective limit, between 1 and 32000, past the offset |
| `SectionPaging.SessionReadsRest` | internal/api/document_tools.go:334-372 | following next_offset from any offset reads exactly the rest, for any limits |
| `SectionPaging.SessionShape` | internal/api/document_tools.go:362-370 | only the last page announces no more, totals agree, and the number of pages is bounded on both sides |
| `SectionPaging.PagesJoinToSection` | internal/api/document_tools.go:309-372 | whatever limits are sent, the pages from offset 0 join to the section, byte for byte iff it is valid UTF-8 |
| `SectionPaging.InvalidByteIsReplaced` | internal/api/document_tools.go:345-354 | a section of the byte FF is read as the three bytes of U+FFFD |

## Left out

- HTTP routing, JSON envelopes, status texts, audit rows, logging, metrics and the wiring of optional
  collaborators (a missing repository, queue or limiter): no property beyond one reading.
- The creation path through the shared task creator, and the rate and budget gates before creation.
- How the scheduler and executor choose what to do: they appear as arbitrary steps under the lease guards
  of internal/scheduler and the task repository. Other writers of a task (the conversation handlers, the
  executor's and the watchdog's whole-row updates) are steps that set any status or write back any row the
  table accepts, without their own guards; runs in which such a step sets QUEUED outright are left out of
  `FinishedToQueuedMoves`, not of `AllByRetryIff`.
- Deletion of task rows and of API-key rows (retention): rows are only added and changed.
- Writer preference and fairness of the read-write mutex: `EveryRequestCanFinish` is about possibility, not
  about every schedule.
- The tree of a project is one value; which files git writes is not modelled.
- Normalising allowed-workflow lists and chunk ids.
- A missing (nil) lockout limiter, and clocks that run backwards.
- Failing statements in the doctor's repairs, writers that interleave with a run, and a clock that moves
  during it; expiry of a lease is not rechecked by the repair, so nothing is claimed for a lease renewed
  between query and update.
- The doctor's report items and messages, and all checks that do not touch the five tables.
- In-place update of the decoded JSON value and its aliasing: `RedactSecrets` and `RedactScalar` return new values.
- YAML and JSON parsing of workflows and configuration; case folding is modelled for the letters that can match.
- The line-length limit of `bufio.Scanner`, and response headers with blank or folded lines in the printer.
- Reading artifact bodies and listing them page by page: a listing and each body are inputs.
- Names of step transcripts: whether an artifact is one is an input.
- Section lookup, titles and section-id validation.
