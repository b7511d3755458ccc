# IntelliView Orchestrator: a verified model of the control plane

The Python backend of the IntelliView Orchestrator is a small distributed control plane. This
project models its stateful parts in Dafny 4.11 and proves what they promise, over every input and
every run: task placement over a worker registry, the circuit breaker in front of Redis, the
sliding-window rate limiter, the session lifecycle with its cache over the database, bounded
retries and the scan that dispatches them, the response cache, running averages and bounded logs.

| file | models |
|---|---|
| `CircuitBreaker.dfy` | `orchestrator/redis_client.py` |
| `RateLimiter.dfy` | `orchestrator/rate_limiter.py` |
| `WorkerRegistry.dfy`, `LoadBalancer.dfy`, `Scheduler.dfy` | `orchestrator/worker_registry.py`, `load_balancer.py`, `scheduler.py` |
| `Sessions.dfy`, `SessionServices.dfy`, `WorkerTasks.dfy` | `orchestrator/session_manager.py`, `state_sync.py`, `workers/tasks.py` |
| `RetryManager.dfy`, `RetryScan.dfy` | `orchestrator/retry_manager.py`, the scan in `workers/tasks.py` |
| `HttpCache.dfy` | `orchestrator/http_cache.py` |
| `RunningMeans.dfy` | `orchestrator/candidate_manager.py`, `interview_templates.py`, `question_bank.py` |
| `BoundedLogs.dfy` | `orchestrator/audit_logger.py`, `fault_manager.py` |

Objects whose methods change their fields are classes. Their methods are proved against a
specification that does not mention the stored representation where there is one: the phase of the
breaker is read off the history of successes and failures, a limiter's decision off the full
request log, the two active counts off the history of increments and decrements, the content of
the response cache off the log of evaluations and invalidations. The main results are lemmas about
those specifications. `dafny verify dfyconfig.toml` checks everything.

Conventions. Clocks are `real` numbers, read where the source reads them and passed in by the
caller. Redis is a map with expiry times, the database a map of rows, a broker or a wrapped
function an argument that says how it behaves. Each API call is one atomic step. Averages are over
`real`, without rounding.

## What the code does that its comments do not say

Where the code and its description part, the model follows the code. These are proved:

- The scheduler builds a registry of its own (`orchestrator/scheduler.py:47`), so the balancer does
  not see what it counts. Placement is optimal and within capacity when both hold one registry;
  with two, task after task is counted on one worker (`ScheduleInARow`,
  `SeparateRegistriesOverfill`).
- `workers/tasks.py:4` describes a pipeline that passes through EVALUATING. A delivery with nothing
  in between never does: the table has no edge from VIDEO_PROCESSING to EVALUATING
  (`EvaluatingIsSkipped`). The callback then sets COMPLETED without looking at the table, from any
  status (`CallbackCompletes`).
- Resetting a FAILED row to QUEUED does not reach the cache. Until the next accepted update a cached
  session is still reported FAILED, and a sync to the database undoes the reset (`ResetIsHidden`).
- A retry entry expires after the delay that makes it due. A scan can find it due and alive only in
  the gap between the reading of the clock and the storing of the entry (`DispatchWindow`).
- Redis refuses a lifetime of zero, so the immediate strategy never schedules anything without an
  override, although each request uses up an attempt (`ImmediateIsRefused`, `ScheduleRetry`).
- A refused dispatch leaves the active counts alone but counts a processed task (`TakenBack`).
- An unscored use of a question between its scores pulls the average off their mean; exactly which
  patterns do is `AverageIsMeanExactly`.
- A worker that has fallen silent is marked unhealthy in the registry that noticed, not in Redis. It
  gets no task there until it is heard of again (`SilentGetsNoTask`), but a new process reads it back
  as it was before (`StatusesAgree`, `HydrationRestores`).
- A COMPLETED row can be reopened by a sync to the database: exactly when the cache holds another
  status of the session (`StaysCompletedExactly`), which only an update to COMPLETED with another
  status in its metadata brings about (`CompletingSeals`).
- A negative heartbeat takes the two active counts off the rule that relates them otherwise
  (`DriftIsLowest`, `NegativeHeartbeat`).
- The `Retry-After` of a limited request is always 1 (`RateLimiter.Dispatch`), and simultaneous
  requests of one client count once (`SimultaneousRequestsCollapse`). A client is held to the limit,
  whatever limit and window are, exactly when it never asks twice at one time (`LimitHoldsExactly`).
- `get_recent_events(0)` returns the whole buffer (`AuditLogger.GetRecentEvents`).

## Model

| member | source | states |
|---|---|---|
| `CircuitBreaking.StreakMeaning` | orchestrator/redis_client.py:70-76 | the failure streak of a history reaches n exactly when its last n events are all failures |
| `CircuitBreaking.PhaseMeaning` | orchestrator/redis_client.py:59-78 | CLOSED until the history ends in max(1, threshold) failures in a row, then OPEN until the cooldown has passed since the last of them |
| `CircuitBreaking.ProbeFailureReopens` | orchestrator/redis_client.py:74-78 | one failure of a probe reopens the breaker, whatever the streak |
| `CircuitBreaking.CircuitBreaker.State` | orchestrator/redis_client.py:59-64 | the lazily advanced state is a function of the history and the clock: CLOSED iff fewer failures than the threshold (at least one) since the last success or reset, else HALF_OPEN iff the cooldown has passed since the latest failure |
| `CircuitBreaking.CircuitBreaker.AllowRequest` | orchestrator/redis_client.py:66-68 | requests are let through exactly when the history says the breaker is not open |
| `CircuitBreaking.CircuitBreaker.RecordSuccess` | orchestrator/redis_client.py:70-72 | appends a success to the history the state is read off |
| `CircuitBreaking.CircuitBreaker.RecordFailure` | orchestrator/redis_client.py:74-82 | appends a failure to the history the state is read off |
| `CircuitBreaking.CircuitBreaker.Reset` | orchestrator/redis_client.py:84-86 | appends a reset to the history the state is read off |
| `CircuitBreaking.SharedBreaker` | orchestrator/redis_client.py:90 | the shared breaker is new and has threshold 5 and cooldown 30 |
| `CircuitBreaking.RedisClientWrapper.Invoke` | orchestrator/redis_client.py:111-120 | a call reaches Redis unless the breaker is open when it starts; only replies and connection or timeout errors are recorded; the calls made so far form a run |
| `CircuitBreaking.Recovers` | orchestrator/redis_client.py:4-6 | from any history, a call that begins a cooldown after the last event reaches Redis, and a reply closes the breaker |
| `CircuitBreaking.RunSplits` | orchestrator/redis_client.py:111-120 | any stretch of a run of calls is a run from the history at which it begins |
| `CircuitBreaking.AttemptsSpaced` | orchestrator/redis_client.py:59-82 | once the breaker has opened, an attempt in an outage begins at least the cooldown after every earlier attempt is over |
| `CircuitBreaking.OutageBound` | orchestrator/redis_client.py:59-120 | in any period of an outage, from any history, at most threshold (at least one) + length / cooldown calls reach Redis |
| `RateLimiting.PrunedIsRecent` | orchestrator/rate_limiter.py:64-71 | pruning a stored set leaves exactly the logged times of the trailing window, and by the time the key expires that window is empty |
| `RateLimiting.RateLimiter.RunPipeline` | orchestrator/rate_limiter.py:63-74 | pruning, adding and counting leave the set of logged times in the trailing window and its size; other clients' sets are untouched |
| `RateLimiting.RateLimiter.Dispatch` | orchestrator/rate_limiter.py:58-89 | after each request the stored set is the set of logged times in the trailing window, and the request is admitted iff there are at most `limit`; other clients are untouched; without Redis it goes through unlogged |
| `RateLimiting.AtMostLimitTimes` | orchestrator/rate_limiter.py:59-76 | in every half-open interval one window long a client is admitted at no more than `limit` different times, whatever is rejected in between; requests let through without Redis are in no log |
| `RateLimiting.AtMostLimitRequests` | orchestrator/rate_limiter.py:59-76 | when the times of a client strictly increase, every such interval holds at most `limit` of its admitted requests, whatever times other clients use; requests let through without Redis are in no log |
| `RateLimiting.DecidedIsDecisions` | orchestrator/rate_limiter.py:59-76 | the decisions are determined by clients and times: a log is decided as the limiter decides exactly when deciding its calls anew gives it back |
| `RateLimiting.LimitHoldsExactly` | orchestrator/rate_limiter.py:59-76 | for calls in order of time, a client is held to at most `limit` requests in every window, for every limit and positive window, exactly when its times strictly increase |
| `RateLimiting.RepeatedTimeGoesOver` | orchestrator/rate_limiter.py:67 | a client that asks twice at one time goes over the limit that equals the number of its different times, in the window that spans the log |
| `RateLimiting.SimultaneousRequestsCollapse` | orchestrator/rate_limiter.py:67 | an instance: any number of simultaneous requests of one client is admitted under any limit of at least one and any positive window |
| `WorkerRegistries.CountersAgree` | orchestrator/worker_registry.py:200-235 | the clamped local count and the Redis count agree exactly when no decrement has taken the Redis count below zero since both were last set |
| `WorkerRegistries.DriftIsLowest` | orchestrator/worker_registry.py:200-235 | the local count is the Redis count minus min(0, its lowest value since both were last set) exactly when they were last set to no less than the drift, so always after a registration or a non-negative heartbeat |
| `WorkerRegistries.NegativeHeartbeat` | orchestrator/worker_registry.py:184-190 | right after a negative heartbeat, whatever came before, that equation fails |
| `WorkerRegistries.RollbackRestores` | orchestrator/worker_registry.py:200-235 | an increment taken back restores the Redis count always and the local count up to its clamp at zero |
| `WorkerRegistries.StatusesAgree` | orchestrator/worker_registry.py:339-341 | local and Redis status agree exactly when the worker has not been marked since its status was last written to both, or that status was "unhealthy" already |
| `WorkerRegistries.HydrationRestores` | orchestrator/worker_registry.py:46-67 | hydration reads back the local count exactly when no decrement has underflowed and the local status exactly when no marking stands or "unhealthy" was written; everything else it reads back, with the heartbeat as Redis was told of it |
| `WorkerRegistries.MarkedAreUnavailable` | orchestrator/worker_registry.py:331-343 | marking takes exactly the silent workers out of the available ones; exactly the silent registered workers are reported |
| `WorkerRegistries.WorkerRegistry.DetectUnhealthyWorkers` | orchestrator/worker_registry.py:319-343 | the loop marks and reports, in registration order, the workers whose last recorded heartbeat is more than 60 seconds ago; Redis is not written |
| `WorkerRegistries.AvailableMembers` | orchestrator/worker_registry.py:247-260 | the available list holds exactly the healthy registered workers below capacity |
| `WorkerRegistries.AvailableDistinct` | orchestrator/worker_registry.py:247-260 | no worker is listed twice |
| `WorkerRegistries.AvailableInOrder` | orchestrator/worker_registry.py:255-258 | available workers are listed in the order of their registration |
| `WorkerRegistries.WithoutKeepsOrder` | orchestrator/worker_registry.py:349-350 | deregistering a worker leaves the order of the others as it was |
| `WorkerRegistries.LeastIndex` | orchestrator/worker_registry.py:262-274 | the index of the first worker with the fewest active tasks |
| `WorkerRegistries.WorkerRegistry.Hydrate` | orchestrator/worker_registry.py:46-67 | a new registry takes over the listed workers that have a hash, in any listing order, with Redis counts as local counts |
| `WorkerRegistries.WorkerRegistry.RegisterWorker` | orchestrator/worker_registry.py:72-126 | the worker starts healthy and idle in dictionary, hash and set; a worker registered again keeps its place |
| `WorkerRegistries.WorkerRegistry.UpdateWorkerStatus` | orchestrator/worker_registry.py:128-159 | a known worker's status changes locally and in Redis, nothing else does; an unknown one is refused |
| `WorkerRegistries.WorkerRegistry.Heartbeat` | orchestrator/worker_registry.py:161-198 | a heartbeat sets both counts, both statuses to healthy and both times, each to its own reading of the clock; an unknown worker is refused |
| `WorkerRegistries.WorkerRegistry.IncrementActiveTasks` | orchestrator/worker_registry.py:200-215 | both counts of one known worker go up by one |
| `WorkerRegistries.WorkerRegistry.DecrementActiveTasks` | orchestrator/worker_registry.py:217-235 | the Redis count goes down by one, the local one to no less than zero, both processed counts up; local = Redis minus drift is kept |
| `WorkerRegistries.WorkerRegistry.GetAvailableWorkers` | orchestrator/worker_registry.py:247-260 | the loop yields the available list in registration order |
| `WorkerRegistries.WorkerRegistry.GetLeastLoadedWorker` | orchestrator/worker_registry.py:262-274 | none iff nobody is available, else the least loaded |
| `WorkerRegistries.WorkerRegistry.DeregisterWorker` | orchestrator/worker_registry.py:345-361 | the worker is gone from dictionary, hash and set; the others keep their order |
| `LoadBalancing.FirstUnderutilized` | orchestrator/load_balancer.py:149-152 | the first worker below seventy per cent of its capacity, none iff there is none |
| `LoadBalancing.ChoiceMeaning` | orchestrator/load_balancer.py:145-158 | high takes the first least loaded worker, medium the first underutilized one or else the first, anything else the last |
| `LoadBalancing.LoadBalancer.GetBestWorkerForPriority` | orchestrator/load_balancer.py:130-158 | the method makes that choice among the available workers |
| `LoadBalancing.LoadBalancer.SelectRoundRobin` | orchestrator/load_balancer.py:61-83 | the pick is the index taken around the available list; the index moves only when there was a pick |
| `LoadBalancing.LoadBalancer.SelectWorker` | orchestrator/load_balancer.py:45-59 | each strategy's worker, none iff nobody is available |
| `LoadBalancing.RoundRobinFair` | orchestrator/load_balancer.py:71-82 | over any k = q * n + r selections in a row from any index each of n available workers is chosen q times, or once more if r is not zero |
| `LoadBalancing.RoundRobinEven` | orchestrator/load_balancer.py:71-82 | after any number of selections no worker is two ahead of another |
| `LoadBalancing.SelectInARow` | orchestrator/load_balancer.py:61-83 | k calls of `select_round_robin` on an unchanged registry make exactly the selections that `RoundRobinFair` and `RoundRobinEven` are about |
| `LoadBalancing.GreedyIsBalanced` | orchestrator/load_balancer.py:145-147 | after any number of high-priority placements on an idle fleet no load exceeds that of a still available worker by more than one |
| `LoadBalancing.GreedyIsOptimal` | orchestrator/load_balancer.py:145-147 | no other spread of as many tasks within the capacities has a smaller maximum load |
| `LoadBalancing.PlaceOnlyCounts` | orchestrator/load_balancer.py:145-158 | a placement of any priority changes one active count, which stays within capacity |
| `LoadBalancing.PlaceCountsOnce` | orchestrator/load_balancer.py:145-158 | the total load grows by one exactly when somebody is available |
| `Scheduling.Scheduler.ScheduleTask` | orchestrator/scheduler.py:51-144 | the result and the marking as failed; which worker a task of each priority is counted on, named by its place and load among the available ones; what happens to its counts on success and on refusal, for a shared or a separate registry |
| `Scheduling.TargetOf` | orchestrator/scheduler.py:84 | HIGH takes the first available worker with the fewest active tasks, MEDIUM the first below seventy per cent or else the first of all, LOW the last |
| `Scheduling.ScheduleHighInARow` | orchestrator/scheduler.py:84-115 | k HIGH tasks scheduled on an idle shared registry leave it balanced, and no admissible spread of as many tasks has a smaller maximum load |
| `Scheduling.UpThenDown` | orchestrator/scheduler.py:98-113 | counting a task and taking the count back leaves the clamp and one processed task |
| `Scheduling.ScheduledIsStep` | orchestrator/scheduler.py:84-115 | with one registry, scheduling is one step of the fleet: a placement if the broker takes the task, else its rollback |
| `Scheduling.RefusedLeavesCounts` | orchestrator/scheduler.py:110-113 | with one registry a refused task leaves every Redis count alone, and every local count exactly when the chosen worker's was not negative |
| `Scheduling.RunWithinCapacity` | orchestrator/scheduler.py:84-113 | over any run of schedulings of any priority, refusals, completions, heartbeats, registrations, deregistrations, status changes and markings, no worker is above both its capacity and the count it was last set to |
| `Scheduling.SilentGetsNoTask` | orchestrator/worker_registry.py:339-341 | after a worker has been marked as silent its count does not rise and it is not healthy, over every run without a heartbeat, registration or status change of its own |
| `Scheduling.MarkedAfterSixty` | orchestrator/worker_registry.py:329-341 | a worker registered or heard of at t, and not since, is marked by a detection at now exactly when now - t > 60, whatever else happened in between; then it is not available, otherwise it is as it was |
| `Scheduling.DetectAfter` | orchestrator/worker_registry.py:319-343 | the same of the class methods, and the worker is reported exactly then |
| `Scheduling.Perform` | orchestrator/worker_registry.py:72-361 | with one registry, each operation of scheduler and registry is its step of the fleet |
| `Scheduling.PerformAll` | orchestrator/worker_registry.py:72-361 | any sequence of operations on the classes is a run, so the capacity bound holds of the registry itself |
| `Scheduling.SeparateRegistriesOverfill` | orchestrator/scheduler.py:46-47 | with a balancer that does not see the counts, k tasks in a row are all counted on one worker, which ends above capacity iff its count + k exceeds it |
| `Scheduling.ScheduleInARow` | orchestrator/scheduler.py:46-115 | k calls of `ScheduleTask` with separate registries do exactly that to the scheduler's registry |
| `Scheduling.CompletedIsStep` | orchestrator/worker_registry.py:217-235 | a completion is one step of the fleet |
| `Sessions.CyclesStayInPipeline` | orchestrator/session_manager.py:52-70 | a walk along the table that returns to a status it has left stays among the four processing statuses |
| `Sessions.TransitionsInto` | orchestrator/session_manager.py:52-70 | for each status, exactly the statuses from which it is accepted |
| `Sessions.TerminalIsFinal` | orchestrator/session_manager.py:66-69 | COMPLETED, FAILED and CANCELLED are not left |
| `Sessions.PipelineIsConnected` | orchestrator/session_manager.py:55-65 | each processing status can be reached from each other one |
| `Sessions.UpdatesWalkTable` | orchestrator/session_manager.py:139-204 | a run of status updates moves a row at every call the table allows and at no other |
| `Sessions.RunKeepsTracked` | orchestrator/state_sync.py:45-128 | over every run the cached ids are in the active set and in the database |
| `Sessions.ClearLeavesNothing` | orchestrator/state_sync.py:209-232 | clearing the cache after any run leaves no session in it |
| `Sessions.StepKeepsAgreement` | orchestrator/session_manager.py:178-190 | each step, with metadata that carries no other status, keeps cached and stored status equal, up to a FAILED row reset to QUEUED |
| `Sessions.RunKeepsAgreement` | orchestrator/session_manager.py:80-323 | over every run with such metadata a cached status is the database status, or FAILED for a row reset to QUEUED; without resets always the database status |
| `Sessions.CoherentReads` | orchestrator/session_manager.py:206-257 | then get_session reports the database status on hit and miss alike, and a sync to the database changes no status |
| `Sessions.ExpiryReveals` | orchestrator/session_manager.py:220-257 | when a cached session expires, readers are told its stored status; of other sessions what they were told before |
| `Sessions.ResetIsHidden` | workers/tasks.py:131-133 | the reset breaks this exactly when the session is cached; the cache then goes on reporting FAILED and a sync takes the reset back |
| `Sessions.StatusInMetadata` | orchestrator/session_manager.py:185-190 | a status key in the metadata breaks coherence exactly when it differs from the new status |
| `Sessions.StaysCompletedExactly` | orchestrator/state_sync.py:149-207 | a COMPLETED row stays COMPLETED over every continuation, with any metadata, exactly when the cache holds no other status of the session |
| `Sessions.CompletingSeals` | orchestrator/session_manager.py:185-190 | the step that completes a row leaves another status in the cache exactly when it is an update of a cached session with another status in its metadata |
| `Sessions.CompletedIsAbsorbing` | orchestrator/session_manager.py:139-316 | once COMPLETED, a row stays COMPLETED over every continuation of every run in which no update to COMPLETED of this session named another status: updates, completions, resets, cache fills, expiry, deletion, clearing and syncing in any order, with any metadata otherwise |
| `Sessions.MetadataReopens` | orchestrator/state_sync.py:177-178 | an instance: completing with another status in the metadata and syncing sets the row to that status, if the session is cached |
| `SessionServices.StateSynchronizer.SetSessionState` | orchestrator/state_sync.py:45-75 | the entry is cached and its id is active |
| `SessionServices.StateSynchronizer.DeleteSessionState` | orchestrator/state_sync.py:106-128 | takes the delete step |
| `SessionServices.StateSynchronizer.SyncStateToDb` | orchestrator/state_sync.py:149-207 | with the cached data, takes the sync step; with any other data, status and known risk score overwrite the row; an unknown session is refused |
| `SessionServices.StateSynchronizer.ClearCache` | orchestrator/state_sync.py:209-232 | the deletion loop takes the clearing step and, from a tracked state, empties the cache |
| `SessionServices.SessionManager.CreateSession` | orchestrator/session_manager.py:80-137 | takes the creation step; a taken id is refused |
| `SessionServices.SessionManager.UpdateSessionStatus` | orchestrator/session_manager.py:139-204 | takes the update step and reports whether the table allowed it |
| `SessionServices.SessionManager.GetSession` | orchestrator/session_manager.py:206-261 | reports the cached or else the stored session, and caches it on a miss |
| `SessionServices.SessionManager.MarkSessionFailed` | orchestrator/session_manager.py:263-276 | takes the update step to FAILED |
| `SessionServices.SessionManager.MarkSessionCompleted` | orchestrator/session_manager.py:278-323 | takes the completion step, whatever the status |
| `SessionServices.WalkPipeline` | orchestrator/session_manager.py:52-204 | a created session taken through QUEUED, PROCESSING, VIDEO_PROCESSING, AUDIO_PROCESSING, EVALUATING and COMPLETED has every update accepted and ends COMPLETED |
| `WorkerTasks.AfterParallel` | workers/tasks.py:64-103 | the callback takes exactly its four steps, or its two when the evaluation raises |
| `WorkerTasks.ProcessInterviewSession` | workers/tasks.py:112-177 | a delivery takes exactly its three steps, or none for an unknown session |
| `WorkerTasks.EvaluatingIsSkipped` | workers/tasks.py:69 | after a delivery with nothing in between the update to EVALUATING is refused, from every status |
| `WorkerTasks.CallbackCompletes` | workers/tasks.py:80-98 | the callback leaves the row COMPLETED with its score and the session uncached, from every state |
| `WorkerTasks.CallbackFails` | workers/tasks.py:101-103 | a raising callback leaves the row FAILED exactly when it was not COMPLETED, CANCELLED or of unknown status |
| `RetryManagement.BackoffRises` | orchestrator/retry_manager.py:166-190 | with a base of at least one second, backoff delays never fall with the attempt, are at most the cap and, if the cap allows, at least one second |
| `RetryManagement.DelayLaws` | orchestrator/retry_manager.py:176-185 | for a base of at least one the first backoff delay is the base, up to the cap; each next one is the one before times the base (exponential) or plus the base (linear), up to the cap |
| `RetryManagement.GrantsOfMeaning` | orchestrator/retry_manager.py:73-121 | the grants of a session are all of its grants, as often as made, and no others |
| `RetryManagement.GrantedDelaysFollow` | orchestrator/retry_manager.py:123-127 | those laws for the delays that were granted on consecutive attempts of a session |
| `RetryManagement.AtMostMaxRetries` | orchestrator/retry_manager.py:73-121 | no session is granted more than max_retries retries |
| `RetryManagement.TotalDelayBound` | orchestrator/retry_manager.py:123-127 | all granted delays of a session add up to at most max_retries * max_delay, overrides included |
| `RetryManagement.CalculatedDelaysRise` | orchestrator/retry_manager.py:123-127 | calculated delays of one session never fall over a run |
| `RetryManagement.ImmediateIsRefused` | orchestrator/retry_manager.py:152-156 | the immediate strategy's calculated delay is never one Redis accepts |
| `RetryManagement.RetryManager.IncrementRetry` | orchestrator/retry_manager.py:215-241 | the count goes up by one and the record of grants stays lawful |
| `RetryManagement.RetryManager.GetRetryInfo` | orchestrator/retry_manager.py:243-280 | reports the count, whether a retry is allowed, and the delay the next one will have |
| `RetryManagement.RetryManager.ScheduleRetry` | orchestrator/retry_manager.py:100-164 | true iff below max_retries with a positive delay; then the entry has the announced delay, or the capped override, and the grant is recorded; the attempt is counted either way |
| `RetryManagement.RetryInARow` | orchestrator/retry_manager.py:100-190 | requests in a row up to max_retries are all granted, with the delays announced before them, which follow those laws; the last is the one stored |
| `RetryManagement.ApplicationRetryManager` | orchestrator/main.py:205 | three retries, base 2, cap 3600, exponential backoff |
| `RetryScanning.RetryScanner.ScanAndDispatch` | workers/tasks.py:197-254 | the nested loops make one pass over the batches laid end to end, and the number reported is the number dispatched |
| `RetryScanning.EveryBatchVisited` | workers/tasks.py:197-207 | every key of every batch is visited |
| `RetryScanning.PassRemovesDispatched` | workers/tasks.py:207-248 | a pass dispatches no key twice, removes exactly the keys it dispatches and leaves the others as they were |
| `RetryScanning.PassIsNeverEarly` | workers/tasks.py:218-236 | each dispatch is of an entry that some visit finds alive, complete and due |
| `RetryScanning.PassDispatchesDue` | workers/tasks.py:212-241 | every entry that a visit finds alive, complete and due is dispatched |
| `RetryScanning.DispatchWindow` | orchestrator/retry_manager.py:136-156 | the entry of a session with a non-empty id is ready exactly from the time it is due until the gap between reading the clock and storing it has passed again |
| `HttpCaching.LatestMeaning` | orchestrator/http_cache.py:29-61 | the vouching evaluation of a name is the latest one kept, with no invalidation since |
| `HttpCaching.FreshMeaning` | orchestrator/http_cache.py:29-48 | there is something to return exactly when some dict or list was evaluated under the name less than ttl ago, with no later invalidation and no later such evaluation; that is what is returned |
| `HttpCaching.EvaluationsMeaning` | orchestrator/http_cache.py:87-95 | the evaluations counted below are all of the name's, as often as they happened, and no others |
| `HttpCaching.HttpCache.CallCached` | orchestrator/http_cache.py:87-95 | a caller is given a value returned less than ttl ago and not invalidated since, and the function runs exactly when there is none |
| `HttpCaching.HttpCache.Invalidate` | orchestrator/http_cache.py:50-61 | the named entries, or without names all of them, are gone |
| `HttpCaching.EvaluationsApart` | orchestrator/http_cache.py:87-95 | without invalidations each evaluation starts at least ttl after the one before it ended |
| `HttpCaching.EvaluationBound` | orchestrator/http_cache.py:87-95 | in any period without invalidations a function that returns dicts or lists runs at most length / ttl + 1 times |
| `RunningMeans.Candidate.UpdateScore` | orchestrator/candidate_manager.py:131-147 | the average is the mean of the history, whose length is the number of interviews |
| `RunningMeans.SuccessesMeaning` | orchestrator/interview_templates.py:156-161 | the number of successes is the number of successful uses |
| `RunningMeans.Template.RecordUsage` | orchestrator/interview_templates.py:156-161 | the success rate is successes divided by uses |
| `RunningMeans.Question.RecordUsage` | orchestrator/question_bank.py:171-177 | the row follows the recurrence on its uses |
| `RunningMeans.AllScoredIsMean` | orchestrator/question_bank.py:171-177 | when every use is scored the average is the mean of the scores |
| `RunningMeans.AverageBetweenScores` | orchestrator/question_bank.py:171-177 | for any mix of scored and unscored uses the average lies between the lowest and the highest score |
| `RunningMeans.AverageNeedsScore` | orchestrator/question_bank.py:171-177 | there is an average exactly when some use was scored |
| `RunningMeans.AverageIsMeanExactly` | orchestrator/question_bank.py:171-177 | for a pattern of scored and unscored uses, the average is the mean of the scores whatever they are exactly when no unscored use comes before a score other than the first |
| `RunningMeans.EdgesGiveMean` | orchestrator/question_bank.py:171-177 | a series with that pattern has the mean of its scores as its average |
| `RunningMeans.SpikeMissesMean` | orchestrator/question_bank.py:171-177 | for any other pattern, all scores 0 but the last 1 give an average that is not their mean |
| `RunningMeans.UnscoredUsesWeigh` | orchestrator/question_bank.py:171-177 | an instance: with one unscored use between two scores the average is their mean only if they are equal |
| `BoundedLogs.AuditLogger.LogEvent` | orchestrator/audit_logger.py:108-110 | the buffer is always the last 500 events since it was last closed |
| `BoundedLogs.AuditLogger.Close` | orchestrator/audit_logger.py:282-284 | the buffer starts anew |
| `BoundedLogs.AuditLogger.GetRecentEvents` | orchestrator/audit_logger.py:232-234 | the newest `limit` of all events, newest first, at most 500; for a limit of zero all that is buffered, for a negative one that many fewer |
| `BoundedLogs.FaultManager.LogFailure` | orchestrator/fault_manager.py:275-280 | each daily list holds that day's newest 1000, newest first, and outlives the sixth day after it |
| `BoundedLogs.FaultManager.GetFailureLog` | orchestrator/fault_manager.py:361-394 | the first `limit` entries of the seven daily lists laid end to end; expiry never hides one of them |

## Left out

- The frontend, the HTTP routes and middleware plumbing, WebSocket broadcasts and logging: user interface and I/O. Of the rate limiter this leaves out the exempt paths and how a client key is built.
- The AI clients, the video, audio and evaluation pipelines and the risk engine: foreign models and sums over a few signals.
- `get_worker_statistics`, `get_estimated_wait_time`, `detect_failed_sessions`, `get_events_by_category`, `export_events`, `get_next_question` and the other report queries: they would add only easy members.
- Interleavings inside one call, locks and the asynchronous form of the cached wrapper: calls are atomic and, where they go through the breaker or the response cache, sequential.
- Redis failures in the session, retry and registry calls: Redis is reachable there. The limiter's behaviour without Redis is modelled.
- The 24-hour lifetime of a worker's hash and the seven days of a retry counter: runs are taken before these expire. Also other writers of the same worker hashes: other processes, and the other registries of this one (`orchestrator/main.py:201-203`), since each registry here owns its hashes.
- `scan_iter` in the Redis wrapper: it records a success before any I/O happens.
- Fields of a session other than status and risk score, and cached fields the database does not have. Of the metadata of an update only the status key is modelled; a `risk_score` key would also change the cached score.
- The answer route of `orchestrator/main.py:1025-1059`, which writes back a cached session it has just read: taken as one step it changes none of the modelled fields on a cache hit; on a miss it fills the cache as the `GetSession` step does.
- The retries Celery itself makes after an exception in the main task: a further delivery is a further run of its steps, which `Sessions.CompletedIsAbsorbing` covers.
- Dispatch: assumes a positive window and clock readings that do not go back.
- AtMostLimitRequests: assumes that the request times of the client strictly increase; for equal times AtMostLimitTimes bounds the number of different times, and LimitHoldsExactly shows that the assumption is needed.
- OutageBound: assumes that every attempt in the period fails with a connection or timeout error, and a positive cooldown; without one the breaker never blocks a call.
- ScanAndDispatch: what the scheduler does with a dispatched session is not part of the scan; like the source, the scan counts and deletes an entry whatever the scheduler answers.
- The number 0.7 for medium priority and all averages are exact here, not floating point.
