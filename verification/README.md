# Gamiscreen verification model

Gamiscreen turns completed tasks into screen time. A server keeps a ledger of minutes per child; an
agent on each device reports the minutes a session was in use and locks it when none are left; on
Windows a service keeps one agent alive per session. This project models that core in Dafny 4.11 and
proves what it keeps over whole runs.

`dafny verify dfyconfig.toml` checks everything.

## Shape of the project

Code that updates state in place is a class here with the same fields, and every method is proved equal
to a transition function on values (`ensures Db() == Ledger.X(old(Db()))`). The properties of whole runs
are lemmas about those functions. Code that is made of expressions stays functions.

| module | part of the system |
|---|---|
| `Prelude` | options, results, sums, ranges, truncating division |
| `Ledger`, `Storage` | the tables and their transactions, as functions and as the storage object |
| `Requests` | what each request does to the tables, said about the request and the rows alone |
| `History`, `Runs`, `Charging` | conservation, the audit trail, the debt's closed form, order independence, submissions; what a minute on two devices costs |
| `Upgrade` | what the migrations put into older databases, and what that means afterwards |
| `Server`, `Cache` | the request handlers; the per-child cache slot at lock and commit granularity |
| `UsageSeries`, `RateLimiter`, `Push` | the usage chart, the login limiter, the push threshold |
| `PendingLog`, `PendingMinutes` | the agent's durable set of unreported minutes and its file |
| `Heartbeat` | the reporting protocol over an unreliable network, with crashes |
| `MainLoop`, `Relocker`, `Countdown` | the agent's loop, the re-lock task, the warnings |
| `Enforcement` | agent and server together, from the counted minute to the lock |
| `Supervisor` | the Windows session supervisor |
| `Percent`, `Urls` | percent-encoding, the URL builders, the path parsers and the access check |

## What holds, and what does not

Some properties one would expect fail in the code as written. For each there is the exact condition under
which it holds, proved for all inputs, and a run or an input that fails it.

- "Simultaneous use on two devices counts once" (`gamiscreen-client/README.md:55`): a usage row is one
  (child, minute, device), and a child pays for its distinct minutes if and only if no minute was reported by
  two devices (`Charging.ChargedPerRow`, `Charging.TwoDevicesPayTwice`). The chart counts minutes, not rows
  (`Charging.ChartAgainstCharges`).
- "Whenever the child's mutex is free, its cache slot is empty or equals the stored minutes": an approval
  commits before it takes the mutex. At every point of every run a filled slot is off by exactly what was
  committed since its value was read, so it is right if and only if that is nothing (`Cache.SlotLag`). It is
  stale already while an approval has yet to write (`Cache.StaleInQuietWindow`), and stays so after the write
  if anything else committed in between (`Cache.ApprovalWindow`, `Cache.HeartbeatInApprovalWindow`).
- "What is pending is eventually charged": an undisturbed exchange delivers if and only if every pending minute
  lies in the server's window (`Heartbeat.ExchangeDelivers`). One saved minute older than seven days makes the
  server refuse every later batch of that device (`Heartbeat.StaleMinuteBlocks`, `Heartbeat.EightDaysOffline`).
- "The migration that introduced the debt column agrees with replaying the rewards": penalties count as debt in
  one and not in the other (`History.MigrationAgainstReplay`, `History.MigrationCountsPenaltyAsDebt`).
- "Remaining and debt account for earnings less charged rows", which holds from a fresh database: on one that the
  migrations filled it holds, then and after any requests, if and only if the rows that share a minute and the
  loans make up exactly the migrated debt (`Upgrade.MigratedConservation`, `Upgrade.PenaltyCountsTwice`).
- "After five failed sends the re-lock task runs until a send succeeds": an update from the server with minutes
  left turns it off as well. It runs if and only if none has come since some event that turned it on
  (`MainLoop.FailsafeHolds`, `MainLoop.ServerEventEndsFailsafe`); what turns it on and off in general is
  `MainLoop.OccupiedExactly`.
- "A session that stays unlocked meets a lock attempt within 65 seconds": each poll that fails to read the lock
  state adds five (`Relocker.RelockedInTime`), and there is an attempt after the first if and only if some poll
  sees the session unlocked (`Relocker.UnseenIsNeverLocked`).
- "An activated session gets a task": if and only if the service is not stopping and no cancelled task of the
  session is still on its way out (`Supervisor.ActivationTakesEffect`, `Supervisor.ActivationLost`).
- "A deactivated session stays down until it is activated again": if and only if the service was stopping or no
  restart of it was on its way (`Supervisor.StaysDeactivated`, `Supervisor.DelayedRestartRevives`).
- "A stopped service finishes when its tasks have exited": if and only if no worker was parked without a task
  (`Supervisor.StopReachesBreak`, `Supervisor.CompletedWorkerIsParked`).
- "A session whose worker is active has a task": while no task of the session has panicked
  (`Supervisor.OneTaskPerSession`); every panic strands its session for good (`Supervisor.PanicStrands`).
- "A minute lies in its bucket": if and only if it is not before 1970 or begins the bucket
  (`UsageSeries.BucketContainsExactly`).
- "A URL that can be built and parsed can be called": the access check lets it through if and only if, besides
  verb and claims, the tenant's name is one segment (`Urls.BuiltPathsParse`, `Urls.AdmitsBuiltPaths`).

## Model

| member | source | states |
|---|---|---|
| Storage.Store.ApplyRewardToBalance | gamiscreen-server/src/storage/mod.rs:988-1032 | the column deltas and the audit row of a loan, a penalty, an earning with debt to repay and one without |
| Storage.Store.AddRewardMinutes | gamiscreen-server/src/storage/mod.rs:631-697 | the reward transaction moves the whole database to the ledger's next state, or leaves it untouched |
| Storage.Store.InsertUsageRows | gamiscreen-server/src/storage/mod.rs:734-746 | conflicting rows are skipped, and the count returned is the number of rows that were new |
| Storage.Store.ProcessUsageMinutes | gamiscreen-server/src/storage/mod.rs:699-762 | a batch is refused whole if it is empty or any minute is out of the window; otherwise each new row is charged once |
| Storage.Store.SubmitTask | gamiscreen-server/src/storage/mod.rs:421-440 | a submission is stored under the next id, which then moves on; nothing else changes |
| Storage.Store.ApproveSubmission | gamiscreen-server/src/storage/mod.rs:485-562 | an approval grants, completes and removes in one transaction, or leaves the database untouched |
| Storage.Store.DiscardSubmission | gamiscreen-server/src/storage/mod.rs:564-575 | a discard removes that submission only |
| Storage.Store.SeedFromConfig | gamiscreen-server/src/storage/mod.rs:66-123 | configured children get zero balances only if they had none; configured tasks replace their rows |
| Storage.Store.ListUsageMinutes | gamiscreen-server/src/storage/mod.rs:764-789 | the distinct minutes any device of the child reported in the window, all of them, ascending |
| Requests.RewardRequest | gamiscreen-server/src/server/mod.rs:520-621 | which rewards are refused; any other adds one reward row with the minutes asked for, credits the columns, and completes a named task in the child's name at that time, so it counts as done that day; without a task completions are unchanged |
| Requests.UsageRequest | gamiscreen-server/src/storage/mod.rs:699-762 | a batch is accepted if and only if it is not empty, its child is known and every minute lies from seven days before the current minute to five minutes after; it then leaves a row for each minute and each new row costs one minute |
| Requests.ApprovalRequest | gamiscreen-server/src/storage/mod.rs:485-562 | an approval of a pending submission credits, rewards and completes the submitted task for the submitting child and removes the submission; any other approval changes nothing |
| Requests.ConfigureRequest | gamiscreen-server/src/storage/mod.rs:66-123 | every balance stays, a new child gets an empty one, configured tasks are taken over as they are and others stay |
| Requests.AuditTrail | gamiscreen-server/src/storage/mod.rs:988-1032 | in every reachable state each audit row belongs to a reward row of its child, later ones to later rewards: the whole of a loan, or between nothing and the whole of an earning |
| History.EffectReflects | gamiscreen-server/src/storage/mod.rs:999-1031 | one reward moves the debt as a walk reflected at zero, accounts for every minute and audits exactly the debt's change |
| History.ConservationAndAudit | gamiscreen-server/src/storage/mod.rs:631-762 | in every reachable state, for every child: remaining + debt = minutes earned - usage rows, debt = sum of the audit trail = reflected reward walk, debt never positive |
| History.ReflectedClosedForm | gamiscreen-server/src/storage/mod.rs:1006-1031 | the reflected walk equals the total less the largest prefix sum, for every walk |
| History.ReflectedIsMinSuffix | gamiscreen-server/src/storage/mod.rs:1006-1031 | the reflected walk equals the least suffix sum, the empty one included |
| History.DebtClosedForm | gamiscreen-server/src/storage/mod.rs:988-1032 | a child's stored debt in any reachable state, computed from its reward rows alone |
| History.MigrationAgainstReplay | gamiscreen-server/migrations/00000000000010_account_balance/up.sql:20-24 | the migrated debt is no deeper than the replayed one if and only if penalties do not outweigh what the replay forgave; always so without penalties, and then equal exactly when the walk ends at its peak or never rises above zero |
| History.MigrationCountsPenaltyAsDebt | gamiscreen-server/migrations/00000000000010_account_balance/up.sql:20-24 | a history with one penalty on which migration and replay differ |
| Upgrade.RunKeepsGaps | gamiscreen-server/src/storage/mod.rs:631-762 | from any tables, no request changes how far a child's columns are from its earnings less charged rows, or its debt from its audit trail |
| Upgrade.MigratedConservation | gamiscreen-server/migrations/00000000000009_balance_remaining_borrowing/up.sql:7-24 | on a migrated database, after any requests, remaining + debt = earned - rows if and only if rows sharing a minute plus loans equal the migrated debt; without loans and net penalty, if and only if no minute was shared |
| Upgrade.PenaltyCountsTwice | gamiscreen-server/migrations/00000000000010_account_balance/up.sql:20-24 | a lone penalty is both taken from the minutes and counted as debt |
| History.EarningsMerge | gamiscreen-server/src/storage/mod.rs:1016-1027 | earning a then b leaves the same debt as earning a + b, whatever came before and comes after |
| History.GrantsMerge | gamiscreen-server/src/storage/mod.rs:646-695 | the same for both columns of every child |
| Runs.TablesAreTheLog | gamiscreen-server/src/storage/mod.rs:631-762 | reward, completion and usage tables hold exactly what the run's committed events produced |
| Runs.OrderIndependence | gamiscreen-server/src/storage/mod.rs:631-762 | equal order of loans and earnings, equal penalty total and equal usage rows give equal columns, however batches are split, repeated or interleaved |
| Runs.PermutedRunsAgree | gamiscreen-server/src/storage/mod.rs:631-762 | two serial orders of the same transactions that keep loans and earnings in order end alike |
| Runs.SubmissionLifecycle | gamiscreen-server/src/storage/mod.rs:421-575 | in every run each submission id is pending, approved once or discarded once, never two of these, and the counts add up |
| Runs.NextIdIsNew | gamiscreen-server/src/storage/mod.rs:421-440 | in every reachable state the next id is one no submission is pending, approved or discarded under |
| Runs.ApprovalsHonourSubmissions | gamiscreen-server/src/storage/mod.rs:421-562 | in every run an approval's reward and completion rows are for the child and task submitted under its id earlier |
| Runs.ApprovalIsAllOrNothing | gamiscreen-server/src/storage/mod.rs:485-562 | an approval adds one reward, one completion and touches one balance, exactly when the submission, its task and its child are there; any other changes nothing |
| Runs.RequiredTasksToday | gamiscreen-server/src/storage/mod.rs:943-975 | the set comparison means: every required task has a completion by this child in the current UTC day |
| Charging.MinutesAndRows | gamiscreen-server/migrations/00000000000004_usage_minutes/up.sql:2-8 | a child's distinct minutes are no more than its rows, and as many if and only if no minute was reported by two devices |
| Charging.ChargedPerRow | gamiscreen-server/src/storage/mod.rs:734-753 | in every reachable state a child has paid at least its distinct minutes, and exactly those if and only if no minute was reported by two devices |
| Charging.ChartAgainstCharges | gamiscreen-server/src/storage/mod.rs:764-789 | the same for the chart's total against the rows of any window |
| Charging.TwoDevicesPayTwice | gamiscreen-server/src/storage/mod.rs:734-753 | any two devices reporting one minute: charged twice, shown once |
| Server.OutOfTime | gamiscreen-server/src/server/mod.rs:116-134 | effective minutes run out exactly when the stored ones do or some required task is open today |
| Server.StatusSays | gamiscreen-server/src/server/mod.rs:116-134 | the balance is the account column; blocked if and only if some required task has no completion of this child today; effective is the remaining column, or 0 when blocked |
| Server.AppState.ChildMutex | gamiscreen-server/src/server/mod.rs:70-75 | creating a slot changes no child's cached value |
| Server.AppState.ComputeChildStatus | gamiscreen-server/src/server/mod.rs:116-134 | the answer says of the current tables what `Server.StatusSays` states, and is an error exactly for an unknown child |
| Server.AppState.RemainingMinutes | gamiscreen-server/src/server/mod.rs:143-166 | a filled slot is trusted, an empty one is filled from the row, other slots stay |
| Server.AppState.ApiRemaining | gamiscreen-server/src/server/mod.rs:481-500 | coherence is kept and the answer is such a status of the tables, not of the cache; an error exactly for an unknown child |
| Server.AppState.Validate | gamiscreen-server/src/server/mod.rs:540-587 | which reward requests are refused, and the minutes of the others |
| Server.AppState.ApiChildReward | gamiscreen-server/src/server/mod.rs:520-621 | the tables move as the transition system does, the slot holds the new minutes, and the answer is a status of the new tables; refused requests change nothing; coherence is kept |
| Server.AppState.HeartbeatCharge | gamiscreen-server/src/server/mod.rs:1055-1065 | under the mutex: tables and slot are those of one usage step; a refused batch leaves both alone |
| Server.AppState.ApiDeviceHeartbeat | gamiscreen-server/src/server/mod.rs:1048-1086 | the batch is charged, any requests of others commit after the mutex is released, and the answer is a status of the tables they leave; a slot that was coherent stays so |
| Server.AppState.ApiSubmitTask | gamiscreen-server/src/server/mod.rs:1011-1045 | a submission of an unknown task is refused, any other is stored; no slot changes |
| Server.AppState.ServeAll | gamiscreen-server/src/server/mod.rs:520-1086 | any run of requests moves the tables as the transition system does and keeps every coherent slot coherent |
| Server.AppState.ApiApproveSubmission | gamiscreen-server/src/server/mod.rs:959-992 | in its two steps with any requests of others between: the child's slot ends as the minutes stored by the approval's own commit, coherent if and only if the others left them so; other slots keep their coherence; the answer is an error exactly when the storage call fails |
| Cache.CoherentWithoutApprovals | gamiscreen-server/src/server/mod.rs:143-166 | in every interleaving of rewards, heartbeats, remaining reads and SSE snapshots a free slot is empty or equals the row |
| Cache.SlotLag | gamiscreen-server/src/server/mod.rs:959-992 | in every interleaving of all handlers over any number of children, approvals as two steps, at every point: stored minus slot is exactly what was committed since the slot's value was read; coherent if and only if that is zero |
| Cache.ChildrenAreIndependent | gamiscreen-server/src/server/mod.rs:70-75 | a child's cell after any run is what its own actions make of it |
| Cache.ApprovalWindow | gamiscreen-server/src/server/mod.rs:967-976 | after an approval's write the slot is off by exactly what was committed between its commit and its write |
| Cache.CoherentAfterQuietWindows | gamiscreen-server/src/server/mod.rs:959-992 | if nothing else commits while an approval has yet to write, a free slot is empty or right once all have written; until then it may be stale |
| Cache.StaleInQuietWindow | gamiscreen-server/src/server/mod.rs:967-976 | a run in which a free, filled slot is stale before the approval's write although nothing else commits |
| Cache.HeartbeatInApprovalWindow | gamiscreen-server/src/server/mod.rs:967-976 | a run in which a heartbeat in that window leaves a stale slot for good |
| Cache.FilledSlotIsTrusted | gamiscreen-server/src/server/mod.rs:143-166 | while only readers take the mutex and no approval writes, a filled slot stays as it is, whatever approvals commit |
| Cache.MutexComesFree | gamiscreen-server/src/server/mod.rs:520-621 | from wherever a handler is, its own next steps free the mutex, commit nothing and write at most the value it carries |
| UsageSeries.BucketContains | gamiscreen-server/src/server/mod.rs:784-785 | after the epoch a minute's bucket is the only aligned one that contains it |
| UsageSeries.BucketContainsExactly | gamiscreen-server/src/server/mod.rs:784-785 | for any minute, its computed bucket contains it if and only if it is not before the epoch or begins the bucket |
| UsageSeries.BucketsMonotone | gamiscreen-server/src/server/mod.rs:780-785 | later minutes never fall to earlier buckets, before the epoch too |
| UsageSeries.CountMinutes | gamiscreen-server/src/server/mod.rs:782-790 | the tally holds exactly the buckets that occur, each with its number of minutes |
| UsageSeries.Emit | gamiscreen-server/src/server/mod.rs:792-809 | buckets are aligned and gap-free, each with its tally, and the total counts all of them |
| UsageSeries.BuildSeries | gamiscreen-server/src/server/mod.rs:779-809 | the two loops together, for any window and bucket size, before the epoch too |
| UsageSeries.SeriesCovers | gamiscreen-server/src/server/mod.rs:780-809 | the buckets cover the window and number fewer than span / bucket + 2 |
| UsageSeries.TotalOfSet | gamiscreen-server/src/server/mod.rs:792-809 | the total is the number of distinct minutes in the window: nothing is left in the tally |
| UsageSeries.SeriesTallies | gamiscreen-server/src/server/mod.rs:779-809 | for any window each bucket counts the child's distinct minutes that truncation puts there, and the total those whose bucket begins before the end |
| UsageSeries.ApiListChildUsage | gamiscreen-server/src/server/mod.rs:760-829 | the window ends with the current minute and spans the days asked for, 1 to 90 or 7 by default, in buckets of the size asked for, 1 to 1440 or 60 by default; for any window the tallies above; for windows that begin in 1970 or later the buckets cover the window, each counts the distinct minutes inside it, and the total is those in the window |
| RateLimiter.WindowHoldsAtMostMax | gamiscreen-server/src/server/rate_limit.rs:52-80 | no half-open window of the configured length holds more than the maximum of accepted attempts |
| RateLimiter.RetryAfterIsExact | gamiscreen-server/src/server/rate_limit.rs:66-76 | the true wait is below the answer and within one second of it; with nothing accepted meanwhile a retry passes if and only if the true wait is over |
| RateLimiter.LoginRateLimiter.CheckRateLimit | gamiscreen-server/src/server/rate_limit.rs:52-80 | the stored entries decide, whatever the clock reads; if no earlier call read a later time they decide as the full accepted log would, and equal that log cut to the window, for every address |
| RateLimiter.LoginRateLimiter.StoredLists | gamiscreen-server/src/server/rate_limit.rs:52-80 | every stored list is not empty, in order and no longer than the maximum |
| RateLimiter.LoginRateLimiter.Evict | gamiscreen-server/src/server/rate_limit.rs:58-62 | expired entries and empty lists go; if no earlier call read a later time each address then stores its accepted log cut to the window |
| RateLimiter.LoginRateLimiter.NeverTooMany | gamiscreen-server/src/server/rate_limit.rs:52-80 | the window bound for any limiter after any calls |
| Push.PushServiceInner.ShouldPushRemaining | gamiscreen-server/src/server/push.rs:208-240 | for any values of any children: a push when the minutes rise, or when they are 1 to 5 and were above 5 or never seen |
| Push.OnePushPerDescent | gamiscreen-server/src/server/push.rs:208-240 | a non-increasing run pushes at most once, and once exactly if it visits 1..5 |
| PendingLog.ParseDisplay | gamiscreen-client/src/app/agent.rs:306-320 | every 64-bit minute survives being written and read, negatives included |
| PendingLog.ParsesExactly | gamiscreen-client/src/app/agent.rs:311-317 | exactly the texts that parse and to what: an optional sign, any zeros and the number, if it fits 64 bits |
| PendingLog.LoadSaved | gamiscreen-client/src/app/agent.rs:301-378 | loading the saved text gives the same set of minutes |
| PendingLog.JunkLineIgnored | gamiscreen-client/src/app/agent.rs:306-318 | a blank or unparsable line anywhere between lines changes nothing |
| PendingLog.PaddedLine | gamiscreen-client/src/app/agent.rs:306-312 | white space around a number is ignored |
| PendingLog.BlankLine | gamiscreen-client/src/app/agent.rs:306-310 | a line of white space holds no minute |
| PendingLog.LastLine | gamiscreen-client/src/app/agent.rs:303-318 | a last line that nothing ends counts like any other |
| PendingMinutes.PendingMinutes.Load | gamiscreen-client/src/app/agent.rs:301-323 | a missing file is an empty log and any other read failure an error; otherwise memory equals what the text holds |
| PendingMinutes.PendingMinutes.Collect | gamiscreen-client/src/app/agent.rs:303-318 | the lines that hold a minute, each minute once, in order |
| PendingMinutes.PendingMinutes.Insert | gamiscreen-client/src/app/agent.rs:341-346 | the minute is in memory whether or not the save succeeds; a known minute is not saved again |
| PendingMinutes.PendingMinutes.MarkSent | gamiscreen-client/src/app/agent.rs:348-367 | sent minutes leave memory and disk, or, when the save fails, all are back in memory |
| PendingMinutes.PendingMinutes.Save | gamiscreen-client/src/app/agent.rs:369-378 | the file then parses to exactly the minutes in memory |
| Heartbeat.StepRows | gamiscreen-server/src/storage/mod.rs:727-750 | rows are never taken back and a device's rows grow by its own charged batches only |
| Heartbeat.ExactlyOnce | gamiscreen-client/src/app/agent.rs:266-379 | over lost, late and repeated requests, failed saves, crashes and any number of devices: disk within memory, saved minutes on disk or charged, rows within counted minutes, and remaining lower by exactly the rows |
| Heartbeat.OnlyCrashesLose | gamiscreen-client/src/app/agent.rs:266-379 | in every run without a crash of the agent, every minute it counted is in memory or charged |
| Heartbeat.AnswerAcknowledgesAll | gamiscreen-client/src/app/agent.rs:266-286 | in every run, while the agent waits for an answer its memory is what it sent: a success empties memory and disk, or leaves both when the save fails |
| Heartbeat.CountTakesEffect | gamiscreen-client/src/app/agent.rs:341-346 | counting between requests puts the minute in memory, and on disk if it is new and the save succeeds |
| Heartbeat.DeliveryIffInWindow | gamiscreen-server/src/storage/mod.rs:708-760 | a delivered batch is charged whole if and only if it is not empty, its child is known and every minute is in the window; otherwise nothing happens |
| Heartbeat.ExchangeDelivers | gamiscreen-client/src/app/agent.rs:266-286 | after giving up whatever request was out, an undisturbed exchange turns everything pending into rows and empties memory and disk if and only if the child is known and all of it lies in the window; otherwise nothing changes |
| Heartbeat.StaleMinuteBlocks | gamiscreen-server/src/storage/mod.rs:715-725 | once a saved minute is older than the window, no later batch of that device is ever accepted |
| Heartbeat.EightDaysOffline | gamiscreen-server/src/storage/mod.rs:715-725 | a one-step run that reaches a saved minute too old eight days later |
| MainLoop.Agent.SendPending | gamiscreen-client/src/app/agent.rs:266-286 | what is sent, what is marked, and when the result is an error |
| MainLoop.Agent.Interval | gamiscreen-client/src/app/agent.rs:178-259 | one turn from any slot: the next counter, the calls it makes, the slot it leaves, and what is pending: an unlocked one counts the minute on the clock and an answered one marks the whole batch; a locked one leaves it alone |
| MainLoop.Agent.RunEvents | gamiscreen-client/src/app/agent.rs:159-259 | over any interleaving of intervals and server events: the counter is the failed sends since the last success modulo five, and the calls, the slot and the pending minutes are as specified, from any slot |
| MainLoop.Agent.RunLoop | gamiscreen-client/src/app/agent.rs:159-264 | the loop and its shutdown: the slot ends empty unless the last server event between the disable and the end of the SSE task has no minutes left |
| MainLoop.EveryMinuteCounts | gamiscreen-client/src/app/agent.rs:199-286 | in every interleaving: the minute of every unlocked interval is still in memory or was in a batch, its own interval's or a later one's, that was answered and marked |
| MainLoop.NothingInvented | gamiscreen-client/src/app/agent.rs:199-286 | nothing is pending that was not on the clock in some unlocked interval or pending at the start |
| MainLoop.FailuresAreCounted | gamiscreen-client/src/app/agent.rs:238-249 | the count of failures is the number of failed sends that no success followed |
| MainLoop.CountdownFollows | gamiscreen-client/src/app/agent.rs:178-259 | the countdown goes by the last interval that did not fail: the minutes of its answer, or off if none were left or the session was locked |
| MainLoop.SlotFollowsCalls | gamiscreen-client/src/app/agent.rs:178-259 | without server events the slot is what the loop's own enable and disable calls make of it |
| MainLoop.RelockedByAnswers | gamiscreen-client/src/app/agent.rs:229-236 | the loop enables the re-lock task with a number of minutes if and only if some answer had that number, not above zero |
| MainLoop.RelockedByFailures | gamiscreen-client/src/app/agent.rs:238-249 | it enables it without one if and only if some failed send was the fifth in a row, the tenth, and so on |
| MainLoop.OccupiedExactly | gamiscreen-client/src/app/agent.rs:178-259 | in every interleaving of intervals and server events: the slot is occupied if and only if some event turned the re-lock task on and none since turned it off, or it was occupied and nothing turned it off |
| MainLoop.EnforcesTheLedger | gamiscreen-client/src/app/agent.rs:214-236 | once an answer that is the child's status in some tables has been handled, the slot is occupied if and only if nothing is left in those tables, whatever intervals and server events came before |
| Enforcement.Exchange | gamiscreen-server/src/server/mod.rs:1048-1086 | unless the request is lost, an accepted batch has a row for every minute afterwards; an answer comes back only for a charged batch, and it is a status of the child in the tables after the charge and what others committed meanwhile |
| Enforcement.HeartbeatInterval | gamiscreen-client/src/app/agent.rs:198-250 | one unlocked interval through the real handler, from any slot and any cache: the minute is counted, the batch posted is charged, and after an answered, marked batch nothing posted is pending and the slot is occupied if and only if stored minutes are used up or a required task is open in the tables the answer was read from; otherwise the slot is as before, or occupied at the fifth failure |
| MainLoop.FailsafeHolds | gamiscreen-client/src/app/agent.rs:238-249 | with five or more failed sends since the last success, the re-lock task runs if and only if since some event that turned it on no server event with minutes left has come; always so without such events |
| MainLoop.ServerEventEndsFailsafe | gamiscreen-client/src/app/agent.rs:680-688 | a run that fails the condition: five failed sends, then a server event with minutes left |
| Relocker.EveryTaskIsOwned | gamiscreen-client/src/app/agent.rs:608-668 | in every interleaving each spawned task is in the slot, with one disable in progress, or aborted, and never two of these |
| Relocker.OneTaskAtRest | gamiscreen-client/src/app/agent.rs:608-668 | with no disable in progress the one task not aborted is the one in the slot |
| Relocker.DelayNeverGrows | gamiscreen-client/src/app/agent.rs:712-718 | the delay never increases, is a minute at most and gone after six |
| Relocker.DelayByMinute | gamiscreen-client/src/app/agent.rs:712-718 | the delay is 60, 50, 40, 30, 20 and 10 seconds in the first six minutes and none after |
| Relocker.AttemptsExactly | gamiscreen-client/src/app/agent.rs:622-655 | the attempts are the first one and one at the end of the delay of each poll that sees the session unlocked, no others |
| Relocker.GraceIsGiven | gamiscreen-client/src/app/agent.rs:628-655 | between such a poll and its attempt there is no other attempt |
| Relocker.RelockedInTime | gamiscreen-client/src/app/agent.rs:622-655 | a session unlocked at u, seen so by a poll after f polls that do not see it, meets a lock attempt within 5 (f + 1) seconds plus the delay due at u; with f = 0 that is at most 65, and 5 after six minutes |
| Relocker.UnseenIsNeverLocked | gamiscreen-client/src/app/agent.rs:628-654 | there is an attempt after the first if and only if some poll sees the session unlocked; otherwise polls go on every five seconds |
| Relocker.RelockTask.RunTask | gamiscreen-client/src/app/agent.rs:622-655 | the task's attempts and polls happen at the specified instants |
| Relocker.ReLocker.Enable | gamiscreen-client/src/app/agent.rs:608-657 | a task is spawned unless the slot holds one |
| Relocker.ReLocker.OnRemainingUpdated | gamiscreen-client/src/app/agent.rs:680-688 | a server event disables or enables, from any slot |
| Relocker.ReLocker.Disable | gamiscreen-client/src/app/agent.rs:659-668 | the task is taken out and aborted |
| Countdown.AlwaysKept | gamiscreen-client/src/app/agent.rs:402-476 | a kept schedule has not warned, its warning lies within the warning time of its end, and the timer is set for it |
| Countdown.TimerAlwaysWarns | gamiscreen-client/src/app/agent.rs:459-474 | a timer that fires on a schedule warns and drops it |
| Countdown.NoticesAreHonest | gamiscreen-client/src/app/agent.rs:402-476 | for any stream: no warning before it is due, at most one per schedule, cautions and clears alternate within a schedule |
| Countdown.UpdateExactly | gamiscreen-client/src/app/agent.rs:409-445 | after any stream an update sets the end to the seconds left from now and the timer to the warning time before it, and shows or clears a caution exactly when the limit is crossed |
| Countdown.CancelExactly | gamiscreen-client/src/app/agent.rs:446-474 | a cancel drops the schedule and hides; a timer without a schedule or before its time shows nothing; a timer that has fired is put off |
| Countdown.WarningsFifteenSecondsApart | gamiscreen-client/src/app/agent.rs:482-498 | with whole-minute updates warnings are at least 15 seconds apart |
| Countdown.CountdownSchedule.UpdateDeadline | gamiscreen-client/src/app/agent.rs:533-564 | the new deadlines, flags and caution action |
| Countdown.CountdownSchedule.Fire | gamiscreen-client/src/app/agent.rs:574-584 | it warns when due and not warned yet |
| Countdown.CountdownTask.OnUpdate | gamiscreen-client/src/app/agent.rs:409-445 | the task's state and notices after an update |
| Countdown.CountdownTask.OnCancel | gamiscreen-client/src/app/agent.rs:446-450 | the task's state and notices after a cancel |
| Countdown.CountdownTask.OnTimer | gamiscreen-client/src/app/agent.rs:459-474 | the task's state and notices after the timer |
| Countdown.CountdownTask.Tick | gamiscreen-client/src/app/agent.rs:482-491 | the minutes left reach the task as sixty seconds each |
| Supervisor.OneTaskPerSession | gamiscreen-client/src/platform/windows/service.rs:424-568 | in every reachable state, panics included, a session has at most one task, of its active worker's generation, so no exit is stale; while no task of the session has panicked its worker is active exactly when it has that task |
| Supervisor.ActivationTakesEffect | gamiscreen-client/src/platform/windows/service.rs:424-448 | an activation leaves a live task if and only if the service is not stopping and no cancelled task of the session remains; a deactivation always leaves none |
| Supervisor.ActivationLost | gamiscreen-client/src/platform/windows/service.rs:432-434 | a run in which an activation during a cancelled task's last moments changes nothing |
| Supervisor.StaysDeactivated | gamiscreen-client/src/platform/windows/service.rs:414-448 | after a deactivation no continuation without an activation of the session or a panic makes it live, if and only if the service was stopping or no restart of it was on its way |
| Supervisor.DelayedRestartRevives | gamiscreen-client/src/platform/windows/service.rs:414-419 | a run that fails the condition: a delayed restart brings back a deactivated session |
| Supervisor.RestartsBackOff | gamiscreen-client/src/platform/windows/service.rs:458-521 | over every panic-free run the restarts on their way are those scheduled and not yet due: an uncancelled task that fails schedules one, after 1, 5, 15, 30 and from the fifth failure in a row on 60 seconds; no other exit does |
| Supervisor.NextFailureWaits | gamiscreen-client/src/platform/windows/service.rs:580-590 | in every panic-free run: after k failures in a row of a session the next failure of its uncancelled task adds exactly one restart with the k-th delay |
| Supervisor.ExitDecides | gamiscreen-client/src/platform/windows/service.rs:458-514 | in every panic-free run an exit removes its worker if and only if the task had been cancelled, and touches no other session |
| Supervisor.StopReachesBreak | gamiscreen-client/src/platform/windows/service.rs:361-456 | after Stop no task starts, all are cancelled, each exit removes one, and the loop reaches its break after exactly that many exits if and only if no worker was parked |
| Supervisor.CompletedWorkerIsParked | gamiscreen-client/src/platform/windows/service.rs:485-491 | a run that parks a worker: a task that completes leaves one, and Stop does not then reach the break |
| Supervisor.PanicStrands | gamiscreen-client/src/platform/windows/service.rs:517-519 | after any panic, whatever panicked before, the session never gets a task again and the loop never breaks |
| Supervisor.SessionSupervisor.StartWorker | gamiscreen-client/src/platform/windows/service.rs:545-562 | a start bumps the generation, adds one task with a fresh token and leaves the backoff alone, which `Supervisor.RestartsBackOff` depends on |
| Supervisor.SessionSupervisor.ActivateSession | gamiscreen-client/src/platform/windows/service.rs:424-437 | the transition of an activation, field by field |
| Supervisor.SessionSupervisor.DeactivateSession | gamiscreen-client/src/platform/windows/service.rs:439-448 | the transition of a deactivation |
| Supervisor.SessionSupervisor.CancelAllWorkers | gamiscreen-client/src/platform/windows/service.rs:450-456 | every worker is marked and its token cancelled, whatever the order |
| Supervisor.SessionSupervisor.HandleExit | gamiscreen-client/src/platform/windows/service.rs:458-521 | the transition of an exit: stale, failed with and without restart, requested |
| Supervisor.SessionSupervisor.NextDelay | gamiscreen-client/src/platform/windows/service.rs:580-590 | the delays 1, 5, 15, 30, 60, 60, ... seconds, with a saturating attempt counter |
| Supervisor.SessionSupervisor.HandleEvent | gamiscreen-client/src/platform/windows/service.rs:387-422 | one turn of the loop is one step of the machine |
| Supervisor.SessionSupervisor.RunLoop | gamiscreen-client/src/platform/windows/service.rs:361-378 | the loop is a run of the machine and leaves at the first state that is at its break, and nowhere else |
| Percent.LossyUtf8OfUtf8 | gamiscreen-shared/src/path.rs:37-42 | lossy decoding recovers every string from its UTF-8 bytes (RFC 3629 section 3) |
| Percent.FirstExactly | gamiscreen-shared/src/path.rs:37-42 | for any bytes: a character whose UTF-8 form begins them, or one replacement character for the longest start of such a form, a single byte if there is none (RFC 3629 section 3) |
| Percent.DecodeEnc | gamiscreen-shared/src/api/endpoints.rs:17-19 | decoding recovers every string from its percent-encoded form (RFC 3986 section 2.1) |
| Percent.EncIsASegment | gamiscreen-shared/src/api/endpoints.rs:17-19 | an encoded string has no slash and is empty only for the empty string |
| Percent.EncPlain | gamiscreen-shared/src/api/endpoints.rs:17-19 | ASCII letters and digits are encoded as themselves |
| Percent.DecodesToItself | gamiscreen-shared/src/path.rs:37-42 | decoding leaves bytes alone if and only if no percent sign among them is followed by two hexadecimal digits |
| Percent.DecodeSpelled | gamiscreen-shared/src/path.rs:37-42 | however a text escapes a string, percent signs always and with digits of either case, it is decoded to that string |
| Urls.SplitSlashed | gamiscreen-shared/src/path.rs:24-34 | splitting at slashes recovers appended segments |
| Urls.UrlIsBaseAndPath | gamiscreen-shared/src/api/endpoints.rs:11-15 | a built URL is the trimmed base followed by the endpoint's path |
| Urls.SlashesDoNotMatter | gamiscreen-shared/src/api/endpoints.rs:11-15 | however many slashes end the base, the URL is the base without them followed by the path |
| Urls.HeartbeatPath | gamiscreen-shared/src/api/endpoints.rs:102-117 | the heartbeat path, letter by letter |
| Urls.DistinctUrls | gamiscreen-shared/src/api/endpoints.rs:42-146 | within a tenant, equal URLs mean the same endpoint, child and device |
| Urls.BuiltPathsParse | gamiscreen-shared/src/path.rs:7-44 | parsing any built path gives its child, and its device for heartbeats, and nothing exactly when an id is empty or not part of it |
| Urls.AdmitsBuiltPaths | gamiscreen-server/src/server/acl.rs:84-136 | a child's token passes on a built path if and only if the tenant is one segment, the verb fits and child and device are the token's |
| Urls.AllowsExactly | gamiscreen-server/src/server/acl.rs:84-109 | for any segments at all, the exact rules under which a child's token passes |
| Urls.OnlyOwnChild | gamiscreen-server/src/server/acl.rs:84-136 | any path that is let through and has "children" after the tenant has a next segment that decodes to the token's child; any other is the tasks or the configuration, with GET |
| Urls.AdmitsSubmit | gamiscreen-server/src/server/acl.rs:91-93 | a task submission for any two segments passes if and only if the tenant is one segment, the verb is POST and the child segment decodes to the token's child |
| Urls.ParsersAgree | gamiscreen-server/src/server/acl.rs:28-136 | on any path at all, what the shared parser reads from an admitted one is what the token names |

## Left out

- Integer width: stored counters are unbounded here; `saturating_abs` differs from the absolute value only at the least 32-bit integer.
- Foreign keys: no code enables their enforcement in SQLite, so the tables are not constrained by them; the children table is identified with the balances rows that seeding creates beside it.
- Row descriptions, timestamps other than completion times, row order, and reward-history paging.
- The usage query: `Storage.Store.ListUsageMinutes` has a loop where the server has one SQL statement.
- Server.AppState.ServeAll: other requests come whole between the steps of one; their own steps interleave in `Cache`. Broadcast events are not modelled.
- Server.AppState.ApiRemaining: the error of an unknown child is one value, without its message.
- UsageSeries.ApiListChildUsage: the ISO timestamps and their range errors are not modelled; that buckets cover the window and count what lies inside them is promised for windows that do not begin before 1970, where it can fail.
- RateLimiter.LoginRateLimiter.CheckRateLimit: agreement with the full log is promised for calls handled in the order of their clock readings, as if each read the clock inside the lock; the maximum is at least one.
- PendingMinutes.PendingMinutes.Save: writes all or nothing; a torn file is not modelled.
- PendingMinutes.PendingMinutes.Load: what reading the file gives, text or a failure, is its input.
- PendingMinutes: the ordered set is an ascending sequence.
- Heartbeat: the agent's own next request follows the end of the previous one; clocks are arbitrary values given at delivery.
- Relocker.RelockedInTime: operating-system calls take no time and sleeps last as asked.
- Relocker.RelockTask.RunTask: covers as many polls as there are observations; notifications and failed lock calls are not modelled.
- Enforcement.HeartbeatInterval: an interval writes the slot once, at its end, so a server event that arrives while one is under way is taken to come before it; the steps inside enabling and disabling are `Relocker.EveryTaskIsOwned`.
- MainLoop: the sleep between intervals, and a cancellation that cuts it short, only end the sequence of intervals.
- Countdown: the end of the command channel; `farInFuture` is one fixed instant, so an idle timer may lie in the past.
- Supervisor: enumerating sessions at start, a closed event channel, and everything that calls Windows; a task is a value that exits in one of three ways or panics.
- Urls: endpoints without a tenant, the parent's rules of the access check, and routing.
- JWT, sessions, bcrypt, web push sending, SSE reconnecting, self-update, installers, keyring, DBus and the web application.
