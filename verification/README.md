# The decision core of GoreeCloud Monitor

GoreeCloud Monitor checks services and scheduled jobs, decides when each is down, keeps incidents, and
announces every transition through a durable notification outbox. This project models that decision
core and proves what it keeps over every run. It is plain Dafny 4.11; `dafny verify dfyconfig.toml`
checks all of it.

Every function that the program runs inside one database transaction is one atomic step. Instants and
durations are whole microseconds. Rows of a table are sequences or maps; what a class of the program
updates in place is a class here, whose methods are proved against a function of the old state, and the
laws are lemmas about that function. Library answers the program relies on (croniter, OnCalendar,
SHA-256, `isoformat`, the parts of `urlsplit` named below) are parameters constrained only by what they
promise; `CodecExists.ExampleIsFaithful`, `ScheduleLaws.EveryMinute` and `DnsTarget.NumericLibrary` show that
these promises can be kept together.

| file | subject |
|---|---|
| `Common.dfy`, `Text.dfy`, `Ordering.dfy` | optional values, row filters, clock units; `strip`, slices, decimal numerals; sorting of names |
| `JobEvents.dfy`, `EvaluatorLaws.dfy`, `ScheduleLaws.dfy` | the scheduled-job log, what the dead-man evaluator answers, CRON against ONCALENDAR |
| `Signals.dfy`, `SignalEffects.dfy`, `SignalLaws.dfy` | signal ingestion: replay, rate limit, START/terminal correlation |
| `Retention.dfy` | history pruning, and a pruned log beside the full one |
| `Engine.dfy`, `EngineHistory.dfy`, `EngineLaws.dfy` | threshold counters, states, incidents, the notification stream |
| `Detection.dfy` | worker loop, evaluator and thresholds together: the detection bound |
| `Notify.dfy`, `PayloadLaws.dfy`, `Publisher.dfy` | the notification producer contract and the bounded publish loop |
| `CodecExists.dfy` | a codec that keeps what the producer contract takes of SHA-256 and `isoformat` |
| `Outbox.dfy`, `OutboxLaws.dfy` | the outbox table and the drain pass |
| `Delivery.dfy` | the delivery protocol: drainers, losses, crashes and pruning against an idempotent receiver |
| `DeliveryOrder.dfy` | the order in which one monitor's notifications reach the receiver |
| `Icmp.dfy` | the Internet checksum (section 1 of RFC 1071) |
| `Parallel.dfy` | the comparison with the source monitor and the acceptance gate |
| `DnsTarget.dfy`, `DnsLaws.dfy` | the resolver-qualified target printer and parser (sections 3.2.2 and 3.2.3 of RFC 3986) |

## What the proofs brought out

- A bracketed resolver host that carries its own port, formatted for the default port 53, is accepted and
  reads back with the carried port (`CarriedPortWins`, `CarriedPortExample`). `RoundTrip` gives the exact
  condition: the round trip holds if and only if nothing follows the closing bracket of a host that starts
  with one.
- A target can be parsed and then not be formatted: "dns://[v1.[x]/example" names an IPvFuture literal with an
  opening bracket and no colon (`ParsedButUnprintable`). `FormattingParsedSucceedsIff` gives the exact condition.
- The two-step fold of the checksum equals end-around-carry addition up to 131076 bytes and fails at
  131078 (`ChecksumIsOnesComplement`, `BoundIsTight`); `TwoFoldsExact` says for every sum whether it holds.
- A client that retries exactly at the instant named by Retry-After is refused precisely when the wait was
  a whole number of seconds, because the window is closed at both ends (`RetryAtTheToldInstant`).
- The one-minute bound fails when two signals take their times in one order and their locks in the other.
  `RecordBreaksBoundIff` and `RunBreaksBoundIff` give the exact condition, `OutOfOrderBreaksBound` an input.
- An unlabelled terminal that arrives out of order can lose its START to a prune (`OutOfOrderClaimLost`), and a
  START from below an applied cutoff can be claimed although its run has ended (`LateStartClaimed`).
- Notifications of one monitor can reach the receiver out of order: a DOWN deferred by the back-off is fanned out
  behind the RECOVERED committed later (`DeferredIsOvertaken`). `InOrderIff` says exactly when the order is kept.
- A CRON alarm clears without any new signal while a fresh occurrence is within grace, although the same
  job under ONCALENDAR still reports the missed obligation (`CronAlarmClears`).
- A check already in flight when its monitor is paused can open an incident and announce DOWN or DEGRADED
  although the saved state stays PAUSED; `InFlightCheckOnPausedMonitor` says exactly when; a maintenance window can leave two incidents
  open at once (`MaintenanceLeavesIncidentOpen`); a job's success that is observed UNKNOWN ends an outage
  silently and leaves its incident open (`SilentRecovery`).
- The 3600-second cap of the outbox back-off is never reached: the exponent stops it at 1024 seconds
  (`BackoffBounds`).
- After pruning, replay detection and START matching are lost exactly when the row itself was deleted (`ReplayAfterPruning`, `ClaimAfterPruning`).

## Model

| member | source | states |
|---|---|---|
| JobEvents.NewestCorrect | src/monitoring/jobs.py:58-69 | the row picked by descending arrival and id beats every other row of the selection |
| EvaluatorLaws.UnmatchedStartIs | src/monitoring/jobs.py:65-71 | the open run that is found is the latest START, later than every SUCCESS and FAILURE; if none is found there is none |
| EvaluatorLaws.RunningJob | src/monitoring/jobs.py:71-87 | an open run is LATE if and only if it is older than the configured maximum runtime, or than the grace period when none is configured, and STARTED until then with its whole seconds |
| EvaluatorLaws.FailedJob | src/monitoring/jobs.py:89-102 | with no open run a last FAILURE is reported FAILED with its exit code |
| EvaluatorLaws.SimpleAfterSuccess | src/monitoring/jobs.py:196-211 | SIMPLE after a success: COMPLETED until interval and grace are over, then LATE |
| EvaluatorLaws.SimpleBeforeFirst | src/monitoring/jobs.py:196-217 | SIMPLE before any end: AWAITING from creation for interval and grace, then LATE |
| EvaluatorLaws.CronJob | src/monitoring/jobs.py:106-138 | the whole CRON answer, from the latest occurrence not after now, creation, last success and grace |
| EvaluatorLaws.CalendarJob | src/monitoring/jobs.py:140-194 | the whole ONCALENDAR answer, from the first occurrence owed after the last success or from creation on |
| EvaluatorLaws.CalendarExhausted | src/monitoring/jobs.py:151-164 | ONCALENDAR with nothing owed any more: COMPLETED after a success, FAILED without one |
| EvaluatorLaws.EveryLogIsOneOfThese | src/monitoring/jobs.py:71-104 | every log has an open run, or a last FAILURE, or leaves the decision to the schedule |
| ScheduleLaws.LastScheduledIsLast | src/monitoring/jobs.py:33-44 | the current-minute test and get_prev together find the greatest occurrence not after now |
| ScheduleLaws.AlarmExactlyWhenOverdue | src/monitoring/jobs.py:71-217 | in SIMPLE and ONCALENDAR modes one deadline fixed by the log decides every evaluation, both directions; the deadlines themselves are those of RunningJob, SimpleAfterSuccess, SimpleBeforeFirst and CalendarJob |
| ScheduleLaws.PhaseDecidesVerdict | src/monitoring/jobs.py:71-217 | which phases are alarms, and the state each phase is observed as |
| ScheduleLaws.AlarmNeverClears | src/monitoring/jobs.py:140-217 | on a fixed log a SIMPLE or ONCALENDAR alarm holds at every later time |
| ScheduleLaws.CalendarLateIffObligationMissed | src/monitoring/jobs.py:140-194 | ONCALENDAR is LATE if and only if some occurrence after the last success, or from creation on, is overdue by more than grace |
| ScheduleLaws.CronLateImpliesCalendarLate | src/monitoring/jobs.py:106-194 | over the same occurrences CRON LATE implies ONCALENDAR LATE |
| ScheduleLaws.CompletionCoincides | src/monitoring/jobs.py:106-194 | once the first window has opened the two modes agree on COMPLETED; before that CRON only waits |
| ScheduleLaws.CronAlarmClears | src/monitoring/jobs.py:106-138 | a CRON alarm is gone later, with no new signal, exactly while an occurrence reached since is within grace; ONCALENDAR stays LATE |
| Signals.JobTables.CreateEvent | src/monitoring/jobs.py:259-296 | the whole new state of the tables: the appended row with its run id and duration, and the touched monitor columns |
| Signals.JobTables.RecordSignal | src/monitoring/jobs.py:299-363 | answer and new state are those of Record: not found, replay, conflict, refusal with its wait, or one appended row |
| SignalEffects.AnswerOf | src/monitoring/jobs.py:312-363 | which of the five answers a signal gets, each if and only if: monitor open or not, a stored row with its event id, and the number of rows of its monitor in the 60 seconds up to it |
| SignalEffects.ReplayOf | src/monitoring/jobs.py:319-336 | a signal that names a row is replayed if and only if type, message, exit code and run id agree as written out, and conflicts otherwise; nothing changes |
| SignalEffects.WaitOf | src/monitoring/jobs.py:344-350 | the wait of a refusal, from the oldest row of the minute; 60 without any row |
| SignalEffects.StoredRow | src/monitoring/jobs.py:269-290 | every field of the appended row |
| SignalEffects.StoredEnd | src/monitoring/jobs.py:273-279 | the START that a stored end claims, and the run id and duration it gets from it |
| SignalEffects.StoredMonitor | src/monitoring/jobs.py:291-295 | a stored signal makes its monitor due at every instant for every interval, sets its heartbeat, and changes no setting and no other monitor |
| SignalEffects.OtherwiseNothing | src/monitoring/jobs.py:319-350 | every other answer changes no table |
| Signals.RecordKeepsConsistent | src/monitoring/models.py:214-220 | unique row ids, and unique non-empty event ids per monitor, are kept by every call |
| Signals.RunKeepsConsistent | src/monitoring/models.py:214-220 | the same over every run of calls |
| SignalLaws.RecordBreaksBoundIff | src/monitoring/jobs.py:338-363 | whatever its time, a call breaks the bound if and only if it stores a row while some closed 60-second window around its time is already full |
| SignalLaws.RunBreaksBoundIff | src/monitoring/jobs.py:338-363 | a run with times in any order breaks the bound if and only if some call of it does so |
| SignalLaws.RecordKeepsWindowBound | src/monitoring/jobs.py:338-350 | in particular a call arriving in order keeps the bound on every closed 60-second window |
| SignalLaws.RunKeepsWindowBound | src/monitoring/jobs.py:338-363 | over every run with non-decreasing times, every closed 60-second window, wherever it starts, holds at most max_per_minute rows of each monitor |
| SignalLaws.HistoryKeepsWindowBound | src/monitoring/jobs.py:338-363 | the same from empty tables on, with no further assumption on the store |
| SignalLaws.OutOfOrderBreaksBound | src/monitoring/views.py:590-597 | an input that overfills: two signals within a minute that take their times in one order and their locks in the other both get in under a limit of one |
| SignalLaws.FullUntilOpens | src/monitoring/jobs.py:338-344 | with no further row, a full window stays full exactly until its oldest row is 60 seconds old |
| SignalLaws.RetryAfterReachesOpens | src/monitoring/jobs.py:345-350 | the answer is the least whole number of seconds, between 1 and 60, that reaches the opening instant |
| SignalLaws.RetryAfterSharp | src/monitoring/jobs.py:338-350 | after a refusal, later fresh signals are refused exactly up to the opening instant, and every one strictly after the told wait is stored |
| SignalLaws.RetryAtTheToldInstant | src/monitoring/jobs.py:347-349 | retrying exactly when told is refused if and only if the remaining wait was a positive whole number of seconds |
| SignalLaws.EventIdStays | src/monitoring/jobs.py:319-321 | the row stored for an event id is the row that id finds after every later run |
| SignalLaws.EventIdIsSettled | src/monitoring/jobs.py:319-336 | a later signal with a used event id changes nothing, and gets the row if it repeats the first signal and a conflict otherwise |
| SignalLaws.RetryIsReplayed | src/monitoring/jobs.py:319-336 | after any run a verbatim retry of an accepted signal returns the row it created and changes no table |
| SignalLaws.RetryAnswer | src/monitoring/jobs.py:319-336 | in any run each retry of an accepted signal is answered with that signal's row |
| SignalLaws.RetryLeavesNoTrace | src/monitoring/jobs.py:312-363 | any number of retries at any positions: without them the run ends in the same tables and gives every other call the same answer |
| SignalLaws.MatchingStartIsUnmatched | src/monitoring/views.py:177-193 | unlabelled matching, evaluator, pruner and recovery view agree on the one unmatched START |
| SignalLaws.TerminalEndsRun | src/monitoring/jobs.py:273-279 | a stored terminal carries the claimed START's run id and the non-negative duration since it, and the evaluator leaves STARTED |
| SignalLaws.StartClaimedOnce | src/monitoring/jobs.py:229-240 | once a terminal is stored at or after a START, no later unlabelled terminal claims that START, whatever happens between |
| Retention.GatherProtected | src/monitoring/retention.py:71-73 | the loop gathers exactly the protected ids of all JOB monitors |
| Retention.PruneHistory | src/monitoring/retention.py:45-83 | the rows of both tables that are left, in microseconds from now, the numbers deleted from each, and the error case that changes nothing |
| Retention.PruneKeepsExactly | src/monitoring/retention.py:19-78 | a prune keeps exactly the rows from the cutoff on and, for each JOB monitor, its last end and its open run |
| Retention.PruneKeepsLatestTerminal | src/monitoring/retention.py:22-30 | the newest terminal row is the same after pruning |
| Retention.PruneKeepsUnmatchedStart | src/monitoring/retention.py:32-41 | the unmatched START is the same after pruning, and none appears |
| Retention.PrunedHistoryAgrees | src/monitoring/retention.py:19-83 | after any history of arrivals, in any time order, and prunings, the pruned log agrees with the one never pruned on all the evaluator, pruner and recovery view read |
| Retention.PruningPreservesEvaluation | src/monitoring/retention.py:51-51 | hence every later evaluation gives the same result on the pruned and the full log |
| Retention.AtMostTwoOutlive | src/monitoring/retention.py:20-41 | at most two rows of any monitor outlive the cutoff |
| Retention.WindowAfterPruning | src/monitoring/jobs.py:338-350 | after a prune the limiter counts the same rows if and only if every row of the window was kept; in particular whenever the window lies above the cutoff, in any order of arrivals |
| Retention.ClaimAfterPruning | src/monitoring/jobs.py:220-240 | after a prune a terminal of any run label, or none, arriving at any time claims what it would have claimed if and only if that START was kept, and otherwise none |
| Retention.ClaimInEveryFuture | src/monitoring/jobs.py:220-240 | the same after any history of prunings and of rows arriving in any order, as long as no START arrives from before a cutoff already applied |
| Retention.ClaimUnchangedIff | src/monitoring/jobs.py:220-240 | without that condition, exactly when a claim, or the absence of one, is unchanged |
| Retention.InOrderClaimIsKept | src/monitoring/jobs.py:229-240 | the START that an unlabelled terminal arriving in order claims is never deleted |
| Retention.OutOfOrderClaimLost | src/monitoring/jobs.py:229-240 | an input where an unlabelled terminal arriving out of order loses its START to a prune |
| Retention.LateStartClaimed | src/monitoring/jobs.py:229-240 | an input where a START from below an applied cutoff is claimed although the full log holds it to have ended |
| Retention.SameRowIff | src/monitoring/jobs.py:259-296 | beside any prunings, the stored row is the same if and only if the START it claims, if any, has been kept |
| Retention.PruningChangesNoAnswer | src/monitoring/jobs.py:299-363 | over a run of calls in any order of their times, replays included, with prunings anywhere between: as long as nothing a call needs was deleted, every answer, stored row, claim and wait is as if nothing had been pruned |
| Retention.PruningIsInvisible | src/monitoring/retention.py:51-51 | for unlabelled calls in order with new event ids, each a minute above the cutoffs before it, every answer is as if nothing had ever been pruned; all of it can be tested before the calls |
| Retention.ReplayAfterPruning | src/monitoring/jobs.py:319-321 | after pruning an event id finds its row if and only if that row was kept, and otherwise nothing |
| Engine.MonitorRecord.Save | src/monitoring/models.py:156-163 | a disabled monitor is saved PAUSED and an enabled one never is |
| Engine.MonitorRecord.RecordOutcome | src/monitoring/engine.py:200-220 | the whole new row, check results and incidents, and the transition |
| Engine.MonitorRecord.ApplyOutcome | src/monitoring/engine.py:199-229 | the same with the outbox entry, or no change at all if building the entry raises |
| Engine.MonitorRecord.MarkMaintenance | src/monitoring/engine.py:196-196 | the bulk update touches state, check time and message only |
| Engine.MonitorRecord.RunMonitor | src/monitoring/engine.py:232-244 | maintenance first, then the enabled test, then the outcome |
| EngineHistory.StateFollowsHistory | src/monitoring/engine.py:201-211 | from any enabled monitor over every run of checks the whole state: DOWN by the remembered and new outcomes, otherwise what the latest success observed, otherwise the state before with UNKNOWN in place of MAINTENANCE |
| EngineHistory.NewMonitorState | src/monitoring/engine.py:201-211 | from a new monitor: DOWN by history, else the observation of the latest success, else UNKNOWN |
| EngineHistory.AfterMaintenance | src/monitoring/engine.py:208-208 | after a window failures short of the threshold give UNKNOWN, and DOWN from it on, counting those before the window |
| EngineHistory.AfterPause | src/monitoring/models.py:159-162 | a paused monitor that is enabled is UNKNOWN, also through failures short of the threshold |
| EngineHistory.OtherEvents | src/monitoring/models.py:156-163 | what form edits and maintenance change, and that they change nothing else |
| EngineHistory.WindowCoversItsEnds | src/monitoring/engine.py:195-195 | a maintenance window covers both its ends |
| EngineHistory.ColumnsShowLatest | src/monitoring/engine.py:203-212 | after a run the row shows the latest check, success, failure and certificate expiry, and the message up to 500 characters |
| EngineHistory.OneResultPerCheck | src/monitoring/engine.py:213-213 | one result row per check, in order, with its own instant and outcome and the state it led to |
| EngineHistory.IncidentsOfCheck | src/monitoring/engine.py:215-218 | the incident rows a check opens, closes and leaves alone, told by the states before and after |
| EngineHistory.AnnouncedByCheck | src/monitoring/engine.py:214-220 | which transition a check announces, told by the states before and after |
| EngineLaws.CountersRefineHistory | src/monitoring/engine.py:201-211 | the monitor is DOWN if and only if its outcome history has a block of failure_threshold failures with no later block of recovery_threshold successes; the counters are the current streaks |
| EngineLaws.FlappingBound | src/monitoring/engine.py:202-218 | k entries into DOWN take at least k * failure_threshold failed and (k - 1) * recovery_threshold successful checks |
| EngineLaws.EmittedIsLevelChange | src/monitoring/engine.py:214-220 | a check emits a transition if and only if the level changes, and it names the new level |
| EngineLaws.StreamFollowsLevels | src/monitoring/engine.py:214-220 | transitions never repeat adjacently, never start with RECOVERED, and the last one tells DOWN, DEGRADED or neither |
| EngineLaws.SilentRecovery | src/monitoring/engine.py:217-218 | a recovery is announced and closes all incidents unless it is observed UNKNOWN, and then neither |
| EngineLaws.OpenIncidents | src/monitoring/engine.py:195-218 | in every run with maintenance, edits, pauses and UNKNOWN outcomes, open incidents are the entries into DOWN since the last DOWN to UP or DEGRADED step, and DOWN has at least one |
| EngineLaws.IncidentsDoNotOverlap | src/monitoring/engine.py:214-218 | without those, exactly one incident is open if and only if DOWN, and incident intervals do not overlap |
| EngineLaws.MaintenanceLeavesIncidentOpen | src/monitoring/engine.py:196-216 | an outage hidden by maintenance leaves its incident open and the next failure opens a second |
| EngineLaws.InFlightCheckOnPausedMonitor | src/monitoring/engine.py:201-220 | for a check in flight over a pause: it opens an incident and emits DOWN if and only if it is a failure that reaches the threshold, emits DEGRADED if and only if it is a success observed so, and the saved state stays PAUSED |
| EngineLaws.ApplyNeverRaises | src/monitoring/engine.py:221-228 | writing the outbox entry never rolls a check back; an entry is written if and only if a transition is emitted, with the payload of name, transition and message and the key of this check |
| EngineLaws.CheckRunIsEventRun | src/monitoring/engine.py:199-229 | a run of checks alone is a run of events with the same states and the same notification stream |
| EngineLaws.OutboxMatchesStream | src/monitoring/engine.py:221-228 | over every run of checks, maintenance windows and form edits, outbox entries correspond one to one, in order, with the transitions and have pairwise distinct keys |
| Detection.FailuresKeepPace | src/monitoring/engine.py:205-207 | after the deadline the failure counter grows by at least one for each evaluation gap |
| Detection.SilentJobIsDown | src/monitoring/jobs.py:140-203 | a silent SIMPLE or ONCALENDAR job evaluated at most P apart is DOWN with an open incident by deadline + failure_threshold * P, after every longer run of evaluations too |
| Detection.PunctualJobIsNotDown | src/monitoring/jobs.py:166-217 | evaluations that are not overdue never take the monitor DOWN |
| Detection.Worker | src/monitoring/management/commands/runmonitor.py:29-62 | for every monitor, with settings and last_checked_at that others may change between turns: each turn checks it if and only if it is there, enabled and due; the turns that prune history are those at which the interval has gone by |
| Detection.Batch | src/monitoring/engine.py:247-251 | one batch checks each due monitor once and no other |
| Detection.SelectsExactly | src/monitoring/models.py:172-179 | a turn selects a monitor if and only if it is there, enabled, and was never checked or not for its interval, of which a job counts at most 30 seconds |
| Detection.TurnExactly | src/monitoring/management/commands/runmonitor.py:58-59 | what a turn does to a selected and to any other monitor |
| Detection.DisabledIsNotChecked | src/monitoring/management/commands/runmonitor.py:58-58 | a monitor that is disabled in every turn is never checked |
| SignalEffects.StoredSignalIsEvaluatedNext | src/monitoring/jobs.py:291-295 | a job whose signal record_job_signal has stored since the last turn is evaluated at the next one |
| Detection.PrunesSpaced | src/monitoring/management/commands/runmonitor.py:33-57 | consecutive prunes are at least the interval apart |
| Detection.HistoryIsPruned | src/monitoring/management/commands/runmonitor.py:33-57 | at every turn some prune up to it is less than the interval old |
| Detection.WorkerCovers | src/monitoring/models.py:172-179 | turns at most `turn` apart with batches lagging at most `lag` evaluate at most interval + turn + lag apart |
| Detection.SilentJobIsDownByTheWorker | src/monitoring/management/commands/runmonitor.py:58-62 | the detection bound for the worker loop itself, with the 30-second evaluation interval of jobs |
| Notify.TlsDaysExact | src/monitoring/notifications.py:17-17 | the TLS warning is recognised if and only if it is the controlled text with one to five Unicode decimal digits, and those are the day count |
| PayloadLaws.PayloadOfTransition | src/monitoring/notifications.py:38-95 | every member of the payload of each transition, with its texts, and the event type |
| PayloadLaws.NameRefused | src/monitoring/notifications.py:53-61 | a blank name or one of more than 160 characters is refused |
| PayloadLaws.PayloadBytesIsEncoding | src/monitoring/notifications.py:90-92 | the bounded size is the number of UTF-8 bytes of the compact JSON encoding |
| PayloadLaws.ValidatedExactly | src/monitoring/notifications.py:126-140 | which payloads publish-time validation accepts, and that it returns them stripped |
| PayloadLaws.KeyOfTransition | src/monitoring/notifications.py:98-113 | the key of each event type, with the text that is digested |
| Notify.MessageStaysPrivate | src/monitoring/notifications.py:38-50 | the payload depends on the check's message through a recognised day count only |
| Notify.KeysDistinct | src/monitoring/notifications.py:98-113 | equal replay keys mean equal event type, monitor and check result, and equal instants within the range of datetime |
| Notify.NormalizeMembers | src/monitoring/notifications.py:130-132 | the loop fills every member with its stripped text, or raises if one is blank or too long |
| Notify.ValidatePayload | src/monitoring/notifications.py:126-140 | shape, authority, member and size tests; the stripped payload or Raised |
| Notify.ProducerIsTotal | src/monitoring/notifications.py:73-140 | for every non-blank name of at most 160 characters and every transition, payload and key are built, fit in 8 KiB, and publish-time validation returns them unchanged |
| Publisher.Publish | src/monitoring/notifications.py:143-313 | no request after a local refusal; otherwise the loop stops at the first reply not worth retrying or the last attempt, with the verdict on that reply |
| Publisher.DeliveredIffAccepted | src/monitoring/notifications.py:226-265 | the stopping attempt is unique, and delivery is claimed if and only if some attempt was accepted by 201 or a confirmed replay |
| Publisher.AnsweredAfterRetries | src/monitoring/notifications.py:205-299 | after transport failures, 429s and server errors, as long as attempts are allowed, the first other status ends the loop and decides the result |
| Publisher.ExhaustedRetries | src/monitoring/notifications.py:208-299 | when every allowed attempt fails so, how the last one is reported |
| Publisher.BrokenAttempt | src/monitoring/notifications.py:300-311 | any other exception ends the loop at once with no attempt counted |
| Publisher.RefusedExactly | src/monitoring/notifications.py:150-181 | what is refused before anything is sent, and why |
| Outbox.OutboxTable.PruneDelivered | src/monitoring/outbox.py:18-24 | exactly the rows delivered before the cutoff disappear, and their number is returned |
| Outbox.OutboxTable.PendingIds | src/monitoring/outbox.py:27-36 | a page of due rows, oldest first, that leaves out a due row only when full and never an older one |
| Outbox.OutboxTable.RecordPublishResult | src/monitoring/outbox.py:39-87 | the whole new row, a delivered row being left alone, and no change if the row is gone |
| Outbox.OutboxTable.Drain | src/monitoring/outbox.py:90-129 | among other processes that may change the table after the prune and between any two later steps: one publish and one recorded result per row of the page, or the exception at the first row that is gone; the count of deliveries |
| OutboxLaws.DrainedAt | src/monitoring/outbox.py:113-128 | left alone, each listed row ends with its own result and every other row is untouched |
| OutboxLaws.AlonePass | src/monitoring/outbox.py:113-129 | left alone, a pass never raises and publishes each row as it stood at the start |
| OutboxLaws.PassDelivers | src/monitoring/outbox.py:113-129 | when the receiver accepts within the allowed attempts and no other process interferes, one pass delivers the whole page and leaves no due row pending unless the page was full |
| OutboxLaws.EngineRowIsPublishable | src/monitoring/notifications.py:166-181 | a row the engine wrote is never refused as invalid contract input |
| OutboxLaws.FailureDefers | src/monitoring/outbox.py:63-66 | a failed publish defers its row for exactly the back-off of its attempts, at least two seconds |
| OutboxLaws.FailuresAddUp | src/monitoring/outbox.py:46-66 | over any run of failures the stored count is the running total of attempts, and the row waits 2 to the power of that total but at most 1024 seconds |
| OutboxLaws.WaitsGrow | src/monitoring/outbox.py:65-66 | successive waits never shrink and at least double until 1024 seconds |
| OutboxLaws.DeliveryIsFinal | src/monitoring/outbox.py:41-53 | a delivery after any failures is written once with the whole count, and nothing recorded later changes the row |
| OutboxLaws.BackoffBounds | src/monitoring/outbox.py:65-66 | the back-off never decreases and lies between 2 and 1024 seconds |
| Delivery.NextKeepsSafe | src/monitoring/outbox.py:18-129 | every atomic step of commit, drain, send, receive, hear, give up, record, crash and prune keeps the protocol invariant |
| Delivery.DeliveryIsSafe | docs/notify-runtime.md:76-98 | under every interleaving the receiver fans out at most once per key, holds exactly the committed payload, never answers 409, and every committed transition is there or still pending |
| Delivery.HistoryIsKept | src/monitoring/outbox.py:41-54 | over every continuation delivered_at is written once, no pending row is deleted unless the receiver has it, and no notification is withdrawn |
| Delivery.PendingCanBeDelivered | docs/notify-runtime.md:96-98 | from every reachable state one undisturbed drainer delivers a pending row, without a second fan-out |
| Delivery.EngineCommitsAreEnabled | src/monitoring/models.py:248-248 | across all monitors the key of a transition is new when it is committed, so the unique constraint never refuses one |
| Delivery.PublishHears | docs/notify-runtime.md:76-90 | a publish loop fed by the receiver's answers reports delivery if and only if some attempt got a first write or a confirmed replay, says which, and reports a conflict as one |
| DeliveryOrder.InOrderIff | src/monitoring/outbox.py:27-36 | one monitor's notifications reach the receiver in the order of their commits if and only if no step fans one out behind a later one |
| DeliveryOrder.OldestFirstKeepsOrder | src/monitoring/outbox.py:27-36 | drainers that serve each monitor's oldest pending row first keep that order under every interleaving |
| DeliveryOrder.DeferredIsOvertaken | src/monitoring/outbox.py:63-66 | from every reachable state a deferred row is fanned out behind a later transition that is delivered meanwhile |
| Icmp.Checksum | src/monitoring/icmp.py:21-28 | the complement of the two-step fold, and up to 131076 bytes of word-by-word end-around-carry addition |
| Icmp.OnesSumIsResidue | src/monitoring/icmp.py:25-27 | word-by-word end-around-carry addition is the residue modulo 65535, zero only for zero |
| Icmp.TwoFoldsExact | src/monitoring/icmp.py:26-27 | for every sum, exactly when the two folds equal end-around-carry addition |
| Icmp.ChecksumIsOnesComplement | src/monitoring/icmp.py:21-28 | for every payload of at most 131076 bytes the checksum is the complement of the end-around-carry sum of its words |
| Icmp.BoundIsTight | src/monitoring/icmp.py:26-27 | 131078 bytes for which the two differ |
| Icmp.RequestPacket | src/monitoring/icmp.py:31-37 | the bytes of an IPv4 packet, whose own checksum is zero within the bound, and of an IPv6 packet without one |
| Icmp.RequestChecksumVerifies | src/monitoring/icmp.py:31-37 | the checksum of every IPv4 request packet within the bound is zero |
| Parallel.CompareSnapshots | src/monitoring/parallel.py:81-197 | one record per source monitor in order, then each monitor the source lacks exactly once in the order of names, with the counts per status; a negative tolerance raises |
| Parallel.RecordStatus | src/monitoring/parallel.py:95-141 | invalid, duplicate and missing, each if and only if, for every source record, and the fields it carries |
| Parallel.ComparedStatus | src/monitoring/parallel.py:143-170 | unknown, state-different, latency-different or match, from the raw record and the six pairs of source and monitor states |
| Parallel.OnlyRowFields | src/monitoring/parallel.py:173-186 | the record of a monitor that the source lacks |
| Parallel.SummaryAddsUp | src/monitoring/parallel.py:188-189 | the counts per status add up to the records compared |
| Parallel.MatchingReportMeansParity | src/monitoring/parallel.py:95-186 | a report is all matches if and only if both sides have the same names, each once and none blank, the raw records name the states of the monitors, and latencies are within tolerance |
| Parallel.ValidateReport | src/monitoring/parallel.py:200-221 | the records with stripped names, or Raised for a missing list, a blank name or an unsupported status |
| Parallel.ReadableExactly | src/monitoring/parallel.py:200-221 | a report can be read if and only if it has records, each with a name that is not blank and a supported status |
| Parallel.CountRecords | src/monitoring/parallel.py:270-278 | the inner loop adds the records of each status, to the totals and to the counter of each name, and notices any that is not a match |
| Parallel.Tally | src/monitoring/parallel.py:241-281 | blockers, parity and drift counts, status totals, and one counter for each name of the whole series |
| Parallel.DuplicateListed | src/monitoring/parallel.py:251-255 | a blocker for duplicate names is listed if and only if its observation, counted from one, repeats exactly these names |
| Parallel.DriftListed | src/monitoring/parallel.py:259-268 | and one for coverage drift if and only if the names differ from the first observation in exactly these |
| Parallel.Summarize | src/monitoring/parallel.py:301-310 | one summary for each name that occurs, in the order of names, with its records and their statuses |
| Parallel.EvaluateSeries | src/monitoring/parallel.py:224-327 | when it raises; otherwise the assessment with its counts, the texts of its blockers and its summaries; ready if and only if no blocker, if and only if the series is acceptable |
| Parallel.RenderAll | src/monitoring/parallel.py:254-291 | the text of each blocker, with its names in order |
| Parallel.BlockerTexts | src/monitoring/parallel.py:254-291 | the texts spelled out on small lists |
| Parallel.DuplicatesAreNamed | src/monitoring/parallel.py:298-298 | the search for the words "duplicate result names" finds every blocker for duplicate names |
| Parallel.ReadyIffNoBlockersIffAcceptable | src/monitoring/parallel.py:283-299 | ready, an empty blocker list, and enough observations with all matches, unique names and one name set are the same |
| Parallel.TotalsAreTheRecords | src/monitoring/parallel.py:271-276 | the status totals add up to the records consumed |
| Parallel.SummaryIsComplete | src/monitoring/parallel.py:271-276 | the status counts of a monitor add up to its observations |
| Parallel.AcceptableMeansEveryMonitorMatched | src/monitoring/parallel.py:280-310 | in an acceptable series every monitor was compared once and matched in every observation |
| Parallel.GateMeansRepeatedParity | src/monitoring/parallel.py:81-299 | fed by the comparison the gate opens if and only if there are enough rounds, each at parity, over one unchanging non-empty set of names |
| DnsTarget.RoundTrip | src/monitoring/validators.py:74-85 | whenever formatting succeeds for a host without zone id the target parses to the stripped query; host and port come back if and only if nothing follows the closing bracket of a host that starts with one |
| DnsTarget.CarriedPortWins | src/monitoring/validators.py:78-85 | a bracketed literal with its own port, formatted for port 53, reads back with its own port |
| DnsTarget.CarriedPortExample | src/monitoring/validators.py:78-85 | the instance [::1]:5300 |
| DnsTarget.FormattingIsIdempotent | src/monitoring/validators.py:36-85 | formatting a parsed explicit target gives a text that parses to the same target |
| DnsTarget.FormattingParsedSucceedsIff | src/monitoring/validators.py:36-85 | formatting a parsed explicit target succeeds if and only if its host has a colon or no opening bracket, and then parses to the same target |
| DnsTarget.ParsedButUnprintable | src/monitoring/validators.py:78-85 | the instance dns://[v1.[x]/example, which is parsed and cannot be formatted |
| DnsLaws.PlainTarget | src/monitoring/validators.py:43-45 | text without the scheme is a plain name, accepted if and only if it is lawful once stripped |
| DnsLaws.SchemeInAnyCase | src/monitoring/validators.py:44-51 | the scheme is recognised in any case |
| DnsLaws.QueryRefused | src/monitoring/validators.py:55-56 | a query string is refused |
| DnsLaws.FragmentRefused | src/monitoring/validators.py:55-56 | a fragment is refused |
| DnsLaws.SecondSegmentRefused | src/monitoring/validators.py:58-60 | a second path segment is refused |
| DnsLaws.NamelessRefused | src/monitoring/validators.py:58-60 | a target without a query name is refused |
| DnsLaws.CredentialsRefused | src/monitoring/validators.py:53-54 | an authority with a user name or password is refused |
| DnsLaws.CredentialsExactly | src/monitoring/validators.py:53-54 | an empty user part, or an empty name with an empty password, is no credential, and everything else is |
| DnsLaws.PortOf | src/monitoring/validators.py:64-69 | the port that each decimal stands for, 0 and absent meaning 53 and more than 65535 being refused |
| DnsLaws.BareAuthority | src/monitoring/validators.py:62-71 | a bare host with a port is read as the host in lower case and the port |
| DnsLaws.PrintedText | src/monitoring/validators.py:76-85 | the printed text, part by part |
| DnsLaws.PrintedExactly | src/monitoring/validators.py:76-85 | when the printer succeeds |

## Left out

- SignalLaws.RunKeepsWindowBound: assumes that arrival times of one monitor do not decrease, because received_at is taken before the row lock (src/monitoring/views.py:590); RunBreaksBoundIff covers runs in any order.
- Retention.PruningChangesNoAnswer: assumes that no row a call needs was deleted and that its window lies above the highest cutoff; PruningIsInvisible has conditions on the calls alone, and ReplayAfterPruning, SameRowIff and WindowAfterPruning say exactly what changes otherwise.
- Parallel.Tally: compares the first observation with its own names too, which never adds a blocker; the source skips that comparison.
- Detection.Worker: each due monitor's check is one probe; the order in which a batch's checks overlap appears only as the `lag` bound, and the drain after each batch is modelled in Outbox and Delivery.
- DnsTarget.RoundTrip: excludes hosts with a zone id, whose case urlsplit keeps.
- DnsTarget.FormattingIsIdempotent: excludes hosts with a zone id.
- DnsTarget.FormattingParsedSucceedsIff: excludes hosts with a zone id, and takes two facts of the parameters: lowering and stripping a literal with a colon and no zone id leaves a literal, and the NFKC test judges an authority by its characters outside ASCII.
- Outbox.OutboxTable.PendingIds: the order among rows created at the same instant is left open, as the query leaves it.
- record_job_event, the internal path without throttling (src/monitoring/jobs.py:366-390): it appends with the same _create_job_event_locked.
- The checks themselves (HTTP, TCP, TLS, DNS, ICMP sockets, heartbeats): an outcome is an input.
- croniter, OnCalendar and time zones: an occurrence set with greatest-not-after and least-after answers; five-field occurrences are taken to lie on whole minutes.
- SHA-256 has digests of 64 visible characters that do not collide on the texts the producer digests, and isoformat is injective on the instants of datetime with at most 32 characters; CodecExists shows that a codec with these promises exists. Receiver retention and authentication are not part of this model.
- urlsplit's IP-literal test and NFKC test are parameters; letters outside ASCII are not lower-cased.
- Wording of job evaluations: reasons are structured, and rendering them is a parameter. Arguments of the wrong type, and transition names the engine never emits, are not modelled in the producer.
- Floating-point rounding of durations and latencies: exact microseconds and reals.
- Settings, logging, forms, views, access control, import and export, migration and evidence scripts.
