/**
 The scheduled-job event log and the dead-man evaluator that reads it
 (src/monitoring/jobs.py). Rows of every monitor share one table.
 */
module JobEvents {
  import opened Common

  datatype EventType = START | SUCCESS | FAILURE | LOG

  datatype JobEvent = JobEvent(
    id: nat, monitor: nat, receivedAt: Time, eventType: EventType, eventId: string,
    runId: string, exitCode: Option<int>, duration: Option<int>, message: string)

  type Log = seq<JobEvent>

  ghost predicate UniqueIds(log: Log) {
    forall i, j :: 0 <= i < j < |log| ==> log[i].id != log[j].id
  }

  /** The order of order_by("-received_at", "-id"): a comes before b. */
  predicate Newer(a: JobEvent, b: JobEvent) {
    a.receivedAt > b.receivedAt || (a.receivedAt == b.receivedAt && a.id > b.id)
  }

  /** order_by("-received_at", "-id").first() */
  function Newest(rows: Log): Option<JobEvent> {
    if rows == [] then None
    else
      var e := rows[|rows| - 1];
      var best := Newest(rows[..|rows| - 1]);
      if best.None? || Newer(e, best.value) then Some(e) else best
  }

  ghost predicate IsNewest(rows: Log, r: Option<JobEvent>) {
    match r
    case None => rows == []
    case Some(e) => e in rows && forall x :: x in rows ==> x == e || Newer(e, x)
  }

  lemma {:induction false} NewestCorrect(rows: Log)
    requires UniqueIds(rows)
    ensures IsNewest(rows, Newest(rows))
  {
    if rows != [] {
      var front, e := rows[..|rows| - 1], rows[|rows| - 1];
      assert rows == front + [e];
      NewestCorrect(front);
      forall x | x in front ensures x.id != e.id {
        var i :| 0 <= i < |front| && front[i] == x;
        assert rows[i].id != rows[|rows| - 1].id;
      }
    }
  }

  /** Rows with distinct ids have one newest row, whatever the table order. */
  lemma NewestUnique(rows: Log, a: Option<JobEvent>, b: Option<JobEvent>)
    requires IsNewest(rows, a) && IsNewest(rows, b)
    ensures a == b
  {
  }

  predicate Terminal(t: EventType) { t == SUCCESS || t == FAILURE }

  function TerminalsOf(m: nat): JobEvent -> bool {
    (e: JobEvent) => e.monitor == m && Terminal(e.eventType)
  }

  function StartsOf(m: nat): JobEvent -> bool {
    (e: JobEvent) => e.monitor == m && e.eventType == START
  }

  function LatestTerminal(log: Log, m: nat): Option<JobEvent> {
    Newest(Where(log, TerminalsOf(m)))
  }

  function LatestStart(log: Log, m: nat): Option<JobEvent> {
    Newest(Where(log, StartsOf(m)))
  }

  /** The START that no later terminal has answered, as evaluator, pruner and recovery view select it. */
  function UnmatchedStart(log: Log, m: nat): Option<JobEvent> {
    var s := LatestStart(log, m);
    var t := LatestTerminal(log, m);
    if s.Some? && (t.None? || s.value.receivedAt > t.value.receivedAt) then s else None
  }

  // ---- The dead-man evaluator ----------------------------------------------------------------

  datatype NextDue = Due(at: Time) | Exhausted | Invalid

  /** The schedule libraries appear as the answers they give: croniter's match and get_prev, and
      OnCalendar's next (StopIteration is Exhausted, OnCalendarError is Invalid). */
  datatype Schedule =
    | Simple
    | Cron(matches: Time -> bool, prev: Time -> Time)
    | OnCalendar(next: Time -> NextDue)

  datatype JobMonitor = JobMonitor(
    id: nat, schedule: Schedule, intervalSeconds: nat, graceSeconds: nat,
    maxRuntimeSeconds: nat, createdAt: Time)

  datatype Phase = AWAITING | STARTED | COMPLETED | FAILED | LATE

  datatype ObservedState = ObservedUp | ObservedUnknown | ObservedDown

  datatype Reason =
    | RuntimeExceeded(limit: nat, ofMaximum: bool)
    | Running(seconds: nat)
    | ReportedFailure(exitCode: Option<int>)
    | FirstWindowPending
    | WindowCompleted
    | WindowMissed
    | WindowPending
    | ExpressionInvalid
    | FinalOccurrenceCompleted
    | NoOccurrence
    | CurrentUntilNext
    | FirstOccurrencePending
    | OccurrenceMissed
    | OccurrencePending
    | IntervalMissed
    | IntervalCurrent
    | FirstCompletionPending

  datatype Evaluation = Evaluation(success: bool, observed: ObservedState, phase: Phase, reason: Reason)

  function Alarm(phase: Phase, reason: Reason): Evaluation { Evaluation(false, ObservedDown, phase, reason) }

  function Healthy(phase: Phase, reason: Reason): Evaluation { Evaluation(true, ObservedUp, phase, reason) }

  function Waiting(reason: Reason): Evaluation { Evaluation(true, ObservedUnknown, AWAITING, reason) }

  /** _last_scheduled_time: the current minute if the expression matches it, else get_prev. */
  function LastScheduled(matches: Time -> bool, prev: Time -> Time, now: Time): Time {
    var currentMinute := now - now % 60_000_000;
    if matches(currentMinute) then currentMinute else prev(now)
  }

  function RuntimeLimit(m: JobMonitor): nat {
    if m.maxRuntimeSeconds != 0 then m.maxRuntimeSeconds else m.graceSeconds
  }

  function EvaluateStarted(m: JobMonitor, start: JobEvent, now: Time): Evaluation {
    var runtime := Max(0, now - start.receivedAt);
    if runtime > Seconds(RuntimeLimit(m)) then
      Alarm(LATE, RuntimeExceeded(RuntimeLimit(m), m.maxRuntimeSeconds != 0))
    else
      Healthy(STARTED, Running(WholeSeconds(runtime)))
  }

  function EvaluateSchedule(m: JobMonitor, success: Option<JobEvent>, now: Time): Evaluation {
    match m.schedule
    case Cron(matches, prev) =>
      var lastDue := LastScheduled(matches, prev, now);
      if lastDue < m.createdAt then Waiting(FirstWindowPending)
      else if success.Some? && success.value.receivedAt >= lastDue then Healthy(COMPLETED, WindowCompleted)
      else if now > lastDue + Seconds(m.graceSeconds) then Alarm(LATE, WindowMissed)
      else Waiting(WindowPending)
    case OnCalendar(next) =>
      (match next(Anchor(m, success))
       case Invalid => Alarm(FAILED, ExpressionInvalid)
       case Exhausted =>
         if success.Some? then Healthy(COMPLETED, FinalOccurrenceCompleted) else Alarm(FAILED, NoOccurrence)
       case Due(at) =>
         if now < at then
           if success.Some? then Healthy(COMPLETED, CurrentUntilNext) else Waiting(FirstOccurrencePending)
         else if now > at + Seconds(m.graceSeconds) then Alarm(LATE, OccurrenceMissed)
         else Waiting(OccurrencePending))
    case Simple =>
      var anchor := if success.Some? then success.value.receivedAt else m.createdAt;
      if now > anchor + Seconds(m.intervalSeconds + m.graceSeconds) then Alarm(LATE, IntervalMissed)
      else if success.Some? then Healthy(COMPLETED, IntervalCurrent)
      else Waiting(FirstCompletionPending)
  }

  /** The instant after which ONCALENDAR looks for the next obligation. */
  function Anchor(m: JobMonitor, success: Option<JobEvent>): Time {
    if success.Some? then success.value.receivedAt else m.createdAt - 1
  }

  function Evaluate(m: JobMonitor, log: Log, now: Time): Evaluation {
    var terminal := LatestTerminal(log, m.id);
    var start := UnmatchedStart(log, m.id);
    if start.Some? then EvaluateStarted(m, start.value, now)
    else if terminal.Some? && terminal.value.eventType == FAILURE then
      Alarm(FAILED, ReportedFailure(terminal.value.exitCode))
    else EvaluateSchedule(m, terminal, now)
  }
}
