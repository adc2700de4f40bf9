/**
 What the dead-man evaluator answers (src/monitoring/jobs.py, evaluate_job_monitor), case by case, in terms
 of the rows of the log, the monitor's own fields and the schedule's occurrences.
 */
module EvaluatorLaws {
  import opened Common
  import opened JobEvents
  import opened ScheduleLaws
  import SignalLaws

  // ---- The rows that matter -----------------------------------------------------------------------

  /** A run of job m ended with this row. */
  predicate Ends(e: JobEvent, m: nat) { e.monitor == m && (e.eventType == SUCCESS || e.eventType == FAILURE) }

  predicate Earlier(a: JobEvent, b: JobEvent) {
    a.receivedAt < b.receivedAt || (a.receivedAt == b.receivedAt && a.id < b.id)
  }

  ghost predicate LastEnd(log: Log, m: nat, e: JobEvent) {
    e in log && Ends(e, m) && forall x :: x in log && Ends(x, m) ==> x == e || Earlier(x, e)
  }

  ghost predicate NeverEnded(log: Log, m: nat) { forall x :: x in log ==> !Ends(x, m) }

  /** The latest START, if it came strictly after every end. */
  ghost predicate OpenRun(log: Log, m: nat, s: JobEvent) {
    && s in log && s.monitor == m && s.eventType == START
    && (forall x :: x in log && x.monitor == m && x.eventType == START ==> x == s || Earlier(x, s))
    && (forall x :: x in log && Ends(x, m) ==> x.receivedAt < s.receivedAt)
  }

  ghost predicate NoOpenRun(log: Log, m: nat) { forall s :: s in log ==> !OpenRun(log, m, s) }

  lemma LatestTerminalIs(log: Log, m: nat)
    requires UniqueIds(log)
    ensures match LatestTerminal(log, m)
            case Some(e) => LastEnd(log, m, e)
            case None => NeverEnded(log, m)
  {
    var rows := Where(log, TerminalsOf(m));
    SignalLaws.WhereUnique(log, TerminalsOf(m));
    NewestCorrect(rows);
    assert forall x :: x in log && Ends(x, m) ==> x in rows;
  }

  lemma LatestStartIs(log: Log, m: nat)
    requires UniqueIds(log)
    ensures match LatestStart(log, m)
            case Some(s) => s in log && s.monitor == m && s.eventType == START
                            && forall x :: x in log && x.monitor == m && x.eventType == START
                                           ==> x == s || Earlier(x, s)
            case None => forall x :: x in log && x.monitor == m ==> x.eventType != START
  {
    var rows := Where(log, StartsOf(m));
    SignalLaws.WhereUnique(log, StartsOf(m));
    NewestCorrect(rows);
    assert forall x :: x in log && x.monitor == m && x.eventType == START ==> x in rows;
  }

  lemma UnmatchedStartIs(log: Log, m: nat)
    requires UniqueIds(log)
    ensures match UnmatchedStart(log, m)
            case Some(s) => OpenRun(log, m, s)
            case None => NoOpenRun(log, m)
  {
    hide LatestStart, LatestTerminal;
    LatestTerminalIs(log, m);
    LatestStartIs(log, m);
  }

  /** The rows that the evaluator reads are these. */
  lemma ReadsOpenRun(log: Log, m: nat, s: JobEvent)
    requires UniqueIds(log) && OpenRun(log, m, s)
    ensures UnmatchedStart(log, m) == Some(s)
  {
    hide UnmatchedStart;
    UnmatchedStartIs(log, m);
  }

  lemma ReadsLastEnd(log: Log, m: nat, e: JobEvent)
    requires UniqueIds(log) && LastEnd(log, m, e)
    ensures LatestTerminal(log, m) == Some(e)
  {
    hide LatestTerminal;
    LatestTerminalIs(log, m);
  }

  lemma ReadsNoEnd(log: Log, m: nat)
    requires UniqueIds(log) && NeverEnded(log, m)
    ensures LatestTerminal(log, m) == None
  {
    hide LatestTerminal;
    LatestTerminalIs(log, m);
  }

  lemma ReadsNoOpenRun(log: Log, m: nat)
    requires UniqueIds(log) && NoOpenRun(log, m)
    ensures UnmatchedStart(log, m) == None
  {
    hide UnmatchedStart;
    UnmatchedStartIs(log, m);
  }

  // ---- The answers --------------------------------------------------------------------------------

  /** An open run is LATE when its maximum runtime, or if none is configured the grace period, is over, and
      STARTED until then, with the whole seconds it has run. */
  lemma RunningJob(m: JobMonitor, log: Log, s: JobEvent, now: Time)
    requires UniqueIds(log) && OpenRun(log, m.id, s)
    ensures m.maxRuntimeSeconds > 0 ==>
              (now > s.receivedAt + m.maxRuntimeSeconds * 1_000_000 <==>
               Evaluate(m, log, now)
               == Evaluation(false, ObservedDown, LATE, RuntimeExceeded(m.maxRuntimeSeconds, true)))
    ensures m.maxRuntimeSeconds == 0 ==>
              (now > s.receivedAt + m.graceSeconds * 1_000_000 <==>
               Evaluate(m, log, now)
               == Evaluation(false, ObservedDown, LATE, RuntimeExceeded(m.graceSeconds, false)))
    ensures var limit := if m.maxRuntimeSeconds > 0 then m.maxRuntimeSeconds else m.graceSeconds;
            now <= s.receivedAt + limit * 1_000_000 ==>
              var e := Evaluate(m, log, now);
              && e.success && e.observed == ObservedUp && e.phase == STARTED && e.reason.Running?
              && e.reason.seconds * 1_000_000 <= Max(0, now - s.receivedAt) < (e.reason.seconds + 1) * 1_000_000
  {
    hide UnmatchedStart, LatestTerminal;
    ReadsOpenRun(log, m.id, s);
  }

  /** A job whose last run failed stays FAILED, with its exit code, until a new row arrives. */
  lemma FailedJob(m: JobMonitor, log: Log, e: JobEvent, now: Time)
    requires UniqueIds(log) && NoOpenRun(log, m.id) && LastEnd(log, m.id, e) && e.eventType == FAILURE
    ensures Evaluate(m, log, now) == Evaluation(false, ObservedDown, FAILED, ReportedFailure(e.exitCode))
  {
    hide UnmatchedStart, LatestTerminal;
    ReadsNoOpenRun(log, m.id);
    ReadsLastEnd(log, m.id, e);
  }

  /** SIMPLE after a success: current until interval and grace are over, then LATE. */
  lemma SimpleAfterSuccess(m: JobMonitor, log: Log, e: JobEvent, now: Time)
    requires m.schedule.Simple? && UniqueIds(log) && NoOpenRun(log, m.id)
    requires LastEnd(log, m.id, e) && e.eventType == SUCCESS
    ensures Evaluate(m, log, now)
            == if now > e.receivedAt + (m.intervalSeconds + m.graceSeconds) * 1_000_000
               then Evaluation(false, ObservedDown, LATE, IntervalMissed)
               else Evaluation(true, ObservedUp, COMPLETED, IntervalCurrent)
  {
    hide UnmatchedStart, LatestTerminal;
    ReadsNoOpenRun(log, m.id);
    ReadsLastEnd(log, m.id, e);
  }

  /** SIMPLE before any end: awaited from creation for interval and grace, then LATE. */
  lemma SimpleBeforeFirst(m: JobMonitor, log: Log, now: Time)
    requires m.schedule.Simple? && UniqueIds(log) && NoOpenRun(log, m.id) && NeverEnded(log, m.id)
    ensures Evaluate(m, log, now)
            == if now > m.createdAt + (m.intervalSeconds + m.graceSeconds) * 1_000_000
               then Evaluation(false, ObservedDown, LATE, IntervalMissed)
               else Evaluation(true, ObservedUnknown, AWAITING, FirstCompletionPending)
  {
    hide UnmatchedStart, LatestTerminal;
    ReadsNoOpenRun(log, m.id);
    ReadsNoEnd(log, m.id);
  }

  /** The schedule decides: the last end, if there is one, is this success. */
  ghost predicate Scheduled(log: Log, m: nat, success: Option<JobEvent>) {
    && UniqueIds(log) && NoOpenRun(log, m)
    && match success
       case Some(e) => LastEnd(log, m, e) && e.eventType == SUCCESS
       case None => NeverEnded(log, m)
  }

  lemma ReadsScheduled(log: Log, m: nat, success: Option<JobEvent>)
    requires Scheduled(log, m, success)
    ensures UnmatchedStart(log, m) == None && LatestTerminal(log, m) == success
  {
    hide UnmatchedStart, LatestTerminal;
    ReadsNoOpenRun(log, m);
    if success.Some? {
      ReadsLastEnd(log, m, success.value);
    } else {
      ReadsNoEnd(log, m);
    }
  }

  /** CRON, where `last` is the latest occurrence not after now. */
  lemma CronJob(m: JobMonitor, log: Log, occ: iset<Time>, success: Option<JobEvent>, last: Time, now: Time)
    requires m.schedule.Cron? && CronAnswers(m.schedule.matches, m.schedule.prev, occ)
    requires Scheduled(log, m.id, success) && IsLastBy(occ, now, last)
    ensures Evaluate(m, log, now)
            == if last < m.createdAt then Evaluation(true, ObservedUnknown, AWAITING, FirstWindowPending)
               else if success.Some? && success.value.receivedAt >= last then
                 Evaluation(true, ObservedUp, COMPLETED, WindowCompleted)
               else if now > last + m.graceSeconds * 1_000_000 then
                 Evaluation(false, ObservedDown, LATE, WindowMissed)
               else Evaluation(true, ObservedUnknown, AWAITING, WindowPending)
  {
    hide UnmatchedStart, LatestTerminal, LastScheduled;
    ReadsScheduled(log, m.id, success);
    LastScheduledIsLast(m.schedule.matches, m.schedule.prev, occ, now);
  }

  /** The instant from which ONCALENDAR owes its next run: after the last success, or from creation on. */
  ghost predicate Owed(m: JobMonitor, success: Option<JobEvent>, o: Time) {
    if success.Some? then o > success.value.receivedAt else o >= m.createdAt
  }

  /** ONCALENDAR, where `due` is the first owed occurrence. */
  lemma CalendarJob(m: JobMonitor, log: Log, occ: iset<Time>, success: Option<JobEvent>, due: Time, now: Time)
    requires m.schedule.OnCalendar? && CalendarAnswers(m.schedule.next, occ) && Scheduled(log, m.id, success)
    requires due in occ && Owed(m, success, due) && forall o :: o in occ && Owed(m, success, o) ==> due <= o
    ensures Evaluate(m, log, now)
            == if now > due + m.graceSeconds * 1_000_000 then Evaluation(false, ObservedDown, LATE, OccurrenceMissed)
               else if now >= due then Evaluation(true, ObservedUnknown, AWAITING, OccurrencePending)
               else if success.Some? then Evaluation(true, ObservedUp, COMPLETED, CurrentUntilNext)
               else Evaluation(true, ObservedUnknown, AWAITING, FirstOccurrencePending)
  {
    hide UnmatchedStart, LatestTerminal;
    ReadsScheduled(log, m.id, success);
    assert m.schedule.next(Anchor(m, success)) == Due(due);
    assert m.graceSeconds * 1_000_000 >= 0;
  }

  /** ONCALENDAR when no occurrence is owed any more. */
  lemma CalendarExhausted(m: JobMonitor, log: Log, occ: iset<Time>, success: Option<JobEvent>, now: Time)
    requires m.schedule.OnCalendar? && CalendarAnswers(m.schedule.next, occ) && Scheduled(log, m.id, success)
    requires forall o :: o in occ ==> !Owed(m, success, o)
    ensures Evaluate(m, log, now)
            == if success.Some? then Evaluation(true, ObservedUp, COMPLETED, FinalOccurrenceCompleted)
               else Evaluation(false, ObservedDown, FAILED, NoOccurrence)
  {
    hide UnmatchedStart, LatestTerminal;
    ReadsScheduled(log, m.id, success);
    assert m.schedule.next(Anchor(m, success)) == Exhausted;
  }

  /** ONCALENDAR with an expression that its library refuses. */
  lemma CalendarInvalid(m: JobMonitor, log: Log, success: Option<JobEvent>, now: Time)
    requires m.schedule.OnCalendar? && (forall t :: m.schedule.next(t) == Invalid) && Scheduled(log, m.id, success)
    ensures Evaluate(m, log, now) == Evaluation(false, ObservedDown, FAILED, ExpressionInvalid)
  {
    hide UnmatchedStart, LatestTerminal;
    ReadsScheduled(log, m.id, success);
  }

  /** With an open run, or after a failure, the schedule and its occurrences play no part. */
  lemma EveryLogIsOneOfThese(log: Log, m: nat)
    requires UniqueIds(log)
    ensures (exists s :: OpenRun(log, m, s))
            || (exists e :: NoOpenRun(log, m) && LastEnd(log, m, e) && e.eventType == FAILURE)
            || (exists success :: Scheduled(log, m, success))
  {
    hide UnmatchedStart, LatestTerminal;
    UnmatchedStartIs(log, m);
    LatestTerminalIs(log, m);
    var last := LatestTerminal(log, m);
    if UnmatchedStart(log, m).None? && (last.None? || last.value.eventType == SUCCESS) {
      assert Scheduled(log, m, LatestTerminal(log, m));
    }
  }
}
