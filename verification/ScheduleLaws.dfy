/**
 What the dead-man evaluator means in terms of a set of schedule occurrences, how its CRON and
 ONCALENDAR modes compare over the same set, and when an alarm can clear without a new signal.
 */
module ScheduleLaws {
  import opened Common
  import opened JobEvents

  // ---- Schedule libraries as an occurrence set -----------------------------------------------

  /** croniter answers for the five-field expression whose occurrences are `occ`; match is asked only at
      whole minutes. */
  ghost predicate CronAnswers(matches: Time -> bool, prev: Time -> Time, occ: iset<Time>) {
    && (forall t :: t % 60_000_000 == 0 ==> (matches(t) <==> t in occ))
    && (forall t :: t in occ ==> t % 60_000_000 == 0)
    && (forall t :: prev(t) in occ && prev(t) < t)
    && (forall t, o :: o in occ && o < t ==> o <= prev(t))
  }

  /** OnCalendar answers for a valid expression whose occurrences are `occ`. */
  ghost predicate CalendarAnswers(next: Time -> NextDue, occ: iset<Time>) {
    forall t :: match next(t)
                case Due(at) => at in occ && at > t && forall o :: o in occ && o > t ==> at <= o
                case Exhausted => forall o :: o in occ ==> o <= t
                case Invalid => false
  }

  ghost predicate IsLastBy(occ: iset<Time>, now: Time, last: Time) {
    last in occ && last <= now && forall o :: o in occ && o <= now ==> o <= last
  }

  /** The current-minute test plus get_prev together find the greatest occurrence not after now. */
  lemma LastScheduledIsLast(matches: Time -> bool, prev: Time -> Time, occ: iset<Time>, now: Time)
    requires CronAnswers(matches, prev, occ)
    ensures IsLastBy(occ, now, LastScheduled(matches, prev, now))
  {
    var currentMinute := now - now % 60_000_000;
    forall o | o in occ && o <= now ensures o <= LastScheduled(matches, prev, now) {
      assert o % 60_000_000 == 0;
      assert o <= currentMinute;
    }
  }

  predicate OnMinute(t: Time) { t % 60_000_000 == 0 }

  function MinuteBefore(t: Time): Time { (t - 1) - (t - 1) % 60_000_000 }

  function MinuteAfter(t: Time): Time { t - t % 60_000_000 + 60_000_000 }

  lemma MinutesAround(o: Time, t: Time)
    requires OnMinute(o)
    ensures OnMinute(MinuteBefore(t)) && MinuteBefore(t) < t && (o < t ==> o <= MinuteBefore(t))
    ensures OnMinute(MinuteAfter(t)) && MinuteAfter(t) > t && (o > t ==> MinuteAfter(t) <= o)
  {
  }

  /** Both descriptions can be met at once: a job due every minute. */
  lemma EveryMinute()
    ensures var occ := iset t: Time | OnMinute(t);
            && CronAnswers(t => OnMinute(t), t => MinuteBefore(t), occ)
            && CalendarAnswers(t => Due(MinuteAfter(t)), occ)
  {
    var occ := iset t: Time | OnMinute(t);
    forall t, o | o in occ
      ensures MinuteBefore(t) in occ && MinuteBefore(t) < t && (o < t ==> o <= MinuteBefore(t))
      ensures MinuteAfter(t) in occ && MinuteAfter(t) > t && (o > t ==> MinuteAfter(t) <= o)
    {
      MinutesAround(o, t);
    }
    assert OnMinute(0);
    assert forall t :: t in occ ==> t % 60_000_000 == 0;
    hide OnMinute, MinuteBefore, MinuteAfter;
  }

  // ---- Alarms on a fixed log -----------------------------------------------------------------

  datatype AlarmTime = Never | Always | After(deadline: Time)

  predicate Overdue(a: AlarmTime, now: Time) {
    a.Always? || (a.After? && now > a.deadline)
  }

  /** The instant after which a monitor with this log alarms, while no further signal arrives. */
  function AlarmOf(m: JobMonitor, log: Log): AlarmTime
    requires !m.schedule.Cron?
  {
    var success := LatestTerminal(log, m.id);
    var start := UnmatchedStart(log, m.id);
    if start.Some? then After(start.value.receivedAt + Seconds(RuntimeLimit(m)))
    else if success.Some? && success.value.eventType == FAILURE then Always
    else match m.schedule
      case Simple =>
        After((if success.Some? then success.value.receivedAt else m.createdAt)
              + Seconds(m.intervalSeconds + m.graceSeconds))
      case OnCalendar(next) =>
        match next(Anchor(m, success))
        case Invalid => Always
        case Exhausted => if success.Some? then Never else Always
        case Due(at) => After(at + Seconds(m.graceSeconds))
  }

  /** In SIMPLE and ONCALENDAR modes one deadline, fixed by the log, decides every evaluation. */
  lemma AlarmExactlyWhenOverdue(m: JobMonitor, log: Log, now: Time)
    requires !m.schedule.Cron?
    ensures !Evaluate(m, log, now).success <==> Overdue(AlarmOf(m, log), now)
  {
    var start := UnmatchedStart(log, m.id);
    if start.Some? {
      assert Seconds(RuntimeLimit(m)) >= 0;
    }
  }

  /** The phase decides the verdict and the state it is observed as. */
  lemma PhaseDecidesVerdict(m: JobMonitor, log: Log, now: Time)
    ensures var e := Evaluate(m, log, now);
            match e.phase
            case AWAITING => e.success && e.observed == ObservedUnknown
            case STARTED => e.success && e.observed == ObservedUp
            case COMPLETED => e.success && e.observed == ObservedUp
            case FAILED => !e.success && e.observed == ObservedDown
            case LATE => !e.success && e.observed == ObservedDown
  {
  }

  /** Hence those alarms never clear as time passes on a fixed log. */
  lemma AlarmNeverClears(m: JobMonitor, log: Log, now: Time, later: Time)
    requires !m.schedule.Cron? && now <= later
    requires !Evaluate(m, log, now).success
    ensures !Evaluate(m, log, later).success
  {
    AlarmExactlyWhenOverdue(m, log, now);
    AlarmExactlyWhenOverdue(m, log, later);
  }

  // ---- CRON against ONCALENDAR over the same occurrences --------------------------------------

  /** The schedule alone decides: no unmatched START, latest terminal not a FAILURE. */
  predicate ScheduleDecides(m: JobMonitor, log: Log) {
    var t := LatestTerminal(log, m.id);
    UnmatchedStart(log, m.id).None? && (t.Some? ==> t.value.eventType == SUCCESS)
  }

  /** Some obligation after the last success (or from creation on) is overdue by more than grace. */
  ghost predicate ObligationMissed(m: JobMonitor, log: Log, occ: iset<Time>, now: Time) {
    exists o :: o in occ && o > Anchor(m, LatestTerminal(log, m.id)) && now > o + Seconds(m.graceSeconds)
  }

  lemma CalendarLateIffObligationMissed(m: JobMonitor, log: Log, occ: iset<Time>, now: Time)
    requires m.schedule.OnCalendar? && CalendarAnswers(m.schedule.next, occ)
    requires ScheduleDecides(m, log)
    ensures Evaluate(m, log, now).phase == LATE <==> ObligationMissed(m, log, occ, now)
    ensures Evaluate(m, log, now).phase == LATE ==> !Evaluate(m, log, now).success
  {
    var anchor := Anchor(m, LatestTerminal(log, m.id));
    var due := m.schedule.next(anchor);
    if due.Due? {
      if now > due.at + Seconds(m.graceSeconds) {
        assert ObligationMissed(m, log, occ, now);
      }
    }
  }

  /** The same job configured twice, once with each schedule mode, over the same occurrences. */
  ghost predicate SameJob(c: JobMonitor, k: JobMonitor, occ: iset<Time>) {
    && c.schedule.Cron? && CronAnswers(c.schedule.matches, c.schedule.prev, occ)
    && k.schedule.OnCalendar? && CalendarAnswers(k.schedule.next, occ)
    && c.id == k.id && c.graceSeconds == k.graceSeconds && c.createdAt == k.createdAt
  }

  lemma CronLateImpliesCalendarLate(c: JobMonitor, k: JobMonitor, occ: iset<Time>, log: Log, now: Time)
    requires SameJob(c, k, occ) && ScheduleDecides(c, log)
    requires Evaluate(c, log, now).phase == LATE
    ensures Evaluate(k, log, now).phase == LATE
  {
    var last := LastScheduled(c.schedule.matches, c.schedule.prev, now);
    LastScheduledIsLast(c.schedule.matches, c.schedule.prev, occ, now);
    assert last in occ && last > Anchor(k, LatestTerminal(log, k.id));
    assert ObligationMissed(k, log, occ, now);
    CalendarLateIffObligationMissed(k, log, occ, now);
  }

  /** Some occurrence at or after creation has been reached. */
  ghost predicate WindowOpened(m: JobMonitor, occ: iset<Time>, now: Time) {
    exists o :: o in occ && m.createdAt <= o <= now
  }

  /** Once the first window has opened the modes agree on completion; before that CRON only waits. */
  lemma CompletionCoincides(c: JobMonitor, k: JobMonitor, occ: iset<Time>, log: Log, now: Time)
    requires SameJob(c, k, occ) && ScheduleDecides(c, log)
    ensures WindowOpened(c, occ, now) ==>
              (Evaluate(c, log, now).phase == COMPLETED <==> Evaluate(k, log, now).phase == COMPLETED)
    ensures !WindowOpened(c, occ, now) ==> Evaluate(c, log, now).phase == AWAITING
  {
    var last := LastScheduled(c.schedule.matches, c.schedule.prev, now);
    LastScheduledIsLast(c.schedule.matches, c.schedule.prev, occ, now);
    var success := LatestTerminal(log, c.id);
    var due := k.schedule.next(Anchor(k, success));
    assert WindowOpened(c, occ, now) <==> c.createdAt <= last;
    if success.Some? && due.Due? {
      assert now < due.at <==> success.value.receivedAt >= last;
    }
  }

  /** A CRON alarm clears with no new signal exactly while a fresh occurrence is within grace, and
      the ONCALENDAR twin still reports the missed obligation at that moment. */
  lemma CronAlarmClears(c: JobMonitor, k: JobMonitor, occ: iset<Time>, log: Log, now: Time, later: Time)
    requires SameJob(c, k, occ) && ScheduleDecides(c, log) && now <= later
    requires Evaluate(c, log, now).phase == LATE
    ensures Evaluate(c, log, later).success
            <==> exists o :: o in occ && now < o <= later && later <= o + Seconds(c.graceSeconds)
    ensures Evaluate(k, log, later).phase == LATE
  {
    LastScheduledIsLast(c.schedule.matches, c.schedule.prev, occ, now);
    LastScheduledIsLast(c.schedule.matches, c.schedule.prev, occ, later);
    var newLast := LastScheduled(c.schedule.matches, c.schedule.prev, later);
    if Evaluate(c, log, later).success {
      assert newLast in occ && now < newLast <= later;
    }
    CronLateImpliesCalendarLate(c, k, occ, log, now);
    CalendarLateIffObligationMissed(k, log, occ, now);
    var o :| o in occ && o > Anchor(k, LatestTerminal(log, k.id)) && now > o + Seconds(k.graceSeconds);
    assert later > o + Seconds(k.graceSeconds);
    CalendarLateIffObligationMissed(k, log, occ, later);
  }
}
