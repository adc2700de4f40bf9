/**
 What one call of record_job_signal answers and writes (src/monitoring/jobs.py), in terms of the rows that
 were there and the fields of the signal.
 */
module SignalEffects {
  import opened Common
  import opened Text
  import opened JobEvents
  import opened Signals
  import SignalLaws
  import Retention
  import Detection

  // ---- Who is answered how ------------------------------------------------------------------------

  /** The places of the rows that pass the filter. */
  ghost function Places(rows: Log, p: JobEvent -> bool): set<int> { set i | 0 <= i < |rows| && p(rows[i]) }

  lemma PlacesNext(rows: Log, p: JobEvent -> bool)
    requires rows != []
    ensures var n := |rows| - 1;
            && n !in Places(rows[..n], p)
            && Places(rows, p) == Places(rows[..n], p) + if p(rows[n]) then {n} else {}
  {
    var n := |rows| - 1;
    assert forall i :: 0 <= i < n ==> rows[..n][i] == rows[i];
  }

  lemma {:induction false} WhereCounts(rows: Log, p: JobEvent -> bool)
    ensures |Where(rows, p)| == |Places(rows, p)|
  {
    if rows != [] {
      hide Places;
      WhereCounts(rows[..|rows| - 1], p);
      PlacesNext(rows, p);
    } else {
      assert Places(rows, p) == {};
    }
  }

  /** The stored rows of monitor m received in the minute up to and including r. */
  ghost function InMinute(log: Log, m: nat, r: Time): set<nat> {
    set i: nat | i < |log| && log[i].monitor == m && r - 60_000_000 <= log[i].receivedAt <= r
  }

  /** The signal names a stored row. */
  ghost predicate Names(log: Log, s: Signal, e: JobEvent) {
    s.eventId != "" && e in log && e.monitor == s.monitor && e.eventId == s.eventId
  }

  /** An enabled scheduled job. */
  predicate IsOpen(store: Store, m: nat) {
    m in store.monitors && store.monitors[m].isJob && store.monitors[m].enabled
  }

  /** Not found exactly for a monitor that is missing, no job or disabled; otherwise a signal that names a
      row is compared with it; otherwise it is refused exactly when the minute up to it already holds
      max_per_minute rows of its monitor, and stored if not. */
  lemma AnswerOf(store: Store, s: Signal, limit: int)
    requires Consistent(store)
    ensures var answer := Record(store, s, limit).1;
            && (answer.NotFound? <==> !IsOpen(store, s.monitor))
            && (answer.Replayed? || answer.Conflict? <==>
                  IsOpen(store, s.monitor) && exists e :: Names(store.events, s, e))
            && (answer.Replayed? ==> Names(store.events, s, answer.event))
            && (answer.RateLimited? <==>
                  && IsOpen(store, s.monitor) && (forall e :: !Names(store.events, s, e))
                  && |InMinute(store.events, s.monitor, s.receivedAt)| >= limit)
            && (answer.Stored? <==>
                  && IsOpen(store, s.monitor) && (forall e :: !Names(store.events, s, e))
                  && |InMinute(store.events, s.monitor, s.receivedAt)| < limit)
  {
    hide SamePayload, RetryAfter, NewEvent, Append;
    ExistingIsNamed(store, s);
    MinuteIsRecent(store.events, s.monitor, s.receivedAt);
  }

  lemma ExistingIsNamed(store: Store, s: Signal)
    requires Consistent(store)
    ensures match Existing(store, s)
            case Some(e) => Names(store.events, s, e)
            case None => forall e :: !Names(store.events, s, e)
  {
    forall e | Names(store.events, s, e) ensures Existing(store, s) == Some(e) {
      SignalLaws.EventIdFinds(store, e);
    }
    if Existing(store, s).Some? {
      var rows := Where(store.events, Labelled(s.monitor, s.eventId));
      NewestIsIn(rows);
    }
  }

  lemma {:induction false} NewestIsIn(rows: Log)
    ensures Newest(rows).Some? ==> Newest(rows).value in rows
  {
    if rows != [] {
      NewestIsIn(rows[..|rows| - 1]);
    }
  }

  lemma MinuteIsRecent(log: Log, m: nat, r: Time)
    ensures |Recent(log, m, r)| == |InMinute(log, m, r)|
  {
    var p := Within(m, r - WINDOW, r);
    WhereCounts(log, p);
    assert Places(log, p) == InMinute(log, m, r);
  }

  /** A signal that names a row is replayed exactly when it says the same: type, message up to 500
      characters, exit code with none and 0 alike for a success, and no run id or the row's. */
  lemma ReplayOf(store: Store, s: Signal, limit: int, e: JobEvent)
    requires Consistent(store) && IsOpen(store, s.monitor) && Names(store.events, s, e)
    ensures Record(store, s, limit).0 == store
    ensures Record(store, s, limit).1
            == if && e.eventType == s.eventType
                  && (e.message == if |s.message| <= 500 then s.message else s.message[..500])
                  && (e.exitCode == s.exitCode
                      || (s.eventType == SUCCESS && (e.exitCode == None || e.exitCode == Some(0))
                          && (s.exitCode == None || s.exitCode == Some(0))))
                  && (Strip(s.runId) == "" || e.runId == Strip(s.runId))
               then Replayed(e) else Conflict
  {
    SignalLaws.EventIdFinds(store, e);
  }

  /** The wait named by a refusal: the least whole number of seconds, at least one, after which the oldest
      row of the minute is 60 seconds old; 60 when a limit of zero refuses without any row. */
  lemma WaitOf(store: Store, s: Signal, limit: int)
    requires Record(store, s, limit).1.RateLimited?
    ensures var n := Record(store, s, limit).1.retryAfter;
            && 1 <= n <= 60
            && (InMinute(store.events, s.monitor, s.receivedAt) == {} ==> n == 60)
            && (forall i :: i in InMinute(store.events, s.monitor, s.receivedAt)
                            && (forall j :: j in InMinute(store.events, s.monitor, s.receivedAt) ==>
                                  store.events[i].receivedAt <= store.events[j].receivedAt) ==>
                  && s.receivedAt + n * 1_000_000 >= store.events[i].receivedAt + 60_000_000
                  && (n > 1 ==> s.receivedAt + (n - 1) * 1_000_000 < store.events[i].receivedAt + 60_000_000))
  {
    hide Existing, Append, NewEvent, SamePayload;
    var log, m, r := store.events, s.monitor, s.receivedAt;
    var recent := Recent(log, m, r);
    MinuteIsRecent(log, m, r);
    if recent == [] {
      assert InMinute(log, m, r) == {};
    } else {
      SignalLaws.OldestCorrect(recent);
      SignalLaws.RetryAfterReachesOpens(log, m, r);
      var oldest := Oldest(recent).value;
      var k :| 0 <= k < |log| && log[k] == oldest;
      forall i | i in InMinute(log, m, r)
                 && (forall j :: j in InMinute(log, m, r) ==> log[i].receivedAt <= log[j].receivedAt)
        ensures log[i].receivedAt == oldest.receivedAt
      {
        assert log[i] in recent && k in InMinute(log, m, r);
      }
    }
  }

  // ---- What a stored signal writes ----------------------------------------------------------------

  /** A stored signal appends one row with the next id and the signal's own fields. */
  lemma StoredRow(store: Store, s: Signal, limit: int)
    requires Record(store, s, limit).1.Stored?
    ensures var (after, answer) := Record(store, s, limit);
            var e := answer.event;
            && after.events == store.events + [e] && after.nextId == store.nextId + 1
            && e.id == store.nextId && e.monitor == s.monitor && e.receivedAt == s.receivedAt
            && e.eventType == s.eventType && e.eventId == s.eventId && e.exitCode == s.exitCode
            && (e.message == if |s.message| <= 500 then s.message else s.message[..500])
            && (Strip(s.runId) != "" ==> e.runId == Strip(s.runId))
            && (Strip(s.runId) == "" && s.eventType == START ==> e.runId == s.freshRun)
            && (Strip(s.runId) == "" && s.eventType == LOG ==> e.runId == "")
            && (s.eventType == START || s.eventType == LOG ==> e.duration == None)
  {
    hide MatchingStart, Existing, Recent, Strip;
  }

  /** The START that a stored SUCCESS or FAILURE ends: the newest one at or before it with its run id; or,
      if it names no run, the newest one later than every terminal at or before it. The row then carries
      that START's run id and the time since. */
  lemma StoredEnd(store: Store, s: Signal, limit: int)
    requires Consistent(store) && Record(store, s, limit).1.Stored?
    requires (s.eventType == SUCCESS || s.eventType == FAILURE)
    ensures var e := Record(store, s, limit).1.event;
            var claim := MatchingStart(store.events, s.monitor, Strip(s.runId), s.receivedAt);
            && Retention.IsClaim(store.events, s.monitor, Strip(s.runId), s.receivedAt, claim)
            && match claim
               case Some(start) => e.runId == start.runId && e.duration == Some(s.receivedAt - start.receivedAt)
               case None => e.runId == Strip(s.runId) && e.duration == None
  {
    hide MatchingStart, Existing, Recent, Strip;
    Retention.MatchingStartIsClaim(store.events, s.monitor, Strip(s.runId), s.receivedAt);
  }

  /** A stored signal resets its monitor's last check, so that the worker takes it up at once, whatever the
      interval; sets its heartbeat; and leaves its settings and every other monitor alone. */
  lemma StoredMonitor(store: Store, s: Signal, limit: int)
    requires Record(store, s, limit).1.Stored?
    ensures var after := Record(store, s, limit).0;
            && s.monitor in store.monitors && after.monitors.Keys == store.monitors.Keys
            && (forall interval, now :: Detection.IsDue(true, interval, after.monitors[s.monitor].lastCheckedAt, now))
            && after.monitors[s.monitor].lastHeartbeatAt == Some(s.receivedAt)
            && after.monitors[s.monitor].updatedAt == s.receivedAt
            && after.monitors[s.monitor].isJob == store.monitors[s.monitor].isJob
            && after.monitors[s.monitor].enabled == store.monitors[s.monitor].enabled
            && forall m :: m in store.monitors && m != s.monitor ==> after.monitors[m] == store.monitors[m]
  {
    hide Existing, Recent, NewEvent;
  }

  /** Any other answer writes nothing. */
  lemma OtherwiseNothing(store: Store, s: Signal, limit: int)
    requires !Record(store, s, limit).1.Stored?
    ensures Record(store, s, limit).0 == store
  {
    hide Existing, Recent, NewEvent, Append, SamePayload, RetryAfter;
  }

  /** Hence a job whose signal was stored is evaluated at the worker's next turn. */
  lemma StoredSignalIsEvaluatedNext(store: Store, s: Signal, limit: int, r: Detection.Record, t: Detection.Turn)
    requires Record(store, s, limit).1.Stored?
    requires s.monitor in t.fleet && t.fleet[s.monitor].enabled && s.monitor in t.touched
    requires s.monitor in store.monitors
    requires var after := Record(store, s, limit).0;
             s.monitor in after.monitors && t.touched[s.monitor] == after.monitors[s.monitor].lastCheckedAt
    ensures Detection.AfterTurn(r, s.monitor, t).probes == r.probes + [t.probe(s.monitor)]
  {
    StoredMonitor(store, s, limit);
    hide Record;
    var w := t.fleet[s.monitor];
    assert Detection.IsDue(true, Detection.EvaluationInterval(w.isJob, w.intervalSeconds),
                           t.touched[s.monitor], t.now);
  }
}
