/**
 Ingestion of external scheduled-job signals (src/monitoring/jobs.py): exact replay by event id,
 the sliding one-minute rate limit, START/terminal correlation and the appended row.
 */
module Signals {
  import opened Common
  import opened Text
  import opened JobEvents

  datatype MonitorRow = MonitorRow(
    isJob: bool, enabled: bool, lastHeartbeatAt: Option<Time>, lastCheckedAt: Option<Time>, updatedAt: Time)

  datatype Store = Store(events: Log, monitors: map<nat, MonitorRow>, nextId: nat)

  /** `freshRun` is the value secrets.token_urlsafe would yield for this signal. */
  datatype Signal = Signal(
    monitor: nat, eventType: EventType, eventId: string, runId: string, exitCode: Option<int>,
    message: string, receivedAt: Time, freshRun: string)

  datatype Answer =
    | Stored(event: JobEvent)
    | Replayed(event: JobEvent)
    | Conflict
    | RateLimited(retryAfter: int)
    | NotFound

  // ---- Queries -------------------------------------------------------------------------------

  function Labelled(m: nat, eventId: string): JobEvent -> bool {
    (e: JobEvent) => e.monitor == m && e.eventId == eventId
  }

  /** received_at between lo and hi inclusive. */
  function Within(m: nat, lo: Time, hi: Time): JobEvent -> bool {
    (e: JobEvent) => e.monitor == m && lo <= e.receivedAt <= hi
  }

  function StartsOfRun(m: nat, runId: string, until: Time): JobEvent -> bool {
    (e: JobEvent) => e.monitor == m && e.eventType == START && e.receivedAt <= until && e.runId == runId
  }

  function StartsBetween(m: nat, after: Option<Time>, until: Time): JobEvent -> bool {
    (e: JobEvent) => e.monitor == m && e.eventType == START && e.receivedAt <= until
                     && (after.Some? ==> e.receivedAt > after.value)
  }

  function TerminalsUntil(m: nat, until: Time): JobEvent -> bool {
    (e: JobEvent) => e.monitor == m && Terminal(e.eventType) && e.receivedAt <= until
  }

  function MatchingStart(log: Log, m: nat, runId: string, receivedAt: Time): Option<JobEvent> {
    if runId != "" then Newest(Where(log, StartsOfRun(m, runId, receivedAt)))
    else
      var last := Newest(Where(log, TerminalsUntil(m, receivedAt)));
      var after := if last.Some? then Some(last.value.receivedAt) else None;
      Newest(Where(log, StartsBetween(m, after, receivedAt)))
  }

  /** order_by("received_at", "id").first() */
  function Oldest(rows: Log): Option<JobEvent> {
    if rows == [] then None
    else
      var e := rows[|rows| - 1];
      var best := Oldest(rows[..|rows| - 1]);
      if best.None? || Newer(best.value, e) then Some(e) else best
  }

  // ---- Ingestion -----------------------------------------------------------------------------

  /** timedelta(minutes=1) */
  const WINDOW: Time := 60_000_000

  function Recent(log: Log, m: nat, receivedAt: Time): Log {
    Where(log, Within(m, receivedAt - WINDOW, receivedAt))
  }

  /** max(1, math.ceil(60 - elapsed)), with 60 when no row is in the window. */
  function RetryAfter(recent: Log, receivedAt: Time): int {
    var oldest := Oldest(recent);
    if oldest.None? then 60
    else
      var remaining := WINDOW - Max(0, receivedAt - oldest.value.receivedAt);
      Max(1, CeilSeconds(remaining))
  }

  predicate SameExitCode(existing: JobEvent, s: Signal) {
    || existing.exitCode == s.exitCode
    || (s.eventType == SUCCESS && CleanExit(existing.exitCode) && CleanExit(s.exitCode))
  }

  predicate CleanExit(code: Option<int>) { code == None || code == Some(0) }

  predicate SamePayload(existing: JobEvent, s: Signal) {
    && existing.eventType == s.eventType
    && SameExitCode(existing, s)
    && existing.message == Prefix(s.message, 500)
    && (Strip(s.runId) == "" || existing.runId == Strip(s.runId))
  }

  /** The run id a signal carries before correlation; an unlabelled START gets a fresh one. */
  function OwnRun(s: Signal): string {
    if s.eventType == START && Strip(s.runId) == "" then s.freshRun else Strip(s.runId)
  }

  /** The START whose run this signal ends. */
  function Claimed(log: Log, s: Signal): Option<JobEvent> {
    if Terminal(s.eventType) then MatchingStart(log, s.monitor, OwnRun(s), s.receivedAt) else None
  }

  function NewEvent(store: Store, s: Signal): JobEvent {
    var start := Claimed(store.events, s);
    JobEvent(
      store.nextId, s.monitor, s.receivedAt, s.eventType, s.eventId,
      if start.Some? && OwnRun(s) == "" then start.value.runId else OwnRun(s),
      s.exitCode,
      if start.Some? then Some(Max(0, s.receivedAt - start.value.receivedAt)) else None,
      Prefix(s.message, 500))
  }

  function Append(store: Store, s: Signal): Store
    requires s.monitor in store.monitors
  {
    var row := store.monitors[s.monitor].(
      lastHeartbeatAt := Some(s.receivedAt), lastCheckedAt := None, updatedAt := s.receivedAt);
    Store(store.events + [NewEvent(store, s)], store.monitors[s.monitor := row], store.nextId + 1)
  }

  predicate Accepts(store: Store, m: nat) {
    m in store.monitors && store.monitors[m].isJob && store.monitors[m].enabled
  }

  function Existing(store: Store, s: Signal): Option<JobEvent> {
    if s.eventId == "" then None else Newest(Where(store.events, Labelled(s.monitor, s.eventId)))
  }

  /** record_job_signal: the answer, and the table contents after the transaction. */
  function Record(store: Store, s: Signal, limit: int): (Store, Answer) {
    if !Accepts(store, s.monitor) then (store, NotFound)
    else
      var existing := Existing(store, s);
      if existing.Some? then
        (store, if SamePayload(existing.value, s) then Replayed(existing.value) else Conflict)
      else
        var recent := Recent(store.events, s.monitor, s.receivedAt);
        if |recent| >= limit then (store, RateLimited(RetryAfter(recent, s.receivedAt)))
        else (Append(store, s), Stored(NewEvent(store, s)))
  }

  /** The job tables as the web process updates them. */
  class JobTables {
    var events: Log
    var monitors: map<nat, MonitorRow>
    var nextId: nat

    function Value(): Store
      reads this
    {
      Store(events, monitors, nextId)
    }

    constructor (monitors: map<nat, MonitorRow>)
      ensures Value() == Store([], monitors, 0)
    {
      events, nextId := [], 0;
      this.monitors := monitors;
    }

    /** _create_job_event_locked */
    method CreateEvent(s: Signal) returns (event: JobEvent)
      requires s.monitor in monitors
      modifies this
      ensures Value() == Append(old(Value()), s) && event == NewEvent(old(Value()), s)
    {
      var run := Strip(s.runId);
      if s.eventType == START && run == "" {
        run := s.freshRun;
      }
      var duration: Option<int> := None;
      if Terminal(s.eventType) {
        var start := MatchingStart(events, s.monitor, run, s.receivedAt);
        assert start == Claimed(events, s);
        if start.Some? {
          duration := Some(Max(0, s.receivedAt - start.value.receivedAt));
          if run == "" {
            run := start.value.runId;
          }
        }
      }
      event := JobEvent(nextId, s.monitor, s.receivedAt, s.eventType, s.eventId, run, s.exitCode, duration,
                        Prefix(s.message, 500));
      assert event == NewEvent(Value(), s);
      events := events + [event];
      nextId := nextId + 1;
      var row := monitors[s.monitor];
      monitors := monitors[s.monitor :=
        row.(lastHeartbeatAt := Some(s.receivedAt), lastCheckedAt := None, updatedAt := s.receivedAt)];
    }

    /** record_job_signal */
    method RecordSignal(s: Signal, limit: int) returns (answer: Answer)
      modifies this
      ensures (Value(), answer) == Record(old(Value()), s, limit)
    {
      if s.monitor !in monitors || !monitors[s.monitor].isJob || !monitors[s.monitor].enabled {
        return NotFound;
      }
      if s.eventId != "" {
        var existing := Newest(Where(events, Labelled(s.monitor, s.eventId)));
        if existing.Some? {
          return if SamePayload(existing.value, s) then Replayed(existing.value) else Conflict;
        }
      }
      var recent := Where(events, Within(s.monitor, s.receivedAt - WINDOW, s.receivedAt));
      if |recent| >= limit {
        return RateLimited(RetryAfter(recent, s.receivedAt));
      }
      var event := CreateEvent(s);
      return Stored(event);
    }
  }

  // ---- What every run keeps ------------------------------------------------------------------

  /** Row ids are unique and below the sequence; non-empty event ids are unique per monitor. */
  ghost predicate Consistent(store: Store) {
    && UniqueIds(store.events)
    && (forall e :: e in store.events ==> e.id < store.nextId)
    && (forall i, j :: (0 <= i < j < |store.events| && store.events[i].monitor == store.events[j].monitor
                        && store.events[i].eventId != "") ==> store.events[i].eventId != store.events[j].eventId)
  }

  lemma RecordKeepsConsistent(store: Store, s: Signal, limit: int)
    requires Consistent(store)
    ensures Consistent(Record(store, s, limit).0)
  {
    var (after, answer) := Record(store, s, limit);
    if answer.Stored? {
      forall i | 0 <= i < |store.events|
        ensures store.events[i].id < after.events[|store.events|].id
        ensures store.events[i].monitor == s.monitor && s.eventId != "" ==> store.events[i].eventId != s.eventId
      {
        assert store.events[i] in store.events;
        if s.eventId != "" {
          assert store.events[i] !in Where(store.events, Labelled(s.monitor, s.eventId));
        }
      }
    }
  }

  /** The tables after a run of signals, oldest call first. */
  function Run(store: Store, signals: seq<Signal>, limit: int): Store {
    if signals == [] then store
    else Record(Run(store, signals[..|signals| - 1], limit), signals[|signals| - 1], limit).0
  }

  /** The answers of that run, call by call. */
  function Answers(store: Store, signals: seq<Signal>, limit: int): (r: seq<Answer>)
    ensures |r| == |signals|
  {
    if signals == [] then []
    else
      Answers(store, signals[..|signals| - 1], limit)
      + [Record(Run(store, signals[..|signals| - 1], limit), signals[|signals| - 1], limit).1]
  }

  lemma {:induction false} RunKeepsConsistent(store: Store, signals: seq<Signal>, limit: int)
    requires Consistent(store)
    ensures Consistent(Run(store, signals, limit))
  {
    if signals != [] {
      RunKeepsConsistent(store, signals[..|signals| - 1], limit);
      RecordKeepsConsistent(Run(store, signals[..|signals| - 1], limit), signals[|signals| - 1], limit);
    }
  }

  lemma {:induction false} RunSplit(store: Store, a: seq<Signal>, b: seq<Signal>, limit: int)
    ensures Run(store, a + b, limit) == Run(Run(store, a, limit), b, limit)
    ensures Answers(store, a + b, limit) == Answers(store, a, limit) + Answers(Run(store, a, limit), b, limit)
  {
    if b == [] {
      assert a + b == a;
    } else {
      var front := b[..|b| - 1];
      assert (a + b)[..|a + b| - 1] == a + front;
      RunSplit(store, a, front, limit);
    }
  }
}
