/**
 The monitor state machine (src/monitoring/engine.py, src/monitoring/models.py): one check's outcome
 moves threshold counters and state, opens and closes incidents, and writes one outbox entry per
 transition, all in one transaction.
 */
module Engine {
  import opened Common
  import opened Text
  import Notify

  datatype State = UNKNOWN | UP | DOWN | DEGRADED | PAUSED | MAINTENANCE

  datatype Outcome = Outcome(
    success: bool, observed: State, responseMs: Option<real>, message: string, tlsExpiresAt: Option<Time>)

  datatype Incident = Incident(startedAt: Time, endedAt: Option<Time>, failureReason: string, recoveryMessage: string)

  datatype CheckResult = CheckResult(
    id: nat, checkedAt: Time, success: bool, observed: State, responseMs: Option<real>, message: string)

  /** The columns that only echo the latest checks. */
  datatype Latest = Latest(
    checkedAt: Option<Time>, successAt: Option<Time>, failureAt: Option<Time>,
    responseMs: Option<real>, tlsExpiresAt: Option<Time>, message: string)

  /** One monitor's row with its incidents and check results. */
  datatype Monitor = Monitor(
    id: nat, name: string, enabled: bool, failureThreshold: nat, recoveryThreshold: nat,
    state: State, failures: nat, successes: nat, latest: Latest,
    incidents: seq<Incident>, checks: seq<CheckResult>)

  /** A check as the worker delivers it: outcome, instant, and the id its result row receives. */
  datatype Check = Check(outcome: Outcome, at: Time, resultId: nat)

  /** What a transition leaves in the outbox. */
  datatype Entry = Entry(transition: Notify.Transition, payload: Notify.Payload, key: string)

  // ---- The transition function ------------------------------------------------------------------

  /** The state the outcome calls for, before save() has its say. */
  function NextState(m: Monitor, o: Outcome): State {
    if o.success then
      if m.state == DOWN && m.successes + 1 < m.recoveryThreshold then DOWN else o.observed
    else if m.failures + 1 >= m.failureThreshold then DOWN
    else if m.state == MAINTENANCE then UNKNOWN
    else m.state
  }

  /** Monitor.save: a disabled monitor is PAUSED, an enabled one is not. */
  function Saved(enabled: bool, state: State): State {
    if !enabled then PAUSED else if state == PAUSED then UNKNOWN else state
  }

  function Close(i: Incident, at: Time, message: string): Incident {
    if i.endedAt.None? then i.(endedAt := Some(at), recoveryMessage := Prefix(message, 500)) else i
  }

  function CloseOpen(incidents: seq<Incident>, at: Time, message: string): (r: seq<Incident>)
    ensures |r| == |incidents|
    ensures forall i :: 0 <= i < |r| ==> r[i] == Close(incidents[i], at, message)
  {
    if incidents == [] then []
    else CloseOpen(incidents[..|incidents| - 1], at, message) + [Close(incidents[|incidents| - 1], at, message)]
  }

  predicate Opens(before: State, next: State) { next == DOWN && before != DOWN }

  predicate Closes(before: State, next: State) { before == DOWN && (next == UP || next == DEGRADED) }

  function Emitted(before: State, next: State): Option<Notify.Transition> {
    if Opens(before, next) then Some(Notify.Down)
    else if Closes(before, next) then Some(if next == UP then Notify.Recovered else Notify.Degraded)
    else if next == DEGRADED && before != DEGRADED then Some(Notify.Degraded)
    else if before == DEGRADED && next == UP then Some(Notify.Recovered)
    else None
  }

  function Tracked(incidents: seq<Incident>, before: State, next: State, c: Check): seq<Incident> {
    if Opens(before, next) then incidents + [Incident(c.at, None, Prefix(c.outcome.message, 500), "")]
    else if Closes(before, next) then CloseOpen(incidents, c.at, c.outcome.message)
    else incidents
  }

  function Echoed(l: Latest, c: Check): Latest {
    var o := c.outcome;
    Latest(Some(c.at),
           if o.success then Some(c.at) else l.successAt,
           if o.success then l.failureAt else Some(c.at),
           o.responseMs,
           if o.tlsExpiresAt.Some? then o.tlsExpiresAt else l.tlsExpiresAt,
           Prefix(o.message, 500))
  }

  function ResultRow(c: Check, next: State): CheckResult {
    CheckResult(c.resultId, c.at, c.outcome.success, next, c.outcome.responseMs, Prefix(c.outcome.message, 500))
  }

  /** The monitor after the check, apart from the outbox. */
  function Applied(m: Monitor, c: Check): Monitor {
    var o, next := c.outcome, NextState(m, c.outcome);
    m.(failures := if o.success then 0 else m.failures + 1,
       successes := if o.success then m.successes + 1 else 0,
       latest := Echoed(m.latest, c),
       state := Saved(m.enabled, next),
       checks := m.checks + [ResultRow(c, next)],
       incidents := Tracked(m.incidents, m.state, next, c))
  }

  function EntryFor(codec: Notify.Codec, m: Monitor, t: Notify.Transition, c: Check): Result<Entry> {
    match Notify.CreatePayload(m.name, t, c.outcome.message)
    case Raised => Raised
    case Ok((event, payload)) =>
      match Notify.CreateKey(codec, event, Notify.TransitionId(codec, m.id, c.resultId, c.at))
      case Raised => Raised
      case Ok(key) => Ok(Entry(t, payload, key))
  }

  /** _apply_outcome: the new monitor and the entry it writes, or Raised and then nothing changes. */
  function Apply(codec: Notify.Codec, m: Monitor, c: Check): Result<(Monitor, Option<Entry>)> {
    match Emitted(m.state, NextState(m, c.outcome))
    case None => Ok((Applied(m, c), None))
    case Some(t) =>
      match EntryFor(codec, m, t, c)
      case Raised => Raised
      case Ok(entry) => Ok((Applied(m, c), Some(entry)))
  }

  /** _mark_maintenance, a bulk update that bypasses save(). */
  function Maintained(m: Monitor, now: Time): Monitor {
    m.(state := MAINTENANCE,
       latest := m.latest.(checkedAt := Some(now), message := "Approved maintenance window"))
  }

  /** A form edit of the monitored settings, saved as one step. */
  function Edited(m: Monitor, name: string, enabled: bool, failureThreshold: nat, recoveryThreshold: nat): Monitor {
    m.(name := name, enabled := enabled, failureThreshold := failureThreshold, recoveryThreshold := recoveryThreshold,
       state := Saved(enabled, m.state))
  }

  datatype Window = Window(startsAt: Time, endsAt: Time)

  predicate InMaintenance(windows: seq<Window>, now: Time) {
    exists w :: w in windows && w.startsAt <= now <= w.endsAt
  }

  // ---- The rows the worker and the forms update -------------------------------------------------

  class MonitorRecord {
    const id: nat
    var name: string
    var enabled: bool
    var failureThreshold: nat
    var recoveryThreshold: nat
    var state: State
    var failures: nat
    var successes: nat
    var latest: Latest
    var incidents: seq<Incident>
    var checks: seq<CheckResult>
    var outbox: seq<Entry>

    function Value(): Monitor
      reads this
    {
      Monitor(id, name, enabled, failureThreshold, recoveryThreshold, state, failures, successes, latest, incidents,
              checks)
    }

    constructor (id: nat, name: string, failureThreshold: nat, recoveryThreshold: nat)
      ensures this.id == id && this.name == name && enabled && state == UNKNOWN
      ensures this.failureThreshold == failureThreshold && this.recoveryThreshold == recoveryThreshold
      ensures failures == 0 && successes == 0 && incidents == [] && checks == [] && outbox == []
    {
      this.id, this.name, enabled, state := id, name, true, UNKNOWN;
      this.failureThreshold, this.recoveryThreshold := failureThreshold, recoveryThreshold;
      failures, successes, incidents, checks, outbox := 0, 0, [], [], [];
      latest := Latest(None, None, None, None, None, "");
    }

    method Save()
      modifies this`state
      ensures state == Saved(enabled, old(state))
    {
      if !enabled {
        state := PAUSED;
      } else if state == PAUSED {
        state := UNKNOWN;
      }
    }

    /** The threshold counters, and the state they call for. */
    method Count(outcome: Outcome) returns (next: State)
      modifies `failures, `successes
      ensures next == NextState(old(Value()), outcome)
      ensures failures == if outcome.success then 0 else old(failures) + 1
      ensures successes == if outcome.success then old(successes) + 1 else 0
    {
      next := state;
      if outcome.success {
        failures, successes := 0, successes + 1;
        next := outcome.observed;
        if state == DOWN && successes < recoveryThreshold {
          next := DOWN;
        }
      } else {
        successes, failures := 0, failures + 1;
        if failures >= failureThreshold {
          next := DOWN;
        } else if state == MAINTENANCE {
          next := UNKNOWN;
        }
      }
    }

    method Echo(c: Check)
      modifies `latest
      ensures latest == Echoed(old(latest), c)
    {
      if c.outcome.success {
        latest := latest.(successAt := Some(c.at));
      } else {
        latest := latest.(failureAt := Some(c.at));
      }
      latest := latest.(checkedAt := Some(c.at), responseMs := c.outcome.responseMs,
                        message := Prefix(c.outcome.message, 500));
      if c.outcome.tlsExpiresAt.Some? {
        latest := latest.(tlsExpiresAt := c.outcome.tlsExpiresAt);
      }
    }

    /** The incident rows a state change opens or closes, and the transition it amounts to. */
    method TrackIncident(previous: State, next: State, c: Check) returns (transition: Option<Notify.Transition>)
      modifies `incidents
      ensures incidents == Tracked(old(incidents), previous, next, c)
      ensures transition == Emitted(previous, next)
    {
      transition := None;
      if next == DOWN && previous != DOWN {
        incidents := incidents + [Incident(c.at, None, Prefix(c.outcome.message, 500), "")];
        transition := Some(Notify.Down);
      } else if previous == DOWN && (next == UP || next == DEGRADED) {
        incidents := CloseOpen(incidents, c.at, c.outcome.message);
        transition := Some(if next == UP then Notify.Recovered else Notify.Degraded);
      } else if next == DEGRADED && previous != DEGRADED {
        transition := Some(Notify.Degraded);
      } else if previous == DEGRADED && next == UP {
        transition := Some(Notify.Recovered);
      }
    }

    /** The updates of _apply_outcome apart from the outbox. */
    method RecordOutcome(c: Check) returns (transition: Option<Notify.Transition>)
      modifies `failures, `successes, `latest, `state, `checks, `incidents
      ensures Value() == Applied(old(Value()), c)
      ensures transition == Emitted(old(state), NextState(old(Value()), c.outcome))
    {
      hide NextState, Emitted, Tracked, Echoed, ResultRow;
      var previous := state;
      var next := Count(c.outcome);
      Echo(c);
      state := next;
      Save();
      checks := checks + [ResultRow(c, next)];
      transition := TrackIncident(previous, next, c);
    }

    /** _apply_outcome. The entry is built before the updates, so that a raised error changes nothing. */
    method ApplyOutcome(codec: Notify.Codec, c: Check) returns (r: Result<Option<Notify.Transition>>)
      modifies this
      ensures match Apply(codec, old(Value()), c)
              case Raised => r == Raised && Value() == old(Value()) && outbox == old(outbox)
              case Ok((after, entry)) =>
                && Value() == after
                && r == Ok(Emitted(old(state), NextState(old(Value()), c.outcome)))
                && outbox == old(outbox) + (if entry.Some? then [entry.value] else [])
    {
      hide Applied, EntryFor, NextState, Emitted;
      var due := Emitted(state, NextState(Value(), c.outcome));
      var written: seq<Entry> := [];
      if due.Some? {
        var entry := EntryFor(codec, Value(), due.value, c);
        if entry.Raised? {
          return Raised;
        }
        written := [entry.value];
      }
      var transition := RecordOutcome(c);
      outbox := outbox + written;
      return Ok(transition);
    }

    method MarkMaintenance(now: Time)
      modifies `state, `latest
      ensures Value() == Maintained(old(Value()), now)
    {
      state := MAINTENANCE;
      latest := latest.(checkedAt := Some(now), message := "Approved maintenance window");
    }

    method Edit(name: string, enabled: bool, failureThreshold: nat, recoveryThreshold: nat)
      modifies `name, `enabled, `failureThreshold, `recoveryThreshold, `state
      ensures Value() == Edited(old(Value()), name, enabled, failureThreshold, recoveryThreshold)
    {
      this.name, this.enabled := name, enabled;
      this.failureThreshold, this.recoveryThreshold := failureThreshold, recoveryThreshold;
      Save();
    }

    /** run_monitor with the check itself given: inside a window only the state is overwritten, a disabled
        monitor is left alone, otherwise the outcome is applied. */
    method RunMonitor(codec: Notify.Codec, windows: seq<Window>, c: Check)
      modifies this
      ensures InMaintenance(windows, c.at) ==> Value() == Maintained(old(Value()), c.at) && outbox == old(outbox)
      ensures !InMaintenance(windows, c.at) && !old(enabled) ==> Value() == old(Value()) && outbox == old(outbox)
      ensures !InMaintenance(windows, c.at) && old(enabled) ==>
                match Apply(codec, old(Value()), c)
                case Raised => Value() == old(Value()) && outbox == old(outbox)
                case Ok((after, entry)) =>
                  Value() == after && outbox == old(outbox) + (if entry.Some? then [entry.value] else [])
    {
      hide Applied, EntryFor;
      if InMaintenance(windows, c.at) {
        MarkMaintenance(c.at);
        return;
      }
      if !enabled {
        return;
      }
      var _ := ApplyOutcome(codec, c);
    }
  }
}
