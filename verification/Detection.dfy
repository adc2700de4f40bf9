/**
 The worker, the dead-man evaluator and the threshold counters together: how soon a job that has
 fallen silent is DOWN (src/monitoring/management/commands/runmonitor.py, models.py is_due).
 */
module Detection {
  import opened Common
  import opened JobEvents
  import opened ScheduleLaws
  import Engine
  import EngineLaws

  // ---- Evaluations as checks --------------------------------------------------------------------

  function StateOf(o: ObservedState): Engine.State {
    match o
    case ObservedUp => Engine.UP
    case ObservedUnknown => Engine.UNKNOWN
    case ObservedDown => Engine.DOWN
  }

  /** check_job; `render` is the wording of the message. */
  function OutcomeOf(e: Evaluation, render: Reason -> string): Engine.Outcome {
    Engine.Outcome(e.success, StateOf(e.observed), None, render(e.reason), None)
  }

  /** One evaluation of the job: checked_at, the slightly later instant the evaluator reads, and the id
      of the result row. */
  datatype Probe = Probe(at: Time, evaluatedAt: Time, resultId: nat)

  function CheckOf(mon: JobMonitor, log: Log, render: Reason -> string, p: Probe): Engine.Check {
    Engine.Check(OutcomeOf(Evaluate(mon, log, p.evaluatedAt), render), p.at, p.resultId)
  }

  /** The monitor row after these evaluations of an unchanging log. */
  function Watched(m: Engine.Monitor, mon: JobMonitor, log: Log, render: Reason -> string,
                   probes: seq<Probe>): Engine.Monitor {
    if probes == [] then m
    else
      Engine.Applied(Watched(m, mon, log, render, probes[..|probes| - 1]),
                     CheckOf(mon, log, render, probes[|probes| - 1]))
  }

  /** An enabled monitor as every run leaves it: while DOWN it has an open incident. Maintenance may lie
      behind it. */
  predicate Active(m: Engine.Monitor) {
    && m.enabled && m.state != Engine.PAUSED && m.failureThreshold >= 1
    && (m.state == Engine.DOWN ==> EngineLaws.OpenCount(m.incidents) >= 1)
  }

  /** Failures that reach the threshold show as DOWN. */
  predicate Settled(m: Engine.Monitor) { m.failures >= m.failureThreshold ==> m.state == Engine.DOWN }

  /** Every check keeps a monitor active and leaves it settled, even just after a window or an edit. */
  lemma ActiveStep(m: Engine.Monitor, c: Engine.Check)
    requires Active(m) && EngineLaws.Producible(c.outcome)
    ensures Active(Engine.Applied(m, c)) && Settled(Engine.Applied(m, c))
    ensures Engine.Applied(m, c).failureThreshold == m.failureThreshold
    ensures Engine.Applied(m, c).failures == if c.outcome.success then 0 else m.failures + 1
  {
    hide Engine.Tracked, Engine.Echoed, Engine.ResultRow;
    EngineLaws.TrackedCount(m.incidents, m.state, Engine.NextState(m, c.outcome), c);
  }

  /** Each probe comes at most `gap` after the one before it, the first at most `gap` after `from`. */
  ghost predicate Covers(probes: seq<Probe>, from: Time, gap: nat) {
    && (forall i :: 0 <= i < |probes| ==> probes[i].at <= probes[i].evaluatedAt)
    && (forall i :: 0 <= i < |probes| - 1 ==> probes[i + 1].at <= probes[i].at + gap)
    && (probes != [] ==> probes[0].at <= from + gap)
  }

  lemma CoversFront(probes: seq<Probe>, from: Time, gap: nat)
    requires Covers(probes, from, gap) && probes != []
    ensures var n := |probes| - 1;
            && Covers(probes[..n], from, gap) && probes[n].at <= probes[n].evaluatedAt
            && probes[n].at <= (if n == 0 then from else probes[n - 1].at) + gap
  {
  }

  /** The instants after which the evaluator alarms, if there are any. */
  predicate AlarmsAfter(mon: JobMonitor, log: Log, deadline: Time) {
    !mon.schedule.Cron? && (AlarmOf(mon, log).Always? || AlarmOf(mon, log) == After(deadline))
  }

  lemma CheckIsProducible(mon: JobMonitor, log: Log, render: Reason -> string, p: Probe)
    requires !mon.schedule.Cron?
    ensures var o := CheckOf(mon, log, render, p).outcome;
            EngineLaws.Producible(o) && o.success == !Overdue(AlarmOf(mon, log), p.evaluatedAt)
  {
    AlarmExactlyWhenOverdue(mon, log, p.evaluatedAt);
    PhaseDecidesVerdict(mon, log, p.evaluatedAt);
  }

  lemma PaceStep(m: Engine.Monitor, mon: JobMonitor, log: Log, render: Reason -> string, p: Probe, previous: Time,
                 deadline: Time, gap: nat)
    requires Active(m) && AlarmsAfter(mon, log, deadline)
    requires p.at <= p.evaluatedAt && p.at <= previous + gap && previous <= deadline + m.failures * gap
    ensures var r := Engine.Applied(m, CheckOf(mon, log, render, p));
            Active(r) && Settled(r) && r.failureThreshold == m.failureThreshold && p.at <= deadline + r.failures * gap
  {
    hide Engine.Applied, Evaluate, AlarmOf, Active, Settled, CheckOf;
    CheckIsProducible(mon, log, render, p);
    ActiveStep(m, CheckOf(mon, log, render, p));
    assert (m.failures + 1) * gap == m.failures * gap + gap;
    assert 0 * gap == 0;
  }

  /** After the deadline the failure counter keeps pace with the clock: it has grown by one for every
      gap that has gone by. */
  lemma {:induction false} FailuresKeepPace(m: Engine.Monitor, mon: JobMonitor, log: Log, render: Reason -> string,
                                            probes: seq<Probe>, deadline: Time, gap: nat)
    requires Active(m) && AlarmsAfter(mon, log, deadline) && Covers(probes, deadline, gap)
    ensures var r := Watched(m, mon, log, render, probes);
            && Active(r) && r.failureThreshold == m.failureThreshold
            && (probes != [] ==> Settled(r) && probes[|probes| - 1].at <= deadline + r.failures * gap)
  {
    if probes != [] {
      hide Engine.Applied, AlarmsAfter, Active, Settled, CheckOf, Covers;
      CoversFront(probes, deadline, gap);
      var n := |probes| - 1;
      var front := probes[..n];
      FailuresKeepPace(m, mon, log, render, front, deadline, gap);
      var before := Watched(m, mon, log, render, front);
      var previous := if n == 0 then deadline else probes[n - 1].at;
      NonNegative(before.failures, gap);
      PaceStep(before, mon, log, render, probes[n], previous, deadline, gap);
    }
  }

  lemma NonNegative(a: nat, b: nat)
    ensures a * b >= 0
  {
  }

  lemma Outpaces(a: int, b: int, gap: nat)
    requires a * gap > b * gap
    ensures a > b
  {
  }

  /** End-to-end detection. If no signal arrives after the log, there is no maintenance or pause, and
      evaluations are at most `gap` apart, then once the evaluations have passed deadline +
      (failure_threshold - 1) gaps, hence by deadline + failure_threshold * gap, the monitor is DOWN
      with an open incident; and it is so after every longer run of evaluations too. */
  lemma SilentJobIsDown(m: Engine.Monitor, mon: JobMonitor, log: Log, render: Reason -> string, probes: seq<Probe>,
                        deadline: Time, gap: nat)
    requires Active(m) && AlarmsAfter(mon, log, deadline) && Covers(probes, deadline, gap) && probes != []
    requires probes[|probes| - 1].at > deadline + (m.failureThreshold - 1) * gap
    ensures var r := Watched(m, mon, log, render, probes);
            r.state == Engine.DOWN && EngineLaws.OpenCount(r.incidents) >= 1
  {
    FailuresKeepPace(m, mon, log, render, probes, deadline, gap);
    var r := Watched(m, mon, log, render, probes);
    Outpaces(r.failures, m.failureThreshold - 1, gap);
  }

  /** And no sooner than the job is overdue: evaluations up to the deadline never take it DOWN. */
  lemma {:induction false} PunctualJobIsNotDown(m: Engine.Monitor, mon: JobMonitor, log: Log, render: Reason -> string,
                                                probes: seq<Probe>)
    requires Active(m) && m.state != Engine.DOWN && !mon.schedule.Cron?
    requires forall i :: 0 <= i < |probes| ==> !Overdue(AlarmOf(mon, log), probes[i].evaluatedAt)
    ensures Active(Watched(m, mon, log, render, probes)) && Watched(m, mon, log, render, probes).state != Engine.DOWN
  {
    if probes != [] {
      hide Evaluate, AlarmOf;
      var front, p := probes[..|probes| - 1], probes[|probes| - 1];
      PunctualJobIsNotDown(m, mon, log, render, front);
      CheckIsProducible(mon, log, render, p);
      ActiveStep(Watched(m, mon, log, render, front), CheckOf(mon, log, render, p));
    }
  }

  // ---- The worker loop --------------------------------------------------------------------------

  /** Seconds between evaluations that is_due asks for. */
  function EvaluationInterval(isJob: bool, intervalSeconds: nat): nat {
    if isJob then Min(intervalSeconds, 30) else intervalSeconds
  }

  /** Monitor.is_due */
  predicate IsDue(enabled: bool, interval: nat, lastCheckedAt: Option<Time>, now: Time) {
    enabled && (lastCheckedAt.None? || now - lastCheckedAt.value >= Seconds(interval))
  }

  /** One turn of the worker loop: its `now`, and the probe its batch makes if the monitor is due. */
  datatype Cycle = Cycle(now: Time, probe: Probe)

  function LastChecked(initial: Option<Time>, probes: seq<Probe>): Option<Time> {
    if probes == [] then initial else Some(probes[|probes| - 1].at)
  }

  /** The evaluations an enabled monitor receives over these turns. */
  function Batches(initial: Option<Time>, interval: nat, cycles: seq<Cycle>): seq<Probe> {
    if cycles == [] then []
    else
      var before := Batches(initial, interval, cycles[..|cycles| - 1]);
      var c := cycles[|cycles| - 1];
      if IsDue(true, interval, LastChecked(initial, before), c.now) then before + [c.probe] else before
  }

  /** A monitor's settings as a turn finds them. */
  datatype Watch = Watch(enabled: bool, isJob: bool, intervalSeconds: nat)

  /** One turn of the worker loop: the clock it reads, the monotonic clock, the monitors it finds with their
      settings, the last_checked_at values that others have written since the turn before (an arriving
      signal writes None), and the probe each monitor gets if the batch checks it. */
  datatype Turn = Turn(
    now: Time, monotonic: int, fleet: map<nat, Watch>, touched: map<nat, Option<Time>>, probe: nat -> Probe)

  /** What the worker has done for one monitor, and the last_checked_at of its row. */
  datatype Record = Record(probes: seq<Probe>, lastCheckedAt: Option<Time>)

  function SeenBy(r: Record, id: nat, t: Turn): Option<Time> {
    if id in t.touched then t.touched[id] else r.lastCheckedAt
  }

  /** The turn selects the monitor. */
  predicate Selects(t: Turn, id: nat, seen: Option<Time>) {
    && id in t.fleet
    && var w := t.fleet[id];
       IsDue(w.enabled, EvaluationInterval(w.isJob, w.intervalSeconds), seen, t.now)
  }

  function AfterTurn(r: Record, id: nat, t: Turn): Record {
    var seen := SeenBy(r, id, t);
    if Selects(t, id, seen) then Record(r.probes + [t.probe(id)], Some(t.probe(id).at)) else Record(r.probes, seen)
  }

  /** One monitor over these turns, looked at alone. */
  function RecordOf(initial: Option<Time>, id: nat, turns: seq<Turn>): Record {
    if turns == [] then Record([], initial)
    else AfterTurn(RecordOf(initial, id, turns[..|turns| - 1]), id, turns[|turns| - 1])
  }

  function CyclesOf(turns: seq<Turn>, id: nat): (r: seq<Cycle>)
    ensures |r| == |turns| && forall j :: 0 <= j < |r| ==> r[j] == Cycle(turns[j].now, turns[j].probe(id))
  {
    seq(|turns|, j requires 0 <= j < |turns| => Cycle(turns[j].now, turns[j].probe(id)))
  }

  /** The monitor is enabled with unchanging settings, and nothing but the worker touches its last check. */
  predicate Undisturbed(turns: seq<Turn>, id: nat, w: Watch) {
    w.enabled && forall j :: 0 <= j < |turns| ==>
        id in turns[j].fleet && turns[j].fleet[id] == w && id !in turns[j].touched
  }

  lemma {:induction false} UndisturbedRecord(initial: Option<Time>, id: nat, turns: seq<Turn>, w: Watch)
    requires Undisturbed(turns, id, w)
    ensures var probes := Batches(initial, EvaluationInterval(w.isJob, w.intervalSeconds), CyclesOf(turns, id));
            RecordOf(initial, id, turns) == Record(probes, LastChecked(initial, probes))
  {
    if turns != [] {
      var n := |turns| - 1;
      UndisturbedRecord(initial, id, turns[..n], w);
      assert CyclesOf(turns, id)[..n] == CyclesOf(turns[..n], id);
    }
  }

  /** When a turn selects a monitor: it is there, enabled, and was never checked or not for its interval, of
      which a job counts 30 seconds at most. */
  lemma SelectsExactly(t: Turn, id: nat, seen: Option<Time>)
    ensures Selects(t, id, seen) <==>
              && id in t.fleet && t.fleet[id].enabled
              && (seen.None?
                  || (t.fleet[id].isJob && t.now - seen.value >= 30_000_000)
                  || t.now - seen.value >= t.fleet[id].intervalSeconds * 1_000_000)
  {
  }

  /** What a turn does to a monitor: the last check is what others wrote since, or else what it was; a
      selected monitor is probed once and its last check becomes the instant of the probe. */
  lemma TurnExactly(r: Record, id: nat, t: Turn)
    ensures var seen := if id in t.touched then t.touched[id] else r.lastCheckedAt;
            && (Selects(t, id, seen) ==>
                  AfterTurn(r, id, t) == Record(r.probes + [t.probe(id)], Some(t.probe(id).at)))
            && (!Selects(t, id, seen) ==> AfterTurn(r, id, t) == Record(r.probes, seen))
  {
    hide Selects;
  }

  /** A disabled monitor is never checked. */
  lemma {:induction false} DisabledIsNotChecked(initial: Option<Time>, id: nat, turns: seq<Turn>)
    requires forall j :: 0 <= j < |turns| ==> id !in turns[j].fleet || !turns[j].fleet[id].enabled
    ensures RecordOf(initial, id, turns).probes == []
  {
    if turns != [] {
      hide AfterTurn, Selects;
      var n := |turns| - 1;
      DisabledIsNotChecked(initial, id, turns[..n]);
      TurnExactly(RecordOf(initial, id, turns[..n]), id, turns[n]);
      SelectsExactly(turns[n], id, SeenBy(RecordOf(initial, id, turns[..n]), id, turns[n]));
    }
  }

  /** A signal that has arrived since the turn before has its job evaluated at once. */
  lemma SignalIsEvaluatedNext(r: Record, id: nat, t: Turn)
    requires id in t.fleet && t.fleet[id].enabled && id in t.touched && t.touched[id].None?
    ensures AfterTurn(r, id, t).probes == r.probes + [t.probe(id)]
  {
  }

  /** The last prune before these turns end, on the monotonic clock. */
  function LastPrune(turns: seq<Turn>, interval: int): Option<int> {
    if turns == [] then None
    else
      var before := LastPrune(turns[..|turns| - 1], interval);
      if PruneDue(before, turns[|turns| - 1].monotonic, interval) then Some(turns[|turns| - 1].monotonic) else before
  }

  predicate PruneDue(last: Option<int>, now: int, interval: int) { last.None? || now - last.value >= interval }

  /** The turns that prune history: the first one, and then each that comes an interval or more after the
      last prune. */
  ghost predicate PruneTurns(turns: seq<Turn>, interval: int, prunes: seq<nat>) {
    && (forall i, j :: 0 <= i < j < |prunes| ==> prunes[i] < prunes[j])
    && (forall k :: 0 <= k < |turns| ==> (k in prunes <==> PrunesAt(turns, interval, k)))
    && (forall i :: 0 <= i < |prunes| ==> prunes[i] < |turns|)
  }

  /** The records of all monitors, those not met yet being as they were. */
  function Known(records: map<nat, Record>, id: nat, initial: nat -> Option<Time>): Record {
    if id in records then records[id] else Record([], initial(id))
  }

  /** The worker loop: history is pruned when its interval has gone by, and the batch of each turn checks
      exactly the enabled monitors that are due. `initial` are the last_checked_at values at the start. */
  method Worker(initial: nat -> Option<Time>, turns: seq<Turn>, pruneInterval: int)
    returns (records: map<nat, Record>, prunes: seq<nat>)
    ensures forall id :: Known(records, id, initial) == RecordOf(initial(id), id, turns)
    ensures PruneTurns(turns, pruneInterval, prunes)
  {
    records, prunes := map[], [];
    var lastHistoryPrune: Option<int> := None;
    for j := 0 to |turns|
      invariant forall id :: Known(records, id, initial) == RecordOf(initial(id), id, turns[..j])
      invariant PruneTurns(turns[..j], pruneInterval, prunes)
      invariant lastHistoryPrune == LastPrune(turns[..j], pruneInterval)
    {
      hide AfterTurn, Known;
      PruneNext(turns, j, pruneInterval, prunes);
      if PruneDue(lastHistoryPrune, turns[j].monotonic, pruneInterval) {
        prunes := prunes + [j];
        lastHistoryPrune := Some(turns[j].monotonic);
      }
      assert turns[..j + 1][..j] == turns[..j];
      records := Batch(initial, turns[j], records);
    }
    assert turns[..|turns|] == turns;
  }

  lemma PruneNext(turns: seq<Turn>, j: nat, interval: int, prunes: seq<nat>)
    requires j < |turns| && PruneTurns(turns[..j], interval, prunes)
    ensures var due := PruneDue(LastPrune(turns[..j], interval), turns[j].monotonic, interval);
            && PruneTurns(turns[..j + 1], interval, if due then prunes + [j] else prunes)
            && LastPrune(turns[..j + 1], interval)
               == if due then Some(turns[j].monotonic) else LastPrune(turns[..j], interval)
  {
    hide LastPrune, PruneDue;
    var next := turns[..j + 1];
    LastPruneNext(next, interval);
    assert next[..j] == turns[..j];
    var due := PruneDue(LastPrune(turns[..j], interval), turns[j].monotonic, interval);
    var more := if due then prunes + [j] else prunes;
    forall k | 0 <= k < |next| ensures k in more <==> PrunesAt(next, interval, k) {
      if k < j {
        assert next[..k] == turns[..j][..k] && next[k] == turns[..j][k];
      }
    }
  }

  lemma LastPruneNext(turns: seq<Turn>, interval: int)
    requires turns != []
    ensures var n := |turns| - 1;
            LastPrune(turns, interval)
            == if PruneDue(LastPrune(turns[..n], interval), turns[n].monotonic, interval) then Some(turns[n].monotonic)
               else LastPrune(turns[..n], interval)
  {
  }

  /** One turn: the due monitors are selected at its clock, and each of them is checked once. */
  method Batch(initial: nat -> Option<Time>, t: Turn, records: map<nat, Record>) returns (after: map<nat, Record>)
    ensures forall id :: Known(after, id, initial) == AfterTurn(Known(records, id, initial), id, t)
  {
    hide Selects, SeenBy;
    after := map id | id in records.Keys + t.touched.Keys + t.fleet.Keys :: Held(Known(records, id, initial), id, t);
    ghost var seen := after;
    var due := set id | id in t.fleet && Selects(t, id, after[id].lastCheckedAt);
    var left := due;
    while left != {}
      invariant left <= due && after.Keys == seen.Keys
      invariant forall id :: id in after ==>
              after[id] == if id in due && id !in left then Probed(seen[id], id, t) else seen[id]
      decreases left
    {
      hide Held, Probed, Known;
      var id :| id in left;
      after := after[id := Probed(after[id], id, t)];
      left := left - {id};
    }
    forall id ensures Known(after, id, initial) == AfterTurn(Known(records, id, initial), id, t) {
      TurnOfOne(Known(records, id, initial), id, t);
    }
  }

  /** The record as the turn finds it. */
  function Held(r: Record, id: nat, t: Turn): Record { Record(r.probes, SeenBy(r, id, t)) }

  function Probed(r: Record, id: nat, t: Turn): Record { Record(r.probes + [t.probe(id)], Some(t.probe(id).at)) }

  lemma TurnOfOne(r: Record, id: nat, t: Turn)
    ensures AfterTurn(r, id, t)
            == if Selects(t, id, SeenBy(r, id, t)) then Probed(Held(r, id, t), id, t) else Held(r, id, t)
    ensures id !in t.fleet ==> !Selects(t, id, SeenBy(r, id, t))
    ensures id !in t.fleet && id !in t.touched ==> Held(r, id, t) == r
  {
  }

  predicate PrunesAt(turns: seq<Turn>, interval: int, k: nat)
    requires k < |turns|
  {
    PruneDue(LastPrune(turns[..k], interval), turns[k].monotonic, interval)
  }

  /** The prune that turn k looks back to: the last one up to that turn. */
  lemma {:induction false} LastPruneAt(turns: seq<Turn>, interval: int, k: nat) returns (p: nat)
    requires k < |turns|
    ensures p <= k && PrunesAt(turns, interval, p) && LastPrune(turns[..k + 1], interval) == Some(turns[p].monotonic)
    ensures forall q :: p < q <= k ==> !PrunesAt(turns, interval, q)
  {
    hide LastPrune;
    LastPruneNext(turns[..k + 1], interval);
    assert turns[..k + 1][..k] == turns[..k];
    if PrunesAt(turns, interval, k) {
      p := k;
    } else {
      assert k == 0 ==> LastPrune(turns[..0], interval) == None by { NoPrune(turns[..0], interval); }
      p := LastPruneAt(turns, interval, k - 1);
    }
  }

  lemma NoPrune(turns: seq<Turn>, interval: int)
    requires turns == []
    ensures LastPrune(turns, interval) == None
  {
  }

  /** Consecutive prunes are at least the interval apart. */
  lemma PrunesSpaced(turns: seq<Turn>, interval: int, prunes: seq<nat>, i: nat)
    requires PruneTurns(turns, interval, prunes) && i + 1 < |prunes|
    ensures turns[prunes[i + 1]].monotonic >= turns[prunes[i]].monotonic + interval
  {
    hide LastPrune;
    var next := prunes[i + 1];
    assert next in prunes && prunes[i] in prunes;
    var p := LastPruneAt(turns, interval, next - 1);
    assert PrunesAt(turns, interval, prunes[i]) && PrunesAt(turns, interval, p);
    NoneBetween(prunes, i, p);
  }

  /** And at every turn some prune up to it is less than the interval old. */
  lemma HistoryIsPruned(turns: seq<Turn>, interval: int, prunes: seq<nat>, k: nat) returns (p: nat)
    requires PruneTurns(turns, interval, prunes) && k < |turns|
    ensures p in prunes && p <= k && turns[k].monotonic - turns[p].monotonic < Max(interval, 1)
  {
    hide LastPrune;
    p := LastPruneAt(turns, interval, k);
    assert PrunesAt(turns, interval, p);
    if p < k {
      RecentPrune(turns, interval, k, p);
    }
  }

  lemma NoneBetween(prunes: seq<nat>, i: nat, p: nat)
    requires i + 1 < |prunes| && forall a, b :: 0 <= a < b < |prunes| ==> prunes[a] < prunes[b]
    requires p in prunes && prunes[i] <= p < prunes[i + 1]
    ensures p == prunes[i]
  {
    var j :| 0 <= j < |prunes| && prunes[j] == p;
  }

  lemma RecentPrune(turns: seq<Turn>, interval: int, k: nat, p: nat)
    requires p < k < |turns| && !PrunesAt(turns, interval, k)
    requires LastPrune(turns[..k + 1], interval) == Some(turns[p].monotonic)
    ensures turns[k].monotonic - turns[p].monotonic < interval
  {
    assert turns[..k + 1][..k] == turns[..k];
  }

  /** Turns start at most `turn` apart, and a batch checks at most `lag` after its turn starts. */
  ghost predicate Steady(cycles: seq<Cycle>, turn: nat, lag: nat) {
    && (forall j :: 0 <= j < |cycles| - 1 ==> cycles[j + 1].now <= cycles[j].now + turn)
    && (forall j :: 0 <= j < |cycles| ==>
          && cycles[j].now <= cycles[j].probe.at <= cycles[j].now + lag
          && cycles[j].probe.at <= cycles[j].probe.evaluatedAt)
  }

  lemma NothingCovers(from: Time, gap: nat)
    ensures Covers([], from, gap)
  {
  }

  lemma CoversAppend(probes: seq<Probe>, p: Probe, from: Time, gap: nat)
    requires Covers(probes, from, gap) && p.at <= p.evaluatedAt
    requires p.at <= (if probes == [] then from else probes[|probes| - 1].at) + gap
    ensures Covers(probes + [p], from, gap)
  {
  }

  /** Evaluations are then at most the evaluation interval plus one turn plus the lag apart, and at every
      turn the last one is less than the interval old. */
  lemma {:induction false} WorkerCovers(initial: Option<Time>, interval: nat, cycles: seq<Cycle>, turn: nat, lag: nat,
                                        deadline: Time)
    requires cycles != [] && Steady(cycles, turn, lag)
    requires cycles[0].now <= deadline + turn && (initial.Some? ==> initial.value <= deadline)
    ensures var probes := Batches(initial, interval, cycles);
            && Covers(probes, deadline, Seconds(interval) + turn + lag)
            && LastChecked(initial, probes).Some?
            && LastChecked(initial, probes).value > cycles[|cycles| - 1].now - Seconds(interval) - 1
            && (interval > 0 ==> LastChecked(initial, probes).value > cycles[|cycles| - 1].now - Seconds(interval))
  {
    hide Covers, Seconds, IsDue;
    var front, c := cycles[..|cycles| - 1], cycles[|cycles| - 1];
    var before := Batches(initial, interval, front);
    DueUnlessRecent(interval, LastChecked(initial, before), c.now);
    if front != [] {
      WorkerCovers(initial, interval, front, turn, lag, deadline);
      assert c.now <= front[|front| - 1].now + turn;
    } else {
      NothingCovers(deadline, Seconds(interval) + turn + lag);
    }
    if IsDue(true, interval, LastChecked(initial, before), c.now) {
      CoversAppend(before, c.probe, deadline, Seconds(interval) + turn + lag);
    }
  }

  lemma DueUnlessRecent(interval: nat, lastCheckedAt: Option<Time>, now: Time)
    ensures IsDue(true, interval, lastCheckedAt, now)
            <==> !(lastCheckedAt.Some? && lastCheckedAt.value > now - Seconds(interval))
    ensures Seconds(interval) >= 0 && (interval > 0 ==> Seconds(interval) >= 1)
  {
  }

  /** The whole chain for a scheduled job: with an evaluation interval of at most 30 seconds, worker turns
      at most `turn` apart and batches lagging at most `lag`, a job that stays silent past its deadline
      is DOWN with an open incident at the first turn that starts failure_threshold * (interval + turn +
      lag) after the deadline, and at every later turn. */
  lemma SilentJobIsDownByTheWorker(m: Engine.Monitor, mon: JobMonitor, log: Log, render: Reason -> string,
                                   initial: Option<Time>, turns: seq<Turn>, turn: nat, lag: nat, deadline: Time)
    requires Active(m) && AlarmsAfter(mon, log, deadline) && mon.intervalSeconds >= 1
    requires turns != [] && Undisturbed(turns, mon.id, Watch(true, true, mon.intervalSeconds))
    requires Steady(CyclesOf(turns, mon.id), turn, lag)
    requires turns[0].now <= deadline + turn && (initial.Some? ==> initial.value <= deadline)
    requires var gap := (if mon.intervalSeconds > 30 then 30 else mon.intervalSeconds) * 1_000_000 + turn + lag;
             turns[|turns| - 1].now >= deadline + m.failureThreshold * gap
    ensures var r := Watched(m, mon, log, render, RecordOf(initial, mon.id, turns).probes);
            r.state == Engine.DOWN && EngineLaws.OpenCount(r.incidents) >= 1
  {
    hide Active, AlarmsAfter, Watched, Batches, Covers, Steady, Undisturbed, RecordOf;
    var cycles, interval := CyclesOf(turns, mon.id), EvaluationInterval(true, mon.intervalSeconds);
    var gap: nat := Seconds(interval) + turn + lag;
    UndisturbedRecord(initial, mon.id, turns, Watch(true, true, mon.intervalSeconds));
    WorkerCovers(initial, interval, cycles, turn, lag, deadline);
    var probes := Batches(initial, interval, cycles);
    ThresholdPositive(m);
    LateEnough(m.failureThreshold, gap, Seconds(interval), deadline, turns[|turns| - 1].now,
               LastChecked(initial, probes).value);
    SilentJobIsDown(m, mon, log, render, probes, deadline, gap);
  }

  lemma LateEnough(threshold: nat, gap: nat, interval: int, deadline: Time, turn: Time, checked: Time)
    requires threshold >= 1 && interval <= gap
    requires turn >= deadline + threshold * gap && checked > turn - interval
    ensures checked > deadline + (threshold - 1) * gap && checked > deadline
  {
    assert threshold * gap == (threshold - 1) * gap + gap;
    assert (threshold - 1) * gap >= 0;
  }

  lemma ThresholdPositive(m: Engine.Monitor)
    requires Active(m)
    ensures m.failureThreshold >= 1
  {
  }
}
