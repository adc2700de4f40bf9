/**
 What the threshold counters, incidents and notifications mean over whole runs of checks.
 */
module EngineLaws {
  import opened Common
  import opened Text
  import opened Engine
  import Notify

  /** What a performed check can report: a success is observed UP, DEGRADED or (scheduled jobs)
      UNKNOWN, a failure DOWN. */
  predicate Producible(o: Outcome) {
    if o.success then o.observed == UP || o.observed == DEGRADED || o.observed == UNKNOWN else o.observed == DOWN
  }

  predicate AllProducible(cs: seq<Check>) { forall i :: 0 <= i < |cs| ==> Producible(cs[i].outcome) }

  /** A newly created, enabled monitor with valid thresholds. */
  predicate New(m: Monitor) {
    && m.enabled && m.state == UNKNOWN && m.failures == 0 && m.successes == 0
    && m.failureThreshold >= 1 && m.recoveryThreshold >= 1 && m.incidents == []
  }

  function RunChecks(m: Monitor, cs: seq<Check>): Monitor {
    if cs == [] then m else Applied(RunChecks(m, cs[..|cs| - 1]), cs[|cs| - 1])
  }

  lemma {:induction false} SettingsStay(m: Monitor, cs: seq<Check>)
    ensures var r := RunChecks(m, cs);
            && r.enabled == m.enabled && r.failureThreshold == m.failureThreshold
            && r.recoveryThreshold == m.recoveryThreshold && r.id == m.id && r.name == m.name
  {
    if cs != [] {
      SettingsStay(m, cs[..|cs| - 1]);
    }
  }

  // ---- The counters refine the history ----------------------------------------------------------

  type History = seq<bool>

  function Successes(cs: seq<Check>): (h: History)
    ensures |h| == |cs| && forall i :: 0 <= i < |h| ==> h[i] == cs[i].outcome.success
  {
    if cs == [] then [] else Successes(cs[..|cs| - 1]) + [cs[|cs| - 1].outcome.success]
  }

  /** n consecutive outcomes equal to b, starting at i. */
  predicate Block(h: History, i: nat, n: nat, b: bool) {
    i + n <= |h| && forall k :: i <= k < i + n ==> h[k] == b
  }

  /** A block of F failures with no later block of R successes. */
  ghost predicate DownByHistory(h: History, F: nat, R: nat) {
    exists i: nat :: Block(h, i, F, false) && Unanswered(h, i + F, R)
  }

  /** No block of R successes at or after the given position. */
  ghost predicate Unanswered(h: History, from: nat, R: nat) {
    forall j: nat :: from <= j ==> !Block(h, j, R, true)
  }

  /** Length of the longest suffix of outcomes equal to b. */
  function Trailing(h: History, b: bool): nat {
    if h != [] && h[|h| - 1] == b then 1 + Trailing(h[..|h| - 1], b) else 0
  }

  lemma {:induction false} TrailingIsBlock(h: History, b: bool, n: nat)
    ensures n <= Trailing(h, b) <==> n <= |h| && Block(h, |h| - n, n, b)
  {
    if n > 0 && h != [] && h[|h| - 1] == b {
      var front := h[..|h| - 1];
      TrailingIsBlock(front, b, n - 1);
      if n <= |h| {
        assert Block(h, |h| - n, n, b) <==> Block(front, |front| - (n - 1), n - 1, b);
      }
    }
  }

  lemma BlockGrows(h: History, x: bool, i: nat, n: nat, b: bool)
    requires i + n <= |h|
    ensures Block(h + [x], i, n, b) == Block(h, i, n, b)
  {
    assert forall k :: i <= k < i + n ==> (h + [x])[k] == h[k];
  }

  lemma TrailingGrows(h: History, x: bool, b: bool)
    ensures Trailing(h + [x], b) == if x == b then 1 + Trailing(h, b) else 0
  {
    assert (h + [x])[..|h|] == h;
  }

  lemma AfterFailure(h: History, F: nat, R: nat)
    requires F >= 1 && R >= 1
    ensures DownByHistory(h + [false], F, R) <==> DownByHistory(h, F, R) || Trailing(h, false) + 1 >= F
  {
    var g := h + [false];
    TrailingGrows(h, false, false);
    TrailingIsBlock(g, false, F);
    assert g[|h|] == false;
    forall j: nat ensures Block(g, j, R, true) == Block(h, j, R, true) {
      if j + R <= |h| {
        BlockGrows(h, false, j, R, true);
      }
    }
    forall from: nat ensures Unanswered(g, from, R) == Unanswered(h, from, R) {
    }
    if Trailing(h, false) + 1 >= F {
      assert Block(g, |g| - F, F, false);
      assert Unanswered(g, |g|, R);
    }
    if DownByHistory(h, F, R) {
      var i: nat :| Block(h, i, F, false) && Unanswered(h, i + F, R);
      BlockGrows(h, false, i, F, false);
      assert Block(g, i, F, false);
    }
    if DownByHistory(g, F, R) && Trailing(h, false) + 1 < F {
      var i: nat :| Block(g, i, F, false) && Unanswered(g, i + F, R);
      assert !(F <= |g| && Block(g, |g| - F, F, false));
      BlockGrows(h, false, i, F, false);
      assert Block(h, i, F, false);
    }
  }

  lemma AfterSuccess(h: History, F: nat, R: nat)
    requires F >= 1 && R >= 1
    ensures DownByHistory(h + [true], F, R) <==> DownByHistory(h, F, R) && Trailing(h, true) + 1 < R
  {
    var g := h + [true];
    TrailingGrows(h, true, true);
    TrailingIsBlock(g, true, R);
    forall j: nat | j + R <= |h| ensures Block(g, j, R, true) == Block(h, j, R, true) {
      BlockGrows(h, true, j, R, true);
    }
    if DownByHistory(g, F, R) {
      var i: nat :| Block(g, i, F, false) && Unanswered(g, i + F, R);
      assert g[i + F - 1] == false;
      BlockGrows(h, true, i, F, false);
      assert Block(h, i, F, false);
      forall j: nat | i + F <= j ensures !Block(h, j, R, true) {
      }
      assert Unanswered(h, i + F, R);
      assert R <= |g| && Block(g, |g| - R, R, true) ==> i + F <= |g| - R;
    }
    if DownByHistory(h, F, R) && Trailing(h, true) + 1 < R {
      var i: nat :| Block(h, i, F, false) && Unanswered(h, i + F, R);
      BlockGrows(h, true, i, F, false);
      assert !(R <= |g| && Block(g, |g| - R, R, true));
      forall j: nat | i + F <= j ensures !Block(g, j, R, true) {
      }
      assert Unanswered(g, i + F, R);
      assert Block(g, i, F, false);
    }
  }

  /** With fixed thresholds and no maintenance or pause, the monitor is DOWN exactly when the outcome
      history holds a block of failure_threshold failures with no later block of recovery_threshold
      successes; the counters are the lengths of the current streaks. */
  lemma {:induction false} CountersRefineHistory(m: Monitor, cs: seq<Check>)
    requires New(m) && AllProducible(cs)
    ensures var r := RunChecks(m, cs);
            && (r.state == DOWN <==> DownByHistory(Successes(cs), m.failureThreshold, m.recoveryThreshold))
            && r.failures == Trailing(Successes(cs), false) && r.successes == Trailing(Successes(cs), true)
            && r.state != PAUSED && r.state != MAINTENANCE
  {
    var F, R := m.failureThreshold, m.recoveryThreshold;
    if cs == [] {
      assert forall i: nat :: !Block([], i, F, false);
    } else {
      var front, c := cs[..|cs| - 1], cs[|cs| - 1];
      hide Tracked, Echoed, ResultRow, DownByHistory, Trailing;
      CountersRefineHistory(m, front);
      SettingsStay(m, front);
      var h, x := Successes(front), c.outcome.success;
      assert Successes(cs) == h + [x];
      TrailingGrows(h, x, true);
      TrailingGrows(h, x, false);
      if x {
        AfterSuccess(h, F, R);
      } else {
        AfterFailure(h, F, R);
      }
    }
  }

  // ---- The amortised flapping bound -------------------------------------------------------------

  /** Entries into DOWN during the run. */
  function Entries(m: Monitor, cs: seq<Check>): nat {
    if cs == [] then 0
    else
      var before := RunChecks(m, cs[..|cs| - 1]);
      Entries(m, cs[..|cs| - 1]) + if Opens(before.state, NextState(before, cs[|cs| - 1].outcome)) then 1 else 0
  }

  function CountOf(h: History, b: bool): nat {
    if h == [] then 0 else CountOf(h[..|h| - 1], b) + if h[|h| - 1] == b then 1 else 0
  }

  /** What the totals of failures and successes owe to k entries into DOWN and the current streaks. */
  predicate Owed(m: Monitor, k: nat, failed: nat, succeeded: nat) {
    if m.state == DOWN then
      && k >= 1 && failed >= k * m.failureThreshold
      && succeeded >= (k - 1) * m.recoveryThreshold + m.successes
    else
      && failed >= k * m.failureThreshold + m.failures
      && succeeded >= k * m.recoveryThreshold
  }

  lemma OwedStep(m: Monitor, c: Check, k: nat, failed: nat, succeeded: nat)
    requires Owed(m, k, failed, succeeded) && Producible(c.outcome) && m.enabled
    requires m.state != PAUSED && m.state != MAINTENANCE
    ensures Owed(Applied(m, c), k + (if Opens(m.state, NextState(m, c.outcome)) then 1 else 0),
                 failed + (if c.outcome.success then 0 else 1), succeeded + (if c.outcome.success then 1 else 0))
  {
    hide Tracked, Echoed, ResultRow;
    assert (k + 1) * m.failureThreshold == k * m.failureThreshold + m.failureThreshold;
    assert k * m.recoveryThreshold == (k - 1) * m.recoveryThreshold + m.recoveryThreshold;
  }

  lemma CountStep(cs: seq<Check>, b: bool)
    requires cs != []
    ensures CountOf(Successes(cs), b)
            == CountOf(Successes(cs[..|cs| - 1]), b) + if cs[|cs| - 1].outcome.success == b then 1 else 0
  {
    assert Successes(cs)[..|cs| - 1] == Successes(cs[..|cs| - 1]);
  }

  lemma RunningMonitor(m: Monitor, cs: seq<Check>)
    requires New(m) && AllProducible(cs)
    ensures RunChecks(m, cs).enabled && RunChecks(m, cs).state != PAUSED && RunChecks(m, cs).state != MAINTENANCE
  {
    CountersRefineHistory(m, cs);
    SettingsStay(m, cs);
  }

  lemma OwedNew(m: Monitor)
    requires New(m)
    ensures Owed(m, 0, 0, 0)
  {
    assert 0 * m.failureThreshold == 0 && 0 * m.recoveryThreshold == 0;
  }

  lemma {:induction false} FlappingOwed(m: Monitor, cs: seq<Check>)
    requires New(m) && AllProducible(cs)
    ensures Owed(RunChecks(m, cs), Entries(m, cs), CountOf(Successes(cs), false), CountOf(Successes(cs), true))
  {
    if cs == [] {
      hide Owed;
      OwedNew(m);
    } else {
      hide Applied, NextState, Owed, Producible, Opens, CountOf, Successes, New;
      var front, c := cs[..|cs| - 1], cs[|cs| - 1];
      FlappingOwed(m, front);
      RunningMonitor(m, front);
      CountStep(cs, true);
      CountStep(cs, false);
      OwedStep(RunChecks(m, front), c, Entries(m, front), CountOf(Successes(front), false),
               CountOf(Successes(front), true));
    }
  }

  /** k entries into DOWN need at least k * failure_threshold failed checks, and at least
      (k - 1) * recovery_threshold successful ones. */
  lemma FlappingBound(m: Monitor, cs: seq<Check>)
    requires New(m) && AllProducible(cs)
    ensures CountOf(Successes(cs), false) >= Entries(m, cs) * m.failureThreshold
    ensures CountOf(Successes(cs), true) >= (Entries(m, cs) - 1) * m.recoveryThreshold
  {
    hide Applied, NextState, RunChecks, Entries, CountOf;
    FlappingOwed(m, cs);
    SettingsStay(m, cs);
    var k := Entries(m, cs);
    assert k * m.recoveryThreshold == (k - 1) * m.recoveryThreshold + m.recoveryThreshold;
  }

  // ---- The notification stream -------------------------------------------------------------------

  datatype Level = Fine | Impaired | Out

  function LevelOf(s: State): Level { if s == DOWN then Out else if s == DEGRADED then Impaired else Fine }

  function LevelNamed(t: Notify.Transition): Level {
    match t
    case Down => Out
    case Degraded => Impaired
    case Recovered => Fine
  }

  /** The transitions a run emits, in order. */
  function Stream(m: Monitor, cs: seq<Check>): seq<Notify.Transition> {
    if cs == [] then []
    else
      var before := RunChecks(m, cs[..|cs| - 1]);
      var t := Emitted(before.state, NextState(before, cs[|cs| - 1].outcome));
      Stream(m, cs[..|cs| - 1]) + if t.Some? then [t.value] else []
  }

  /** Every success is observed UP or DEGRADED. */
  predicate Observed(cs: seq<Check>) {
    forall i :: 0 <= i < |cs| ==> Producible(cs[i].outcome) && cs[i].outcome.observed != UNKNOWN
  }

  function LastLevel(stream: seq<Notify.Transition>): Level {
    if stream == [] then Fine else LevelNamed(stream[|stream| - 1])
  }

  /** One check: a transition is emitted exactly when the level changes, and names the new level. */
  lemma EmittedIsLevelChange(m: Monitor, c: Check)
    requires Producible(c.outcome) && c.outcome.observed != UNKNOWN && m.enabled
    requires m.state != PAUSED && m.state != MAINTENANCE
    ensures var t, level := Emitted(m.state, NextState(m, c.outcome)), LevelOf(Applied(m, c).state);
            if t.None? then level == LevelOf(m.state) else level == LevelNamed(t.value) != LevelOf(m.state)
  {
    hide Tracked, Echoed, ResultRow;
  }

  /** The stream names exactly the changes of level: no two adjacent notifications repeat, it never
      starts with RECOVERED, and its last element tells whether the monitor is now DOWN, DEGRADED or
      neither. */
  lemma {:induction false} StreamFollowsLevels(m: Monitor, cs: seq<Check>)
    requires New(m) && Observed(cs)
    ensures var s := Stream(m, cs);
            && LastLevel(s) == LevelOf(RunChecks(m, cs).state)
            && (s != [] ==> s[0] != Notify.Recovered)
            && (forall i :: 0 <= i < |s| - 1 ==> s[i] != s[i + 1])
  {
    if cs != [] {
      hide Applied, NextState, Emitted, Producible, New;
      var front := cs[..|cs| - 1];
      StreamFollowsLevels(m, front);
      RunningMonitor(m, front);
      EmittedIsLevelChange(RunChecks(m, front), cs[|cs| - 1]);
    }
  }

  /** A recovery is announced and closes every open incident, unless it is a scheduled job's success that
      is observed UNKNOWN: the monitor then leaves DOWN silently and its incident stays open. */
  lemma SilentRecovery(m: Monitor, c: Check)
    requires m.enabled && m.state == DOWN && c.outcome.success && Producible(c.outcome)
    requires m.successes + 1 >= m.recoveryThreshold
    ensures var r := Applied(m, c);
            && r.state == c.outcome.observed
            && (Emitted(m.state, NextState(m, c.outcome)).None? <==> c.outcome.observed == UNKNOWN)
            && (c.outcome.observed == UNKNOWN ==> r.incidents == m.incidents)
            && (c.outcome.observed != UNKNOWN ==> OpenCount(r.incidents) == 0)
  {
    CloseOpenClosesAll(m.incidents, c.at, c.outcome.message);
  }

  // ---- Incidents --------------------------------------------------------------------------------

  function OpenCount(incidents: seq<Incident>): nat {
    if incidents == [] then 0
    else OpenCount(incidents[..|incidents| - 1]) + if incidents[|incidents| - 1].endedAt.None? then 1 else 0
  }

  lemma {:induction false} CloseOpenClosesAll(incidents: seq<Incident>, at: Time, message: string)
    ensures OpenCount(CloseOpen(incidents, at, message)) == 0
  {
    if incidents != [] {
      var front := incidents[..|incidents| - 1];
      CloseOpenClosesAll(front, at, message);
      assert CloseOpen(incidents, at, message)[..|front|] == CloseOpen(front, at, message);
    }
  }

  /** Everything that can happen to a monitor row. */
  datatype Event =
    | Checked(check: Check)
    | Maintenance(now: Time)
    | FormEdit(name: string, enabled: bool, failureThreshold: nat, recoveryThreshold: nat)

  function Step(m: Monitor, e: Event): Monitor {
    match e
    case Checked(c) => Applied(m, c)
    case Maintenance(now) => Maintained(m, now)
    case FormEdit(name, enabled, f, r) => Edited(m, name, enabled, f, r)
  }

  function RunEvents(m: Monitor, es: seq<Event>): Monitor {
    if es == [] then m else Step(RunEvents(m, es[..|es| - 1]), es[|es| - 1])
  }

  predicate EventsProducible(es: seq<Event>) {
    forall i :: 0 <= i < |es| ==> es[i].Checked? ==> Producible(es[i].check.outcome)
  }

  /** Entries into DOWN since the last step from DOWN to UP or DEGRADED. */
  function Unclosed(m: Monitor, es: seq<Event>): nat {
    if es == [] then 0
    else
      var before, e := RunEvents(m, es[..|es| - 1]), es[|es| - 1];
      var so := Unclosed(m, es[..|es| - 1]);
      if !e.Checked? then so
      else if Opens(before.state, NextState(before, e.check.outcome)) then so + 1
      else if Closes(before.state, NextState(before, e.check.outcome)) then 0
      else so
  }

  lemma OpenCountAppend(incidents: seq<Incident>, i: Incident)
    ensures OpenCount(incidents + [i]) == OpenCount(incidents) + if i.endedAt.None? then 1 else 0
  {
    assert (incidents + [i])[..|incidents|] == incidents;
  }

  /** What one check does to the number of open incidents. */
  lemma TrackedCount(incidents: seq<Incident>, before: State, next: State, c: Check)
    ensures OpenCount(Tracked(incidents, before, next, c))
            == if Opens(before, next) then OpenCount(incidents) + 1
               else if Closes(before, next) then 0 else OpenCount(incidents)
  {
    CloseOpenClosesAll(incidents, c.at, c.outcome.message);
    OpenCountAppend(incidents, Incident(c.at, None, Prefix(c.outcome.message, 500), ""));
  }

  /** Open incidents are counted exactly, through maintenance, pauses and UNKNOWN recoveries, and a
      monitor that is DOWN always has one. */
  lemma {:induction false} OpenIncidents(m: Monitor, es: seq<Event>)
    requires New(m) && EventsProducible(es)
    ensures OpenCount(RunEvents(m, es).incidents) == Unclosed(m, es)
    ensures RunEvents(m, es).state == DOWN ==> OpenCount(RunEvents(m, es).incidents) >= 1
  {
    if es != [] {
      hide Tracked, Echoed, ResultRow;
      var front, e := es[..|es| - 1], es[|es| - 1];
      OpenIncidents(m, front);
      var before := RunEvents(m, front);
      if e.Checked? {
        TrackedCount(before.incidents, before.state, NextState(before, e.check.outcome), e.check);
      }
    }
  }

  /** Closed intervals in order, none overlapping; only the last may be open, and it is exactly when
      the monitor is DOWN. */
  predicate Ledger(m: Monitor, until: Time) {
    var inc := m.incidents;
    && (forall i :: 0 <= i < |inc| - 1 ==>
          inc[i].endedAt.Some? && inc[i].startedAt <= inc[i].endedAt.value <= inc[i + 1].startedAt)
    && (inc != [] ==>
          && inc[|inc| - 1].startedAt <= until
          && (inc[|inc| - 1].endedAt.Some? ==> inc[|inc| - 1].startedAt <= inc[|inc| - 1].endedAt.value <= until))
    && (m.state == DOWN <==> inc != [] && inc[|inc| - 1].endedAt.None?)
  }

  predicate InTimeOrder(cs: seq<Check>) { forall i, j :: 0 <= i < j < |cs| ==> cs[i].at <= cs[j].at }

  lemma LedgerStep(m: Monitor, c: Check, until: Time)
    requires Ledger(m, until) && until <= c.at && m.enabled && m.state != PAUSED && m.state != MAINTENANCE
    requires Producible(c.outcome) && c.outcome.observed != UNKNOWN
    ensures Ledger(Applied(m, c), c.at)
  {
    hide Echoed, ResultRow, Prefix;
  }

  lemma {:induction false} AllClosed(incidents: seq<Incident>)
    requires forall i :: 0 <= i < |incidents| ==> incidents[i].endedAt.Some?
    ensures OpenCount(incidents) == 0
  {
    if incidents != [] {
      AllClosed(incidents[..|incidents| - 1]);
    }
  }

  lemma LedgerCount(m: Monitor, until: Time)
    requires Ledger(m, until)
    ensures OpenCount(m.incidents) == if m.state == DOWN then 1 else 0
  {
    if m.incidents != [] {
      AllClosed(m.incidents[..|m.incidents| - 1]);
    }
  }

  /** Without maintenance, pause or UNKNOWN recoveries there is exactly one open incident while DOWN and
      none otherwise, and incident intervals do not overlap. */
  lemma {:induction false} IncidentsDoNotOverlap(m: Monitor, cs: seq<Check>)
    requires New(m) && Observed(cs) && InTimeOrder(cs) && cs != []
    ensures Ledger(RunChecks(m, cs), cs[|cs| - 1].at)
    ensures OpenCount(RunChecks(m, cs).incidents) == if RunChecks(m, cs).state == DOWN then 1 else 0
  {
    hide Applied, Ledger, OpenCount, Producible;
    var front, c := cs[..|cs| - 1], cs[|cs| - 1];
    RunningMonitor(m, front);
    if front == [] {
      NewLedger(m, c.at);
      LedgerStep(m, c, c.at);
    } else {
      IncidentsDoNotOverlap(m, front);
      LedgerStep(RunChecks(m, front), c, front[|front| - 1].at);
    }
    LedgerCount(RunChecks(m, cs), c.at);
  }

  lemma NewLedger(m: Monitor, until: Time)
    requires New(m)
    ensures Ledger(m, until)
  {
  }

  lemma NoIncidents(m: Monitor)
    requires New(m)
    ensures OpenCount(m.incidents) == 0
  {
  }

  /** Two incidents can be open at once: a maintenance window hides the outage, and the failure after it
      opens another. */
  lemma MaintenanceLeavesIncidentOpen(m: Monitor, a: Check, w: Time, b: Check)
    requires New(m) && m.failureThreshold == 1
    requires !a.outcome.success && !b.outcome.success
    ensures var down := Applied(m, a);
            var hidden := Maintained(down, w);
            && down.state == DOWN && hidden.state != DOWN && OpenCount(hidden.incidents) == 1
            && Applied(hidden, b).state == DOWN && OpenCount(Applied(hidden, b).incidents) == 2
  {
    hide Tracked, Echoed, ResultRow, OpenCount;
    TrackedCount(m.incidents, m.state, NextState(m, a.outcome), a);
    assert OpenCount(m.incidents) == 0 by { NoIncidents(m); }
    var hidden := Maintained(Applied(m, a), w);
    TrackedCount(hidden.incidents, hidden.state, NextState(hidden, b.outcome), b);
  }

  /** A check already in flight when the monitor is paused is still applied. The saved state stays PAUSED,
      but a failure that reaches the threshold opens an incident and announces DOWN, and a success observed
      DEGRADED is announced as well; any other outcome does neither. */
  lemma InFlightCheckOnPausedMonitor(m: Monitor, c: Check, name: string, f: nat, r: nat)
    requires Producible(c.outcome)
    ensures var paused := Edited(m, name, false, f, r);
            var after, t := Applied(paused, c), Emitted(paused.state, NextState(paused, c.outcome));
            && paused.state == PAUSED && after.state == PAUSED
            && (OpenCount(after.incidents) == OpenCount(m.incidents) + 1 <==> !c.outcome.success && m.failures + 1 >= f)
            && (OpenCount(after.incidents) == OpenCount(m.incidents) <==> c.outcome.success || m.failures + 1 < f)
            && (t == Some(Notify.Down) <==> !c.outcome.success && m.failures + 1 >= f)
            && (t == Some(Notify.Degraded) <==> c.outcome.success && c.outcome.observed == DEGRADED)
            && t != Some(Notify.Recovered)
  {
    hide Tracked, Echoed, ResultRow;
    var paused := Edited(m, name, false, f, r);
    TrackedCount(m.incidents, paused.state, NextState(paused, c.outcome), c);
  }

  // ---- Outbox entries ---------------------------------------------------------------------------

  /** One event as the database performs it, with the entry it writes. */
  function Perform(codec: Notify.Codec, m: Monitor, e: Event): Result<(Monitor, Option<Entry>)> {
    if e.Checked? then Apply(codec, m, e.check) else Ok((Step(m, e), None))
  }

  /** The run as the database performs it, entries included. */
  function RunWithOutbox(codec: Notify.Codec, m: Monitor, es: seq<Event>): Result<(Monitor, seq<Entry>)> {
    if es == [] then Ok((m, []))
    else
      match RunWithOutbox(codec, m, es[..|es| - 1])
      case Raised => Raised
      case Ok((before, entries)) =>
        match Perform(codec, before, es[|es| - 1])
        case Raised => Raised
        case Ok((after, entry)) => Ok((after, entries + Listed(entry)))
  }

  function Listed<T>(x: Option<T>): seq<T> { if x.Some? then [x.value] else [] }

  /** The transition an event emits; windows and edits emit none. */
  function Transition(m: Monitor, e: Event): Option<Notify.Transition> {
    if e.Checked? then Emitted(m.state, NextState(m, e.check.outcome)) else None
  }

  /** The transitions a run of events emits, in order. */
  function Emissions(m: Monitor, es: seq<Event>): seq<Notify.Transition> {
    if es == [] then []
    else Emissions(m, es[..|es| - 1]) + Listed(Transition(RunEvents(m, es[..|es| - 1]), es[|es| - 1]))
  }

  function AsEvents(cs: seq<Check>): (es: seq<Event>)
    ensures |es| == |cs| && forall i :: 0 <= i < |es| ==> es[i] == Checked(cs[i])
  {
    if cs == [] then [] else AsEvents(cs[..|cs| - 1]) + [Checked(cs[|cs| - 1])]
  }

  /** A run of checks alone is a run of events with the same states and the same stream. */
  lemma {:induction false} CheckRunIsEventRun(m: Monitor, cs: seq<Check>)
    ensures RunEvents(m, AsEvents(cs)) == RunChecks(m, cs) && Emissions(m, AsEvents(cs)) == Stream(m, cs)
  {
    if cs != [] {
      hide Applied, NextState, Emitted;
      var n := |cs| - 1;
      CheckRunIsEventRun(m, cs[..n]);
      assert AsEvents(cs)[..n] == AsEvents(cs[..n]);
    }
  }

  /** The check results that the run creates, each with its own row id. */
  predicate DistinctResults(es: seq<Event>) {
    && (forall i :: 0 <= i < |es| && es[i].Checked? ==> Notify.RowId(es[i].check.resultId))
    && (forall i, j :: 0 <= i < j < |es| && es[i].Checked? && es[j].Checked? ==>
          es[i].check.resultId != es[j].check.resultId)
  }

  /** Every name a form gives the monitor is one that it accepts. */
  predicate NamesOk(es: seq<Event>) { forall i :: 0 <= i < |es| && es[i].FormEdit? ==> Notify.NameOk(es[i].name) }

  lemma {:induction false} IdentityStays(m: Monitor, es: seq<Event>)
    requires Notify.NameOk(m.name) && NamesOk(es)
    ensures RunEvents(m, es).id == m.id && Notify.NameOk(RunEvents(m, es).name)
  {
    if es != [] {
      hide Notify.NameOk;
      IdentityStays(m, es[..|es| - 1]);
    }
  }

  /** The entry is the one that check i writes for monitor id and some event type. */
  ghost predicate WrittenFor(codec: Notify.Codec, id: nat, entry: Entry, c: Check) {
    exists event :: Notify.CreateKey(codec, event, Notify.TransitionId(codec, id, c.resultId, c.at)) == Ok(entry.key)
  }

  lemma ApplyNeverRaises(codec: Notify.Codec, m: Monitor, c: Check)
    requires Notify.Faithful(codec) && Notify.NameOk(m.name) && Notify.RowId(m.id) && Notify.RowId(c.resultId)
    ensures Apply(codec, m, c).Ok? && Apply(codec, m, c).value.0 == Applied(m, c)
    ensures var t, entry := Emitted(m.state, NextState(m, c.outcome)), Apply(codec, m, c).value.1;
            && (t.Some? <==> entry.Some?)
            && (t.Some? ==> entry.value.transition == t.value && WrittenFor(codec, m.id, entry.value, c))
            && (t.Some? ==>
                  && entry.value.payload == Notify.MakePayload(Strip(m.name), t.value, c.outcome.message)
                  && Notify.CreateKey(codec, Notify.EventTypeOf(t.value, c.outcome.message),
                                      Notify.TransitionId(codec, m.id, c.resultId, c.at)) == Ok(entry.value.key))
  {
    hide Applied, Notify.MakePayload, Notify.EventTypeOf, Notify.CreatePayload, Notify.CreateKey,
         Notify.TransitionId, Notify.Validated, Notify.PayloadBytes,
         Notify.HasShape, Notify.RequiredText;
    var t := Emitted(m.state, NextState(m, c.outcome));
    if t.Some? {
      Notify.ProducerIsTotal(codec, m.name, t.value, c.outcome.message, m.id, c.resultId, c.at);
      Notify.PayloadIsTotal(m.name, t.value, c.outcome.message);
      var (event, _) := Notify.CreatePayload(m.name, t.value, c.outcome.message).value;
      assert EntryFor(codec, m, t.value, c).Ok?;
      assert Notify.CreateKey(codec, event, Notify.TransitionId(codec, m.id, c.resultId, c.at))
             == Ok(EntryFor(codec, m, t.value, c).value.key);
    }
  }

  /** The entry was written for event e, a check. */
  ghost predicate WrittenAt(codec: Notify.Codec, id: nat, entry: Entry, e: Event) {
    e.Checked? && WrittenFor(codec, id, entry, e.check)
  }

  /** Entries of checks with other result ids carry other keys. */
  lemma FreshKey(codec: Notify.Codec, id: nat, entries: seq<Entry>, es: seq<Event>, entry: Entry, c: Check)
    requires Notify.Faithful(codec) && Notify.RowId(id) && Notify.RowId(c.resultId)
    requires forall k :: 0 <= k < |es| && es[k].Checked? ==>
               Notify.RowId(es[k].check.resultId) && es[k].check.resultId != c.resultId
    requires WrittenFor(codec, id, entry, c) && AllWritten(codec, id, entries, es)
    ensures forall i :: 0 <= i < |entries| ==> entries[i].key != entry.key
  {
    hide WrittenFor, Notify.Faithful;
    forall i | 0 <= i < |entries| ensures entries[i].key != entry.key {
      var k :| 0 <= k < |es| && WrittenAt(codec, id, entries[i], es[k]);
      WrittenApart(codec, id, entries[i], es[k].check, entry, c);
    }
  }

  /** Every entry was written for some check of the run. */
  ghost predicate AllWritten(codec: Notify.Codec, id: nat, entries: seq<Entry>, es: seq<Event>) {
    forall i :: 0 <= i < |entries| ==> exists k :: 0 <= k < |es| && WrittenAt(codec, id, entries[i], es[k])
  }

  lemma AllWrittenGrows(codec: Notify.Codec, id: nat, entries: seq<Entry>, es: seq<Event>, more: seq<Entry>, e: Event)
    requires AllWritten(codec, id, entries, es)
    requires forall i :: 0 <= i < |more| ==> WrittenAt(codec, id, more[i], e)
    ensures AllWritten(codec, id, entries + more, es + [e])
  {
    hide WrittenAt;
    var xs, all := entries + more, es + [e];
    assert all[|es|] == e;
    forall i | 0 <= i < |xs| ensures exists k :: 0 <= k < |all| && WrittenAt(codec, id, xs[i], all[k]) {
      if i < |entries| {
        var k :| 0 <= k < |es| && WrittenAt(codec, id, entries[i], es[k]);
        assert all[k] == es[k];
        assert WrittenAt(codec, id, xs[i], all[k]);
      } else {
        assert xs[i] == more[i - |entries|];
        assert WrittenAt(codec, id, xs[i], all[|es|]);
      }
    }
  }

  predicate DistinctKeys(entries: seq<Entry>) {
    forall i, j :: 0 <= i < j < |entries| ==> entries[i].key != entries[j].key
  }

  function TransitionsOf(entries: seq<Entry>): (r: seq<Notify.Transition>)
    ensures |r| == |entries| && forall i :: 0 <= i < |r| ==> r[i] == entries[i].transition
  {
    seq(|entries|, i requires 0 <= i < |entries| => entries[i].transition)
  }

  /** What the database holds after the run, in terms of the monitor's own history. */
  ghost predicate Accounted(codec: Notify.Codec, m: Monitor, es: seq<Event>, after: Monitor, entries: seq<Entry>) {
    && after == RunEvents(m, es)
    && TransitionsOf(entries) == Emissions(m, es)
    && AllWritten(codec, m.id, entries, es)
    && DistinctKeys(entries)
  }

  /** An event never raises, and writes an entry exactly when it emits a transition. */
  lemma PerformNeverRaises(codec: Notify.Codec, m: Monitor, e: Event)
    requires Notify.Faithful(codec) && Notify.NameOk(m.name) && Notify.RowId(m.id)
    requires e.Checked? ==> Notify.RowId(e.check.resultId)
    ensures Perform(codec, m, e).Ok? && Perform(codec, m, e).value.0 == Step(m, e)
    ensures var t, entry := Transition(m, e), Perform(codec, m, e).value.1;
            && (t.Some? <==> entry.Some?)
            && (t.Some? ==> entry.value.transition == t.value && WrittenAt(codec, m.id, entry.value, e))
  {
    hide Apply, Applied, Emitted, NextState, WrittenFor, Notify.Faithful;
    if e.Checked? {
      ApplyNeverRaises(codec, m, e.check);
    }
  }

  lemma PerformAccounted(codec: Notify.Codec, m: Monitor, es: seq<Event>, before: Monitor, entries: seq<Entry>)
    requires Notify.Faithful(codec) && Notify.NameOk(m.name) && Notify.RowId(m.id)
    requires DistinctResults(es) && NamesOk(es) && es != []
    requires Accounted(codec, m, es[..|es| - 1], before, entries)
    ensures Perform(codec, before, es[|es| - 1]).Ok?
    ensures var (after, entry) := Perform(codec, before, es[|es| - 1]).value;
            Accounted(codec, m, es, after, entries + Listed(entry))
  {
    hide Perform, Transition, Step, WrittenFor, AllWritten, Notify.Faithful, Notify.NameOk;
    var front, e := es[..|es| - 1], es[|es| - 1];
    IdentityStays(m, front);
    PerformNeverRaises(codec, before, e);
    var entry := Perform(codec, before, e).value.1;
    if entry.Some? {
      FreshKey(codec, m.id, entries, front, entry.value, e.check);
    }
    AllWrittenGrows(codec, m.id, entries, front, Listed(entry), e);
    assert front + [e] == es;
    assert TransitionsOf(entries + Listed(entry)) == TransitionsOf(entries) + TransitionsOf(Listed(entry));
  }

  /** No transition ever rolls its check back: every run of checks, windows and edits succeeds, outbox
      entries correspond one to one with the emitted transitions, and their keys are pairwise distinct. */
  lemma {:induction false} OutboxMatchesStream(codec: Notify.Codec, m: Monitor, es: seq<Event>)
    requires Notify.Faithful(codec) && Notify.NameOk(m.name) && Notify.RowId(m.id)
    requires DistinctResults(es) && NamesOk(es)
    ensures RunWithOutbox(codec, m, es).Ok?
    ensures Accounted(codec, m, es, RunWithOutbox(codec, m, es).value.0, RunWithOutbox(codec, m, es).value.1)
  {
    if es != [] {
      hide Perform, Accounted, Notify.Faithful, Notify.NameOk;
      var front := es[..|es| - 1];
      OutboxMatchesStream(codec, m, front);
      var (before, entries) := RunWithOutbox(codec, m, front).value;
      PerformAccounted(codec, m, es, before, entries);
    } else {
      assert AllWritten(codec, m.id, [], []);
    }
  }

  lemma WrittenApart(codec: Notify.Codec, id: nat, a: Entry, c: Check, b: Entry, d: Check)
    requires Notify.Faithful(codec) && Notify.RowId(id) && Notify.RowId(c.resultId) && Notify.RowId(d.resultId)
    requires WrittenFor(codec, id, a, c) && WrittenFor(codec, id, b, d) && c.resultId != d.resultId
    ensures a.key != b.key
  {
    hide Notify.CreateKey, Notify.TransitionId;
    var e1 :| Notify.CreateKey(codec, e1, Notify.TransitionId(codec, id, c.resultId, c.at)) == Ok(a.key);
    var e2 :| Notify.CreateKey(codec, e2, Notify.TransitionId(codec, id, d.resultId, d.at)) == Ok(b.key);
    if a.key == b.key {
      Notify.KeysDistinct(codec, e1, id, c.resultId, c.at, e2, id, d.resultId, d.at);
    }
  }
}
