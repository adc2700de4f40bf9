/**
 What a monitor's row holds after its checks (src/monitoring/engine.py, _apply_outcome), told by the
 outcomes alone: the whole state, the columns of the latest checks, the result rows and the incidents.
 */
module EngineHistory {
  import opened Common
  import opened Text
  import opened Engine
  import opened EngineLaws
  import Notify

  // ---- The state ----------------------------------------------------------------------------------

  /** The state observed by the latest success of the run. */
  function LastObserved(cs: seq<Check>): Option<State> {
    if cs == [] then None
    else if cs[|cs| - 1].outcome.success then Some(cs[|cs| - 1].outcome.observed)
    else LastObserved(cs[..|cs| - 1])
  }

  function Times(n: nat, b: bool): (h: History)
    ensures |h| == n && forall i :: 0 <= i < n ==> h[i] == b
  {
    seq(n, _ => b)
  }

  /** What the row remembers of the checks before: while DOWN, the failures that took it there and the
      successes since, short of recovery; otherwise the failures in a row, short of the threshold. */
  function Past(m: Monitor): History
    requires m.failureThreshold >= 1 && m.recoveryThreshold >= 1
  {
    if m.state == DOWN then Times(m.failureThreshold, false) + Times(Min(m.successes, m.recoveryThreshold - 1), true)
    else Times(Min(m.failures, m.failureThreshold - 1), false)
  }

  /** The state before the first success: what it was, except that a check ends maintenance. */
  function Carried(s: State, checked: bool): State { if s == MAINTENANCE && checked then UNKNOWN else s }

  lemma {:induction false} TrailingTimes(h: History, n: nat, b: bool, c: bool)
    ensures Trailing(h + Times(n, b), c) == if c == b then n + Trailing(h, c) else if n > 0 then 0 else Trailing(h, c)
  {
    if n == 0 {
      assert h + Times(0, b) == h;
    } else {
      var g := h + Times(n - 1, b);
      assert h + Times(n, b) == g + [b];
      TrailingTimes(h, n - 1, b, c);
      TrailingGrows(g, b, c);
    }
  }

  lemma {:induction false} ShortFailuresAreUp(n: nat, F: nat, R: nat)
    requires n < F && R >= 1
    ensures !DownByHistory(Times(n, false), F, R)
  {
    assert forall i: nat :: !Block(Times(n, false), i, F, false);
  }

  lemma {:induction false} ShortSuccessesStayDown(n: nat, F: nat, R: nat)
    requires n < R && F >= 1
    ensures DownByHistory(Times(F, false) + Times(n, true), F, R)
  {
    var h := Times(F, false) + Times(n, true);
    assert Block(h, 0, F, false);
    assert Unanswered(h, 0 + F, R);
  }

  /** Counters and state agree with the remembered and the new outcomes. */
  ghost predicate Follows(m: Monitor, h: History) {
    && m.enabled && m.state != PAUSED && m.failureThreshold >= 1 && m.recoveryThreshold >= 1
    && (m.state == DOWN <==> DownByHistory(h, m.failureThreshold, m.recoveryThreshold))
    && (m.state == DOWN ==> Min(m.successes, m.recoveryThreshold - 1) == Trailing(h, true))
    && (m.state != DOWN ==> Min(m.failures, m.failureThreshold - 1) == Trailing(h, false))
  }

  lemma PastFollows(m: Monitor)
    requires m.enabled && m.state != PAUSED && m.failureThreshold >= 1 && m.recoveryThreshold >= 1
    ensures Follows(m, Past(m))
  {
    hide DownByHistory, Trailing;
    if m.state == DOWN {
      var n := Min(m.successes, m.recoveryThreshold - 1);
      ShortSuccessesStayDown(n, m.failureThreshold, m.recoveryThreshold);
      TrailingTimes(Times(m.failureThreshold, false), n, true, true);
      TrailingTimes([], m.failureThreshold, false, true);
      assert [] + Times(m.failureThreshold, false) == Times(m.failureThreshold, false);
      assert Trailing([], true) == 0 by { TrailingNothing(true); }
    } else {
      var n := Min(m.failures, m.failureThreshold - 1);
      ShortFailuresAreUp(n, m.failureThreshold, m.recoveryThreshold);
      TrailingTimes([], n, false, false);
      assert [] + Times(n, false) == Times(n, false);
      TrailingNothing(false);
    }
  }

  lemma TrailingNothing(b: bool)
    ensures Trailing([], b) == 0
  {
  }

  lemma FollowsNext(m: Monitor, c: Check, h: History)
    requires Follows(m, h) && Producible(c.outcome)
    ensures Follows(Applied(m, c), h + [c.outcome.success])
  {
    hide Tracked, Echoed, ResultRow, DownByHistory, Trailing;
    var F, R, x := m.failureThreshold, m.recoveryThreshold, c.outcome.success;
    TrailingGrows(h, x, true);
    TrailingGrows(h, x, false);
    if x {
      AfterSuccess(h, F, R);
    } else {
      AfterFailure(h, F, R);
    }
  }

  lemma {:induction false} RunFollows(m: Monitor, cs: seq<Check>)
    requires m.failureThreshold >= 1 && m.recoveryThreshold >= 1 && Follows(m, Past(m)) && AllProducible(cs)
    ensures Follows(RunChecks(m, cs), Past(m) + Successes(cs))
  {
    if cs == [] {
      assert Past(m) + [] == Past(m);
    } else {
      hide Follows, Past, Producible;
      var front, c := cs[..|cs| - 1], cs[|cs| - 1];
      RunFollows(m, front);
      FollowsNext(RunChecks(m, front), c, Past(m) + Successes(front));
      assert Past(m) + Successes(cs) == Past(m) + Successes(front) + [c.outcome.success];
    }
  }

  /** One check of a monitor that is not DOWN afterwards: a success shows what it observed, a failure leaves
      the state, except that it ends maintenance. */
  lemma CheckedState(m: Monitor, c: Check)
    requires m.enabled && m.state != PAUSED && Producible(c.outcome) && Applied(m, c).state != DOWN
    ensures Applied(m, c).state == if c.outcome.success then c.outcome.observed else Carried(m.state, true)
  {
    hide Tracked, Echoed, ResultRow;
  }

  /** The whole state, from any enabled monitor and over every run of checks: DOWN exactly when the outcomes
      remembered and new hold a block of failure_threshold failures with no later block of
      recovery_threshold successes; otherwise what the latest success observed; and if there was none, the
      state from before, UNKNOWN in place of MAINTENANCE. */
  lemma {:induction false} StateFollowsHistory(m: Monitor, cs: seq<Check>)
    requires m.enabled && m.state != PAUSED && m.failureThreshold >= 1 && m.recoveryThreshold >= 1
    requires AllProducible(cs)
    ensures var down := DownByHistory(Past(m) + Successes(cs), m.failureThreshold, m.recoveryThreshold);
            RunChecks(m, cs).state
            == if down then DOWN
               else if LastObserved(cs).Some? then LastObserved(cs).value
               else Carried(m.state, cs != [])
  {
    PastFollows(m);
    RunFollows(m, cs);
    SettingsStay(m, cs);
    if RunChecks(m, cs).state != DOWN {
      StateBetween(m, cs);
    }
  }

  lemma {:induction false} NeverPaused(m: Monitor, cs: seq<Check>)
    requires m.enabled && m.state != PAUSED && AllProducible(cs)
    ensures RunChecks(m, cs).enabled && RunChecks(m, cs).state != PAUSED
  {
    if cs != [] {
      hide Tracked, Echoed, ResultRow;
      NeverPaused(m, cs[..|cs| - 1]);
    }
  }

  /** When it is not DOWN at the end, the state is told by the latest success. */
  lemma {:induction false} StateBetween(m: Monitor, cs: seq<Check>)
    requires m.enabled && m.state != PAUSED && AllProducible(cs) && RunChecks(m, cs).state != DOWN
    ensures RunChecks(m, cs).state
            == if LastObserved(cs).Some? then LastObserved(cs).value else Carried(m.state, cs != [])
  {
    if cs != [] {
      hide Applied, Producible;
      var front, c := cs[..|cs| - 1], cs[|cs| - 1];
      NeverPaused(m, front);
      CheckedState(RunChecks(m, front), c);
      if !c.outcome.success {
        if RunChecks(m, front).state == DOWN {
          FailureKeepsDown(RunChecks(m, front), c);
        }
        StateBetween(m, front);
      }
    }
  }

  lemma FailureKeepsDown(m: Monitor, c: Check)
    requires m.enabled && m.state == DOWN && !c.outcome.success
    ensures Applied(m, c).state == DOWN
  {
  }

  /** From a new monitor: DOWN exactly by its history, otherwise what the latest success observed, and
      UNKNOWN before the first. */
  lemma NewMonitorState(m: Monitor, cs: seq<Check>)
    requires New(m) && AllProducible(cs)
    ensures RunChecks(m, cs).state
            == if DownByHistory(Successes(cs), m.failureThreshold, m.recoveryThreshold) then DOWN
               else if LastObserved(cs).Some? then LastObserved(cs).value
               else UNKNOWN
  {
    StateFollowsHistory(m, cs);
    assert Past(m) + Successes(cs) == Successes(cs);
  }

  /** After a maintenance window: UNKNOWN after any failures short of the threshold, counting those before
      the window; DOWN from the threshold on. */
  lemma AfterMaintenance(m: Monitor, now: Time, cs: seq<Check>)
    requires m.enabled && m.failureThreshold >= 1 && m.recoveryThreshold >= 1 && cs != []
    requires AllProducible(cs) && forall i :: 0 <= i < |cs| ==> !cs[i].outcome.success
    ensures Maintained(m, now).state == MAINTENANCE
    ensures RunChecks(Maintained(m, now), cs).state
            == if m.failures + |cs| >= m.failureThreshold then DOWN else UNKNOWN
  {
    FailingRun(Maintained(m, now), cs);
  }

  /** A paused monitor that is enabled again is UNKNOWN, and stays so through failures short of the
      threshold. */
  lemma AfterPause(m: Monitor, name: string, f: nat, r: nat, cs: seq<Check>)
    requires m.state == PAUSED && f >= 1 && r >= 1
    requires AllProducible(cs) && forall i :: 0 <= i < |cs| ==> !cs[i].outcome.success
    ensures Edited(m, name, true, f, r).state == UNKNOWN
    ensures RunChecks(Edited(m, name, true, f, r), cs).state
            == if cs != [] && m.failures + |cs| >= f then DOWN else UNKNOWN
  {
    FailingRun(Edited(m, name, true, f, r), cs);
  }

  lemma {:induction false} FailingRun(m: Monitor, cs: seq<Check>)
    requires m.enabled && m.state != PAUSED && m.state != DOWN && m.failureThreshold >= 1
    requires forall i :: 0 <= i < |cs| ==> !cs[i].outcome.success
    ensures var r := RunChecks(m, cs);
            && r.failures == m.failures + |cs| && r.enabled && r.failureThreshold == m.failureThreshold
            && r.state == if cs == [] then m.state
                          else if m.failures + |cs| >= m.failureThreshold then DOWN
                          else Carried(m.state, true)
  {
    if cs != [] {
      hide Tracked, Echoed, ResultRow;
      FailingRun(m, cs[..|cs| - 1]);
    }
  }

  /** Form edits and maintenance: the new settings, PAUSED exactly when disabled, UNKNOWN when a paused
      monitor is enabled, MAINTENANCE in a window; counters, incidents and results stay. */
  lemma OtherEvents(m: Monitor, name: string, enabled: bool, f: nat, r: nat, now: Time)
    ensures var e := Edited(m, name, enabled, f, r);
            && e.name == name && e.enabled == enabled && e.failureThreshold == f && e.recoveryThreshold == r
            && (e.state == PAUSED <==> !enabled)
            && (enabled && m.state == PAUSED ==> e.state == UNKNOWN)
            && (enabled && m.state != PAUSED ==> e.state == m.state)
            && e.id == m.id && e.failures == m.failures && e.successes == m.successes && e.latest == m.latest
            && e.incidents == m.incidents && e.checks == m.checks
    ensures var w := Maintained(m, now);
            && w.state == MAINTENANCE && w.latest.checkedAt == Some(now)
            && w.latest.message == "Approved maintenance window"
            && w.latest.successAt == m.latest.successAt && w.latest.failureAt == m.latest.failureAt
            && w.latest.responseMs == m.latest.responseMs && w.latest.tlsExpiresAt == m.latest.tlsExpiresAt
            && w.id == m.id && w.name == m.name && w.enabled == m.enabled
            && w.failureThreshold == m.failureThreshold && w.recoveryThreshold == m.recoveryThreshold
            && w.failures == m.failures && w.successes == m.successes
            && w.incidents == m.incidents && w.checks == m.checks
  {
  }

  /** A maintenance window covers both of its ends. */
  lemma WindowCoversItsEnds(windows: seq<Window>, now: Time)
    ensures InMaintenance(windows, now)
            <==> exists i :: 0 <= i < |windows| && windows[i].startsAt <= now && now <= windows[i].endsAt
  {
    assert forall i :: 0 <= i < |windows| ==> windows[i] in windows;
  }

  // ---- The columns of the latest checks ------------------------------------------------------------

  /** The instant of the latest check with this outcome. */
  function LatestAt(cs: seq<Check>, success: bool, before: Option<Time>): Option<Time> {
    if cs == [] then before
    else if cs[|cs| - 1].outcome.success == success then Some(cs[|cs| - 1].at)
    else LatestAt(cs[..|cs| - 1], success, before)
  }

  /** The latest certificate expiry that a check reported. */
  function LatestExpiry(cs: seq<Check>, before: Option<Time>): Option<Time> {
    if cs == [] then before
    else if cs[|cs| - 1].outcome.tlsExpiresAt.Some? then cs[|cs| - 1].outcome.tlsExpiresAt
    else LatestExpiry(cs[..|cs| - 1], before)
  }

  /** After a run the row shows the latest check, the latest success, the latest failure and the latest
      known expiry. */
  lemma {:induction false} ColumnsShowLatest(m: Monitor, cs: seq<Check>)
    requires cs != []
    ensures var l, last := RunChecks(m, cs).latest, cs[|cs| - 1];
            && l.checkedAt == Some(last.at) && l.responseMs == last.outcome.responseMs
            && l.message <= last.outcome.message && |l.message| == Min(|last.outcome.message|, 500)
            && l.successAt == LatestAt(cs, true, m.latest.successAt)
            && l.failureAt == LatestAt(cs, false, m.latest.failureAt)
            && l.tlsExpiresAt == LatestExpiry(cs, m.latest.tlsExpiresAt)
  {
    hide NextState, Tracked, ResultRow;
    if |cs| > 1 {
      ColumnsShowLatest(m, cs[..|cs| - 1]);
    }
  }

  // ---- Results and incidents -----------------------------------------------------------------------

  /** The result row of a check: its own instant, outcome and message, and the state it led to. */
  predicate ShowsCheck(row: CheckResult, c: Check, state: State) {
    && row.id == c.resultId && row.checkedAt == c.at && row.success == c.outcome.success && row.observed == state
    && row.responseMs == c.outcome.responseMs
    && row.message <= c.outcome.message && |row.message| == Min(|c.outcome.message|, 500)
  }

  lemma ResultOfCheck(m: Monitor, c: Check) returns (row: CheckResult)
    requires m.enabled && m.state != PAUSED && Producible(c.outcome)
    ensures Applied(m, c).checks == m.checks + [row] && ShowsCheck(row, c, Applied(m, c).state)
  {
    hide Tracked, Echoed;
    row := ResultRow(c, NextState(m, c.outcome));
  }

  /** Check k of the run has its row. */
  ghost predicate ShownAt(m: Monitor, cs: seq<Check>, rows: seq<CheckResult>, k: nat)
    requires k < |cs| && |rows| == |m.checks| + |cs|
  {
    ShowsCheck(rows[|m.checks| + k], cs[k], RunChecks(m, cs[..k + 1]).state)
  }

  lemma ShownAtGrows(m: Monitor, cs: seq<Check>, front: seq<Check>, rows: seq<CheckResult>, row: CheckResult)
    requires cs != [] && front == cs[..|cs| - 1] && |rows| == |m.checks| + |front|
    requires forall k :: 0 <= k < |front| ==> ShownAt(m, front, rows, k)
    requires ShowsCheck(row, cs[|cs| - 1], RunChecks(m, cs).state)
    ensures forall k :: 0 <= k < |cs| ==> ShownAt(m, cs, rows + [row], k)
  {
    hide ShowsCheck, RunChecks;
    var n := |cs| - 1;
    forall k | 0 <= k < |cs| ensures ShownAt(m, cs, rows + [row], k) {
      if k < n {
        assert ShownAt(m, front, rows, k);
        assert cs[..n][..k + 1] == cs[..k + 1];
      } else {
        assert cs[..n + 1] == cs;
      }
    }
  }

  /** One result row for each check of a run, in order, behind those that were there. */
  lemma {:induction false} OneResultPerCheck(m: Monitor, cs: seq<Check>)
    requires m.enabled && m.state != PAUSED && AllProducible(cs)
    ensures var r := RunChecks(m, cs);
            && |r.checks| == |m.checks| + |cs| && m.checks <= r.checks
            && forall k :: 0 <= k < |cs| ==> ShownAt(m, cs, r.checks, k)
  {
    if cs != [] {
      hide Applied, ShowsCheck, ShownAt, Producible;
      var n := |cs| - 1;
      OneResultPerCheck(m, cs[..n]);
      NeverPaused(m, cs[..n]);
      var row := ResultOfCheck(RunChecks(m, cs[..n]), cs[n]);
      ShownAtGrows(m, cs, cs[..n], RunChecks(m, cs[..n]).checks, row);
    }
  }

  /** The incident rows of a check that takes the monitor DOWN, up again, or neither: told by the states
      before and after. */
  lemma IncidentsOfCheck(m: Monitor, c: Check)
    requires m.enabled && m.state != PAUSED && Producible(c.outcome)
    ensures var after, was := Applied(m, c), m.incidents;
            if m.state != DOWN && after.state == DOWN then
              && |after.incidents| == |was| + 1 && was <= after.incidents
              && var added := after.incidents[|was|];
                 && added.startedAt == c.at && added.endedAt == None && added.recoveryMessage == ""
                 && added.failureReason <= c.outcome.message
                 && |added.failureReason| == Min(|c.outcome.message|, 500)
            else if m.state == DOWN && (after.state == UP || after.state == DEGRADED) then
              && |after.incidents| == |was|
              && forall i :: 0 <= i < |was| ==>
                   if was[i].endedAt.Some? then after.incidents[i] == was[i]
                   else
                     && after.incidents[i].startedAt == was[i].startedAt
                     && after.incidents[i].failureReason == was[i].failureReason
                     && after.incidents[i].endedAt == Some(c.at)
                     && after.incidents[i].recoveryMessage <= c.outcome.message
                     && |after.incidents[i].recoveryMessage| == Min(|c.outcome.message|, 500)
            else after.incidents == was
  {
    hide Echoed, ResultRow;
  }

  /** What a check announces, told by the states before and after. */
  lemma AnnouncedByCheck(m: Monitor, c: Check)
    requires m.enabled && m.state != PAUSED && Producible(c.outcome)
    ensures var t, after := Emitted(m.state, NextState(m, c.outcome)), Applied(m, c).state;
            && (t == Some(Notify.Down) <==> m.state != DOWN && after == DOWN)
            && (t == Some(Notify.Degraded) <==> m.state != DEGRADED && after == DEGRADED)
            && (t == Some(Notify.Recovered) <==> (m.state == DOWN || m.state == DEGRADED) && after == UP)
  {
    hide Echoed, ResultRow, Tracked;
  }

  /** The counters are the streaks, whatever they were before. */
  lemma CountersOfCheck(m: Monitor, c: Check)
    ensures var after := Applied(m, c);
            && after.failures == (if c.outcome.success then 0 else m.failures + 1)
            && after.successes == (if c.outcome.success then m.successes + 1 else 0)
            && after.id == m.id && after.name == m.name && after.enabled == m.enabled
            && after.failureThreshold == m.failureThreshold && after.recoveryThreshold == m.recoveryThreshold
  {
  }
}
