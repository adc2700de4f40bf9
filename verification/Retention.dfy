/**
 History pruning (src/monitoring/retention.py) and the relation between a pruned job log and the
 log that was never pruned.
 */
module Retention {
  import opened Common
  import opened Text
  import opened JobEvents
  import opened Signals
  import opened SignalLaws
  import Engine
  import EvaluatorLaws

  // ---- The pruner -----------------------------------------------------------------------------

  /** _protected_job_event_ids */
  function ProtectedOf(log: Log, m: nat): set<nat> {
    var terminal, start := LatestTerminal(log, m), UnmatchedStart(log, m);
    (if terminal.Some? then {terminal.value.id} else {}) + (if start.Some? then {start.value.id} else {})
  }

  function Protected(log: Log, jobs: set<nat>): set<nat> {
    set m, id | m in jobs && id in ProtectedOf(log, m) :: id
  }

  function Kept(cutoff: Time, protected: set<nat>): JobEvent -> bool {
    (e: JobEvent) => e.receivedAt >= cutoff || e.id in protected
  }

  /** The rows left when expired rows that are not protected have been deleted. */
  function Prune(log: Log, jobs: set<nat>, cutoff: Time): Log {
    Where(log, Kept(cutoff, Protected(log, jobs)))
  }

  function Days(n: int): Time { n * 86_400_000_000 }

  function Jobs(monitors: map<nat, MonitorRow>): set<nat> {
    set m | m in monitors && monitors[m].isJob
  }

  /** The loop of prune_monitor_history that gathers the protected ids monitor by monitor. */
  method GatherProtected(log: Log, jobs: set<nat>) returns (protected: set<nat>)
    ensures protected == Protected(log, jobs)
  {
    protected := {};
    var done: set<nat>, todo := {}, jobs;
    while todo != {}
      invariant todo + done == jobs
      invariant protected == Protected(log, done)
    {
      var m :| m in todo;
      protected := protected + ProtectedOf(log, m);
      todo, done := todo - {m}, done + {m};
    }
    assert done == jobs;
  }

  /** The check results of all monitors. */
  class CheckTable {
    var rows: seq<Engine.CheckResult>

    constructor ()
      ensures rows == []
    {
      rows := [];
    }
  }

  function CheckedFrom(cutoff: Time): Engine.CheckResult -> bool {
    (c: Engine.CheckResult) => c.checkedAt >= cutoff
  }

  datatype RetentionResult = RetentionResult(checkResultsDeleted: nat, jobEventsDeleted: nat)

  /** prune_monitor_history: the numbers of deleted rows, or Raised for a retention period below one day
      (ValueError), which changes nothing. */
  method PruneHistory(tables: JobTables, results: CheckTable, now: Time, checkDays: int, jobDays: int)
    returns (deleted: Result<RetentionResult>)
    modifies tables`events, results
    ensures checkDays < 1 || jobDays < 1 ==>
              deleted == Raised && tables.events == old(tables.events) && results.rows == old(results.rows)
    ensures checkDays >= 1 && jobDays >= 1 ==>
              && tables.events == Prune(old(tables.events), Jobs(old(tables.monitors)), now - Days(jobDays))
              && results.rows == Where(old(results.rows), CheckedFrom(now - Days(checkDays)))
              && (forall c :: c in results.rows <==>
                    c in old(results.rows) && c.checkedAt >= now - checkDays * 86_400_000_000)
              && (forall e :: e in tables.events <==>
                    e in old(tables.events)
                    && (e.receivedAt >= now - jobDays * 86_400_000_000
                        || exists m :: m in old(tables.monitors) && old(tables.monitors)[m].isJob
                                       && e.id in ProtectedOf(old(tables.events), m)))
              && deleted == Ok(RetentionResult(|old(results.rows)| - |results.rows|,
                                               |old(tables.events)| - |tables.events|))
  {
    if checkDays < 1 || jobDays < 1 {
      return Raised;
    }
    var checksLeft := Where(results.rows, CheckedFrom(now - Days(checkDays)));
    var checksDeleted := |results.rows| - |checksLeft|;
    results.rows := checksLeft;
    var cutoff := now - Days(jobDays);
    var protected := GatherProtected(tables.events, Jobs(tables.monitors));
    var left := Where(tables.events, Kept(cutoff, protected));
    deleted := Ok(RetentionResult(checksDeleted, |tables.events| - |left|));
    KeptRows(tables.events, tables.monitors, cutoff);
    tables.events := left;
  }

  /** Which rows are left, with the JOB monitors written out. */
  lemma KeptRows(log: Log, monitors: map<nat, MonitorRow>, cutoff: Time)
    ensures var left := Prune(log, Jobs(monitors), cutoff);
            forall e :: e in left <==>
              e in log && (e.receivedAt >= cutoff
                           || exists m :: m in monitors && monitors[m].isJob && e.id in ProtectedOf(log, m))
  {
    hide ProtectedOf;
  }

  /** Which rows a prune keeps: those from the cutoff on, and for each JOB monitor its last end and its open
      run. */
  lemma PruneKeepsExactly(log: Log, jobs: set<nat>, cutoff: Time, e: JobEvent)
    requires UniqueIds(log)
    ensures e in Prune(log, jobs, cutoff)
            <==> e in log && (e.receivedAt >= cutoff
                              || (e.monitor in jobs && (EvaluatorLaws.LastEnd(log, e.monitor, e)
                                                        || EvaluatorLaws.OpenRun(log, e.monitor, e))))
  {
    hide LatestTerminal, UnmatchedStart;
    if e in log {
      forall m ensures e.id in ProtectedOf(log, m)
                       <==> EvaluatorLaws.LastEnd(log, m, e) || EvaluatorLaws.OpenRun(log, m, e) {
        ProtectedExactly(log, m, e);
      }
    }
  }

  lemma ProtectedExactly(log: Log, m: nat, e: JobEvent)
    requires UniqueIds(log) && e in log
    ensures e.id in ProtectedOf(log, m) <==> EvaluatorLaws.LastEnd(log, m, e) || EvaluatorLaws.OpenRun(log, m, e)
  {
    hide LatestTerminal, UnmatchedStart, UniqueIds;
    EvaluatorLaws.LatestTerminalIs(log, m);
    EvaluatorLaws.UnmatchedStartIs(log, m);
    var t, s := LatestTerminal(log, m), UnmatchedStart(log, m);
    if t.Some? && t.value.id == e.id {
      SameId(log, t.value, e);
    }
    if s.Some? && s.value.id == e.id {
      SameId(log, s.value, e);
    }
    if EvaluatorLaws.LastEnd(log, m, e) {
      EvaluatorLaws.ReadsLastEnd(log, m, e);
    }
    if EvaluatorLaws.OpenRun(log, m, e) {
      EvaluatorLaws.ReadsOpenRun(log, m, e);
    }
  }

  // ---- A pruned log beside the full one ---------------------------------------------------------

  /** The pruned log holds only rows of the full log, and agrees with it on everything the evaluator,
      the pruner and the recovery view read for the JOB monitors. */
  ghost predicate Agrees(full: Log, pruned: Log, jobs: set<nat>) {
    && UniqueIds(full) && UniqueIds(pruned)
    && (forall e :: e in pruned ==> e in full)
    && forall m :: m in jobs ==> LatestTerminal(full, m) == LatestTerminal(pruned, m)
                                 && UnmatchedStart(full, m) == UnmatchedStart(pruned, m)
  }

  lemma PruneUnique(log: Log, jobs: set<nat>, cutoff: Time)
    requires UniqueIds(log)
    ensures UniqueIds(Prune(log, jobs, cutoff))
  {
    WhereUnique(log, Kept(cutoff, Protected(log, jobs)));
  }

  lemma PruneKeepsLatestTerminal(log: Log, jobs: set<nat>, cutoff: Time, m: nat)
    requires UniqueIds(log) && m in jobs
    ensures LatestTerminal(Prune(log, jobs, cutoff), m) == LatestTerminal(log, m)
  {
    var pruned := Prune(log, jobs, cutoff);
    PruneUnique(log, jobs, cutoff);
    var all, left := Where(log, TerminalsOf(m)), Where(pruned, TerminalsOf(m));
    WhereUnique(log, TerminalsOf(m));
    NewestCorrect(all);
    var terminal := LatestTerminal(log, m);
    WhereUnique(pruned, TerminalsOf(m));
    NewestCorrect(left);
    assert forall x :: x in left ==> x in all;
    if terminal.Some? {
      assert terminal.value in all;
      assert terminal.value.id in ProtectedOf(log, m);
      assert terminal.value in pruned;
      assert terminal.value in left;
      NewestUnique(left, Newest(left), terminal);
    }
  }

  lemma PruneKeepsUnmatchedStart(log: Log, jobs: set<nat>, cutoff: Time, m: nat)
    requires UniqueIds(log) && m in jobs
    ensures UnmatchedStart(Prune(log, jobs, cutoff), m) == UnmatchedStart(log, m)
  {
    PruneKeepsLatestTerminal(log, jobs, cutoff, m);
    PruneUnique(log, jobs, cutoff);
    var pruned := Prune(log, jobs, cutoff);
    var all, left := Where(log, StartsOf(m)), Where(pruned, StartsOf(m));
    WhereUnique(log, StartsOf(m));
    NewestCorrect(all);
    WhereUnique(pruned, StartsOf(m));
    NewestCorrect(left);
    assert forall x :: x in left ==> x in all;
    var start := UnmatchedStart(log, m);
    if start.Some? {
      assert start.value in all;
      assert start.value.id in ProtectedOf(log, m);
      assert start.value in pruned;
      assert start.value in left;
      NewestUnique(left, Newest(left), start);
    } else if left != [] {
      assert LatestStart(pruned, m).value in left;
    }
  }

  lemma AgreesAfterPrune(full: Log, pruned: Log, jobs: set<nat>, cutoff: Time)
    requires Agrees(full, pruned, jobs)
    ensures Agrees(full, Prune(pruned, jobs, cutoff), jobs)
  {
    PruneUnique(pruned, jobs, cutoff);
    forall m | m in jobs
      ensures LatestTerminal(full, m) == LatestTerminal(Prune(pruned, jobs, cutoff), m)
      ensures UnmatchedStart(full, m) == UnmatchedStart(Prune(pruned, jobs, cutoff), m)
    {
      PruneKeepsLatestTerminal(pruned, jobs, cutoff, m);
      PruneKeepsUnmatchedStart(pruned, jobs, cutoff, m);
    }
  }

  /** What one more row does to a newest-row query. */
  function Later(best: Option<JobEvent>, e: JobEvent): Option<JobEvent> {
    if best.None? || Newer(e, best.value) then Some(e) else best
  }

  lemma AppendQueries(log: Log, e: JobEvent, m: nat)
    ensures LatestTerminal(log + [e], m)
            == if TerminalsOf(m)(e) then Later(LatestTerminal(log, m), e) else LatestTerminal(log, m)
    ensures LatestStart(log + [e], m)
            == if StartsOf(m)(e) then Later(LatestStart(log, m), e) else LatestStart(log, m)
  {
    assert (log + [e])[..|log|] == log;
    var t, s := Where(log, TerminalsOf(m)), Where(log, StartsOf(m));
    assert (t + [e])[..|t|] == t && (s + [e])[..|s|] == s;
  }

  lemma AgreesAfterAppend(full: Log, pruned: Log, jobs: set<nat>, e: JobEvent)
    requires Agrees(full, pruned, jobs) && UniqueIds(full + [e])
    ensures Agrees(full + [e], pruned + [e], jobs)
  {
    forall x | x in pruned ensures x.id != e.id {
      var i :| 0 <= i < |full| && full[i] == x;
      assert (full + [e])[i].id != (full + [e])[|full|].id;
    }
    forall m | m in jobs
      ensures LatestTerminal(full + [e], m) == LatestTerminal(pruned + [e], m)
      ensures UnmatchedStart(full + [e], m) == UnmatchedStart(pruned + [e], m)
    {
      AppendQueries(full, e, m);
      AppendQueries(pruned, e, m);
    }
  }

  // ---- Every future ---------------------------------------------------------------------------

  datatype Act = Arrive(event: JobEvent) | PruneAt(cutoff: Time)

  /** The log after a history of appended rows, in any order of their times, and prunings. */
  function After(log: Log, acts: seq<Act>, jobs: set<nat>, pruning: bool): Log {
    if acts == [] then log
    else
      var before := After(log, acts[..|acts| - 1], jobs, pruning);
      match acts[|acts| - 1]
      case Arrive(e) => before + [e]
      case PruneAt(cutoff) => if pruning then Prune(before, jobs, cutoff) else before
  }

  lemma {:induction false} PrunedHistoryAgrees(log: Log, acts: seq<Act>, jobs: set<nat>)
    requires UniqueIds(After(log, acts, jobs, false))
    ensures Agrees(After(log, acts, jobs, false), After(log, acts, jobs, true), jobs)
  {
    if acts != [] {
      var front := acts[..|acts| - 1];
      var full, pruned := After(log, front, jobs, false), After(log, front, jobs, true);
      match acts[|acts| - 1]
      case Arrive(e) =>
        UniqueFront(log, acts, jobs);
        PrunedHistoryAgrees(log, front, jobs);
        AgreesAfterAppend(full, pruned, jobs, e);
      case PruneAt(cutoff) =>
        PrunedHistoryAgrees(log, front, jobs);
        AgreesAfterPrune(full, pruned, jobs, cutoff);
    }
  }

  /** Pruning preserves meaning in every future: however rows are appended and pruned, the evaluator
      reads from the pruned log what it would have read from the log that was never pruned. */
  lemma PruningPreservesEvaluation(log: Log, acts: seq<Act>, jobs: set<nat>, mon: JobMonitor, now: Time)
    requires UniqueIds(After(log, acts, jobs, false)) && mon.id in jobs
    ensures Evaluate(mon, After(log, acts, jobs, true), now) == Evaluate(mon, After(log, acts, jobs, false), now)
  {
    PrunedHistoryAgrees(log, acts, jobs);
  }

  // ---- What outlives the cutoff -----------------------------------------------------------------

  function Expired(m: nat, cutoff: Time): JobEvent -> bool {
    (e: JobEvent) => e.monitor == m && e.receivedAt < cutoff
  }

  lemma {:induction false} FewIds(rows: Log, ids: set<nat>)
    requires UniqueIds(rows) && forall e :: e in rows ==> e.id in ids
    ensures |rows| <= |ids|
  {
    if rows != [] {
      var front, e := rows[..|rows| - 1], rows[|rows| - 1];
      forall x | x in front ensures x.id in ids - {e.id} {
        var i :| 0 <= i < |front| && front[i] == x;
        assert rows[i].id != e.id && rows[i] in rows;
      }
      assert e in rows;
      FewIds(front, ids - {e.id});
    }
  }

  /** At most two rows per monitor outlive the cutoff. */
  lemma AtMostTwoOutlive(log: Log, jobs: set<nat>, cutoff: Time, m: nat)
    requires UniqueIds(log)
    ensures |Where(Prune(log, jobs, cutoff), Expired(m, cutoff))| <= 2
  {
    var pruned := Prune(log, jobs, cutoff);
    var old_ := Where(pruned, Expired(m, cutoff));
    PruneUnique(log, jobs, cutoff);
    WhereUnique(pruned, Expired(m, cutoff));
    forall e | e in old_ ensures e.id in ProtectedOf(log, m) {
      assert e in pruned && e in log;
      var k :| k in jobs && e.id in ProtectedOf(log, k);
      ProtectedRow(log, k, e);
    }
    FewIds(old_, ProtectedOf(log, m));
  }

  /** A protected id of monitor k names a row of monitor k. */
  lemma ProtectedRow(log: Log, k: nat, e: JobEvent)
    requires UniqueIds(log) && e in log && e.id in ProtectedOf(log, k)
    ensures e.monitor == k
  {
    WhereUnique(log, TerminalsOf(k));
    WhereUnique(log, StartsOf(k));
    NewestCorrect(Where(log, TerminalsOf(k)));
    NewestCorrect(Where(log, StartsOf(k)));
    forall x | x in log && x.id == e.id ensures x == e {
      SameId(log, x, e);
    }
  }

  // ---- Replay on a pruned log ---------------------------------------------------------------------

  /** Replay detection survives pruning exactly as far as the row itself does. */
  lemma ReplayAfterPruning(store: Store, s: Signal, jobs: set<nat>, cutoff: Time)
    requires Consistent(store) && s.eventId != ""
    ensures var pruned := store.(events := Prune(store.events, jobs, cutoff));
            var found := Existing(store, s);
            Existing(pruned, s) == if found.Some? && found.value in pruned.events then found else None
  {
    var q := Labelled(s.monitor, s.eventId);
    forall e | e in store.events && q(e) ensures Newest(Where(store.events, q)) == Some(e) {
      EventIdFinds(store, e);
    }
    PruneUnique(store.events, jobs, cutoff);
    SingleRow(store.events, Prune(store.events, jobs, cutoff), q);
  }

  /** After a prune the limiter counts the same rows at r if and only if every row of the window was kept;
      so it does whenever the window lies above the cutoff, whatever the order of arrivals. */
  lemma WindowAfterPruning(log: Log, jobs: set<nat>, cutoff: Time, m: nat, r: Time)
    ensures Recent(Prune(log, jobs, cutoff), m, r) == Recent(log, m, r)
            <==> forall e :: e in Recent(log, m, r) ==> e in Prune(log, jobs, cutoff)
    ensures cutoff <= r - WINDOW ==> Recent(Prune(log, jobs, cutoff), m, r) == Recent(log, m, r)
  {
    var kept, window := Kept(cutoff, Protected(log, jobs)), Within(m, r - WINDOW, r);
    if forall e :: e in log && window(e) ==> kept(e) {
      WhereNested(log, kept, window);
    } else {
      var e :| e in log && window(e) && !kept(e);
      assert e in Recent(log, m, r) && e !in Prune(log, jobs, cutoff);
    }
  }

  // ---- START matching on a pruned log -----------------------------------------------------------

  /** A START that a terminal with this run id arriving at r may claim. */
  ghost predicate Candidate(log: Log, m: nat, run: string, r: Time, e: JobEvent) {
    && e in log && e.monitor == m && e.eventType == START && e.receivedAt <= r
    && (run != "" ==> e.runId == run)
    && (run == "" ==>
          forall t :: t in log && EvaluatorLaws.Ends(t, m) && t.receivedAt <= r ==> t.receivedAt < e.receivedAt)
  }

  /** The claim is the newest candidate: of the run it names, or else the newest START at or before r
      that is later than every terminal at or before r. */
  ghost predicate IsClaim(log: Log, m: nat, run: string, r: Time, claim: Option<JobEvent>) {
    match claim
    case None => forall e :: !Candidate(log, m, run, r, e)
    case Some(c) => Candidate(log, m, run, r, c) && forall e :: Candidate(log, m, run, r, e) ==> e == c || Newer(c, e)
  }

  lemma MatchingStartIsClaim(log: Log, m: nat, run: string, r: Time)
    requires UniqueIds(log)
    ensures IsClaim(log, m, run, r, MatchingStart(log, m, run, r))
  {
    if run != "" {
      WhereUnique(log, StartsOfRun(m, run, r));
      NewestCorrect(Where(log, StartsOfRun(m, run, r)));
      assert forall e :: Candidate(log, m, run, r, e) <==> e in Where(log, StartsOfRun(m, run, r));
    } else {
      UnlabelledClaim(log, m, r);
    }
  }

  lemma UnlabelledClaim(log: Log, m: nat, r: Time)
    requires UniqueIds(log)
    ensures IsClaim(log, m, "", r, MatchingStart(log, m, "", r))
  {
    var terminals := Where(log, TerminalsUntil(m, r));
    WhereUnique(log, TerminalsUntil(m, r));
    NewestCorrect(terminals);
    var last := Newest(terminals);
    var after := if last.Some? then Some(last.value.receivedAt) else None;
    var open := Where(log, StartsBetween(m, after, r));
    WhereUnique(log, StartsBetween(m, after, r));
    NewestCorrect(open);
    forall e ensures Candidate(log, m, "", r, e) <==> e in open {
      if last.Some? {
        assert last.value in terminals;
      }
      assert forall t :: t in log && t.monitor == m && Terminal(t.eventType) && t.receivedAt <= r <==> t in terminals;
    }
  }

  /** Row y bars START x from being claimed: a later START, or a terminal not before it. */
  predicate Bars(y: JobEvent, x: JobEvent) {
    && y.monitor == x.monitor
    && ((y.eventType == START && Newer(y, x)) || (Terminal(y.eventType) && y.receivedAt >= x.receivedAt))
  }

  /** Whatever bars a kept START has been kept too. */
  ghost predicate Closed(full: Log, pruned: Log, jobs: set<nat>) {
    forall x, y :: x in pruned && x.eventType == START && x.monitor in jobs && y in full && Bars(y, x) ==> y in pruned
  }

  /** On such a pruned log any claim is found if and only if its START has been kept, and otherwise none. */
  lemma ClaimWhenClosed(full: Log, pruned: Log, jobs: set<nat>, m: nat, run: string, r: Time)
    requires UniqueIds(full) && UniqueIds(pruned) && (forall e :: e in pruned ==> e in full)
    requires Closed(full, pruned, jobs) && m in jobs
    ensures var found := MatchingStart(full, m, run, r);
            MatchingStart(pruned, m, run, r) == if found.Some? && found.value in pruned then found else None
  {
    hide MatchingStart;
    MatchingStartIsClaim(full, m, run, r);
    MatchingStartIsClaim(pruned, m, run, r);
    forall x | Candidate(pruned, m, run, r, x) ensures Candidate(full, m, run, r, x) {
      forall t | t in full && t.monitor == m && Terminal(t.eventType) && t.receivedAt <= r && run == ""
        ensures t.receivedAt < x.receivedAt
      {
        assert !Bars(t, x) || t in pruned;
      }
    }
    var found := MatchingStart(full, m, run, r);
    if found.Some? && found.value in pruned {
      assert Candidate(pruned, m, run, r, found.value);
    }
  }

  lemma ClosedAfterPrune(full: Log, pruned: Log, jobs: set<nat>, cutoff: Time)
    requires UniqueIds(pruned) && Closed(full, pruned, jobs)
    ensures Closed(full, Prune(pruned, jobs, cutoff), jobs)
  {
    hide Bars;
    var left := Prune(pruned, jobs, cutoff);
    forall x, y | x in left && x.eventType == START && x.monitor in jobs && y in full && Bars(y, x) ensures y in left {
      assert y in pruned;
      BarredIsKept(pruned, jobs, cutoff, x, y);
    }
  }

  /** A START that a prune keeps although it has expired is barred by no row. */
  lemma BarredIsKept(log: Log, jobs: set<nat>, cutoff: Time, x: JobEvent, y: JobEvent)
    requires UniqueIds(log) && x in Prune(log, jobs, cutoff) && x.eventType == START && y in log && Bars(y, x)
    ensures y in Prune(log, jobs, cutoff)
  {
    assert y in Where(log, StartsOf(y.monitor)) || y in Where(log, TerminalsOf(y.monitor));
    if x.receivedAt < cutoff {
      var k :| k in jobs && x.id in ProtectedOf(log, k);
      ProtectedRow(log, k, x);
      ProtectedIsOpen(log, k, x);
    }
  }

  /** A protected START is the newest START of its monitor, and later than every terminal. */
  lemma ProtectedIsOpen(log: Log, m: nat, e: JobEvent)
    requires UniqueIds(log) && e in log && e.eventType == START && e.id in ProtectedOf(log, m)
    ensures IsNewest(Where(log, StartsOf(m)), Some(e))
    ensures forall t :: t in Where(log, TerminalsOf(m)) ==> t.receivedAt < e.receivedAt
  {
    WhereUnique(log, TerminalsOf(m));
    WhereUnique(log, StartsOf(m));
    NewestCorrect(Where(log, TerminalsOf(m)));
    NewestCorrect(Where(log, StartsOf(m)));
    forall x | x in log && x.id == e.id ensures x == e {
      SameId(log, x, e);
    }
  }

  /** After a prune a terminal, labelled or not and arriving at any time, claims the START it would have
      claimed if and only if that START was kept, and otherwise none. */
  lemma ClaimAfterPruning(log: Log, jobs: set<nat>, cutoff: Time, m: nat, run: string, r: Time)
    requires UniqueIds(log) && m in jobs
    ensures var found := MatchingStart(log, m, run, r);
            MatchingStart(Prune(log, jobs, cutoff), m, run, r)
            == if found.Some? && found.value in Prune(log, jobs, cutoff) then found else None
  {
    hide MatchingStart, Bars;
    PruneUnique(log, jobs, cutoff);
    ClosedAfterPrune(log, log, jobs, cutoff);
    ClaimWhenClosed(log, Prune(log, jobs, cutoff), jobs, m, run, r);
  }

  /** Every arriving START took its time no earlier than the cutoffs already applied; other rows arrive at
      any time. */
  predicate StartsAbove(acts: seq<Act>, horizon: Time) {
    acts == [] || (
      var front := acts[..|acts| - 1];
      && StartsAbove(front, horizon)
      && (acts[|acts| - 1].Arrive? && acts[|acts| - 1].event.eventType == START ==>
            acts[|acts| - 1].event.receivedAt >= Cutoff(front, horizon)))
  }

  /** The highest cutoff applied so far, or the given one. */
  function Cutoff(acts: seq<Act>, horizon: Time): Time {
    if acts == [] then horizon
    else
      var before := Cutoff(acts[..|acts| - 1], horizon);
      if acts[|acts| - 1].PruneAt? then Max(before, acts[|acts| - 1].cutoff) else before
  }

  lemma {:induction false} HistoryIsClosed(log: Log, acts: seq<Act>, jobs: set<nat>, horizon: Time)
    requires UniqueIds(After(log, acts, jobs, false)) && StartsAbove(acts, horizon)
    ensures Closed(After(log, acts, jobs, false), After(log, acts, jobs, true), jobs)
    ensures forall y :: y in After(log, acts, jobs, false) && y.receivedAt >= Cutoff(acts, horizon)
                        ==> y in After(log, acts, jobs, true)
  {
    if acts != [] {
      hide Bars, UniqueIds;
      var front := acts[..|acts| - 1];
      var full, pruned := After(log, front, jobs, false), After(log, front, jobs, true);
      UniqueFront(log, acts, jobs);
      HistoryIsClosed(log, front, jobs, horizon);
      match acts[|acts| - 1]
      case Arrive(e) => ArrivalKeepsClosed(full, pruned, jobs, e);
      case PruneAt(cutoff) =>
        PrunedHistoryAgrees(log, front, jobs);
        AgreesUnique(full, pruned, jobs);
        ClosedAfterPrune(full, pruned, jobs, cutoff);
    }
  }

  lemma UniqueFront(log: Log, acts: seq<Act>, jobs: set<nat>)
    requires UniqueIds(After(log, acts, jobs, false)) && acts != []
    ensures UniqueIds(After(log, acts[..|acts| - 1], jobs, false))
  {
    var full := After(log, acts[..|acts| - 1], jobs, false);
    if acts[|acts| - 1].Arrive? {
      var e := acts[|acts| - 1].event;
      forall i, j | 0 <= i < j < |full| ensures full[i].id != full[j].id {
        assert (full + [e])[i].id != (full + [e])[j].id;
      }
    }
  }

  lemma ArrivalKeepsClosed(full: Log, pruned: Log, jobs: set<nat>, e: JobEvent)
    requires Closed(full, pruned, jobs)
    requires e.eventType == START ==> forall y :: y in full && y.receivedAt >= e.receivedAt ==> y in pruned
    ensures Closed(full + [e], pruned + [e], jobs)
  {
  }

  /** START matching in every future: after any history of prunings and of rows arriving in any order,
      as long as no START arrives from before a cutoff already applied, a terminal of any run label and any
      time claims what it would have claimed if and only if that START was kept, and otherwise none. */
  lemma ClaimInEveryFuture(log: Log, acts: seq<Act>, jobs: set<nat>, horizon: Time, m: nat, run: string, r: Time)
    requires UniqueIds(After(log, acts, jobs, false)) && StartsAbove(acts, horizon) && m in jobs
    ensures var full, pruned := After(log, acts, jobs, false), After(log, acts, jobs, true);
            var found := MatchingStart(full, m, run, r);
            MatchingStart(pruned, m, run, r) == if found.Some? && found.value in pruned then found else None
  {
    hide MatchingStart, Closed;
    PrunedHistoryAgrees(log, acts, jobs);
    HistoryIsClosed(log, acts, jobs, horizon);
    ClaimWhenClosed(After(log, acts, jobs, false), After(log, acts, jobs, true), jobs, m, run, r);
  }

  /** Without that condition, on any log that lacks rows of the full one: a claim is unchanged if and only if
      its START was kept; a terminal that claims nothing still claims nothing if and only if it names its
      run or every kept START before it has a kept terminal that ends it. */
  lemma ClaimUnchangedIff(full: Log, pruned: Log, m: nat, run: string, r: Time)
    requires UniqueIds(full) && UniqueIds(pruned) && forall e :: e in pruned ==> e in full
    ensures var found := MatchingStart(full, m, run, r);
            MatchingStart(pruned, m, run, r) == found
            <==> match found
                 case Some(start) => start in pruned
                 case None =>
                   run != "" || forall x ::
                     x in pruned && StartsOf(m)(x) && x.receivedAt <= r ==> Ended(pruned, m, r, x)
  {
    hide MatchingStart;
    MatchingStartIsClaim(full, m, run, r);
    MatchingStartIsClaim(pruned, m, run, r);
    var found := MatchingStart(full, m, run, r);
    if found.Some? {
      assert forall x :: Newer(x, found.value) && Candidate(pruned, m, run, r, x) ==> Candidate(full, m, run, r, x);
      assert found.value in pruned ==> Candidate(pruned, m, run, r, found.value);
    } else {
      forall x ensures Candidate(pruned, m, run, r, x)
                       <==> run == "" && x in pruned && StartsOf(m)(x) && x.receivedAt <= r && !Ended(pruned, m, r, x) {
        assert !Candidate(full, m, run, r, x);
      }
    }
  }

  /** A terminal at or before r stands at or after START x. */
  ghost predicate Ended(log: Log, m: nat, r: Time, x: JobEvent) {
    exists t :: t in log && TerminalsOf(m)(t) && x.receivedAt <= t.receivedAt <= r
  }

  /** The START an in-order unlabelled terminal claims is never deleted. */
  lemma InOrderClaimIsKept(log: Log, jobs: set<nat>, cutoff: Time, m: nat, r: Time)
    requires UniqueIds(log) && m in jobs && ArrivedBy(log, m, r)
    ensures MatchingStart(Prune(log, jobs, cutoff), m, "", r) == MatchingStart(log, m, "", r)
  {
    hide MatchingStart, Prune;
    PruneUnique(log, jobs, cutoff);
    PruneKeepsUnmatchedStart(log, jobs, cutoff, m);
    assert ArrivedBy(Prune(log, jobs, cutoff), m, r) by { PruneIsSubset(log, jobs, cutoff); }
    MatchingStartIsUnmatched(log, m, r);
    MatchingStartIsUnmatched(Prune(log, jobs, cutoff), m, r);
  }

  lemma PruneIsSubset(log: Log, jobs: set<nat>, cutoff: Time)
    ensures forall e :: e in Prune(log, jobs, cutoff) ==> e in log
  {
  }

  /** Out of order the claim can be lost: a run whose terminal is stored with a later time is no longer
      open, so its expired START is deleted, and an unlabelled terminal that took its time between the two
      claims the START on the full log and nothing on the pruned one. */
  lemma OutOfOrderClaimLost(start: JobEvent, end: JobEvent, jobs: set<nat>, cutoff: Time, r: Time)
    requires start.monitor == end.monitor && start.monitor in jobs && start.id != end.id
    requires start.eventType == START && Terminal(end.eventType)
    requires start.receivedAt <= r < end.receivedAt && start.receivedAt < cutoff
    ensures MatchingStart([start, end], start.monitor, "", r) == Some(start)
    ensures MatchingStart(Prune([start, end], jobs, cutoff), start.monitor, "", r) == None
  {
    hide MatchingStart;
    var log, m := [start, end], start.monitor;
    assert log[0] == start && log[1] == end && UniqueIds(log);
    MatchingStartIsClaim(log, m, "", r);
    assert Candidate(log, m, "", r, start);
    ClaimAfterPruning(log, jobs, cutoff, m, "", r);
    assert end in Where(log, TerminalsOf(m));
    if start in Prune(log, jobs, cutoff) {
      var k :| k in jobs && start.id in ProtectedOf(log, k);
      ProtectedRow(log, k, start);
      ProtectedIsOpen(log, k, start);
    }
  }

  /** And a START can be claimed that the full log holds to have ended: its time lies below an applied
      cutoff, and the terminal after it has been deleted, being no longer the latest. */
  lemma LateStartClaimed(ended: JobEvent, latest: JobEvent, start: JobEvent, jobs: set<nat>, cutoff: Time, r: Time)
    requires start.monitor == ended.monitor == latest.monitor && start.monitor in jobs
    requires ended.id != latest.id && start.id != ended.id && start.id != latest.id
    requires start.eventType == START && Terminal(ended.eventType) && Terminal(latest.eventType)
    requires start.receivedAt <= ended.receivedAt <= r < latest.receivedAt && ended.receivedAt < cutoff
    ensures MatchingStart([ended, latest] + [start], start.monitor, "", r) == None
    ensures MatchingStart(Prune([ended, latest], jobs, cutoff) + [start], start.monitor, "", r) == Some(start)
  {
    hide MatchingStart;
    var log, m := [ended, latest], start.monitor;
    var full, pruned := log + [start], Prune(log, jobs, cutoff) + [start];
    assert log[0] == ended && log[1] == latest && full[0] == ended && full[1] == latest && full[2] == start;
    assert UniqueIds(log) && UniqueIds(full);
    PruneUnique(log, jobs, cutoff);
    EndedIsDeleted(ended, latest, jobs, cutoff);
    UniqueAppend(Prune(log, jobs, cutoff), start);
    assert start in pruned;
    MatchingStartIsClaim(full, m, "", r);
    MatchingStartIsClaim(pruned, m, "", r);
    assert Candidate(pruned, m, "", r, start);
    assert forall e :: Candidate(pruned, m, "", r, e) ==> e == start;
    assert forall e :: !Candidate(full, m, "", r, e);
  }

  lemma UniqueAppend(log: Log, e: JobEvent)
    requires UniqueIds(log) && forall x :: x in log ==> x.id != e.id
    ensures UniqueIds(log + [e])
  {
    assert forall i :: 0 <= i < |log| ==> (log + [e])[i] in log;
  }

  lemma SameId(log: Log, a: JobEvent, b: JobEvent)
    requires UniqueIds(log) && a in log && b in log && a.id == b.id
    ensures a == b
  {
    var i :| 0 <= i < |log| && log[i] == a;
    var j :| 0 <= j < |log| && log[j] == b;
  }

  /** A terminal before another terminal of its monitor is not protected. */
  lemma SupersededIsUnprotected(log: Log, k: nat, ended: JobEvent, latest: JobEvent)
    requires UniqueIds(log) && ended in log && latest in log && ended.monitor == latest.monitor
    requires Terminal(ended.eventType) && Terminal(latest.eventType) && ended.receivedAt < latest.receivedAt
    ensures ended.id !in ProtectedOf(log, k)
  {
    hide Newest, UniqueIds;
    var terminals, starts := Where(log, TerminalsOf(k)), Where(log, StartsOf(k));
    WhereUnique(log, TerminalsOf(k));
    WhereUnique(log, StartsOf(k));
    NewestCorrect(terminals);
    NewestCorrect(starts);
    assert latest.monitor == k ==> latest in terminals;
    if LatestTerminal(log, k).Some? && LatestTerminal(log, k).value.id == ended.id {
      SameId(log, LatestTerminal(log, k).value, ended);
    }
    if LatestStart(log, k).Some? && LatestStart(log, k).value.id == ended.id {
      SameId(log, LatestStart(log, k).value, ended);
    }
  }

  lemma EndedIsDeleted(ended: JobEvent, latest: JobEvent, jobs: set<nat>, cutoff: Time)
    requires ended.monitor == latest.monitor && ended.id != latest.id
    requires Terminal(ended.eventType) && Terminal(latest.eventType)
    requires ended.receivedAt < latest.receivedAt && ended.receivedAt < cutoff
    ensures forall e :: e in Prune([ended, latest], jobs, cutoff) ==> e == latest
  {
    hide ProtectedOf;
    var log := [ended, latest];
    assert log[0] == ended && log[1] == latest && UniqueIds(log);
    forall k | k in jobs ensures ended.id !in ProtectedOf(log, k) {
      SupersededIsUnprotected(log, k, ended, latest);
    }
  }

  // ---- Ingestion over whole runs with prunings --------------------------------------------------

  function From(horizon: Time): JobEvent -> bool {
    (e: JobEvent) => e.receivedAt >= horizon
  }

  /** Two stores that differ only by prunings whose cutoffs lie at or below the horizon. */
  ghost predicate Mirrors(full: Store, pruned: Store, jobs: set<nat>, horizon: Time) {
    && Consistent(full) && Agrees(full.events, pruned.events, jobs) && Closed(full.events, pruned.events, jobs)
    && full.monitors == pruned.monitors && full.nextId == pruned.nextId
    && Where(full.events, From(horizon)) == Where(pruned.events, From(horizon))
  }

  lemma MirrorsAfterPrune(full: Store, pruned: Store, jobs: set<nat>, horizon: Time, cutoff: Time)
    requires Mirrors(full, pruned, jobs, horizon)
    ensures Mirrors(full, pruned.(events := Prune(pruned.events, jobs, cutoff)), jobs, Max(horizon, cutoff))
  {
    hide Agrees, Closed, Consistent;
    var h := Max(horizon, cutoff);
    assert UniqueIds(pruned.events) by { AgreesUnique(full.events, pruned.events, jobs); }
    AgreesAfterPrune(full.events, pruned.events, jobs, cutoff);
    ClosedAfterPrune(full.events, pruned.events, jobs, cutoff);
    WhereNested(full.events, From(horizon), From(h));
    WhereNested(pruned.events, From(horizon), From(h));
    WhereNested(pruned.events, Kept(cutoff, Protected(pruned.events, jobs)), From(h));
  }

  lemma AgreesUnique(full: Log, pruned: Log, jobs: set<nat>)
    requires Agrees(full, pruned, jobs)
    ensures UniqueIds(full) && UniqueIds(pruned) && forall e :: e in pruned ==> e in full
  {
  }

  lemma ClosedAfterAppend(full: Log, pruned: Log, jobs: set<nat>, horizon: Time, e: JobEvent)
    requires Closed(full, pruned, jobs) && Where(full, From(horizon)) == Where(pruned, From(horizon))
    requires horizon <= e.receivedAt
    ensures Closed(full + [e], pruned + [e], jobs)
  {
    hide Closed;
    forall y | y in full && y.receivedAt >= e.receivedAt ensures y in pruned {
      assert y in Where(full, From(horizon));
    }
    ArrivalKeepsClosed(full, pruned, jobs, e);
  }

  lemma MirrorsAfterAppend(full: Store, pruned: Store, jobs: set<nat>, horizon: Time, s: Signal)
    requires Mirrors(full, pruned, jobs, horizon) && s.monitor in full.monitors && horizon <= s.receivedAt
    requires NewEvent(pruned, s) == NewEvent(full, s)
    requires Consistent(Append(full, s))
    ensures Mirrors(Append(full, s), Append(pruned, s), jobs, horizon)
  {
    hide Agrees, Closed, NewEvent;
    var event := NewEvent(full, s);
    assert event.receivedAt == s.receivedAt by { NewEventTime(full, s); }
    assert UniqueIds(full.events + [event]) by { assert Append(full, s).events == full.events + [event]; }
    AgreesAfterAppend(full.events, pruned.events, jobs, event);
    ClosedAfterAppend(full.events, pruned.events, jobs, horizon, event);
    WhereAppend(full.events, [event], From(horizon));
    WhereAppend(pruned.events, [event], From(horizon));
  }

  lemma NewEventTime(store: Store, s: Signal)
    ensures NewEvent(store, s).receivedAt == s.receivedAt
  {
  }

  /** Admission needs no order: for a call whose window lies above the horizon the limiter counts the same
      rows, so it decides the same and names the same wait. */
  lemma SameAdmission(full: Store, pruned: Store, jobs: set<nat>, horizon: Time, s: Signal)
    requires Mirrors(full, pruned, jobs, horizon) && horizon <= s.receivedAt - WINDOW
    ensures Recent(pruned.events, s.monitor, s.receivedAt) == Recent(full.events, s.monitor, s.receivedAt)
  {
    hide Agrees, Closed, Consistent;
    WhereNested(full.events, From(horizon), Within(s.monitor, s.receivedAt - WINDOW, s.receivedAt));
    WhereNested(pruned.events, From(horizon), Within(s.monitor, s.receivedAt - WINDOW, s.receivedAt));
  }

  /** The row that an event id finds, if it has been kept. */
  lemma SameReplay(full: Store, pruned: Store, jobs: set<nat>, horizon: Time, s: Signal)
    requires Mirrors(full, pruned, jobs, horizon)
    ensures var found := Existing(full, s);
            Existing(pruned, s) == if found.Some? && found.value in pruned.events then found else None
  {
    hide Closed, Agrees;
    AgreesUnique(full.events, pruned.events, jobs);
    if s.eventId != "" {
      var q := Labelled(s.monitor, s.eventId);
      forall e | e in full.events && q(e) ensures Newest(Where(full.events, q)) == Some(e) {
        EventIdFinds(full, e);
      }
      SingleRow(full.events, pruned.events, q);
    }
  }

  lemma SingleRow(full: Log, pruned: Log, q: JobEvent -> bool)
    requires UniqueIds(full) && UniqueIds(pruned) && forall e :: e in pruned ==> e in full
    requires forall e :: e in full && q(e) ==> Newest(Where(full, q)) == Some(e)
    ensures var found := Newest(Where(full, q));
            Newest(Where(pruned, q)) == if found.Some? && found.value in pruned then found else None
  {
    WhereUnique(full, q);
    WhereUnique(pruned, q);
    NewestCorrect(Where(full, q));
    NewestCorrect(Where(pruned, q));
    var found := Newest(Where(full, q));
    if found.Some? {
      assert found.value in Where(full, q);
      assert found.value in pruned ==> found.value in Where(pruned, q);
    }
  }

  /** The row a call would store is the same if and only if the START it claims, if any, has been kept. */
  lemma SameRowIff(full: Store, pruned: Store, jobs: set<nat>, horizon: Time, s: Signal)
    requires Mirrors(full, pruned, jobs, horizon) && s.monitor in jobs
    ensures var claimed := Claimed(full.events, s);
            NewEvent(pruned, s) == NewEvent(full, s) <==> claimed.None? || claimed.value in pruned.events
  {
    hide MatchingStart, Closed, Consistent, Prefix, Strip;
    AgreesUnique(full.events, pruned.events, jobs);
    if Terminal(s.eventType) {
      ClaimWhenClosed(full.events, pruned.events, jobs, s.monitor, OwnRun(s), s.receivedAt);
    }
  }

  /** Nothing the call needs has been deleted: the row with its event id, or else the rows of its window
      (which lies above the horizon) and the START that it claims. */
  ghost predicate Intact(full: Store, pruned: Store, s: Signal, jobs: set<nat>, horizon: Time) {
    match Existing(full, s)
    case Some(e) => e in pruned.events
    case None =>
      && s.monitor in jobs && horizon <= s.receivedAt - WINDOW
      && var claimed := Claimed(full.events, s);
         claimed.None? || claimed.value in pruned.events
  }

  lemma MirrorsAfterRecord(full: Store, pruned: Store, jobs: set<nat>, horizon: Time, s: Signal, limit: int)
    requires Mirrors(full, pruned, jobs, horizon) && Intact(full, pruned, s, jobs, horizon)
    ensures Record(pruned, s, limit).1 == Record(full, s, limit).1
    ensures Mirrors(Record(full, s, limit).0, Record(pruned, s, limit).0, jobs, horizon)
  {
    hide Agrees, Closed, Consistent, NewEvent, Existing, Claimed, Recent, Append, SamePayload, RetryAfter;
    SameReplay(full, pruned, jobs, horizon, s);
    if Existing(full, s).None? {
      SameAdmission(full, pruned, jobs, horizon, s);
      SameRowIff(full, pruned, jobs, horizon, s);
      RecordKeepsConsistent(full, s, limit);
      if Record(full, s, limit).1.Stored? {
        MirrorsAfterAppend(full, pruned, jobs, horizon, s);
      }
    }
  }

  /** The claim of an unlabelled call that arrives in order is always intact. */
  lemma InOrderIsIntact(full: Store, pruned: Store, s: Signal, jobs: set<nat>, horizon: Time)
    requires Mirrors(full, pruned, jobs, horizon) && s.monitor in jobs && InOrder(full.events, s)
    requires Existing(full, s).None? && Strip(s.runId) == "" && horizon <= s.receivedAt - WINDOW
    ensures Intact(full, pruned, s, jobs, horizon)
  {
    hide MatchingStart, Closed, Consistent, Existing, Strip;
    var claimed := Claimed(full.events, s);
    if Terminal(s.eventType) {
      AgreesUnique(full.events, pruned.events, jobs);
      MatchingStartIsUnmatched(full.events, s.monitor, s.receivedAt);
      assert claimed == UnmatchedStart(pruned.events, s.monitor);
      WhereUnique(pruned.events, StartsOf(s.monitor));
      NewestCorrect(Where(pruned.events, StartsOf(s.monitor)));
    }
  }

  datatype Step = Call(signal: Signal) | PruneStep(cutoff: Time)

  /** The tables and the answers after a run of calls and prunings, with pruning switched on or off. */
  function Served(store: Store, steps: seq<Step>, jobs: set<nat>, limit: int, pruning: bool): (Store, seq<Answer>) {
    if steps == [] then (store, [])
    else
      var (before, answers) := Served(store, steps[..|steps| - 1], jobs, limit, pruning);
      match steps[|steps| - 1]
      case Call(s) => (Record(before, s, limit).0, answers + [Record(before, s, limit).1])
      case PruneStep(cutoff) =>
        (if pruning then before.(events := Prune(before.events, jobs, cutoff)) else before, answers)
  }

  /** The highest cutoff used so far. */
  function Horizon(steps: seq<Step>, start: Time): Time {
    if steps == [] then start
    else
      var before := Horizon(steps[..|steps| - 1], start);
      match steps[|steps| - 1]
      case Call(_) => before
      case PruneStep(cutoff) => Max(before, cutoff)
  }

  /** Every call of the run is intact where it is made. */
  ghost predicate AllIntact(store: Store, steps: seq<Step>, jobs: set<nat>, limit: int, start: Time) {
    steps == [] || (
      var front := steps[..|steps| - 1];
      && AllIntact(store, front, jobs, limit, start)
      && (steps[|steps| - 1].Call? ==>
            Intact(Served(store, front, jobs, limit, false).0, Served(store, front, jobs, limit, true).0,
                   steps[|steps| - 1].signal, jobs, Horizon(front, start))))
  }

  /** Over a whole run of calls in any order of their times, replays included, with prunings anywhere
      between them: as long as nothing a call needs has been deleted, every call is answered as it would
      have been had nothing ever been pruned, with the same refusals and waits, and the same stored rows
      with the same claimed STARTs and durations. */
  lemma {:induction false} PruningChangesNoAnswer(store: Store, steps: seq<Step>, jobs: set<nat>, limit: int,
                                                  start: Time)
    requires Consistent(store) && AllIntact(store, steps, jobs, limit, start)
    ensures Served(store, steps, jobs, limit, true).1 == Served(store, steps, jobs, limit, false).1
    ensures Mirrors(Served(store, steps, jobs, limit, false).0, Served(store, steps, jobs, limit, true).0, jobs,
                    Horizon(steps, start))
  {
    if steps != [] {
      hide Mirrors, Intact, Record, Consistent;
      var front := steps[..|steps| - 1];
      PruningChangesNoAnswer(store, front, jobs, limit, start);
      var full, pruned := Served(store, front, jobs, limit, false).0, Served(store, front, jobs, limit, true).0;
      match steps[|steps| - 1]
      case Call(s) => MirrorsAfterRecord(full, pruned, jobs, Horizon(front, start), s, limit);
      case PruneStep(cutoff) => MirrorsAfterPrune(full, pruned, jobs, Horizon(front, start), cutoff);
    }
  }

  // ---- Runs of ordinary calls -------------------------------------------------------------------

  /** Conditions that can be tested on the calls themselves before any is made: each is for a JOB monitor
      and names no run; its time is not before the stored rows of its monitor nor before earlier calls for
      it; its event id is empty or new there; and its one-minute window lies above every cutoff applied
      before it. */
  ghost predicate Calm(store: Store, steps: seq<Step>, jobs: set<nat>, start: Time) {
    forall k :: 0 <= k < |steps| && steps[k].Call? ==>
      var s := steps[k].signal;
      && s.monitor in jobs && Strip(s.runId) == "" && Horizon(steps[..k], start) <= s.receivedAt - WINDOW
      && (forall e :: e in store.events && e.monitor == s.monitor ==>
            e.receivedAt <= s.receivedAt && (s.eventId != "" ==> e.eventId != s.eventId))
      && (forall j :: 0 <= j < k && steps[j].Call? && steps[j].signal.monitor == s.monitor ==>
            && steps[j].signal.receivedAt <= s.receivedAt
            && (s.eventId != "" ==> steps[j].signal.eventId != s.eventId))
  }

  /** Row e has the monitor, time and event id of some call of the run. */
  ghost predicate RowOfCall(steps: seq<Step>, e: JobEvent) {
    exists k :: 0 <= k < |steps| && steps[k].Call? && steps[k].signal.monitor == e.monitor
                && steps[k].signal.receivedAt == e.receivedAt && steps[k].signal.eventId == e.eventId
  }

  lemma RowOfFront(steps: seq<Step>, e: JobEvent)
    requires steps != [] && RowOfCall(steps[..|steps| - 1], e)
    ensures RowOfCall(steps, e)
  {
    var n := |steps| - 1;
    var k :| 0 <= k < n && steps[..n][k].Call? && steps[..n][k].signal.monitor == e.monitor
             && steps[..n][k].signal.receivedAt == e.receivedAt && steps[..n][k].signal.eventId == e.eventId;
    assert steps[k] == steps[..n][k];
  }

  /** Every row of the unpruned tables was there at the start or comes from a call. */
  lemma {:induction false} ServedRows(store: Store, steps: seq<Step>, jobs: set<nat>, limit: int)
    ensures forall e :: e in Served(store, steps, jobs, limit, false).0.events ==>
              e in store.events || RowOfCall(steps, e)
  {
    if steps != [] {
      hide RowOfCall, NewEvent, Existing, Recent;
      var n := |steps| - 1;
      ServedRows(store, steps[..n], jobs, limit);
      forall e | e in Served(store, steps, jobs, limit, false).0.events && e !in store.events
        ensures RowOfCall(steps, e)
      {
        var before := Served(store, steps[..n], jobs, limit, false).0;
        if e in before.events {
          RowOfFront(steps, e);
        } else {
          assert e == NewEvent(before, steps[n].signal);
          NewRowOfCall(before, steps);
        }
      }
    }
  }

  lemma NewRowOfCall(store: Store, steps: seq<Step>)
    requires steps != [] && steps[|steps| - 1].Call?
    ensures RowOfCall(steps, NewEvent(store, steps[|steps| - 1].signal))
  {
    assert steps[|steps| - 1].signal.monitor == NewEvent(store, steps[|steps| - 1].signal).monitor;
  }

  lemma CalmFront(store: Store, steps: seq<Step>, jobs: set<nat>, start: Time)
    requires Calm(store, steps, jobs, start) && steps != []
    ensures Calm(store, steps[..|steps| - 1], jobs, start)
  {
    hide Horizon;
    var front := steps[..|steps| - 1];
    assert forall k :: 0 <= k < |front| ==> front[..k] == steps[..k] && front[k] == steps[k];
  }

  /** Where it is made, the last call of a calm run arrives in order with a new event id. */
  lemma LastCallIsFresh(store: Store, steps: seq<Step>, jobs: set<nat>, limit: int, start: Time)
    requires Calm(store, steps, jobs, start) && steps != [] && steps[|steps| - 1].Call?
    ensures var n := |steps| - 1;
            var full, s := Served(store, steps[..n], jobs, limit, false).0, steps[n].signal;
            && InOrder(full.events, s) && Existing(full, s).None? && s.monitor in jobs && Strip(s.runId) == ""
            && Horizon(steps[..n], start) <= s.receivedAt - WINDOW
  {
    hide Served, Horizon, Strip;
    var n := |steps| - 1;
    var full, s := Served(store, steps[..n], jobs, limit, false).0, steps[n].signal;
    ServedRows(store, steps[..n], jobs, limit);
    forall e | e in full.events && e.monitor == s.monitor
      ensures e.receivedAt <= s.receivedAt && (s.eventId != "" ==> e.eventId != s.eventId)
    {
      if e !in store.events {
        var k :| 0 <= k < n && steps[..n][k].Call? && steps[..n][k].signal.monitor == e.monitor
                 && steps[..n][k].signal.receivedAt == e.receivedAt && steps[..n][k].signal.eventId == e.eventId;
        assert steps[k] == steps[..n][k];
      }
    }
    var labelled := Where(full.events, Labelled(s.monitor, s.eventId));
    assert labelled != [] ==> labelled[0] in labelled;
  }

  lemma {:induction false} CalmIsIntact(store: Store, steps: seq<Step>, jobs: set<nat>, limit: int, start: Time)
    requires Consistent(store) && Calm(store, steps, jobs, start)
    ensures AllIntact(store, steps, jobs, limit, start)
  {
    if steps != [] {
      hide Calm, Served, Intact, Mirrors, Horizon, Consistent;
      var front := steps[..|steps| - 1];
      CalmFront(store, steps, jobs, start);
      CalmIsIntact(store, front, jobs, limit, start);
      if steps[|steps| - 1].Call? {
        PruningChangesNoAnswer(store, front, jobs, limit, start);
        LastCallIsFresh(store, steps, jobs, limit, start);
        InOrderIsIntact(Served(store, front, jobs, limit, false).0, Served(store, front, jobs, limit, true).0,
                        steps[|steps| - 1].signal, jobs, Horizon(front, start));
      }
    }
  }

  /** The promise of pruning for ordinary calls: unlabelled calls in order with new event ids are answered,
      one by one, as if nothing had ever been pruned, wherever the prunings fall. */
  lemma PruningIsInvisible(store: Store, steps: seq<Step>, jobs: set<nat>, limit: int, start: Time)
    requires Consistent(store) && Calm(store, steps, jobs, start)
    ensures Served(store, steps, jobs, limit, true).1 == Served(store, steps, jobs, limit, false).1
  {
    hide Calm, AllIntact, Mirrors, Consistent;
    CalmIsIntact(store, steps, jobs, limit, start);
    PruningChangesNoAnswer(store, steps, jobs, limit, start);
  }
}
