/**
 The guarantees of signal ingestion over whole runs: the sliding-window bound, the exact meaning of
 Retry-After, convergence of retries, and START/terminal correlation.
 */
module SignalLaws {
  import opened Common
  import opened Text
  import opened JobEvents
  import opened Signals

  // ---- The sliding window ---------------------------------------------------------------------

  lemma WhereWeaker(rows: Log, p: JobEvent -> bool, q: JobEvent -> bool)
    requires forall e :: e in rows && p(e) ==> q(e)
    ensures |Where(rows, p)| <= |Where(rows, q)|
  {
    WhereNested(rows, q, p);
  }

  /** Rows of one monitor in the closed 60-second window that starts at x. */
  function InWindow(log: Log, m: nat, x: Time): nat { |Where(log, Within(m, x, x + 60_000_000))| }

  /** Every closed 60-second window, wherever it starts, holds at most `limit` rows of each monitor. */
  ghost predicate WindowBound(log: Log, limit: int) {
    forall m, x :: InWindow(log, m, x) <= Max(limit, 0)
  }

  /** The signal is not older than any stored row of its monitor. */
  ghost predicate InOrder(log: Log, s: Signal) {
    forall e :: e in log && e.monitor == s.monitor ==> e.receivedAt <= s.receivedAt
  }

  lemma WhereOne(e: JobEvent, p: JobEvent -> bool)
    ensures Where([e], p) == if p(e) then [e] else []
  {
    assert [e][..0] == [];
  }

  lemma InWindowAppend(log: Log, event: JobEvent, m: nat, x: Time)
    ensures InWindow(log + [event], m, x)
            == InWindow(log, m, x) + if event.monitor == m && x <= event.receivedAt <= x + WINDOW then 1 else 0
  {
    WhereAppend(log, [event], Within(m, x, x + WINDOW));
    WhereOne(event, Within(m, x, x + WINDOW));
  }

  /** Some closed 60-second window around r is already full. */
  ghost predicate Full(log: Log, m: nat, r: Time, limit: int) {
    exists x :: r - WINDOW <= x <= r && InWindow(log, m, x) >= limit
  }

  /** One more row breaks the bound exactly when some window around it was already full. */
  lemma AppendBreaksBoundIff(log: Log, event: JobEvent, limit: int)
    requires limit > 0 && WindowBound(log, limit)
    ensures !WindowBound(log + [event], limit) <==> Full(log, event.monitor, event.receivedAt, limit)
  {
    hide InWindow;
    forall m, x
      ensures InWindow(log + [event], m, x)
              == InWindow(log, m, x) + if event.monitor == m && x <= event.receivedAt <= x + WINDOW then 1 else 0
    {
      InWindowAppend(log, event, m, x);
    }
    if Full(log, event.monitor, event.receivedAt, limit) {
      var x :| event.receivedAt - WINDOW <= x <= event.receivedAt && InWindow(log, event.monitor, x) >= limit;
      assert InWindow(log + [event], event.monitor, x) > Max(limit, 0);
    }
  }

  /** The call stores a row although a window around it is already full: the limiter counts only the
      window that ends at the signal, and rows stored for later times escape it. */
  ghost predicate Overfills(store: Store, s: Signal, limit: int) {
    Record(store, s, limit).1.Stored? && Full(store.events, s.monitor, s.receivedAt, limit)
  }

  /** The exact condition for one call: whatever its time, it breaks the bound if and only if it overfills. */
  lemma RecordBreaksBoundIff(store: Store, s: Signal, limit: int)
    requires WindowBound(store.events, limit)
    ensures !WindowBound(Record(store, s, limit).0.events, limit) <==> Overfills(store, s, limit)
  {
    hide WindowBound, Full;
    if Record(store, s, limit).1.Stored? {
      AppendBreaksBoundIff(store.events, NewEvent(store, s), limit);
    }
  }

  lemma InOrderNeverOverfills(store: Store, s: Signal, limit: int)
    requires InOrder(store.events, s)
    ensures !Overfills(store, s, limit)
  {
    hide Append, NewEvent, RetryAfter, Existing;
    if Overfills(store, s, limit) {
      var x :| s.receivedAt - WINDOW <= x <= s.receivedAt && InWindow(store.events, s.monitor, x) >= limit;
      WhereWeaker(store.events, Within(s.monitor, x, x + WINDOW),
                  Within(s.monitor, s.receivedAt - WINDOW, s.receivedAt));
      assert false;
    }
  }

  /** In particular a call that arrives in order keeps the bound. */
  lemma RecordKeepsWindowBound(store: Store, s: Signal, limit: int)
    requires WindowBound(store.events, limit) && InOrder(store.events, s)
    ensures WindowBound(Record(store, s, limit).0.events, limit)
  {
    hide WindowBound, Overfills;
    RecordBreaksBoundIff(store, s, limit);
    InOrderNeverOverfills(store, s, limit);
  }

  lemma BoundStaysBroken(store: Store, s: Signal, limit: int)
    requires !WindowBound(store.events, limit)
    ensures !WindowBound(Record(store, s, limit).0.events, limit)
  {
    if Record(store, s, limit).1.Stored? {
      var m, x :| InWindow(store.events, m, x) > Max(limit, 0);
      InWindowAppend(store.events, NewEvent(store, s), m, x);
      assert InWindow(store.events + [NewEvent(store, s)], m, x) > Max(limit, 0);
    }
  }

  /** Call k of the run overfills. */
  ghost predicate OverfillsAt(store: Store, signals: seq<Signal>, limit: int, k: nat)
    requires k < |signals|
  {
    Overfills(Run(store, signals[..k], limit), signals[k], limit)
  }

  lemma OverfillsAtFront(store: Store, signals: seq<Signal>, limit: int)
    requires signals != []
    ensures var n := |signals| - 1;
            forall k :: 0 <= k < n ==>
              OverfillsAt(store, signals[..n], limit, k) == OverfillsAt(store, signals, limit, k)
  {
    hide Overfills, Run;
    var n := |signals| - 1;
    assert forall k :: 0 <= k < n ==> signals[..n][..k] == signals[..k];
  }

  /** The exact condition for a run with times in any order: the bound is broken if and only if some call
      of the run overfills. */
  lemma {:induction false} RunBreaksBoundIff(store: Store, signals: seq<Signal>, limit: int)
    requires WindowBound(store.events, limit)
    ensures !WindowBound(Run(store, signals, limit).events, limit)
            <==> exists k :: 0 <= k < |signals| && OverfillsAt(store, signals, limit, k)
  {
    hide WindowBound, OverfillsAt, Record;
    if signals != [] {
      var n := |signals| - 1;
      RunBreaksBoundIff(store, signals[..n], limit);
      OverfillsAtFront(store, signals, limit);
      LastCallBreaks(store, signals, limit);
    }
  }

  /** The last call of a run. */
  lemma LastCallBreaks(store: Store, signals: seq<Signal>, limit: int)
    requires signals != []
    ensures var n := |signals| - 1;
            !WindowBound(Run(store, signals, limit).events, limit)
            <==> !WindowBound(Run(store, signals[..n], limit).events, limit) || OverfillsAt(store, signals, limit, n)
  {
    hide WindowBound, Overfills, Record;
    var n := |signals| - 1;
    var before := Run(store, signals[..n], limit);
    if WindowBound(before.events, limit) {
      RecordBreaksBoundIff(before, signals[n], limit);
    } else {
      BoundStaysBroken(before, signals[n], limit);
    }
  }

  /** Times are non-decreasing for each monitor, starting from what the store already holds. */
  ghost predicate Chronological(store: Store, signals: seq<Signal>) {
    && (forall i :: 0 <= i < |signals| ==> InOrder(store.events, signals[i]))
    && (forall i, j :: (0 <= i < j < |signals| && signals[i].monitor == signals[j].monitor)
                       ==> signals[i].receivedAt <= signals[j].receivedAt)
  }

  /** Every row of the result was already stored or was added by a signal of the run. */
  lemma {:induction false} RunRows(store: Store, signals: seq<Signal>, limit: int)
    ensures forall e :: e in Run(store, signals, limit).events ==>
              e in store.events
              || exists i ::
                   0 <= i < |signals| && signals[i].monitor == e.monitor && signals[i].receivedAt == e.receivedAt
  {
    if signals != [] {
      var n := |signals| - 1;
      RunRows(store, signals[..n], limit);
      var before := Run(store, signals[..n], limit);
      forall e | e in Run(store, signals, limit).events && e !in store.events
        ensures exists i ::
                  0 <= i < |signals| && signals[i].monitor == e.monitor && signals[i].receivedAt == e.receivedAt
      {
        if e in before.events {
          var i :| 0 <= i < n && signals[..n][i].monitor == e.monitor && signals[..n][i].receivedAt == e.receivedAt;
          assert signals[i].monitor == e.monitor && signals[i].receivedAt == e.receivedAt;
        } else {
          assert signals[n].monitor == e.monitor && signals[n].receivedAt == e.receivedAt;
        }
      }
    }
  }

  /** The limiter's promise: over every chronological run the window bound is never broken. */
  lemma {:induction false} RunKeepsWindowBound(store: Store, signals: seq<Signal>, limit: int)
    requires WindowBound(store.events, limit) && Chronological(store, signals)
    ensures WindowBound(Run(store, signals, limit).events, limit)
  {
    if signals != [] {
      var n := |signals| - 1;
      RunKeepsWindowBound(store, signals[..n], limit);
      RunRows(store, signals[..n], limit);
      RecordKeepsWindowBound(Run(store, signals[..n], limit), signals[n], limit);
    }
  }

  /** From empty tables on nothing else is needed: in every chronological history every closed 60-second
      window of every monitor holds at most max_per_minute rows. */
  lemma HistoryKeepsWindowBound(monitors: map<nat, MonitorRow>, signals: seq<Signal>, limit: int)
    requires Chronological(Store([], monitors, 0), signals)
    ensures WindowBound(Run(Store([], monitors, 0), signals, limit).events, limit)
  {
    assert WindowBound([], limit) by {
      forall m, x ensures InWindow([], m, x) <= Max(limit, 0) {
      }
    }
    RunKeepsWindowBound(Store([], monitors, 0), signals, limit);
  }

  /** The order matters: a signal that took its time earlier but its lock later is counted in a window
      that does not yet contain the other, and two rows meet in one window under a limit of one. */
  lemma OutOfOrderBreaksBound(monitors: map<nat, MonitorRow>, m: nat, late: Signal, early: Signal)
    requires m in monitors && monitors[m].isJob && monitors[m].enabled
    requires late.monitor == early.monitor == m && late.eventId == early.eventId == ""
    requires early.receivedAt < late.receivedAt <= early.receivedAt + WINDOW
    ensures var after := Run(Store([], monitors, 0), [late, early], 1);
            |after.events| == 2 && !WindowBound(after.events, 1)
  {
    hide Record, Append, NewEvent, Recent, WindowBound, InWindow;
    var start := Store([], monitors, 0);
    var first := Append(start, late);
    QuietBefore(start, late, early);
    Appended(start, late);
    Appended(first, early);
    StoredWhenQuiet(start, late, 1);
    StoredWhenQuiet(first, early, 1);
    assert [late, early][..1] == [late] && [late][..0] == [];
    assert Run(start, [], 1) == start && Run(start, [late], 1) == first;
    assert Run(start, [late, early], 1) == Append(first, early);
    TwoInWindow(NewEvent(start, late), NewEvent(first, early));
    assert Append(first, early).events == [NewEvent(start, late), NewEvent(first, early)];
  }

  lemma Appended(store: Store, s: Signal)
    requires Accepts(store, s.monitor)
    ensures Append(store, s).events == store.events + [NewEvent(store, s)] && Accepts(Append(store, s), s.monitor)
    ensures NewEvent(store, s).monitor == s.monitor && NewEvent(store, s).receivedAt == s.receivedAt
  {
  }

  lemma StoredWhenQuiet(store: Store, s: Signal, limit: int)
    requires Accepts(store, s.monitor) && s.eventId == "" && |Recent(store.events, s.monitor, s.receivedAt)| < limit
    ensures Record(store, s, limit) == (Append(store, s), Stored(NewEvent(store, s)))
  {
  }

  /** The window of an earlier time does not contain the later row. */
  lemma QuietBefore(start: Store, late: Signal, early: Signal)
    requires Accepts(start, late.monitor) && start.events == [] && early.receivedAt < late.receivedAt
    ensures Accepts(Append(start, late), late.monitor)
    ensures Recent(start.events, late.monitor, late.receivedAt) == []
    ensures Recent(Append(start, late).events, early.monitor, early.receivedAt) == []
  {
    Appended(start, late);
    WhereOne(NewEvent(start, late), Within(early.monitor, early.receivedAt - WINDOW, early.receivedAt));
  }

  lemma TwoInWindow(a: JobEvent, b: JobEvent)
    requires a.monitor == b.monitor && b.receivedAt <= a.receivedAt <= b.receivedAt + WINDOW
    ensures !WindowBound([a, b], 1)
  {
    hide InWindow;
    assert [a, b] == [a] + [b] && [a] == [] + [a];
    InWindowAppend([], a, b.monitor, b.receivedAt);
    InWindowAppend([a], b, b.monitor, b.receivedAt);
    assert InWindow([a, b], b.monitor, b.receivedAt) > Max(1, 0);
  }

  // ---- Retry-After ----------------------------------------------------------------------------

  ghost predicate IsOldest(rows: Log, e: JobEvent) {
    e in rows && forall x :: x in rows ==> e.receivedAt <= x.receivedAt
  }

  lemma {:induction false} OldestCorrect(rows: Log)
    requires rows != []
    ensures Oldest(rows).Some? && IsOldest(rows, Oldest(rows).value)
  {
    var front, e := rows[..|rows| - 1], rows[|rows| - 1];
    assert rows == front + [e];
    if front != [] {
      OldestCorrect(front);
    }
  }

  /** The signal is refused for rate, not answered from an earlier row. */
  predicate Refused(store: Store, s: Signal, limit: int) {
    Record(store, s, limit).1.RateLimited?
  }

  function OfMonitor(m: nat): JobEvent -> bool {
    (e: JobEvent) => e.monitor == m
  }

  /** Two tables hold the same rows of one monitor, and both accept its signals. */
  ghost predicate SameMonitor(a: Store, b: Store, m: nat) {
    Accepts(a, m) && Accepts(b, m) && Where(a.events, OfMonitor(m)) == Where(b.events, OfMonitor(m))
  }

  lemma SameRecent(a: Store, b: Store, m: nat, r: Time)
    requires SameMonitor(a, b, m)
    ensures Recent(a.events, m, r) == Recent(b.events, m, r)
  {
    WhereNested(a.events, OfMonitor(m), Within(m, r - WINDOW, r));
    WhereNested(b.events, OfMonitor(m), Within(m, r - WINDOW, r));
  }

  /** The instant at which the oldest counted row is 60 seconds old. */
  function Opens(log: Log, m: nat, r: Time): Time
    requires Recent(log, m, r) != []
  {
    OldestCorrect(Recent(log, m, r));
    Oldest(Recent(log, m, r)).value.receivedAt + 60_000_000
  }

  /** While no row is added, the full window stays full exactly until its oldest row is 60 s old. */
  lemma FullUntilOpens(log: Log, m: nat, r: Time, later: Time, limit: int)
    requires limit > 0 && WindowBound(log, limit) && |Recent(log, m, r)| >= limit
    requires r <= later && forall e :: e in log && e.monitor == m ==> e.receivedAt <= r
    ensures |Recent(log, m, later)| >= limit <==> later <= Opens(log, m, r)
  {
    var recent := Recent(log, m, r);
    OldestCorrect(recent);
    var oldest := Oldest(recent).value;
    var p := Within(m, later - WINDOW, later);
    if later <= oldest.receivedAt + WINDOW {
      WhereWeaker(log, Within(m, r - WINDOW, r), p);
    } else {
      WhereWeaker(log, p, Within(m, oldest.receivedAt + 1, r));
      DropOldest(log, m, oldest, r);
      WhereWeaker(log, Within(m, oldest.receivedAt, r), Within(m, oldest.receivedAt, oldest.receivedAt + WINDOW));
      assert InWindow(log, m, oldest.receivedAt) <= limit;
    }
  }

  /** The answer is the whole number of seconds, at least one, that reaches the opening instant. */
  lemma RetryAfterReachesOpens(log: Log, m: nat, r: Time)
    requires Recent(log, m, r) != []
    ensures var n := RetryAfter(Recent(log, m, r), r);
            && 1 <= n <= 60
            && r + Seconds(n) >= Opens(log, m, r)
            && (n > 1 ==> r + Seconds(n - 1) < Opens(log, m, r))
  {
    OldestCorrect(Recent(log, m, r));
  }

  /** Retry-After is sharp. After a refusal at s with answer n, and no acceptance for that monitor
      since, a later fresh signal is refused exactly up to the instant the window opens; so every
      signal strictly later than s + n seconds is stored. */
  lemma RetryAfterSharp(store: Store, s: Signal, later: Store, retry: Signal, limit: int)
    requires limit > 0 && WindowBound(store.events, limit) && InOrder(store.events, s)
    requires Refused(store, s, limit) && SameMonitor(store, later, s.monitor)
    requires retry.monitor == s.monitor && retry.receivedAt >= s.receivedAt && Existing(later, retry).None?
    ensures Recent(store.events, s.monitor, s.receivedAt) != []
    ensures Refused(later, retry, limit) <==> retry.receivedAt <= Opens(store.events, s.monitor, s.receivedAt)
    ensures retry.receivedAt > s.receivedAt + Seconds(Record(store, s, limit).1.retryAfter)
            ==> Record(later, retry, limit).1.Stored?
  {
    FullUntilOpens(store.events, s.monitor, s.receivedAt, retry.receivedAt, limit);
    SameRecent(store, later, s.monitor, retry.receivedAt);
    RetryAfterReachesOpens(store.events, s.monitor, s.receivedAt);
  }

  /** Retrying exactly when told to is refused precisely when the wait was a whole number of seconds. */
  lemma RetryAtTheToldInstant(store: Store, s: Signal, later: Store, retry: Signal, limit: int)
    requires limit > 0 && WindowBound(store.events, limit) && InOrder(store.events, s)
    requires Refused(store, s, limit) && SameMonitor(store, later, s.monitor)
    requires retry.monitor == s.monitor && Existing(later, retry).None?
    requires retry.receivedAt == s.receivedAt + Seconds(Record(store, s, limit).1.retryAfter)
    ensures Recent(store.events, s.monitor, s.receivedAt) != []
    ensures var wait := Opens(store.events, s.monitor, s.receivedAt) - s.receivedAt;
            Refused(later, retry, limit) <==> wait > 0 && wait % 1_000_000 == 0
  {
    RetryAfterSharp(store, s, later, retry, limit);
    OldestCorrect(Recent(store.events, s.monitor, s.receivedAt));
  }

  /** Counting from just after a stored row counts at least one row fewer. */
  lemma DropOldest(rows: Log, m: nat, oldest: JobEvent, hi: Time)
    requires oldest in rows && oldest.monitor == m && oldest.receivedAt <= hi
    ensures |Where(rows, Within(m, oldest.receivedAt + 1, hi))| < |Where(rows, Within(m, oldest.receivedAt, hi))|
  {
    var p, q := Within(m, oldest.receivedAt + 1, hi), Within(m, oldest.receivedAt, hi);
    var front, e := rows[..|rows| - 1], rows[|rows| - 1];
    assert rows == front + [e];
    if oldest in front {
      DropOldest(front, m, oldest, hi);
    } else {
      WhereWeaker(front, p, q);
    }
  }

  // ---- Retries converge -----------------------------------------------------------------------

  /** A stored row with an event id stays the row that id finds, whatever is recorded afterwards. */
  lemma {:induction false} EventIdStays(store: Store, e: JobEvent, signals: seq<Signal>, limit: int)
    requires Consistent(store) && e in store.events && e.eventId != ""
    ensures Consistent(Run(store, signals, limit)) && e in Run(store, signals, limit).events
    ensures Newest(Where(Run(store, signals, limit).events, Labelled(e.monitor, e.eventId))) == Some(e)
  {
    RunKeepsConsistent(store, signals, limit);
    RowsSurvive(store, e, signals, limit);
    EventIdFinds(Run(store, signals, limit), e);
  }

  lemma EventIdFinds(store: Store, e: JobEvent)
    requires Consistent(store) && e in store.events && e.eventId != ""
    ensures Newest(Where(store.events, Labelled(e.monitor, e.eventId))) == Some(e)
  {
    var rows := Where(store.events, Labelled(e.monitor, e.eventId));
    assert e in rows;
    forall x | x in rows ensures x == e {
      var i :| 0 <= i < |store.events| && store.events[i] == x;
      var j :| 0 <= j < |store.events| && store.events[j] == e;
    }
    NewestAmongEqual(rows, e);
  }

  lemma NewestAmongEqual(rows: Log, e: JobEvent)
    requires rows != [] && forall x :: x in rows ==> x == e
    ensures Newest(rows) == Some(e)
  {
    assert rows[|rows| - 1] in rows;
    if |rows| > 1 {
      var front := rows[..|rows| - 1];
      forall x | x in front ensures x == e {
        assert x in rows;
      }
      NewestAmongEqual(front, e);
    } else {
      assert rows[..0] == [];
    }
  }

  lemma {:induction false} RowsSurvive(store: Store, e: JobEvent, signals: seq<Signal>, limit: int)
    requires e in store.events
    ensures e in Run(store, signals, limit).events
  {
    if signals != [] {
      RowsSurvive(store, e, signals[..|signals| - 1], limit);
    }
  }

  lemma {:induction false} MonitorsStayOpen(store: Store, m: nat, signals: seq<Signal>, limit: int)
    requires Accepts(store, m)
    ensures Accepts(Run(store, signals, limit), m)
  {
    if signals != [] {
      MonitorsStayOpen(store, m, signals[..|signals| - 1], limit);
    }
  }

  /** A verbatim retry: every field the client sends again, at a later time of arrival. */
  predicate RetryOf(retry: Signal, s: Signal) {
    && retry.monitor == s.monitor && retry.eventType == s.eventType && retry.eventId == s.eventId
    && retry.runId == s.runId && retry.exitCode == s.exitCode && retry.message == s.message
  }

  /** t says the same as s did when s became the stored row: same type and (cut) message, same exit code
      up to the two spellings of a clean SUCCESS, and no run id or the row's own. */
  predicate Repeats(t: Signal, s: Signal, row: JobEvent) {
    && t.eventType == s.eventType && Prefix(t.message, 500) == Prefix(s.message, 500)
    && (t.exitCode == s.exitCode || (s.eventType == SUCCESS && CleanExit(t.exitCode) && CleanExit(s.exitCode)))
    && (Strip(t.runId) == "" || Strip(t.runId) == row.runId)
  }

  /** An event id is settled for good by the signal that first used it: whatever follows, another signal
      with that id changes nothing, and is answered with the row if it repeats the first signal and with
      a conflict if it does not. */
  lemma EventIdIsSettled(store: Store, s: Signal, between: seq<Signal>, t: Signal, limit: int)
    requires Consistent(store) && s.eventId != "" && t.monitor == s.monitor && t.eventId == s.eventId
    requires Record(store, s, limit).1.Stored?
    ensures var (after, answer) := Record(store, s, limit);
            var now := Run(after, between, limit);
            Record(now, t, limit) == (now, if Repeats(t, s, answer.event) then Replayed(answer.event) else Conflict)
  {
    var (after, answer) := Record(store, s, limit);
    RecordKeepsConsistent(store, s, limit);
    EventIdStays(after, answer.event, between, limit);
    MonitorsStayOpen(after, s.monitor, between, limit);
  }

  /** In particular a verbatim retry is answered with the row that the signal created. */
  lemma RetryIsReplayed(store: Store, s: Signal, between: seq<Signal>, retry: Signal, limit: int)
    requires Consistent(store) && s.eventId != "" && RetryOf(retry, s)
    requires Record(store, s, limit).1.Stored?
    ensures var (after, answer) := Record(store, s, limit);
            var now := Run(after, between, limit);
            Record(now, retry, limit) == (now, Replayed(answer.event))
  {
    EventIdIsSettled(store, s, between, retry, limit);
  }

  /** The sequence without the listed positions. */
  function Without<T>(xs: seq<T>, dropped: set<nat>): seq<T> {
    if xs == [] then []
    else
      var front := Without(xs[..|xs| - 1], dropped);
      if |xs| - 1 in dropped then front else front + [xs[|xs| - 1]]
  }

  /** Call k of the run is a retry of its call j, which stored a row. */
  predicate Retries(store: Store, signals: seq<Signal>, limit: int, j: nat, k: nat) {
    && j < k < |signals| && signals[j].eventId != "" && RetryOf(signals[k], signals[j])
    && Answers(store, signals, limit)[j].Stored?
  }

  lemma {:induction false} AnswerAt(store: Store, signals: seq<Signal>, limit: int, j: nat)
    requires j < |signals|
    ensures Answers(store, signals, limit)[j] == Record(Run(store, signals[..j], limit), signals[j], limit).1
  {
    hide Record, Run;
    var n := |signals| - 1;
    if j < n {
      AnswerAt(store, signals[..n], limit, j);
      assert signals[..n][..j] == signals[..j];
    }
  }

  /** The run up to call k continues the run up to an earlier call j. */
  lemma RunThrough(store: Store, signals: seq<Signal>, limit: int, j: nat, k: nat)
    requires j < k <= |signals|
    ensures Run(store, signals[..k], limit)
            == Run(Record(Run(store, signals[..j], limit), signals[j], limit).0, signals[j + 1..k], limit)
  {
    hide Record;
    var first := signals[..j + 1];
    assert signals[..k] == first + signals[j + 1..k];
    RunSplit(store, first, signals[j + 1..k], limit);
    assert first[..j] == signals[..j] && first[j] == signals[j];
  }

  /** A retry in place: nothing changes, and the answer is the row of the call it repeats. */
  lemma RetryInPlace(store: Store, signals: seq<Signal>, limit: int, j: nat, k: nat)
    requires Consistent(store) && Retries(store, signals, limit, j, k)
    ensures var now := Run(store, signals[..k], limit);
            Record(now, signals[k], limit) == (now, Replayed(Answers(store, signals, limit)[j].event))
  {
    hide Record, RetryOf, Consistent, Run;
    AnswerAt(store, signals, limit, j);
    RunKeepsConsistent(store, signals[..j], limit);
    RetryIsReplayed(Run(store, signals[..j], limit), signals[j], signals[j + 1..k], signals[k], limit);
    RunThrough(store, signals, limit, j, k);
  }

  /** Each retry is answered with the row of the call it repeats. */
  lemma RetryAnswer(store: Store, signals: seq<Signal>, limit: int, j: nat, k: nat)
    requires Consistent(store) && Retries(store, signals, limit, j, k)
    ensures Answers(store, signals, limit)[k] == Replayed(Answers(store, signals, limit)[j].event)
  {
    hide Record, RetryOf, Consistent;
    RetryInPlace(store, signals, limit, j, k);
    AnswerAt(store, signals, limit, k);
  }

  /** Retries converge, however many there are and wherever they stand. Take any run and any set of its
      positions that hold retries of accepted signals: without them the run ends in the same tables and
      every other call gets the same answer. */
  lemma {:induction false} RetryLeavesNoTrace(store: Store, signals: seq<Signal>, retries: set<nat>, limit: int)
    requires Consistent(store)
    requires forall k :: k in retries && k < |signals| ==> exists j :: Retries(store, signals, limit, j, k)
    ensures Run(store, Without(signals, retries), limit) == Run(store, signals, limit)
    ensures Answers(store, Without(signals, retries), limit) == Without(Answers(store, signals, limit), retries)
  {
    hide Record, RetryOf, Consistent;
    if signals != [] {
      var n := |signals| - 1;
      var front := signals[..n];
      forall k | k in retries && k < n ensures exists j :: Retries(store, front, limit, j, k) {
        var j :| Retries(store, signals, limit, j, k);
        assert Retries(store, front, limit, j, k);
      }
      RetryLeavesNoTrace(store, front, retries, limit);
      assert Answers(store, signals, limit)[..n] == Answers(store, front, limit);
      var kept := Without(front, retries);
      if n in retries {
        var j :| Retries(store, signals, limit, j, n);
        RetryInPlace(store, signals, limit, j, n);
      } else {
        assert (kept + [signals[n]])[..|kept|] == kept;
      }
    }
  }

  // ---- Run correlation ------------------------------------------------------------------------

  /** All rows of the monitor have arrived by `now`. */
  ghost predicate ArrivedBy(log: Log, m: nat, now: Time) {
    forall e :: e in log && e.monitor == m ==> e.receivedAt <= now
  }

  /** The one START an unlabelled terminal arriving now would claim is the START that the evaluator,
      the pruner and the recovery view hold to be unmatched. */
  lemma MatchingStartIsUnmatched(log: Log, m: nat, now: Time)
    requires UniqueIds(log) && ArrivedBy(log, m, now)
    ensures MatchingStart(log, m, "", now) == UnmatchedStart(log, m)
  {
    var terminal, start := LatestTerminal(log, m), LatestStart(log, m);
    WhereCongruent(log, TerminalsUntil(m, now), TerminalsOf(m));
    var after := if terminal.Some? then Some(terminal.value.receivedAt) else None;
    var open := Where(log, StartsBetween(m, after, now));
    WhereUnique(log, StartsOf(m));
    WhereUnique(log, StartsBetween(m, after, now));
    NewestCorrect(Where(log, StartsOf(m)));
    NewestCorrect(open);
    if UnmatchedStart(log, m).Some? {
      assert start.value in open;
      NewestUnique(open, Newest(open), start);
    } else {
      forall x | x in open ensures x in Where(log, StartsOf(m)) {
      }
    }
  }

  lemma WhereUnique(log: Log, p: JobEvent -> bool)
    requires UniqueIds(log)
    ensures UniqueIds(Where(log, p))
  {
    if log != [] {
      var front, e := log[..|log| - 1], log[|log| - 1];
      WhereUnique(front, p);
      forall x | x in front ensures x.id != e.id {
        var i :| 0 <= i < |front| && front[i] == x;
        assert log[i].id != e.id;
      }
      forall x | x in Where(front, p) ensures x.id != e.id {
      }
    }
  }

  /** A terminal that arrives in order is the newest one and leaves no START unmatched. */
  lemma NewTerminalClosesRuns(log: Log, event: JobEvent)
    requires UniqueIds(log + [event]) && Terminal(event.eventType) && ArrivedBy(log, event.monitor, event.receivedAt)
    requires forall e :: e in log ==> e.id < event.id
    ensures LatestTerminal(log + [event], event.monitor) == Some(event)
    ensures UnmatchedStart(log + [event], event.monitor).None?
  {
    var m := event.monitor;
    WhereUnique(log + [event], TerminalsOf(m));
    var terminals := Where(log + [event], TerminalsOf(m));
    NewestCorrect(terminals);
    assert event in terminals;
    NewestUnique(terminals, Newest(terminals), Some(event));
    WhereUnique(log + [event], StartsOf(m));
    NewestCorrect(Where(log + [event], StartsOf(m)));
  }

  /** A stored terminal ends the run it claims: it carries that START's run id and the non-negative duration since,
      and whatever the schedule the evaluator then no longer reports the job as running. */
  lemma TerminalEndsRun(store: Store, s: Signal, mon: JobMonitor, now: Time)
    requires Consistent(store) && InOrder(store.events, s) && mon.id == s.monitor && Terminal(s.eventType)
    ensures var event := NewEvent(store, s);
            && LatestTerminal(store.events + [event], s.monitor) == Some(event)
            && UnmatchedStart(store.events + [event], s.monitor).None?
            && Evaluate(mon, store.events + [event], now).phase != STARTED
    ensures match Claimed(store.events, s)
            case Some(start) =>
              && start in store.events && start.eventType == START
              && NewEvent(store, s).runId == start.runId
              && NewEvent(store, s).duration == Some(s.receivedAt - start.receivedAt)
              && s.receivedAt >= start.receivedAt
            case None => NewEvent(store, s).duration == None
  {
    NewTerminalClosesRuns(store.events, NewEvent(store, s));
    ClaimedIsStart(store.events, s);
    NotRunning(mon, store.events + [NewEvent(store, s)], now);
  }

  lemma NotRunning(mon: JobMonitor, log: Log, now: Time)
    requires UnmatchedStart(log, mon.id).None?
    ensures Evaluate(mon, log, now).phase != STARTED
  {
  }

  lemma ClaimedIsStart(log: Log, s: Signal)
    requires UniqueIds(log)
    ensures var c := Claimed(log, s);
            c.Some? ==> && c.value in log && c.value.eventType == START && c.value.receivedAt <= s.receivedAt
                        && (OwnRun(s) != "" ==> c.value.runId == OwnRun(s))
  {
    var m := s.monitor;
    var runs := Where(log, StartsOfRun(m, OwnRun(s), s.receivedAt));
    var last := Newest(Where(log, TerminalsUntil(m, s.receivedAt)));
    var after := if last.Some? then Some(last.value.receivedAt) else None;
    var open := Where(log, StartsBetween(m, after, s.receivedAt));
    WhereUnique(log, StartsOfRun(m, OwnRun(s), s.receivedAt));
    WhereUnique(log, StartsBetween(m, after, s.receivedAt));
    NewestCorrect(runs);
    NewestCorrect(open);
  }

  /** A START is claimed by at most one unlabelled terminal: once any terminal has been stored at or
      after it, no later unlabelled terminal claims it. */
  lemma StartClaimedOnce(store: Store, first: Signal, between: seq<Signal>, second: Signal, start: JobEvent, limit: int)
    requires Consistent(store) && InOrder(store.events, first) && start in store.events
    requires Terminal(first.eventType) && Record(store, first, limit).1.Stored?
    requires start.monitor == first.monitor == second.monitor
    requires first.receivedAt <= second.receivedAt
    requires Terminal(second.eventType) && OwnRun(second) == ""
    ensures Claimed(Run(Record(store, first, limit).0, between, limit).events, second) != Some(start)
  {
    var (after, answer) := Record(store, first, limit);
    RecordKeepsConsistent(store, first, limit);
    RunKeepsConsistent(after, between, limit);
    RowsSurvive(after, answer.event, between, limit);
    var log := Run(after, between, limit).events;
    var until := TerminalsUntil(second.monitor, second.receivedAt);
    assert answer.event in Where(log, until);
    WhereUnique(log, until);
    NewestCorrect(Where(log, until));
    var last := Newest(Where(log, until)).value;
    assert last.receivedAt >= first.receivedAt >= start.receivedAt;
    var open := Where(log, StartsBetween(second.monitor, Some(last.receivedAt), second.receivedAt));
    WhereUnique(log, StartsBetween(second.monitor, Some(last.receivedAt), second.receivedAt));
    NewestCorrect(open);
  }
}
