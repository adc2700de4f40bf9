/**
 Runtime comparison against the source monitor and the repeated-observation acceptance gate
 (src/monitoring/parallel.py).
 */
module Parallel {
  import opened Common
  import opened Text
  import opened Ordering
  import Engine

  datatype Status =
    | Match
    | StateDifferent
    | LatencyDifferent
    | Missing
    | MonitorOnly
    | SourceUnknown
    | SourceDuplicate
    | SourceInvalid

  // ---- Snapshots --------------------------------------------------------------------------------

  /** raw["active"]: true or 1, false or 0, anything else. */
  datatype Active = IsActive | IsInactive | Unstated

  /** The JSON numbers after int() and float(); None where the conversion fails. */
  datatype Heartbeat = Heartbeat(status: Option<int>, ping: Option<real>)

  datatype Raw = Raw(name: string, active: Active, heartbeat: Option<Heartbeat>)

  datatype Snapshot = Snapshot(name: string, state: Engine.State, latency: Option<real>, known: bool)

  datatype Monitored = Monitored(state: Engine.State, responseMs: Option<real>)

  /** _number keeps non-negative numbers only. */
  function Number(x: Option<real>): Option<real> {
    if x.Some? && x.value >= 0.0 then x else None
  }

  function KumaState(status: int): Option<Engine.State> {
    if status == 0 then Some(Engine.DOWN)
    else if status == 1 then Some(Engine.UP)
    else if status == 2 then Some(Engine.UNKNOWN)
    else if status == 3 then Some(Engine.MAINTENANCE)
    else None
  }

  function Normalize(raw: Raw): Snapshot {
    var name := Strip(raw.name);
    if raw.active.IsInactive? then Snapshot(name, Engine.PAUSED, None, true)
    else if raw.heartbeat.None? then Snapshot(name, Engine.UNKNOWN, None, raw.active.IsActive?)
    else
      var h := raw.heartbeat.value;
      var state := KumaState(if h.status.Some? then h.status.value else -1);
      Snapshot(name, if state.Some? then state.value else Engine.UNKNOWN, Number(h.ping), state.Some?)
  }

  // ---- One comparison ---------------------------------------------------------------------------

  datatype Row = Row(
    name: string, status: Status, sourceState: Option<Engine.State>, monitorState: Option<Engine.State>,
    sourceLatency: Option<real>, monitorLatency: Option<real>, delta: Option<real>, within: Option<bool>)

  function Names(source: seq<Raw>): (r: seq<string>)
    ensures |r| == |source| && forall i :: 0 <= i < |r| ==> r[i] == Strip(source[i].name)
  {
    if source == [] then [] else Names(source[..|source| - 1]) + [Strip(source[|source| - 1].name)]
  }

  /** Counter(names)[name] > 1 */
  ghost predicate Repeated(names: seq<string>, name: string) {
    exists i, j :: 0 <= i < j < |names| && names[i] == name && names[j] == name
  }

  function Occurrences(names: seq<string>, name: string): nat {
    if names == [] then 0
    else Occurrences(names[..|names| - 1], name) + if names[|names| - 1] == name then 1 else 0
  }

  lemma {:induction false} OccurrencesPositive(names: seq<string>, name: string)
    ensures Occurrences(names, name) >= 1 <==> name in names
  {
    if names != [] {
      assert names == names[..|names| - 1] + [names[|names| - 1]];
      OccurrencesPositive(names[..|names| - 1], name);
    }
  }

  lemma {:induction false} OccurrencesRepeated(names: seq<string>, name: string)
    ensures Occurrences(names, name) > 1 <==> Repeated(names, name)
  {
    if names != [] {
      var n := |names| - 1;
      var front := names[..n];
      OccurrencesRepeated(front, name);
      OccurrencesPositive(front, name);
      if Repeated(front, name) {
        var i, j :| 0 <= i < j < |front| && front[i] == name && front[j] == name;
        assert names[i] == name && names[j] == name;
      }
      if names[n] == name && name in front {
        var i :| 0 <= i < n && front[i] == name;
        assert names[i] == name;
      }
      if Repeated(names, name) {
        var i, j :| 0 <= i < j < |names| && names[i] == name && names[j] == name;
        assert front[i] == name;
        if j < n {
          assert front[j] == name;
        }
      }
    }
  }

  function Abs(x: real): real { if x >= 0.0 then x else -x }

  /** None where either latency is absent. */
  function Delta(a: Option<real>, b: Option<real>): Option<real> {
    if a.Some? && b.Some? then Some(Abs(a.value - b.value)) else None
  }

  function Compared(s: Snapshot, m: Monitored, tolerance: real): Row {
    var latency := Number(m.responseMs);
    var delta := Delta(s.latency, latency);
    var within := if delta.Some? then Some(delta.value <= tolerance) else None;
    var status :=
      if !s.known then SourceUnknown
      else if s.state != m.state then StateDifferent
      else if within == Some(false) then LatencyDifferent
      else Match;
    Row(s.name, status, Some(s.state), Some(m.state), s.latency, latency, delta, within)
  }

  /** The record for one source monitor. */
  function SourceRow(source: seq<Raw>, current: map<string, Monitored>, tolerance: real, raw: Raw): Row {
    var s := Normalize(raw);
    if s.name == "" then Row("<unnamed>", SourceInvalid, Some(s.state), None, s.latency, None, None, None)
    else if Occurrences(Names(source), s.name) > 1 then
      Row(s.name, SourceDuplicate, Some(s.state), None, s.latency, None, None, None)
    else if s.name !in current then Row(s.name, Missing, Some(s.state), None, s.latency, None, None, None)
    else Compared(s, current[s.name], tolerance)
  }

  function OnlyRow(name: string, m: Monitored): Row {
    Row(name, MonitorOnly, None, Some(m.state), None, Number(m.responseMs), None, None)
  }

  /** The records of the monitors that the source lacks: each of them once, in the order of their names. */
  ghost predicate OnlyRows(missing: set<string>, current: map<string, Monitored>, rows: seq<Row>) {
    && (forall i :: 0 <= i < |rows| ==>
          rows[i].name in missing && rows[i].name in current && rows[i] == OnlyRow(rows[i].name, current[rows[i].name]))
    && Ascending(RowNames(rows))
    && (forall name :: name in missing ==> exists i :: 0 <= i < |rows| && rows[i].name == name)
  }

  function RowNames(rows: seq<Row>): (r: seq<string>)
    ensures |r| == |rows| && forall i :: 0 <= i < |r| ==> r[i] == rows[i].name
  {
    seq(|rows|, i requires 0 <= i < |rows| => rows[i].name)
  }

  /** The monitors whose name no named source monitor has. */
  function Unsourced(source: seq<Raw>, current: map<string, Monitored>): set<string> {
    set name | name in current && (name == "" || name !in Names(source))
  }

  /** The report: one record per source monitor in order, then one per monitor the source lacks. */
  ghost predicate IsReport(source: seq<Raw>, current: map<string, Monitored>, tolerance: real, rows: seq<Row>) {
    && |source| <= |rows|
    && (forall i :: 0 <= i < |source| ==> rows[i] == SourceRow(source, current, tolerance, source[i]))
    && OnlyRows(Unsourced(source, current), current, rows[|source|..])
  }

  method ReportUnsourced(missing: set<string>, current: map<string, Monitored>) returns (rows: seq<Row>)
    requires forall name :: name in missing ==> name in current
    ensures OnlyRows(missing, current, rows)
  {
    hide Less, Ascending;
    var names := Sort(missing);
    rows := [];
    for k := 0 to |names|
      invariant |rows| == k
      invariant forall i :: 0 <= i < k ==> names[i] in current && rows[i] == OnlyRow(names[i], current[names[i]])
    {
      assert names[k] in missing;
      rows := rows + [OnlyRow(names[k], current[names[k]])];
    }
    assert RowNames(rows) == names;
    forall name | name in missing ensures exists i :: 0 <= i < |rows| && rows[i].name == name {
      var i :| 0 <= i < |names| && names[i] == name;
      assert rows[i].name == name;
    }
  }

  /** What a comparison returns: its records, and how many have each status. */
  datatype Comparison = Comparison(tolerance: real, summary: Totals, compared: nat, rows: seq<Row>)

  /** compare_runtime_snapshots */
  method CompareSnapshots(source: seq<Raw>, current: map<string, Monitored>, tolerance: real)
    returns (r: Result<Comparison>)
    ensures tolerance < 0.0 ==> r == Raised
    ensures tolerance >= 0.0 ==>
              && r.Ok? && r.value.tolerance == tolerance && IsReport(source, current, tolerance, r.value.rows)
              && r.value.compared == |r.value.rows| && forall s :: r.value.summary[s] == CountRows(r.value.rows, s)
  {
    hide SourceRow, OnlyRows, CountRows;
    if tolerance < 0.0 {
      return Raised;
    }
    var rows: seq<Row> := [];
    for i := 0 to |source|
      invariant |rows| == i
      invariant forall k :: 0 <= k < i ==> rows[k] == SourceRow(source, current, tolerance, source[k])
    {
      rows := rows + [SourceRow(source, current, tolerance, source[i])];
    }
    var only := ReportUnsourced(Unsourced(source, current), current);
    assert (rows + only)[|source|..] == only;
    rows := rows + only;
    StatusListed();
    return Ok(Comparison(tolerance, map s | s in STATUS_ORDER :: CountRows(rows, s), |rows|, rows));
  }

  /** sum(1 for result in results if result["status"] == s) */
  function CountRows(rows: seq<Row>, s: Status): nat {
    if rows == [] then 0 else CountRows(rows[..|rows| - 1], s) + if rows[|rows| - 1].status == s then 1 else 0
  }

  /** The summary adds up to the number of records compared. */
  lemma {:induction false} SummaryAddsUp(rows: seq<Row>)
    ensures CountRows(rows, Match) + CountRows(rows, StateDifferent) + CountRows(rows, LatencyDifferent)
            + CountRows(rows, Missing) + CountRows(rows, MonitorOnly) + CountRows(rows, SourceUnknown)
            + CountRows(rows, SourceDuplicate) + CountRows(rows, SourceInvalid) == |rows|
  {
    if rows != [] {
      SummaryAddsUp(rows[..|rows| - 1]);
    }
  }

  // ---- What a matching report means ---------------------------------------------------------------

  predicate AllMatch(rows: seq<Row>) { forall i :: 0 <= i < |rows| ==> rows[i].status == Match }

  predicate DistinctNames(names: seq<string>) { forall i, j :: 0 <= i < j < |names| ==> names[i] != names[j] }

  /** The raw source record names this monitor state: the six pairs of Uptime Kuma and monitor states. */
  predicate Corresponds(raw: Raw, state: Engine.State) {
    || (raw.active == IsInactive && state == Engine.PAUSED)
    || (raw.active == IsActive && raw.heartbeat == None && state == Engine.UNKNOWN)
    || (raw.active != IsInactive && raw.heartbeat.Some?
        && (|| (raw.heartbeat.value.status == Some(0) && state == Engine.DOWN)
            || (raw.heartbeat.value.status == Some(1) && state == Engine.UP)
            || (raw.heartbeat.value.status == Some(2) && state == Engine.UNKNOWN)
            || (raw.heartbeat.value.status == Some(3) && state == Engine.MAINTENANCE)))
  }

  /** The latency the raw record measures: the non-negative ping of an active source monitor. */
  function Measured(raw: Raw): Option<real> {
    if raw.active != IsInactive && raw.heartbeat.Some? && raw.heartbeat.value.ping.Some?
       && raw.heartbeat.value.ping.value >= 0.0
    then raw.heartbeat.value.ping else None
  }

  /** Two measured latencies differ by the tolerance at most. */
  predicate Tolerated(raw: Raw, m: Monitored, tolerance: real) {
    Measured(raw).Some? && m.responseMs.Some? && m.responseMs.value >= 0.0 ==>
      -tolerance <= Measured(raw).value - m.responseMs.value <= tolerance
  }

  /** The two sides name the same state, and latencies within the tolerance if both are measured. */
  predicate Alike(raw: Raw, m: Monitored, tolerance: real) { Corresponds(raw, m.state) && Tolerated(raw, m, tolerance) }

  /** The source record names some state at all. */
  predicate NamesState(raw: Raw) { exists state :: Corresponds(raw, state) }

  lemma NormalizedState(raw: Raw, state: Engine.State)
    ensures Corresponds(raw, state) <==> Normalize(raw).known && Normalize(raw).state == state
    ensures Normalize(raw).latency == Measured(raw)
  {
    hide Strip;
  }

  /** The record of a usable source monitor that the monitor knows: source-unknown when the source names no
      state, state-different when it names another, latency-different when only the latencies are apart,
      match otherwise. */
  lemma ComparedStatus(raw: Raw, m: Monitored, tolerance: real)
    ensures var row := Compared(Normalize(raw), m, tolerance);
            && row.status == (if !NamesState(raw) then SourceUnknown
                              else if !Corresponds(raw, m.state) then StateDifferent
                              else if !Tolerated(raw, m, tolerance) then LatencyDifferent
                              else Match)
            && row.name == Strip(raw.name) && row.monitorState == Some(m.state)
            && row.sourceLatency == Measured(raw) && row.sourceState == Some(Normalize(raw).state)
            && (row.monitorLatency == if m.responseMs.Some? && m.responseMs.value >= 0.0 then m.responseMs else None)
            && (row.delta.Some? <==> Measured(raw).Some? && m.responseMs.Some? && m.responseMs.value >= 0.0)
            && (row.delta.Some? ==> row.within == Some(Tolerated(raw, m, tolerance)) && row.delta.value >= 0.0
                                    && (row.delta.value == Measured(raw).value - m.responseMs.value
                                        || row.delta.value == m.responseMs.value - Measured(raw).value))
  {
    hide Strip;
    NormalName(raw);
    forall state ensures Corresponds(raw, state) <==> Normalize(raw).known && Normalize(raw).state == state {
      NormalizedState(raw, state);
    }
    NormalizedState(raw, Normalize(raw).state);
    hide Normalize;
  }

  lemma NormalSource(raw: Raw)
    ensures Normalize(raw).latency == Measured(raw)
    ensures forall state :: Corresponds(raw, state) ==> Normalize(raw).state == state
    ensures !NamesState(raw) ==> Normalize(raw).state == Engine.UNKNOWN
  {
    hide Strip;
    forall state ensures Corresponds(raw, state) <==> Normalize(raw).known && Normalize(raw).state == state {
      NormalizedState(raw, state);
    }
    NormalizedState(raw, Normalize(raw).state);
  }

  /** The record of a monitor that the source lacks. */
  lemma OnlyRowFields(name: string, m: Monitored)
    ensures var row := OnlyRow(name, m);
            && row.name == name && row.status == MonitorOnly && row.sourceState == None && row.sourceLatency == None
            && row.monitorState == Some(m.state) && row.delta == None && row.within == None
            && (row.monitorLatency == if m.responseMs.Some? && m.responseMs.value >= 0.0 then m.responseMs else None)
  {
  }

  /** The status of every source record: invalid without a name, duplicate when its name occurs twice,
      missing when the monitor has no such name, and otherwise compared. */
  lemma RecordStatus(source: seq<Raw>, current: map<string, Monitored>, tolerance: real, i: nat)
    requires i < |source|
    ensures var row, name := SourceRow(source, current, tolerance, source[i]), Strip(source[i].name);
            && (row.status == SourceInvalid <==> name == "")
            && (name == "" ==> row.name == "<unnamed>")
            && (name != "" ==> row.name == name)
            && (row.status == SourceDuplicate <==>
                  name != "" && exists j :: 0 <= j < |source| && j != i && Strip(source[j].name) == name)
            && (row.status == Missing <==>
                  && name != "" && name !in current
                  && forall j :: 0 <= j < |source| && j != i ==> Strip(source[j].name) != name)
            && row.status != MonitorOnly
            && row.sourceLatency == Measured(source[i])
            && row.sourceState.Some?
            && (forall state :: Corresponds(source[i], state) ==> row.sourceState.value == state)
            && (!NamesState(source[i]) ==> row.sourceState.value == Engine.UNKNOWN)
            && (row.status == SourceInvalid || row.status == SourceDuplicate || row.status == Missing ==>
                  row.monitorState == None && row.monitorLatency == None && row.delta == None && row.within == None)
  {
    hide Strip, Compared, KumaState, Normalize, Occurrences, Repeated, Corresponds;
    var name := Strip(source[i].name);
    NormalName(source[i]);
    NormalSource(source[i]);
    OccurrencesRepeated(Names(source), name);
    RepeatedAt(source, i);
    if name != "" && name in current {
      ComparedStatus(source[i], current[name], tolerance);
    }
  }

  lemma RepeatedAt(source: seq<Raw>, i: nat)
    requires i < |source|
    ensures var name := Strip(source[i].name);
            Repeated(Names(source), name)
            <==> exists j :: 0 <= j < |source| && j != i && Strip(source[j].name) == name
  {
    hide Strip;
    var names, name := Names(source), Strip(source[i].name);
    if Repeated(names, name) {
      var j, k :| 0 <= j < k < |names| && names[j] == name && names[k] == name;
      assert Strip(source[if j == i then k else j].name) == name;
    }
    if exists j :: 0 <= j < |source| && j != i && Strip(source[j].name) == name {
      var j :| 0 <= j < |source| && j != i && Strip(source[j].name) == name;
      assert names[i] == name && names[j] == name;
    }
  }

  /** Same names on both sides, each once and none blank; each state known and equal; each pair of
      measured latencies within the tolerance. */
  ghost predicate Parity(source: seq<Raw>, current: map<string, Monitored>, tolerance: real) {
    && DistinctNames(Names(source)) && "" !in Names(source)
    && (forall name :: name in current <==> name in Names(source))
    && forall i :: 0 <= i < |source| ==>
         Alike(source[i], current[Names(source)[i]], tolerance)
  }

  /** One source record matches exactly when its name is usable and both sides agree. */
  ghost predicate Agreed(source: seq<Raw>, current: map<string, Monitored>, tolerance: real, raw: Raw) {
    var name := Strip(raw.name);
    && name != "" && !Repeated(Names(source), name) && name in current
    && Alike(raw, current[name], tolerance)
  }

  lemma RowMatchesIffAgreed(source: seq<Raw>, current: map<string, Monitored>, tolerance: real, raw: Raw)
    ensures SourceRow(source, current, tolerance, raw).status == Match <==> Agreed(source, current, tolerance, raw)
    ensures Agreed(source, current, tolerance, raw) ==>
              SourceRow(source, current, tolerance, raw).name == Strip(raw.name)
  {
    hide Names, Repeated, KumaState, Occurrences, Compared, Normalize, Strip, Tolerated, Corresponds;
    NormalName(raw);
    OccurrencesRepeated(Names(source), Strip(raw.name));
    if Strip(raw.name) in current {
      ComparedStatus(raw, current[Strip(raw.name)], tolerance);
    }
  }

  lemma DistinctIffNoneRepeated(names: seq<string>)
    ensures DistinctNames(names) <==> forall i :: 0 <= i < |names| ==> !Repeated(names, names[i])
  {
    if forall i :: 0 <= i < |names| ==> !Repeated(names, names[i]) {
      forall i, j | 0 <= i < j < |names| ensures names[i] != names[j] {
        assert !Repeated(names, names[i]);
      }
    }
  }

  lemma ParityIsAgreed(source: seq<Raw>, current: map<string, Monitored>, tolerance: real)
    requires Parity(source, current, tolerance)
    ensures forall i :: 0 <= i < |source| ==> Agreed(source, current, tolerance, source[i])
    ensures Unsourced(source, current) == {}
  {
    hide Repeated, KumaState, Alike;
    var names := Names(source);
    DistinctIffNoneRepeated(names);
    forall i | 0 <= i < |source| ensures Agreed(source, current, tolerance, source[i]) {
      assert names[i] in current && !Repeated(names, names[i]);
    }
  }

  lemma NormalName(raw: Raw)
    ensures Normalize(raw).name == Strip(raw.name)
  {
    hide Strip, KumaState;
  }

  lemma AgreedParts(source: seq<Raw>, current: map<string, Monitored>, tolerance: real, i: nat)
    requires i < |source| && Agreed(source, current, tolerance, source[i])
    ensures var name := Names(source)[i];
            && name != "" && name in current && !Repeated(Names(source), name)
            && Alike(source[i], current[name], tolerance)
  {
    hide Repeated, Alike, Names, Strip;
  }

  lemma AllSourced(source: seq<Raw>, current: map<string, Monitored>)
    requires Unsourced(source, current) == {}
    ensures forall name :: name in current ==> name in Names(source)
  {
    hide Names;
    assert forall name :: name in current ==> name !in Unsourced(source, current);
  }

  lemma AgreedIsParity(source: seq<Raw>, current: map<string, Monitored>, tolerance: real)
    requires forall i :: 0 <= i < |source| ==> Agreed(source, current, tolerance, source[i])
    requires Unsourced(source, current) == {}
    ensures Parity(source, current, tolerance)
  {
    hide Repeated, Alike, Agreed, Unsourced, Names;
    var names := Names(source);
    AllSourced(source, current);
    forall i | 0 <= i < |source|
      ensures names[i] != "" && names[i] in current && !Repeated(names, names[i])
      ensures names[i] in current && Alike(source[i], current[names[i]], tolerance)
    {
      AgreedParts(source, current, tolerance, i);
    }
    DistinctIffNoneRepeated(names);
  }

  /** A report is all matches exactly when source and monitor are at parity, and its records then carry
      the source's names. */
  lemma MatchingReportMeansParity(source: seq<Raw>, current: map<string, Monitored>, tolerance: real, rows: seq<Row>)
    requires IsReport(source, current, tolerance, rows)
    ensures AllMatch(rows) <==> Parity(source, current, tolerance)
    ensures AllMatch(rows) ==> RowNames(rows) == Names(source)
  {
    hide SourceRow, Agreed, Parity, Names;
    if Parity(source, current, tolerance) {
      ParityIsAgreed(source, current, tolerance);
    }
    if Unsourced(source, current) == {}
       && forall i :: 0 <= i < |source| ==> Agreed(source, current, tolerance, source[i]) {
      AgreedIsParity(source, current, tolerance);
    }
    forall i | 0 <= i < |source|
      ensures rows[i].status == Match <==> Agreed(source, current, tolerance, source[i])
      ensures rows[i].status == Match ==> rows[i].name == Strip(source[i].name)
    {
      RowMatchesIffAgreed(source, current, tolerance, source[i]);
    }
    var only := rows[|source|..];
    assert forall i :: |source| <= i < |rows| ==> rows[i] == only[i - |source|] && rows[i].status == MonitorOnly;
    assert forall i :: 0 <= i < |only| ==> only[i].name in Unsourced(source, current);
    assert |rows| > |source| ==> rows[|source|].status == MonitorOnly;
    if AllMatch(rows) {
      assert RowNames(rows) == Names(source);
    }
    if Unsourced(source, current) != {} {
      var name :| name in Unsourced(source, current);
      var i :| 0 <= i < |only| && only[i].name == name;
      assert rows[|source| + i].status == MonitorOnly;
    }
  }

  // ---- The acceptance gate ------------------------------------------------------------------------

  /** One entry of a report as read back from JSON; None for an unsupported status. */
  datatype Entry = Entry(name: string, status: Option<Status>)

  /** A report file: not an object, of another schema, or a list of entries. */
  datatype Report = NotAReport | Report(entries: seq<Entry>)

  datatype Observed = Observed(name: string, status: Status)

  predicate EntryOk(e: Entry) { Strip(e.name) != "" && e.status.Some? }

  predicate ReportOk(r: Report) {
    r.Report? && r.entries != [] && forall i :: 0 <= i < |r.entries| ==> EntryOk(r.entries[i])
  }

  function ReadEntry(e: Entry): Observed
    requires EntryOk(e)
  {
    Observed(Strip(e.name), e.status.value)
  }

  function Read(entries: seq<Entry>): (r: seq<Observed>)
    requires forall i :: 0 <= i < |entries| ==> EntryOk(entries[i])
    ensures |r| == |entries| && forall i :: 0 <= i < |r| ==> r[i] == ReadEntry(entries[i])
  {
    seq(|entries|, i requires 0 <= i < |entries| => ReadEntry(entries[i]))
  }

  function ReadBack(report: Report): Result<seq<Observed>> {
    if ReportOk(report) then Ok(Read(report.entries)) else Raised
  }

  /** _validate_comparison_report */
  method ValidateReport(report: Report) returns (r: Result<seq<Observed>>)
    ensures r == ReadBack(report)
  {
    if report.NotAReport? || report.entries == [] {
      return Raised;
    }
    var validated: seq<Observed> := [];
    for i := 0 to |report.entries|
      invariant |validated| == i
      invariant forall k :: 0 <= k < i ==> EntryOk(report.entries[k])
      invariant forall k :: 0 <= k < i ==> validated[k] == ReadEntry(report.entries[k])
    {
      var name := Strip(report.entries[i].name);
      if name == "" || report.entries[i].status.None? {
        return Raised;
      }
      validated := validated + [Observed(name, report.entries[i].status.value)];
    }
    assert validated == Read(report.entries);
    return Ok(validated);
  }

  /** A report can be read exactly when it is a report with records, each with a name that is not blank and a
      supported status; the names are then read without white space around them. */
  lemma ReadableExactly(r: Report)
    ensures ReadBack(r).Ok? <==>
              && r.Report? && |r.entries| > 0
              && forall i :: 0 <= i < |r.entries| ==> !Blank(r.entries[i].name) && r.entries[i].status != None
    ensures ReadBack(r).Ok? ==>
              && |ReadBack(r).value| == |r.entries|
              && forall i :: 0 <= i < |r.entries| ==>
                   && ReadBack(r).value[i].name == Strip(r.entries[i].name)
                   && Some(ReadBack(r).value[i].status) == r.entries[i].status
  {
    hide Strip, Blank;
    if r.Report? {
      forall i | 0 <= i < |r.entries| ensures Strip(r.entries[i].name) == "" <==> Blank(r.entries[i].name) {
        StripSpec(r.entries[i].name);
      }
    }
  }

  datatype Blocker =
    | DuplicateNames(observation: nat, names: set<string>)
    | CoverageDrift(observation: nat, missing: set<string>, added: set<string>)
    | Insufficient(collected: nat, required: int)
    | NonParity(total: nat)

  function NameSet(rows: seq<Observed>): set<string> { set i | 0 <= i < |rows| :: rows[i].name }

  predicate UniqueNames(rows: seq<Observed>) {
    forall i, j :: 0 <= i < j < |rows| ==> rows[i].name != rows[j].name
  }

  predicate Matching(rows: seq<Observed>) { forall i :: 0 <= i < |rows| ==> rows[i].status == Match }

  function CountStatus(rows: seq<Observed>, s: Status): nat {
    if rows == [] then 0 else CountStatus(rows[..|rows| - 1], s) + if rows[|rows| - 1].status == s then 1 else 0
  }

  /** Records with this status over all observations. */
  function Total(observations: seq<seq<Observed>>, s: Status): nat {
    if observations == [] then 0
    else Total(observations[..|observations| - 1], s) + CountStatus(observations[|observations| - 1], s)
  }

  const STATUS_ORDER: seq<Status> :=
    [Match, StateDifferent, LatencyDifferent, Missing, MonitorOnly, SourceUnknown, SourceDuplicate, SourceInvalid]

  lemma StatusListed()
    ensures forall s: Status :: s in STATUS_ORDER
  {
    forall s: Status ensures s in STATUS_ORDER {
      match s
      case Match => assert STATUS_ORDER[0] == s;
      case StateDifferent => assert STATUS_ORDER[1] == s;
      case LatencyDifferent => assert STATUS_ORDER[2] == s;
      case Missing => assert STATUS_ORDER[3] == s;
      case MonitorOnly => assert STATUS_ORDER[4] == s;
      case SourceUnknown => assert STATUS_ORDER[5] == s;
      case SourceDuplicate => assert STATUS_ORDER[6] == s;
      case SourceInvalid => assert STATUS_ORDER[7] == s;
    }
  }

  /** A counter with an entry for every status. */
  type Totals = t: map<Status, nat> | forall s: Status :: s in t
    witness (StatusListed(); map s | s in STATUS_ORDER :: 0)

  function Zero(): Totals {
    StatusListed();
    map s | s in STATUS_ORDER :: 0
  }

  /** sum(status_totals[s] for s in STATUS_ORDER if s != "match") */
  function NonMatching(t: Totals): nat {
    t[StateDifferent] + t[LatencyDifferent] + t[Missing] + t[MonitorOnly] + t[SourceUnknown]
    + t[SourceDuplicate] + t[SourceInvalid]
  }

  /** The names that occur more than once. */
  function Duplicates(rows: seq<Observed>): set<string> {
    set i, j | 0 <= i < j < |rows| && rows[i].name == rows[j].name :: rows[i].name
  }

  lemma DuplicatesEmpty(rows: seq<Observed>)
    ensures Duplicates(rows) == {} <==> UniqueNames(rows)
  {
    forall i, j | 0 <= i < j < |rows| && rows[i].name == rows[j].name ensures rows[i].name in Duplicates(rows) {
    }
  }

  /** What the k-th observation adds to the blockers. */
  function BlockersOf(rows: seq<Observed>, baseline: set<string>, k: nat): seq<Blocker> {
    (if Duplicates(rows) != {} then [DuplicateNames(k, Duplicates(rows))] else [])
    + (if NameSet(rows) != baseline then [CoverageDrift(k, baseline - NameSet(rows), NameSet(rows) - baseline)] else [])
  }

  function Blockers(observations: seq<seq<Observed>>, baseline: set<string>): seq<Blocker> {
    if observations == [] then []
    else
      Blockers(observations[..|observations| - 1], baseline)
      + BlockersOf(observations[|observations| - 1], baseline, |observations|)
  }

  /** An observation that counts towards parity. */
  predicate Clean(rows: seq<Observed>, baseline: set<string>) {
    UniqueNames(rows) && NameSet(rows) == baseline && Matching(rows)
  }

  function CleanCount(observations: seq<seq<Observed>>, baseline: set<string>): nat {
    if observations == [] then 0
    else
      CleanCount(observations[..|observations| - 1], baseline)
      + if Clean(observations[|observations| - 1], baseline) then 1 else 0
  }

  function DriftCount(observations: seq<seq<Observed>>, baseline: set<string>): nat {
    if observations == [] then 0
    else
      DriftCount(observations[..|observations| - 1], baseline)
      + if NameSet(observations[|observations| - 1]) != baseline then 1 else 0
  }

  lemma CountNext(rows: seq<Observed>, i: nat)
    requires i < |rows|
    ensures forall s ::
              CountStatus(rows[..i + 1], s) == CountStatus(rows[..i], s) + if rows[i].status == s then 1 else 0
  {
    assert rows[..i + 1][..i] == rows[..i];
  }

  lemma MatchingNext(rows: seq<Observed>, i: nat)
    requires i < |rows|
    ensures Matching(rows[..i + 1]) <==> Matching(rows[..i]) && rows[i].status == Match
  {
    assert rows[..i + 1] == rows[..i] + [rows[i]];
  }

  // ---- Counters per monitor -----------------------------------------------------------------------

  /** The counter of one monitor name. */
  datatype Counter = Counter(observations: nat, byStatus: Totals)

  type Counters = map<string, Counter>

  function CountName(rows: seq<Observed>, name: string): nat {
    if rows == [] then 0 else CountName(rows[..|rows| - 1], name) + if rows[|rows| - 1].name == name then 1 else 0
  }

  function CountFor(rows: seq<Observed>, name: string, s: Status): nat {
    if rows == [] then 0
    else
      var r := rows[|rows| - 1];
      CountFor(rows[..|rows| - 1], name, s) + if r.name == name && r.status == s then 1 else 0
  }

  /** The counter agrees with the records of the name. */
  ghost predicate Counted(c: Counter, rows: seq<Observed>, name: string) {
    c.observations == CountName(rows, name) && forall s :: c.byStatus[s] == CountFor(rows, name, s)
  }

  /** One counter for every name that occurs. */
  ghost predicate Describes(per: Counters, rows: seq<Observed>) {
    && (forall n :: n in per <==> CountName(rows, n) > 0)
    && forall n :: n in per ==> Counted(per[n], rows, n)
  }

  function CounterOf(per: Counters, name: string): Counter { if name in per then per[name] else Counter(0, Zero()) }

  function Plus(t: Totals, s: Status): Totals { t[s := t[s] + 1] }

  function Increased(c: Counter, s: Status): Counter { Counter(c.observations + 1, Plus(c.byStatus, s)) }

  function Bumped(per: Counters, r: Observed): Counters {
    per[r.name := Increased(CounterOf(per, r.name), r.status)]
  }

  lemma {:induction false} CountForWithin(rows: seq<Observed>, name: string, s: Status)
    ensures CountFor(rows, name, s) <= CountName(rows, name)
  {
    if rows != [] {
      CountForWithin(rows[..|rows| - 1], name, s);
    }
  }

  lemma CountsNext(rows: seq<Observed>, r: Observed)
    ensures forall n :: CountName(rows + [r], n) == CountName(rows, n) + if r.name == n then 1 else 0
    ensures forall n, s ::
              CountFor(rows + [r], n, s) == CountFor(rows, n, s) + if r.name == n && r.status == s then 1 else 0
  {
    assert (rows + [r])[..|rows|] == rows;
  }

  lemma CountedNext(c: Counter, rows: seq<Observed>, r: Observed)
    requires Counted(c, rows, r.name)
    ensures Counted(Increased(c, r.status), rows + [r], r.name)
  {
    hide CountName, CountFor;
    CountsNext(rows, r);
  }

  lemma CountedSame(c: Counter, rows: seq<Observed>, r: Observed, name: string)
    requires name != r.name
    ensures Counted(c, rows + [r], name) <==> Counted(c, rows, name)
  {
    hide CountName, CountFor;
    CountsNext(rows, r);
  }

  lemma CountedZero(rows: seq<Observed>, name: string)
    requires CountName(rows, name) == 0
    ensures Counted(Counter(0, Zero()), rows, name)
  {
    hide CountName, CountFor;
    forall s ensures CountFor(rows, name, s) == 0 {
      CountForWithin(rows, name, s);
    }
  }

  lemma DescribesNext(per: Counters, rows: seq<Observed>, r: Observed)
    requires Describes(per, rows)
    ensures Describes(Bumped(per, r), rows + [r])
  {
    hide CountName, CountFor, Counted, Increased;
    CountsNext(rows, r);
    if r.name !in per {
      CountedZero(rows, r.name);
    }
    CountedNext(CounterOf(per, r.name), rows, r);
    forall n | n in per && n != r.name ensures Counted(per[n], rows + [r], n) {
      CountedSame(per[n], rows, r, n);
    }
  }

  /** The totals have grown by the statuses of these records. */
  ghost predicate Grown(totals: Totals, after: Totals, rows: seq<Observed>) {
    forall s :: after[s] == totals[s] + CountStatus(rows, s)
  }

  lemma GrownNext(totals: Totals, after: Totals, rows: seq<Observed>, i: nat)
    requires i < |rows| && Grown(totals, after, rows[..i])
    ensures Grown(totals, Plus(after, rows[i].status), rows[..i + 1])
  {
    hide CountStatus;
    CountNext(rows, i);
  }

  /** What the inner loop has done after these records. */
  ghost predicate Done(totals: Totals, seen: seq<Observed>, rows: seq<Observed>, after: Totals,
                       counted: Counters, blocked: bool) {
    Grown(totals, after, rows) && Describes(counted, seen + rows) && (blocked <==> !Matching(rows))
  }

  lemma DoneNothing(totals: Totals, per: Counters, seen: seq<Observed>)
    requires Describes(per, seen)
    ensures Done(totals, seen, [], totals, per, false)
  {
    hide Describes;
    assert seen + [] == seen;
  }

  lemma DoneNext(totals: Totals, seen: seq<Observed>, rows: seq<Observed>, i: nat, after: Totals, counted: Counters,
                 blocked: bool)
    requires i < |rows| && Done(totals, seen, rows[..i], after, counted, blocked)
    ensures Done(totals, seen, rows[..i + 1], Plus(after, rows[i].status), Bumped(counted, rows[i]),
                 blocked || rows[i].status != Match)
  {
    hide Describes, Grown, Bumped, Plus;
    MatchingNext(rows, i);
    GrownNext(totals, after, rows, i);
    DescribesNext(counted, seen + rows[..i], rows[i]);
    assert seen + rows[..i] + [rows[i]] == seen + rows[..i + 1];
  }

  /** The inner loop of one observation: the running totals and counters, and whether some record is not a
      match. `seen` are the records of the observations before. */
  method CountRecords(rows: seq<Observed>, totals: Totals, per: Counters, ghost seen: seq<Observed>)
    returns (after: Totals, counted: Counters, blocked: bool)
    requires Describes(per, seen)
    ensures Grown(totals, after, rows)
    ensures Describes(counted, seen + rows)
    ensures blocked <==> !Matching(rows)
  {
    after, counted, blocked := totals, per, false;
    DoneNothing(totals, per, seen);
    for i := 0 to |rows|
      invariant Done(totals, seen, rows[..i], after, counted, blocked)
    {
      hide Done, Plus, Bumped;
      DoneNext(totals, seen, rows, i, after, counted, blocked);
      var status := rows[i].status;
      after := Plus(after, status);
      counted := Bumped(counted, rows[i]);
      if status != Match {
        blocked := true;
      }
    }
    assert rows[..|rows|] == rows;
  }

  /** The body of the loop: what the k-th observation contributes. */
  method Observe(rows: seq<Observed>, baseline: set<string>, k: nat, totals: Totals, per: Counters,
                 ghost seen: seq<Observed>)
    returns (added: seq<Blocker>, clean: bool, after: Totals, counted: Counters)
    requires Describes(per, seen)
    ensures added == BlockersOf(rows, baseline, k) && clean == Clean(rows, baseline)
    ensures Grown(totals, after, rows)
    ensures Describes(counted, seen + rows)
  {
    hide CountStatus, NameSet, Describes, Grown;
    var duplicates, names := Duplicates(rows), NameSet(rows);
    DuplicatesEmpty(rows);
    added := [];
    if duplicates != {} {
      added := added + [DuplicateNames(k, duplicates)];
    }
    if names != baseline {
      added := added + [CoverageDrift(k, baseline - names, names - baseline)];
    }
    var blocked;
    after, counted, blocked := CountRecords(rows, totals, per, seen);
    clean := duplicates == {} && !blocked && names == baseline;
  }

  /** The records of all observations, in order. */
  function AllRecords(observations: seq<seq<Observed>>): seq<Observed> {
    if observations == [] then []
    else AllRecords(observations[..|observations| - 1]) + observations[|observations| - 1]
  }

  ghost predicate IsTotal(totals: Totals, observations: seq<seq<Observed>>) {
    forall s :: totals[s] == Total(observations, s)
  }

  lemma TotalNext(totals: Totals, after: Totals, observations: seq<seq<Observed>>, k: nat)
    requires k < |observations| && IsTotal(totals, observations[..k]) && Grown(totals, after, observations[k])
    ensures IsTotal(after, observations[..k + 1])
  {
    assert observations[..k + 1][..k] == observations[..k];
  }

  /** What the loop has gathered from these observations. */
  ghost predicate Tallied(observations: seq<seq<Observed>>, baseline: set<string>, blockers: seq<Blocker>, parity: nat,
                          drift: nat, totals: Totals, per: Counters) {
    && blockers == Blockers(observations, baseline)
    && parity == CleanCount(observations, baseline) && drift == DriftCount(observations, baseline)
    && IsTotal(totals, observations) && Describes(per, AllRecords(observations))
  }

  lemma TalliedNothing(baseline: set<string>)
    ensures Tallied([], baseline, [], 0, 0, Zero(), map[])
  {
  }

  lemma TalliedNext(observations: seq<seq<Observed>>, k: nat, baseline: set<string>, blockers: seq<Blocker>,
                    parity: nat, drift: nat, totals: Totals, per: Counters, after: Totals, counted: Counters)
    requires k < |observations| && Tallied(observations[..k], baseline, blockers, parity, drift, totals, per)
    requires Grown(totals, after, observations[k])
    requires Describes(counted, AllRecords(observations[..k]) + observations[k])
    ensures var rows := observations[k];
            Tallied(observations[..k + 1], baseline, blockers + BlockersOf(rows, baseline, k + 1),
                    parity + (if Clean(rows, baseline) then 1 else 0),
                    drift + (if NameSet(rows) != baseline then 1 else 0),
                    after, counted)
  {
    hide BlockersOf, Clean, NameSet, CountStatus, Describes, IsTotal, Grown, Total;
    assert observations[..k + 1][..k] == observations[..k];
    TotalNext(totals, after, observations, k);
  }

  /** The loop over the observations. */
  method Tally(observations: seq<seq<Observed>>)
    returns (blockers: seq<Blocker>, parity: nat, drift: nat, totals: Totals, per: Counters)
    requires observations != []
    ensures Tallied(observations, NameSet(observations[0]), blockers, parity, drift, totals, per)
  {
    blockers, parity, drift, totals, per := [], 0, 0, Zero(), map[];
    var baseline := NameSet(observations[0]);
    TalliedNothing(baseline);
    for k := 0 to |observations|
      invariant Tallied(observations[..k], baseline, blockers, parity, drift, totals, per)
    {
      hide BlockersOf, Clean, NameSet, Blockers, CleanCount, DriftCount, IsTotal, Grown;
      var rows := observations[k];
      var added, clean, after, counted := Observe(rows, baseline, k + 1, totals, per, AllRecords(observations[..k]));
      TalliedNext(observations, k, baseline, blockers, parity, drift, totals, per, after, counted);
      blockers, totals, per := blockers + added, after, counted;
      if NameSet(rows) != baseline {
        drift := drift + 1;
      }
      if clean {
        parity := parity + 1;
      }
    }
    assert observations[..|observations|] == observations;
  }

  // ---- The wording of blockers --------------------------------------------------------------------

  /** sep.join(parts) */
  function Join(sep: string, parts: seq<string>): string {
    if parts == [] then ""
    else if |parts| == 1 then parts[0]
    else Join(sep, parts[..|parts| - 1]) + sep + parts[|parts| - 1]
  }

  function Numeral(n: int): string { if n < 0 then "-" + Decimal(-n) else Decimal(n) }

  const DUPLICATE_WORDS := "duplicate result names"

  function DuplicateText(k: nat, names: seq<string>): string {
    "observation-" + Decimal(k) + ": " + DUPLICATE_WORDS + ": " + Join(", ", names)
  }

  function DriftText(k: nat, missing: seq<string>, added: seq<string>): string {
    "observation-" + Decimal(k) + ": coverage drift ("
    + Join("; ", (if missing != [] then ["missing=" + Join(",", missing)] else [])
                 + (if added != [] then ["added=" + Join(",", added)] else []))
    + ")"
  }

  /** The text of a blocker, with its names in order. */
  ghost function Render(b: Blocker): string {
    match b
    case DuplicateNames(k, names) => DuplicateText(k, Sorted(names))
    case CoverageDrift(k, missing, added) => DriftText(k, Sorted(missing), Sorted(added))
    case Insufficient(collected, required) =>
      "insufficient observations: " + Decimal(collected) + " collected, " + Numeral(required) + " required"
    case NonParity(total) => "non-parity comparison results: " + Decimal(total)
  }

  predicate StandsAt(text: string, part: string, i: nat) { i + |part| <= |text| && text[i..i + |part|] == part }

  /** part in text */
  predicate Contains(text: string, part: string) { exists i :: 0 <= i <= |text| && StandsAt(text, part, i) }

  /** The last readiness test looks for these words in the text of every blocker. */
  ghost predicate NamesDuplicates(b: Blocker) { Contains(Render(b), DUPLICATE_WORDS) }

  /** It finds every blocker for duplicate names. */
  lemma DuplicatesAreNamed(k: nat, names: set<string>)
    ensures NamesDuplicates(DuplicateNames(k, names))
  {
    var head, tail := "observation-" + Decimal(k) + ": ", ": " + Join(", ", Sorted(names));
    var text := Render(DuplicateNames(k, names));
    assert text == head + DUPLICATE_WORDS + tail;
    assert StandsAt(text, DUPLICATE_WORDS, |head|);
  }

  /** The texts, spelled out: names are listed in order, and of a drift only the sides that are not empty. */
  lemma BlockerTexts(a: string, b: string)
    ensures DuplicateText(2, [a, b]) == "observation-" + "2" + ": " + "duplicate result names" + ": " + (a + ", " + b)
    ensures DriftText(2, [a, b], []) == "observation-" + "2" + ": coverage drift (" + ("missing=" + (a + "," + b)) + ")"
    ensures DriftText(2, [], [a]) == "observation-" + "2" + ": coverage drift (" + ("added=" + a) + ")"
    ensures DriftText(2, [a], [b])
            == "observation-" + "2" + ": coverage drift (" + (("missing=" + a) + "; " + ("added=" + b)) + ")"
    ensures Render(Insufficient(1, 3)) == "insufficient observations: " + "1" + " collected, " + "3" + " required"
    ensures Render(NonParity(4)) == "non-parity comparison results: " + "4"
  {
    assert Decimal(1) == "1" && Decimal(2) == "2" && Decimal(3) == "3" && Decimal(4) == "4";
    JoinTwo(", ", a, b);
    JoinTwo(",", a, b);
    JoinTwo("; ", "missing=" + a, "added=" + b);
    assert ["missing=" + (a + "," + b)] + [] == ["missing=" + (a + "," + b)];
    assert [] + ["added=" + a] == ["added=" + a];
    assert ["missing=" + a] + ["added=" + b] == ["missing=" + a, "added=" + b];
  }

  lemma JoinTwo(sep: string, a: string, b: string)
    ensures Join(sep, [a, b]) == a + sep + b && Join(sep, [a]) == a && Join(sep, []) == ""
  {
    assert [a, b][..1] == [a];
  }

  method RenderAll(blockers: seq<Blocker>) returns (texts: seq<string>)
    ensures |texts| == |blockers| && forall i :: 0 <= i < |texts| ==> texts[i] == Render(blockers[i])
  {
    hide DuplicateText, DriftText, Numeral;
    texts := [];
    for k := 0 to |blockers|
      invariant |texts| == k
      invariant forall i :: 0 <= i < k ==> texts[i] == Render(blockers[i])
    {
      var text: string;
      match blockers[k] {
        case DuplicateNames(k, names) =>
          var sorted := Sort(names);
          text := DuplicateText(k, sorted);
        case CoverageDrift(k, missing, added) =>
          var gone := Sort(missing);
          var extra := Sort(added);
          text := DriftText(k, gone, extra);
        case Insufficient(collected, required) =>
          text := "insufficient observations: " + Decimal(collected) + " collected, " + Numeral(required) + " required";
        case NonParity(total) =>
          text := "non-parity comparison results: " + Decimal(total);
      }
      texts := texts + [text];
    }
  }

  datatype MonitorSummary = MonitorSummary(name: string, counter: Counter)

  /** One summary for each name that occurs, in the order of the names. */
  ghost predicate Summarizes(summaries: seq<MonitorSummary>, rows: seq<Observed>) {
    && (forall i, j :: 0 <= i < j < |summaries| ==> Less(summaries[i].name, summaries[j].name))
    && (forall n :: CountName(rows, n) > 0 <==> exists i :: 0 <= i < |summaries| && summaries[i].name == n)
    && (forall i :: 0 <= i < |summaries| ==> Counted(summaries[i].counter, rows, summaries[i].name))
  }

  /** The loop over the sorted names. */
  method Summarize(per: Counters, ghost rows: seq<Observed>) returns (summaries: seq<MonitorSummary>)
    requires Describes(per, rows)
    ensures Summarizes(summaries, rows)
  {
    hide Less, CountName, Counted;
    var names := Sort(per.Keys);
    summaries := [];
    for k := 0 to |names|
      invariant |summaries| == k
      invariant forall i :: 0 <= i < k ==> names[i] in per && summaries[i] == MonitorSummary(names[i], per[names[i]])
    {
      assert names[k] in per.Keys;
      summaries := summaries + [MonitorSummary(names[k], per[names[k]])];
    }
    forall n ensures CountName(rows, n) > 0 <==> exists i :: 0 <= i < |summaries| && summaries[i].name == n {
      assert n in per.Keys <==> n in names;
      if n in names {
        var i :| 0 <= i < |names| && names[i] == n;
        assert summaries[i].name == n;
      }
    }
  }

  datatype Acceptance = Acceptance(
    ready: bool, blockers: seq<Blocker>, observationCount: nat, parityObservations: nat,
    driftObservations: nat, totals: Totals)

  /** The whole answer of the gate. */
  datatype Assessment = Assessment(
    acceptance: Acceptance, blockerTexts: seq<string>, monitorCount: nat, nonParityObservations: int,
    monitors: seq<MonitorSummary>)

  /** evaluate_parallel_series */
  method EvaluateSeries(reports: seq<Report>, minimum: int) returns (r: Result<Assessment>)
    ensures r.Ok? <==> minimum >= 1 && reports != [] && AllOk(reports)
    ensures r.Ok? ==>
              var a, observations := r.value.acceptance, Observations(reports);
              && a == Assessed(observations, minimum, a.totals, b => NamesDuplicates(b))
              && (forall s :: a.totals[s] == Total(observations, s))
              && |r.value.blockerTexts| == |a.blockers|
              && (forall i :: 0 <= i < |a.blockers| ==> r.value.blockerTexts[i] == Render(a.blockers[i]))
              && r.value.monitorCount == |NameSet(observations[0])|
              && r.value.nonParityObservations == a.observationCount - a.parityObservations >= 0
              && Summarizes(r.value.monitors, AllRecords(observations))
    ensures r.Ok? && r.value.acceptance.ready <==> Opens(reports, minimum)
    ensures r.Ok? ==> (r.value.acceptance.ready <==> r.value.acceptance.blockers == [])
  {
    hide Acceptable, Blockers, NonMatching, CleanCount, DriftCount, Total, Describes, Summarizes, NameSet, Render,
         Contains;
    if minimum < 1 || reports == [] {
      return Raised;
    }
    var read := ReadReports(reports);
    if read.Raised? {
      return Raised;
    }
    var observations := read.value;
    var blockers, parity, drift, totals, per := Tally(observations);
    var count := |observations|;
    if count < minimum {
      blockers := blockers + [Insufficient(count, minimum)];
    }
    if NonMatching(totals) != 0 {
      blockers := blockers + [NonParity(NonMatching(totals))];
    }
    assert blockers == AllBlockers(observations, minimum, totals);
    ReadyIffNoBlockersIffAcceptable(observations, minimum, totals, b => NamesDuplicates(b));
    CleanCountAll(observations, NameSet(observations[0]));
    var texts := RenderAll(blockers);
    var named := exists i :: 0 <= i < |texts| && Contains(texts[i], DUPLICATE_WORDS);
    assert named <==> exists i :: 0 <= i < |blockers| && NamesDuplicates(blockers[i]);
    var ready := count >= minimum && parity == count && drift == 0 && NonMatching(totals) == 0 && !named;
    var monitors := Summarize(per, AllRecords(observations));
    return Ok(Assessment(Acceptance(ready, blockers, count, parity, drift, totals), texts,
                         |NameSet(observations[0])|, count - parity, monitors));
  }

  /** Every report validated in turn; the first bad one raises. */
  method ReadReports(reports: seq<Report>) returns (r: Result<seq<seq<Observed>>>)
    ensures r == if AllOk(reports) then Ok(Observations(reports)) else Raised
  {
    hide ReportOk, Read;
    var observations: seq<seq<Observed>> := [];
    for k := 0 to |reports|
      invariant |observations| == k
      invariant forall i :: 0 <= i < k ==> ReportOk(reports[i]) && Ok(observations[i]) == ReadBack(reports[i])
    {
      var rows := ValidateReport(reports[k]);
      if rows.Raised? {
        return Raised;
      }
      observations := observations + [rows.value];
    }
    assert observations == Observations(reports);
    return Ok(observations);
  }

  predicate AllOk(reports: seq<Report>) { forall i :: 0 <= i < |reports| ==> ReportOk(reports[i]) }

  function Observations(reports: seq<Report>): (r: seq<seq<Observed>>)
    requires AllOk(reports)
    ensures |r| == |reports| && forall i :: 0 <= i < |r| ==> r[i] == Read(reports[i].entries)
  {
    seq(|reports|, i requires 0 <= i < |reports| => Read(reports[i].entries))
  }

  function AllBlockers(observations: seq<seq<Observed>>, minimum: int, totals: Totals): seq<Blocker>
    requires observations != []
  {
    Blockers(observations, NameSet(observations[0]))
    + (if |observations| < minimum then [Insufficient(|observations|, minimum)] else [])
    + (if NonMatching(totals) != 0 then [NonParity(NonMatching(totals))] else [])
  }

  function Assessed(observations: seq<seq<Observed>>, minimum: int, totals: Totals, says: Blocker -> bool): Acceptance
    requires observations != []
  {
    var baseline, blockers := NameSet(observations[0]), AllBlockers(observations, minimum, totals);
    var parity, drift := CleanCount(observations, baseline), DriftCount(observations, baseline);
    Acceptance(
      |observations| >= minimum && parity == |observations| && drift == 0 && NonMatching(totals) == 0
        && !(exists i :: 0 <= i < |blockers| && says(blockers[i])),
      blockers, |observations|, parity, drift, totals)
  }

  // ---- The gate means what it says ----------------------------------------------------------------

  /** Enough observations, every record a match, names unique in each, and one unchanging name set. */
  predicate Acceptable(observations: seq<seq<Observed>>, minimum: int)
    requires observations != []
  {
    && |observations| >= minimum
    && forall i :: 0 <= i < |observations| ==> Clean(observations[i], NameSet(observations[0]))
  }

  /** The series can be evaluated and is acceptable. */
  predicate Opens(reports: seq<Report>, minimum: int) {
    minimum >= 1 && reports != [] && AllOk(reports) && Acceptable(Observations(reports), minimum)
  }

  lemma {:induction false} CleanCountAll(observations: seq<seq<Observed>>, baseline: set<string>)
    ensures CleanCount(observations, baseline) <= |observations|
    ensures CleanCount(observations, baseline) == |observations|
            <==> forall i :: 0 <= i < |observations| ==> Clean(observations[i], baseline)
  {
    if observations != [] {
      hide Clean;
      CleanCountAll(observations[..|observations| - 1], baseline);
    }
  }

  /** Names unique and the name set unchanged. */
  predicate Covered(rows: seq<Observed>, baseline: set<string>) { UniqueNames(rows) && NameSet(rows) == baseline }

  lemma NoBlockersOf(rows: seq<Observed>, baseline: set<string>, k: nat)
    ensures BlockersOf(rows, baseline, k) == [] <==> Covered(rows, baseline)
  {
    hide UniqueNames, Duplicates, NameSet;
    DuplicatesEmpty(rows);
  }

  lemma {:induction false} NoBlockers(observations: seq<seq<Observed>>, baseline: set<string>)
    ensures Blockers(observations, baseline) == []
            <==> forall i :: 0 <= i < |observations| ==> Covered(observations[i], baseline)
  {
    if observations != [] {
      hide Covered, BlockersOf;
      NoBlockers(observations[..|observations| - 1], baseline);
      NoBlockersOf(observations[|observations| - 1], baseline, |observations|);
    }
  }

  lemma {:induction false} NoDrift(observations: seq<seq<Observed>>, baseline: set<string>)
    requires forall i :: 0 <= i < |observations| ==> Covered(observations[i], baseline)
    ensures DriftCount(observations, baseline) == 0
  {
    if observations != [] {
      hide UniqueNames, NameSet;
      NoDrift(observations[..|observations| - 1], baseline);
    }
  }

  lemma {:induction false} CountStatusZero(rows: seq<Observed>, s: Status)
    ensures CountStatus(rows, s) == 0 <==> forall i :: 0 <= i < |rows| ==> rows[i].status != s
  {
    if rows != [] {
      CountStatusZero(rows[..|rows| - 1], s);
    }
  }

  lemma {:induction false} TotalZero(observations: seq<seq<Observed>>, s: Status)
    ensures Total(observations, s) == 0
            <==> forall i :: 0 <= i < |observations| ==> CountStatus(observations[i], s) == 0
  {
    if observations != [] {
      hide CountStatus;
      TotalZero(observations[..|observations| - 1], s);
    }
  }

  lemma NonMatchingZero(observations: seq<seq<Observed>>, totals: Totals)
    requires forall s :: totals[s] == Total(observations, s)
    ensures NonMatching(totals) == 0 <==> forall i :: 0 <= i < |observations| ==> Matching(observations[i])
  {
    hide Total, CountStatus;
    forall s: Status
      ensures totals[s] == 0 <==> forall i :: 0 <= i < |observations| ==> CountStatus(observations[i], s) == 0
    {
      TotalZero(observations, s);
    }
    forall i, s: Status | 0 <= i < |observations|
      ensures CountStatus(observations[i], s) == 0
              <==> forall k :: 0 <= k < |observations[i]| ==> observations[i][k].status != s
    {
      CountStatusZero(observations[i], s);
    }
    assert NonMatching(totals) == 0 <==> forall s: Status :: s != Match ==> totals[s] == 0;
  }

  predicate Twice(rows: seq<Observed>, name: string) {
    exists i, j :: 0 <= i < j < |rows| && rows[i].name == name && rows[j].name == name
  }

  /** A blocker for duplicate names stands in the list exactly for the observations, counted from one, that
      repeat a name, and lists the names they repeat. */
  lemma {:induction false} DuplicateListed(observations: seq<seq<Observed>>, baseline: set<string>, k: nat,
                                           names: set<string>)
    ensures DuplicateNames(k, names) in Blockers(observations, baseline)
            <==> 1 <= k <= |observations| && names != {}
                 && forall n :: n in names <==> Twice(observations[k - 1], n)
  {
    if observations != [] {
      hide NameSet;
      var n := |observations|;
      DuplicateListed(observations[..n - 1], baseline, k, names);
      DuplicateListedAt(observations[n - 1], baseline, n, k, names);
      hide Twice, BlockersOf;
      assert 1 <= k < n ==> observations[..n - 1][k - 1] == observations[k - 1];
    }
  }

  lemma DuplicateListedAt(rows: seq<Observed>, baseline: set<string>, n: nat, k: nat, names: set<string>)
    ensures DuplicateNames(k, names) in BlockersOf(rows, baseline, n)
            <==> k == n && names != {} && forall x :: x in names <==> Twice(rows, x)
  {
    hide NameSet;
    assert forall x :: x in Duplicates(rows) <==> Twice(rows, x);
    if forall x :: x in names <==> Twice(rows, x) {
      assert names == Duplicates(rows);
    }
  }

  /** The names of the baseline that the observation lacks, and those it adds; not both none. */
  predicate Drifts(rows: seq<Observed>, baseline: set<string>, missing: set<string>, added: set<string>) {
    && missing == baseline - NameSet(rows) && added == NameSet(rows) - baseline
    && (missing != {} || added != {})
  }

  /** And one for coverage drift exactly for those whose names differ from the baseline. */
  lemma {:induction false} DriftListed(observations: seq<seq<Observed>>, baseline: set<string>, k: nat,
                                       missing: set<string>, added: set<string>)
    ensures CoverageDrift(k, missing, added) in Blockers(observations, baseline)
            <==> 1 <= k <= |observations| && Drifts(observations[k - 1], baseline, missing, added)
  {
    hide Drifts, BlockersOf;
    if observations != [] {
      var n := |observations|;
      DriftListed(observations[..n - 1], baseline, k, missing, added);
      DriftListedAt(observations[n - 1], baseline, n, k, missing, added);
      assert 1 <= k < n ==> observations[..n - 1][k - 1] == observations[k - 1];
    }
  }

  lemma DriftListedAt(rows: seq<Observed>, baseline: set<string>, n: nat, k: nat, missing: set<string>,
                      added: set<string>)
    ensures CoverageDrift(k, missing, added) in BlockersOf(rows, baseline, n)
            <==> k == n && Drifts(rows, baseline, missing, added)
  {
    hide NameSet, Duplicates;
    DifferIff(NameSet(rows), baseline);
  }

  lemma DifferIff(a: set<string>, b: set<string>)
    ensures a != b <==> b - a != {} || a - b != {}
  {
    if b - a == {} && a - b == {} {
      forall x ensures x in a <==> x in b {
        assert x in b && x !in a ==> x in b - a;
        assert x in a && x !in b ==> x in a - b;
      }
    }
  }

  /** Ready, no blockers, and acceptable are one and the same, whatever the monitors are called. */
  lemma ReadyIffNoBlockersIffAcceptable(observations: seq<seq<Observed>>, minimum: int, totals: Totals,
                                        says: Blocker -> bool)
    requires observations != [] && forall s :: totals[s] == Total(observations, s)
    ensures var a := Assessed(observations, minimum, totals, says);
            && (a.ready <==> a.blockers == [])
            && (a.ready <==> Acceptable(observations, minimum))
  {
    hide NameSet, UniqueNames, NonMatching, Matching;
    var baseline := NameSet(observations[0]);
    CleanCountAll(observations, baseline);
    NoBlockers(observations, baseline);
    if forall i :: 0 <= i < |observations| ==> Covered(observations[i], baseline) {
      NoDrift(observations, baseline);
    }
    NonMatchingZero(observations, totals);
    var clean := forall i :: 0 <= i < |observations| ==> Clean(observations[i], baseline);
    var covered := forall i :: 0 <= i < |observations| ==> Covered(observations[i], baseline);
    var matching := forall i :: 0 <= i < |observations| ==> Matching(observations[i]);
    assert clean <==> covered && matching;
  }

  lemma {:induction false} CountAll(rows: seq<Observed>)
    ensures CountStatus(rows, Match) + CountStatus(rows, StateDifferent) + CountStatus(rows, LatencyDifferent)
            + CountStatus(rows, Missing) + CountStatus(rows, MonitorOnly) + CountStatus(rows, SourceUnknown)
            + CountStatus(rows, SourceDuplicate) + CountStatus(rows, SourceInvalid) == |rows|
  {
    if rows != [] {
      CountAll(rows[..|rows| - 1]);
    }
  }

  function Records(observations: seq<seq<Observed>>): nat {
    if observations == [] then 0 else Records(observations[..|observations| - 1]) + |observations[|observations| - 1]|
  }

  /** The status totals add up to the records consumed. */
  lemma {:induction false} TotalsAreTheRecords(observations: seq<seq<Observed>>)
    ensures Total(observations, Match) + Total(observations, StateDifferent) + Total(observations, LatencyDifferent)
            + Total(observations, Missing) + Total(observations, MonitorOnly) + Total(observations, SourceUnknown)
            + Total(observations, SourceDuplicate) + Total(observations, SourceInvalid) == Records(observations)
  {
    if observations != [] {
      TotalsAreTheRecords(observations[..|observations| - 1]);
      CountAll(observations[|observations| - 1]);
    }
  }

  lemma {:induction false} NameOnce(rows: seq<Observed>, name: string)
    requires UniqueNames(rows) && Matching(rows)
    ensures CountName(rows, name) == CountFor(rows, name, Match) == if name in NameSet(rows) then 1 else 0
  {
    if rows != [] {
      var n := |rows| - 1;
      NameOnce(rows[..n], name);
      assert name in NameSet(rows) <==> name in NameSet(rows[..n]) || rows[n].name == name;
      assert forall i :: 0 <= i < n ==> rows[..n][i] == rows[i] && rows[i].name != rows[n].name;
    }
  }

  lemma {:induction false} CountsOfConcat(a: seq<Observed>, b: seq<Observed>, name: string, s: Status)
    ensures CountName(a + b, name) == CountName(a, name) + CountName(b, name)
    ensures CountFor(a + b, name, s) == CountFor(a, name, s) + CountFor(b, name, s)
  {
    if b == [] {
      assert a + b == a;
    } else {
      var n := |b| - 1;
      assert (a + b)[..|a + b| - 1] == a + b[..n];
      CountsOfConcat(a, b[..n], name, s);
    }
  }

  lemma {:induction false} CleanCounts(observations: seq<seq<Observed>>, baseline: set<string>, name: string)
    requires name in baseline && forall i :: 0 <= i < |observations| ==> Clean(observations[i], baseline)
    ensures CountName(AllRecords(observations), name) == |observations|
    ensures CountFor(AllRecords(observations), name, Match) == |observations|
  {
    if observations != [] {
      hide CountName, CountFor, NameSet, UniqueNames, Matching;
      var n := |observations| - 1;
      CleanCounts(observations[..n], baseline, name);
      CountsOfConcat(AllRecords(observations[..n]), observations[n], name, Match);
      NameOnce(observations[n], name);
    }
  }

  /** In an acceptable series every monitor of the baseline was compared once, and matched, in every
      observation: its summary says so. */
  lemma AcceptableMeansEveryMonitorMatched(observations: seq<seq<Observed>>, minimum: int, name: string)
    requires observations != [] && Acceptable(observations, minimum) && name in NameSet(observations[0])
    ensures CountName(AllRecords(observations), name) == |observations|
    ensures CountFor(AllRecords(observations), name, Match) == |observations|
    ensures |observations| >= minimum
  {
    hide Clean, NameSet;
    CleanCounts(observations, NameSet(observations[0]), name);
  }

  /** A monitor's status counts add up to its observations. */
  lemma {:induction false} SummaryIsComplete(rows: seq<Observed>, name: string)
    ensures CountFor(rows, name, Match) + CountFor(rows, name, StateDifferent) + CountFor(rows, name, LatencyDifferent)
            + CountFor(rows, name, Missing) + CountFor(rows, name, MonitorOnly) + CountFor(rows, name, SourceUnknown)
            + CountFor(rows, name, SourceDuplicate) + CountFor(rows, name, SourceInvalid) == CountName(rows, name)
  {
    if rows != [] {
      SummaryIsComplete(rows[..|rows| - 1], name);
    }
  }

  // ---- Gate and comparison together ---------------------------------------------------------------

  /** What the gate reads back from a written comparison report. */
  function Written(rows: seq<Row>): (r: seq<Observed>)
    ensures |r| == |rows| && forall i :: 0 <= i < |r| ==> r[i] == Observed(Strip(rows[i].name), rows[i].status)
  {
    seq(|rows|, i requires 0 <= i < |rows| => Observed(Strip(rows[i].name), rows[i].status))
  }

  /** One round of observation: both sides and the report made of them. */
  datatype Round = Round(source: seq<Raw>, current: map<string, Monitored>, rows: seq<Row>)

  function WrittenAll(rounds: seq<Round>): (r: seq<seq<Observed>>)
    ensures |r| == |rounds| && forall i :: 0 <= i < |r| ==> r[i] == Written(rounds[i].rows)
  {
    seq(|rounds|, i requires 0 <= i < |rounds| => Written(rounds[i].rows))
  }

  function SourceNames(source: seq<Raw>): set<string> { set i | 0 <= i < |source| :: Strip(source[i].name) }

  lemma CleanRound(round: Round, tolerance: real, baseline: set<string>)
    requires IsReport(round.source, round.current, tolerance, round.rows)
    ensures Clean(Written(round.rows), baseline)
            <==> Parity(round.source, round.current, tolerance) && SourceNames(round.source) == baseline
    ensures Parity(round.source, round.current, tolerance) ==> NameSet(Written(round.rows)) == SourceNames(round.source)
  {
    hide IsReport, Parity;
    var rows, w := round.rows, Written(round.rows);
    MatchingReportMeansParity(round.source, round.current, tolerance, rows);
    assert Matching(w) <==> AllMatch(rows);
    if AllMatch(rows) {
      ParityNames(round.source, round.current, tolerance);
      assert |rows| == |round.source|;
      forall i | 0 <= i < |rows| ensures w[i].name == Strip(round.source[i].name) {
        assert RowNames(rows)[i] == Names(round.source)[i];
        StripSpec(round.source[i].name);
        StripSpec(Strip(round.source[i].name));
      }
      assert UniqueNames(w) by {
        forall i, j | 0 <= i < j < |w| ensures w[i].name != w[j].name {
          assert Names(round.source)[i] != Names(round.source)[j];
        }
      }
      assert NameSet(w) == SourceNames(round.source);
    }
  }

  lemma ParityNames(source: seq<Raw>, current: map<string, Monitored>, tolerance: real)
    requires Parity(source, current, tolerance)
    ensures DistinctNames(Names(source))
  {
  }

  /** The comparison report as the gate finds it in a file. */
  function FileOf(rows: seq<Row>): Report {
    Report(seq(|rows|, i requires 0 <= i < |rows| => Entry(rows[i].name, Some(rows[i].status))))
  }

  function Files(rounds: seq<Round>): (r: seq<Report>)
    ensures |r| == |rounds| && forall i :: 0 <= i < |r| ==> r[i] == FileOf(rounds[i].rows)
  {
    seq(|rounds|, i requires 0 <= i < |rounds| => FileOf(rounds[i].rows))
  }

  lemma ReadBackIsWritten(rounds: seq<Round>)
    requires AllOk(Files(rounds))
    ensures Observations(Files(rounds)) == WrittenAll(rounds)
  {
    var seen, written := Observations(Files(rounds)), WrittenAll(rounds);
    forall i | 0 <= i < |rounds| ensures seen[i] == written[i] {
      assert seen[i] == Read(FileOf(rounds[i].rows).entries);
    }
  }

  /** A report made at parity of at least one monitor can be read back. */
  lemma ParityIsReadable(round: Round, tolerance: real)
    requires IsReport(round.source, round.current, tolerance, round.rows)
    requires Parity(round.source, round.current, tolerance)
    ensures ReportOk(FileOf(round.rows)) <==> round.source != []
  {
    hide IsReport;
    MatchingReportMeansParity(round.source, round.current, tolerance, round.rows);
    var entries := FileOf(round.rows).entries;
    assert |RowNames(round.rows)| == |Names(round.source)|;
    forall i | 0 <= i < |entries| ensures EntryOk(entries[i]) {
      assert RowNames(round.rows)[i] == Names(round.source)[i] && Names(round.source)[i] in Names(round.source);
      StripSpec(round.source[i].name);
      StripSpec(Strip(round.source[i].name));
    }
  }

  lemma WrittenGate(rounds: seq<Round>, tolerance: real, minimum: int)
    requires rounds != [] && forall i :: 0 <= i < |rounds| ==>
               IsReport(rounds[i].source, rounds[i].current, tolerance, rounds[i].rows)
    ensures Acceptable(WrittenAll(rounds), minimum) <==>
              && |rounds| >= minimum
              && forall i :: 0 <= i < |rounds| ==>
                   && Parity(rounds[i].source, rounds[i].current, tolerance)
                   && SourceNames(rounds[i].source) == SourceNames(rounds[0].source)
  {
    hide IsReport, Parity, Clean, NameSet, SourceNames;
    var all := WrittenAll(rounds);
    var first, baseline := rounds[0], NameSet(all[0]);
    CleanRound(first, tolerance, baseline);
    forall i | 0 <= i < |rounds|
      ensures Clean(all[i], baseline)
              <==> Parity(rounds[i].source, rounds[i].current, tolerance) && SourceNames(rounds[i].source) == baseline
    {
      CleanRound(rounds[i], tolerance, baseline);
    }
  }

  /** Fed by the comparison, the gate opens exactly when there are enough rounds and in every round the
      two sides had the same names, at least one, with equal known states and latencies within
      tolerance, the names being those of the first round. */
  lemma GateMeansRepeatedParity(rounds: seq<Round>, tolerance: real, minimum: int)
    requires rounds != [] && forall i :: 0 <= i < |rounds| ==>
               IsReport(rounds[i].source, rounds[i].current, tolerance, rounds[i].rows)
    ensures Opens(Files(rounds), minimum) <==>
              && 1 <= minimum <= |rounds|
              && forall i :: 0 <= i < |rounds| ==>
                   && rounds[i].source != [] && Parity(rounds[i].source, rounds[i].current, tolerance)
                   && SourceNames(rounds[i].source) == SourceNames(rounds[0].source)
  {
    hide IsReport, Parity, SourceNames, Acceptable, ReportOk, FileOf;
    WrittenGate(rounds, tolerance, minimum);
    forall i | 0 <= i < |rounds| && Parity(rounds[i].source, rounds[i].current, tolerance)
      ensures ReportOk(Files(rounds)[i]) <==> rounds[i].source != []
    {
      ParityIsReadable(rounds[i], tolerance);
    }
    if AllOk(Files(rounds)) {
      ReadBackIsWritten(rounds);
    }
  }
}
