/** What a drain pass achieves, and the retry schedule it leaves behind. */
module OutboxLaws {
  import opened Common
  import opened Text
  import opened Notify
  import opened Publisher
  import opened Outbox

  /** No other process touches the table during the pass. */
  ghost predicate Alone(others: Others) {
    && (forall rows :: others.first(rows) == rows)
    && forall n, rows :: others.before(n)(rows) == rows && others.during(n)(rows) == rows
  }

  lemma DrainedLast(rows: Rows, ids: seq<nat>, results: seq<PublishResult>, clock: nat -> Time, others: Others)
    requires Alone(others) && 0 < |results| <= |ids|
    ensures var n := |results| - 1;
            var before := Drained(rows, ids, results[..n], clock, others);
            Drained(rows, ids, results, clock, others)
            == if ids[n] in before then before[ids[n] := Recorded(before[ids[n]], results[n], clock(n))] else before
  {
    hide Recorded;
    var n := |results| - 1;
    assert Heard(rows, ids, results, clock, others) == Drained(rows, ids, results[..n], clock, others);
  }

  /** Each row with a result holds that result recorded at its own time; every other row is untouched. */
  ghost predicate RecordedEach(rows: Rows, ids: seq<nat>, results: seq<PublishResult>, clock: nat -> Time, end: Rows)
    requires |results| <= |ids|
  {
    && end.Keys == rows.Keys
    && (forall n :: 0 <= n < |results| ==>
          ids[n] in rows && end[ids[n]] == Recorded(rows[ids[n]], results[n], clock(n)))
    && (forall id :: id in rows && id !in ids[..|results|] ==> end[id] == rows[id])
  }

  lemma RecordedNext(rows: Rows, ids: seq<nat>, results: seq<PublishResult>, clock: nat -> Time, before: Rows)
    requires 0 < |results| <= |ids| && ids[|results| - 1] in rows
    requires forall i, j :: 0 <= i < j < |ids| ==> ids[i] != ids[j]
    requires RecordedEach(rows, ids, results[..|results| - 1], clock, before)
    ensures var n := |results| - 1;
            RecordedEach(rows, ids, results, clock, before[ids[n] := Recorded(before[ids[n]], results[n], clock(n))])
  {
    hide Recorded;
    var n := |results| - 1;
    var front := ids[..n];
    assert ids[n] !in front;
    assert ids[..n + 1] == front + [ids[n]];
    assert before[ids[n]] == rows[ids[n]];
    var end := before[ids[n] := Recorded(before[ids[n]], results[n], clock(n))];
    forall k | 0 <= k < |results|
      ensures ids[k] in rows && end[ids[k]] == Recorded(rows[ids[k]], results[k], clock(k))
    {
      assert k < n ==> results[..n][k] == results[k] && ids[k] != ids[n];
    }
    forall id | id in rows && id !in ids[..n + 1] ensures end[id] == rows[id] {
      assert id !in front && id != ids[n];
    }
  }

  /** Left alone, each row with a result ends as that result recorded at its own time, and every other row
      is untouched. */
  lemma {:induction false} DrainedAt(rows: Rows, ids: seq<nat>, results: seq<PublishResult>,
                                     clock: nat -> Time, others: Others)
    requires Alone(others) && |results| <= |ids|
    requires forall n :: 0 <= n < |ids| ==> ids[n] in rows
    requires forall i, j :: 0 <= i < j < |ids| ==> ids[i] != ids[j]
    ensures RecordedEach(rows, ids, results, clock, Drained(rows, ids, results, clock, others))
  {
    hide Recorded, Heard, Seen;
    if results != [] {
      var n := |results| - 1;
      hide Drained, Alone;
      DrainedAt(rows, ids, results[..n], clock, others);
      DrainedLast(rows, ids, results, clock, others);
      RecordedNext(rows, ids, results, clock, Drained(rows, ids, results[..n], clock, others));
    }
  }

  /** Left alone, a pass never raises, and publishes each row as it stood at the start. */
  lemma AlonePass(s: Settings, start: Rows, ids: seq<nat>, network: nat -> (nat -> Reply), clock: nat -> Time,
                  others: Others, results: seq<PublishResult>, end: Rows, raised: bool)
    requires Alone(others)
    requires forall n :: 0 <= n < |ids| ==> ids[n] in start
    requires forall i, j :: 0 <= i < j < |ids| ==> ids[i] != ids[j]
    requires PassOver(s, start, ids, network, clock, others, results)
    requires Ends(start, ids, results, clock, others, end, raised)
    ensures !raised && |results| == |ids| && end == Drained(start, ids, results, clock, others)
    ensures forall n :: 0 <= n < |ids| ==> Published(s, start[ids[n]], network(n), results[n])
  {
    hide Published, Recorded;
    DrainedAt(start, ids, results, clock, others);
    forall n | 0 <= n < |results| ensures Published(s, start[ids[n]], network(n), results[n]) {
      DrainedAt(start, ids, results[..n], clock, others);
      assert Seen(start, ids, results[..n], clock, others) == Drained(start, ids, results[..n], clock, others);
      assert ids[n] !in ids[..n];
    }
    if results != [] {
      DrainedAt(start, ids, results[..|results| - 1], clock, others);
    }
  }

  /** When the receiver accepts within the allowed attempts and no other process interferes, one pass
      delivers every listed row, records it at its own time, touches nothing else, does not raise, and
      leaves no due row pending unless the page was full. */
  lemma PassDelivers(s: Settings, start: Rows, now: Time, limit: nat, ids: seq<nat>, network: nat -> (nat -> Reply),
                     clock: nat -> Time, others: Others, results: seq<PublishResult>, end: Rows, raised: bool)
    requires Alone(others) && IsPage(start, now, limit, ids)
    requires PassOver(s, start, ids, network, clock, others, results)
    requires Ends(start, ids, results, clock, others, end, raised)
    requires forall n :: 0 <= n < |ids| ==> Refusal(s, start[ids[n]].payload, start[ids[n]].key) == NoCause
    requires forall n :: 0 <= n < |ids| ==>
               exists k: nat :: StopsAt(network(n), Attempts(s), k) && Accepted(network(n)(k))
    ensures !raised && end.Keys == start.Keys
    ensures forall n :: 0 <= n < |ids| ==> end[ids[n]].deliveredAt == Some(clock(n))
    ensures forall id :: id in start && id !in ids ==> end[id] == start[id]
    ensures |ids| < limit ==> forall id :: id in end && IsDue(start[id], now) ==> end[id].deliveredAt.Some?
    ensures Deliveries(results) == |ids|
  {
    PageParts(start, now, limit, ids);
    hide IsPage;
    AlonePass(s, start, ids, network, clock, others, results, end, raised);
    assert ids[..|ids|] == ids;
    DrainedAt(start, ids, results, clock, others);
    hide Refusal, Published, Drained, Seen, PassOver, Ends, StopsAt, Accepted, Recorded, Alone, IsDue;
    forall n | 0 <= n < |ids| ensures results[n].delivered && end[ids[n]].deliveredAt == Some(clock(n)) {
      PublishDelivers(s, start[ids[n]], network(n), results[n]);
      RecordedDelivered(start[ids[n]], results[n], clock(n));
    }
    AllDelivered(results);
    if |ids| < limit {
      NoDueRowLeft(start, now, limit, ids, end);
    }
  }

  lemma PageParts(rows: Rows, now: Time, limit: nat, ids: seq<nat>)
    requires IsPage(rows, now, limit, ids)
    ensures forall n :: 0 <= n < |ids| ==> ids[n] in rows && rows[ids[n]].deliveredAt.None?
    ensures forall i, j :: 0 <= i < j < |ids| ==> ids[i] != ids[j]
  {
  }

  lemma NoDueRowLeft(rows: Rows, now: Time, limit: nat, ids: seq<nat>, end: Rows)
    requires IsPage(rows, now, limit, ids) && |ids| < limit && end.Keys == rows.Keys
    requires forall n :: 0 <= n < |ids| ==> ids[n] in end && end[ids[n]].deliveredAt.Some?
    ensures forall id :: id in end && IsDue(rows[id], now) ==> end[id].deliveredAt.Some?
  {
  }

  lemma RecordedDelivered(row: Row, result: PublishResult, now: Time)
    requires row.deliveredAt.None? && result.delivered
    ensures Recorded(row, result, now).deliveredAt == Some(now)
  {
  }

  lemma PublishDelivers(s: Settings, row: Row, replies: nat -> Reply, result: PublishResult)
    requires Published(s, row, replies, result) && Refusal(s, row.payload, row.key) == NoCause
    requires exists k: nat :: StopsAt(replies, Attempts(s), k) && Accepted(replies(k))
    ensures result.delivered
  {
    hide Refusal;
    var k: nat :| StopsAt(replies, Attempts(s), k) && Accepted(replies(k));
    DeliveredIffAccepted(s, replies, k);
  }

  lemma AllDelivered(results: seq<PublishResult>)
    requires forall n :: 0 <= n < |results| ==> results[n].delivered
    ensures Deliveries(results) == |results|
  {
  }

  /** A row the engine wrote is never refused locally: with Notify enabled and configured it is always
      put on the wire, and the wire carries exactly the stored payload and key. */
  lemma EngineRowIsPublishable(s: Settings, c: Codec, name: string, t: Transition, message: string, monitor: nat,
                               check: nat, at: Time)
    requires s.enabled && s.credentials && s.httpsEndpoint
    requires Faithful(c) && NameOk(name) && RowId(monitor) && RowId(check)
    requires CreatePayload(name, t, message).Ok?
    ensures var (e, payload) := CreatePayload(name, t, message).value;
            var key := CreateKey(c, e, TransitionId(c, monitor, check, at));
            key.Ok? && Refusal(s, payload, key.value) == NoCause && Strip(key.value) == key.value
  {
    hide CreatePayload, CreateKey, Validated, TransitionId, PayloadBytes, HasShape;
    ProducerIsTotal(c, name, t, message, monitor, check, at);
  }

  /** A failed publish defers its row for exactly the back-off of its attempts so far, at least two seconds. */
  lemma FailureDefers(row: Row, result: PublishResult, now: Time, at: Time)
    requires row.deliveredAt.None? && !result.delivered
    ensures var attempts := row.attempts + Max(1, result.attempts);
            && (IsDue(Recorded(row, result, now), at) <==> at >= now + Seconds(RetrySeconds(attempts)))
            && RetrySeconds(attempts) >= 2
  {
    BackoffBounds(row.attempts + Max(1, result.attempts), row.attempts + Max(1, result.attempts));
  }

  // ---- One row over many publishes --------------------------------------------------------------

  /** A row after these results have been recorded one after the other, at these times. */
  function AfterResults(row: Row, results: seq<PublishResult>, clock: nat -> Time): Row {
    if results == [] then row
    else Recorded(AfterResults(row, results[..|results| - 1], clock), results[|results| - 1], clock(|results| - 1))
  }

  /** The wire attempts of these results, each counted at least once. */
  function TotalAttempts(results: seq<PublishResult>): nat {
    if results == [] then 0
    else
      var last := results[|results| - 1].attempts;
      TotalAttempts(results[..|results| - 1]) + if last >= 1 then last else 1
  }

  predicate AllFailed(results: seq<PublishResult>) { forall i :: 0 <= i < |results| ==> !results[i].delivered }

  function Capped(total: nat): nat { if total >= 10 then 1024 else Power2(total) }

  /** Over any run of failures the stored count is the running total of attempts, and the row waits, after
      the last of them, 2 to the power of that total but at most 1024 seconds; its key, payload, transition
      and creation stay as they were. */
  lemma {:induction false} FailuresAddUp(row: Row, results: seq<PublishResult>, clock: nat -> Time)
    requires row.deliveredAt == None && AllFailed(results) && results != []
    ensures var r, total := AfterResults(row, results, clock), row.attempts + TotalAttempts(results);
            var last, at := results[|results| - 1], clock(|results| - 1);
            && r.attempts == total && r.deliveredAt == None && r.lastAttemptAt == Some(at)
            && r.nextAttemptAt == at + Capped(total) * 1_000_000
            && r.cause == (if last.cause == NoCause then PublishFailed else last.cause)
            && r.key == row.key && r.payload == row.payload && r.transition == row.transition
            && r.createdAt == row.createdAt
  {
    var n := |results| - 1;
    assert Power2(10) == 1024;
    if n > 0 {
      FailuresAddUp(row, results[..n], clock);
    } else {
      assert AfterResults(row, results[..0], clock) == row && TotalAttempts(results[..0]) == 0;
    }
    var total := row.attempts + TotalAttempts(results);
    if total < 10 {
      Power2Monotone(total, 10);
    }
  }

  lemma CappedDoubles(less: nat, more: nat)
    requires less < more
    ensures Capped(more) >= Capped(less) && (Capped(less) < 1024 ==> Capped(more) >= 2 * Capped(less))
  {
    assert Power2(10) == 1024;
    if less < 10 {
      Power2Monotone(less + 1, Min(more, 10));
      assert Power2(less + 1) == 2 * Power2(less);
      Power2Monotone(less, 10);
    }
  }

  lemma WaitIs(row: Row, results: seq<PublishResult>, clock: nat -> Time)
    requires row.deliveredAt == None && AllFailed(results) && results != []
    ensures AfterResults(row, results, clock).nextAttemptAt - clock(|results| - 1)
            == Capped(row.attempts + TotalAttempts(results)) * 1_000_000
  {
    hide AfterResults, TotalAttempts, Capped;
    FailuresAddUp(row, results, clock);
  }

  lemma TotalGrows(results: seq<PublishResult>)
    requires results != []
    ensures TotalAttempts(results) > TotalAttempts(results[..|results| - 1])
  {
  }

  /** Hence successive waits never shrink, and at least double until they reach 1024 seconds. */
  lemma WaitsGrow(row: Row, results: seq<PublishResult>, clock: nat -> Time)
    requires row.deliveredAt == None && AllFailed(results) && |results| >= 2
    ensures var n := |results| - 1;
            var before := AfterResults(row, results[..n], clock).nextAttemptAt - clock(n - 1);
            var after := AfterResults(row, results, clock).nextAttemptAt - clock(n);
            && after >= before && (before < 1_024_000_000 ==> after >= 2 * before)
  {
    hide AfterResults, TotalAttempts, Capped;
    var n := |results| - 1;
    WaitIs(row, results, clock);
    WaitIs(row, results[..n], clock);
    TotalGrows(results);
    CappedDoubles(row.attempts + TotalAttempts(results[..n]), row.attempts + TotalAttempts(results));
  }

  /** A delivery after any failures is written once with the whole count, and nothing recorded later changes
      the row. */
  lemma {:induction false} DeliveryIsFinal(row: Row, failures: seq<PublishResult>, success: PublishResult,
                                           later: seq<PublishResult>, clock: nat -> Time)
    requires row.deliveredAt == None && AllFailed(failures) && success.delivered
    ensures var r := AfterResults(row, failures + [success] + later, clock);
            && r == AfterResults(row, failures + [success], clock)
            && r.attempts == row.attempts + TotalAttempts(failures)
                             + (if success.attempts >= 1 then success.attempts else 1)
            && r.deliveredAt == Some(clock(|failures|)) && r.lastAttemptAt == Some(clock(|failures|))
            && r.nextAttemptAt == clock(|failures|)
            && r.cause == NoCause && r.key == row.key && r.payload == row.payload
  {
    var run := failures + [success];
    if later != [] {
      var n := |later| - 1;
      DeliveryIsFinal(row, failures, success, later[..n], clock);
      assert (run + later)[..|run + later| - 1] == run + later[..n];
    } else {
      assert run + later == run && run[..|failures|] == failures;
      if failures == [] {
        assert AfterResults(row, failures, clock) == row;
      } else {
        FailuresAddUp(row, failures, clock);
      }
    }
  }

  lemma Power2Monotone(a: nat, b: nat)
    requires a <= b
    ensures Power2(a) <= Power2(b)
  {
  }

  /** The back-off never decreases with further attempts and always lies between 2 and 1024 seconds:
      the 3600-second bound written in the code is never reached. */
  lemma BackoffBounds(attempts: nat, more: nat)
    requires 1 <= attempts <= more
    ensures 2 <= RetrySeconds(attempts) <= RetrySeconds(more) <= 1024
    ensures RetrySeconds(attempts) == Power2(Min(attempts, 10))
  {
    assert Power2(10) == 1024 && Power2(1) == 2;
    Power2Monotone(1, Min(attempts, 10));
    Power2Monotone(Min(attempts, 10), Min(more, 10));
    Power2Monotone(Min(more, 10), 10);
  }
}
