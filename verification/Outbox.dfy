/** The durable outbox table and the drain pass over it (src/monitoring/outbox.py). */
module Outbox {
  import opened Common
  import opened Notify
  import opened Publisher

  datatype Row = Row(
    transition: Transition, payload: Payload, key: string, createdAt: Time, nextAttemptAt: Time,
    lastAttemptAt: Option<Time>, attempts: nat, deliveredAt: Option<Time>, cause: Cause)

  type Rows = map<nat, Row>

  function Power2(n: nat): nat { if n == 0 then 1 else 2 * Power2(n - 1) }

  /** min(3600, 2 ** min(attempt_count, 10)) */
  function RetrySeconds(attempts: nat): nat { Min(3600, Power2(Min(attempts, 10))) }

  /** What _record_publish_result makes of a row. */
  function Recorded(row: Row, result: PublishResult, now: Time): Row {
    if row.deliveredAt.Some? then row
    else
      var attempts := row.attempts + Max(1, result.attempts);
      if result.delivered then
        row.(attempts := attempts, lastAttemptAt := Some(now), deliveredAt := Some(now), cause := NoCause,
             nextAttemptAt := now)
      else
        row.(attempts := attempts, lastAttemptAt := Some(now),
             cause := if result.cause == NoCause then PublishFailed else result.cause,
             nextAttemptAt := now + Seconds(RetrySeconds(attempts)))
  }

  function Surviving(rows: Rows, cutoff: Time): Rows {
    map id | id in rows && !(rows[id].deliveredAt.Some? && rows[id].deliveredAt.value < cutoff) :: rows[id]
  }

  predicate IsDue(row: Row, now: Time) { row.deliveredAt.None? && row.nextAttemptAt <= now }

  /** The page that _pending_outbox_ids returns: due rows, oldest first, no due row left out while the
      page has room, and none older than a listed one left out otherwise. */
  ghost predicate IsPage(rows: Rows, now: Time, limit: nat, ids: seq<nat>) {
    && |ids| <= limit
    && (forall i :: 0 <= i < |ids| ==> ids[i] in rows && IsDue(rows[ids[i]], now))
    && (forall i, j :: 0 <= i < j < |ids| ==> ids[i] != ids[j])
    && (forall i, j :: 0 <= i < j < |ids| ==> rows[ids[i]].createdAt <= rows[ids[j]].createdAt)
    && (forall id :: id in rows && IsDue(rows[id], now) && id !in ids ==>
          |ids| == limit && forall i :: 0 <= i < |ids| ==> rows[ids[i]].createdAt <= rows[id].createdAt)
  }

  /** What other processes do to the table between this worker's steps: between its prune and its page
      query, before it reads its n-th row, and between reading and recording. */
  datatype Others = Others(first: Rows -> Rows, before: nat -> Rows -> Rows, during: nat -> Rows -> Rows)

  /** The table when the row after these results is read. */
  function Seen(rows: Rows, ids: seq<nat>, results: seq<PublishResult>, clock: nat -> Time, others: Others): Rows
    requires |results| <= |ids|
    decreases |results|, 2
  {
    others.before(|results|)(Drained(rows, ids, results, clock, others))
  }

  /** The table when the n-th result is recorded, for the n-th id, at time clock(n). */
  function Heard(rows: Rows, ids: seq<nat>, results: seq<PublishResult>, clock: nat -> Time, others: Others): Rows
    requires 0 < |results| <= |ids|
    decreases |results|, 0
  {
    others.during(|results| - 1)(Seen(rows, ids, results[..|results| - 1], clock, others))
  }

  /** The table after these results have been recorded in turn; a row that is gone is not recorded. */
  function Drained(rows: Rows, ids: seq<nat>, results: seq<PublishResult>, clock: nat -> Time, others: Others): Rows
    requires |results| <= |ids|
    decreases |results|, 1
  {
    if results == [] then rows
    else
      var n := |results| - 1;
      var now := Heard(rows, ids, results, clock, others);
      if ids[n] in now then now[ids[n] := Recorded(now[ids[n]], results[n], clock(n))] else now
  }

  function Deliveries(results: seq<PublishResult>): nat {
    if results == [] then 0
    else Deliveries(results[..|results| - 1]) + if results[|results| - 1].delivered then 1 else 0
  }

  class OutboxTable {
    var rows: Rows

    constructor ()
      ensures rows == map[]
    {
      rows := map[];
    }

    method PruneDelivered(cutoff: Time) returns (deleted: nat)
      modifies this
      ensures rows == Surviving(old(rows), cutoff) && deleted == |old(rows)| - |rows|
      ensures forall id :: id in rows <==>
                id in old(rows) && (old(rows)[id].deliveredAt.None? || old(rows)[id].deliveredAt.value >= cutoff)
      ensures forall id :: id in rows ==> rows[id] == old(rows)[id]
    {
      var left := Surviving(rows, cutoff);
      SubmapSmaller(left, rows);
      deleted := |rows| - |left|;
      rows := left;
    }

    method PendingIds(now: Time, limit: nat) returns (ids: seq<nat>)
      ensures IsPage(rows, now, limit, ids)
    {
      ids := [];
      var left := set id | id in rows && IsDue(rows[id], now);
      while left != {} && |ids| < limit
        invariant forall id :: id in left ==> id in rows && IsDue(rows[id], now) && id !in ids
        invariant forall id :: id in rows && IsDue(rows[id], now) ==> id in left || id in ids
        invariant |ids| <= limit
        invariant forall i :: 0 <= i < |ids| ==> ids[i] in rows && IsDue(rows[ids[i]], now)
        invariant forall i, j :: 0 <= i < j < |ids| ==> ids[i] != ids[j]
        invariant forall i, j :: 0 <= i < j < |ids| ==> rows[ids[i]].createdAt <= rows[ids[j]].createdAt
        invariant forall i, id :: 0 <= i < |ids| && id in left ==> rows[ids[i]].createdAt <= rows[id].createdAt
        decreases left
      {
        var first := Earliest(left);
        ids := ids + [first];
        left := left - {first};
      }
    }

    method Earliest(ids: set<nat>) returns (first: nat)
      requires ids != {} && forall id :: id in ids ==> id in rows
      ensures first in ids && forall id :: id in ids ==> rows[first].createdAt <= rows[id].createdAt
    {
      first :| first in ids;
      var left := ids - {first};
      while left != {}
        invariant first in ids && left <= ids
        invariant forall id :: id in ids && id !in left ==> rows[first].createdAt <= rows[id].createdAt
        decreases left
      {
        var id :| id in left;
        if rows[id].createdAt < rows[first].createdAt {
          first := id;
        }
        left := left - {id};
      }
    }

    /** _record_publish_result; false when the row has been deleted meanwhile (DoesNotExist). */
    method RecordPublishResult(id: nat, result: PublishResult, now: Time) returns (found: bool)
      modifies this
      ensures found == (id in old(rows))
      ensures rows == if found then old(rows)[id := Recorded(old(rows)[id], result, now)] else old(rows)
    {
      if id !in rows {
        return false;
      }
      var item := rows[id];
      if item.deliveredAt.Some? {
        assert rows == rows[id := item];
        return true;
      }
      item := item.(attempts := item.attempts + Max(1, result.attempts), lastAttemptAt := Some(now));
      if result.delivered {
        item := item.(deliveredAt := Some(now), cause := NoCause, nextAttemptAt := now);
      } else {
        item := item.(cause := if result.cause == NoCause then PublishFailed else result.cause);
        item := item.(nextAttemptAt := now + Seconds(RetrySeconds(item.attempts)));
      }
      rows := rows[id := item];
      return true;
    }

    /** Other processes run. */
    method Yield(change: Rows -> Rows)
      modifies this
      ensures rows == change(old(rows))
    {
      rows := change(rows);
    }

    /** drain_notification_outbox by one worker among others: prune, then publish each due row of the page
        in turn. `network(n)` is what the receiver side answers during the n-th publish, `clock(n)` the time
        at which its result is recorded. Raised if a row of the page is gone when it is read or recorded
        (DoesNotExist), which ends the pass; what was recorded before stays. */
    method Drain(s: Settings, cutoff: Time, now: Time, limit: nat, network: nat -> (nat -> Reply), clock: nat -> Time,
                 others: Others)
      returns (r: Result<nat>, ids: seq<nat>, results: seq<PublishResult>)
      modifies this
      ensures !s.enabled ==> rows == Surviving(old(rows), cutoff) && r == Ok(0) && ids == [] && results == []
      ensures s.enabled ==>
                var start := others.first(Surviving(old(rows), cutoff));
                && IsPage(start, now, limit, ids)
                && PassOver(s, start, ids, network, clock, others, results)
                && Ends(start, ids, results, clock, others, rows, r.Raised?)
      ensures r.Ok? ==> r.value == Deliveries(results)
    {
      r, ids, results := Ok(0), [], [];
      var _ := PruneDelivered(cutoff);
      if s.enabled {
        Yield(others.first);
        ids := PendingIds(now, limit);
        r, results := PublishAll(s, ids, network, clock, others);
      }
    }

    /** The loop of the drain pass, which increments `delivered`. */
    method PublishAll(s: Settings, ids: seq<nat>, network: nat -> (nat -> Reply), clock: nat -> Time, others: Others)
      returns (r: Result<nat>, results: seq<PublishResult>)
      modifies this
      ensures PassOver(s, old(rows), ids, network, clock, others, results)
      ensures Ends(old(rows), ids, results, clock, others, rows, r.Raised?)
      ensures r.Ok? ==> r.value == Deliveries(results)
    {
      hide Recorded, Refusal, Validated, Published;
      var delivered := 0;
      results := [];
      for n := 0 to |ids|
        invariant |results| == n
        invariant rows == Drained(old(rows), ids, results, clock, others)
        invariant delivered == Deliveries(results)
        invariant PassOver(s, old(rows), ids, network, clock, others, results)
      {
        Yield(others.before(n));
        if ids[n] !in rows {
          return Raised, results;
        }
        var item := rows[ids[n]];
        var result, posts := Publish(s, item.payload, item.key, network(n));
        PublishedBy(s, item, network(n), result, posts);
        PassNext(s, old(rows), ids, network, clock, others, results, result);
        assert (results + [result])[..n] == results;
        results := results + [result];
        Yield(others.during(n));
        var found := RecordPublishResult(ids[n], result, clock(n));
        if !found {
          return Raised, results;
        }
        if result.delivered {
          delivered := delivered + 1;
        }
      }
      return Ok(delivered), results;
    }
  }

  lemma PublishedBy(s: Settings, row: Row, replies: nat -> Reply, result: PublishResult, posts: nat)
    requires Refusal(s, row.payload, row.key) != NoCause ==>
               result == PublishResult(false, 0, false, Refusal(s, row.payload, row.key))
    requires Refusal(s, row.payload, row.key) == NoCause ==>
               StopsAt(replies, Attempts(s), posts) && result == Verdict(replies(posts), posts)
    ensures Published(s, row, replies, result)
  {
  }

  /** Each listed row was there when it was read, and was published once from its stored payload and key. */
  ghost predicate PassOver(s: Settings, start: Rows, ids: seq<nat>, network: nat -> (nat -> Reply), clock: nat -> Time,
                           others: Others, results: seq<PublishResult>) {
    && |results| <= |ids|
    && forall n :: 0 <= n < |results| ==>
         var seen := Seen(start, ids, results[..n], clock, others);
         ids[n] in seen && Published(s, seen[ids[n]], network(n), results[n])
  }

  lemma PassNext(s: Settings, start: Rows, ids: seq<nat>, network: nat -> (nat -> Reply), clock: nat -> Time,
                 others: Others, results: seq<PublishResult>, result: PublishResult)
    requires PassOver(s, start, ids, network, clock, others, results) && |results| < |ids|
    requires var seen := Seen(start, ids, results, clock, others);
             ids[|results|] in seen && Published(s, seen[ids[|results|]], network(|results|), result)
    ensures PassOver(s, start, ids, network, clock, others, results + [result])
  {
    hide Published, Seen;
    var more := results + [result];
    assert more[..|results|] == results;
    forall n | 0 <= n < |results| ensures more[..n] == results[..n] && more[n] == results[n] {
    }
  }

  /** How the pass ends: after the whole page with every result recorded, or raised at the first row that
      was gone, either when it was to be read or when its result was to be recorded. */
  ghost predicate Ends(start: Rows, ids: seq<nat>, results: seq<PublishResult>, clock: nat -> Time, others: Others,
                       end: Rows, raised: bool)
    requires |results| <= |ids|
  {
    if !raised then
      |results| == |ids| && end == Drained(start, ids, results, clock, others)
    else
      var n := |results|;
      || (n < |ids| && end == Seen(start, ids, results, clock, others) && ids[n] !in end)
      || (n > 0 && end == Heard(start, ids, results, clock, others) && ids[n - 1] !in end)
  }

  /** The result is what one publish of this row's payload and key gives under these replies. */
  ghost predicate Published(s: Settings, row: Row, replies: nat -> Reply, result: PublishResult) {
    if Refusal(s, row.payload, row.key) != NoCause then
      result == PublishResult(false, 0, false, Refusal(s, row.payload, row.key))
    else
      exists k: nat :: StopsAt(replies, Attempts(s), k) && result == Verdict(replies(k), k)
  }

  lemma SubmapSmaller(a: Rows, b: Rows)
    requires a.Keys <= b.Keys
    ensures |a| <= |b|
  {
    SubsetSmaller(a.Keys, b.Keys);
  }

  lemma SubsetSmaller(a: set<nat>, b: set<nat>)
    requires a <= b
    ensures |a| <= |b|
  {
    if a != {} {
      var x :| x in a;
      SubsetSmaller(a - {x}, b - {x});
    }
  }
}
