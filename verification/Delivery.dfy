/**
 The notification delivery protocol: committing transactions, any number of drainers, an
 asynchronous network that may lose, delay or repeat messages, crashes at every point, retries and
 pruning, running against the idempotent receiver of docs/notify-runtime.md.
 */
module Delivery {
  import opened Common
  import opened Notify
  import opened Publisher
  import opened Outbox

  datatype Request = Request(key: string, payload: Payload)

  /** The receiver's answers to a request it processed: 201, 200 with the replay header, 409. */
  datatype Outcome = Created | Replay | Conflict

  /** A drainer holds what it read from one row, then the result of publishing it. */
  datatype Drainer = Idle | Holding(id: nat, request: Request) | Finished(id: nat, request: Request, delivered: bool)

  datatype World = World(
    rows: Rows,
    nextId: nat,
    committed: map<string, Payload>,
    wire: set<Request>,
    accepted: set<Request>,
    conflicts: nat,
    receiver: map<string, Payload>,
    fanout: seq<string>,
    drainers: map<nat, Drainer>)

  datatype Action =
    | Commit(row: Row)
    | Pick(d: nat, id: nat)
    | Send(d: nat)
    | Process(request: Request)
    | Hear(d: nat)
    | GiveUp(d: nat)
    | Record(d: nat, result: PublishResult, now: Time)
    | Crash(d: nat)
    | PruneTo(cutoff: Time)

  function DrainerOf(w: World, d: nat): Drainer { if d in w.drainers then w.drainers[d] else Idle }

  /** What the receiver does with a request: store and fan out once, replay, or refuse. */
  function Answer(receiver: map<string, Payload>, r: Request): Outcome {
    if r.key !in receiver then Created
    else if receiver[r.key] == r.payload then Replay
    else Conflict
  }

  predicate Enabled(w: World, a: Action) {
    match a
    case Commit(row) => row.key !in w.committed && row.deliveredAt.None?
    case Pick(d, id) => DrainerOf(w, d).Idle? && id in w.rows
    case Send(d) => DrainerOf(w, d).Holding?
    case Process(request) => request in w.wire
    case Hear(d) => DrainerOf(w, d).Holding? && DrainerOf(w, d).request in w.accepted
    case GiveUp(d) => DrainerOf(w, d).Holding?
    case Record(d, result, _) => DrainerOf(w, d).Finished? && DrainerOf(w, d).delivered == result.delivered
    case Crash(d) => true
    case PruneTo(_) => true
  }

  /** One atomic step; an action that is not enabled changes nothing. Requests stay on the wire, so a
      request may be processed late, or more than once; an acceptance may never be heard. */
  function Next(w: World, a: Action): World {
    if !Enabled(w, a) then w
    else match a
      case Commit(row) =>
        w.(rows := w.rows[w.nextId := row], nextId := w.nextId + 1, committed := w.committed[row.key := row.payload])
      case Pick(d, id) =>
        w.(drainers := w.drainers[d := Holding(id, Request(w.rows[id].key, w.rows[id].payload))])
      case Send(d) => w.(wire := w.wire + {DrainerOf(w, d).request})
      case Process(r) =>
        (match Answer(w.receiver, r)
         case Created =>
           w.(receiver := w.receiver[r.key := r.payload], fanout := w.fanout + [r.key], accepted := w.accepted + {r})
         case Replay => w.(accepted := w.accepted + {r})
         case Conflict => w.(conflicts := w.conflicts + 1))
      case Hear(d) => w.(drainers := w.drainers[d := Finished(DrainerOf(w, d).id, DrainerOf(w, d).request, true)])
      case GiveUp(d) => w.(drainers := w.drainers[d := Finished(DrainerOf(w, d).id, DrainerOf(w, d).request, false)])
      case Record(d, result, now) =>
        var id := DrainerOf(w, d).id;
        w.(drainers := w.drainers[d := Idle],
           rows := if id in w.rows then w.rows[id := Recorded(w.rows[id], result, now)] else w.rows)
      case Crash(d) => w.(drainers := w.drainers[d := Idle])
      case PruneTo(cutoff) => w.(rows := Surviving(w.rows, cutoff))
  }

  const START := World(map[], 0, map[], {}, {}, 0, map[], [], map[])

  function Execute(w: World, actions: seq<Action>): World {
    if actions == [] then w else Next(Execute(w, actions[..|actions| - 1]), actions[|actions| - 1])
  }

  // ---- The invariant --------------------------------------------------------------------------

  type Ledger = map<string, Payload>

  predicate Matches(committed: Ledger, r: Request) {
    r.key in committed && committed[r.key] == r.payload
  }

  function RequestOf(row: Row): Request { Request(row.key, row.payload) }

  ghost predicate RowsSound(rows: Rows, nextId: nat, committed: Ledger, receiver: Ledger) {
    forall id :: id in rows ==>
      && id < nextId && Matches(committed, RequestOf(rows[id]))
      && (rows[id].deliveredAt.Some? ==> rows[id].key in receiver)
  }

  ghost predicate TrafficSound(wire: set<Request>, accepted: set<Request>, committed: Ledger, receiver: Ledger) {
    && (forall r :: r in wire ==> Matches(committed, r))
    && (forall r :: r in accepted ==> r.key in receiver)
  }

  ghost predicate ReceiverSound(receiver: Ledger, fanout: seq<string>, committed: Ledger) {
    && (forall k :: k in receiver ==> Matches(committed, Request(k, receiver[k])))
    && (forall k :: k in fanout <==> k in receiver)
    && (forall i, j :: 0 <= i < j < |fanout| ==> fanout[i] != fanout[j])
  }

  ghost predicate DrainerSound(d: Drainer, rows: Rows, nextId: nat, committed: Ledger, receiver: Ledger) {
    d.Idle? || (
      && d.id < nextId && Matches(committed, d.request)
      && (d.id in rows ==> RequestOf(rows[d.id]) == d.request)
      && (d.Finished? && d.delivered ==> d.request.key in receiver))
  }

  ghost predicate DrainersSound(drainers: map<nat, Drainer>, rows: Rows, nextId: nat, committed: Ledger,
                                receiver: Ledger) {
    forall d :: d in drainers ==> DrainerSound(drainers[d], rows, nextId, committed, receiver)
  }

  /** A row for this transition is still waiting to be delivered. */
  ghost predicate Pending(rows: Rows, key: string) {
    exists id :: id in rows && rows[id].key == key && rows[id].deliveredAt.None?
  }

  ghost predicate NothingLost(committed: Ledger, receiver: Ledger, rows: Rows) {
    forall k :: k in committed ==> k in receiver || Pending(rows, k)
  }

  ghost predicate Safe(w: World) {
    && RowsSound(w.rows, w.nextId, w.committed, w.receiver)
    && TrafficSound(w.wire, w.accepted, w.committed, w.receiver)
    && ReceiverSound(w.receiver, w.fanout, w.committed) && w.conflicts == 0
    && DrainersSound(w.drainers, w.rows, w.nextId, w.committed, w.receiver)
    && NothingLost(w.committed, w.receiver, w.rows)
  }

  // ---- Every step keeps it ----------------------------------------------------------------------

  lemma CommitKeepsSafe(w: World, row: Row)
    requires Safe(w) && row.key !in w.committed && row.deliveredAt.None?
    ensures Safe(Next(w, Commit(row)))
  {
    hide RowsSound, TrafficSound, ReceiverSound, DrainersSound, NothingLost;
    LedgerAfterCommit(w, row);
    DrainersAfterCommit(w, row);
    PendingAfterCommit(w, row);
  }

  lemma LedgerAfterCommit(w: World, row: Row)
    requires Safe(w) && row.key !in w.committed && row.deliveredAt.None?
    ensures var rows, committed := w.rows[w.nextId := row], w.committed[row.key := row.payload];
            && RowsSound(rows, w.nextId + 1, committed, w.receiver)
            && TrafficSound(w.wire, w.accepted, committed, w.receiver)
            && ReceiverSound(w.receiver, w.fanout, committed)
  {
    hide DrainersSound, NothingLost;
  }

  lemma DrainersAfterCommit(w: World, row: Row)
    requires Safe(w) && row.key !in w.committed
    ensures DrainersSound(w.drainers, w.rows[w.nextId := row], w.nextId + 1, w.committed[row.key := row.payload],
                          w.receiver)
  {
    hide TrafficSound, ReceiverSound, NothingLost;
    var rows, committed := w.rows[w.nextId := row], w.committed[row.key := row.payload];
    forall d | d in w.drainers ensures DrainerSound(w.drainers[d], rows, w.nextId + 1, committed, w.receiver) {
      assert DrainerSound(w.drainers[d], w.rows, w.nextId, w.committed, w.receiver);
    }
  }

  lemma PendingAfterCommit(w: World, row: Row)
    requires Safe(w) && row.deliveredAt.None?
    ensures NothingLost(w.committed[row.key := row.payload], w.receiver, w.rows[w.nextId := row])
  {
    hide TrafficSound, ReceiverSound, DrainersSound;
    var rows, committed := w.rows[w.nextId := row], w.committed[row.key := row.payload];
    assert rows[w.nextId] == row;
    forall k | k in committed && k !in w.receiver && k != row.key ensures Pending(rows, k) {
      assert Pending(w.rows, k);
      var id :| id in w.rows && w.rows[id].key == k && w.rows[id].deliveredAt.None?;
      assert rows[id] == w.rows[id];
    }
  }

  lemma ProcessKeepsSafe(w: World, r: Request)
    requires Safe(w) && r in w.wire
    ensures Safe(Next(w, Process(r)))
  {
    hide RowsSound, DrainersSound, NothingLost;
    assert Matches(w.committed, r);
    if r.key in w.receiver {
      assert Matches(w.committed, Request(r.key, w.receiver[r.key]));
    } else {
      ReceiverGrows(w, r);
    }
  }

  /** What was sound stays sound when the receiver learns one more notification. */
  lemma ReceiverGrows(w: World, r: Request)
    requires Safe(w) && r.key !in w.receiver
    ensures var receiver := w.receiver[r.key := r.payload];
            && RowsSound(w.rows, w.nextId, w.committed, receiver)
            && DrainersSound(w.drainers, w.rows, w.nextId, w.committed, receiver)
            && NothingLost(w.committed, receiver, w.rows)
  {
    hide TrafficSound, ReceiverSound;
    var receiver := w.receiver[r.key := r.payload];
    forall d | d in w.drainers ensures DrainerSound(w.drainers[d], w.rows, w.nextId, w.committed, receiver) {
      assert DrainerSound(w.drainers[d], w.rows, w.nextId, w.committed, w.receiver);
    }
  }

  /** Replacing the rows by ones that keep each surviving row's request keeps the drainers sound. */
  lemma DrainersAfterRows(w: World, rows: Rows, drainers: map<nat, Drainer>)
    requires DrainersSound(drainers, w.rows, w.nextId, w.committed, w.receiver)
    requires forall id :: id in rows ==> id in w.rows && RequestOf(rows[id]) == RequestOf(w.rows[id])
    ensures DrainersSound(drainers, rows, w.nextId, w.committed, w.receiver)
  {
    forall d | d in drainers ensures DrainerSound(drainers[d], rows, w.nextId, w.committed, w.receiver) {
      assert DrainerSound(drainers[d], w.rows, w.nextId, w.committed, w.receiver);
    }
  }

  lemma RecordKeepsSafe(w: World, d: nat, result: PublishResult, now: Time)
    requires Safe(w) && Enabled(w, Record(d, result, now))
    ensures Safe(Next(w, Record(d, result, now)))
  {
    var id := w.drainers[d].id;
    var drainers := w.drainers[d := Idle];
    assert DrainersSound(drainers, w.rows, w.nextId, w.committed, w.receiver);
    hide RowsSound, TrafficSound, ReceiverSound, DrainersSound, NothingLost, Recorded;
    if id in w.rows {
      RowAfterRecord(w, d, result, now);
      PendingAfterRecord(w, d, result, now);
      RecordedKeepsRequest(w.rows[id], result, now);
      DrainersAfterRows(w, w.rows[id := Recorded(w.rows[id], result, now)], drainers);
    }
  }

  lemma RecordedKeepsRequest(row: Row, result: PublishResult, now: Time)
    ensures RequestOf(Recorded(row, result, now)) == RequestOf(row)
  {
  }

  lemma RowAfterRecord(w: World, d: nat, result: PublishResult, now: Time)
    requires Safe(w) && Enabled(w, Record(d, result, now)) && w.drainers[d].id in w.rows
    ensures var id := w.drainers[d].id;
            RowsSound(w.rows[id := Recorded(w.rows[id], result, now)], w.nextId, w.committed, w.receiver)
  {
    hide TrafficSound, ReceiverSound, NothingLost;
    assert DrainerSound(w.drainers[d], w.rows, w.nextId, w.committed, w.receiver);
  }

  lemma PendingAfterRecord(w: World, d: nat, result: PublishResult, now: Time)
    requires Safe(w) && Enabled(w, Record(d, result, now)) && w.drainers[d].id in w.rows
    ensures var id := w.drainers[d].id;
            NothingLost(w.committed, w.receiver, w.rows[id := Recorded(w.rows[id], result, now)])
  {
    hide TrafficSound, ReceiverSound, RowsSound;
    var id := w.drainers[d].id;
    var rows := w.rows[id := Recorded(w.rows[id], result, now)];
    assert DrainerSound(w.drainers[d], w.rows, w.nextId, w.committed, w.receiver);
    forall k | k in w.committed && k !in w.receiver ensures Pending(rows, k) {
      assert Pending(w.rows, k);
      var j :| j in w.rows && w.rows[j].key == k && w.rows[j].deliveredAt.None?;
      assert rows[j].key == k && rows[j].deliveredAt.None?;
    }
  }

  lemma PruneKeepsSafe(w: World, cutoff: Time)
    requires Safe(w)
    ensures Safe(Next(w, PruneTo(cutoff)))
  {
    var rows := Surviving(w.rows, cutoff);
    DrainersAfterRows(w, rows, w.drainers);
    forall k | k in w.committed ensures k in w.receiver || Pending(rows, k) {
      if k !in w.receiver {
        var id :| id in w.rows && w.rows[id].key == k && w.rows[id].deliveredAt.None?;
        assert rows[id] == w.rows[id];
      }
    }
  }

  /** Steps that move only one drainer, or only put its request on the wire. */
  lemma DrainerStepKeepsSafe(w: World, a: Action)
    requires Safe(w) && Enabled(w, a) && (a.Pick? || a.Send? || a.Hear? || a.GiveUp? || a.Crash?)
    ensures Safe(Next(w, a))
  {
    var w' := Next(w, a);
    if a.Pick? {
      assert Matches(w.committed, RequestOf(w.rows[a.id]));
    } else if a.d in w.drainers {
      assert DrainerSound(w.drainers[a.d], w.rows, w.nextId, w.committed, w.receiver);
    }
    assert w'.rows == w.rows && w'.committed == w.committed && w'.receiver == w.receiver;
    forall d | d in w'.drainers ensures DrainerSound(w'.drainers[d], w.rows, w.nextId, w.committed, w.receiver) {
      if d in w.drainers {
        assert DrainerSound(w.drainers[d], w.rows, w.nextId, w.committed, w.receiver);
      }
    }
  }

  lemma NextKeepsSafe(w: World, a: Action)
    requires Safe(w)
    ensures Safe(Next(w, a))
  {
    hide Safe, Recorded;
    if Enabled(w, a) {
      match a
      case Commit(row) => CommitKeepsSafe(w, row);
      case Process(r) => ProcessKeepsSafe(w, r);
      case Record(d, result, now) => RecordKeepsSafe(w, d, result, now);
      case PruneTo(cutoff) => PruneKeepsSafe(w, cutoff);
      case _ => DrainerStepKeepsSafe(w, a);
    }
  }

  lemma {:induction false} ExecuteSafe(actions: seq<Action>)
    ensures Safe(Execute(START, actions))
  {
    if actions != [] {
      ExecuteSafe(actions[..|actions| - 1]);
      NextKeepsSafe(Execute(START, actions[..|actions| - 1]), actions[|actions| - 1]);
    }
  }

  /** Under any interleaving: the receiver holds at most one notification per key, each with exactly the
      committed payload; it never answers 409; a delivered row's key is at the receiver; and every
      committed transition is at the receiver or still pending in the outbox. */
  lemma DeliveryIsSafe(actions: seq<Action>)
    ensures var w := Execute(START, actions);
            && w.conflicts == 0
            && (forall i, j :: 0 <= i < j < |w.fanout| ==> w.fanout[i] != w.fanout[j])
            && (forall k :: k in w.fanout <==> k in w.receiver)
            && (forall k :: k in w.receiver ==> k in w.committed && w.receiver[k] == w.committed[k])
            && (forall id :: id in w.rows && w.rows[id].deliveredAt.Some? ==> w.rows[id].key in w.receiver)
            && (forall k :: k in w.committed ==> k in w.receiver || Pending(w.rows, k))
  {
    ExecuteSafe(actions);
    var w := Execute(START, actions);
    forall k | k in w.receiver ensures k in w.committed && w.receiver[k] == w.committed[k] {
      assert Matches(w.committed, Request(k, w.receiver[k]));
    }
  }

  // ---- What no step undoes ----------------------------------------------------------------------

  /** From w to the later w': rows keep key and payload, and once delivered do not change at all; only
      rows whose notification the receiver holds disappear, and ids are not reused; the receiver
      neither changes nor forgets a notification. */
  ghost predicate Continues(w: World, w': World) {
    && w.nextId <= w'.nextId
    && (forall id :: id in w.rows && id in w'.rows ==> RequestOf(w'.rows[id]) == RequestOf(w.rows[id]))
    && (forall id :: id in w.rows && id in w'.rows && w.rows[id].deliveredAt.Some? ==> w'.rows[id] == w.rows[id])
    && (forall id :: id in w'.rows && id < w.nextId ==> id in w.rows)
    && (forall id :: id in w.rows && id !in w'.rows ==> w.rows[id].key in w'.receiver)
    && (forall k :: k in w.receiver ==> k in w'.receiver && w'.receiver[k] == w.receiver[k])
    && w.fanout <= w'.fanout
  }

  lemma StepContinues(w: World, a: Action)
    requires Safe(w)
    ensures Continues(w, Next(w, a))
  {
    hide Safe, Continues, RowsSound;
    if Enabled(w, a) {
      match a
      case Commit(row) => CommitContinues(w, row);
      case Process(r) => ProcessContinues(w, r);
      case Record(d, result, now) => RecordedContinues(w, a);
      case PruneTo(cutoff) => PruneContinues(w, cutoff);
      case _ => UntouchedContinues(w, Next(w, a));
    } else {
      UntouchedContinues(w, w);
    }
  }

  lemma UntouchedContinues(w: World, w': World)
    requires w'.rows == w.rows && w'.nextId == w.nextId && w'.receiver == w.receiver && w'.fanout == w.fanout
    ensures Continues(w, w')
  {
  }

  lemma CommitContinues(w: World, row: Row)
    requires Safe(w) && Enabled(w, Commit(row))
    ensures Continues(w, Next(w, Commit(row)))
  {
    hide TrafficSound, ReceiverSound, DrainersSound, NothingLost, Matches;
    assert w.nextId !in w.rows;
  }

  lemma ProcessContinues(w: World, r: Request)
    requires Enabled(w, Process(r))
    ensures Continues(w, Next(w, Process(r)))
  {
    assert Next(w, Process(r)).fanout == w.fanout || Next(w, Process(r)).fanout == w.fanout + [r.key];
  }

  lemma PruneContinues(w: World, cutoff: Time)
    requires Safe(w)
    ensures Continues(w, Next(w, PruneTo(cutoff)))
  {
    hide TrafficSound, ReceiverSound, DrainersSound, NothingLost, Matches;
  }

  lemma RecordedContinues(w: World, a: Action)
    requires Safe(w) && a.Record? && Enabled(w, a)
    ensures Continues(w, Next(w, a))
  {
    hide Safe;
    assert Next(w, a).fanout == w.fanout && Next(w, a).receiver == w.receiver;
  }

  lemma ContinuesTransitive(u: World, v: World, w: World)
    requires Continues(u, v) && Continues(v, w)
    requires forall id :: id in u.rows ==> id < u.nextId
    ensures Continues(u, w)
  {
    forall id | id in u.rows && id !in w.rows ensures u.rows[id].key in w.receiver {
      if id in v.rows {
        assert RequestOf(v.rows[id]) == RequestOf(u.rows[id]);
      }
    }
    forall id | id in u.rows && id in w.rows ensures id in v.rows {
    }
  }

  /** delivered_at is written once, a pending row is never deleted, and no notification is withdrawn. */
  lemma {:induction false} HistoryIsKept(actions: seq<Action>, more: seq<Action>)
    ensures Continues(Execute(START, actions), Execute(START, actions + more))
  {
    var w := Execute(START, actions);
    ExecuteSafe(actions);
    if more == [] {
      assert actions + more == actions;
    } else {
      var front := more[..|more| - 1];
      assert (actions + more)[..|actions + more| - 1] == actions + front;
      var v := Execute(START, actions + front);
      HistoryIsKept(actions, front);
      ExecuteSafe(actions + front);
      StepContinues(v, more[|more| - 1]);
      ContinuesTransitive(w, v, Next(v, more[|more| - 1]));
    }
  }

  // ---- Recovery ---------------------------------------------------------------------------------

  /** From every reachable world a pending row can be delivered by one undisturbed drainer, whatever was
      lost or crashed before; if the receiver already held the notification it is not fanned out again. */
  lemma PendingCanBeDelivered(actions: seq<Action>, d: nat, id: nat, result: PublishResult, now: Time)
    requires var w := Execute(START, actions); id in w.rows && w.rows[id].deliveredAt.None? && DrainerOf(w, d).Idle?
    requires result.delivered
    ensures var w := Execute(START, actions);
            var r := RequestOf(w.rows[id]);
            var v := Next(Next(Next(Next(Next(w, Pick(d, id)), Send(d)), Process(r)), Hear(d)), Record(d, result, now));
            && id in v.rows && v.rows[id].deliveredAt == Some(now) && DrainerOf(v, d).Idle?
            && v.fanout == if r.key in w.receiver then w.fanout else w.fanout + [r.key]
  {
    var w := Execute(START, actions);
    ExecuteSafe(actions);
    hide Execute, DrainersSound, NothingLost, TrafficSound;
    var r := RequestOf(w.rows[id]);
    assert Matches(w.committed, r);
    var a := Next(w, Pick(d, id));
    var b := Next(a, Send(d));
    assert r in b.wire && DrainerOf(b, d) == Holding(id, r);
    if r.key in w.receiver {
      assert Matches(w.committed, Request(r.key, w.receiver[r.key]));
    }
    var c := Next(b, Process(r));
    assert r in c.accepted && DrainerOf(c, d) == Holding(id, r) && c.rows == w.rows;
    var e := Next(c, Hear(d));
    assert DrainerOf(e, d) == Finished(id, r, true);
  }

  // ---- The engine as the committing side --------------------------------------------------------

  /** The check that a transition comes from, and its event type. */
  datatype Origin = Origin(event: EventType, monitor: nat, check: nat, at: Time)

  function KeyOf(codec: Codec, o: Origin): Result<string> {
    CreateKey(codec, o.event, TransitionId(codec, o.monitor, o.check, o.at))
  }

  /** Commit k of the run writes the row of origin(k), a check result of its own among all monitors. */
  ghost predicate FromEngine(codec: Codec, actions: seq<Action>, origin: nat -> Origin) {
    && (forall k :: 0 <= k < |actions| && actions[k].Commit? ==>
          && actions[k].row.deliveredAt.None? && KeyOf(codec, origin(k)) == Ok(actions[k].row.key)
          && RowId(origin(k).monitor) && RowId(origin(k).check))
    && (forall j, k :: 0 <= j < k < |actions| && actions[j].Commit? && actions[k].Commit?
                       ==> origin(j).check != origin(k).check)
  }

  /** Every committed key was written by some commit of the run. */
  lemma {:induction false} CommittedByRun(actions: seq<Action>)
    ensures forall key :: key in Execute(START, actions).committed ==>
              exists k :: 0 <= k < |actions| && actions[k].Commit? && actions[k].row.key == key
  {
    if actions != [] {
      var n := |actions| - 1;
      CommittedByRun(actions[..n]);
      forall key | key in Execute(START, actions).committed
        ensures exists k :: 0 <= k < |actions| && actions[k].Commit? && actions[k].row.key == key
      {
        if key in Execute(START, actions[..n]).committed {
          var k :| 0 <= k < n && actions[..n][k].Commit? && actions[..n][k].row.key == key;
          assert actions[k].row.key == key;
        } else {
          assert actions[n].row.key == key;
        }
      }
    }
  }

  /** Across all monitors a transition's key is new when it is committed, so that no commit of the engine
      is ever refused by the unique constraint: the guard of Commit always holds. */
  lemma EngineCommitsAreEnabled(codec: Codec, actions: seq<Action>, origin: nat -> Origin, k: nat)
    requires Faithful(codec) && FromEngine(codec, actions, origin) && k < |actions| && actions[k].Commit?
    ensures Enabled(Execute(START, actions[..k]), actions[k])
  {
    hide Faithful, Execute, CreateKey, TransitionId;
    CommittedByRun(actions[..k]);
    if actions[k].row.key in Execute(START, actions[..k]).committed {
      var j :| 0 <= j < k && actions[..k][j].Commit? && actions[..k][j].row.key == actions[k].row.key;
      var a, b := origin(j), origin(k);
      assert actions[j].Commit? && KeyOf(codec, a) == KeyOf(codec, b);
      KeysDistinct(codec, a.event, a.monitor, a.check, a.at, b.event, b.monitor, b.check, b.at);
    }
  }

  // ---- The publish loop as the hearing side -----------------------------------------------------

  /** The response that carries the receiver's answer. */
  function ResponseOf(o: Outcome): Reply {
    match o
    case Created => Http(201, false)
    case Replay => Http(200, true)
    case Conflict => Http(409, false)
  }

  /** Attempt i was answered by the receiver, or by no acceptance at all: a lost response, an error of the
      network or of a proxy. */
  ghost predicate Answered(replies: nat -> Reply, answers: nat -> Option<Outcome>) {
    forall i: nat :: match answers(i)
                     case Some(o) => replies(i) == ResponseOf(o)
                     case None => !Accepted(replies(i))
  }

  /** A drainer hears an acceptance exactly when its publish loop reports delivery: some attempt got the
      receiver's 201 or confirmed replay. The replay flag says which, and a conflict is reported as one. */
  lemma PublishHears(s: Settings, replies: nat -> Reply, answers: nat -> Option<Outcome>, posts: nat)
    requires StopsAt(replies, Attempts(s), posts) && Answered(replies, answers)
    ensures var result := Verdict(replies(posts), posts);
            && (result.delivered <==>
                  exists i :: 1 <= i <= posts && (answers(i) == Some(Created) || answers(i) == Some(Replay)))
            && (result.delivered ==> (result.replayed <==> answers(posts) == Some(Replay)))
            && (answers(posts) == Some(Conflict) ==> result == PublishResult(false, posts, false, IdempotencyConflict))
  {
    DeliveredIffAccepted(s, replies, posts);
    forall i: nat ensures Accepted(replies(i)) <==> answers(i) == Some(Created) || answers(i) == Some(Replay) {
      assert match answers(i) case Some(o) => replies(i) == ResponseOf(o) case None => !Accepted(replies(i));
    }
  }
}
