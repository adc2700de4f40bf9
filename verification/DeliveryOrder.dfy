/**
 The order in which notifications of one monitor reach the receiver: it is the order of their commits
 exactly when no request overtakes, and it is kept by drainers that serve each monitor's oldest pending
 row first, which the drain pass of src/monitoring/outbox.py does not promise once a row is deferred.
 */
module DeliveryOrder {
  import opened Common
  import opened Notify
  import opened Publisher
  import opened Outbox
  import opened Delivery

  /** The keys in the order of their commits. */
  function Order(actions: seq<Action>): seq<string> {
    if actions == [] then []
    else
      var front, a := actions[..|actions| - 1], actions[|actions| - 1];
      if a.Commit? && Enabled(Execute(START, front), a) then Order(front) + [a.row.key] else Order(front)
  }

  ghost predicate Distinct(order: seq<string>) { forall i, j :: 0 <= i < j < |order| ==> order[i] != order[j] }

  ghost predicate Precedes(order: seq<string>, x: string, y: string) {
    exists i, j :: 0 <= i < j < |order| && order[i] == x && order[j] == y
  }

  lemma PrecedesTotal(order: seq<string>, x: string, y: string)
    requires Distinct(order) && x in order && y in order && x != y
    ensures Precedes(order, x, y) <==> !Precedes(order, y, x)
  {
    var i :| 0 <= i < |order| && order[i] == x;
    var j :| 0 <= j < |order| && order[j] == y;
  }

  lemma PrecedesGrows(order: seq<string>, key: string, x: string, y: string)
    requires key !in order && y in order
    ensures Precedes(order + [key], x, y) <==> Precedes(order, x, y)
  {
    var more := order + [key];
    if Precedes(more, x, y) {
      var i, j :| 0 <= i < j < |more| && more[i] == x && more[j] == y;
      assert j < |order| && order[i] == x && order[j] == y;
    }
    if Precedes(order, x, y) {
      var i, j :| 0 <= i < j < |order| && order[i] == x && order[j] == y;
      assert more[i] == x && more[j] == y;
    }
  }

  /** Notifications of one group (one monitor) have been fanned out in the order of their commits. */
  ghost predicate InOrder(order: seq<string>, fanout: seq<string>, group: string -> nat) {
    forall p, q :: 0 <= p < q < |fanout| && group(fanout[p]) == group(fanout[q])
                   ==> Precedes(order, fanout[p], fanout[q])
  }

  /** The step fans out a notification although a later one of its group is already there. */
  ghost predicate Overtaken(w: World, a: Action, order: seq<string>, group: string -> nat) {
    && a.Process? && a.request in w.wire && a.request.key !in w.receiver
    && exists key :: key in w.receiver && group(key) == group(a.request.key) && Precedes(order, a.request.key, key)
  }

  /** Rows and the commit order belong together; a row that is gone has reached the receiver. */
  ghost predicate Indexed(w: World, order: seq<string>) {
    && Distinct(order) && |order| == w.nextId && (forall key :: key in order <==> key in w.committed)
    && (forall id :: id in w.rows ==> id < |order| && w.rows[id].key == order[id])
    && (forall id :: 0 <= id < |order| && id !in w.rows ==> order[id] in w.receiver)
  }

  lemma IndexedCommit(w: World, row: Row, order: seq<string>)
    requires Safe(w) && Indexed(w, order) && Enabled(w, Commit(row))
    ensures Indexed(Next(w, Commit(row)), order + [row.key])
  {
    hide Safe;
    var w', more := Next(w, Commit(row)), order + [row.key];
    assert w'.rows == w.rows[w.nextId := row] && w'.receiver == w.receiver && w'.nextId == w.nextId + 1;
    assert row.key !in order && more[|order|] == row.key;
    assert forall i :: 0 <= i < |order| ==> more[i] == order[i];
  }

  lemma IndexedRows(w: World, w': World, order: seq<string>)
    requires Indexed(w, order) && w'.nextId == w.nextId && w'.committed == w.committed
    requires forall id :: id in w'.rows ==> id in w.rows && w'.rows[id].key == w.rows[id].key
    requires forall id :: id in w.rows && id !in w'.rows ==> w.rows[id].key in w'.receiver
    requires forall key :: key in w.receiver ==> key in w'.receiver
    ensures Indexed(w', order)
  {
  }

  lemma IndexedStep(w: World, a: Action, order: seq<string>)
    requires Safe(w) && Indexed(w, order)
    ensures Indexed(Next(w, a), if a.Commit? && Enabled(w, a) then order + [a.row.key] else order)
  {
    hide TrafficSound, ReceiverSound, NothingLost, DrainersSound, Indexed, Matches;
    if a.Commit? && Enabled(w, a) {
      IndexedCommit(w, a.row, order);
    } else {
      IndexedRows(w, Next(w, a), order);
    }
  }

  lemma {:induction false} AlwaysIndexed(actions: seq<Action>)
    ensures Safe(Execute(START, actions)) && Indexed(Execute(START, actions), Order(actions))
  {
    ExecuteSafe(actions);
    if actions != [] {
      hide Safe, Indexed, Next, Enabled;
      var front := actions[..|actions| - 1];
      AlwaysIndexed(front);
      IndexedStep(Execute(START, front), actions[|actions| - 1], Order(front));
    }
  }

  /** Every notification that was fanned out was committed. */
  lemma FanoutIsCommitted(w: World, order: seq<string>)
    requires Safe(w) && Indexed(w, order)
    ensures forall key :: key in w.fanout ==> key in order && key in w.receiver
    ensures forall key :: key in w.receiver ==> key in w.fanout && key in order
    ensures forall r :: r in w.wire ==> r.key in order
  {
    hide RowsSound, DrainersSound, NothingLost;
    forall key | key in w.receiver ensures key in order {
      assert Matches(w.committed, Request(key, w.receiver[key]));
    }
    forall r | r in w.wire ensures r.key in order {
      assert Matches(w.committed, r);
    }
  }

  lemma CommitKeepsInOrder(w: World, order: seq<string>, key: string, group: string -> nat)
    requires Safe(w) && Indexed(w, order) && key !in order
    ensures InOrder(order + [key], w.fanout, group) <==> InOrder(order, w.fanout, group)
  {
    hide Safe, Indexed, Precedes;
    FanoutIsCommitted(w, order);
    forall p, q | 0 <= p < q < |w.fanout|
      ensures Precedes(order + [key], w.fanout[p], w.fanout[q]) <==> Precedes(order, w.fanout[p], w.fanout[q])
    {
      PrecedesGrows(order, key, w.fanout[p], w.fanout[q]);
    }
  }

  /** A notification that is not overtaken stands behind all of its group that are there. */
  lemma StandsBehind(w: World, r: Request, order: seq<string>, group: string -> nat)
    requires Safe(w) && Indexed(w, order) && r in w.wire && r.key !in w.receiver
    ensures !Overtaken(w, Process(r), order, group)
            <==> forall key :: key in w.fanout && group(key) == group(r.key) ==> Precedes(order, key, r.key)
  {
    FanoutIsCommitted(w, order);
    assert Distinct(order);
    hide Safe, Indexed, Precedes, Distinct;
    forall key | key in w.receiver ensures Precedes(order, key, r.key) <==> !Precedes(order, r.key, key) {
      PrecedesTotal(order, key, r.key);
    }
  }

  lemma InOrderAppend(order: seq<string>, fanout: seq<string>, key: string, group: string -> nat)
    ensures InOrder(order, fanout + [key], group)
            <==> InOrder(order, fanout, group)
                 && forall x :: x in fanout && group(x) == group(key) ==> Precedes(order, x, key)
  {
    hide Precedes;
    var more := fanout + [key];
    assert more[|fanout|] == key && forall p :: 0 <= p < |fanout| ==> more[p] == fanout[p];
    if InOrder(order, more, group) {
      forall x | x in fanout && group(x) == group(key) ensures Precedes(order, x, key) {
        var p :| 0 <= p < |fanout| && fanout[p] == x;
        assert more[p] == x;
      }
      forall p, q | 0 <= p < q < |fanout| && group(fanout[p]) == group(fanout[q])
        ensures Precedes(order, fanout[p], fanout[q])
      {
        assert Precedes(order, more[p], more[q]);
      }
    }
  }

  lemma FanoutKeepsInOrder(w: World, r: Request, order: seq<string>, group: string -> nat)
    requires Safe(w) && Indexed(w, order) && r in w.wire && r.key !in w.receiver
    ensures InOrder(order, w.fanout + [r.key], group)
            <==> InOrder(order, w.fanout, group) && !Overtaken(w, Process(r), order, group)
  {
    hide Safe, Indexed, InOrder, Overtaken, Precedes;
    StandsBehind(w, r, order, group);
    InOrderAppend(order, w.fanout, r.key, group);
  }

  lemma StepKeepsInOrderIff(w: World, a: Action, order: seq<string>, group: string -> nat)
    requires Safe(w) && Indexed(w, order)
    ensures var more := if a.Commit? && Enabled(w, a) then order + [a.row.key] else order;
            InOrder(more, Next(w, a).fanout, group)
            <==> InOrder(order, w.fanout, group) && !Overtaken(w, a, order, group)
  {
    hide Safe, InOrder, Precedes;
    if Enabled(w, a) {
      match a
      case Commit(row) => CommitKeepsInOrder(w, order, row.key, group);
      case Process(r) =>
        if r.key !in w.receiver {
          FanoutKeepsInOrder(w, r, order, group);
        }
      case _ =>
    }
  }

  /** Step k of the run is overtaken. */
  ghost predicate OvertakenAt(actions: seq<Action>, k: nat, group: string -> nat)
    requires k < |actions|
  {
    Overtaken(Execute(START, actions[..k]), actions[k], Order(actions[..k]), group)
  }

  lemma OvertakenAtFront(actions: seq<Action>, group: string -> nat)
    requires actions != []
    ensures var n := |actions| - 1;
            forall k :: 0 <= k < n ==> OvertakenAt(actions[..n], k, group) == OvertakenAt(actions, k, group)
  {
    hide Overtaken, Execute, Order;
    var n := |actions| - 1;
    assert forall k :: 0 <= k < n ==> actions[..n][..k] == actions[..k] && actions[..n][k] == actions[k];
  }

  lemma LastStepInOrderIff(actions: seq<Action>, group: string -> nat)
    requires actions != []
    ensures var n := |actions| - 1;
            InOrder(Order(actions), Execute(START, actions).fanout, group)
            <==> InOrder(Order(actions[..n]), Execute(START, actions[..n]).fanout, group)
                 && !OvertakenAt(actions, n, group)
  {
    hide InOrder, Overtaken, Safe, Indexed, Next, Enabled;
    var n := |actions| - 1;
    AlwaysIndexed(actions[..n]);
    StepKeepsInOrderIff(Execute(START, actions[..n]), actions[n], Order(actions[..n]), group);
  }

  /** The exact condition: notifications of a group reach the receiver in the order of their commits if and
      only if no step of the run fans one out behind a later one. */
  lemma {:induction false} InOrderIff(actions: seq<Action>, group: string -> nat)
    ensures InOrder(Order(actions), Execute(START, actions).fanout, group)
            <==> forall k :: 0 <= k < |actions| ==> !OvertakenAt(actions, k, group)
  {
    hide OvertakenAt, Next, Enabled;
    if actions != [] {
      hide InOrder, Order, Execute;
      InOrderIff(actions[..|actions| - 1], group);
      OvertakenAtFront(actions, group);
      LastStepInOrderIff(actions, group);
    }
  }

  // ---- Serving the oldest first -------------------------------------------------------------------

  /** A drainer picks a row only when every older row of its group has been delivered. */
  ghost predicate HeadOfLine(w: World, a: Action, group: string -> nat) {
    a.Pick? && Enabled(w, a) ==>
      forall id :: id in w.rows && id < a.id && group(w.rows[id].key) == group(w.rows[a.id].key)
                   ==> w.rows[id].deliveredAt.Some?
  }

  /** Step k of the run serves the oldest of its group. */
  ghost predicate HeadOfLineAt(actions: seq<Action>, k: nat, group: string -> nat)
    requires k < |actions|
  {
    HeadOfLine(Execute(START, actions[..k]), actions[k], group)
  }

  ghost predicate OldestFirst(actions: seq<Action>, group: string -> nat) {
    forall k :: 0 <= k < |actions| ==> HeadOfLineAt(actions, k, group)
  }

  lemma OldestFirstPrefix(actions: seq<Action>, n: nat, group: string -> nat)
    requires OldestFirst(actions, group) && n <= |actions|
    ensures OldestFirst(actions[..n], group)
  {
    hide HeadOfLine, Execute;
    forall k | 0 <= k < n ensures HeadOfLineAt(actions[..n], k, group) {
      assert actions[..n][..k] == actions[..k] && actions[..n][k] == actions[k];
      assert HeadOfLineAt(actions, k, group);
    }
  }

  /** Everything of the group committed before the key has reached the receiver. */
  ghost predicate Cleared(order: seq<string>, group: string -> nat, receiver: map<string, Payload>, key: string) {
    forall i, j :: 0 <= i < j < |order| && order[j] == key && group(order[i]) == group(key) ==> order[i] in receiver
  }

  /** All traffic, all drainers and the receiver hold cleared keys only. */
  ghost predicate Lined(w: World, order: seq<string>, group: string -> nat) {
    && (forall r :: r in w.wire ==> Cleared(order, group, w.receiver, r.key))
    && (forall d :: d in w.drainers && !w.drainers[d].Idle? ==>
          Cleared(order, group, w.receiver, w.drainers[d].request.key))
    && (forall key :: key in w.receiver ==> Cleared(order, group, w.receiver, key))
  }

  lemma ClearedGrows(order: seq<string>, group: string -> nat, receiver: map<string, Payload>, key: string,
                     more: string)
    requires key in order && more !in order
    ensures Cleared(order + [more], group, receiver, key) <==> Cleared(order, group, receiver, key)
  {
    var all := order + [more];
    assert forall i :: 0 <= i < |order| ==> all[i] == order[i];
  }

  lemma ClearedMonotone(order: seq<string>, group: string -> nat, receiver: map<string, Payload>, r: Request,
                        key: string)
    requires Cleared(order, group, receiver, key)
    ensures Cleared(order, group, receiver[r.key := r.payload], key)
  {
  }

  lemma PickedIsCleared(w: World, a: Action, order: seq<string>, group: string -> nat)
    requires Safe(w) && Indexed(w, order) && a.Pick? && Enabled(w, a) && HeadOfLine(w, a, group)
    ensures Cleared(order, group, w.receiver, w.rows[a.id].key)
  {
    hide TrafficSound, ReceiverSound, DrainersSound, NothingLost;
    var key := w.rows[a.id].key;
    forall i, j | 0 <= i < j < |order| && order[j] == key && group(order[i]) == group(key)
      ensures order[i] in w.receiver
    {
      assert j == a.id;
      assert i in w.rows ==> w.rows[i].key in w.receiver;
    }
  }

  lemma CommitKeepsLined(w: World, row: Row, order: seq<string>, group: string -> nat)
    requires Safe(w) && Indexed(w, order) && Lined(w, order, group) && row.key !in order
    ensures Lined(w, order + [row.key], group)
  {
    FanoutIsCommitted(w, order);
    DrainersHoldCommitted(w, order);
    hide Safe, Indexed, Cleared;
    forall key | key in order
      ensures Cleared(order + [row.key], group, w.receiver, key) <==> Cleared(order, group, w.receiver, key)
    {
      ClearedGrows(order, group, w.receiver, key, row.key);
    }
  }

  lemma DrainersHoldCommitted(w: World, order: seq<string>)
    requires Safe(w) && Indexed(w, order)
    ensures forall d :: d in w.drainers && !w.drainers[d].Idle? ==> w.drainers[d].request.key in order
  {
    forall d | d in w.drainers && !w.drainers[d].Idle? ensures w.drainers[d].request.key in order {
      assert DrainerSound(w.drainers[d], w.rows, w.nextId, w.committed, w.receiver);
    }
  }

  lemma ProcessKeepsLined(w: World, r: Request, order: seq<string>, group: string -> nat)
    requires Lined(w, order, group) && r in w.wire
    ensures Lined(Next(w, Process(r)), order, group)
  {
    hide Cleared;
    forall key | Cleared(order, group, w.receiver, key)
      ensures Cleared(order, group, w.receiver[r.key := r.payload], key)
    {
      ClearedMonotone(order, group, w.receiver, r, key);
    }
  }

  lemma LinedStep(w: World, a: Action, order: seq<string>, group: string -> nat)
    requires Safe(w) && Indexed(w, order) && Lined(w, order, group) && HeadOfLine(w, a, group)
    ensures Lined(Next(w, a), if a.Commit? && Enabled(w, a) then order + [a.row.key] else order, group)
  {
    hide Cleared, Safe, HeadOfLine;
    if Enabled(w, a) {
      match a
      case Commit(row) => CommitKeepsLined(w, row, order, group);
      case Process(r) => ProcessKeepsLined(w, r, order, group);
      case Pick(d, id) => PickedIsCleared(w, a, order, group);
      case _ =>
    }
  }

  lemma LinedIsNotOvertaken(w: World, a: Action, order: seq<string>, group: string -> nat)
    requires Lined(w, order, group)
    ensures !Overtaken(w, a, order, group)
  {
    assert forall key :: key in w.receiver ==> Cleared(order, group, w.receiver, key);
  }

  lemma {:induction false} AlwaysLined(actions: seq<Action>, group: string -> nat)
    requires OldestFirst(actions, group)
    ensures Lined(Execute(START, actions), Order(actions), group)
  {
    if actions != [] {
      hide Lined, HeadOfLine, Safe, Indexed, Next, Enabled;
      var n := |actions| - 1;
      OldestFirstPrefix(actions, n, group);
      AlwaysLined(actions[..n], group);
      AlwaysIndexed(actions[..n]);
      assert HeadOfLineAt(actions, n, group);
      LinedStep(Execute(START, actions[..n]), actions[n], Order(actions[..n]), group);
    }
  }

  /** Under any interleaving, losses and crashes, drainers that serve each group's oldest pending row first
      keep the order of the commits: the last fan-out of a group is its latest among those delivered. */
  lemma OldestFirstKeepsOrder(actions: seq<Action>, group: string -> nat)
    requires OldestFirst(actions, group)
    ensures InOrder(Order(actions), Execute(START, actions).fanout, group)
  {
    hide InOrder, Lined, OldestFirst, Overtaken, Execute, Order;
    forall k | 0 <= k < |actions| ensures !OvertakenAt(actions, k, group) {
      OldestFirstPrefix(actions, k, group);
      AlwaysLined(actions[..k], group);
      LinedIsNotOvertaken(Execute(START, actions[..k]), actions[k], Order(actions[..k]), group);
    }
    InOrderIff(actions, group);
  }

  // ---- The order can be broken ----------------------------------------------------------------------

  lemma ExecuteAppend(w: World, a: seq<Action>, b: seq<Action>)
    ensures Execute(w, a + b) == Execute(Execute(w, a), b)
  {
    if b == [] {
      assert a + b == a;
    } else {
      assert (a + b)[..|a + b| - 1] == a + b[..|b| - 1];
      ExecuteAppend(w, a, b[..|b| - 1]);
    }
  }

  /** One undisturbed delivery of row id by drainer d. */
  function Deliver(d: nat, id: nat, r: Request, result: PublishResult, now: Time): seq<Action> {
    [Pick(d, id), Send(d), Process(r), Hear(d), Record(d, result, now)]
  }

  lemma DeliverIsChain(w: World, d: nat, id: nat, r: Request, result: PublishResult, now: Time)
    ensures Execute(w, Deliver(d, id, r, result, now))
            == Next(Next(Next(Next(Next(w, Pick(d, id)), Send(d)), Process(r)), Hear(d)), Record(d, result, now))
  {
    hide Next;
    var xs := Deliver(d, id, r, result, now);
    assert xs[..4][..3] == xs[..3] && xs[..3][..2] == xs[..2] && xs[..2][..1] == xs[..1] && xs[..1][..0] == [];
    assert Execute(w, xs[..1]) == Next(w, xs[0]);
    assert Execute(w, xs[..2]) == Next(Execute(w, xs[..1]), xs[1]);
    assert Execute(w, xs[..3]) == Next(Execute(w, xs[..2]), xs[2]);
    assert Execute(w, xs[..4]) == Next(Execute(w, xs[..3]), xs[3]);
  }

  /** What an undisturbed delivery changes, and what it leaves alone. */
  lemma DeliverEffect(w: World, d: nat, id: nat, result: PublishResult, now: Time)
    requires Safe(w) && id in w.rows && w.rows[id].deliveredAt.None? && DrainerOf(w, d).Idle? && result.delivered
    ensures var r := RequestOf(w.rows[id]);
            var v := Execute(w, Deliver(d, id, r, result, now));
            && v.rows == w.rows[id := Recorded(w.rows[id], result, now)] && DrainerOf(v, d).Idle?
            && v.receiver == w.receiver[r.key := r.payload]
            && v.fanout == if r.key in w.receiver then w.fanout else w.fanout + [r.key]
  {
    hide Execute, Recorded, DrainersSound, NothingLost, TrafficSound, Deliver;
    var r := RequestOf(w.rows[id]);
    DeliverIsChain(w, d, id, r, result, now);
    assert Matches(w.committed, r);
    if r.key in w.receiver {
      assert Matches(w.committed, Request(r.key, w.receiver[r.key]));
    }
    var b := Next(Next(w, Pick(d, id)), Send(d));
    assert r in b.wire && DrainerOf(b, d) == Holding(id, r) && b.receiver == w.receiver && b.rows == w.rows;
    var c := Next(b, Process(r));
    assert r in c.accepted && DrainerOf(c, d) == Holding(id, r) && c.rows == w.rows;
    assert c.receiver == w.receiver[r.key := r.payload];
    var e := Next(c, Hear(d));
    assert DrainerOf(e, d) == Finished(id, r, true);
    assert e.rows == w.rows && e.receiver == c.receiver && e.fanout == c.fanout;
  }

  lemma ExecuteOne(w: World, a: Action)
    ensures Execute(w, [a]) == Next(w, a)
  {
    assert [a][..0] == [];
  }

  /** The input: while a row is deferred by the back-off after a lost request, the monitor's next
      transition is committed and delivered, and the deferred one is fanned out behind it. */
  lemma DeferredIsOvertaken(actions: seq<Action>, d: nat, id: nat, row: Row, result: PublishResult, now: Time,
                            later: Time)
    requires var w := Execute(START, actions);
             && id in w.rows && w.rows[id].deliveredAt.None? && w.rows[id].key !in w.receiver && DrainerOf(w, d).Idle?
             && Enabled(w, Commit(row))
    requires result.delivered
    ensures var w := Execute(START, actions);
            var run := actions + [Commit(row)] + Deliver(d, w.nextId, RequestOf(row), result, now)
                       + Deliver(d, id, RequestOf(w.rows[id]), result, later);
            Execute(START, run).fanout == w.fanout + [row.key, w.rows[id].key]
  {
    hide Deliver, Execute, Recorded, Safe, Next;
    var w := Execute(START, actions);
    var committed := actions + [Commit(row)];
    var first := Deliver(d, w.nextId, RequestOf(row), result, now);
    var second := Deliver(d, id, RequestOf(w.rows[id]), result, later);
    ExecuteSafe(actions);
    ExecuteSafe(committed);
    ExecuteSafe(committed + first);
    ExecuteAppend(START, actions, [Commit(row)]);
    ExecuteOne(w, Commit(row));
    AfterCommit(w, id, row);
    ExecuteAppend(START, committed, first);
    DeliverEffect(Execute(START, committed), d, w.nextId, result, now);
    ExecuteAppend(START, committed + first, second);
    DeliverEffect(Execute(START, committed + first), d, id, result, later);
  }

  lemma AfterCommit(w: World, id: nat, row: Row)
    requires Safe(w) && id in w.rows && Enabled(w, Commit(row))
    ensures var v := Next(w, Commit(row));
            && v.rows == w.rows[w.nextId := row] && v.receiver == w.receiver && v.fanout == w.fanout
            && v.drainers == w.drainers
            && id != w.nextId && w.rows[id].key != row.key && row.key !in w.receiver && row.deliveredAt.None?
  {
    hide Safe;
    NewKeyIsNowhere(w, id, row);
  }

  lemma NewKeyIsNowhere(w: World, id: nat, row: Row)
    requires Safe(w) && id in w.rows && row.key !in w.committed
    ensures id < w.nextId && w.rows[id].key != row.key && row.key !in w.receiver
  {
    hide TrafficSound, DrainersSound, NothingLost;
    assert Matches(w.committed, RequestOf(w.rows[id]));
    assert row.key in w.receiver ==> Matches(w.committed, Request(row.key, w.receiver[row.key]));
  }
}
