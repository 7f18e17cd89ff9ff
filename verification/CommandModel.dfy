/** The hub-to-device command queue as a value, and what holds over whole runs of its endpoints. */
module CommandModel {
  import opened Wrappers

  datatype Status = Pending | Delivered | Cancelled | Acked

  datatype Info = Info(sensorId: int, kind: string, payload: string, status: Status, createdAt: real,
                       deliveredAt: Option<real>, ackedAt: Option<real>, result: Option<string>)

  /** Per sensor the ids in enqueue order, and each command under its id. */
  datatype State = State(order: map<int, seq<string>>, commands: map<string, Info>)

  const EMPTY := State(map[], map[])

  function OrderOf(s: State, sensor: int): seq<string> {
    if sensor in s.order then s.order[sensor] else []
  }

  // ---- the operations ----

  function Enqueued(s: State, id: string, sensor: int, kind: string, payload: string, now: real): State {
    State(s.order[sensor := OrderOf(s, sensor) + [id]],
          s.commands[id := Info(sensor, kind, payload, Pending, now, None, None, None)])
  }

  function HasStatus(s: State, id: string, status: Status): bool {
    id in s.commands && s.commands[id].status == status
  }

  /** Those of the ids that are pending, in order. */
  function PendingIn(s: State, ids: seq<string>): seq<string> {
    if ids == [] then []
    else
      var k := |ids| - 1;
      PendingIn(s, ids[..k]) + if HasStatus(s, ids[k], Pending) then [ids[k]] else []
  }

  function PendingFor(s: State, sensor: int): seq<string> {
    PendingIn(s, OrderOf(s, sensor))
  }

  function MarkDelivered(s: State, id: string, now: real): State {
    if id in s.commands then
      s.(commands := s.commands[id := s.commands[id].(status := Delivered, deliveredAt := Some(now))])
    else s
  }

  function MarkAllDelivered(s: State, ids: seq<string>, now: real): State {
    if ids == [] then s else MarkDelivered(MarkAllDelivered(s, ids[..|ids| - 1], now), ids[|ids| - 1], now)
  }

  function CancelledIn(s: State, id: string): State {
    if HasStatus(s, id, Pending) then s.(commands := s.commands[id := s.commands[id].(status := Cancelled)]) else s
  }

  /** An acknowledgement is accepted in any status. */
  function AckedIn(s: State, id: string, result: string, now: real): State {
    if id in s.commands then
      s.(commands := s.commands[id := s.commands[id].(status := Acked, ackedAt := Some(now), result := Some(result))])
    else s
  }

  // ---- runs ----

  /** One successful endpoint call; `Enqueue` carries the id the id generator produced. */
  datatype Event =
    | Enqueue(id: string, sensor: int, kind: string, payload: string, now: real)
    | Poll(sensor: int, now: real)
    | Cancel(id: string)
    | Ack(id: string, result: string, now: real)

  function Step(s: State, e: Event): State {
    match e
    case Enqueue(id, sensor, kind, payload, now) => Enqueued(s, id, sensor, kind, payload, now)
    case Poll(sensor, now) => MarkAllDelivered(s, PendingFor(s, sensor), now)
    case Cancel(id) => CancelledIn(s, id)
    case Ack(id, result, now) => AckedIn(s, id, result, now)
  }

  function Run(events: seq<Event>): State {
    if events == [] then EMPTY else Step(Run(events[..|events| - 1]), events[|events| - 1])
  }

  /** The concatenation of what the polls of a sensor returned. */
  function HandedOut(events: seq<Event>, sensor: int): seq<string> {
    if events == [] then []
    else
      var k := |events| - 1;
      HandedOut(events[..k], sensor)
      + if events[k].Poll? && events[k].sensor == sensor then PendingFor(Run(events[..k]), sensor) else []
  }

  /** The id generator never repeats an id. */
  ghost predicate FreshIds(events: seq<Event>) {
    forall i, j :: 0 <= i < j < |events| && events[i].Enqueue? && events[j].Enqueue? ==> events[i].id != events[j].id
  }

  // ---- the inductive invariant ----

  /** The two indexes agree: each lists the other's commands, each id once, under its own sensor. */
  ghost predicate WellIndexed(s: State) {
    && (forall sensor, i :: sensor in s.order && 0 <= i < |s.order[sensor]| ==>
          s.order[sensor][i] in s.commands && s.commands[s.order[sensor][i]].sensorId == sensor)
    && (forall sensor, i, j :: sensor in s.order && 0 <= i < j < |s.order[sensor]| ==>
          s.order[sensor][i] != s.order[sensor][j])
    && (forall id :: id in s.commands ==> id in OrderOf(s, s.commands[id].sensorId))
  }

  /** Delivery times are set exactly by delivery. */
  ghost predicate Stamped(s: State) {
    forall id :: id in s.commands ==>
      && (s.commands[id].status == Delivered ==> s.commands[id].deliveredAt.Some?)
      && (s.commands[id].status == Pending || s.commands[id].status == Cancelled ==> s.commands[id].deliveredAt.None?)
  }

  ghost predicate WasDelivered(s: State, id: string) {
    id in s.commands && s.commands[id].deliveredAt.Some?
  }

  /** In a sensor's list nothing still pending stands before anything already delivered. */
  ghost predicate DeliveredFirst(s: State, ids: seq<string>) {
    forall i, j :: 0 <= i < j < |ids| && WasDelivered(s, ids[j]) ==> !HasStatus(s, ids[i], Pending)
  }

  ghost predicate Inv(s: State) {
    WellIndexed(s) && Stamped(s) && forall sensor :: sensor in s.order ==> DeliveredFirst(s, s.order[sensor])
  }

  lemma {:induction false} PendingInFacts(s: State, ids: seq<string>)
    ensures forall id :: id in PendingIn(s, ids) <==> id in ids && HasStatus(s, id, Pending)
  {
    if ids != [] {
      PendingInFacts(s, ids[..|ids| - 1]);
      assert ids == ids[..|ids| - 1] + [ids[|ids| - 1]];
    }
  }

  lemma {:induction false} MarkAllEffect(s: State, ids: seq<string>, now: real)
    requires forall id :: id in ids ==> id in s.commands
    ensures var t := MarkAllDelivered(s, ids, now);
      && t.order == s.order && t.commands.Keys == s.commands.Keys
      && forall id :: id in s.commands ==>
        t.commands[id] == if id in ids then s.commands[id].(status := Delivered, deliveredAt := Some(now)) else s.commands[id]
  {
    if ids != [] {
      MarkAllEffect(s, ids[..|ids| - 1], now);
      assert ids == ids[..|ids| - 1] + [ids[|ids| - 1]];
    }
  }

  /** A poll delivers exactly the sensor's pending commands and touches nothing else. */
  lemma PollEffect(s: State, sensor: int, now: real)
    requires WellIndexed(s)
    ensures var t := Step(s, Poll(sensor, now));
      && t.order == s.order && t.commands.Keys == s.commands.Keys
      && forall id :: id in s.commands ==>
        t.commands[id] == if HasStatus(s, id, Pending) && s.commands[id].sensorId == sensor
                          then s.commands[id].(status := Delivered, deliveredAt := Some(now)) else s.commands[id]
  {
    var ids := PendingFor(s, sensor);
    PendingInFacts(s, OrderOf(s, sensor));
    MarkAllEffect(s, ids, now);
    forall id | id in s.commands
      ensures id in ids <==> HasStatus(s, id, Pending) && s.commands[id].sensorId == sensor
    {
      assert id in OrderOf(s, s.commands[id].sensorId);
    }
  }

  lemma EnqueueKeepsIndexes(s: State, id: string, sensor: int, kind: string, payload: string, now: real)
    requires WellIndexed(s) && id !in s.commands
    ensures WellIndexed(Enqueued(s, id, sensor, kind, payload, now))
  {
    var t := Enqueued(s, id, sensor, kind, payload, now);
    var list := OrderOf(s, sensor);
    assert id !in list;
    assert t.order[sensor] == list + [id];
    forall other | other in t.commands
      ensures other in OrderOf(t, t.commands[other].sensorId)
    {
      if other == id {
        assert (list + [id])[|list|] == id;
      } else {
        assert other in OrderOf(s, s.commands[other].sensorId);
        assert other in list ==> other in list + [id];
      }
    }
  }

  lemma EnqueueKeepsDelivered(s: State, id: string, sensor: int, kind: string, payload: string, now: real, other: int)
    requires WellIndexed(s) && DeliveredFirst(s, OrderOf(s, other)) && id !in s.commands
    ensures var t := Enqueued(s, id, sensor, kind, payload, now); DeliveredFirst(t, OrderOf(t, other))
  {
    var t, list := Enqueued(s, id, sensor, kind, payload, now), OrderOf(s, other);
    assert forall x :: x in list ==> x in s.commands;
    hide WellIndexed;
    SameFlags(s, t, list, id);
    assert OrderOf(t, other) == if other == sensor then list + [id] else list;
    assert !WasDelivered(t, id);
    hide OrderOf, Enqueued, WasDelivered, HasStatus;
    StillDeliveredFirst(s, t, list, id);
  }

  lemma StillDeliveredFirst(s: State, t: State, list: seq<string>, id: string)
    requires DeliveredFirst(s, list) && !WasDelivered(t, id)
    requires forall k :: 0 <= k < |list| ==>
      && (WasDelivered(t, list[k]) <==> WasDelivered(s, list[k]))
      && (HasStatus(t, list[k], Pending) <==> HasStatus(s, list[k], Pending))
    ensures DeliveredFirst(t, list) && DeliveredFirst(t, list + [id])
  {
    hide WasDelivered, HasStatus;
  }

  lemma EnqueueKeepsInv(s: State, id: string, sensor: int, kind: string, payload: string, now: real)
    requires Inv(s) && id !in s.commands
    ensures Inv(Enqueued(s, id, sensor, kind, payload, now))
  {
    var t := Enqueued(s, id, sensor, kind, payload, now);
    EnqueueKeepsIndexes(s, id, sensor, kind, payload, now);
    assert Stamped(t);
    hide WellIndexed, Stamped;
    forall other | other in t.order
      ensures DeliveredFirst(t, t.order[other])
    {
      assert DeliveredFirst(s, OrderOf(s, other));
      hide DeliveredFirst;
      EnqueueKeepsDelivered(s, id, sensor, kind, payload, now, other);
    }
  }

  lemma SameFlags(s: State, t: State, list: seq<string>, id: string)
    requires id !in s.commands && forall x :: x in list ==> x in s.commands
    requires t.commands.Keys == s.commands.Keys + {id}
    requires forall x :: x in s.commands ==> t.commands[x] == s.commands[x]
    ensures forall k :: 0 <= k < |list| ==>
      && (WasDelivered(t, list[k]) <==> WasDelivered(s, list[k]))
      && (HasStatus(t, list[k], Pending) <==> HasStatus(s, list[k], Pending))
  {
  }

  lemma ChangeKeepsIndexes(s: State, t: State)
    requires WellIndexed(s) && t.order == s.order && t.commands.Keys == s.commands.Keys
    requires forall id :: id in s.commands ==> t.commands[id].sensorId == s.commands[id].sensorId
    ensures WellIndexed(t)
  {
    forall id | id in t.commands
      ensures id in OrderOf(t, t.commands[id].sensorId)
    {
      assert id in OrderOf(s, s.commands[id].sensorId);
    }
  }

  /** A change of commands in place that never makes one pending, and stamps only a whole sensor's pending ones. */
  lemma ChangeKeepsInv(s: State, t: State)
    requires Inv(s) && t.order == s.order && t.commands.Keys == s.commands.Keys && Stamped(t)
    requires forall id :: id in s.commands ==> t.commands[id].sensorId == s.commands[id].sensorId
    requires forall id :: id in s.commands && t.commands[id].status == Pending ==> s.commands[id].status == Pending
    requires forall id :: id in s.commands && t.commands[id].deliveredAt.Some? && s.commands[id].deliveredAt.None? ==>
      forall other :: other in s.commands && s.commands[other].sensorId == s.commands[id].sensorId ==>
        t.commands[other].status != Pending
    ensures Inv(t)
  {
    ChangeKeepsIndexes(s, t);
    forall sensor | sensor in t.order
      ensures DeliveredFirst(t, t.order[sensor])
    {
      assert DeliveredFirst(s, s.order[sensor]);
    }
  }

  lemma PollKeepsInv(s: State, sensor: int, now: real)
    requires Inv(s)
    ensures Inv(Step(s, Poll(sensor, now)))
  {
    hide Step, WellIndexed, DeliveredFirst;
    var t := Step(s, Poll(sensor, now));
    PollEffect(s, sensor, now);
    assert Stamped(t);
    ChangeKeepsInv(s, t);
  }

  lemma CancelKeepsInv(s: State, id: string)
    requires Inv(s)
    ensures Inv(CancelledIn(s, id))
  {
    hide WellIndexed, DeliveredFirst;
    ChangeKeepsInv(s, CancelledIn(s, id));
  }

  lemma AckKeepsInv(s: State, id: string, result: string, now: real)
    requires Inv(s)
    ensures Inv(AckedIn(s, id, result, now))
  {
    hide WellIndexed, DeliveredFirst;
    ChangeKeepsInv(s, AckedIn(s, id, result, now));
  }

  lemma StepKeepsInv(s: State, e: Event)
    requires Inv(s) && (e.Enqueue? ==> e.id !in s.commands)
    ensures Inv(Step(s, e))
  {
    hide Inv;
    match e {
      case Enqueue(id, sensor, kind, payload, now) => EnqueueKeepsInv(s, id, sensor, kind, payload, now);
      case Poll(sensor, now) => PollKeepsInv(s, sensor, now);
      case Cancel(id) => CancelKeepsInv(s, id);
      case Ack(id, result, now) => AckKeepsInv(s, id, result, now);
    }
  }

  /** Every id known after a run was enqueued in it. */
  lemma {:induction false} KnownWereEnqueued(events: seq<Event>, id: string)
    ensures id in Run(events).commands <==> exists i :: 0 <= i < |events| && events[i].Enqueue? && events[i].id == id
  {
    if events != [] {
      var k := |events| - 1;
      var before, e := Run(events[..k]), events[k];
      KnownWereEnqueued(events[..k], id);
      StepKeys(before, e);
      if id in Run(events[..k]).commands {
        var i :| 0 <= i < k && events[..k][i].Enqueue? && events[..k][i].id == id;
        assert events[i].Enqueue? && events[i].id == id;
      }
      if e.Enqueue? && e.id == id {
        assert events[k].Enqueue? && events[k].id == id;
      }
      if exists i :: 0 <= i < |events| && events[i].Enqueue? && events[i].id == id {
        var i :| 0 <= i < |events| && events[i].Enqueue? && events[i].id == id;
        assert i < k ==> events[..k][i].Enqueue? && events[..k][i].id == id;
      }
    }
  }

  lemma {:induction false} MarkAllKeys(s: State, ids: seq<string>, now: real)
    ensures MarkAllDelivered(s, ids, now).commands.Keys == s.commands.Keys
  {
    if ids != [] {
      MarkAllKeys(s, ids[..|ids| - 1], now);
    }
  }

  lemma StepKeys(s: State, e: Event)
    ensures Step(s, e).commands.Keys == s.commands.Keys + if e.Enqueue? then {e.id} else {}
  {
    if e.Poll? {
      MarkAllKeys(s, PendingFor(s, e.sensor), e.now);
    }
  }

  /** A new call may be added when it does not enqueue a known id. */
  lemma FreshAfter(events: seq<Event>, e: Event)
    requires FreshIds(events) && (e.Enqueue? ==> e.id !in Run(events).commands)
    ensures FreshIds(events + [e])
  {
    if e.Enqueue? {
      KnownWereEnqueued(events, e.id);
    }
  }

  lemma FreshOnEnqueue(events: seq<Event>)
    requires events != [] && FreshIds(events)
    ensures var k := |events| - 1; FreshIds(events[..k]) && (events[k].Enqueue? ==> events[k].id !in Run(events[..k]).commands)
  {
    var k := |events| - 1;
    if events[k].Enqueue? {
      KnownWereEnqueued(events[..k], events[k].id);
    }
  }

  lemma {:induction false} RunKeepsInv(events: seq<Event>)
    requires FreshIds(events)
    ensures Inv(Run(events))
  {
    if events != [] {
      hide Inv, Step, FreshIds;
      FreshOnEnqueue(events);
      RunKeepsInv(events[..|events| - 1]);
      StepKeepsInv(Run(events[..|events| - 1]), events[|events| - 1]);
    } else {
      EmptyInv();
    }
  }

  lemma RunIsIndexed(events: seq<Event>)
    requires FreshIds(events)
    ensures WellIndexed(Run(events))
  {
    RunKeepsInv(events);
  }

  lemma EmptyInv()
    ensures Inv(EMPTY)
  {
  }

  // ---- what the polls of a run hand out ----

  /** Those of the ids whose command carries a delivery time, in order. */
  ghost function DeliveredIn(s: State, ids: seq<string>): seq<string> {
    if ids == [] then []
    else
      var k := |ids| - 1;
      DeliveredIn(s, ids[..k]) + if WasDelivered(s, ids[k]) then [ids[k]] else []
  }

  lemma {:induction false} DeliveredInAgrees(s: State, t: State, ids: seq<string>)
    requires forall id :: id in ids ==> (WasDelivered(s, id) <==> WasDelivered(t, id))
    ensures DeliveredIn(s, ids) == DeliveredIn(t, ids)
  {
    if ids != [] {
      var k := |ids| - 1;
      assert ids[k] in ids && forall id :: id in ids[..k] ==> id in ids;
      DeliveredInAgrees(s, t, ids[..k]);
    }
  }

  /** What a poll hands out extends what was delivered, in the sensor's order. */
  lemma {:induction false} PollExtends(s: State, t: State, ids: seq<string>)
    requires DeliveredFirst(s, ids)
    requires forall id :: id in ids ==> (WasDelivered(t, id) <==> WasDelivered(s, id) || HasStatus(s, id, Pending))
    requires forall id :: id in ids ==> !(WasDelivered(s, id) && HasStatus(s, id, Pending))
    ensures DeliveredIn(t, ids) == DeliveredIn(s, ids) + PendingIn(s, ids)
  {
    if ids != [] {
      var k := |ids| - 1;
      assert ids[k] in ids && forall id :: id in ids[..k] ==> id in ids;
      PollExtends(s, t, ids[..k]);
      if WasDelivered(s, ids[k]) {
        NonePending(s, ids[..k]);
      }
    }
  }

  lemma {:induction false} NonePending(s: State, ids: seq<string>)
    requires forall i :: 0 <= i < |ids| ==> !HasStatus(s, ids[i], Pending)
    ensures PendingIn(s, ids) == []
  {
    if ids != [] {
      NonePending(s, ids[..|ids| - 1]);
    }
  }

  /** Only a poll delivers, and only what is pending for its sensor. */
  lemma StepDelivers(s: State, e: Event)
    requires WellIndexed(s) && (e.Enqueue? ==> e.id !in s.commands)
    ensures var t := Step(s, e);
      && (forall x :: x in s.commands ==>
            (WasDelivered(t, x) <==>
               WasDelivered(s, x)
               || (e.Poll? && HasStatus(s, x, Pending) && s.commands[x].sensorId == e.sensor)))
      && (e.Enqueue? ==> !WasDelivered(t, e.id))
  {
    if e.Poll? {
      PollEffect(s, e.sensor, e.now);
    }
  }

  lemma StepOrder(s: State, e: Event, sensor: int)
    requires WellIndexed(s)
    ensures OrderOf(Step(s, e), sensor)
         == OrderOf(s, sensor) + if e.Enqueue? && e.sensor == sensor then [e.id] else []
  {
    if e.Poll? {
      PollEffect(s, e.sensor, e.now);
    }
  }

  lemma ListFacts(s: State, sensor: int)
    requires Inv(s)
    ensures WellIndexed(s) && DeliveredFirst(s, OrderOf(s, sensor)) && Distinct(OrderOf(s, sensor))
    ensures forall id :: id in OrderOf(s, sensor) ==>
      && id in s.commands && s.commands[id].sensorId == sensor
      && !(WasDelivered(s, id) && HasStatus(s, id, Pending))
  {
  }

  lemma StepHandsOut(s: State, e: Event, sensor: int)
    requires Inv(s) && (e.Enqueue? ==> e.id !in s.commands)
    ensures var t := Step(s, e);
      DeliveredIn(t, OrderOf(t, sensor))
      == DeliveredIn(s, OrderOf(s, sensor)) + if e.Poll? && e.sensor == sensor then PendingFor(s, sensor) else []
  {
    hide Step, Inv, WellIndexed, DeliveredFirst, OrderOf, WasDelivered, HasStatus, PendingIn;
    var t, ids := Step(s, e), OrderOf(s, sensor);
    ListFacts(s, sensor);
    StepDelivers(s, e);
    StepOrder(s, e, sensor);
    assert ids + [] == ids;
    if e.Poll? && e.sensor == sensor {
      PollExtends(s, t, ids);
    } else {
      DeliveredInAgrees(s, t, ids);
      if e.Enqueue? && e.sensor == sensor {
        assert (ids + [e.id])[..|ids|] == ids;
      }
    }
  }

  /**
   * The concatenation of a sensor's poll outputs over any run is exactly the sensor's delivered
   * commands in enqueue order.
   */
  lemma {:induction false} HandedOutAreDelivered(events: seq<Event>, sensor: int)
    requires FreshIds(events)
    ensures HandedOut(events, sensor) == DeliveredIn(Run(events), OrderOf(Run(events), sensor))
  {
    if events != [] {
      hide Inv, Step, FreshIds;
      var k := |events| - 1;
      FreshOnEnqueue(events);
      RunKeepsInv(events[..k]);
      HandedOutAreDelivered(events[..k], sensor);
      StepHandsOut(Run(events[..k]), events[k], sensor);
    }
  }

  /** One more poll extends what was handed out by what it finds pending. */
  lemma HandedOutBy(events: seq<Event>, sensor: int, now: real)
    ensures HandedOut(events + [Poll(sensor, now)], sensor)
         == HandedOut(events, sensor) + PendingFor(Run(events), sensor)
  {
    assert (events + [Poll(sensor, now)])[..|events|] == events;
  }

  lemma PollIsMarkAll(s: State, sensor: int, now: real)
    ensures Step(s, Poll(sensor, now)) == MarkAllDelivered(s, PendingFor(s, sensor), now)
  {
  }

  lemma {:induction false} DeliveredOnce(s: State, ids: seq<string>)
    requires Distinct(ids)
    ensures Distinct(DeliveredIn(s, ids))
    ensures forall id :: id in DeliveredIn(s, ids) <==> id in ids && WasDelivered(s, id)
  {
    if ids != [] {
      var k := |ids| - 1;
      var d := DeliveredIn(s, ids[..k]);
      DeliveredOnce(s, ids[..k]);
      assert ids == ids[..k] + [ids[k]] && ids[k] !in ids[..k];
      assert forall i :: 0 <= i < |d| ==> d[i] in d;
    }
  }

  /** No id is handed out twice, to any sensor; the status tells which never were and which surely were. */
  lemma HandedOutAtMostOnce(events: seq<Event>, sensor: int, id: string)
    requires FreshIds(events)
    ensures Distinct(HandedOut(events, sensor))
    ensures var s, out := Run(events), HandedOut(events, sensor);
      && (id in out <==> WasDelivered(s, id) && s.commands[id].sensorId == sensor)
      && (HasStatus(s, id, Pending) || HasStatus(s, id, Cancelled) ==> id !in out)
      && (HasStatus(s, id, Delivered) && s.commands[id].sensorId == sensor ==> id in out)
    ensures id in HandedOut(events, sensor) ==> forall other :: other != sensor ==> id !in HandedOut(events, other)
  {
    RunKeepsInv(events);
    var s := Run(events);
    forall other
      ensures Distinct(HandedOut(events, other))
      ensures id in HandedOut(events, other) <==> WasDelivered(s, id) && s.commands[id].sensorId == other
    {
      HandedOutAreDelivered(events, other);
      ListFacts(s, other);
      DeliveredOnce(s, OrderOf(s, other));
      if id in s.commands {
        assert id in OrderOf(s, s.commands[id].sensorId);
      }
    }
  }

  /** Where a command stands in the enqueue order decides where it stands among those handed out. */
  lemma {:induction false} DeliveredKeepsOrder(s: State, ids: seq<string>, i: nat, j: nat)
    requires Distinct(ids)
    requires i < j < |DeliveredIn(s, ids)|
    ensures exists a, b :: 0 <= a < b < |ids| && ids[a] == DeliveredIn(s, ids)[i] && ids[b] == DeliveredIn(s, ids)[j]
  {
    var k := |ids| - 1;
    var d := DeliveredIn(s, ids[..k]);
    if j < |d| {
      DeliveredKeepsOrder(s, ids[..k], i, j);
      var a, b :| 0 <= a < b < |ids[..k]| && ids[..k][a] == d[i] && ids[..k][b] == d[j];
      assert ids[a] == d[i] && ids[b] == d[j];
    } else {
      DeliveredAreListed(s, ids[..k], d[i]);
      var a :| 0 <= a < k && ids[..k][a] == d[i];
      assert ids[a] == d[i] && ids[k] == DeliveredIn(s, ids)[j];
    }
  }

  lemma {:induction false} DeliveredAreListed(s: State, ids: seq<string>, id: string)
    requires id in DeliveredIn(s, ids)
    ensures id in ids
  {
    if id !in DeliveredIn(s, ids[..|ids| - 1]) {
      assert id == ids[|ids| - 1];
    } else {
      DeliveredAreListed(s, ids[..|ids| - 1], id);
    }
  }

  /** Call a enqueued this id for this sensor. */
  predicate EnqueuedAt(events: seq<Event>, a: int, id: string, sensor: int) {
    0 <= a < |events| && events[a].Enqueue? && events[a].id == id && events[a].sensor == sensor
  }

  /** The ids were enqueued for this sensor by these calls, one after the other. */
  ghost predicate EnqueuedBy(events: seq<Event>, sensor: int, ids: seq<string>, at: seq<int>) {
    && |at| == |ids| && (forall i, j :: 0 <= i < j < |at| ==> at[i] < at[j])
    && forall i :: 0 <= i < |at| ==> EnqueuedAt(events, at[i], ids[i], sensor)
  }

  /** The ids stand in the order of the calls that enqueued them for this sensor. */
  ghost predicate InEnqueueOrder(events: seq<Event>, sensor: int, ids: seq<string>) {
    exists at :: EnqueuedBy(events, sensor, ids, at)
  }

  lemma OneMoreInOrder(events: seq<Event>, sensor: int, ids: seq<string>, e: Event)
    requires InEnqueueOrder(events, sensor, ids)
    ensures InEnqueueOrder(events + [e], sensor, ids)
    ensures e.Enqueue? && e.sensor == sensor ==> InEnqueueOrder(events + [e], sensor, ids + [e.id])
  {
    var at :| EnqueuedBy(events, sensor, ids, at);
    assert forall a, id :: EnqueuedAt(events, a, id, sensor) ==> EnqueuedAt(events + [e], a, id, sensor) && a < |events|;
    assert EnqueuedBy(events + [e], sensor, ids, at);
    if e.Enqueue? && e.sensor == sensor {
      assert EnqueuedAt(events + [e], |events|, e.id, sensor);
      assert EnqueuedBy(events + [e], sensor, ids + [e.id], at + [|events|]);
    }
  }

  /** A sensor's list is in the order of the calls that enqueued its commands. */
  lemma {:induction false} OrderIsEnqueueOrder(events: seq<Event>, sensor: int)
    requires FreshIds(events)
    ensures InEnqueueOrder(events, sensor, OrderOf(Run(events), sensor))
  {
    if events != [] {
      hide Step, WellIndexed, FreshIds, OrderOf, InEnqueueOrder;
      var k := |events| - 1;
      var ids := OrderOf(Run(events[..k]), sensor);
      FreshOnEnqueue(events);
      RunIsIndexed(events[..k]);
      OrderIsEnqueueOrder(events[..k], sensor);
      OneMoreInOrder(events[..k], sensor, ids, events[k]);
      StepOrder(Run(events[..k]), events[k], sensor);
      assert events == events[..k] + [events[k]];
      assert ids + [] == ids;
    } else {
      assert EnqueuedBy([], sensor, [], []);
    }
  }

  /** Of two commands handed out to a sensor, the first was enqueued for it by an earlier call. */
  lemma HandedOutInEnqueueOrder(events: seq<Event>, sensor: int, i: nat, j: nat)
    requires FreshIds(events) && i < j < |HandedOut(events, sensor)|
    ensures var out := HandedOut(events, sensor);
      exists a, b :: a < b && EnqueuedAt(events, a, out[i], sensor) && EnqueuedAt(events, b, out[j], sensor)
  {
    RunKeepsInv(events);
    HandedOutAreDelivered(events, sensor);
    DeliveredKeepsOrder(Run(events), OrderOf(Run(events), sensor), i, j);
    OrderIsEnqueueOrder(events, sensor);
    var ids := OrderOf(Run(events), sensor);
    var at :| EnqueuedBy(events, sensor, ids, at);
    var out := HandedOut(events, sensor);
    var a, b :| 0 <= a < b < |ids| && ids[a] == out[i] && ids[b] == out[j];
    assert EnqueuedAt(events, at[a], out[i], sensor) && EnqueuedAt(events, at[b], out[j], sensor);
  }

  // ---- the status machine ----

  /** The moves the endpoints allow; an acknowledgement is the only one out of a settled status. */
  predicate Moves(from: Status, to: Status) {
    from == to || from == Pending || to == Acked
  }

  /** A call after which a command of this id and sensor is no longer pending. */
  predicate Settles(e: Event, id: string, sensor: int) {
    match e
    case Enqueue(_, _, _, _, _) => false
    case Poll(polled, _) => polled == sensor
    case Cancel(named) => named == id
    case Ack(named, _, _) => named == id
  }

  /** One call moves each command along the machine and changes neither its id nor its sensor. */
  lemma StepMoves(s: State, e: Event, id: string)
    requires WellIndexed(s) && (e.Enqueue? ==> e.id !in s.commands) && id in s.commands
    ensures var t := Step(s, e);
      && id in t.commands && t.commands[id].sensorId == s.commands[id].sensorId
      && Moves(s.commands[id].status, t.commands[id].status)
      && (t.commands[id].status == Cancelled && s.commands[id].status != Cancelled ==> e == Cancel(id))
      && (t.commands[id].status == Delivered && s.commands[id].status != Delivered ==>
            e.Poll? && e.sensor == s.commands[id].sensorId)
      && (t.commands[id].status == Acked && s.commands[id].status != Acked ==> e.Ack? && e.id == id)
      && (s.commands[id].status == Pending ==>
            (t.commands[id].status == Pending <==> !Settles(e, id, s.commands[id].sensorId)))
  {
    StepKeys(s, e);
    if e.Poll? {
      PollEffect(s, e.sensor, e.now);
    }
  }

  /** What each call does to the command it is about. */
  lemma StepSettles(s: State, e: Event)
    requires WellIndexed(s)
    ensures var t := Step(s, e);
      && (e.Enqueue? ==> HasStatus(t, e.id, Pending) && t.commands[e.id].kind == e.kind && t.commands[e.id].payload == e.payload)
      && (e.Cancel? && HasStatus(s, e.id, Pending) ==> HasStatus(t, e.id, Cancelled))
      && (e.Cancel? && !HasStatus(s, e.id, Pending) ==> t == s)
      && (e.Ack? && e.id in s.commands ==>
            HasStatus(t, e.id, Acked) && t.commands[e.id].result == Some(e.result) && t.commands[e.id].ackedAt == Some(e.now)
            && t.commands[e.id].deliveredAt == s.commands[e.id].deliveredAt)
      && (e.Ack? && e.id !in s.commands ==> t == s)
      && (e.Poll? ==> forall id :: id in s.commands && s.commands[id].sensorId == e.sensor && HasStatus(s, id, Pending) ==>
            HasStatus(t, id, Delivered) && t.commands[id].deliveredAt == Some(e.now))
      && (!e.Poll? ==> forall id :: id in s.commands && id != e.id ==> id in t.commands && t.commands[id] == s.commands[id])
  {
    if e.Poll? {
      PollEffect(s, e.sensor, e.now);
    }
  }

  /** What a call makes of a command with this id. */
  function NextInfo(before: Info, e: Event, id: string): Info {
    if e.Ack? && e.id == id then before.(status := Acked, ackedAt := Some(e.now), result := Some(e.result))
    else if before.status != Pending || !Settles(e, id, before.sensorId) then before
    else if e.Poll? then before.(status := Delivered, deliveredAt := Some(e.now))
    else before.(status := Cancelled)
  }

  lemma StepNextInfo(s: State, e: Event, id: string)
    requires WellIndexed(s) && (e.Enqueue? ==> e.id !in s.commands) && id in s.commands
    ensures id in Step(s, e).commands && Step(s, e).commands[id] == NextInfo(s.commands[id], e, id)
  {
    if e.Poll? {
      PollEffect(s, e.sensor, e.now);
    }
  }

  /** Over any continuation of a run a settled command never becomes pending again. */
  lemma {:induction false} NeverPendingAgain(events: seq<Event>, later: seq<Event>, id: string)
    requires FreshIds(events + later) && id in Run(events).commands && !HasStatus(Run(events), id, Pending)
    ensures id in Run(events + later).commands && !HasStatus(Run(events + later), id, Pending)
  {
    if later == [] {
      assert events + later == events;
    } else {
      var k := |later| - 1;
      var before := events + later[..k];
      assert events + later == before + [later[k]];
      hide *;
      FreshBefore(before, later[k]);
      NeverPendingAgain(events, later[..k], id);
      StaysSettledNext(before, later[k], id);
    }
  }

  lemma FreshBefore(events: seq<Event>, e: Event)
    requires FreshIds(events + [e])
    ensures FreshIds(events)
  {
    assert forall i :: 0 <= i < |events| ==> (events + [e])[i] == events[i];
  }

  lemma StaysSettledNext(events: seq<Event>, e: Event, id: string)
    requires FreshIds(events + [e]) && id in Run(events).commands && !HasStatus(Run(events), id, Pending)
    ensures id in Run(events + [e]).commands && !HasStatus(Run(events + [e]), id, Pending)
  {
    hide HasStatus, WellIndexed, Step;
    var all := events + [e];
    assert all[..|all| - 1] == events;
    FreshOnEnqueue(all);
    RunIsIndexed(events);
    hide FreshIds;
    StaysSettled(Run(events), e, id);
  }

  lemma StaysSettled(s: State, e: Event, id: string)
    requires WellIndexed(s) && (e.Enqueue? ==> e.id !in s.commands) && id in s.commands && !HasStatus(s, id, Pending)
    ensures id in Step(s, e).commands && !HasStatus(Step(s, e), id, Pending)
  {
    hide Step;
    StepMoves(s, e, id);
  }

  /** Right after a poll of a sensor none of its commands is pending. */
  lemma PollLeavesNonePending(events: seq<Event>, sensor: int, now: real, id: string)
    requires FreshIds(events)
    ensures var s := Run(events + [Poll(sensor, now)]);
      id in s.commands && s.commands[id].sensorId == sensor ==> s.commands[id].status != Pending
  {
    RunKeepsInv(events);
    assert (events + [Poll(sensor, now)])[..|events|] == events;
    PollEffect(Run(events), sensor, now);
  }

  // ---- the status of a command told from the calls alone ----

  /** The first of these calls that settles the command. */
  function FirstSettling(calls: seq<Event>, id: string, sensor: int): Option<Event> {
    if calls == [] then None
    else if Settles(calls[|calls| - 1], id, sensor) && FirstSettling(calls[..|calls| - 1], id, sensor).None? then
      Some(calls[|calls| - 1])
    else FirstSettling(calls[..|calls| - 1], id, sensor)
  }

  /** Call j settles the command and none before it does. */
  ghost predicate SettlesFirst(calls: seq<Event>, j: int, id: string, sensor: int) {
    0 <= j < |calls| && Settles(calls[j], id, sensor) && forall m :: 0 <= m < j ==> !Settles(calls[m], id, sensor)
  }

  lemma {:induction false} FirstSettlingIsFirst(calls: seq<Event>, id: string, sensor: int)
    ensures var first := FirstSettling(calls, id, sensor);
      if first.None? then forall j :: 0 <= j < |calls| ==> !Settles(calls[j], id, sensor)
      else exists j :: SettlesFirst(calls, j, id, sensor) && calls[j] == first.value
  {
    if calls != [] {
      var k := |calls| - 1;
      FirstSettlingIsFirst(calls[..k], id, sensor);
      hide Settles;
      if FirstSettling(calls[..k], id, sensor).Some? {
        var j :| SettlesFirst(calls[..k], j, id, sensor) && calls[..k][j] == FirstSettling(calls[..k], id, sensor).value;
        assert SettlesFirst(calls, j, id, sensor);
      } else if Settles(calls[k], id, sensor) {
        assert forall m :: 0 <= m < k ==> calls[m] == calls[..k][m];
        assert SettlesFirst(calls, k, id, sensor);
      }
    }
  }

  /** The last of these calls that acknowledges the command. */
  function LastAck(calls: seq<Event>, id: string): (last: Option<Event>)
    ensures last.None? ==> forall j :: 0 <= j < |calls| && calls[j].Ack? ==> calls[j].id != id
    ensures last.Some? ==> exists j :: 0 <= j < |calls| && calls[j] == last.value && calls[j].Ack? && calls[j].id == id
                                       && forall m :: j < m < |calls| && calls[m].Ack? ==> calls[m].id != id
  {
    if calls == [] then None
    else if calls[|calls| - 1].Ack? && calls[|calls| - 1].id == id then Some(calls[|calls| - 1])
    else LastAck(calls[..|calls| - 1], id)
  }

  /** A command as its enqueue, the first call that settled it and its last acknowledgement tell. */
  ghost predicate ToldBy(c: Info, enqueue: Event, first: Option<Event>, ack: Option<Event>)
    requires enqueue.Enqueue? && (ack.Some? ==> ack.value.Ack?)
  {
    && c.sensorId == enqueue.sensor && c.kind == enqueue.kind && c.payload == enqueue.payload
    && c.createdAt == enqueue.now
    && c.status == (if ack.Some? then Acked
                    else if first.None? then Pending
                    else if first.value.Poll? then Delivered
                    else Cancelled)
    && c.deliveredAt == (if first.Some? && first.value.Poll? then Some(first.value.now) else None)
    && c.ackedAt == (if ack.Some? then Some(ack.value.now) else None)
    && c.result == (if ack.Some? then Some(ack.value.result) else None)
  }

  lemma OneCallMore(calls: seq<Event>, e: Event, id: string, sensor: int)
    ensures FirstSettling(calls + [e], id, sensor)
         == if FirstSettling(calls, id, sensor).None? && Settles(e, id, sensor) then Some(e) else FirstSettling(calls, id, sensor)
    ensures LastAck(calls + [e], id) == if e.Ack? && e.id == id then Some(e) else LastAck(calls, id)
    ensures FirstSettling(calls, id, sensor).None? ==> LastAck(calls, id).None?
  {
    assert (calls + [e])[..|calls|] == calls;
  }

  lemma NextIsTold(c: Info, enqueue: Event, e: Event, first: Option<Event>, ack: Option<Event>)
    requires enqueue.Enqueue? && (ack.Some? ==> ack.value.Ack?) && (first.None? ==> ack.None?)
    requires ToldBy(c, enqueue, first, ack)
    ensures var id, sensor := enqueue.id, enqueue.sensor;
      ToldBy(NextInfo(c, e, id), enqueue,
             if first.None? && Settles(e, id, sensor) then Some(e) else first,
             if e.Ack? && e.id == id then Some(e) else ack)
  {
  }

  /**
   * The calls after a command's enqueue tell all that has become of it: it was handed out exactly
   * when the first call that settles it is a poll of its sensor, it is pending exactly when there is
   * none, and an acknowledgement, whenever it came, overrides whatever else there was.
   */
  lemma {:induction false} StatusToldFromCalls(events: seq<Event>, i: nat)
    requires FreshIds(events) && i < |events| && events[i].Enqueue?
    ensures var id, sensor, calls := events[i].id, events[i].sensor, events[i + 1..];
      && id in Run(events).commands
      && ToldBy(Run(events).commands[id], events[i], FirstSettling(calls, id, sensor), LastAck(calls, id))
    decreases |events|
  {
    var k, id, sensor := |events| - 1, events[i].id, events[i].sensor;
    FreshOnEnqueue(events);
    RunIsIndexed(events[..k]);
    if i < k {
      var calls, s := events[..k][i + 1..], Run(events[..k]);
      assert events[i + 1..] == calls + [events[k]];
      hide FreshIds, Step, WellIndexed, ToldBy, FirstSettling, LastAck, NextInfo, Settles;
      StatusToldFromCalls(events[..k], i);
      OneCallMore(calls, events[k], id, sensor);
      StepNextInfo(s, events[k], id);
      NextIsTold(s.commands[id], events[i], events[k], FirstSettling(calls, id, sensor), LastAck(calls, id));
    }
  }

  /** A command's id appears in the outputs of its sensor's polls, and no other's, exactly when a poll settled it first. */
  lemma HandedOutWhenPolledFirst(events: seq<Event>, i: nat)
    requires FreshIds(events) && i < |events| && events[i].Enqueue?
    ensures var id, sensor := events[i].id, events[i].sensor;
      var first := FirstSettling(events[i + 1..], id, sensor);
      && (id in HandedOut(events, sensor) <==> first.Some? && first.value.Poll?)
      && forall other :: other != sensor ==> id !in HandedOut(events, other)
  {
    StatusToldFromCalls(events, i);
    var id := events[i].id;
    forall other
      ensures id in HandedOut(events, other)
         <==> WasDelivered(Run(events), id) && Run(events).commands[id].sensorId == other
    {
      HandedOutAtMostOnce(events, other, id);
    }
  }

  /** Some call enqueued this id for this sensor with this kind and payload. */
  ghost predicate EnqueuedWith(events: seq<Event>, id: string, sensor: int, kind: string, payload: string) {
    exists a :: EnqueuedAt(events, a, id, sensor) && events[a].kind == kind && events[a].payload == payload
  }

  /** What a poll would hand out was enqueued for that sensor, with the kind and payload the index shows. */
  lemma PendingWereEnqueued(events: seq<Event>, sensor: int, id: string)
    requires FreshIds(events) && id in PendingFor(Run(events), sensor)
    ensures var s := Run(events);
      id in s.commands
      && EnqueuedWith(events, id, sensor, s.commands[id].kind, s.commands[id].payload)
  {
    RunKeepsInv(events);
    PendingInFacts(Run(events), OrderOf(Run(events), sensor));
    ListFacts(Run(events), sensor);
    KnownWereEnqueued(events, id);
    var a :| 0 <= a < |events| && events[a].Enqueue? && events[a].id == id;
    StatusToldFromCalls(events, a);
    assert EnqueuedAt(events, a, id, sensor);
  }

  // ---- which acknowledged commands were handed out ----

  /** The command was acknowledged while it was still pending, or after it had been cancelled. */
  ghost predicate AckedTooEarly(s: State, e: Event, id: string) {
    e.Ack? && e.id == id && (HasStatus(s, id, Pending) || HasStatus(s, id, Cancelled))
  }

  ghost predicate AckedUnseen(s: State, id: string) {
    HasStatus(s, id, Acked) && !WasDelivered(s, id)
  }

  lemma StepAcksUnseen(s: State, e: Event, id: string)
    requires Inv(s) && (e.Enqueue? ==> e.id !in s.commands)
    ensures AckedUnseen(Step(s, e), id) <==> AckedUnseen(s, id) || AckedTooEarly(s, e, id)
  {
    StepKeys(s, e);
    if id in s.commands {
      assert Stamped(s) && WellIndexed(s);
      StepNextInfo(s, e, id);
    } else {
      NewArePending(s, e, id);
    }
    hide Step, Inv, WellIndexed, Stamped;
  }

  lemma NewArePending(s: State, e: Event, id: string)
    requires id !in s.commands
    ensures id in Step(s, e).commands ==> HasStatus(Step(s, e), id, Pending)
  {
    StepKeys(s, e);
  }

  /** Call i of the run acknowledged the command too early. */
  ghost predicate TooEarlyAt(events: seq<Event>, i: int, id: string) {
    0 <= i < |events| && AckedTooEarly(Run(events[..i]), events[i], id)
  }

  lemma SameTooEarly(events: seq<Event>, i: int, id: string)
    requires events != []
    ensures TooEarlyAt(events, i, id)
         == if i == |events| - 1 then AckedTooEarly(Run(events[..i]), events[i], id) else TooEarlyAt(events[..|events| - 1], i, id)
  {
    if 0 <= i < |events| - 1 {
      assert events[..|events| - 1][..i] == events[..i];
    }
  }

  /** An acknowledged command was never handed out if and only if some acknowledgement met it pending or cancelled. */
  lemma {:induction false} AckedUnseenExactly(events: seq<Event>, id: string)
    requires FreshIds(events)
    ensures AckedUnseen(Run(events), id) <==> exists i :: TooEarlyAt(events, i, id)
  {
    if events != [] {
      hide Inv, Step, FreshIds, AckedTooEarly, AckedUnseen, TooEarlyAt;
      var k := |events| - 1;
      FreshOnEnqueue(events);
      RunKeepsInv(events[..k]);
      AckedUnseenExactly(events[..k], id);
      StepAcksUnseen(Run(events[..k]), events[k], id);
      forall i
        ensures TooEarlyAt(events, i, id)
             == if i == k then AckedTooEarly(Run(events[..k]), events[k], id) else TooEarlyAt(events[..k], i, id)
      {
        SameTooEarly(events, i, id);
      }
      NotAtTheEnd(events[..k], id);
      assert TooEarlyAt(events, k, id) == AckedTooEarly(Run(events[..k]), events[k], id);
    }
  }

  lemma NotAtTheEnd(events: seq<Event>, id: string)
    ensures !TooEarlyAt(events, |events|, id)
  {
  }

  /** Acked means handed out, throughout a run, exactly when no acknowledgement met a pending or a cancelled command. */
  lemma AckedWereHandedOutIff(events: seq<Event>)
    requires FreshIds(events)
    ensures (forall id :: HasStatus(Run(events), id, Acked) ==> WasDelivered(Run(events), id))
       <==> (forall i :: 0 <= i < |events| && events[i].Ack? ==>
               !HasStatus(Run(events[..i]), events[i].id, Pending) && !HasStatus(Run(events[..i]), events[i].id, Cancelled))
  {
    hide Run, FreshIds, HasStatus, WasDelivered;
    forall i | 0 <= i < |events| && events[i].Ack?
      && (HasStatus(Run(events[..i]), events[i].id, Pending) || HasStatus(Run(events[..i]), events[i].id, Cancelled))
      ensures HasStatus(Run(events), events[i].id, Acked) && !WasDelivered(Run(events), events[i].id)
    {
      assert TooEarlyAt(events, i, events[i].id);
      AckedUnseenExactly(events, events[i].id);
    }
    forall id | HasStatus(Run(events), id, Acked) && !WasDelivered(Run(events), id)
      ensures exists i :: (0 <= i < |events| && events[i].Ack?
                && (HasStatus(Run(events[..i]), events[i].id, Pending) || HasStatus(Run(events[..i]), events[i].id, Cancelled)))
    {
      AckedUnseenExactly(events, id);
      var i :| TooEarlyAt(events, i, id);
    }
  }

  /** A cancelled command can still be acknowledged, and a pending one acknowledged without ever being handed out. */
  lemma AckedWithoutDelivery(id: string, sensor: int)
    ensures var e := Enqueue(id, sensor, "reboot", "", 0.0);
      && HasStatus(Run([e, Ack(id, "", 1.0)]), id, Acked) && HandedOut([e, Ack(id, "", 1.0)], sensor) == []
      && HasStatus(Run([e, Cancel(id)]), id, Cancelled) && HasStatus(Run([e, Cancel(id), Ack(id, "", 1.0)]), id, Acked)
  {
    var e, a, c := Enqueue(id, sensor, "reboot", "", 0.0), Ack(id, "", 1.0), Cancel(id);
    assert [e][..0] == [] && [e, a][..1] == [e] && [e, c][..1] == [e] && [e, c, a][..2] == [e, c];
    assert Run([e]) == Step(EMPTY, e);
    assert HandedOut([e], sensor) == [];
  }
}
