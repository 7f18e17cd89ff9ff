/** The command queue object, its two indexes over shared command objects, and the endpoints that use it. */
module CommandQueues {
  import opened Wrappers
  import M = CommandModel

  class Command {
    const id: string
    const sensorId: int
    const kind: string
    const payload: string
    const createdAt: real
    var status: M.Status
    var deliveredAt: Option<real>
    var ackedAt: Option<real>
    var result: Option<string>

    constructor (id: string, sensorId: int, kind: string, payload: string, now: real)
      ensures this.id == id && GetInfo() == M.Info(sensorId, kind, payload, M.Pending, now, None, None, None)
    {
      this.id, this.sensorId, this.kind, this.payload, this.createdAt := id, sensorId, kind, payload, now;
      status, deliveredAt, ackedAt, result := M.Pending, None, None, None;
    }

    ghost function GetInfo(): M.Info
      reads this
    {
      M.Info(sensorId, kind, payload, status, createdAt, deliveredAt, ackedAt, result)
    }
  }

  function Ids(commands: seq<Command>): (ids: seq<string>)
    ensures |ids| == |commands|
    ensures forall i :: 0 <= i < |commands| ==> ids[i] == commands[i].id
  {
    seq(|commands|, i requires 0 <= i < |commands| => commands[i].id)
  }

  /** Each sensor's list as ids. */
  ghost function Orders(queue: map<int, seq<Command>>): map<int, seq<string>> {
    map sensor | sensor in queue :: Ids(queue[sensor])
  }

  lemma OrdersOfAppended(queue: map<int, seq<Command>>, cmd: Command)
    ensures var list := if cmd.sensorId in queue then queue[cmd.sensorId] else [];
      var before := if cmd.sensorId in queue then Orders(queue)[cmd.sensorId] else [];
      Orders(queue[cmd.sensorId := list + [cmd]]) == Orders(queue)[cmd.sensorId := before + [cmd.id]]
  {
    var list := if cmd.sensorId in queue then queue[cmd.sensorId] else [];
    assert Ids(list + [cmd]) == Ids(list) + [cmd.id];
  }

  class CommandQueue {
    var queue: map<int, seq<Command>>
    var byId: map<string, Command>
    /** Every call so far that could change the queue. */
    ghost var log: seq<M.Event>

    /** Both indexes hold the same objects: an id names one object, and every listed object is the one its id names. */
    ghost predicate Indexed()
      reads this
    {
      && (forall id :: id in byId ==> byId[id].id == id)
      && (forall s, i :: s in queue && 0 <= i < |queue[s]| ==>
            queue[s][i].id in byId && byId[queue[s][i].id] == queue[s][i])
    }

    /** The queue as a value. */
    ghost function Abs(): M.State
      reads this, byId.Values
    {
      M.State(Orders(queue), map id | id in byId :: byId[id].GetInfo())
    }

    ghost predicate Valid()
      reads this, byId.Values
    {
      Indexed() && M.FreshIds(log) && Abs() == M.Run(log)
    }

    constructor ()
      ensures Valid() && log == [] && fresh(byId.Values)
    {
      queue, byId, log := map[], map[], [];
      new;
      assert Abs() == M.EMPTY;
    }

    /** Adds one call to the log. */
    ghost method Record(e: M.Event)
      requires M.FreshIds(log) && (e.Enqueue? ==> e.id !in M.Run(log).commands)
      modifies `log
      ensures log == old(log) + [e] && M.FreshIds(log) && M.Run(log) == M.Step(M.Run(old(log)), e)
    {
      M.FreshAfter(log, e);
      assert (log + [e])[..|log|] == log;
      log := log + [e];
    }

    /** Puts a new command into both indexes. */
    method Insert(cmd: Command)
      requires Indexed() && cmd.id !in byId
      modifies `queue, `byId
      ensures Indexed() && byId == old(byId)[cmd.id := cmd]
      ensures Abs() == M.State(old(Abs()).order[cmd.sensorId := M.OrderOf(old(Abs()), cmd.sensorId) + [cmd.id]],
                               old(Abs()).commands[cmd.id := cmd.GetInfo()])
    {
      OrdersOfAppended(queue, cmd);
      var list := if cmd.sensorId in queue then queue[cmd.sensorId] else [];
      queue := queue[cmd.sensorId := list + [cmd]];
      byId := byId[cmd.id := cmd];
      hide Ids, Indexed, Orders;
      assert Abs().commands == old(Abs()).commands[cmd.id := cmd.GetInfo()];
    }

    /** The id is the one the id generator produced: unused so far. */
    method Enqueue(id: string, sensorId: int, kind: string, payload: string, now: real) returns (cmd: Command)
      requires Valid() && id !in byId
      modifies this
      ensures Valid() && log == old(log) + [M.Enqueue(id, sensorId, kind, payload, now)]
      ensures fresh(cmd) && cmd.id == id && byId == old(byId)[id := cmd]
    {
      hide M.Run, M.FreshIds, Orders, Ids;
      ghost var before := Abs();
      cmd := new Command(id, sensorId, kind, payload, now);
      assert Abs() == before;
      Record(M.Enqueue(id, sensorId, kind, payload, now));
      Insert(cmd);
    }

    /** The sensor's pending commands, in enqueue order. */
    method PendingFor(sensorId: int) returns (out: seq<Command>)
      requires Indexed()
      ensures Ids(out) == M.PendingFor(Abs(), sensorId)
      ensures forall c :: c in out ==> c.id in byId && byId[c.id] == c
    {
      var list := if sensorId in queue then queue[sensorId] else [];
      out := [];
      for i := 0 to |list|
        invariant Ids(out) == M.PendingIn(Abs(), Ids(list)[..i])
        invariant forall c :: c in out ==> c.id in byId && byId[c.id] == c
      {
        assert Ids(list)[..i + 1][..i] == Ids(list)[..i];
        assert Abs().commands[list[i].id] == list[i].GetInfo();
        if list[i].status == M.Pending {
          assert Ids(out + [list[i]]) == Ids(out) + [list[i].id];
          out := out + [list[i]];
        }
      }
      assert Ids(list)[..|list|] == Ids(list);
    }

    method MarkDelivered(id: string, now: real)
      requires Indexed()
      modifies byId.Values
      ensures Abs() == M.MarkDelivered(old(Abs()), id, now)
    {
      if id in byId {
        ghost var before := Abs();
        var c := byId[id];
        assert c in byId.Values;
        c.status := M.Delivered;
        c.deliveredAt := Some(now);
        assert Abs().commands == M.MarkDelivered(before, id, now).commands;
      }
    }

    method Cancel(id: string) returns (done: bool)
      requires Valid()
      modifies `log, byId.Values
      ensures Valid() && log == old(log) + [M.Cancel(id)]
      ensures done == M.HasStatus(old(Abs()), id, M.Pending)
    {
      hide M.Run, M.FreshIds;
      ghost var before := Abs();
      Record(M.Cancel(id));
      done := id in byId && byId[id].status == M.Pending;
      if done {
        var c := byId[id];
        assert c in byId.Values;
        c.status := M.Cancelled;
        assert Abs().commands == M.CancelledIn(before, id).commands;
      }
    }

    method Ack(id: string, result: string, now: real)
      requires Valid()
      modifies `log, byId.Values
      ensures Valid() && log == old(log) + [M.Ack(id, result, now)]
    {
      hide M.Run, M.FreshIds;
      ghost var before := Abs();
      Record(M.Ack(id, result, now));
      if id in byId {
        var c := byId[id];
        assert c in byId.Values;
        c.status := M.Acked;
        c.ackedAt := Some(now);
        c.result := Some(result);
        assert Abs().commands == M.AckedIn(before, id, result, now).commands;
      }
    }
  }

  // ---- the endpoints ----

  /** What a poll returns for each command. */
  datatype Handed = Handed(id: string, kind: string, payload: string)

  function HandedIds(out: seq<Handed>): (ids: seq<string>)
    ensures |ids| == |out|
    ensures forall i :: 0 <= i < |out| ==> ids[i] == out[i].id
  {
    seq(|out|, i requires 0 <= i < |out| => out[i].id)
  }

  /** The loop of a poll: lists each command and marks it delivered. */
  method HandOut(q: CommandQueue, pending: seq<Command>, now: real) returns (out: seq<Handed>)
    requires q.Indexed()
    modifies q.byId.Values
    ensures q.Abs() == M.MarkAllDelivered(old(q.Abs()), Ids(pending), now)
    ensures |out| == |pending|
    ensures forall i :: 0 <= i < |out| ==> out[i] == Handed(pending[i].id, pending[i].kind, pending[i].payload)
  {
    ghost var ids := Ids(pending);
    out := [];
    for k := 0 to |pending|
      invariant q.Abs() == M.MarkAllDelivered(old(q.Abs()), ids[..k], now)
      invariant |out| == k
      invariant forall i :: 0 <= i < k ==> out[i] == Handed(pending[i].id, pending[i].kind, pending[i].payload)
    {
      var c := pending[k];
      out := out + [Handed(c.id, c.kind, c.payload)];
      assert ids[..k + 1][..k] == ids[..k];
      q.MarkDelivered(c.id, now);
    }
    assert ids[..|pending|] == ids;
  }

  /** A poll of a sensor whose device has identified itself. */
  method PollSensor(q: CommandQueue, sensorId: int, now: real) returns (out: seq<Handed>)
    requires q.Valid()
    modifies q`log, q.byId.Values
    ensures q.Valid() && q.log == old(q.log) + [M.Poll(sensorId, now)]
    ensures HandedIds(out) == M.PendingFor(M.Run(old(q.log)), sensorId)
    ensures M.HandedOut(q.log, sensorId) == M.HandedOut(old(q.log), sensorId) + HandedIds(out)
    ensures forall h :: h in out ==> h.id in q.byId && h.kind == q.byId[h.id].kind && h.payload == q.byId[h.id].payload
    ensures forall h :: h in out ==> M.EnqueuedWith(old(q.log), h.id, sensorId, h.kind, h.payload)
  {
    hide M.FreshIds, M.Run, M.Step, M.PendingFor, M.MarkAllDelivered, M.HandedOut, M.EnqueuedWith;
    var pending := q.PendingFor(sensorId);
    forall c | c in pending
      ensures M.EnqueuedWith(q.log, c.id, sensorId, c.kind, c.payload)
    {
      assert c.id in Ids(pending) by { InIds(pending, c); }
      M.PendingWereEnqueued(q.log, sensorId, c.id);
      assert q.Abs().commands[c.id] == c.GetInfo();
    }
    out := HandOut(q, pending, now);
    assert HandedIds(out) == Ids(pending);
    M.PollIsMarkAll(M.Run(q.log), sensorId, now);
    M.HandedOutBy(q.log, sensorId, now);
    q.Record(M.Poll(sensorId, now));
  }

  lemma InIds(commands: seq<Command>, c: Command)
    requires c in commands
    ensures c.id in Ids(commands)
  {
    var i :| 0 <= i < |commands| && commands[i] == c;
    assert Ids(commands)[i] == c.id;
  }

  /** `poll_commands`: hands out and marks delivered whatever is pending for the sensor. */
  method PollCommands(q: CommandQueue, keys: map<int, string>, sensorId: int, key: string, now: real)
    returns (r: Response<seq<Handed>>)
    requires q.Valid()
    modifies q`log, q.byId.Values
    ensures q.Valid()
    ensures r == HttpError(404) <==> sensorId !in keys
    ensures r == HttpError(500) <==> sensorId in keys && !(IsAscii(keys[sensorId]) && IsAscii(key))
    ensures r == HttpError(401) <==>
      sensorId in keys && IsAscii(keys[sensorId]) && IsAscii(key) && keys[sensorId] != key
    ensures r.HttpError? ==> q.log == old(q.log)
    ensures r.Ok? ==>
      && q.log == old(q.log) + [M.Poll(sensorId, now)]
      && HandedIds(r.body) == M.PendingFor(M.Run(old(q.log)), sensorId)
      && M.HandedOut(q.log, sensorId) == M.HandedOut(old(q.log), sensorId) + HandedIds(r.body)
      && forall h :: h in r.body ==>
        && h.id in q.byId && h.kind == q.byId[h.id].kind && h.payload == q.byId[h.id].payload
        && M.EnqueuedWith(old(q.log), h.id, sensorId, h.kind, h.payload)
  {
    if sensorId !in keys {
      return HttpError(404);
    }
    if !(IsAscii(keys[sensorId]) && IsAscii(key)) {
      return HttpError(500);
    }
    if keys[sensorId] != key {
      return HttpError(401);
    }
    hide M.FreshIds, M.Run, M.Step, M.PendingFor, M.HandedOut, M.EnqueuedWith;
    var out := PollSensor(q, sensorId, now);
    r := Ok(out);
  }

  /** `ack_command`. */
  method AckCommand(q: CommandQueue, keys: map<int, string>, id: string, key: string, result: string, now: real)
    returns (r: Response<string>)
    requires q.Valid()
    modifies q`log, q.byId.Values
    ensures q.Valid()
    ensures r == HttpError(404) <==> id !in q.byId
    ensures id in q.byId ==>
      var sensorId := q.byId[id].sensorId;
      && (r == HttpError(500) <==> sensorId in keys && !(IsAscii(keys[sensorId]) && IsAscii(key)))
      && (r.Ok? <==> sensorId in keys && IsAscii(keys[sensorId]) && IsAscii(key) && keys[sensorId] == key)
      && (r == HttpError(401) <==> sensorId !in keys || (IsAscii(keys[sensorId]) && IsAscii(key) && keys[sensorId] != key))
    ensures r.HttpError? ==> q.log == old(q.log)
    ensures r.Ok? ==> r.body == id && q.log == old(q.log) + [M.Ack(id, result, now)]
  {
    if id !in q.byId {
      return HttpError(404);
    }
    var sensorId := q.byId[id].sensorId;
    if sensorId in keys && !(IsAscii(keys[sensorId]) && IsAscii(key)) {
      return HttpError(500);
    }
    if sensorId !in keys || keys[sensorId] != key {
      return HttpError(401);
    }
    q.Ack(id, result, now);
    r := Ok(id);
  }

  /** `cancel_command`: only a pending command can be cancelled. */
  method CancelCommand(q: CommandQueue, id: string) returns (r: Response<string>)
    requires q.Valid()
    modifies q`log, q.byId.Values
    ensures q.Valid() && q.log == old(q.log) + [M.Cancel(id)]
    ensures r == HttpError(404) <==> id !in q.byId
    ensures r == HttpError(409) <==> id in q.byId && !M.HasStatus(M.Run(old(q.log)), id, M.Pending)
    ensures r.Ok? <==> M.HasStatus(M.Run(old(q.log)), id, M.Pending)
    ensures r.Ok? ==> r.body == id && M.HasStatus(M.Run(q.log), id, M.Cancelled)
    ensures r.HttpError? ==> M.Run(q.log) == M.Run(old(q.log))
  {
    assert id in q.byId <==> id in q.Abs().commands;
    assert (q.log + [M.Cancel(id)])[..|q.log|] == q.log;
    var done := q.Cancel(id);
    if !done {
      if id !in q.byId {
        return HttpError(404);
      }
      return HttpError(409);
    }
    r := Ok(id);
  }
}
