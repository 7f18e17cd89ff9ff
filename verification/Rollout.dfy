/** The firmware rollout: one command to every sensor of a group. */
module Rollout {
  import opened Wrappers
  import opened CommandQueues
  import T = TagRegistry

  /** One `ota-update` per target, in order, with the ids the generator produced for them. */
  function RolloutEvents(targets: seq<int>, version: string, ids: seq<string>, now: real): (events: seq<M.Event>)
    requires |targets| <= |ids|
    ensures |events| == |targets|
    ensures forall k :: 0 <= k < |targets| ==> events[k] == M.Enqueue(ids[k], targets[k], "ota-update", version, now)
  {
    seq(|targets|, k requires 0 <= k < |targets| => M.Enqueue(ids[k], targets[k], "ota-update", version, now))
  }

  /**
   * A rollout enqueues exactly one command for every sensor whose group was last given that name, and
   * none for anyone else, in the order in which the sensors were first tagged.
   */
  lemma ExactlyTheGroup(log: seq<T.Event>, group: string, version: string, ids: seq<string>, now: real)
    requires |T.Find(T.Run(log), T.Run(log).order, "group", Some(group))| <= |ids|
    ensures var targets := T.Find(T.Run(log), T.Run(log).order, "group", Some(group));
      var events := RolloutEvents(targets, version, ids, now);
      && (forall sensor :: (exists k :: 0 <= k < |events| && events[k].sensor == sensor)
                           <==> T.LastGave(log, sensor, "group", group))
      && (forall j, k :: 0 <= j < k < |events| ==> events[j].sensor != events[k].sensor)
      && T.InTaggedOrder(log, targets)
      && forall k :: 0 <= k < |events| ==>
        events[k] == M.Enqueue(ids[k], events[k].sensor, "ota-update", version, now)
  {
    var r := T.Run(log);
    var targets := T.Find(r, r.order, "group", Some(group));
    var events := RolloutEvents(targets, version, ids, now);
    T.RegistryRefinesMaps(log);
    T.FindDistinct(r, r.order, "group", Some(group));
    T.FoundFromLog(log, "group", Some(group));
    hide T.Run, T.Find, T.Inv, T.InTaggedOrder, T.LastGave, RolloutEvents;
    forall sensor
      ensures (exists k :: 0 <= k < |events| && events[k].sensor == sensor) <==> T.LastGave(log, sensor, "group", group)
    {
      OnePerTarget(targets, events, sensor);
    }
  }

  lemma OnePerTarget(targets: seq<int>, events: seq<M.Event>, sensor: int)
    requires |events| == |targets|
    requires forall k :: 0 <= k < |events| ==> events[k].Enqueue? && events[k].sensor == targets[k]
    ensures (exists k :: 0 <= k < |events| && events[k].sensor == sensor) <==> sensor in targets
  {
    if sensor in targets {
      var k :| 0 <= k < |targets| && targets[k] == sensor;
      assert events[k].sensor == sensor;
    }
  }

  datatype Target = Target(sensorId: int, commandId: string)

  /** `firmware_rollout`; `ids` are the fresh ids the generator produces, one per command. */
  method FirmwareRollout(registry: T.TagRegistry, q: CommandQueue, group: string, version: string,
                         ids: seq<string>, now: real)
    returns (r: Response<seq<Target>>)
    requires registry.Valid() && q.Valid()
    requires |T.Run(registry.log).order| <= |ids|
    requires forall k :: 0 <= k < |ids| ==> ids[k] !in q.byId
    requires forall j, k :: 0 <= j < k < |ids| ==> ids[j] != ids[k]
    modifies q
    ensures q.Valid()
    ensures r == HttpError(400) <==> group == "" || version == ""
    ensures var reg := T.Run(registry.log); var targets := T.Find(reg, reg.order, "group", Some(group));
      && (r == HttpError(404) <==> group != "" && version != "" && targets == [])
      && (r.HttpError? ==> q.log == old(q.log))
      && (r.Ok? ==>
            && |targets| <= |ids|
            && q.log == old(q.log) + RolloutEvents(targets, version, ids, now)
            && |r.body| == |targets|
            && forall k :: 0 <= k < |targets| ==> r.body[k] == Target(targets[k], ids[k]))
  {
    if group == "" || version == "" {
      return HttpError(400);
    }
    var groups := registry.GetGroups();
    ghost var reg := T.Run(registry.log);
    assert T.GroupOf(groups, group) == T.Find(reg, reg.order, "group", Some(group));
    if group !in groups {
      return HttpError(404);
    }
    var targets := groups[group];
    T.FindIsShorter(reg, reg.order, "group", Some(group));
    var out := EnqueueForAll(q, targets, version, ids, now);
    r := Ok(out);
  }

  /** The loop of the rollout. */
  method EnqueueForAll(q: CommandQueue, targets: seq<int>, version: string, ids: seq<string>, now: real)
    returns (out: seq<Target>)
    requires q.Valid() && |targets| <= |ids|
    requires forall k :: 0 <= k < |ids| ==> ids[k] !in q.byId
    requires forall j, k :: 0 <= j < k < |ids| ==> ids[j] != ids[k]
    modifies q
    ensures q.Valid()
    ensures q.log == old(q.log) + RolloutEvents(targets, version, ids, now)
    ensures |out| == |targets| && forall k :: 0 <= k < |targets| ==> out[k] == Target(targets[k], ids[k])
  {
    hide CommandQueue.Valid;
    out := [];
    ghost var events := RolloutEvents(targets, version, ids, now);
    for k := 0 to |targets|
      invariant q.Valid() && q.log == old(q.log) + events[..k]
      invariant forall j :: k <= j < |ids| ==> ids[j] !in q.byId
      invariant |out| == k && forall j :: 0 <= j < k ==> out[j] == Target(targets[j], ids[j])
    {
      var cmd := q.Enqueue(ids[k], targets[k], "ota-update", version, now);
      assert events[..k + 1] == events[..k] + [events[k]];
      out := out + [Target(targets[k], cmd.id)];
    }
    assert events[..|targets|] == events;
  }
}
