/** Sensor tags and the fleet groups read off them. */
module TagRegistry {
  import opened Wrappers

  datatype Tag = Tag(key: string, value: string)

  // ---- one sensor's list of tags ----

  /** The position of the first tag with this key, or the length of the list. */
  function IndexOf(tags: seq<Tag>, key: string): (i: nat)
    ensures i <= |tags| && (i < |tags| ==> tags[i].key == key)
    ensures forall j :: 0 <= j < i ==> tags[j].key != key
  {
    if tags == [] || tags[0].key == key then 0 else 1 + IndexOf(tags[1..], key)
  }

  /** Overwrite the first tag with the key, or append one. */
  function WithTag(tags: seq<Tag>, key: string, value: string): seq<Tag> {
    var i := IndexOf(tags, key);
    if i < |tags| then tags[i := Tag(key, value)] else tags + [Tag(key, value)]
  }

  function WithoutKey(tags: seq<Tag>, key: string): seq<Tag> {
    if tags == [] then []
    else
      var k := |tags| - 1;
      WithoutKey(tags[..k], key) + if tags[k].key != key then [tags[k]] else []
  }

  ghost predicate UniqueKeys(tags: seq<Tag>) {
    forall i, j :: 0 <= i < j < |tags| ==> tags[i].key != tags[j].key
  }

  function AsMap(tags: seq<Tag>): map<string, string> {
    if tags == [] then map[] else AsMap(tags[..|tags| - 1])[tags[|tags| - 1].key := tags[|tags| - 1].value]
  }

  lemma {:induction false} AsMapLookup(tags: seq<Tag>, key: string)
    requires UniqueKeys(tags)
    ensures var i := IndexOf(tags, key);
      (key in AsMap(tags) <==> i < |tags|) && (i < |tags| ==> AsMap(tags)[key] == tags[i].value)
  {
    if tags != [] {
      var k := |tags| - 1;
      AsMapLookup(tags[..k], key);
      var i, before := IndexOf(tags, key), IndexOf(tags[..k], key);
      assert i < k ==> tags[..k][i].key == key;
      assert before < k ==> tags[before].key == key;
    }
  }

  lemma WithTagUnique(tags: seq<Tag>, key: string, value: string)
    requires UniqueKeys(tags)
    ensures UniqueKeys(WithTag(tags, key, value))
  {
  }

  lemma WithTagFacts(tags: seq<Tag>, key: string, value: string)
    requires UniqueKeys(tags)
    ensures UniqueKeys(WithTag(tags, key, value))
    ensures AsMap(WithTag(tags, key, value)) == AsMap(tags)[key := value]
  {
    WithTagUnique(tags, key, value);
    var i := IndexOf(tags, key);
    if i < |tags| {
      OverwriteFacts(tags, i, value);
    } else {
      hide UniqueKeys, IndexOf, AsMap;
      AsMapOfAppended(tags, Tag(key, value));
    }
  }

  lemma AsMapOfAppended(tags: seq<Tag>, t: Tag)
    ensures AsMap(tags + [t]) == AsMap(tags)[t.key := t.value]
  {
    assert (tags + [t])[..|tags|] == tags;
  }

  lemma {:induction false} OverwriteFacts(tags: seq<Tag>, i: nat, value: string)
    requires UniqueKeys(tags) && i < |tags|
    ensures AsMap(tags[i := Tag(tags[i].key, value)]) == AsMap(tags)[tags[i].key := value]
  {
    var k := |tags| - 1;
    var after := tags[i := Tag(tags[i].key, value)];
    if i < k {
      OverwriteFacts(tags[..k], i, value);
      assert after[..k] == tags[..k][i := Tag(tags[i].key, value)];
    } else {
      assert after[..k] == tags[..k];
    }
  }

  lemma {:induction false} WithoutKeyMembers(tags: seq<Tag>, key: string)
    ensures forall t :: t in WithoutKey(tags, key) <==> t in tags && t.key != key
  {
    if tags != [] {
      WithoutKeyMembers(tags[..|tags| - 1], key);
      assert tags == tags[..|tags| - 1] + [tags[|tags| - 1]];
    }
  }

  lemma {:induction false} WithoutKeyUnique(tags: seq<Tag>, key: string)
    requires UniqueKeys(tags)
    ensures UniqueKeys(WithoutKey(tags, key))
  {
    if tags != [] {
      var k := |tags| - 1;
      var rest := WithoutKey(tags[..k], key);
      WithoutKeyUnique(tags[..k], key);
      WithoutKeyMembers(tags[..k], key);
      assert forall i :: 0 <= i < |rest| ==> rest[i] in rest;
    }
  }

  lemma {:induction false} WithoutKeyAsMap(tags: seq<Tag>, key: string)
    requires UniqueKeys(tags)
    ensures AsMap(WithoutKey(tags, key)) == AsMap(tags) - {key}
  {
    if tags != [] {
      var k := |tags| - 1;
      var rest := WithoutKey(tags[..k], key);
      WithoutKeyAsMap(tags[..k], key);
      hide UniqueKeys;
      if tags[k].key != key {
        assert (rest + [tags[k]])[..|rest|] == rest;
      } else {
        assert rest + [] == rest;
      }
    }
  }

  lemma WithoutKeyFacts(tags: seq<Tag>, key: string)
    requires UniqueKeys(tags)
    ensures UniqueKeys(WithoutKey(tags, key))
    ensures AsMap(WithoutKey(tags, key)) == AsMap(tags) - {key}
  {
    WithoutKeyUnique(tags, key);
    WithoutKeyAsMap(tags, key);
  }

  // ---- the registry as a value: sensors in the order they were first tagged ----

  datatype Registry = Registry(order: seq<int>, tags: map<int, seq<Tag>>)

  datatype Event = Add(sensor: int, key: string, value: string) | Remove(sensor: int, key: string)

  function TagsOf(r: Registry, sensor: int): seq<Tag> {
    if sensor in r.tags then r.tags[sensor] else []
  }

  function Step(r: Registry, e: Event): Registry {
    match e
    case Add(sensor, key, value) =>
      Registry(if sensor in r.tags then r.order else r.order + [sensor],
               r.tags[sensor := WithTag(TagsOf(r, sensor), key, value)])
    case Remove(sensor, key) =>
      if sensor in r.tags then r.(tags := r.tags[sensor := WithoutKey(r.tags[sensor], key)]) else r
  }

  function Run(events: seq<Event>): Registry {
    if events == [] then Registry([], map[]) else Step(Run(events[..|events| - 1]), events[|events| - 1])
  }

  /** The reference: per sensor a map from key to value. */
  function Reference(events: seq<Event>): map<int, map<string, string>> {
    if events == [] then map[]
    else
      var before := Reference(events[..|events| - 1]);
      match events[|events| - 1]
      case Add(sensor, key, value) =>
        before[sensor := (if sensor in before then before[sensor] else map[])[key := value]]
      case Remove(sensor, key) =>
        if sensor in before then before[sensor := before[sensor] - {key}] else before
  }

  ghost predicate Inv(r: Registry) {
    && (forall s :: s in r.order <==> s in r.tags)
    && Distinct(r.order)
    && (forall s :: s in r.tags ==> UniqueKeys(r.tags[s]))
  }

  lemma StepKeepsInv(r: Registry, e: Event)
    requires Inv(r)
    ensures Inv(Step(r, e))
  {
    var t := Step(r, e);
    assert e.Add? ==> UniqueKeys(t.tags[e.sensor]) by {
      WithTagUnique(TagsOf(r, e.sensor), e.key, if e.Add? then e.value else "");
    }
    assert e.sensor in r.tags && e.Remove? ==> UniqueKeys(t.tags[e.sensor]) by {
      WithoutKeyUnique(TagsOf(r, e.sensor), e.key);
    }
    hide UniqueKeys, WithTag, WithoutKey;
    assert Distinct(t.order) by {
      assert e.sensor !in r.tags ==> e.sensor !in r.order;
    }
    hide Distinct;
    assert forall s :: s in r.order + [e.sensor] <==> s in r.order || s == e.sensor;
  }

  /** After any run of adds and removes keys are unique per sensor and the lists hold just the reference maps. */
  lemma {:induction false} RegistryRefinesMaps(events: seq<Event>)
    ensures var r := Run(events);
      Inv(r) && r.tags.Keys == Reference(events).Keys
      && forall s :: s in r.tags ==> AsMap(r.tags[s]) == Reference(events)[s]
  {
    if events != [] {
      var k := |events| - 1;
      var r, e := Run(events[..k]), events[k];
      RegistryRefinesMaps(events[..k]);
      StepKeepsInv(r, e);
      if e.Add? {
        WithTagFacts(TagsOf(r, e.sensor), e.key, e.value);
      } else if e.sensor in r.tags {
        WithoutKeyFacts(r.tags[e.sensor], e.key);
      }
    }
  }

  // ---- the registry told from its log ----

  /** Call a is the first to tag this sensor. */
  ghost predicate FirstTagged(events: seq<Event>, a: int, sensor: int) {
    && 0 <= a < |events| && events[a].Add? && events[a].sensor == sensor
    && forall m :: 0 <= m < a && events[m].Add? ==> events[m].sensor != sensor
  }

  /** These sensors were first tagged by these calls, one after the other. */
  ghost predicate TaggedBy(events: seq<Event>, sensors: seq<int>, at: seq<int>) {
    && |at| == |sensors| && (forall i, j :: 0 <= i < j < |at| ==> at[i] < at[j])
    && forall i :: 0 <= i < |at| ==> FirstTagged(events, at[i], sensors[i])
  }

  /** The sensors stand in the order in which they were first tagged. */
  ghost predicate InTaggedOrder(events: seq<Event>, sensors: seq<int>) {
    exists at :: TaggedBy(events, sensors, at)
  }

  ghost predicate WasTagged(events: seq<Event>, sensor: int) {
    exists a :: 0 <= a < |events| && events[a].Add? && events[a].sensor == sensor
  }

  lemma WasTaggedStep(events: seq<Event>, e: Event, sensor: int)
    ensures WasTagged(events + [e], sensor) <==> WasTagged(events, sensor) || (e.Add? && e.sensor == sensor)
  {
    var all := events + [e];
    assert all[|events|] == e && forall m :: 0 <= m < |events| ==> all[m] == events[m];
  }

  lemma TaggedOrderStep(events: seq<Event>, e: Event, sensors: seq<int>)
    requires InTaggedOrder(events, sensors)
    ensures InTaggedOrder(events + [e], sensors)
    ensures e.Add? && !WasTagged(events, e.sensor) ==> InTaggedOrder(events + [e], sensors + [e.sensor])
  {
    var all := events + [e];
    var at :| TaggedBy(events, sensors, at);
    assert all[|events|] == e && forall m :: 0 <= m < |events| ==> all[m] == events[m];
    assert forall a, s :: FirstTagged(events, a, s) ==> FirstTagged(all, a, s);
    assert TaggedBy(all, sensors, at);
    if e.Add? && !WasTagged(events, e.sensor) {
      assert FirstTagged(all, |events|, e.sensor);
      assert TaggedBy(all, sensors + [e.sensor], at + [|events|]);
    }
  }

  /** The registry lists exactly the sensors ever tagged, in the order in which each was first tagged. */
  lemma {:induction false} OrderIsFirstTagged(events: seq<Event>)
    ensures InTaggedOrder(events, Run(events).order)
    ensures forall s :: s in Run(events).order <==> WasTagged(events, s)
  {
    if events == [] {
      assert TaggedBy([], [], []);
    } else {
      var k := |events| - 1;
      var before, r, e := events[..k], Run(events[..k]), events[k];
      OrderIsFirstTagged(before);
      RegistryRefinesMaps(before);
      assert e.sensor in r.order <==> e.sensor in r.tags;
      assert Run(events).order == if e.Add? && e.sensor !in r.tags then r.order + [e.sensor] else r.order;
      hide Run, Inv, WasTagged, InTaggedOrder;
      TaggedOrderStep(before, e, r.order);
      forall s
        ensures WasTagged(events, s) <==> WasTagged(before, s) || (e.Add? && e.sensor == s)
      {
        assert events == before + [e];
        WasTaggedStep(before, e, s);
      }
      assert events == before + [e];
    }
  }

  /** Call a is about this key of this sensor. */
  ghost predicate Touches(events: seq<Event>, a: int, sensor: int, key: string) {
    0 <= a < |events| && events[a].sensor == sensor && events[a].key == key
  }

  /** The last call about this key of the sensor gave it this value. */
  ghost predicate LastGave(events: seq<Event>, sensor: int, key: string, value: string) {
    exists a :: Touches(events, a, sensor, key) && events[a] == Add(sensor, key, value)
                && forall m :: a < m < |events| ==> !Touches(events, m, sensor, key)
  }

  lemma LastGaveStep(events: seq<Event>, e: Event, sensor: int, key: string, value: string)
    ensures LastGave(events + [e], sensor, key, value)
       <==> if e.sensor == sensor && e.key == key then e == Add(sensor, key, value) else LastGave(events, sensor, key, value)
  {
    var all := events + [e];
    assert all[|events|] == e;
    assert forall m :: 0 <= m < |events| ==> (Touches(all, m, sensor, key) <==> Touches(events, m, sensor, key)) && all[m] == events[m];
    assert Touches(all, |events|, sensor, key) <==> e.sensor == sensor && e.key == key;
  }

  /** The reference maps hold for each key of each sensor just the value the last call about it gave. */
  lemma {:induction false} ReferenceFromLog(events: seq<Event>, sensor: int, key: string, value: string)
    ensures var m := Reference(events);
      LastGave(events, sensor, key, value) <==> sensor in m && key in m[sensor] && m[sensor][key] == value
  {
    if events != [] {
      var k := |events| - 1;
      assert events == events[..k] + [events[k]];
      ReferenceFromLog(events[..k], sensor, key, value);
      LastGaveStep(events[..k], events[k], sensor, key, value);
      hide LastGave;
    }
  }

  // ---- searching ----

  predicate Matches(t: Tag, key: string, value: Option<string>) {
    t.key == key && (value.None? || t.value == value.value)
  }

  predicate HasTag(tags: seq<Tag>, key: string, value: Option<string>) {
    exists i :: 0 <= i < |tags| && Matches(tags[i], key, value)
  }

  /** The sensors with such a tag, in registry order. */
  function Find(r: Registry, sensors: seq<int>, key: string, value: Option<string>): seq<int> {
    if sensors == [] then []
    else
      var k := |sensors| - 1;
      Find(r, sensors[..k], key, value) + if HasTag(TagsOf(r, sensors[k]), key, value) then [sensors[k]] else []
  }

  lemma {:induction false} FindMembers(r: Registry, sensors: seq<int>, key: string, value: Option<string>)
    ensures forall s :: s in Find(r, sensors, key, value) <==> s in sensors && HasTag(TagsOf(r, s), key, value)
  {
    if sensors != [] {
      FindMembers(r, sensors[..|sensors| - 1], key, value);
      assert sensors == sensors[..|sensors| - 1] + [sensors[|sensors| - 1]];
    }
  }

  /** Where the sensors found were first tagged, given where the sensors searched were. */
  ghost function FoundAt(r: Registry, sensors: seq<int>, at: seq<int>, key: string, value: Option<string>): (found: seq<int>)
    requires |at| == |sensors|
  {
    if sensors == [] then []
    else
      var k := |sensors| - 1;
      FoundAt(r, sensors[..k], at[..k], key, value) + if HasTag(TagsOf(r, sensors[k]), key, value) then [at[k]] else []
  }

  lemma {:induction false} FindKeepsOrder(r: Registry, events: seq<Event>, sensors: seq<int>, at: seq<int>,
                                          key: string, value: Option<string>)
    requires TaggedBy(events, sensors, at)
    ensures TaggedBy(events, Find(r, sensors, key, value), FoundAt(r, sensors, at, key, value))
    ensures forall i :: 0 <= i < |FoundAt(r, sensors, at, key, value)| ==>
      sensors != [] && FoundAt(r, sensors, at, key, value)[i] <= at[|at| - 1]
  {
    hide HasTag, FirstTagged;
    if sensors != [] {
      var k := |sensors| - 1;
      FindKeepsOrder(r, events, sensors[..k], at[..k], key, value);
    }
  }

  lemma HasTagIsMapped(tags: seq<Tag>, key: string, value: Option<string>)
    requires UniqueKeys(tags)
    ensures HasTag(tags, key, value) <==> key in AsMap(tags) && (value.None? || AsMap(tags)[key] == value.value)
  {
    AsMapLookup(tags, key);
    var i := IndexOf(tags, key);
    if i < |tags| && (value.None? || tags[i].value == value.value) {
      assert Matches(tags[i], key, value);
    }
    if HasTag(tags, key, value) {
      var j :| 0 <= j < |tags| && Matches(tags[j], key, value);
      assert i == j;
    }
  }

  /**
   * These are the sensors whose key was last given that value (any value, when none is asked for),
   * in the order in which each sensor was first tagged.
   */
  ghost predicate IsSearchResult(events: seq<Event>, key: string, value: Option<string>, found: seq<int>) {
    && InTaggedOrder(events, found)
    && forall s :: s in found <==> LastGaveSome(events, s, key, value)
  }

  /** The sensor carries a tag that the search would hit, told from the log. */
  ghost predicate LastGaveSome(events: seq<Event>, sensor: int, key: string, value: Option<string>) {
    exists v :: LastGave(events, sensor, key, v) && (value.None? || v == value.value)
  }

  lemma FoundOne(events: seq<Event>, s: int, key: string, value: Option<string>)
    ensures var r := Run(events);
      s in r.order && HasTag(TagsOf(r, s), key, value) <==> LastGaveSome(events, s, key, value)
  {
    var r, m := Run(events), Reference(events);
    RegistryRefinesMaps(events);
    assert s in r.order <==> s in r.tags;
    if s in r.tags {
      HasTagIsMapped(r.tags[s], key, value);
    }
    hide HasTag, UniqueKeys, LastGave, Run, Reference, AsMap;
    forall v
      ensures LastGave(events, s, key, v) <==> s in m && key in m[s] && m[s][key] == v
    {
      ReferenceFromLog(events, s, key, v);
    }
    if s in m && key in m[s] {
      assert LastGave(events, s, key, m[s][key]);
    }
  }

  /** The search finds what the log alone says it should, in that order. */
  lemma FoundFromLog(events: seq<Event>, key: string, value: Option<string>)
    ensures IsSearchResult(events, key, value, Find(Run(events), Run(events).order, key, value))
  {
    var r := Run(events);
    OrderIsFirstTagged(events);
    var at :| TaggedBy(events, r.order, at);
    FindKeepsOrder(r, events, r.order, at, key, value);
    FindMembers(r, r.order, key, value);
    hide HasTag, LastGaveSome, TaggedBy, Run, Find, TagsOf;
    forall s
      ensures s in r.order && HasTag(TagsOf(r, s), key, value) <==> LastGaveSome(events, s, key, value)
    {
      FoundOne(events, s, key, value);
    }
  }

  lemma {:induction false} FindDistinct(r: Registry, sensors: seq<int>, key: string, value: Option<string>)
    requires Distinct(sensors)
    ensures Distinct(Find(r, sensors, key, value))
  {
    if sensors != [] {
      var k := |sensors| - 1;
      FindDistinct(r, sensors[..k], key, value);
      FindMembers(r, sensors[..k], key, value);
      var f := Find(r, sensors[..k], key, value);
      assert forall i :: 0 <= i < |f| ==> f[i] in f;
      assert sensors[k] !in sensors[..k];
    }
  }

  lemma {:induction false} FindIsShorter(r: Registry, sensors: seq<int>, key: string, value: Option<string>)
    ensures |Find(r, sensors, key, value)| <= |sensors|
  {
    if sensors != [] {
      FindIsShorter(r, sensors[..|sensors| - 1], key, value);
    }
  }

  /** With unique keys a sensor is in at most one group. */
  lemma OneGroupEach(r: Registry, s: int, g: string, h: string)
    requires Inv(r) && HasTag(TagsOf(r, s), "group", Some(g)) && HasTag(TagsOf(r, s), "group", Some(h))
    ensures g == h
  {
    var tags := TagsOf(r, s);
    var i :| 0 <= i < |tags| && Matches(tags[i], "group", Some(g));
    var j :| 0 <= j < |tags| && Matches(tags[j], "group", Some(h));
    assert i < j || j < i || i == j;
  }

  function GroupOf(groups: map<string, seq<int>>, g: string): seq<int> {
    if g in groups then groups[g] else []
  }

  /** The groups are exactly what the tag search finds for each group name, and none of them is empty. */
  ghost predicate IsGrouping(r: Registry, sensors: seq<int>, groups: map<string, seq<int>>) {
    && (forall g :: GroupOf(groups, g) == Find(r, sensors, "group", Some(g)))
    && (forall g :: g in groups ==> groups[g] != [])
  }

  /** One more sensor with these tags has been entered. */
  ghost predicate Entered(before: map<string, seq<int>>, groups: map<string, seq<int>>, s: int, tags: seq<Tag>) {
    && (forall g :: GroupOf(groups, g) == GroupOf(before, g) + if HasTag(tags, "group", Some(g)) then [s] else [])
    && (forall g :: g in groups ==> groups[g] != [])
  }

  /** The body of the inner loop of `get_groups`. */
  function EnterTag(groups: map<string, seq<int>>, s: int, t: Tag): map<string, seq<int>> {
    if t.key == "group" then groups[t.value := GroupOf(groups, t.value) + [s]] else groups
  }

  lemma EnterStep(before: map<string, seq<int>>, groups: map<string, seq<int>>, s: int, tags: seq<Tag>, j: nat)
    requires j < |tags| && UniqueKeys(tags) && Entered(before, groups, s, tags[..j])
    ensures Entered(before, EnterTag(groups, s, tags[j]), s, tags[..j + 1])
  {
    var after := EnterTag(groups, s, tags[j]);
    forall g
      ensures GroupOf(after, g) == GroupOf(before, g) + if HasTag(tags[..j + 1], "group", Some(g)) then [s] else []
    {
      TagStep(tags, j, g);
      hide HasTag;
      assert GroupOf(groups, g) == GroupOf(before, g) + if HasTag(tags[..j], "group", Some(g)) then [s] else [];
    }
  }

  lemma GroupingStep(r: Registry, sensors: seq<int>, k: nat, before: map<string, seq<int>>, groups: map<string, seq<int>>)
    requires k < |sensors| && IsGrouping(r, sensors[..k], before)
    requires Entered(before, groups, sensors[k], TagsOf(r, sensors[k]))
    ensures IsGrouping(r, sensors[..k + 1], groups)
  {
    assert sensors[..k + 1][..k] == sensors[..k];
    hide HasTag;
  }

  lemma TagStep(tags: seq<Tag>, j: nat, g: string)
    requires j < |tags| && UniqueKeys(tags)
    ensures HasTag(tags[..j + 1], "group", Some(g))
       <==> HasTag(tags[..j], "group", Some(g)) || (tags[j].key == "group" && tags[j].value == g)
    ensures tags[j].key == "group" ==> !HasTag(tags[..j], "group", Some(g))
  {
    if HasTag(tags[..j], "group", Some(g)) {
      var i :| 0 <= i < |tags[..j]| && Matches(tags[..j][i], "group", Some(g));
      assert Matches(tags[..j + 1][i], "group", Some(g));
    }
    if tags[j].key == "group" && tags[j].value == g {
      assert Matches(tags[..j + 1][j], "group", Some(g));
    }
    if HasTag(tags[..j + 1], "group", Some(g)) {
      var i :| 0 <= i < |tags[..j + 1]| && Matches(tags[..j + 1][i], "group", Some(g));
      assert i < j ==> Matches(tags[..j][i], "group", Some(g));
    }
  }

  // ---- the registry object ----

  class TagRegistry {
    /** The dictionary: its keys in insertion order, and its entries. */
    var order: seq<int>
    var tags: map<int, seq<Tag>>
    ghost var log: seq<Event>

    ghost predicate Valid()
      reads this
    {
      Registry(order, tags) == Run(log) && Inv(Registry(order, tags))
    }

    constructor ()
      ensures Valid() && log == []
    {
      order, tags, log := [], map[], [];
    }

    method AddTag(sensorId: int, key: string, value: string)
      requires Valid()
      modifies this
      ensures Valid() && log == old(log) + [Add(sensorId, key, value)]
    {
      ghost var before := Registry(order, tags);
      StepKeepsInv(before, Add(sensorId, key, value));
      assert (log + [Add(sensorId, key, value)])[..|log|] == log;
      log := log + [Add(sensorId, key, value)];
      if sensorId !in tags {
        order := order + [sensorId];
        tags := tags[sensorId := []];
      }
      var list := tags[sensorId];
      var existing := IndexOf(list, key);
      if existing < |list| {
        tags := tags[sensorId := list[existing := Tag(list[existing].key, value)]];
      } else {
        tags := tags[sensorId := list + [Tag(key, value)]];
      }
    }

    method RemoveTag(sensorId: int, key: string)
      requires Valid()
      modifies this
      ensures Valid() && log == old(log) + [Remove(sensorId, key)]
    {
      StepKeepsInv(Registry(order, tags), Remove(sensorId, key));
      assert (log + [Remove(sensorId, key)])[..|log|] == log;
      log := log + [Remove(sensorId, key)];
      if sensorId in tags {
        tags := tags[sensorId := WithoutKey(tags[sensorId], key)];
      }
    }

    method FindByTag(key: string, value: Option<string>) returns (results: seq<int>)
      requires Valid()
      ensures results == Find(Run(log), Run(log).order, key, value)
      ensures IsSearchResult(log, key, value, results)
    {
      FoundFromLog(log, key, value);
      hide Run, HasTag, IsSearchResult;
      ghost var r := Registry(order, tags);
      results := [];
      for i := 0 to |order|
        invariant results == Find(r, order[..i], key, value)
      {
        var sensor := order[i];
        assert r.order[i] == sensor;
        assert sensor in r.tags;
        assert order[..i + 1][..i] == order[..i];
        var found := Carries(tags[sensor], key, value);
        if found {
          results := results + [sensor];
        }
      }
      assert order[..|order|] == order;
    }

    /** Every group name with its sensors: just what `FindByTag` returns for it, in the same order. */
    method GetGroups() returns (groups: map<string, seq<int>>)
      requires Valid()
      ensures IsGrouping(Run(log), Run(log).order, groups)
      ensures forall g :: IsSearchResult(log, "group", Some(g), GroupOf(groups, g))
    {
      forall g
        ensures IsSearchResult(log, "group", Some(g), Find(Run(log), Run(log).order, "group", Some(g)))
      {
        FoundFromLog(log, "group", Some(g));
      }
      hide Run, Entered, IsSearchResult;
      ghost var r := Registry(order, tags);
      groups := map[];
      NothingGrouped(r);
      for i := 0 to |order|
        invariant IsGrouping(r, order[..i], groups)
      {
        var s := order[i];
        assert s in r.order && s in r.tags;
        ghost var before := groups;
        groups := Enter(groups, s, tags[s]);
        GroupingStep(r, order, i, before, groups);
      }
      assert order[..|order|] == order;
    }
  }

  lemma NothingGrouped(r: Registry)
    ensures IsGrouping(r, [], map[])
  {
  }

  /** The inner loop of `find_by_tag`, left at the first hit. */
  method Carries(list: seq<Tag>, key: string, value: Option<string>) returns (found: bool)
    ensures found == HasTag(list, key, value)
  {
    for j := 0 to |list|
      invariant forall m :: 0 <= m < j ==> !Matches(list[m], key, value)
    {
      if list[j].key == key && (value.None? || list[j].value == value.value) {
        assert Matches(list[j], key, value);
        return true;
      }
    }
    return false;
  }

  /** The inner loop of `get_groups`: no break, so it relies on the keys being unique. */
  method Enter(before: map<string, seq<int>>, s: int, list: seq<Tag>) returns (groups: map<string, seq<int>>)
    requires UniqueKeys(list) && forall g :: g in before ==> before[g] != []
    ensures Entered(before, groups, s, list)
  {
    groups := before;
    assert Entered(before, groups, s, list[..0]);
    hide Entered, UniqueKeys, HasTag;
    for j := 0 to |list|
      invariant Entered(before, groups, s, list[..j])
    {
      EnterStep(before, groups, s, list, j);
      ghost var entered := EnterTag(groups, s, list[j]);
      if list[j].key == "group" {
        var name := list[j].value;
        if name !in groups {
          groups := groups[name := []];
        }
        groups := groups[name := groups[name] + [s]];
      }
      assert groups == entered;
    }
    assert list[..|list|] == list;
  }
}
