/** The gateway's ring buffer of received CAN frames and its counters. */
module FrameBuffers {
  import opened Bounded

  datatype Frame = Frame(canId: nat, sensorId: int, value: real, unit: string, receivedAt: real)

  datatype Stats = Stats(framesReceived: nat, errors: nat, bufferSize: nat, perSensor: map<int, nat>)

  function CountOf(frames: seq<Frame>, sensor: int): nat {
    if frames == [] then 0
    else CountOf(frames[..|frames| - 1], sensor) + if frames[|frames| - 1].sensorId == sensor then 1 else 0
  }

  /** The counters hold one entry per sensor heard, with the number of its frames. */
  ghost predicate CountsFrames(counts: map<int, nat>, frames: seq<Frame>) {
    && (forall s :: s in counts <==> CountOf(frames, s) > 0)
    && (forall s :: s in counts ==> counts[s] == CountOf(frames, s))
  }

  /** The sum of the counters of these sensors. */
  ghost function TotalOver<K>(keys: set<K>, m: map<K, nat>): nat
    requires keys <= m.Keys
  {
    if keys == {} then 0
    else
      var s :| s in keys;
      m[s] + TotalOver(keys - {s}, m)
  }

  ghost function CounterTotal<K>(m: map<K, nat>): nat {
    TotalOver(m.Keys, m)
  }

  lemma {:induction false} TotalWithout<K>(keys: set<K>, m: map<K, nat>, s: K)
    requires s in keys && keys <= m.Keys
    ensures TotalOver(keys, m) == m[s] + TotalOver(keys - {s}, m)
  {
    var first :| first in keys && TotalOver(keys, m) == m[first] + TotalOver(keys - {first}, m);
    if first != s {
      TotalWithout(keys - {first}, m, s);
      TotalWithout(keys - {s}, m, first);
      assert keys - {first} - {s} == keys - {s} - {first};
    }
  }

  lemma {:induction false} TotalAgrees<K>(keys: set<K>, m: map<K, nat>, m': map<K, nat>)
    requires keys <= m.Keys && keys <= m'.Keys
    requires forall s :: s in keys ==> m[s] == m'[s]
    ensures TotalOver(keys, m) == TotalOver(keys, m')
  {
    if keys != {} {
      var s :| s in keys;
      TotalWithout(keys, m, s);
      TotalWithout(keys, m', s);
      TotalAgrees(keys - {s}, m, m');
    }
  }

  /** Frames received equal the sum of the per-sensor counters. */
  lemma {:induction false} CountersAddUp(counts: map<int, nat>, frames: seq<Frame>)
    requires CountsFrames(counts, frames)
    ensures CounterTotal(counts) == |frames|
    decreases |frames|
  {
    if frames == [] {
      assert forall s :: s !in counts.Keys;
      assert counts.Keys == {};
    } else {
      var k := |frames| - 1;
      var s := frames[k].sensorId;
      var before := CountsBefore(counts, frames, k, s);
      CountersAddUp(before, frames[..k]);
      TotalWithout(counts.Keys, counts, s);
      assert forall t :: t in counts.Keys - {s} ==> t in before && t != s;
      TotalAgrees(counts.Keys - {s}, counts, before);
      if s in before {
        TotalWithout(before.Keys, before, s);
        assert before.Keys - {s} == counts.Keys - {s};
      } else {
        assert before.Keys == counts.Keys - {s};
      }
    }
  }

  lemma CountsBefore(counts: map<int, nat>, frames: seq<Frame>, k: nat, s: int) returns (before: map<int, nat>)
    requires |frames| == k + 1 && s == frames[k].sensorId && CountsFrames(counts, frames)
    ensures CountsFrames(before, frames[..k]) && s in counts
    ensures before.Keys == if CountOf(frames[..k], s) == 0 then counts.Keys - {s} else counts.Keys
    ensures forall t :: t in before && t != s ==> before[t] == counts[t]
    ensures counts[s] == (if s in before then before[s] else 0) + 1
  {
    var n := CountOf(frames[..k], s);
    assert CountOf(frames, s) == n + 1;
    before := if n == 0 then counts - {s} else counts[s := n];
    forall t
      ensures t in before <==> CountOf(frames[..k], t) > 0
    {
      assert t != s ==> CountOf(frames, t) == CountOf(frames[..k], t);
    }
  }

  class FrameBuffer {
    const maxSize: nat
    var buf: seq<Frame>
    var frameCount: nat
    var errorCount: nat
    var bySensor: map<int, nat>
    /** Every frame recorded since construction or the last reset. */
    ghost var recorded: seq<Frame>

    ghost predicate Valid()
      reads this
    {
      buf == LastN(recorded, maxSize) && frameCount == |recorded| && CountsFrames(bySensor, recorded)
    }

    constructor (maxSize: nat)
      ensures Valid() && this.maxSize == maxSize && recorded == [] && errorCount == 0
    {
      this.maxSize := maxSize;
      buf, frameCount, errorCount, bySensor, recorded := [], 0, 0, map[], [];
    }

    /** A bounded deque drops its oldest entry when it overflows. */
    method Record(frame: Frame)
      requires Valid()
      modifies this
      ensures Valid() && recorded == old(recorded) + [frame] && errorCount == old(errorCount)
    {
      LastNOfAppend(recorded, maxSize, frame);
      buf := LastN(buf + [frame], maxSize);
      frameCount := frameCount + 1;
      var s := frame.sensorId;
      bySensor := bySensor[s := (if s in bySensor then bySensor[s] else 0) + 1];
      assert (recorded + [frame])[..|recorded|] == recorded;
      recorded := recorded + [frame];
    }

    method RecordError()
      requires Valid()
      modifies this
      ensures Valid() && recorded == old(recorded) && errorCount == old(errorCount) + 1
    {
      errorCount := errorCount + 1;
    }

    method Recent(limit: int) returns (items: seq<Frame>)
      requires Valid()
      ensures items == Reversed(TailSlice(LastN(recorded, maxSize), limit))
    {
      items := Reversed(TailSlice(buf, limit));
    }

    method Reset()
      requires Valid()
      modifies this
      ensures Valid() && recorded == [] && errorCount == 0
    {
      buf, frameCount, errorCount, bySensor, recorded := [], 0, 0, map[], [];
    }

    method GetStats() returns (stats: Stats)
      requires Valid()
      ensures stats.framesReceived == |recorded| == CounterTotal(stats.perSensor)
      ensures stats.bufferSize == if |recorded| < maxSize then |recorded| else maxSize
      ensures stats.errors == errorCount && CountsFrames(stats.perSensor, recorded)
    {
      CountersAddUp(bySensor, recorded);
      stats := Stats(frameCount, errorCount, |buf|, bySensor);
    }
  }
}
