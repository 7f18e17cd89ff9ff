/** The client's streaming moving-average filter against the gateway's windowed endpoint. */
module MovingAverages {
  import opened Wrappers
  import opened Bounded
  import opened Sums
  import opened Readings

  datatype Point = Point(index: nat, value: real, average: real)

  /** The unrounded average the endpoint reports at index i of the series. */
  function WindowAverage(values: seq<real>, period: nat, i: nat): real
    requires period > 0 && period - 1 <= i < |values|
  {
    Sum(values[i - period + 1..i + 1]) / period as real
  }

  /** `moving_average`, on the rows its query returned, newest first. */
  method MovingAverageEndpoint(period: int, points: int, sensorKnown: bool, rows: seq<Reading>)
    returns (r: Response<seq<Point>>)
    ensures r == HttpError(400) <==> !(2 <= period <= 100 && period <= points <= 1000)
    ensures r == HttpError(404) <==> 2 <= period <= 100 && period <= points <= 1000 && !sensorKnown
    ensures r.Ok? ==> period >= 2
    ensures r.Ok? ==>
      var values := Values(Reversed(rows));
      && |r.body| == (if |rows| < period then 0 else |rows| - period + 1)
      && forall k :: 0 <= k < |r.body| ==>
        r.body[k] == Point(k + period - 1, values[k + period - 1], WindowAverage(values, period, k + period - 1))
  {
    if period < 2 || period > 100 {
      return HttpError(400);
    }
    if points < period || points > 1000 {
      return HttpError(400);
    }
    if !sensorKnown {
      return HttpError(404);
    }
    var values := Values(Reversed(rows));
    var out := [];
    if period - 1 < |values| {
      for i := period - 1 to |values|
        invariant |out| == i - (period - 1)
        invariant forall k :: 0 <= k < |out| ==>
          out[k] == Point(k + period - 1, values[k + period - 1], WindowAverage(values, period, k + period - 1))
      {
        var window := values[i - period + 1..i + 1];
        out := out + [Point(i, values[i], Sum(window) / period as real)];
      }
    }
    r := Ok(out);
  }

  lemma RotationKeepsSum(slots: seq<real>, head: nat)
    requires head <= |slots|
    ensures Sum(Unrotated(slots, head)) == Sum(slots)
  {
    hide Sum;
    SumAppend(slots[head..], slots[..head]);
    SumAppend(slots[..head], slots[head..]);
    assert slots == slots[..head] + slots[head..];
  }

  /** A simple moving average over the last `window` values pushed. */
  class MovingAverage {
    const window: nat
    var head: nat
    var buf: seq<real>
    /** Everything pushed since construction or the last reset. */
    ghost var pushed: seq<real>

    /** The slots hold the last values pushed, rotated so that the oldest stands at `head`. */
    ghost predicate Valid()
      reads this
    {
      && 1 <= window && head < window && head <= |buf|
      && (|buf| < window ==> head == 0)
      && Unrotated(buf, head) == LastN(pushed, window)
    }

    constructor (window: nat)
      requires window >= 1
      ensures Valid() && this.window == window && pushed == []
    {
      this.window := window;
      head, buf, pushed := 0, [], [];
    }

    /** The C++ constructor refuses a window of zero by throwing. */
    static method Create(window: nat) returns (filter: Option<MovingAverage>)
      ensures filter.None? <==> window < 1
      ensures filter.Some? ==>
        fresh(filter.value) && filter.value.Valid() && filter.value.window == window && filter.value.pushed == []
    {
      if window < 1 {
        return None;
      }
      var f := new MovingAverage(window);
      return Some(f);
    }

    method Push(value: real)
      requires Valid()
      modifies this
      ensures Valid() && pushed == old(pushed) + [value]
    {
      LastNOfAppend(pushed, window, value);
      if |buf| < window {
        buf := buf + [value];
      } else {
        var next := Wrap(head + 1, window);
        OverwriteOldest(buf, head, next, value);
        hide Unrotated, Wrap;
        buf := buf[head := value];
        head := next;
      }
      pushed := pushed + [value];
    }

    /** The average of what the slots hold, whatever their rotation. */
    method Value() returns (average: real)
      requires Valid()
      ensures average == if pushed == [] then 0.0 else Mean(LastN(pushed, window))
    {
      if |buf| == 0 {
        return 0.0;
      }
      RotationKeepsSum(buf, head);
      hide Unrotated;
      var sum := 0.0;
      for i := 0 to |buf|
        invariant sum == Sum(buf[..i])
      {
        assert buf[..i + 1][..i] == buf[..i];
        sum := sum + buf[i];
      }
      assert buf[..|buf|] == buf;
      average := sum / |buf| as real;
    }

    method Ready() returns (ready: bool)
      requires Valid()
      ensures ready <==> |pushed| >= window
    {
      ready := |buf| >= window;
    }

    method Reset()
      requires Valid()
      modifies this
      ensures Valid() && pushed == []
    {
      buf := [];
      head := 0;
      pushed := [];
    }
  }

  /**
   * Streaming equals batch: once a filter of this period has been fed the series up to index i,
   * the average over what it still holds is the one the endpoint computes there.
   */
  lemma StreamingEqualsBatch(values: seq<real>, period: nat, i: nat)
    requires period > 0 && period - 1 <= i < |values|
    ensures LastN(values[..i + 1], period) != []
    ensures Mean(LastN(values[..i + 1], period)) == WindowAverage(values, period, i)
  {
    assert LastN(values[..i + 1], period) == values[i - period + 1..i + 1];
  }

  /** Feeding a fresh filter the series of the endpoint reproduces every point of the endpoint. */
  method Replay(values: seq<real>, period: nat) returns (series: seq<real>)
    requires period > 0
    ensures |series| == if |values| < period then 0 else |values| - period + 1
    ensures forall k :: 0 <= k < |series| ==> series[k] == WindowAverage(values, period, k + period - 1)
  {
    hide Sum, Mean, WindowAverage, LastN;
    var filter := new MovingAverage(period);
    series := [];
    for i := 0 to |values|
      invariant fresh(filter) && filter.Valid() && filter.window == period && filter.pushed == values[..i]
      invariant |series| == if i < period then 0 else i - period + 1
      invariant forall k :: 0 <= k < |series| ==> series[k] == WindowAverage(values, period, k + period - 1)
    {
      filter.Push(values[i]);
      assert values[..i + 1] == values[..i] + [values[i]];
      var ready := filter.Ready();
      if ready {
        var average := filter.Value();
        StreamingEqualsBatch(values, period, i);
        series := series + [average];
      }
    }
  }
}
