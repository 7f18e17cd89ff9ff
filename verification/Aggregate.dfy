/** The bucketed aggregate endpoint. */
module Aggregate {
  import opened Wrappers
  import opened Bounded
  import opened Reals
  import opened Sums
  import opened Readings

  datatype Summary = Summary(count: nat, avg: real, low: real, high: real, from: Option<real>, to: Option<real>)

  /** One output entry; the average is the unrounded one. */
  function Summarize(chunk: seq<Reading>): Summary
    requires chunk != []
  {
    var values := Values(chunk);
    Summary(|values|, Sum(values) / |values| as real, Min(values), Max(values),
            chunk[0].recordedAt, chunk[|chunk| - 1].recordedAt)
  }

  /** `range(0, len(rows), bucket)` over the rows, one summary per slice. */
  function Summaries(rows: seq<Reading>, bucket: nat): seq<Summary>
    requires bucket > 0
  {
    if rows == [] then []
    else if |rows| <= bucket then [Summarize(rows)]
    else [Summarize(rows[..bucket])] + Summaries(rows[bucket..], bucket)
  }

  /** The summaries still to come when the loop stands at index i. */
  function From(rows: seq<Reading>, bucket: nat, i: nat): seq<Summary>
    requires bucket > 0
  {
    if i < |rows| then Summaries(rows[i..], bucket) else []
  }

  lemma FromStep(rows: seq<Reading>, bucket: nat, i: nat, end: nat)
    requires bucket > 0 && i < |rows|
    requires end == if i + bucket < |rows| then i + bucket else |rows|
    ensures From(rows, bucket, i) == [Summarize(rows[i..end])] + From(rows, bucket, i + bucket)
  {
    hide Summarize;
    if i + bucket < |rows| {
      assert rows[i..][..bucket] == rows[i..end] && rows[i..][bucket..] == rows[end..];
    } else {
      assert rows[i..] == rows[i..end];
    }
  }

  /** The bucketing loop. */
  method Bucketize(series: seq<Reading>, bucket: nat) returns (out: seq<Summary>)
    requires bucket > 0
    ensures out == Summaries(series, bucket)
  {
    hide Summarize;
    assert series[0..] == series;
    out := [];
    var i := 0;
    while i < |series|
      invariant 0 <= i
      invariant out + From(series, bucket, i) == From(series, bucket, 0)
    {
      var end := if i + bucket < |series| then i + bucket else |series|;
      FromStep(series, bucket, i, end);
      assert out + ([Summarize(series[i..end])] + From(series, bucket, i + bucket))
          == (out + [Summarize(series[i..end])]) + From(series, bucket, i + bucket);
      out := out + [Summarize(series[i..end])];
      i := i + bucket;
    }
  }

  /** `sensor_aggregate`, on the rows its query returned, newest first. */
  method SensorAggregate(window: int, bucket: int, sensorKnown: bool, rows: seq<Reading>)
    returns (r: Response<seq<Summary>>)
    ensures r == HttpError(400) <==> !(1 <= bucket <= window <= 5000)
    ensures r == HttpError(404) <==> 1 <= bucket <= window <= 5000 && !sensorKnown
    ensures 1 <= bucket <= window <= 5000 && sensorKnown ==> r == Ok(Summaries(Reversed(rows), bucket))
  {
    if window < 1 || window > 5000 {
      return HttpError(400);
    }
    if bucket < 1 || bucket > window {
      return HttpError(400);
    }
    if !sensorKnown {
      return HttpError(404);
    }
    var out := Bucketize(Reversed(rows), bucket);
    r := Ok(out);
  }

  /** Slice k of the rows: `rows[k*bucket : (k+1)*bucket]`, which Python cuts off at the end of the list. */
  function Slice(rows: seq<Reading>, bucket: nat, k: nat): seq<Reading> {
    var from, to := k * bucket, (k + 1) * bucket;
    rows[if from < |rows| then from else |rows|..if to < |rows| then to else |rows|]
  }

  lemma SliceShift(rows: seq<Reading>, bucket: nat, k: nat)
    requires bucket <= |rows| && k > 0
    ensures Slice(rows, bucket, k) == Slice(rows[bucket..], bucket, k - 1)
  {
    assert k * bucket == (k - 1) * bucket + bucket && (k + 1) * bucket == k * bucket + bucket;
    assert k * bucket >= bucket;
  }

  /** There are ceil(n / bucket) entries: the least number of buckets that hold n rows. */
  lemma {:induction false} EntryCount(rows: seq<Reading>, bucket: nat)
    requires bucket > 0
    ensures (|Summaries(rows, bucket)| - 1) * bucket < |rows| <= |Summaries(rows, bucket)| * bucket || rows == []
    ensures rows == [] ==> Summaries(rows, bucket) == []
  {
    hide Summarize;
    if |rows| > bucket {
      EntryCount(rows[bucket..], bucket);
      var m := |Summaries(rows[bucket..], bucket)|;
      assert (m + 1) * bucket == m * bucket + bucket == (m - 1) * bucket + 2 * bucket;
    }
  }

  /** Entry k summarizes slice k, and only the last slice may be short. */
  lemma {:induction false} EntryOfEachSlice(rows: seq<Reading>, bucket: nat, k: nat)
    requires bucket > 0 && k < |Summaries(rows, bucket)|
    ensures var slice := Slice(rows, bucket, k);
      && 1 <= |slice| <= bucket
      && (k + 1 < |Summaries(rows, bucket)| ==> |slice| == bucket)
      && Summaries(rows, bucket)[k] == Summarize(slice)
  {
    hide Summarize;
    if k == 0 {
      assert Slice(rows, bucket, 0) == if |rows| <= bucket then rows else rows[..bucket];
    } else {
      EntryOfEachSlice(rows[bucket..], bucket, k - 1);
      SliceShift(rows, bucket, k);
    }
  }

  /**
   * What an entry tells of its rows: their number, the sum of their values, the least and the greatest
   * of them, and when the first and the last were recorded.
   */
  ghost predicate Tells(e: Summary, chunk: seq<Reading>)
    requires chunk != []
  {
    && e.count == |chunk| && e.count as real * e.avg == Sum(Values(chunk))
    && (exists i :: 0 <= i < |chunk| && chunk[i].value == e.low)
    && (exists i :: 0 <= i < |chunk| && chunk[i].value == e.high)
    && (forall i :: 0 <= i < |chunk| ==> e.low <= chunk[i].value <= e.high)
    && e.from == chunk[0].recordedAt && e.to == chunk[|chunk| - 1].recordedAt
  }

  /** Entry k tells of the rows from k * bucket up to the next multiple of bucket, or to the end. */
  lemma EntryTells(rows: seq<Reading>, bucket: nat, k: nat)
    requires bucket > 0 && k < |Summaries(rows, bucket)|
    ensures k * bucket < |rows|
    ensures Tells(Summaries(rows, bucket)[k],
                  rows[k * bucket..if k * bucket + bucket < |rows| then k * bucket + bucket else |rows|])
  {
    EntryOfEachSlice(rows, bucket, k);
    SliceBounds(rows, bucket, k);
    var slice := Slice(rows, bucket, k);
    hide *;
    SummaryTells(slice);
  }

  lemma SliceBounds(rows: seq<Reading>, bucket: nat, k: nat)
    requires |Slice(rows, bucket, k)| >= 1
    ensures k * bucket < |rows|
    ensures Slice(rows, bucket, k) == rows[k * bucket..if k * bucket + bucket < |rows| then k * bucket + bucket else |rows|]
  {
    assert (k + 1) * bucket == k * bucket + bucket;
  }

  lemma SummaryTells(chunk: seq<Reading>)
    requires chunk != []
    ensures Tells(Summarize(chunk), chunk)
  {
    var values, e := Values(chunk), Summarize(chunk);
    WeightOfOne(chunk);
    hide Sum;
    var i :| 0 <= i < |values| && values[i] == e.low;
    var j :| 0 <= j < |values| && values[j] == e.high;
    assert chunk[i].value == e.low && chunk[j].value == e.high;
    assert forall m :: 0 <= m < |chunk| ==> chunk[m].value == values[m];
  }

  function TotalCount(out: seq<Summary>): nat {
    if out == [] then 0 else out[0].count + TotalCount(out[1..])
  }

  /** The averages weighted by their counts. */
  function WeightedTotal(out: seq<Summary>): real {
    if out == [] then 0.0 else Times(out[0].count as real, out[0].avg) + WeightedTotal(out[1..])
  }

  lemma WeightOfOne(chunk: seq<Reading>)
    requires chunk != []
    ensures Summarize(chunk).count == |chunk|
    ensures Times(Summarize(chunk).count as real, Summarize(chunk).avg) == Sum(Values(chunk))
  {
    hide Sum;
  }

  /**
   * Nothing is lost or counted twice: the counts add up to the number of rows and the
   * count-weighted averages to the sum of all values.
   */
  lemma {:induction false} AggregateConserves(rows: seq<Reading>, bucket: nat)
    requires bucket > 0
    ensures TotalCount(Summaries(rows, bucket)) == |rows|
    ensures WeightedTotal(Summaries(rows, bucket)) == Sum(Values(rows))
  {
    hide Summarize, Sum, Times;
    if rows == [] {
      SumOfNothing(Values(rows));
    } else if |rows| <= bucket {
      WeightOfOne(rows);
      assert Summaries(rows, bucket)[1..] == [];
    } else {
      var chunk, rest := rows[..bucket], rows[bucket..];
      WeightOfOne(chunk);
      AggregateConserves(rest, bucket);
      SumAppend(Values(chunk), Values(rest));
      assert Values(rows) == Values(chunk) + Values(rest);
      TotalsOfMore(Summarize(chunk), Summaries(rest, bucket));
      hide TotalCount, WeightedTotal;
    }
  }

  lemma TotalsOfMore(first: Summary, rest: seq<Summary>)
    ensures TotalCount([first] + rest) == first.count + TotalCount(rest)
    ensures WeightedTotal([first] + rest) == Times(first.count as real, first.avg) + WeightedTotal(rest)
  {
    assert ([first] + rest)[1..] == rest;
  }

  lemma SumOfNothing(s: seq<real>)
    requires s == []
    ensures Sum(s) == 0.0
  {
  }
}
