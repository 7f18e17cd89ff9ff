/** The histogram endpoint. */
module Distribution {
  import opened Wrappers
  import opened Reals
  import opened Readings

  datatype Bucket = Bucket(low: real, high: real, count: nat)

  datatype Histogram = Histogram(count: nat, buckets: seq<Bucket>)

  /** The lower edge of bucket i. */
  function Edge(lo: real, width: real, i: int): real {
    lo + Times(i as real, width)
  }

  /** Bucket i is closed below and open above, except that the last one is closed on both sides. */
  predicate InBucket(v: real, lo: real, width: real, bins: nat, i: nat) {
    Edge(lo, width, i) <= v && (v < Edge(lo, width, i + 1) || (i == bins - 1 && v <= Edge(lo, width, bins)))
  }

  function BucketCount(values: seq<real>, lo: real, width: real, bins: nat, i: nat): nat {
    if values == [] then 0
    else
      BucketCount(values[..|values| - 1], lo, width, bins, i)
      + if InBucket(values[|values| - 1], lo, width, bins, i) then 1 else 0
  }

  function TotalCount(counts: seq<nat>): nat {
    if counts == [] then 0 else TotalCount(counts[..|counts| - 1]) + counts[|counts| - 1]
  }

  function Counts(buckets: seq<Bucket>): (c: seq<nat>)
    ensures |c| == |buckets|
  {
    seq(|buckets|, i requires 0 <= i < |buckets| => buckets[i].count)
  }

  lemma EdgesGrow(lo: real, width: real, i: int, j: int)
    requires width > 0.0
    ensures i <= j ==> Edge(lo, width, i) <= Edge(lo, width, j)
    ensures Edge(lo, width, 0) == lo
  {
    if i <= j {
      var gap := Times(j as real - i as real, width);
      assert gap >= 0.0;
      assert Times(j as real, width) == Times(i as real, width) + gap;
    }
  }

  /** The last edge is the maximum. */
  lemma LastEdge(lo: real, hi: real, width: real, bins: nat)
    requires bins > 0 && width == (hi - lo) / bins as real
    ensures Edge(lo, width, bins) == hi
    ensures lo < hi ==> width > 0.0
  {
  }

  /** The computed index is in range, and it is the one bucket the value lies in. */
  lemma IndexIsTheBucket(v: real, lo: real, width: real, bins: nat, idx: nat, i: nat)
    requires width > 0.0 && bins > 0 && lo <= v <= Edge(lo, width, bins) && i < bins
    requires var q := ((v - lo) / width).Floor; idx == if q < bins - 1 then q else bins - 1
    ensures InBucket(v, lo, width, bins, i) <==> i == idx
  {
    var x := (v - lo) / width;
    var q := x.Floor;
    assert Times(x, width) == v - lo;
    hide Times;
    FloorEdges(x, width, q, v, lo);
    EdgesGrow(lo, width, idx, q);
    if i < idx {
      EdgesGrow(lo, width, i + 1, idx);
    } else if idx < i {
      EdgesGrow(lo, width, idx + 1, i);
    }
  }

  lemma FloorEdges(x: real, width: real, q: int, v: real, lo: real)
    requires width > 0.0 && Times(x, width) == v - lo && q == x.Floor
    ensures Edge(lo, width, q) <= v < Edge(lo, width, q + 1)
  {
    assert q as real <= x < (q + 1) as real;
    assert Times(x - q as real, width) >= 0.0;
    assert Times((q + 1) as real - x, width) > 0.0;
    assert Times(x - q as real, width) == Times(x, width) - Times(q as real, width);
    assert Times((q + 1) as real - x, width) == Times((q + 1) as real, width) - Times(x, width);
  }

  /** The counting loop: one list of counters, bumped in place. */
  method FillBuckets(values: seq<real>, lo: real, width: real, bins: nat) returns (counts: seq<nat>)
    requires width > 0.0 && bins > 0
    requires forall k :: 0 <= k < |values| ==> lo <= values[k] <= Edge(lo, width, bins)
    ensures |counts| == bins
    ensures forall i :: 0 <= i < bins ==> counts[i] == BucketCount(values, lo, width, bins, i)
  {
    hide Edge, InBucket;
    counts := seq(bins, i => 0);
    for k := 0 to |values|
      invariant |counts| == bins
      invariant forall i :: 0 <= i < bins ==> counts[i] == BucketCount(values[..k], lo, width, bins, i)
    {
      assert (values[k] - lo) / width >= 0.0;
      var q := ((values[k] - lo) / width).Floor;
      var idx := if q < bins - 1 then q else bins - 1;
      forall i | 0 <= i < bins
        ensures InBucket(values[k], lo, width, bins, i) <==> i == idx
      {
        IndexIsTheBucket(values[k], lo, width, bins, idx, i);
      }
      assert values[..k + 1][..k] == values[..k];
      counts := counts[idx := counts[idx] + 1];
    }
    assert values[..|values|] == values;
  }

  /** The buckets over values that are not all equal: each with its edges and what lies in it. */
  ghost predicate IsHistogram(values: seq<real>, lo: real, hi: real, bins: nat, buckets: seq<Bucket>)
    requires bins > 0
  {
    var width := (hi - lo) / bins as real;
    && |buckets| == bins
    && (forall i :: 0 <= i < bins ==>
          buckets[i] == Bucket(Edge(lo, width, i), Edge(lo, width, i + 1), BucketCount(values, lo, width, bins, i)))
    && TotalCount(Counts(buckets)) == |values|
    && buckets[0].count > 0 && buckets[bins - 1].count > 0
    && buckets[0].low == lo && buckets[bins - 1].high == hi
  }

  method BuildHistogram(values: seq<real>, lo: real, hi: real, bins: nat) returns (buckets: seq<Bucket>)
    requires values != [] && lo == Min(values) && hi == Max(values) && lo < hi && bins > 0
    ensures IsHistogram(values, lo, hi, bins, buckets)
  {
    var width := (hi - lo) / bins as real;
    LastEdge(lo, hi, width, bins);
    EdgesGrow(lo, width, 0, bins);
    hide Edge, BucketCount, TotalCount, Min, Max;
    var counts := FillBuckets(values, lo, width, bins);
    buckets := seq(bins, i requires 0 <= i < bins => Bucket(Edge(lo, width, i), Edge(lo, width, i + 1), counts[i]));
    CountsAddUp(values, lo, hi, width, bins, Counts(buckets));
    EndsAreCounted(values, lo, hi, width, bins);
  }

  /** `readings_distribution`, on the rows its query returned. */
  method ReadingsDistribution(bins: int, window: int, sensorKnown: bool, rows: seq<Reading>)
    returns (r: Response<Histogram>)
    ensures r == HttpError(400) <==> !(2 <= bins <= 100 && bins <= window <= 10000)
    ensures r == HttpError(404) <==> 2 <= bins <= 100 && bins <= window <= 10000 && !sensorKnown
    ensures r.Ok? ==> 2 <= bins && r.body.count == |rows| && (rows == [] ==> r.body.buckets == [])
    ensures r.Ok? && rows != [] ==>
      var values := Values(rows); var lo, hi := Min(values), Max(values);
      if lo == hi then r.body.buckets == [Bucket(lo, hi, |rows|)]
      else IsHistogram(values, lo, hi, bins, r.body.buckets)
  {
    if bins < 2 || bins > 100 {
      return HttpError(400);
    }
    if window < bins || window > 10000 {
      return HttpError(400);
    }
    if !sensorKnown {
      return HttpError(404);
    }
    if rows == [] {
      return Ok(Histogram(0, []));
    }
    hide IsHistogram;
    var values := Values(rows);
    var lo, hi := Min(values), Max(values);
    if lo == hi {
      return Ok(Histogram(|values|, [Bucket(lo, hi, |values|)]));
    }
    var buckets := BuildHistogram(values, lo, hi, bins);
    r := Ok(Histogram(|values|, buckets));
  }

  /** Every value is counted in exactly one bucket. */
  lemma {:induction false} CountsAddUp(values: seq<real>, lo: real, hi: real, width: real, bins: nat, counts: seq<nat>)
    requires width > 0.0 && bins > 0 && hi == Edge(lo, width, bins) && |counts| == bins
    requires forall i :: 0 <= i < |values| ==> lo <= values[i] <= hi
    requires forall i :: 0 <= i < bins ==> counts[i] == BucketCount(values, lo, width, bins, i)
    ensures TotalCount(counts) == |values|
  {
    if values == [] {
      TotalOfZeros(counts);
    } else {
      var k := |values| - 1;
      var before := seq(bins, i requires 0 <= i < bins => BucketCount(values[..k], lo, width, bins, i));
      CountsAddUp(values[..k], lo, hi, width, bins, before);
      var q := ((values[k] - lo) / width).Floor;
      assert (values[k] - lo) / width >= 0.0;
      var idx := if q < bins - 1 then q else bins - 1;
      forall i | 0 <= i < bins
        ensures counts[i] == before[i] + if i == idx then 1 else 0
      {
        IndexIsTheBucket(values[k], lo, width, bins, idx, i);
      }
      TotalAfterOne(before, counts, idx);
    }
  }

  lemma {:induction false} TotalOfZeros(counts: seq<nat>)
    requires forall i :: 0 <= i < |counts| ==> counts[i] == 0
    ensures TotalCount(counts) == 0
  {
    if counts != [] {
      TotalOfZeros(counts[..|counts| - 1]);
    }
  }

  lemma {:induction false} TotalAfterOne(before: seq<nat>, after: seq<nat>, idx: nat)
    requires |before| == |after| && idx < |before|
    requires forall i :: 0 <= i < |before| ==> after[i] == before[i] + if i == idx then 1 else 0
    ensures TotalCount(after) == TotalCount(before) + 1
  {
    var k := |before| - 1;
    if idx < k {
      TotalAfterOne(before[..k], after[..k], idx);
    } else {
      assert before[..k] == after[..k];
    }
  }

  lemma {:induction false} CountedIfPresent(values: seq<real>, lo: real, width: real, bins: nat, i: nat, j: nat)
    requires j < |values| && InBucket(values[j], lo, width, bins, i)
    ensures BucketCount(values, lo, width, bins, i) > 0
  {
    if j < |values| - 1 {
      CountedIfPresent(values[..|values| - 1], lo, width, bins, i, j);
    }
  }

  /** The minimum falls in the first bucket and the maximum in the last. */
  lemma EndsAreCounted(values: seq<real>, lo: real, hi: real, width: real, bins: nat)
    requires values != [] && lo == Min(values) && hi == Max(values)
    requires width > 0.0 && bins > 0 && hi == Edge(lo, width, bins)
    ensures BucketCount(values, lo, width, bins, 0) > 0 && BucketCount(values, lo, width, bins, bins - 1) > 0
  {
    var j :| 0 <= j < |values| && values[j] == lo;
    var k :| 0 <= k < |values| && values[k] == hi;
    assert InBucket(lo, lo, width, bins, 0) by {
      assert Edge(lo, width, 1) == lo + width;
    }
    EdgesGrow(lo, width, bins - 1, bins);
    CountedIfPresent(values, lo, width, bins, 0, j);
    CountedIfPresent(values, lo, width, bins, bins - 1, k);
  }
}
