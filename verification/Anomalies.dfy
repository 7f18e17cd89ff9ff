/** The anomaly endpoint: readings more than sigma standard deviations from the mean of the window. */
module Anomalies {
  import opened Wrappers
  import opened Reals
  import opened Sums
  import opened Readings

  datatype Anomaly = Anomaly(id: nat, value: real, deviation: real)

  datatype Report = Report(window: nat, enough: bool, anomalies: seq<Anomaly>)

  function Variance(values: seq<real>): (v: real)
    requires values != []
    ensures |values| as real * v == Dot(Deviations(values, Mean(values)), Deviations(values, Mean(values)))
  {
    Dot(Deviations(values, Mean(values)), Deviations(values, Mean(values))) / |values| as real
  }

  /** `variance ** 0.5`. */
  ghost predicate IsStdDev(values: seq<real>, s: real) {
    values != [] && s >= 0.0 && Square(s) == Variance(values)
  }

  /** The comprehension over the rows, in row order. */
  function Flagged(rows: seq<Reading>, mean: real, threshold: real): (f: seq<Anomaly>)
    ensures |f| <= |rows|
  {
    if rows == [] then []
    else
      var r := rows[|rows| - 1];
      var rest := Flagged(rows[..|rows| - 1], mean, threshold);
      if Abs(r.value - mean) > threshold then rest + [Anomaly(r.id, r.value, Abs(r.value - mean))] else rest
  }

  /** `sensor_anomalies`, on the rows its query returned; `stddev` stands for the computed root of the variance. */
  function SensorAnomalies(window: int, sigma: real, sensorKnown: bool, rows: seq<Reading>, stddev: real): Response<Report> {
    if window < 10 || window > 5000 then HttpError(400)
    else if !sensorKnown then HttpError(404)
    else if |rows| < 10 then Ok(Report(|rows|, false, []))
    else Ok(Report(|rows|, true, Flagged(rows, Mean(Values(rows)), sigma * stddev)))
  }

  /** Reading i is beyond the threshold, and this is how the report shows it. */
  predicate FlaggedAt(rows: seq<Reading>, mean: real, threshold: real, i: int, a: Anomaly) {
    && 0 <= i < |rows| && Abs(rows[i].value - mean) > threshold
    && a == Anomaly(rows[i].id, rows[i].value, Abs(rows[i].value - mean))
  }

  /** The report lists just the readings beyond the threshold, each with its deviation. */
  lemma {:induction false} FlaggedExactly(rows: seq<Reading>, mean: real, threshold: real, a: Anomaly)
    ensures a in Flagged(rows, mean, threshold) <==> exists i :: FlaggedAt(rows, mean, threshold, i, a)
  {
    if rows != [] {
      var k := |rows| - 1;
      FlaggedExactly(rows[..k], mean, threshold, a);
      forall i
        ensures FlaggedAt(rows, mean, threshold, i, a)
           <==> FlaggedAt(rows[..k], mean, threshold, i, a) || (i == k && FlaggedAt(rows, mean, threshold, k, a))
      {
      }
      assert a in Flagged(rows, mean, threshold)
        <==> a in Flagged(rows[..k], mean, threshold) || FlaggedAt(rows, mean, threshold, k, a);
    }
  }

  // ---- how many can be flagged ----

  lemma SpreadStep(rows: seq<Reading>, m: real)
    requires rows != []
    ensures var n, d := |rows| - 1, Deviations(Values(rows), m);
      var before := Deviations(Values(rows[..n]), m);
      Dot(d, d) == Dot(before, before) + Square(Abs(rows[n].value - m))
  {
    var n, d := |rows| - 1, Deviations(Values(rows), m);
    assert d[..n] == Deviations(Values(rows[..n]), m);
    assert d[n] * d[n] == Abs(d[n]) * Abs(d[n]);
  }

  /** Each flagged reading contributes more than the squared threshold to the sum of squares. */
  lemma {:induction false} FlaggedContribute(rows: seq<Reading>, m: real, t: real)
    requires t >= 0.0
    ensures var d := Deviations(Values(rows), m); var f := Flagged(rows, m, t);
      if f == [] then Dot(d, d) >= 0.0 else Dot(d, d) > |f| as real * Square(t)
  {
    hide Dot, Square, Deviations, Values, Abs;
    if rows == [] {
      DotNonNegative(Deviations(Values(rows), m));
    } else {
      var n := |rows| - 1;
      FlaggedContribute(rows[..n], m, t);
      SpreadStep(rows, m);
      SquareGrows(t, Abs(rows[n].value - m));
      CountStep(|Flagged(rows[..n], m, t)|, Square(t));
      var before := Flagged(rows[..n], m, t);
      assert |Flagged(rows, m, t)| == |before| + if Abs(rows[n].value - m) > t then 1 else 0;
      hide Flagged;
    }
  }

  lemma CountStep(k: nat, t: real)
    ensures (k + 1) as real * t == k as real * t + t
    ensures k == 0 ==> k as real * t == 0.0
  {
    assert (k + 1) as real == k as real + 1.0;
  }

  lemma SquareGrows(t: real, r: real)
    requires 0.0 <= t
    ensures t < r ==> Square(t) < Square(r)
    ensures t <= r ==> Square(t) <= Square(r)
  {
    if t < r {
      var p := Times(r - t, r + t);
      assert p > 0.0;
      assert Square(r) == Square(t) + p;
    }
  }

  /** Fewer than n / sigma^2 of n readings are flagged. */
  lemma FewFlagged(rows: seq<Reading>, sigma: real, stddev: real)
    requires sigma >= 0.0 && IsStdDev(Values(rows), stddev)
    ensures |Flagged(rows, Mean(Values(rows)), sigma * stddev)| as real * Square(sigma) < |rows| as real
  {
    hide Dot, Flagged, Mean, Variance, Square;
    var m, t := Mean(Values(rows)), Times(sigma, stddev);
    var d, f := Deviations(Values(rows), m), Flagged(rows, m, t);
    FlaggedContribute(rows, m, t);
    CountStep(|f|, Square(sigma));
    if f != [] {
      SquareOfProduct(sigma, stddev);
      FewFlaggedArithmetic(|f| as real, |rows| as real, Square(sigma), Square(stddev), Dot(d, d));
    }
  }

  lemma SquareOfProduct(x: real, y: real)
    ensures Square(Times(x, y)) == Square(x) * Square(y)
  {
    assert (x * y) * (x * y) == (x * x) * (y * y);
  }

  lemma FewFlaggedArithmetic(k: real, n: real, sigma2: real, s2: real, total: real)
    requires k >= 1.0 && sigma2 >= 0.0 && s2 >= 0.0 && n > 0.0
    requires total == n * s2 && total > k * (sigma2 * s2)
    ensures k * sigma2 < n
  {
    assert Times(s2, n - k * sigma2) > 0.0;
    SignOfFactor(s2, n - k * sigma2);
  }

  // ---- Samuelson's inequality ----

  lemma SumsWithout(d: seq<real>, j: nat)
    requires j < |d|
    ensures var others := d[..j] + d[j + 1..];
      Sum(others) == Sum(d) - d[j] && Dot(others, others) == Dot(d, d) - Square(d[j])
  {
    assert d == d[..j] + ([d[j]] + d[j + 1..]);
    assert Sum([d[j]]) == d[j] && Dot([d[j]], [d[j]]) == Square(d[j]);
    hide Sum, Dot, Square;
    SumAppend(d[..j], [d[j]] + d[j + 1..]);
    SumAppend([d[j]], d[j + 1..]);
    SumAppend(d[..j], d[j + 1..]);
    DotAppend(d[..j], [d[j]] + d[j + 1..]);
    DotAppend([d[j]], d[j + 1..]);
    DotAppend(d[..j], d[j + 1..]);
  }

  /** One deviation squared is at most (n-1)/n of the whole sum of squares. */
  lemma DeviationBound(d: seq<real>, j: nat)
    requires j < |d| && Sum(d) == 0.0
    ensures |d| as real * Square(d[j]) <= (|d| as real - 1.0) * Dot(d, d)
  {
    hide Square, Sum, Dot;
    var others := d[..j] + d[j + 1..];
    SumsWithout(d, j);
    SquareOfSumBound(others);
    assert |others| as real == |d| as real - 1.0;
    DeviationArithmetic(|d| as real, |others| as real, d[j], Sum(others), Dot(others, others), Dot(d, d));
  }

  lemma DeviationArithmetic(n: real, rest: real, x: real, others: real, squares: real, total: real)
    requires rest == n - 1.0 && others == -x && squares == total - Square(x)
    requires others * others <= rest * squares
    ensures n * Square(x) <= (n - 1.0) * total
  {
    assert others * others == Square(x);
    assert (n - 1.0) * total == (n - 1.0) * squares + (n - 1.0) * Square(x);
  }

  lemma {:induction false} NoneBeyond(rows: seq<Reading>, m: real, t: real)
    requires forall j :: 0 <= j < |rows| ==> Abs(rows[j].value - m) <= t
    ensures Flagged(rows, m, t) == []
  {
    if rows != [] {
      NoneBeyond(rows[..|rows| - 1], m, t);
    }
  }

  /** Samuelson: when sigma squared reaches n - 1, no series whatever has a flagged reading. */
  lemma NothingFlagged(rows: seq<Reading>, sigma: real, stddev: real)
    requires sigma >= 0.0 && IsStdDev(Values(rows), stddev)
    requires Square(sigma) >= |rows| as real - 1.0
    ensures Flagged(rows, Mean(Values(rows)), sigma * stddev) == []
  {
    hide Square, Sum, Dot, Mean, Variance, Flagged;
    var m, n := Mean(Values(rows)), |rows| as real;
    var d := Deviations(Values(rows), m);
    DeviationsCancel(Values(rows));
    SquareOfProduct(sigma, stddev);
    forall j | 0 <= j < |rows|
      ensures Abs(rows[j].value - m) <= sigma * stddev
    {
      DeviationBound(d, j);
      WithinThreshold(n, d[j], sigma, stddev, Dot(d, d));
    }
    NoneBeyond(rows, m, sigma * stddev);
  }

  lemma WithinThreshold(n: real, x: real, sigma: real, s: real, total: real)
    requires n >= 1.0 && sigma >= 0.0 && s >= 0.0 && Square(sigma) >= n - 1.0
    requires total == n * Square(s) && n * Square(x) <= (n - 1.0) * total
    ensures Abs(x) <= sigma * s
  {
    SquareOfProduct(sigma, s);
    BelowThreshold(n, Square(x), Square(sigma), Square(s));
    SquareGrows(Times(sigma, s), Abs(x));
    assert Square(Abs(x)) == Square(x);
  }

  lemma BelowThreshold(n: real, x2: real, sigma2: real, s2: real)
    requires n >= 1.0 && s2 >= 0.0 && sigma2 >= n - 1.0
    requires n * x2 <= (n - 1.0) * (n * s2)
    ensures x2 <= sigma2 * s2
  {
    SignOfFactor(n, (n - 1.0) * s2 - x2);
    assert Times(sigma2 - (n - 1.0), s2) >= 0.0;
    assert sigma2 * s2 == (n - 1.0) * s2 + Times(sigma2 - (n - 1.0), s2);
  }

  // ---- the bound is the best possible ----

  /** A series of zeros with a single one at its end. */
  function Spike(n: nat): (rows: seq<Reading>)
    ensures |rows| == n
  {
    seq(n, i requires 0 <= i < n => Reading(i, if i == n - 1 then 1.0 else 0.0, None))
  }

  lemma {:induction false} SpikeSums(values: seq<real>)
    requires values != [] && values[|values| - 1] == 1.0
    requires forall i :: 0 <= i < |values| - 1 ==> values[i] == 0.0
    ensures Sum(values) == 1.0 && Dot(values, values) == 1.0
  {
    ZeroSums(values[..|values| - 1]);
  }

  lemma {:induction false} ZeroSums(values: seq<real>)
    requires forall i :: 0 <= i < |values| ==> values[i] == 0.0
    ensures Sum(values) == 0.0 && Dot(values, values) == 0.0
  {
    if values != [] {
      ZeroSums(values[..|values| - 1]);
    }
  }

  lemma SpikeArithmetic(n: real, m: real, total: real, sigma: real, s: real)
    requires n >= 2.0 && n * m == 1.0 && total == 1.0 - m && total == n * Square(s)
    requires sigma >= 0.0 && s >= 0.0 && Square(sigma) < n - 1.0
    ensures 1.0 - m > sigma * s
  {
    var x := 1.0 - m;
    assert n * x == n - 1.0;
    SignOfFactor(n, x);
    if x <= sigma * s {
      SquareGrows(x, Times(sigma, s));
      SquareOfProduct(sigma, s);
      assert Square(x) == x * x;
      assert n * (x * x) <= n * (Square(sigma) * Square(s));
      assert n * (x * x) == (n - 1.0) * x;
      assert n * (Square(sigma) * Square(s)) == Square(sigma) * x;
      SignOfFactor(x, n - 1.0 - Square(sigma));
      assert false;
    }
  }

  /** For every n >= 2 the spike is flagged exactly when sigma squared is below n - 1. */
  lemma CutoffIsExact(n: nat, sigma: real, stddev: real)
    requires n >= 2 && sigma >= 0.0 && IsStdDev(Values(Spike(n)), stddev)
    ensures Flagged(Spike(n), Mean(Values(Spike(n))), sigma * stddev) != [] <==> Square(sigma) < n as real - 1.0
  {
    var rows := Spike(n);
    var values, m := Values(rows), Mean(Values(rows));
    SpikeSums(values);
    DeviationsCancel(values);
    CentredSquares(values, Deviations(values, m), m);
    if Square(sigma) < n as real - 1.0 {
      hide Square, Sum, Dot, Mean, Variance;
      SpikeArithmetic(n as real, m, 1.0 - m, sigma, stddev);
    } else {
      NothingFlagged(rows, sigma, stddev);
    }
  }

  /** The endpoint needs ten readings, but with its default sigma of 3.0 it reports nothing at all until the eleventh. */
  lemma DefaultSigmaOnTenReadings(window: int, rows: seq<Reading>, stddev: real)
    requires 10 <= window <= 5000 && |rows| == 10 && IsStdDev(Values(rows), stddev)
    ensures SensorAnomalies(window, 3.0, true, rows, stddev) == Ok(Report(10, true, []))
  {
    NothingFlagged(rows, 3.0, stddev);
  }

  lemma {:induction false} NoSpread(d: seq<real>)
    ensures Dot(d, d) == 0.0 <==> forall i :: 0 <= i < |d| ==> d[i] == 0.0
  {
    if d != [] {
      var k := |d| - 1;
      NoSpread(d[..k]);
      DotNonNegative(d[..k]);
      assert Times(d[k], d[k]) == Square(d[k]);
    }
  }

  /** The standard deviation is zero exactly when all values are equal. */
  lemma ZeroDeviationIff(values: seq<real>, stddev: real)
    requires IsStdDev(values, stddev)
    ensures stddev == 0.0 <==> forall i :: 0 <= i < |values| ==> values[i] == values[0]
    ensures stddev == 0.0 ==> forall i :: 0 <= i < |values| ==> values[i] == Mean(values)
  {
    var m := Mean(values);
    var d := Deviations(values, m);
    NoSpread(d);
    if forall i :: 0 <= i < |values| ==> values[i] == values[0] {
      SumOfEqual(values);
      assert |values| as real * m == |values| as real * values[0];
      SignOfFactor(|values| as real, m - values[0]);
    }
    hide Dot, Mean;
    assert stddev == 0.0 <==> Variance(values) == 0.0;
    assert Variance(values) == 0.0 <==> Dot(d, d) == 0.0;
    assert forall i :: 0 <= i < |values| ==> d[i] == values[i] - m;
  }

  lemma {:induction false} SumOfEqual(values: seq<real>)
    requires values != [] && forall i :: 0 <= i < |values| ==> values[i] == values[0]
    ensures Sum(values) == |values| as real * values[0]
  {
    if |values| > 1 {
      SumOfEqual(values[..|values| - 1]);
    }
  }

  lemma {:induction false} AllBeyond(rows: seq<Reading>, m: real, t: real)
    requires forall j :: 0 <= j < |rows| ==> Abs(rows[j].value - m) > t
    ensures |Flagged(rows, m, t)| == |rows|
  {
    if rows != [] {
      AllBeyond(rows[..|rows| - 1], m, t);
    }
  }

  /** A negative sigma is not refused: it flags every reading of a series that varies and none of a constant one. */
  lemma NegativeSigma(rows: seq<Reading>, sigma: real, stddev: real)
    requires sigma < 0.0 && IsStdDev(Values(rows), stddev)
    ensures |Flagged(rows, Mean(Values(rows)), sigma * stddev)|
         == if forall i :: 0 <= i < |rows| ==> rows[i].value == rows[0].value then 0 else |rows|
  {
    var values := Values(rows);
    ZeroDeviationIff(values, stddev);
    assert (forall i :: 0 <= i < |values| ==> values[i] == values[0])
      <==> (forall i :: 0 <= i < |rows| ==> rows[i].value == rows[0].value) by {
      assert forall i :: 0 <= i < |rows| ==> values[i] == rows[i].value;
    }
    hide Mean, Variance;
    if stddev == 0.0 {
      assert forall i :: 0 <= i < |rows| ==> values[i] == rows[i].value;
      NoneBeyond(rows, Mean(values), sigma * stddev);
    } else {
      assert Times(-sigma, stddev) > 0.0;
      AllBeyond(rows, Mean(values), sigma * stddev);
    }
  }

  // ---- the endpoint's answer ----

  /** The places of the rows further than the threshold from the mean. */
  ghost function Places(rows: seq<Reading>, mean: real, threshold: real): seq<int> {
    if rows == [] then []
    else
      var k := |rows| - 1;
      Places(rows[..k], mean, threshold) + if Abs(rows[k].value - mean) > threshold then [k] else []
  }

  ghost predicate Ascending(at: seq<int>) {
    forall i, j :: 0 <= i < j < |at| ==> at[i] < at[j]
  }

  lemma {:induction false} PlacesAscend(rows: seq<Reading>, mean: real, threshold: real)
    ensures Ascending(Places(rows, mean, threshold))
    ensures forall k :: 0 <= k < |Places(rows, mean, threshold)| ==> 0 <= Places(rows, mean, threshold)[k] < |rows|
  {
    if rows != [] {
      PlacesAscend(rows[..|rows| - 1], mean, threshold);
    }
  }

  lemma {:induction false} PlacesAreAll(rows: seq<Reading>, mean: real, threshold: real, i: int)
    ensures i in Places(rows, mean, threshold)
       <==> 0 <= i < |rows| && (rows[i].value - mean > threshold || mean - rows[i].value > threshold)
  {
    if rows != [] {
      PlacesAreAll(rows[..|rows| - 1], mean, threshold, i);
    }
  }

  lemma {:induction false} FlaggedAtPlaces(rows: seq<Reading>, mean: real, threshold: real)
    ensures var f, at := Flagged(rows, mean, threshold), Places(rows, mean, threshold);
      |f| == |at| && forall k :: 0 <= k < |f| ==> FlaggedAt(rows, mean, threshold, at[k], f[k])
  {
    if rows != [] {
      FlaggedAtPlaces(rows[..|rows| - 1], mean, threshold);
    }
  }

  /**
   * The anomalies are, in row order and each once, the entries of exactly those rows that are further
   * than the threshold from the mean, above or below it.
   */
  ghost predicate ReportsInOrder(rows: seq<Reading>, mean: real, threshold: real, f: seq<Anomaly>) {
    exists at: seq<int> :: Ascending(at) && ReportedAt(rows, mean, threshold, f, at)
  }

  ghost predicate ReportedAt(rows: seq<Reading>, mean: real, threshold: real, f: seq<Anomaly>, at: seq<int>) {
    && |f| == |at|
    && (forall k :: 0 <= k < |f| ==> IsEntry(rows, at[k], mean, f[k]))
    && (forall i :: i in at <==> 0 <= i < |rows| && (rows[i].value - mean > threshold || mean - rows[i].value > threshold))
  }

  /** The entry of row i: its id, its value and how far it is from the mean. */
  ghost predicate IsEntry(rows: seq<Reading>, i: int, mean: real, a: Anomaly) {
    && 0 <= i < |rows| && a.id == rows[i].id && a.value == rows[i].value
    && a.deviation == if rows[i].value >= mean then rows[i].value - mean else mean - rows[i].value
  }

  lemma FlaggedInOrder(rows: seq<Reading>, mean: real, threshold: real)
    ensures ReportsInOrder(rows, mean, threshold, Flagged(rows, mean, threshold))
  {
    var f, at := Flagged(rows, mean, threshold), Places(rows, mean, threshold);
    PlacesAscend(rows, mean, threshold);
    FlaggedAtPlaces(rows, mean, threshold);
    hide Places, Flagged;
    forall i
      ensures i in at <==> 0 <= i < |rows| && (rows[i].value - mean > threshold || mean - rows[i].value > threshold)
    {
      PlacesAreAll(rows, mean, threshold, i);
    }
    assert ReportedAt(rows, mean, threshold, f, at);
  }

  /** What the endpoint answers, for every sigma: the errors, nothing below ten rows, and otherwise the anomalies in row order. */
  lemma AnomalyAnswer(window: int, sigma: real, sensorKnown: bool, rows: seq<Reading>, stddev: real, m: real)
    requires rows != [] ==> IsStdDev(Values(rows), stddev) && |rows| as real * m == Sum(Values(rows))
    ensures var r := SensorAnomalies(window, sigma, sensorKnown, rows, stddev);
      && (r == HttpError(400) <==> window < 10 || window > 5000)
      && (r == HttpError(404) <==> 10 <= window <= 5000 && !sensorKnown)
      && (r.Ok? <==> 10 <= window <= 5000 && sensorKnown)
      && (r.Ok? ==> r.body.window == |rows| && (r.body.enough <==> |rows| >= 10))
      && (r.Ok? && |rows| < 10 ==> r.body.anomalies == [])
      && (r.Ok? && |rows| >= 10 ==> ReportsInOrder(rows, m, sigma * stddev, r.body.anomalies))
  {
    if |rows| >= 10 {
      assert m == Mean(Values(rows)) by {
        SignOfFactor(|rows| as real, m - Mean(Values(rows)));
        SignOfFactor(|rows| as real, Mean(Values(rows)) - m);
      }
      FlaggedInOrder(rows, m, sigma * stddev);
    }
  }
}
