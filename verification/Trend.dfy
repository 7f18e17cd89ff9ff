/** The trend endpoint: slope of the least-squares line through the last readings. */
module Trend {
  import opened Wrappers
  import opened Bounded
  import opened Reals
  import opened Sums
  import opened Readings

  datatype Direction = Unknown | Rising | Falling | Flat

  datatype Report = Report(count: nat, slope: Option<real>, direction: Direction)

  /** The x axis `list(range(n))`. */
  function Range(n: nat): (xs: seq<real>)
    ensures |xs| == n
    ensures forall i :: 0 <= i < n ==> xs[i] == i as real
  {
    seq(n, i => i as real)
  }

  function Numerator(ys: seq<real>): real
    requires ys != []
  {
    Dot(Deviations(Range(|ys|), Mean(Range(|ys|))), Deviations(ys, Mean(ys)))
  }

  function Denominator(n: nat): real
    requires n > 0
  {
    var dx := Deviations(Range(n), Mean(Range(n)));
    Dot(dx, dx)
  }

  function Slope(ys: seq<real>): real
    requires ys != []
  {
    if Denominator(|ys|) != 0.0 then Numerator(ys) / Denominator(|ys|) else 0.0
  }

  function Classify(slope: real): Direction {
    if slope > 0.01 then Rising else if slope < -0.01 then Falling else Flat
  }

  /** `sensor_trend`, on the rows its query returned, newest first. */
  function SensorTrend(window: int, sensorKnown: bool, rows: seq<Reading>): Response<Report> {
    if window < 3 || window > 5000 then HttpError(400)
    else if !sensorKnown then HttpError(404)
    else
      var ys := Values(Reversed(rows));
      if |ys| < 3 then Ok(Report(|ys|, None, Unknown))
      else Ok(Report(|ys|, Some(Slope(ys)), Classify(Slope(ys))))
  }

  /** How far each reading lies above the line a + b*x. */
  function Residuals(ys: seq<real>, a: real, b: real): (e: seq<real>)
    ensures |e| == |ys|
    ensures forall i :: 0 <= i < |ys| ==> e[i] == ys[i] - (a + b * i as real)
  {
    seq(|ys|, i requires 0 <= i < |ys| => ys[i] - (a + b * i as real))
  }

  function SquaredError(ys: seq<real>, a: real, b: real): real {
    Dot(Residuals(ys, a, b), Residuals(ys, a, b))
  }

  // ---- the denominator ----

  function TwiceSum(x: real): real {
    x * (x - 1.0)
  }

  function SixSquares(x: real): real {
    x * (x - 1.0) * (2.0 * x - 1.0)
  }

  lemma RangeMoments(n: nat)
    ensures 2.0 * Sum(Range(n)) == n as real * (n as real - 1.0)
    ensures 6.0 * Dot(Range(n), Range(n)) == n as real * (n as real - 1.0) * (2.0 * n as real - 1.0)
  {
    FoldedMoments(n);
    hide Sum, Dot;
  }

  lemma {:induction false} FoldedMoments(n: nat)
    ensures 2.0 * Sum(Range(n)) == TwiceSum(n as real)
    ensures 6.0 * Dot(Range(n), Range(n)) == SixSquares(n as real)
  {
    if n > 0 {
      hide *;
      FoldedMoments(n - 1);
      RangeLast(n);
      NextMoments((n - 1) as real, n as real);
    }
  }

  lemma RangeLast(n: nat)
    requires n > 0
    ensures Sum(Range(n)) == Sum(Range(n - 1)) + (n - 1) as real
    ensures Dot(Range(n), Range(n)) == Dot(Range(n - 1), Range(n - 1)) + Square((n - 1) as real)
    ensures n as real == (n - 1) as real + 1.0
  {
    assert Range(n)[..n - 1] == Range(n - 1);
    hide Times;
  }

  lemma NextMoments(m: real, n: real)
    requires n == m + 1.0
    ensures TwiceSum(n) == TwiceSum(m) + 2.0 * m
    ensures SixSquares(n) == SixSquares(m) + 6.0 * Square(m)
  {
    assert Square(m) == m * m;
  }

  /** den == n * (n*n - 1) / 12. */
  lemma DenominatorClosedForm(n: nat)
    requires n > 0
    ensures 12.0 * Denominator(n) == n as real * (n as real * n as real - 1.0)
    ensures n >= 2 ==> Denominator(n) > 0.0
  {
    hide Sum, Dot, Mean;
    RangeMoments(n);
    DeviationsCancel(Range(n));
    CentredSquares(Range(n), Deviations(Range(n), Mean(Range(n))), Mean(Range(n)));
    DenominatorArithmetic(n as real, Mean(Range(n)), Sum(Range(n)), Dot(Range(n), Range(n)), Denominator(n));
  }

  lemma DenominatorArithmetic(n: real, m: real, total: real, squares: real, den: real)
    requires n >= 1.0 && n * m == total
    requires 2.0 * total == n * (n - 1.0)
    requires 6.0 * squares == n * (n - 1.0) * (2.0 * n - 1.0)
    requires den == squares - Times(m, total)
    ensures 12.0 * den == n * (n * n - 1.0)
    ensures n >= 2.0 ==> den > 0.0
  {
    var gap := 2.0 * m - (n - 1.0);
    assert n * gap == 0.0;
    SignOfFactor(n, gap);
    SignOfFactor(n, -gap);
    assert 2.0 * m == n - 1.0;
    if n >= 2.0 {
      SignOfFactor(n - 1.0, n + 1.0);
      assert n * n - 1.0 == (n - 1.0) * (n + 1.0);
      SignOfFactor(n, n * n - 1.0);
    }
  }

  // ---- least squares ----

  lemma SlopeTimesDenominator(ys: seq<real>)
    requires |ys| >= 2
    ensures var dx, dy := Deviations(Range(|ys|), Mean(Range(|ys|))), Deviations(ys, Mean(ys));
      Denominator(|ys|) == Dot(dx, dx) > 0.0 && Times(Slope(ys), Dot(dx, dx)) == Dot(dx, dy)
  {
    hide Sum, Dot, Mean;
    DenominatorClosedForm(|ys|);
  }

  /** The normal equations: the fitted residuals sum to zero and are orthogonal to the x axis. */
  lemma NormalEquations(dx: seq<real>, dy: seq<real>, e: seq<real>, b: real)
    requires |e| == |dx| == |dy| && Combines(e, dy, dx, -b, 0.0)
    requires Sum(dx) == 0.0 && Sum(dy) == 0.0 && Times(b, Dot(dx, dx)) == Dot(dx, dy)
    ensures Sum(e) == 0.0 && Dot(e, dx) == 0.0
  {
    hide *;
    TimesIsLinear(b, Dot(dx, dx), 0.0);
    SumLinear(e, dy, dx, -b, 0.0);
    DotLinear(dx, e, dy, dx, -b, 0.0);
    DotCommutes(dx, e);
  }

  lemma ErrorSplit(dx: seq<real>, e: seq<real>, r: seq<real>, q: real, p: real, den: real, n: real)
    requires |r| == |dx| == |e| && Combines(r, e, dx, q, p)
    requires Sum(dx) == 0.0 && Sum(e) == 0.0 && Dot(e, dx) == 0.0 && den == Dot(dx, dx) && n == |r| as real
    ensures Dot(r, r) == Dot(e, e) + den * Square(q) + n * Square(p)
  {
    hide *;
    AgainstFit(dx, e, r, q, p);
    AgainstAxis(dx, e, r, q, p);
    SumLinear(r, e, dx, q, p);
    DotLinear(r, r, e, dx, q, p);
    SplitArithmetic(Dot(r, r), Dot(e, e), den, Dot(r, dx), Sum(r), n, q, p);
  }

  lemma AgainstFit(dx: seq<real>, e: seq<real>, r: seq<real>, q: real, p: real)
    requires |r| == |dx| == |e| && Combines(r, e, dx, q, p)
    requires Sum(e) == 0.0 && Dot(e, dx) == 0.0
    ensures Dot(r, e) == Dot(e, e)
  {
    hide *;
    DotLinear(e, r, e, dx, q, p);
    DotCommutes(e, r);
  }

  lemma AgainstAxis(dx: seq<real>, e: seq<real>, r: seq<real>, q: real, p: real)
    requires |r| == |dx| == |e| && Combines(r, e, dx, q, p)
    requires Sum(dx) == 0.0 && Dot(e, dx) == 0.0
    ensures Dot(r, dx) == Times(q, Dot(dx, dx))
  {
    hide *;
    DotLinear(dx, r, e, dx, q, p);
    DotCommutes(dx, r);
    DotCommutes(dx, e);
  }

  lemma SplitArithmetic(rr: real, ee: real, xx: real, rx: real, total: real, n: real, q: real, p: real)
    requires rr == ee + Times(q, rx) + Times(p, total) && rx == Times(q, xx) && total == Times(p, n)
    ensures rr == ee + xx * Square(q) + n * Square(p)
  {
  }

  /**
   * The squared error of any line is the fitted line's plus two squares, one for each way the
   * line can be off: its slope, and its height at the mean point.
   */
  lemma SquaredErrorOfAnyLine(ys: seq<real>, mx: real, my: real, slope: real, a: real, b: real)
    requires |ys| >= 2 && mx == Mean(Range(|ys|)) && my == Mean(ys) && slope == Slope(ys)
    ensures SquaredError(ys, a, b)
         == SquaredError(ys, my - slope * mx, slope)
          + Denominator(|ys|) * Square(slope - b) + |ys| as real * Square(my - (a + b * mx))
  {
    hide Sum, Dot, Mean, Slope, Square, Combines;
    var dx, dy := Deviations(Range(|ys|), mx), Deviations(ys, my);
    var e, r := Residuals(ys, my - slope * mx, slope), Residuals(ys, a, b);
    DeviationsCancel(Range(|ys|));
    DeviationsCancel(ys);
    SlopeTimesDenominator(ys);
    ResidualsApart(ys, mx, my, slope, a, b);
    NormalEquations(dx, dy, e, slope);
    ErrorSplit(dx, e, r, slope - b, my - (a + b * mx), Denominator(|ys|), |ys| as real);
  }

  lemma ResidualsApart(ys: seq<real>, mx: real, my: real, slope: real, a: real, b: real)
    ensures var dx, dy := Deviations(Range(|ys|), mx), Deviations(ys, my);
      var e, r := Residuals(ys, my - slope * mx, slope), Residuals(ys, a, b);
      && Combines(e, dy, dx, -slope, 0.0)
      && Combines(r, e, dx, slope - b, my - (a + b * mx))
  {
    var dx, dy := Deviations(Range(|ys|), mx), Deviations(ys, my);
    var e, r := Residuals(ys, my - slope * mx, slope), Residuals(ys, a, b);
    forall i | 0 <= i < |ys|
      ensures e[i] == dy[i] + Times(-slope, dx[i]) + 0.0
      ensures r[i] == e[i] + Times(slope - b, dx[i]) + (my - (a + b * mx))
    {
      OffsetFromFit(ys[i], i as real, my, mx, slope, a, b);
    }
  }

  lemma OffsetFromFit(y: real, x: real, my: real, mx: real, slope: real, a: real, b: real)
    ensures y - ((my - slope * mx) + slope * x) == (y - my) + (-slope) * (x - mx) + 0.0
    ensures y - (a + b * x) == (y - ((my - slope * mx) + slope * x)) + (slope - b) * (x - mx) + (my - (a + b * mx))
  {
  }

  lemma ScaledSquare(c: real, x: real)
    requires c > 0.0
    ensures c * Square(x) >= 0.0
    ensures c * Square(x) > 0.0 <==> x != 0.0
  {
    hide Square;
    SignOfFactor(c, Square(x));
  }

  /** No line fits better than the reported slope through the mean point, and no other line fits as well. */
  lemma LeastSquares(ys: seq<real>, mx: real, my: real, slope: real, a: real, b: real)
    requires |ys| >= 2 && mx == Mean(Range(|ys|)) && my == Mean(ys) && slope == Slope(ys)
    ensures var best := SquaredError(ys, my - slope * mx, slope);
      && best <= SquaredError(ys, a, b)
      && (SquaredError(ys, a, b) == best <==> b == slope && a + b * mx == my)
  {
    hide *;
    SquaredErrorOfAnyLine(ys, mx, my, slope, a, b);
    DenominatorClosedForm(|ys|);
    ScaledSquare(Denominator(|ys|), slope - b);
    ScaledSquare(|ys| as real, my - (a + b * mx));
  }

  // ---- steps of the series ----

  /** The x axis is centred: deviations are non-positive before the middle index and non-negative from it on. */
  lemma CentredRange(n: nat, i: nat)
    requires i < n
    ensures var d := Deviations(Range(n), Mean(Range(n)))[i]; if i < n / 2 then d <= 0.0 else d >= 0.0
  {
    RangeMoments(n);
    hide Sum, Dot;
    var m, twice := Mean(Range(n)), 2.0 * Mean(Range(n)) - (n as real - 1.0);
    assert n as real * twice == 0.0;
    SignOfFactor(n as real, twice);
    SignOfFactor(n as real, -twice);
    assert 2.0 * m == n as real - 1.0;
    hide Mean;
    if i < n / 2 {
      assert 2 * i + 2 <= n;
    } else {
      assert 2 * i + 1 >= n;
    }
  }

  lemma {:induction false} StepsAddUp(ys: seq<real>, step: real, up: bool, i: nat, j: nat)
    requires i <= j < |ys|
    requires forall k :: 0 < k < |ys| ==> if up then ys[k] - ys[k - 1] >= step else ys[k] - ys[k - 1] <= step
    ensures if up then ys[j] - ys[i] >= step * (j - i) as real else ys[j] - ys[i] <= step * (j - i) as real
  {
    if i < j {
      StepsAddUp(ys, step, up, i, j - 1);
      assert step * (j - i) as real == step * (j - 1 - i) as real + step;
    }
  }

  /** The series with the step taken out and pinned to zero in the middle, point by point. */
  lemma PinnedSigns(ys: seq<real>, mx: real, my: real, step: real, up: bool, i: nat)
    requires |ys| >= 2 && i < |ys| && mx == Mean(Range(|ys|))
    requires forall k :: 0 < k < |ys| ==> if up then ys[k] - ys[k - 1] >= step else ys[k] - ys[k - 1] <= step
    ensures var k := |ys| / 2;
      var z := (ys[i] - my) + (-step) * (i as real - mx) + (-((ys[k] - my) - step * (k as real - mx)));
      if i < k then i as real - mx <= 0.0 && (if up then z <= 0.0 else z >= 0.0)
      else i as real - mx >= 0.0 && (if up then z >= 0.0 else z <= 0.0)
  {
    hide Sum, Mean;
    var k := |ys| / 2;
    CentredRange(|ys|, i);
    PinnedTerm(ys[i], ys[k], i as real, k as real, mx, my, step);
    if i < k {
      StepsAddUp(ys, step, up, i, k);
      assert (k - i) as real == k as real - i as real;
    } else {
      StepsAddUp(ys, step, up, k, i);
      assert (i - k) as real == i as real - k as real;
    }
  }

  lemma SlopeAgainstSteps(ys: seq<real>, step: real, up: bool)
    requires |ys| >= 2
    requires forall k :: 0 < k < |ys| ==> if up then ys[k] - ys[k - 1] >= step else ys[k] - ys[k - 1] <= step
    ensures if up then Slope(ys) >= step else Slope(ys) <= step
  {
    hide Sum, Dot, Mean, Slope, Denominator, Combines, Aligned;
    var n, mx, my, k := |ys|, Mean(Range(|ys|)), Mean(ys), |ys| / 2;
    var dx, dy := Deviations(Range(n), mx), Deviations(ys, my);
    var lift := -((ys[k] - my) - step * (k as real - mx));
    var z := seq(n, i requires 0 <= i < n => (ys[i] - my) + (-step) * (i as real - mx) + lift);
    PinnedSeries(ys, mx, my, step, up, lift, dx, dy, z);
    DotOfAligned(dx, z, up);
    DeviationsCancel(Range(n));
    DotLinear(dx, z, dy, dx, -step, lift);
    SlopeTimesDenominator(ys);
    StepArithmetic(Dot(dx, z), Dot(dx, dy), Dot(dx, dx), Sum(dx), Slope(ys), step, lift);
  }

  lemma PinnedSeries(ys: seq<real>, mx: real, my: real, step: real, up: bool, lift: real,
                     dx: seq<real>, dy: seq<real>, z: seq<real>)
    requires |ys| >= 2 && mx == Mean(Range(|ys|)) && |z| == |ys|
    requires dx == Deviations(Range(|ys|), mx) && dy == Deviations(ys, my)
    requires var k := |ys| / 2; lift == -((ys[k] - my) - step * (k as real - mx))
    requires forall i :: 0 <= i < |ys| ==> z[i] == (ys[i] - my) + (-step) * (i as real - mx) + lift
    requires forall k :: 0 < k < |ys| ==> if up then ys[k] - ys[k - 1] >= step else ys[k] - ys[k - 1] <= step
    ensures Aligned(dx, z, up) && Combines(z, dy, dx, -step, lift)
  {
    hide Sum, Mean;
    assert Combines(z, dy, dx, -step, lift);
    hide Combines;
    forall i | 0 <= i < |ys|
      ensures if up then (dx[i] >= 0.0 && z[i] >= 0.0) || (dx[i] <= 0.0 && z[i] <= 0.0)
              else (dx[i] >= 0.0 && z[i] <= 0.0) || (dx[i] <= 0.0 && z[i] >= 0.0)
    {
      PinnedSigns(ys, mx, my, step, up, i);
    }
  }

  lemma PinnedTerm(y: real, yk: real, x: real, xk: real, mx: real, my: real, step: real)
    ensures (y - my) + (-step) * (x - mx) + (-((yk - my) - step * (xk - mx))) == (y - yk) - step * (x - xk)
    ensures (y - yk) - step * (x - xk) == -((yk - y) - step * (xk - x))
  {
  }

  lemma StepArithmetic(dot: real, num: real, den: real, zero: real, slope: real, step: real, lift: real)
    requires dot == num + Times(-step, den) + Times(lift, zero) && zero == 0.0
    requires den > 0.0 && Times(slope, den) == num
    ensures dot >= 0.0 <==> slope >= step
    ensures dot <= 0.0 <==> slope <= step
  {
    assert dot == den * (slope - step);
    SignOfFactor(den, slope - step);
  }

  /** The slope lies between the smallest and the largest step from one reading to the next. */
  lemma SlopeWithinSteps(ys: seq<real>, low: real, high: real)
    requires |ys| >= 2
    requires forall k :: 0 < k < |ys| ==> low <= ys[k] - ys[k - 1] <= high
    ensures low <= Slope(ys) <= high
  {
    SlopeAgainstSteps(ys, low, true);
    SlopeAgainstSteps(ys, high, false);
  }

  /** An exactly affine series reports its own slope. */
  lemma AffineSlope(ys: seq<real>, a: real, b: real)
    requires |ys| >= 2
    requires forall i :: 0 <= i < |ys| ==> ys[i] == a + b * i as real
    ensures Slope(ys) == b
  {
    forall k | 0 < k < |ys|
      ensures ys[k] - ys[k - 1] == b
    {
      assert k as real == (k - 1) as real + 1.0;
    }
    SlopeWithinSteps(ys, b, b);
  }

  /**
   * Whatever rows the query returned: readings that never decrease are not reported as falling,
   * readings that never increase are not reported as rising, and a series whose every step is
   * beyond 0.01 in one direction is reported as moving in that direction.
   */
  lemma DirectionIsHonest(window: int, rows: seq<Reading>, ys: seq<real>)
    requires 3 <= window <= 5000 && ys == Values(Reversed(rows))
    ensures var report := SensorTrend(window, true, rows);
      && report.Ok?
      && report.body.count == |rows|
      && (report.body.direction == Unknown <==> |rows| < 3)
      && ((forall k :: 0 < k < |ys| ==> ys[k] >= ys[k - 1]) ==> report.body.direction != Falling)
      && ((forall k :: 0 < k < |ys| ==> ys[k] <= ys[k - 1]) ==> report.body.direction != Rising)
      && (|ys| >= 3 && (forall k :: 0 < k < |ys| ==> ys[k] - ys[k - 1] > 0.01) ==> report.body.direction == Rising)
      && (|ys| >= 3 && (forall k :: 0 < k < |ys| ==> ys[k] - ys[k - 1] < -0.01) ==> report.body.direction == Falling)
  {
    hide Slope;
    if |ys| >= 3 {
      if forall k :: 0 < k < |ys| ==> ys[k] >= ys[k - 1] {
        SlopeAgainstSteps(ys, 0.0, true);
      }
      if forall k :: 0 < k < |ys| ==> ys[k] <= ys[k - 1] {
        SlopeAgainstSteps(ys, 0.0, false);
      }
      if forall k :: 0 < k < |ys| ==> ys[k] - ys[k - 1] > 0.01 {
        var low := SmallestStep(ys);
        SlopeAgainstSteps(ys, low, true);
      }
      if forall k :: 0 < k < |ys| ==> ys[k] - ys[k - 1] < -0.01 {
        var high := LargestStep(ys);
        SlopeAgainstSteps(ys, high, false);
      }
    }
  }

  lemma SmallestStep(ys: seq<real>) returns (low: real)
    requires |ys| >= 2
    ensures exists k :: 0 < k < |ys| && ys[k] - ys[k - 1] == low
    ensures forall k :: 0 < k < |ys| ==> ys[k] - ys[k - 1] >= low
  {
    low := ys[1] - ys[0];
    for n := 2 to |ys|
      invariant exists k :: 0 < k < n && ys[k] - ys[k - 1] == low
      invariant forall k :: 0 < k < n ==> ys[k] - ys[k - 1] >= low
    {
      if ys[n] - ys[n - 1] < low {
        low := ys[n] - ys[n - 1];
      }
    }
  }

  lemma LargestStep(ys: seq<real>) returns (high: real)
    requires |ys| >= 2
    ensures exists k :: 0 < k < |ys| && ys[k] - ys[k - 1] == high
    ensures forall k :: 0 < k < |ys| ==> ys[k] - ys[k - 1] <= high
  {
    var negated := seq(|ys|, i requires 0 <= i < |ys| => -ys[i]);
    var low := SmallestStep(negated);
    high := -low;
    var k :| 0 < k < |ys| && negated[k] - negated[k - 1] == low;
    assert ys[k] - ys[k - 1] == high;
    forall j | 0 < j < |ys| ensures ys[j] - ys[j - 1] <= high {
      assert negated[j] - negated[j - 1] >= low;
    }
  }

  /** This line has the least squared error of all lines, and no other line has as little. */
  ghost predicate IsBestLine(ys: seq<real>, height: real, slope: real) {
    forall a, b ::
      && SquaredError(ys, height, slope) <= SquaredError(ys, a, b)
      && (SquaredError(ys, a, b) == SquaredError(ys, height, slope) ==> a == height && b == slope)
  }

  /** The line of this slope through the mean point is the best line. */
  ghost predicate IsLeastSquaresSlope(ys: seq<real>, slope: real)
    requires ys != []
  {
    IsBestLine(ys, Mean(ys) - slope * Mean(Range(|ys|)), slope)
  }

  lemma SlopeIsLeastSquares(ys: seq<real>)
    requires |ys| >= 2
    ensures IsLeastSquaresSlope(ys, Slope(ys))
  {
    hide Slope, SquaredError, Mean;
    var height := Mean(ys) - Slope(ys) * Mean(Range(|ys|));
    forall a, b
      ensures SquaredError(ys, height, Slope(ys)) <= SquaredError(ys, a, b)
      ensures SquaredError(ys, a, b) == SquaredError(ys, height, Slope(ys)) ==> a == height && b == Slope(ys)
    {
      OneBestLine(ys, height, a, b);
    }
    assert IsBestLine(ys, height, Slope(ys));
  }

  lemma OneBestLine(ys: seq<real>, height: real, a: real, b: real)
    requires |ys| >= 2 && height == Mean(ys) - Slope(ys) * Mean(Range(|ys|))
    ensures SquaredError(ys, height, Slope(ys)) <= SquaredError(ys, a, b)
    ensures SquaredError(ys, a, b) == SquaredError(ys, height, Slope(ys)) ==> a == height && b == Slope(ys)
  {
    hide SquaredError, Slope, Mean;
    var mx, my, slope := Mean(Range(|ys|)), Mean(ys), Slope(ys);
    assert height == my - slope * mx;
    LeastSquares(ys, mx, my, slope, a, b);
    if b == slope && a + b * mx == my {
      assert a == my - slope * mx;
    }
  }

  /**
   * What the endpoint answers, `ys` being the values oldest first: the errors; no slope below three
   * rows; otherwise the slope of the one line with the least squared error, and its direction.
   */
  lemma TrendAnswer(window: int, sensorKnown: bool, rows: seq<Reading>, ys: seq<real>)
    requires |ys| == |rows| && forall i :: 0 <= i < |ys| ==> ys[i] == rows[|rows| - 1 - i].value
    ensures var r := SensorTrend(window, sensorKnown, rows);
      && (r == HttpError(400) <==> window < 3 || window > 5000)
      && (r == HttpError(404) <==> 3 <= window <= 5000 && !sensorKnown)
      && (r.Ok? <==> 3 <= window <= 5000 && sensorKnown)
      && (r.Ok? && |rows| < 3 ==> r.body == Report(|rows|, None, Unknown))
      && (r.Ok? && |rows| >= 3 ==>
            && r.body.count == |rows| && r.body.slope.Some?
            && IsLeastSquaresSlope(ys, r.body.slope.value)
            && (r.body.direction == Rising <==> r.body.slope.value > 0.01)
            && (r.body.direction == Falling <==> r.body.slope.value < -0.01)
            && (r.body.direction == Flat <==> -0.01 <= r.body.slope.value <= 0.01))
  {
    assert ys == Values(Reversed(rows));
    hide Slope, IsLeastSquaresSlope;
    if |ys| >= 3 {
      SlopeIsLeastSquares(ys);
    }
  }
}
