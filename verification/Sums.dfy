/** Finite sums of reals, in the order Python's `sum` and the C++ accumulation loops take them. */
module Sums {
  import opened Reals

  function Sum(s: seq<real>): real {
    if s == [] then 0.0 else Sum(s[..|s| - 1]) + s[|s| - 1]
  }

  function Mean(s: seq<real>): (m: real)
    requires s != []
    ensures |s| as real * m == Sum(s)
  {
    Sum(s) / |s| as real
  }

  /** Every element minus m. */
  function Deviations(s: seq<real>, m: real): (d: seq<real>)
    ensures |d| == |s|
    ensures forall i :: 0 <= i < |s| ==> d[i] == s[i] - m
  {
    seq(|s|, i requires 0 <= i < |s| => s[i] - m)
  }

  /** Sum of u[i] * v[i]. */
  function Dot(u: seq<real>, v: seq<real>): real
    requires |u| == |v|
  {
    if |u| == 0 then 0.0 else Dot(u[..|u| - 1], v[..|u| - 1]) + Times(u[|u| - 1], v[|u| - 1])
  }

  /** u and v never have opposite signs at an index, or never the same sign, as `same` says. */
  ghost predicate Aligned(u: seq<real>, v: seq<real>, same: bool) {
    |u| == |v| && forall i :: 0 <= i < |u| ==>
      if same then (u[i] >= 0.0 && v[i] >= 0.0) || (u[i] <= 0.0 && v[i] <= 0.0)
      else (u[i] >= 0.0 && v[i] <= 0.0) || (u[i] <= 0.0 && v[i] >= 0.0)
  }

  lemma {:induction false} DotOfAligned(u: seq<real>, v: seq<real>, same: bool)
    requires Aligned(u, v, same)
    ensures if same then Dot(u, v) >= 0.0 else Dot(u, v) <= 0.0
  {
    if u != [] {
      var k := |u| - 1;
      DotOfAligned(u[..k], v[..k], same);
      var t := Times(u[k], if same then v[k] else -v[k]);
      assert same ==> Times(u[k], v[k]) == t;
      assert !same ==> Times(u[k], v[k]) == -t;
    }
  }

  lemma {:induction false} DotNonNegative(s: seq<real>)
    ensures Dot(s, s) >= 0.0
  {
    if s != [] {
      DotNonNegative(s[..|s| - 1]);
      assert Square(s[|s| - 1]) >= 0.0;
    }
  }

  /** w is pointwise v + q*x + p. */
  ghost predicate Combines(w: seq<real>, v: seq<real>, x: seq<real>, q: real, p: real) {
    |w| == |v| == |x| && forall i :: 0 <= i < |w| ==> w[i] == v[i] + Times(q, x[i]) + p
  }

  /** The dot product is linear in its second argument, up to a constant shift. */
  lemma {:induction false} DotLinear(u: seq<real>, w: seq<real>, v: seq<real>, x: seq<real>, q: real, p: real)
    requires |u| == |w| && Combines(w, v, x, q, p)
    ensures Dot(u, w) == Dot(u, v) + Times(q, Dot(u, x)) + Times(p, Sum(u))
  {
    hide Times;
    if u != [] {
      var k := |u| - 1;
      DotLinear(u[..k], w[..k], v[..k], x[..k], q, p);
      TimesCombination(u[k], w[k], v[k], x[k], q, p);
      TimesIsLinear(q, Dot(u[..k], x[..k]), Times(u[k], x[k]));
      TimesIsLinear(p, Sum(u[..k]), u[k]);
    }
  }

  lemma TimesCombination(u: real, w: real, v: real, x: real, q: real, p: real)
    requires w == v + Times(q, x) + p
    ensures Times(u, w) == Times(u, v) + Times(q, Times(u, x)) + Times(p, u)
  {
    assert u * w == u * v + q * (u * x) + p * u;
  }

  lemma {:induction false} SumLinear(w: seq<real>, v: seq<real>, x: seq<real>, q: real, p: real)
    requires Combines(w, v, x, q, p)
    ensures Sum(w) == Sum(v) + Times(q, Sum(x)) + Times(p, |w| as real)
  {
    hide Times;
    if w != [] {
      var k := |w| - 1;
      SumLinear(w[..k], v[..k], x[..k], q, p);
      TimesIsLinear(q, Sum(x[..k]), x[k]);
      TimesIsLinear(p, k as real, 1.0);
      TimesOne(p);
    }
  }

  lemma TimesOne(p: real)
    ensures Times(p, 1.0) == p
  {
  }

  lemma {:induction false} DotCommutes(u: seq<real>, v: seq<real>)
    requires |u| == |v|
    ensures Dot(u, v) == Dot(v, u)
  {
    hide Times;
    if u != [] {
      DotCommutes(u[..|u| - 1], v[..|u| - 1]);
      TimesIsLinear(u[|u| - 1], v[|u| - 1], 0.0);
    }
  }

  lemma DeviationsCancel(s: seq<real>)
    requires s != []
    ensures Sum(Deviations(s, Mean(s))) == 0.0
  {
    hide Sum;
    SumLinear(Deviations(s, Mean(s)), s, s, 0.0, -Mean(s));
  }

  lemma {:induction false} SumAppend(s: seq<real>, t: seq<real>)
    ensures Sum(s + t) == Sum(s) + Sum(t)
  {
    if t == [] {
      assert s + t == s;
    } else {
      SumAppend(s, t[..|t| - 1]);
      assert (s + t)[..|s + t| - 1] == s + t[..|t| - 1];
    }
  }

  lemma {:induction false} DotAppend(s: seq<real>, t: seq<real>)
    ensures Dot(s + t, s + t) == Dot(s, s) + Dot(t, t)
  {
    if t == [] {
      assert s + t == s;
    } else {
      DotAppend(s, t[..|t| - 1]);
      assert (s + t)[..|s + t| - 1] == s + t[..|t| - 1];
    }
  }

  lemma CentredSquares(xs: seq<real>, dx: seq<real>, m: real)
    requires |dx| == |xs| && Combines(dx, xs, xs, 0.0, -m) && Sum(dx) == 0.0
    ensures Dot(dx, dx) == Dot(xs, xs) - Times(m, Sum(xs))
  {
    hide *;
    TimesIsLinear(m, Sum(xs), 0.0);
    DotLinear(dx, dx, xs, xs, 0.0, -m);
    assert Dot(dx, dx) == Dot(dx, xs);
    DotCommutes(dx, xs);
    DotLinear(xs, dx, xs, xs, 0.0, -m);
  }

  /** Cauchy-Schwarz against the constant sequence. */
  lemma {:induction false} SquareOfSumBound(s: seq<real>)
    ensures Sum(s) * Sum(s) <= |s| as real * Dot(s, s)
  {
    if s != [] {
      var k := |s| - 1;
      SquareOfSumBound(s[..k]);
      if k > 0 {
        SquareOfSumStep(k as real, Sum(s[..k]), Dot(s[..k], s[..k]), s[k]);
      }
    }
  }

  lemma SquareOfSumStep(n: real, total: real, squares: real, x: real)
    requires n > 0.0 && total * total <= n * squares
    ensures (total + x) * (total + x) <= (n + 1.0) * (squares + x * x)
  {
    // 2*total*x <= n*x*x + squares, from (n*x - total)^2 >= 0 divided by n
    var gap := n * x * x + squares - 2.0 * total * x;
    assert n * gap == Square(n * x - total) + (n * squares - total * total);
    SignOfFactor(n, gap);
  }
}
