// Online mean and variance (Welford), over the reals.
module Welford {

  function Sum(xs: seq<real>): real {
    if xs == [] then 0.0 else Sum(xs[..|xs| - 1]) + xs[|xs| - 1]
  }

  function Square(x: real): (y: real)
    ensures y >= 0.0 && (y == 0.0 <==> x == 0.0)
  {
    var y := x * x;
    SquareSign(x, y);
    y
  }

  lemma SquareSign(x: real, y: real)
    requires y == x * x
    ensures y >= 0.0 && (y == 0.0 <==> x == 0.0)
  {
    if x > 0.0 {
      PositiveProduct(x, x, y);
    } else if x < 0.0 {
      NegativeProduct(x, x, y);
    }
  }

  lemma PositiveProduct(a: real, b: real, y: real)
    requires a > 0.0 && b > 0.0 && y == a * b
    ensures y > 0.0
  {}

  lemma NegativeProduct(a: real, b: real, y: real)
    requires a < 0.0 && b < 0.0 && y == a * b
    ensures y > 0.0
  {}

  /** The sum of squared deviations from `c`. */
  function Deviation(xs: seq<real>, c: real): (d: real)
    ensures d >= 0.0
  {
    if xs == [] then 0.0 else Deviation(xs[..|xs| - 1], c) + Square(xs[|xs| - 1] - c)
  }

  function Mean(xs: seq<real>): real {
    if xs == [] then 0.0 else Sum(xs) / |xs| as real
  }

  class RunningStats {
    var n: nat
    var mean: real
    var m2: real
    ghost var seen: seq<real>

    /** The state is the batch formula over everything pushed. */
    ghost predicate Valid()
      reads this
    {
      n == |seen| && mean == Mean(seen) && m2 == Deviation(seen, mean)
    }

    constructor ()
      ensures Valid() && seen == []
    {
      n, mean, m2, seen := 0, 0.0, 0.0, [];
    }

    method Push(x: real)
      requires Valid()
      modifies this
      ensures Valid() && seen == old(seen) + [x]
    {
      ghost var xs, c := seen, mean;
      n := n + 1;
      var delta := x - mean;
      mean := mean + delta / n as real;
      var delta2 := x - mean;
      m2 := m2 + delta * delta2;
      seen := seen + [x];
      PushStep(xs, c, x, mean);
    }

    /** The unbiased sample variance; zero for fewer than two observations. */
    function Variance(): (v: real)
      requires Valid()
      reads this
      ensures v == BatchVariance(seen)
    {
      if n < 2 then 0.0 else m2 / (n as real - 1.0)
    }
  }

  function BatchVariance(xs: seq<real>): (v: real)
    ensures v >= 0.0
  {
    if |xs| < 2 then 0.0
    else
      QuotientSign(Deviation(xs, Mean(xs)), |xs| as real - 1.0);
      Deviation(xs, Mean(xs)) / (|xs| as real - 1.0)
  }

  lemma QuotientSign(a: real, b: real)
    requires a >= 0.0 && b > 0.0
    ensures a / b >= 0.0 && (a / b == 0.0 <==> a == 0.0)
  {
    assert (a / b) * b == a;
  }

  /** What the deviation of `n` values with a given sum gains when the centre moves from `c` to `d`. */
  function Shift(sum: real, n: real, c: real, d: real): real {
    2.0 * (c - d) * (sum - n * c) + n * Square(c - d)
  }

  /** The parallel-axis identity. */
  lemma {:induction false} Recentre(xs: seq<real>, c: real, d: real)
    ensures Deviation(xs, d) == Deviation(xs, c) + Shift(Sum(xs), |xs| as real, c, d)
  {
    hide Shift, Square;
    if xs != [] {
      var init, x := xs[..|xs| - 1], xs[|xs| - 1];
      Recentre(init, c, d);
      ShiftStep(Sum(init), |init| as real, c, d, x);
      assert |xs| as real == |init| as real + 1.0;
    } else {
      NoShift(c, d);
    }
  }

  lemma NoShift(c: real, d: real)
    ensures Shift(0.0, 0.0, c, d) == 0.0
  {}

  lemma ShiftStep(sum: real, n: real, c: real, d: real, x: real)
    ensures Shift(sum, n, c, d) + Square(x - d) == Square(x - c) + Shift(sum + x, n + 1.0, c, d)
  {
    var e, u, r := c - d, x - c, sum - n * c;
    assert x - d == u + e;
    assert (u + e) * (u + e) == u * u + 2.0 * e * u + e * e;
    assert sum + x - (n + 1.0) * c == r + u;
    assert 2.0 * e * (r + u) == 2.0 * e * r + 2.0 * e * u;
    assert (n + 1.0) * (e * e) == n * (e * e) + e * e;
  }

  lemma SumIsMean(xs: seq<real>)
    ensures |xs| as real * Mean(xs) == Sum(xs)
  {
    if xs != [] { QuotientTimes(Sum(xs), |xs| as real); }
  }

  lemma QuotientTimes(a: real, b: real)
    requires b != 0.0
    ensures b * (a / b) == a
  {}

  lemma PushStep(xs: seq<real>, c: real, x: real, c': real)
    requires c == Mean(xs) && c' == c + (x - c) / (|xs| + 1) as real
    ensures c' == Mean(xs + [x])
    ensures Deviation(xs + [x], c') == Deviation(xs, c) + (x - c) * (x - c')
  {
    hide Shift, Square, Mean;
    var all := xs + [x];
    var n := |xs| as real;
    assert all[..|xs|] == xs && all[|xs|] == x;
    SumIsMean(xs);
    SumIsMean(all);
    NewMean(Sum(xs), n, c, x, c', Mean(all));
    Recentre(xs, c, c');
    NewDeviation(Sum(xs), n, c, x, c');
  }

  lemma NewMean(sum: real, n: real, c: real, x: real, c': real, mean: real)
    requires n >= 0.0 && n * c == sum && c' == c + (x - c) / (n + 1.0)
    requires (n + 1.0) * mean == sum + x
    ensures c' == mean
  {
    QuotientTimes(x - c, n + 1.0);
    var q := (x - c) / (n + 1.0);
    assert (n + 1.0) * (c + q) == n * c + c + (n + 1.0) * q;
    Cancel(n + 1.0, c', mean);
  }

  lemma Cancel(k: real, a: real, b: real)
    requires k > 0.0 && k * a == k * b
    ensures a == b
  {
    assert k * (a - b) == 0.0;
  }

  lemma NewDeviation(sum: real, n: real, c: real, x: real, c': real)
    requires n >= 0.0 && n * c == sum && c' == c + (x - c) / (n + 1.0)
    ensures Shift(sum, n, c, c') + Square(x - c') == (x - c) * (x - c')
  {
    var e := c' - c;
    QuotientTimes(x - c, n + 1.0);
    assert (n + 1.0) * e == x - c;
    assert x - c' == n * e;
    assert 2.0 * (c - c') * (sum - n * c) == 0.0;
    assert (c - c') * (c - c') == e * e;
    DeviationAlgebra(n, e);
  }

  lemma DeviationAlgebra(n: real, e: real)
    ensures n * (e * e) + (n * e) * (n * e) == ((n + 1.0) * e) * (n * e)
  {
    assert (n + 1.0) * e == n * e + e;
    assert (n * e + e) * (n * e) == (n * e) * (n * e) + e * (n * e);
    assert e * (n * e) == n * (e * e);
  }

  /** The mean is the centre with the least deviation. */
  lemma MeanIsBest(xs: seq<real>, c: real)
    ensures Deviation(xs, Mean(xs)) <= Deviation(xs, c)
  {
    hide Mean, Deviation, Sum, Shift;
    Recentre(xs, Mean(xs), c);
    SumIsMean(xs);
    ShiftFromMean(Sum(xs), |xs| as real, Mean(xs), c);
  }

  lemma ShiftFromMean(sum: real, n: real, c: real, d: real)
    requires n >= 0.0 && n * c == sum
    ensures Shift(sum, n, c, d) >= 0.0
  {
    hide Square;
    assert 2.0 * (c - d) * (sum - n * c) == 0.0;
    ProductSign(n, Square(c - d));
  }

  lemma ProductSign(a: real, b: real)
    requires a >= 0.0 && b >= 0.0
    ensures a * b >= 0.0
  {}

  /** The variance of two or more observations is zero exactly when they are all equal. */
  lemma ZeroVariance(xs: seq<real>)
    requires |xs| >= 2
    ensures BatchVariance(xs) == 0.0 <==> forall i :: 0 <= i < |xs| ==> xs[i] == xs[0]
  {
    hide Mean, Deviation;
    var c := Mean(xs);
    ZeroDeviation(xs, c);
    QuotientSign(Deviation(xs, c), |xs| as real - 1.0);
    if forall i :: 0 <= i < |xs| ==> xs[i] == xs[0] {
      ZeroDeviation(xs, xs[0]);
      MeanIsBest(xs, xs[0]);
    }
  }

  lemma {:induction false} ZeroDeviation(xs: seq<real>, c: real)
    ensures Deviation(xs, c) == 0.0 <==> forall i :: 0 <= i < |xs| ==> xs[i] == c
  {
    if xs != [] { ZeroDeviation(xs[..|xs| - 1], c); }
  }

  /** The order of the observations does not matter. */
  lemma {:induction false} OrderFree(xs: seq<real>, ys: seq<real>, c: real)
    requires multiset(xs) == multiset(ys)
    ensures Sum(xs) == Sum(ys) && Deviation(xs, c) == Deviation(ys, c)
    decreases |xs|
  {
    hide Square;
    SameLength(xs, ys);
    if xs != [] {
      var init, x := xs[..|xs| - 1], xs[|xs| - 1];
      var i := Locate(xs, ys, x);
      var a, b := ys[..i], ys[i + 1..];
      assert ys == a + [x] + b;
      assert xs == init + [x];
      SameRest(init, a, b, x);
      OrderFree(init, a + b, c);
      MoveLast(a, x, b, c);
    }
  }

  lemma SameLength(xs: seq<real>, ys: seq<real>)
    requires multiset(xs) == multiset(ys)
    ensures |xs| == |ys|
  {
    assert |multiset(xs)| == |xs| && |multiset(ys)| == |ys|;
  }

  lemma Locate(xs: seq<real>, ys: seq<real>, x: real) returns (i: nat)
    requires multiset(xs) == multiset(ys) && x in xs
    ensures i < |ys| && ys[i] == x
  {
    assert x in multiset(xs);
    i :| i < |ys| && ys[i] == x;
  }

  lemma SameRest(init: seq<real>, a: seq<real>, b: seq<real>, x: real)
    requires multiset(init + [x]) == multiset(a + [x] + b)
    ensures multiset(init) == multiset(a + b)
  {
    assert multiset(init + [x]) == multiset(init) + multiset{x};
    assert multiset(a + [x] + b) == multiset(a) + multiset{x} + multiset(b) == multiset(a + b) + multiset{x};
    assert multiset(init) == multiset(init + [x]) - multiset{x};
    assert multiset(a + b) == multiset(a + [x] + b) - multiset{x};
  }

  lemma {:induction false} MoveLast(a: seq<real>, x: real, b: seq<real>, c: real)
    ensures Sum(a + [x] + b) == Sum(a + b) + x
    ensures Deviation(a + [x] + b, c) == Deviation(a + b, c) + Square(x - c)
    decreases |b|
  {
    if b == [] {
      assert a + [x] + b == a + [x] && a + b == a;
      assert (a + [x])[..|a|] == a;
    } else {
      var init := b[..|b| - 1];
      MoveLast(a, x, init, c);
      assert (a + [x] + b)[..|a| + |b|] == a + [x] + init;
      assert (a + b)[..|a| + |b| - 1] == a + init;
    }
  }

  /** Two accumulators that saw the same observations, in any order, agree. */
  lemma StatsOrderFree(xs: seq<real>, ys: seq<real>)
    requires multiset(xs) == multiset(ys)
    ensures Mean(xs) == Mean(ys) && BatchVariance(xs) == BatchVariance(ys)
  {
    assert |multiset(xs)| == |xs| && |multiset(ys)| == |ys|;
    OrderFree(xs, ys, Mean(xs));
    assert xs == [] <==> ys == [];
  }
}
