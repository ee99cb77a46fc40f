/** The arithmetic helpers of `org.my.libraries.MoreMath`: the "positive"
    modulo used for the hour-of-day update window, and the sum, mean and
    population standard deviation used to recompute a site's latency
    baseline. Doubles are modelled as reals, so rounding is not modelled;
    `Math.sqrt` is a parameter because it has no exact real counterpart here. */
module MoreMath {
  import opened JavaSemantics

  // ---------------------------------------------------------------------
  // modulo

  /** Euclidean uniqueness: the remainder is determined by any quotient. */
  lemma ModUnique(x: int, b: int, q: int, r: int)
    requires b > 0 && 0 <= r < b && x == q * b + r
    ensures x % b == r
  {
    var q' := x / b;
    var r' := x % b;
    assert x == q' * b + r';
    assert (q' - q) * b == r - r';
    SmallMultipleIsZero(q' - q, b, r - r');
  }

  lemma {:induction false} MultipleAtLeast(k: int, b: int)
    requires k >= 1 && b > 0
    ensures k * b >= b
    decreases k
  {
    if k > 1 {
      MultipleAtLeast(k - 1, b);
      assert k * b == (k - 1) * b + b;
    }
  }

  lemma SmallMultipleIsZero(k: int, b: int, d: int)
    requires b > 0 && -b < d < b && k * b == d
    ensures k == 0
  {
    if k >= 1 {
      MultipleAtLeast(k, b);
    } else if k <= -1 {
      MultipleAtLeast(-k, b);
    }
  }

  /** `modulo(dividend, divisor)` exactly as written: the inner `+ divisor`
      is a 32-bit `int` addition and wraps around when it overflows. */
  function ModuloAsWritten(dividend: int, divisor: int): (r: int)
    requires IsInt(dividend) && IsInt(divisor) && divisor != 0
    ensures IsInt(r)
    ensures 0 < divisor && Rem(dividend, divisor) + divisor <= INT_MAX ==> r == Modulo(dividend, divisor)
  {
    Rem(Wrap(Rem(dividend, divisor) + divisor), divisor)
  }

  /** The positive modulo the method evidently intends: the same formula
      without the overflow. For a positive divisor it is the Euclidean
      remainder, so it lies in `[0, divisor)` and is congruent to the
      dividend. */
  function Modulo(dividend: int, divisor: int): (r: int)
    requires divisor != 0
    ensures divisor > 0 ==> 0 <= r < divisor
    ensures divisor > 0 ==> r == dividend % divisor
    ensures divisor > 0 && dividend >= 0 ==> r == Rem(dividend, divisor)
    ensures divisor < 0 ==> divisor < r <= 0
  {
    var inner := Rem(dividend, divisor);
    var result := Rem(inner + divisor, divisor);
    if divisor > 0 then
      if dividend >= 0 then
        ModUnique(inner + divisor, divisor, 1, inner);
        ModUnique(dividend, divisor, dividend / divisor, inner);
        result
      else
        var m := (-dividend) % divisor;
        var q := (-dividend) / divisor;
        assert -dividend == q * divisor + m;
        if m == 0 then
          ModUnique(dividend, divisor, -q, 0);
          assert divisor % divisor == 0 by { ModUnique(divisor, divisor, 1, 0); }
          result
        else
          ModUnique(inner + divisor, divisor, 0, divisor - m);
          ModUnique(dividend, divisor, -q - 1, divisor - m);
          result
    else
      result
  }

  /** For every divisor up to 2^30 the inner addition cannot overflow, so
      the written method computes the intended value; the only call sites
      use 24. */
  lemma ModuloAsWrittenAgreesForSmallDivisors(dividend: int, divisor: int)
    requires IsInt(dividend) && 0 < divisor <= 0x4000_0000
    ensures ModuloAsWritten(dividend, divisor) == Modulo(dividend, divisor)
  {
  }

  /** With a divisor close to `Integer.MAX_VALUE` the inner addition
      overflows and the "positive" modulo comes out negative. */
  lemma ModuloAsWrittenOverflows()
    ensures ModuloAsWritten(0x7fff_fffe, 0x7fff_ffff) == -3
    ensures Modulo(0x7fff_fffe, 0x7fff_ffff) == 0x7fff_fffe
  {
    assert Rem(0x7fff_fffe, 0x7fff_ffff) == 0x7fff_fffe;
    assert Wrap(0x7fff_fffe + 0x7fff_ffff) == -3;
  }

  // ---------------------------------------------------------------------
  // sum, mean, standard deviation

  /** The sum of a list, as a reference definition. */
  function Sum(xs: seq<real>): real {
    if |xs| == 0 then 0.0 else xs[0] + Sum(xs[1..])
  }

  lemma {:induction false} SumAppend(xs: seq<real>, x: real)
    ensures Sum(xs + [x]) == Sum(xs) + x
  {
    if |xs| > 0 {
      assert (xs + [x])[1..] == xs[1..] + [x];
      SumAppend(xs[1..], x);
    }
  }

  /** `sum(values)`: the running total of a left-to-right loop. */
  method SumOf(values: seq<real>) returns (sum: real)
    ensures sum == Sum(values)
    ensures |values| == 0 ==> sum == 0.0
  {
    sum := 0.0;
    var count := 0;
    while count < |values|
      invariant 0 <= count <= |values|
      invariant sum == Sum(values[..count])
    {
      assert values[..count + 1] == values[..count] + [values[count]];
      SumAppend(values[..count], values[count]);
      sum := sum + values[count];
      count := count + 1;
    }
    assert values[..count] == values;
  }

  /** `mean(values)`: 0 for an empty list (no division by zero), otherwise
      the sum divided by the number of values. */
  function Mean(values: seq<real>): (mean: real)
    ensures |values| == 0 ==> mean == 0.0
    ensures |values| > 0 ==> mean * (|values| as real) == Sum(values)
  {
    if |values| > 0 then Sum(values) / (|values| as real) else 0.0
  }

  lemma SquareNonNegative(d: real)
    ensures d * d >= 0.0
  {
    if d < 0.0 {
      assert d * d == (-d) * (-d);
    }
  }

  /** The sum of squared deviations from `m`, as a reference definition. */
  function SquaredDeviations(xs: seq<real>, m: real): real {
    if |xs| == 0 then 0.0 else (m - xs[0]) * (m - xs[0]) + SquaredDeviations(xs[1..], m)
  }

  lemma {:induction false} SquaredDeviationsNonNegative(xs: seq<real>, m: real)
    ensures SquaredDeviations(xs, m) >= 0.0
  {
    if |xs| > 0 {
      SquareNonNegative(m - xs[0]);
      SquaredDeviationsNonNegative(xs[1..], m);
    }
  }

  lemma {:induction false} SquaredDeviationsAppend(xs: seq<real>, x: real, m: real)
    ensures SquaredDeviations(xs + [x], m) == SquaredDeviations(xs, m) + (m - x) * (m - x)
  {
    if |xs| > 0 {
      assert (xs + [x])[1..] == xs[1..] + [x];
      SquaredDeviationsAppend(xs[1..], x, m);
    }
  }

  /** The population variance: squared deviations divided by `n`, not
      `n - 1`; 0 for an empty list. */
  function Variance(values: seq<real>): (v: real)
    ensures v >= 0.0
    ensures |values| == 0 ==> v == 0.0
    ensures |values| > 0 ==> v * (|values| as real) == SquaredDeviations(values, Mean(values))
  {
    if |values| > 0 then
      SquaredDeviationsNonNegative(values, Mean(values));
      SquaredDeviations(values, Mean(values)) / (|values| as real)
    else 0.0
  }

  /** The standard deviation, with the square root supplied by the caller. */
  function StdDev(values: seq<real>, sqrt: real -> real): real {
    if |values| > 0 then sqrt(Variance(values)) else 0.0
  }

  /** `stdDev(values)`: 0 for an empty list, otherwise the square root of
      the loop's summation of squared deviations from the mean over `n`. */
  method StdDevOf(values: seq<real>, sqrt: real -> real) returns (stdDev: real)
    ensures |values| == 0 ==> stdDev == 0.0
    ensures |values| > 0 ==> stdDev == sqrt(Variance(values))
    ensures stdDev == StdDev(values, sqrt)
  {
    stdDev := 0.0;
    var numVals := |values|;
    if numVals > 0 {
      var average := Mean(values);
      var summation := 0.0;
      var count := 0;
      while count < numVals
        invariant 0 <= count <= numVals
        invariant summation == SquaredDeviations(values[..count], average)
      {
        assert values[..count + 1] == values[..count] + [values[count]];
        SquaredDeviationsAppend(values[..count], values[count], average);
        summation := summation + (average - values[count]) * (average - values[count]);
        count := count + 1;
      }
      assert values[..count] == values;
      stdDev := sqrt(summation / (numVals as real));
    }
  }

  function SumSquares(xs: seq<real>): real {
    if |xs| == 0 then 0.0 else xs[0] * xs[0] + SumSquares(xs[1..])
  }

  /** `ss - 2 m s + n m^2`: the expanded form of a sum of squared deviations. */
  function Expanded(ss: real, m: real, s: real, n: real): real {
    ss - 2.0 * m * s + n * m * m
  }

  lemma ExpandStep(x: real, m: real, s: real, ss: real, sd: real, n: real,
                   s': real, ss': real, sd': real, n': real)
    requires sd == Expanded(ss, m, s, n)
    requires sd' == (m - x) * (m - x) + sd && ss' == x * x + ss && s' == x + s && n' == n + 1.0
    ensures sd' == Expanded(ss', m, s', n')
  {
    assert (m - x) * (m - x) == m * m - 2.0 * m * x + x * x;
    assert 2.0 * m * (x + s) == 2.0 * m * x + 2.0 * m * s;
    assert (n + 1.0) * m * m == n * m * m + m * m;
  }

  /** One element in front: the expanded form of the rest grows by that
      element's square, term and count. */
  lemma ExpandCons(xs: seq<real>, m: real)
    requires |xs| > 0
    requires SquaredDeviations(xs[1..], m) == Expanded(SumSquares(xs[1..]), m, Sum(xs[1..]), (|xs| - 1) as real)
    ensures SquaredDeviations(xs, m) == Expanded(SumSquares(xs), m, Sum(xs), |xs| as real)
  {
    var rest := xs[1..];
    ExpandStep(xs[0], m, Sum(rest), SumSquares(rest), SquaredDeviations(rest, m), (|xs| - 1) as real,
               Sum(xs), SumSquares(xs), SquaredDeviations(xs, m), |xs| as real);
  }

  lemma {:induction false} SquaredDeviationsExpand(xs: seq<real>, m: real)
    ensures SquaredDeviations(xs, m) == Expanded(SumSquares(xs), m, Sum(xs), |xs| as real)
  {
    if |xs| > 0 {
      SquaredDeviationsExpand(xs[1..], m);
      ExpandCons(xs, m);
    }
  }

  lemma ShortcutSum(mu: real, n: real, s: real, ss: real, sd: real)
    requires mu * n == s && sd == Expanded(ss, mu, s, n)
    ensures sd == ss - n * mu * mu
  {
    assert 2.0 * mu * s == 2.0 * mu * mu * n;
  }

  lemma ShortcutQuotient(v: real, n: real, sd: real, ss: real, mu: real)
    requires n > 0.0 && v * n == sd && sd == ss - n * mu * mu
    ensures v == ss / n - mu * mu
  {
    assert (ss / n - mu * mu) * n == ss - n * mu * mu;
  }

  lemma {:induction false} SquaredDeviationsAtMean(values: seq<real>, mu: real)
    requires mu * (|values| as real) == Sum(values)
    ensures SquaredDeviations(values, mu) == SumSquares(values) - (|values| as real) * mu * mu
  {
    SquaredDeviationsExpand(values, mu);
    ShortcutSum(mu, |values| as real, Sum(values), SumSquares(values), SquaredDeviations(values, mu));
  }

  /** The population variance equals the mean of the squares minus the
      square of the mean. */
  lemma {:induction false} VarianceIsMeanSquareMinusSquaredMean(values: seq<real>)
    requires |values| > 0
    ensures Variance(values) == SumSquares(values) / (|values| as real) - Mean(values) * Mean(values)
  {
    var mu, v := Mean(values), Variance(values);
    assert mu * (|values| as real) == Sum(values);
    assert v * (|values| as real) == SquaredDeviations(values, mu);
    VarianceShortcut(values, mu, v);
  }

  lemma {:induction false} VarianceShortcut(values: seq<real>, mu: real, v: real)
    requires |values| > 0
    requires mu * (|values| as real) == Sum(values)
    requires v * (|values| as real) == SquaredDeviations(values, mu)
    ensures v == SumSquares(values) / (|values| as real) - mu * mu
  {
    SquaredDeviationsAtMean(values, mu);
    ShortcutQuotient(v, |values| as real, SquaredDeviations(values, mu), SumSquares(values), mu);
  }

  /** The divisor is `n`: the variance of [0, 2] is 1 (a sample variance
      would give 2). */
  lemma VarianceUsesPopulationDivisor()
    ensures Mean([0.0, 2.0]) == 1.0
    ensures Variance([0.0, 2.0]) == 1.0
  {
    assert Sum([0.0, 2.0]) == 2.0;
    assert SquaredDeviations([0.0, 2.0], 1.0) == 2.0;
  }
}
