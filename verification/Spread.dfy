/** The other half of `stats.rs`: mean, standard deviation, confidence interval and the summary
    of a metric, over exact reals. The square root is a parameter known by its square. */
module Spread {
  import opened Wrappers
  import opened Sorting
  import opened Stats

  function Times(x: real, y: real): real {
    x * y
  }

  function Square(x: real): real {
    Times(x, x)
  }

  ghost predicate IsRoot(root: real -> real) {
    forall x: real | x >= 0.0 :: root(x) >= 0.0 && Square(root(x)) == x
  }

  // --------------------------------------------------------------------- sums

  function Total(values: seq<real>, f: real -> real): real {
    if values == [] then 0.0 else Total(values[..|values| - 1], f) + f(values[|values| - 1])
  }

  function Itself(x: real): real {
    x
  }

  function SquareAbout(mean: real): real -> real {
    x => Square(x - mean)
  }

  lemma {:induction false} TotalConcat(xs: seq<real>, ys: seq<real>, f: real -> real)
    ensures Total(xs + ys, f) == Total(xs, f) + Total(ys, f)
  {
    if ys == [] {
      assert xs + ys == xs;
    } else {
      assert (xs + ys)[..|xs + ys| - 1] == xs + ys[..|ys| - 1];
      TotalConcat(xs, ys[..|ys| - 1], f);
    }
  }

  lemma TotalWithout(before: seq<real>, x: real, after: seq<real>, f: real -> real)
    ensures Total(before + [x] + after, f) == Total(before + after, f) + f(x)
  {
    assert Total([x], f) == f(x) by {
      assert [x][..0] == [];
    }
    hide Total;
    TotalConcat(before + [x], after, f);
    TotalConcat(before, [x], f);
    TotalConcat(before, after, f);
  }

  lemma FirstIn(xs: seq<real>, ys: seq<real>) returns (k: nat)
    requires multiset(xs) == multiset(ys) && xs != []
    ensures k < |ys| && ys[k] == xs[0]
  {
    var x: real := xs[0];
    assert x in multiset(xs);
    assert x in multiset(ys);
    k :| k < |ys| && ys[k] == x;
  }

  lemma RestOf(xs: seq<real>)
    requires xs != []
    ensures multiset(xs[1..]) == multiset(xs) - multiset{xs[0]}
  {
    assert xs == [xs[0]] + xs[1..];
  }

  lemma {:induction false} TotalOfPermutation(xs: seq<real>, ys: seq<real>, f: real -> real)
    requires multiset(xs) == multiset(ys)
    ensures Total(xs, f) == Total(ys, f)
    decreases |xs|
  {
    if xs == [] {
      assert |multiset(ys)| == 0;
    } else {
      hide Total;
      var k := FirstIn(xs, ys);
      RestOf(xs);
      MultisetWithout(ys, k);
      TotalOfPermutation(xs[1..], ys[..k] + ys[k + 1..], f);
      TotalWithout([], xs[0], xs[1..], f);
      TotalWithout(ys[..k], ys[k], ys[k + 1..], f);
      assert [] + [xs[0]] + xs[1..] == xs && [] + xs[1..] == xs[1..];
      assert ys[..k] + [ys[k]] + ys[k + 1..] == ys;
    }
  }

  // ------------------------------------------------------------------- spread

  function Mean(values: seq<real>): (r: Option<real>)
    ensures r.None? <==> values == []
    ensures r.Some? ==> r.value * |values| as real == Total(values, Itself)
  {
    if values == [] then None
    else
      Divides(Total(values, Itself), |values|);
      Some(Total(values, Itself) / |values| as real)
  }

  lemma Divides(x: real, n: nat)
    requires n > 0
    ensures x / n as real * n as real == x
  {
  }

  /** The sample standard deviation, by its square: the denominator is n - 1. */
  ghost predicate IsDeviation(values: seq<real>, mean: real, sd: real) {
    sd >= 0.0 && Square(sd) * (|values| - 1) as real == Total(values, SquareAbout(mean))
  }

  lemma {:induction false} SquaresAreNotNegative(values: seq<real>, mean: real)
    ensures Total(values, SquareAbout(mean)) >= 0.0
    ensures Total(values, SquareAbout(mean)) == 0.0 <==> forall k | 0 <= k < |values| :: values[k] == mean
  {
    if values != [] {
      var n := |values| - 1;
      SquaresAreNotNegative(values[..n], mean);
      SquareOfLast(values[n], mean);
      hide SquareAbout;
      assert forall k | 0 <= k < n :: values[..n][k] == values[k];
    }
  }

  lemma SquareOfLast(x: real, mean: real)
    ensures SquareAbout(mean)(x) >= 0.0 && (SquareAbout(mean)(x) == 0.0 <==> x == mean)
  {
    hide Square;
    SquareSign(x - mean);
  }

  lemma SquareSign(x: real)
    ensures x == 0.0 ==> Square(x) == 0.0
    ensures x != 0.0 ==> Square(x) > 0.0
  {
    hide Times;
    ProductSign(x, x);
    ProductSign(-x, -x);
    Negated(x, x);
  }

  lemma ProductSign(x: real, y: real)
    ensures x == 0.0 || y == 0.0 ==> Times(x, y) == 0.0
    ensures x > 0.0 && y > 0.0 ==> Times(x, y) > 0.0
  {
  }

  lemma Negated(x: real, y: real)
    ensures Times(-x, -y) == Times(x, y)
  {
  }

  /** All differences between two samples, squared and added up. */
  function Pairs(values: seq<real>): real {
    if values == [] then 0.0
    else
      var n := |values| - 1;
      Pairs(values[..n]) + Total(values[..n], SquareAbout(values[n]))
  }

  function SquareOf(x: real): real {
    Square(x)
  }

  lemma SquareExpands(x: real, y: real)
    ensures Square(x - y) == Square(x) - 2.0 * Times(y, x) + Square(y)
  {
  }

  lemma TimesAdds(y: real, a: real, b: real)
    ensures Times(y, a + b) == Times(y, a) + Times(y, b)
    ensures Times(a + b, y) == Times(a, y) + Times(b, y)
    ensures Times(y, a) == Times(a, y) && Times(1.0, a) == a && Times(0.0, a) == 0.0
  {
  }

  /** Squares about any point, from the sums of the samples and of their squares. */
  lemma {:induction false} SquaresAbout(values: seq<real>, y: real)
    ensures Total(values, SquareAbout(y))
         == Total(values, SquareOf) - 2.0 * Times(y, Total(values, Itself)) + Times(|values| as real, Square(y))
  {
    if values == [] {
      TimesAdds(y, 0.0, 0.0);
      TimesAdds(Square(y), 0.0, 0.0);
    } else {
      var n := |values| - 1;
      SquaresAbout(values[..n], y);
      SquareExpands(values[n], y);
      TimesAdds(y, Total(values[..n], Itself), values[n]);
      TimesAdds(Square(y), n as real, 1.0);
      hide Times, Square;
      assert |values| as real == n as real + 1.0;
    }
  }

  lemma {:induction false} PairsAre(values: seq<real>)
    ensures Pairs(values) == Times(|values| as real, Total(values, SquareOf)) - Square(Total(values, Itself))
  {
    if values == [] {
      TimesAdds(0.0, 0.0, 0.0);
    } else {
      var n := |values| - 1;
      var y, sum, squares := values[n], Total(values[..n], Itself), Total(values[..n], SquareOf);
      PairsAre(values[..n]);
      SquaresAbout(values[..n], y);
      SquareExpands(sum, -y);
      OneMorePair(n as real, sum, squares, y);
      hide Times, Square;
      assert |values| as real == n as real + 1.0;
    }
  }

  lemma OneMorePair(n: real, sum: real, squares: real, y: real)
    ensures Times(n, squares) - Square(sum) + (squares - 2.0 * Times(y, sum) + Times(n, Square(y)))
         == Times(n + 1.0, squares + Square(y)) - Square(sum + y)
  {
    SquareExpands(sum, -y);
    TimesAdds(squares + Square(y), n, 1.0);
    TimesAdds(n, squares, Square(y));
  }

  /** The deviation without the mean: its square is the mean squared difference of all pairs of
      samples, halved. */
  lemma DeviationIsPairwise(values: seq<real>, mean: real, sd: real)
    requires |values| >= 2 && mean * |values| as real == Total(values, Itself) && IsDeviation(values, mean, sd)
    ensures Square(sd) * (|values| - 1) as real * |values| as real == Pairs(values)
  {
    hide Square, Times, Total, Pairs;
    var n, sum := |values| as real, Total(values, Itself);
    SquaresAbout(values, mean);
    PairsAre(values);
    AboutMean(n, mean, sum, Total(values, SquareOf));
  }

  lemma AboutMean(n: real, mean: real, sum: real, squares: real)
    requires mean * n == sum
    ensures (squares - 2.0 * Times(mean, sum) + Times(n, Square(mean))) * n == Times(n, squares) - Square(sum)
  {
  }

  method Deviation(values: seq<real>, root: real -> real) returns (r: Option<real>)
    requires IsRoot(root)
    ensures r.Some? <==> |values| >= 2
    ensures r.Some? ==> IsDeviation(values, Mean(values).value, r.value)
  {
    var average := Mean(values);
    if average.None? || |values| < 2 {
      return None;
    }
    var squares := Total(values, SquareAbout(average.value));
    SquaresAreNotNegative(values, average.value);
    var variance := squares / (|values| - 1) as real;
    hide Total, Mean, Square, Times;
    Divides(squares, |values| - 1);
    QuotientIsNotNegative(squares, |values| - 1);
    r := Some(root(variance));
  }

  lemma QuotientIsNotNegative(x: real, n: nat)
    requires x >= 0.0 && n > 0
    ensures x / n as real >= 0.0
  {
  }

  /** The 0.975 quantiles of the t distribution with 1 to 30 degrees of freedom. */
  const T_TABLE: seq<real> := [
    12.706, 4.303, 3.182, 2.776, 2.571, 2.447, 2.365, 2.306, 2.262, 2.228, 2.201, 2.179, 2.160,
    2.145, 2.131, 2.120, 2.110, 2.101, 2.093, 2.086, 2.080, 2.074, 2.069, 2.064, 2.060, 2.056,
    2.052, 2.048, 2.045, 2.042
  ]

  function Critical(degrees: nat): (r: Option<real>)
    ensures r.Some? <==> degrees > 0
  {
    if degrees == 0 then None
    else if degrees <= 30 then Some(T_TABLE[degrees - 1])
    else if degrees <= 39 then Some(2.042)
    else if degrees <= 59 then Some(2.021)
    else if degrees <= 119 then Some(2.000)
    else Some(1.980)
  }

  /** More degrees of freedom never have a larger critical value, so taking a smaller row of the
      table only widens the interval. */
  lemma CriticalFalls(a: nat, b: nat)
    requires 0 < a <= b
    ensures Critical(a).value >= Critical(b).value > 0.0
  {
  }

  /** Between two rows of the table the critical value is that of the row with fewer degrees of
      freedom; ten trials have nine degrees. */
  lemma CriticalRows(degrees: nat)
    ensures Critical(1) == Some(12.706) && Critical(9) == Some(2.262) && Critical(30) == Some(2.042)
    ensures 30 <= degrees < 40 ==> Critical(degrees) == Some(2.042)
    ensures 40 <= degrees < 60 ==> Critical(degrees) == Some(2.021)
    ensures 60 <= degrees < 120 ==> Critical(degrees) == Some(2.0)
    ensures 120 <= degrees ==> Critical(degrees) == Some(1.980)
  {
  }

  /** An interval about the mean whose half width is t * sd / sqrt(n). */
  ghost predicate IsInterval(n: nat, mean: real, sd: real, low: real, high: real)
    requires n > 0
  {
    var half := high - mean;
    && half >= 0.0 && mean - low == half
    && Critical(n - 1).Some?
    && var t := Critical(n - 1).value;
       Square(half) * n as real == Square(Times(t, sd))
  }

  /** Two samples: one degree of freedom. */
  lemma IntervalOfTwo(mean: real, sd: real, low: real, high: real)
    requires IsInterval(2, mean, sd, low, high)
    ensures mean == (low + high) / 2.0 && 2.0 * Square(high - mean) == Square(12.706 * sd)
  {
  }

  // ------------------------------------------------------------------ summary

  datatype Summary = Summary(n: nat, mean: real, stddev: Option<real>, ci95: Option<(real, real)>,
                             median: real, min: real, max: real)

  ghost predicate IsSummary(values: seq<real>, s: Summary) {
    && s.n == |values| > 0
    && s.mean * s.n as real == Total(values, Itself)
    && (s.stddev.Some? <==> s.n >= 2) && (s.ci95.Some? <==> s.n >= 2)
    && (s.n >= 2 ==>
          && IsDeviation(values, s.mean, s.stddev.value)
          && IsInterval(s.n, s.mean, s.stddev.value, s.ci95.value.0, s.ci95.value.1))
    && IsMedian(values, s.median)
    && s.min in values && s.max in values
    && forall k | 0 <= k < |values| :: s.min <= values[k] <= s.max
  }

  lemma HalfWidth(t: real, sd: real, n: nat, r: real)
    requires n > 0 && t > 0.0 && sd >= 0.0 && r >= 0.0 && Square(r) == n as real
    ensures r > 0.0 && Times(t, sd) / r >= 0.0
    ensures Square(Times(t, sd) / r) * n as real == Square(Times(t, sd))
  {
    hide Times;
    var x := Times(t, sd);
    ProductSign(t, sd);
    SquareSign(r);
    Quotient(x, r);
    Rearranged(x / r, x / r, r, r);
    Unfolded(Square(x / r), Square(r));
  }

  lemma Quotient(x: real, r: real)
    requires x >= 0.0 && r > 0.0
    ensures x / r >= 0.0 && Times(x / r, r) == x
  {
  }

  lemma Rearranged(a: real, b: real, c: real, d: real)
    ensures Times(Times(a, b), Times(c, d)) == Times(Times(a, c), Times(b, d))
  {
  }

  lemma Unfolded(x: real, y: real)
    ensures Times(x, y) == x * y
  {
  }

  method Summarize(values: seq<real>, root: real -> real) returns (r: Option<Summary>)
    requires IsRoot(root)
    ensures r.None? <==> values == []
    ensures r.Some? ==> IsSummary(values, r.value)
  {
    hide IsMedian, Least, Greatest, Total, Mean, IsDeviation, Critical, Square, Times;
    var average := Mean(values);
    if average.None? {
      return None;
    }
    var mean := average.value;
    var median := Median(values);
    var deviation := Deviation(values, root);
    var interval := None;
    if deviation.Some? {
      var sd := deviation.value;
      var critical := Critical(|values| - 1);
      CriticalFalls(|values| - 1, |values| - 1);
      assert sd >= 0.0 by { DeviationIsNotNegative(values, mean, sd); }
      HalfWidth(critical.value, sd, |values|, root(|values| as real));
      var half := Times(critical.value, sd) / root(|values| as real);
      interval := Some((mean - half, mean + half));
      assert mean + half - mean == half;
    }
    r := Some(Summary(|values|, mean, deviation, interval, median.value, Least(values), Greatest(values)));
  }

  lemma DeviationIsNotNegative(values: seq<real>, mean: real, sd: real)
    requires IsDeviation(values, mean, sd)
    ensures sd >= 0.0
  {
  }

  // ---------------------------------------------------------- what it determines

  lemma RootIsUnique(a: real, b: real, n: nat)
    requires a >= 0.0 && b >= 0.0 && n > 0 && Square(a) * n as real == Square(b) * n as real
    ensures a == b
  {
    hide Square;
    QuotientIsUnique(Square(a), Square(b), n);
    if a < b {
      SmallerSquare(a, b);
    } else if b < a {
      SmallerSquare(b, a);
    }
  }

  lemma SmallerSquare(a: real, b: real)
    requires 0.0 <= a < b
    ensures Square(a) < Square(b)
  {
    hide Times;
    SmallerProduct(a, a, b);
    SmallerProduct(b, a, b);
    Swapped(a, b);
  }

  lemma SmallerProduct(x: real, y: real, z: real)
    requires x >= 0.0 && y < z
    ensures Times(x, y) <= Times(x, z)
    ensures x > 0.0 ==> Times(x, y) < Times(x, z)
  {
    if x > 0.0 {
      ProductSign(x, z - y);
    }
  }

  lemma Swapped(x: real, y: real)
    ensures Times(x, y) == Times(y, x)
  {
  }

  lemma QuotientIsUnique(a: real, b: real, n: nat)
    requires n > 0 && a * n as real == b * n as real
    ensures a == b
  {
    assert (a - b) * n as real == 0.0;
  }

  lemma SameSpread(values: seq<real>, values': seq<real>, a: Summary, b: Summary)
    requires multiset(values) == multiset(values') && IsSummary(values, a) && IsSummary(values', b)
    requires a.n == b.n >= 2 && a.mean == b.mean
    ensures a.stddev == b.stddev && a.ci95 == b.ci95
  {
    hide IsMedian, Total, Critical, Square, Times;
    TotalOfPermutation(values, values', SquareAbout(a.mean));
    RootIsUnique(a.stddev.value, b.stddev.value, a.n - 1);
    RootIsUnique(a.ci95.value.1 - a.mean, b.ci95.value.1 - b.mean, a.n);
  }

  /** The summary is one value, whatever the order of the samples. */
  lemma SummaryIsUnique(values: seq<real>, values': seq<real>, a: Summary, b: Summary)
    requires multiset(values) == multiset(values') && IsSummary(values, a) && IsSummary(values', b)
    ensures a == b
  {
    hide IsMedian, Total, IsDeviation, IsInterval;
    SameMembers(values, values');
    TotalOfPermutation(values, values', Itself);
    assert a.n == b.n && a.mean * a.n as real == b.mean * b.n as real;
    QuotientIsUnique(a.mean, b.mean, a.n);
    MedianIsUnique(values, values', a.median, b.median);
    SameEnds(values, values', a, b);
    if a.n >= 2 {
      SameSpread(values, values', a, b);
    }
  }

  lemma SameEnds(values: seq<real>, values': seq<real>, a: Summary, b: Summary)
    requires multiset(values) == multiset(values') && IsSummary(values, a) && IsSummary(values', b)
    ensures a.min == b.min && a.max == b.max
  {
    hide IsMedian, Total, IsDeviation, IsInterval;
    assert a.min in multiset(values) && a.max in multiset(values);
    assert b.min in multiset(values') && b.max in multiset(values');
    assert a.min in values' && a.max in values' && b.min in values && b.max in values;
  }

  /** There is no spread, and the interval is one point, exactly when all samples are equal. */
  lemma NoSpread(values: seq<real>, s: Summary)
    requires IsSummary(values, s) && s.n >= 2
    ensures s.stddev == Some(0.0) <==> s.min == s.max
    ensures s.ci95 == Some((s.mean, s.mean)) <==> s.min == s.max
  {
    hide IsMedian, Total, Critical, Square, Times;
    var sd := s.stddev.value;
    SquaresAreNotNegative(values, s.mean);
    AllEqual(values, s);
    ZeroProduct(sd, values, s);
  }

  lemma {:induction false} TotalOfEqual(values: seq<real>, x: real)
    requires forall k | 0 <= k < |values| :: values[k] == x
    ensures Total(values, Itself) == x * |values| as real
  {
    if values != [] {
      var n := |values| - 1;
      TotalOfEqual(values[..n], x);
      assert x * n as real + x == x * (n + 1) as real;
    }
  }

  lemma AllEqual(values: seq<real>, s: Summary)
    requires IsSummary(values, s)
    ensures s.min == s.max <==> forall k | 0 <= k < |values| :: values[k] == s.mean
  {
    hide IsMedian, Total, IsDeviation, IsInterval;
    if s.min == s.max {
      TotalOfEqual(values, s.min);
      QuotientIsUnique(s.mean, s.min, s.n);
    }
    if forall k | 0 <= k < |values| :: values[k] == s.mean {
      var i :| 0 <= i < |values| && values[i] == s.min;
      var j :| 0 <= j < |values| && values[j] == s.max;
    }
  }

  lemma ZeroProduct(sd: real, values: seq<real>, s: Summary)
    requires IsSummary(values, s) && s.n >= 2 && sd == s.stddev.value
    ensures sd == 0.0 <==> Total(values, SquareAbout(s.mean)) == 0.0
    ensures s.ci95 == Some((s.mean, s.mean)) <==> sd == 0.0
  {
    hide IsMedian, Total, Critical, Square, Times;
    var half := s.ci95.value.1 - s.mean;
    var t := Critical(s.n - 1).value;
    CriticalFalls(s.n - 1, s.n - 1);
    ProductSign(t, sd);
    ZeroSquare(sd, s.n - 1);
    ZeroSquare(half, s.n);
    SquareSign(Times(t, sd));
    assert s.ci95 == Some((s.mean, s.mean)) <==> half == 0.0;
  }

  lemma ZeroSquare(x: real, n: nat)
    requires n > 0
    ensures x == 0.0 <==> Square(x) * n as real == 0.0
  {
    hide Square, Times;
    SquareSign(x);
    ProductSign(Square(x), n as real);
    Unfolded(Square(x), n as real);
  }
}
