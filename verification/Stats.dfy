/** Order statistics of `stats.rs`, over exact reals. */
module Stats {
  import opened Wrappers
  import opened Sorting

  ghost predicate Sorted(xs: seq<real>) {
    forall i, j | 0 <= i < j < |xs| :: xs[i] <= xs[j]
  }

  function CountAtMost(xs: seq<real>, v: real): (n: nat)
    ensures n <= |xs|
  {
    if xs == [] then 0
    else CountAtMost(xs[..|xs| - 1], v) + if xs[|xs| - 1] <= v then 1 else 0
  }

  // ------------------------------------------------------------- counting

  lemma {:induction false} CountConcat(xs: seq<real>, ys: seq<real>, v: real)
    ensures CountAtMost(xs + ys, v) == CountAtMost(xs, v) + CountAtMost(ys, v)
  {
    if ys == [] {
      assert xs + ys == xs;
    } else {
      assert (xs + ys)[..|xs + ys| - 1] == xs + ys[..|ys| - 1];
      CountConcat(xs, ys[..|ys| - 1], v);
    }
  }

  lemma CountOne(x: real, v: real)
    ensures CountAtMost([x], v) == if x <= v then 1 else 0
  {
    assert [x][..0] == [];
  }

  lemma CountWithout(xs: seq<real>, k: nat, v: real)
    requires k < |xs|
    ensures CountAtMost(xs, v) == CountAtMost(xs[..k] + xs[k + 1..], v) + if xs[k] <= v then 1 else 0
  {
    hide CountAtMost;
    assert xs == xs[..k] + ([xs[k]] + xs[k + 1..]);
    CountConcat(xs[..k], [xs[k]] + xs[k + 1..], v);
    CountConcat([xs[k]], xs[k + 1..], v);
    CountConcat(xs[..k], xs[k + 1..], v);
    CountOne(xs[k], v);
  }

  lemma MultisetWithout(xs: seq<real>, k: nat)
    requires k < |xs|
    ensures multiset(xs[..k] + xs[k + 1..]) == multiset(xs) - multiset{xs[k]}
  {
    assert xs == xs[..k] + [xs[k]] + xs[k + 1..];
  }

  lemma {:induction false} CountOfPermutation(xs: seq<real>, ys: seq<real>, v: real)
    requires multiset(xs) == multiset(ys)
    ensures CountAtMost(xs, v) == CountAtMost(ys, v)
    decreases |xs|
  {
    SameMembers(xs, ys);
    if xs != [] {
      hide CountAtMost;
      assert xs[0] in ys;
      var k :| 0 <= k < |ys| && ys[k] == xs[0];
      MultisetWithout(xs, 0);
      MultisetWithout(ys, k);
      CountWithout(xs, 0, v);
      CountWithout(ys, k, v);
      CountOfPermutation(xs[..0] + xs[1..], ys[..k] + ys[k + 1..], v);
    }
  }

  lemma {:induction false} CountAll(xs: seq<real>, v: real)
    ensures (forall k | 0 <= k < |xs| :: xs[k] <= v) ==> CountAtMost(xs, v) == |xs|
    ensures (forall k | 0 <= k < |xs| :: xs[k] > v) ==> CountAtMost(xs, v) == 0
  {
    if xs != [] {
      CountAll(xs[..|xs| - 1], v);
    }
  }

  /** In a sorted list the samples at or below v are a prefix. */
  lemma CountSorted(xs: seq<real>, v: real, k: nat)
    requires Sorted(xs) && k <= |xs|
    ensures k > 0 && xs[k - 1] <= v ==> CountAtMost(xs, v) >= k
    ensures k < |xs| && v < xs[k] ==> CountAtMost(xs, v) <= k
  {
    hide CountAtMost;
    var low, high := xs[..k], xs[k..];
    assert xs == low + high;
    CountConcat(low, high, v);
    SortedHalves(xs, k);
    hide Sorted;
    if k > 0 && xs[k - 1] <= v {
      CountAll(low, v);
    }
    if k < |xs| && v < xs[k] {
      CountAll(high, v);
    }
  }

  lemma SortedHalves(xs: seq<real>, k: nat)
    requires Sorted(xs) && k <= |xs|
    ensures forall j | 0 <= j < k :: xs[..k][j] <= xs[k - 1]
    ensures forall j | 0 <= j < |xs| - k :: xs[k..][j] >= xs[k]
  {
  }

  // --------------------------------------------------------- nearest rank

  function Ceil(x: real): int {
    -(-x).Floor
  }

  /** How many of n samples a quantile asks for. */
  function Needed(quantile: real, n: nat): real {
    quantile * n as real
  }

  function RankFor(quantile: real, len: nat): (r: nat)
    requires len > 0
    ensures 1 <= r <= len
  {
    var raw := Ceil(Needed(quantile, len));
    if raw < 1 then 1 else if raw > len then len else raw
  }

  /** v is a sample with at least the given part of the samples at or below it, and no
      smaller sample is. */
  ghost predicate IsNearestRank(values: seq<real>, quantile: real, v: real) {
    && v in values
    && CountAtMost(values, v) as real >= Needed(quantile, |values|)
    && forall w | w in values && w < v :: (CountAtMost(values, w) as real) < Needed(quantile, |values|)
  }

  method NearestRank(values: seq<real>, quantile: real) returns (r: Option<real>)
    ensures r.None? <==> values == [] || quantile < 0.0 || quantile > 1.0
    ensures r.Some? ==> IsNearestRank(values, quantile, r.value)
  {
    if values == [] || !(0.0 <= quantile <= 1.0) {
      return None;
    }
    var sorted := Sort(values, (a: real, b: real) => a <= b);
    SameMembers(sorted, values);
    var rank := RankFor(quantile, |sorted|);
    r := Some(sorted[rank - 1]);
    RankIsNearest(values, sorted, quantile);
  }

  lemma RankBounds(quantile: real, len: nat)
    requires len > 0 && 0.0 <= quantile <= 1.0
    ensures var rank := RankFor(quantile, len);
            rank as real >= Needed(quantile, len) && (rank > 1 ==> (rank - 1) as real < Needed(quantile, len))
  {
    assert quantile * len as real <= 1.0 * len as real;
  }

  lemma RankIsNearest(values: seq<real>, sorted: seq<real>, quantile: real)
    requires values != [] && 0.0 <= quantile <= 1.0
    requires Sorted(sorted) && multiset(sorted) == multiset(values) && |sorted| == |values|
    ensures IsNearestRank(values, quantile, sorted[RankFor(quantile, |sorted|) - 1])
  {
    hide CountAtMost, RankFor, Needed;
    var rank := RankFor(quantile, |sorted|);
    var v := sorted[rank - 1];
    RankBounds(quantile, |sorted|);
    SameMembers(sorted, values);
    CountOfPermutation(sorted, values, v);
    CountSorted(sorted, v, rank);
    assert v in sorted;
    forall w | w in values && w < v ensures (CountAtMost(values, w) as real) < Needed(quantile, |values|) {
      CountOfPermutation(sorted, values, w);
      CountSorted(sorted, w, rank - 1);
      var k :| 0 <= k < |sorted| && sorted[k] == w;
      assert rank > 1;
      LessByTransitivity(CountAtMost(values, w), rank - 1, Needed(quantile, |values|));
    }
  }

  lemma LessByTransitivity(n: nat, m: nat, bound: real)
    requires n <= m && (m as real) < bound
    ensures (n as real) < bound
  {
  }

  /** The answer ignores the order of the samples. */
  lemma NearestRankIsUnique(values: seq<real>, values': seq<real>, quantile: real, a: real, b: real)
    requires multiset(values) == multiset(values')
    requires IsNearestRank(values, quantile, a) && IsNearestRank(values', quantile, b)
    ensures a == b
  {
    hide CountAtMost, Needed;
    SameMembers(values, values');
    CountOfPermutation(values, values', a);
    CountOfPermutation(values, values', b);
  }

  /** A larger quantile never gives a smaller value. */
  lemma NearestRankIsMonotone(values: seq<real>, p: real, q: real, a: real, b: real)
    requires p <= q && IsNearestRank(values, p, a) && IsNearestRank(values, q, b)
    ensures a <= b
  {
    hide CountAtMost;
    assert Needed(p, |values|) <= Needed(q, |values|);
  }

  lemma {:induction false} AllAtMost(xs: seq<real>, v: real)
    requires CountAtMost(xs, v) == |xs|
    ensures forall k | 0 <= k < |xs| :: xs[k] <= v
  {
    if xs != [] {
      var n := |xs| - 1;
      AllAtMost(xs[..n], v);
      assert forall k | 0 <= k < n :: xs[..n][k] == xs[k];
    }
  }

  /** The whole of the samples lies at or below the quantile 1, and none below the quantile 0
      does: those are the greatest and the least. */
  lemma ExtremeRanks(values: seq<real>, v: real)
    ensures IsNearestRank(values, 1.0, v) <==> v in values && forall w | w in values :: w <= v
    ensures IsNearestRank(values, 0.0, v) <==> v in values && forall w | w in values :: v <= w
  {
    hide CountAtMost;
    if IsNearestRank(values, 1.0, v) {
      AllAtMost(values, v);
    }
    if v in values && forall w | w in values :: w <= v {
      assert forall k | 0 <= k < |values| :: values[k] in values;
      CountAll(values, v);
      forall w | w in values && w < v ensures CountAtMost(values, w) < |values| {
        if CountAtMost(values, w) == |values| {
          AllAtMost(values, w);
        }
      }
    }
  }

  // --------------------------------------------------------------- summaries

  /** The middle of the sorted samples, or the mean of the two middle ones. */
  ghost predicate IsMedian(values: seq<real>, m: real) {
    && values != []
    && exists sorted: seq<real> ::
         (Sorted(sorted) && multiset(sorted) == multiset(values) && |sorted| == |values|
          && m == MiddleOf(sorted))
  }

  function MiddleOf(sorted: seq<real>): real
    requires sorted != []
  {
    var middle := |sorted| / 2;
    if |sorted| % 2 == 1 then sorted[middle] else (sorted[middle - 1] + sorted[middle]) / 2.0
  }

  method Median(values: seq<real>) returns (r: Option<real>)
    ensures r.None? <==> values == []
    ensures r.Some? ==> IsMedian(values, r.value)
  {
    if values == [] {
      return None;
    }
    var sorted := Sort(values, (a: real, b: real) => a <= b);
    SameMembers(sorted, values);
    r := Some(MiddleOf(sorted));
    assert Sorted(sorted);
  }

  /** At least half of the samples are at or below the median, and no more than half are
      below any smaller bound. */
  lemma MedianHalves(values: seq<real>, m: real, w: real)
    requires IsMedian(values, m) && w < m
    ensures 2 * CountAtMost(values, m) >= |values|
    ensures 2 * CountAtMost(values, w) <= |values|
  {
    var sorted: seq<real> :|
      Sorted(sorted) && multiset(sorted) == multiset(values) && |sorted| == |values| && m == MiddleOf(sorted);
    CountOfPermutation(sorted, values, m);
    CountOfPermutation(sorted, values, w);
    var middle := |sorted| / 2;
    if |sorted| % 2 == 1 {
      CountSorted(sorted, m, middle + 1);
      CountSorted(sorted, w, middle);
    } else {
      assert sorted[middle - 1] <= sorted[middle];
      CountSorted(sorted, m, middle);
      CountSorted(sorted, w, middle);
    }
  }

  lemma HalfRank(n: nat)
    requires n > 0
    ensures RankFor(0.5, n) == (n + 1) / 2
  {
  }

  lemma SortedRank(values: seq<real>, sorted: seq<real>, a: real)
    requires Sorted(sorted) && multiset(sorted) == multiset(values) && |sorted| == |values| > 0
    requires IsNearestRank(values, 0.5, a)
    ensures a == sorted[(|sorted| + 1) / 2 - 1]
  {
    hide Sorted, IsNearestRank, RankFor;
    RankIsNearest(values, sorted, 0.5);
    HalfRank(|sorted|);
    NearestRankIsUnique(values, values, 0.5, a, sorted[RankFor(0.5, |sorted|) - 1]);
  }

  /** For an odd number of samples the median is the nearest rank of one half. For an even
      number it lies midway between that sample and the next one up, which is the same sample
      exactly if more than half are at or below it. */
  lemma MedianMeetsRank(values: seq<real>, m: real, a: real)
    requires IsMedian(values, m) && IsNearestRank(values, 0.5, a)
    ensures |values| % 2 == 1 ==> m == a
    ensures |values| % 2 == 0 ==>
              var b := 2.0 * m - a;
              && a <= b && b in values
              && (a == b <==> 2 * CountAtMost(values, a) > |values|)
              && forall w | w in values :: !(a < w < b)
  {
    hide Sorted, IsNearestRank, CountAtMost;
    var sorted: seq<real> :|
      Sorted(sorted) && multiset(sorted) == multiset(values) && |sorted| == |values| && m == MiddleOf(sorted);
    SortedRank(values, sorted, a);
    SameMembers(sorted, values);
    CountOfPermutation(sorted, values, a);
    if |sorted| % 2 == 0 {
      EvenMiddle(sorted, |sorted| / 2);
    }
  }

  /** The two middle samples of an even number. */
  lemma EvenMiddle(sorted: seq<real>, half: nat)
    requires Sorted(sorted) && |sorted| == 2 * half > 0
    ensures var a, b := sorted[half - 1], sorted[half];
            && a <= b && (a == b <==> 2 * CountAtMost(sorted, a) > |sorted|)
            && forall w | w in sorted :: !(a < w < b)
  {
    hide CountAtMost;
    CountSorted(sorted, sorted[half - 1], half);
    CountSorted(sorted, sorted[half - 1], half + 1);
  }

  /** The median is one number, in whatever order the samples come. */
  lemma MedianIsUnique(values: seq<real>, values': seq<real>, a: real, b: real)
    requires multiset(values) == multiset(values')
    requires IsMedian(values, a) && IsMedian(values', b)
    ensures a == b
  {
    var xs: seq<real> :| Sorted(xs) && multiset(xs) == multiset(values) && |xs| == |values| && a == MiddleOf(xs);
    var ys: seq<real> :| Sorted(ys) && multiset(ys) == multiset(values') && |ys| == |values'| && b == MiddleOf(ys);
    SortedIsUnique(xs, ys);
  }

  lemma {:induction false} SortedIsUnique(xs: seq<real>, ys: seq<real>)
    requires Sorted(xs) && Sorted(ys) && multiset(xs) == multiset(ys)
    ensures xs == ys
    decreases |xs|
  {
    SameMembers(xs, ys);
    if xs != [] {
      var n := |xs| - 1;
      SameGreatest(xs, ys);
      MultisetWithoutLast(xs);
      MultisetWithoutLast(ys);
      SortedIsUnique(xs[..n], ys[..n]);
      assert xs == xs[..n] + [xs[n]] && ys == ys[..n] + [ys[n]];
    }
  }

  lemma SameGreatest(xs: seq<real>, ys: seq<real>)
    requires Sorted(xs) && Sorted(ys) && xs != [] && ys != []
    requires multiset(xs) == multiset(ys)
    ensures xs[|xs| - 1] == ys[|ys| - 1]
  {
    var x, y := xs[|xs| - 1], ys[|ys| - 1];
    assert x in multiset(xs) && y in multiset(ys);
    assert x in ys && y in xs;
  }

  lemma MultisetWithoutLast(xs: seq<real>)
    requires xs != []
    ensures multiset(xs[..|xs| - 1]) == multiset(xs) - multiset{xs[|xs| - 1]}
  {
    assert xs == xs[..|xs| - 1] + [xs[|xs| - 1]];
  }

  function Least(values: seq<real>): (m: real)
    requires values != []
    ensures m in values && forall k | 0 <= k < |values| :: m <= values[k]
  {
    var n := |values| - 1;
    if n == 0 then values[0]
    else
      var rest := Least(values[..n]);
      if values[n] < rest then values[n] else rest
  }

  function Greatest(values: seq<real>): (m: real)
    requires values != []
    ensures m in values && forall k | 0 <= k < |values| :: values[k] <= m
  {
    var n := |values| - 1;
    if n == 0 then values[0]
    else
      var rest := Greatest(values[..n]);
      if values[n] > rest then values[n] else rest
  }
}
