/** The standard library's sorts, known only by their contracts. */
module Sorting {

  ghost predicate SortedBy<T>(xs: seq<T>, le: (T, T) -> bool) {
    forall i, j | 0 <= i < j < |xs| :: le(xs[i], xs[j])
  }

  ghost predicate TotalPreorder<T(!new)>(le: (T, T) -> bool) {
    && (forall a, b :: le(a, b) || le(b, a))
    && (forall a, b, c :: le(a, b) && le(b, c) ==> le(a, c))
  }

  /** Callers may rely on the order and on nothing about the order of ties. */
  method Sort<T(!new)>(xs: seq<T>, le: (T, T) -> bool) returns (sorted: seq<T>)
    requires TotalPreorder(le)
    ensures SortedBy(sorted, le)
    ensures multiset(sorted) == multiset(xs)
  {
    sorted := [];
    for n := 0 to |xs|
      invariant SortedBy(sorted, le) && multiset(sorted) == multiset(xs[..n])
    {
      sorted := Insert(sorted, xs[n], le);
      assert xs[..n + 1] == xs[..n] + [xs[n]];
    }
    assert xs[..|xs|] == xs;
  }

  method Insert<T(!new)>(xs: seq<T>, x: T, le: (T, T) -> bool) returns (ys: seq<T>)
    requires SortedBy(xs, le) && TotalPreorder(le)
    ensures SortedBy(ys, le)
    ensures multiset(ys) == multiset(xs) + multiset{x}
  {
    var at := 0;
    while at < |xs| && le(xs[at], x)
      invariant at <= |xs|
      invariant forall k | 0 <= k < at :: le(xs[k], x)
    {
      at := at + 1;
    }
    InsertKeepsElements(xs, at, x);
    InsertKeepsOrder(xs, at, x, le);
    ys := xs[..at] + [x] + xs[at..];
  }

  lemma InsertKeepsElements<T>(xs: seq<T>, at: nat, x: T)
    requires at <= |xs|
    ensures multiset(xs[..at] + [x] + xs[at..]) == multiset(xs) + multiset{x}
  {
    assert xs == xs[..at] + xs[at..];
  }

  lemma InsertKeepsOrder<T(!new)>(xs: seq<T>, at: nat, x: T, le: (T, T) -> bool)
    requires SortedBy(xs, le) && TotalPreorder(le) && at <= |xs|
    requires forall k | 0 <= k < at :: le(xs[k], x)
    requires at < |xs| ==> !le(xs[at], x)
    ensures SortedBy(xs[..at] + [x] + xs[at..], le)
  {
    var ys := xs[..at] + [x] + xs[at..];
    forall k | at <= k < |xs| ensures le(x, xs[k]) {
      assert le(x, xs[at]);
    }
    forall i, j | 0 <= i < j < |ys| ensures le(ys[i], ys[j]) {
      if at < i {
        assert le(xs[i - 1], xs[j - 1]);
      } else if j < at {
        assert le(xs[i], xs[j]);
      } else if i < at < j {
        assert le(xs[i], xs[j - 1]);
      }
    }
  }

  lemma SameMembers<T>(xs: seq<T>, ys: seq<T>)
    requires multiset(xs) == multiset(ys)
    ensures |xs| == |ys|
    ensures forall x :: x in xs <==> x in ys
  {
    assert |multiset(xs)| == |multiset(ys)|;
    forall x ensures x in xs <==> x in ys {
      assert x in xs <==> x in multiset(xs);
      assert x in ys <==> x in multiset(ys);
    }
  }

  ghost predicate Distinct<T(!new)>(xs: seq<T>) {
    forall i, j | 0 <= i < j < |xs| :: xs[i] != xs[j]
  }

  lemma {:induction false} DistinctCount<T(!new)>(xs: seq<T>, x: T)
    requires Distinct(xs)
    ensures multiset(xs)[x] <= 1
  {
    if xs != [] {
      var front, last := xs[..|xs| - 1], xs[|xs| - 1];
      DistinctCount(front, x);
      assert xs == front + [last];
      assert last !in multiset(front);
    }
  }

  lemma RepeatedCount<T(!new)>(xs: seq<T>, i: nat, j: nat)
    requires i < j < |xs| && xs[i] == xs[j]
    ensures multiset(xs)[xs[i]] > 1
  {
    var before, after := xs[..j], xs[j + 1..];
    assert xs == before + [xs[j]] + after;
    assert before[i] in multiset(before);
  }

  /** Sorting repeats nothing. */
  lemma DistinctStays<T(!new)>(xs: seq<T>, ys: seq<T>)
    requires Distinct(xs) && multiset(xs) == multiset(ys)
    ensures Distinct(ys)
  {
    forall i, j | 0 <= i < j < |ys| ensures ys[i] != ys[j] {
      DistinctCount(xs, ys[i]);
      if ys[i] == ys[j] {
        RepeatedCount(ys, i, j);
      }
    }
  }
}
