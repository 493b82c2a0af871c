/** `visual_spans` of `composition.rs`: the horizontal intervals that show a logical range
    of a line, computed from a few of its glyph clusters. Coordinates are exact reals. */
module VisualSpans {
  import opened Wrappers
  import opened Text
  import opened Sorting

  const EPSILON: real := 1.0 / 8388608.0
  const GAP: real := 0.01

  datatype Glyph = Glyph(index: nat, x: real, advance: real)

  datatype Cluster = Cluster(index: nat, left: real, right: real)

  datatype Span = Span(left: real, right: real)

  function Min(a: real, b: real): real {
    if a <= b then a else b
  }

  function Max(a: real, b: real): real {
    if a >= b then a else b
  }

  function MinNat(a: nat, b: nat): nat {
    if a <= b then a else b
  }

  function MaxNat(a: nat, b: nat): nat {
    if a >= b then a else b
  }

  function ClusterOf(g: Glyph): (c: Cluster)
    ensures c.index == g.index && c.left <= c.right
    ensures c.left == g.x || c.right == g.x
    ensures c.right - c.left == if g.advance >= 0.0 then g.advance else -g.advance
  {
    Cluster(g.index, Min(g.x, g.x + g.advance), Max(g.x, g.x + g.advance))
  }

  function Clusters(glyphs: seq<Glyph>): (cs: seq<Cluster>)
    ensures |cs| == |glyphs|
    ensures forall k | 0 <= k < |glyphs| :: cs[k] == ClusterOf(glyphs[k])
  {
    seq(|glyphs|, k requires 0 <= k < |glyphs| => ClusterOf(glyphs[k]))
  }

  // ----------------------------------------------- one cluster of a line

  predicate HasIndex(cs: seq<Cluster>, i: nat) {
    exists c | c in cs :: c.index == i
  }

  /** The greatest index up to a bound, the least from one on, and the least above one. */
  function LastUpTo(cs: seq<Cluster>, bound: nat): (r: Option<nat>)
    ensures r.Some? ==> HasIndex(cs, r.value) && r.value <= bound
    ensures forall c | c in cs && c.index <= bound :: r.Some? && c.index <= r.value
  {
    if cs == [] then None
    else
      var rest := LastUpTo(cs[1..], bound);
      assert forall c | c in cs :: c == cs[0] || c in cs[1..];
      if cs[0].index > bound then rest
      else if rest.None? || rest.value < cs[0].index then assert cs[0] in cs; Some(cs[0].index)
      else rest
  }

  function FirstFrom(cs: seq<Cluster>, bound: nat): (r: Option<nat>)
    ensures r.Some? ==> HasIndex(cs, r.value) && r.value >= bound
    ensures forall c | c in cs && c.index >= bound :: r.Some? && c.index >= r.value
  {
    if cs == [] then None
    else
      var rest := FirstFrom(cs[1..], bound);
      assert forall c | c in cs :: c == cs[0] || c in cs[1..];
      if cs[0].index < bound then rest
      else if rest.None? || rest.value > cs[0].index then assert cs[0] in cs; Some(cs[0].index)
      else rest
  }

  /** Where the cluster at i ends: at the next index, or at the end of the text. */
  function End(cs: seq<Cluster>, units: nat, i: nat): nat {
    match FirstFrom(cs, i + 1)
    case None => units
    case Some(n) => n
  }

  /** The horizontal extent of all glyphs at one index. */
  ghost predicate IsExtent(cs: seq<Cluster>, i: nat, left: real, right: real) {
    && (exists c | c in cs :: c.index == i && c.left == left)
    && (exists c | c in cs :: c.index == i && c.right == right)
    && (forall c | c in cs && c.index == i :: left <= c.left && c.right <= right)
  }

  /** The selection overlaps the cluster at i. */
  predicate Overlaps(cs: seq<Cluster>, units: nat, selected: Range, i: nat) {
    i < selected.end && End(cs, units, i) > selected.start
  }

  /** What a cluster's extent contributes: narrowed to the carets at the ends of the
      selection when only part of the cluster is selected, and None when a caret query
      fails. */
  function Narrowed(caret: nat -> Option<real>, selected: Range, start: nat, end: nat, extent: Span): Option<Span> {
    if selected.start > start || selected.end < end then
      var x0 :- caret(MaxNat(selected.start, start));
      var x1 :- caret(MinNat(selected.end, end));
      if x0 - x1 > EPSILON || x1 - x0 > EPSILON then
        Some(Span(Max(extent.left, Min(x0, x1)), Min(extent.right, Max(x0, x1))))
      else Some(extent)
    else Some(extent)
  }

  /** Narrowing intersects the extent with the interval between the two carets; carets
      that coincide, as inside a combining cluster, leave it whole. */
  lemma NarrowedIsIntersection(caret: nat -> Option<real>, selected: Range, start: nat, end: nat, extent: Span, x: real)
    requires Narrowed(caret, selected, start, end, extent).Some?
    requires selected.start > start || selected.end < end
    ensures var n := Narrowed(caret, selected, start, end, extent).value;
            var p, q := caret(MaxNat(selected.start, start)), caret(MinNat(selected.end, end));
            && p.Some? && q.Some?
            && (if -1.0 / 8388608.0 <= p.value - q.value <= 1.0 / 8388608.0 then n == extent
                else n.left <= x <= n.right <==>
                     extent.left <= x <= extent.right
                     && (p.value <= x <= q.value || q.value <= x <= p.value))
  {
  }

  /** The cluster at i contributes a span; a narrowed span of negative width is dropped. */
  ghost predicate Contributes(cs: seq<Cluster>, units: nat, caret: nat -> Option<real>, selected: Range, i: nat,
                              span: Span)
  {
    && Overlaps(cs, units, selected, i)
    && span.right >= span.left
    && exists left, right ::
         (IsExtent(cs, i, left, right)
          && Narrowed(caret, selected, i, End(cs, units, i), Span(left, right)) == Some(span))
  }

  /** A caret query for the cluster at i fails. */
  ghost predicate Fails(cs: seq<Cluster>, units: nat, caret: nat -> Option<real>, selected: Range, i: nat) {
    && HasIndex(cs, i) && Overlaps(cs, units, selected, i)
    && Narrowed(caret, selected, i, End(cs, units, i), Span(0.0, 0.0)) == None
  }

  // ------------------------------------------------- the caret queries

  /** The selection covers only part of the cluster at i, so the shaper is asked for carets. */
  predicate NeedsCarets(cs: seq<Cluster>, units: nat, selected: Range, i: nat) {
    HasIndex(cs, i) && Overlaps(cs, units, selected, i) && (selected.start > i || selected.end < End(cs, units, i))
  }

  /** Only one cluster holds a given position strictly inside. */
  lemma OneClusterInside(cs: seq<Cluster>, units: nat, position: nat, i: nat, j: nat)
    requires HasIndex(cs, i) && i < position < End(cs, units, i)
    requires HasIndex(cs, j) && j < position < End(cs, units, j)
    ensures i == j
  {
    hide FirstFrom;
    var c :| c in cs && c.index == i;
    var d :| d in cs && d.index == j;
  }

  lemma OneClusterAtEachEnd(cs: seq<Cluster>, units: nat, selected: Range, i: nat, j: nat)
    requires NeedsCarets(cs, units, selected, i) && NeedsCarets(cs, units, selected, j)
    ensures selected.start > i && selected.start > j ==> i == j
    ensures selected.end < End(cs, units, i) && selected.end < End(cs, units, j) ==> i == j
  {
    hide End, HasIndex;
    if selected.start > i && selected.start > j {
      OneClusterInside(cs, units, selected.start, i, j);
    }
    if selected.end < End(cs, units, i) && selected.end < End(cs, units, j) {
      OneClusterInside(cs, units, selected.end, i, j);
    }
  }

  lemma OfThreeTwoAreOne(cs: seq<Cluster>, units: nat, selected: Range, i: nat, j: nat, k: nat)
    requires NeedsCarets(cs, units, selected, i) && NeedsCarets(cs, units, selected, j)
    requires NeedsCarets(cs, units, selected, k)
    ensures i == j || j == k || i == k
  {
    hide End, HasIndex;
    OneClusterAtEachEnd(cs, units, selected, i, j);
    OneClusterAtEachEnd(cs, units, selected, j, k);
    OneClusterAtEachEnd(cs, units, selected, i, k);
  }

  /** At most two clusters need caret queries, however long the line: those that hold an end of
      the selection. */
  lemma TwoClustersNeedCarets(cs: seq<Cluster>, units: nat, selected: Range, indices: set<nat>)
    requires forall i | i in indices :: NeedsCarets(cs, units, selected, i)
    ensures |indices| <= 2
  {
    hide NeedsCarets;
    if |indices| > 2 {
      var i :| i in indices;
      var others := indices - {i};
      assert |others| == |indices| - 1;
      var j :| j in others;
      var rest := others - {j};
      assert |rest| == |others| - 1;
      var k :| k in rest;
      OfThreeTwoAreOne(cs, units, selected, i, j, k);
    }
  }

  /** What any other cluster contributes does not depend on the shaper, and cannot fail. */
  lemma OthersNeedNoCarets(cs: seq<Cluster>, units: nat, caret: nat -> Option<real>, caret': nat -> Option<real>,
                           selected: Range, i: nat)
    requires !NeedsCarets(cs, units, selected, i)
    ensures !Fails(cs, units, caret, selected, i)
    ensures forall span ::
              Contributes(cs, units, caret, selected, i, span) <==> Contributes(cs, units, caret', selected, i, span)
  {
    assert forall left, right :: IsExtent(cs, i, left, right) ==> HasIndex(cs, i);
  }

  /** The selection covers all of the cluster at i. */
  predicate WhollySelected(cs: seq<Cluster>, units: nat, selected: Range, i: nat) {
    selected.start <= i < selected.end && selected.start < End(cs, units, i) <= selected.end
  }

  /** A wholly selected cluster contributes its extent, all of it and nothing else. */
  lemma WholeClusterContributes(cs: seq<Cluster>, units: nat, caret: nat -> Option<real>, selected: Range, i: nat,
                                span: Span)
    requires WhollySelected(cs, units, selected, i) && forall c | c in cs :: c.left <= c.right
    ensures Contributes(cs, units, caret, selected, i, span) <==> IsExtent(cs, i, span.left, span.right)
  {
    hide End;
    if IsExtent(cs, i, span.left, span.right) {
      var c :| c in cs && c.index == i;
      assert Narrowed(caret, selected, i, End(cs, units, i), Span(span.left, span.right)) == Some(span);
    }
  }

  /** The extent exists for every index that a cluster has. */
  lemma {:induction false} ExtentExists(cs: seq<Cluster>, i: nat) returns (extent: Span)
    requires HasIndex(cs, i)
    ensures IsExtent(cs, i, extent.left, extent.right)
  {
    var front, last := cs[..|cs| - 1], cs[|cs| - 1];
    assert cs == front + [last];
    if !HasIndex(front, i) {
      extent := Span(last.left, last.right);
      assert last in cs;
    } else {
      var rest := ExtentExists(front, i);
      var c :| c in front && c.index == i && c.left == rest.left;
      var d :| d in front && d.index == i && d.right == rest.right;
      assert c in cs && d in cs && last in cs;
      extent := if last.index == i then Span(Min(rest.left, last.left), Max(rest.right, last.right)) else rest;
    }
  }

  // ------------------------------------------------------------ the filter

  /** The clusters that `visual_spans` looks at. */
  predicate Keep(cs: seq<Cluster>, selected: Range, i: nat) {
    || selected.start <= i < selected.end
    || LastUpTo(cs, selected.start) == Some(i)
    || FirstFrom(cs, selected.end) == Some(i)
  }

  /** The kept clusters of a line, in any order. */
  ghost predicate IsKept(cs: seq<Cluster>, selected: Range, kept: seq<Cluster>) {
    forall c :: c in kept <==> c in cs && Keep(cs, selected, c.index)
  }

  lemma KeptEnd(cs: seq<Cluster>, units: nat, selected: Range, kept: seq<Cluster>, i: nat)
    requires IsKept(cs, selected, kept) && HasIndex(kept, i) && i < selected.end
    ensures End(kept, units, i) == End(cs, units, i)
  {
    hide FirstFrom, LastUpTo;
    var all := FirstFrom(cs, i + 1);
    if all.Some? {
      var c :| c in cs && c.index == all.value;
      var k :| k in kept && k.index == i;
      if c.index >= selected.end {
        assert FirstFrom(cs, selected.end) == Some(c.index);
      }
      assert Keep(cs, selected, c.index);
      assert c in kept;
    }
  }

  lemma KeptOverlap(cs: seq<Cluster>, units: nat, selected: Range, kept: seq<Cluster>, i: nat)
    requires IsKept(cs, selected, kept) && HasIndex(cs, i) && Overlaps(cs, units, selected, i)
    ensures HasIndex(kept, i)
  {
    var c :| c in cs && c.index == i;
    if i < selected.start {
      assert LastUpTo(cs, selected.start) == Some(i);
    }
    assert c in kept;
  }

  /** Dropping every other cluster changes neither what a cluster contributes nor which
      caret queries fail. */
  lemma FilterIsExact(cs: seq<Cluster>, units: nat, caret: nat -> Option<real>, selected: Range, kept: seq<Cluster>,
                      i: nat)
    requires IsKept(cs, selected, kept)
    ensures Fails(kept, units, caret, selected, i) <==> Fails(cs, units, caret, selected, i)
    ensures forall span ::
              Contributes(kept, units, caret, selected, i, span) <==> Contributes(cs, units, caret, selected, i, span)
  {
    if i < selected.end && HasIndex(cs, i) {
      if HasIndex(kept, i) {
        KeptEnd(cs, units, selected, kept, i);
        var k :| k in kept && k.index == i;
        assert forall c: Cluster | c.index == i :: c in kept <==> c in cs;
        forall left, right ensures IsExtent(kept, i, left, right) <==> IsExtent(cs, i, left, right) {
        }
      } else if Overlaps(cs, units, selected, i) {
        KeptOverlap(cs, units, selected, kept, i);
      }
    }
    assert HasIndex(kept, i) ==> HasIndex(cs, i);
  }

  // ------------------------------------------------------------- the merge

  /** `out` is what merging a collection of spans gives: sorted spans more than GAP apart,
      that contain every input, whose ends are ends of inputs, and that bridge no hole
      wider than GAP. */
  ghost predicate IsMerge(inputs: iset<Span>, out: seq<Span>) {
    Separated(out) && Covers(inputs, out) && TightEnds(inputs, out) && NoHoles(inputs, out)
  }

  ghost predicate Separated(out: seq<Span>) {
    && (forall k | 0 <= k < |out| :: out[k].left <= out[k].right)
    && (forall j, k | 0 <= j < k < |out| :: out[j].right + GAP < out[k].left)
  }

  ghost predicate Covers(inputs: iset<Span>, out: seq<Span>) {
    forall s {:trigger Covered(out, s)} | s in inputs :: Covered(out, s)
  }

  ghost predicate Covered(out: seq<Span>, s: Span) {
    exists k | 0 <= k < |out| :: Within(s, out[k])
  }

  ghost predicate TightEnds(inputs: iset<Span>, out: seq<Span>) {
    forall k {:trigger Tight(inputs, out[k])} | 0 <= k < |out| :: Tight(inputs, out[k])
  }

  ghost predicate NoHoles(inputs: iset<Span>, out: seq<Span>) {
    forall x {:trigger Bridged(inputs, x)} | Inside(out, x) :: Bridged(inputs, x)
  }

  ghost predicate Inside(out: seq<Span>, x: real) {
    exists k | 0 <= k < |out| :: out[k].left <= x <= out[k].right
  }

  ghost predicate Within(s: Span, o: Span) {
    o.left <= s.left && s.right <= o.right
  }

  ghost predicate Tight(inputs: iset<Span>, o: Span) {
    && (exists s | s in inputs :: s.left == o.left)
    && (exists s | s in inputs :: s.right == o.right)
  }

  /** A point of some input, or at most GAP past its end. */
  ghost predicate Bridged(inputs: iset<Span>, x: real) {
    exists s | s in inputs :: s.left <= x <= s.right + GAP
  }

  lemma Owner(inputs: iset<Span>, out: seq<Span>, s: Span) returns (k: nat)
    requires Covers(inputs, out) && s in inputs
    ensures k < |out| && Within(s, out[k])
  {
    assert Covered(out, s);
    k :| 0 <= k < |out| && Within(s, out[k]);
  }

  lemma LeftEnd(inputs: iset<Span>, out: seq<Span>, k: nat) returns (s: Span)
    requires TightEnds(inputs, out) && k < |out|
    ensures s in inputs && s.left == out[k].left
  {
    assert Tight(inputs, out[k]);
    s :| s in inputs && s.left == out[k].left;
  }

  lemma RightEnd(inputs: iset<Span>, out: seq<Span>, k: nat) returns (s: Span)
    requires TightEnds(inputs, out) && k < |out|
    ensures s in inputs && s.right == out[k].right
  {
    assert Tight(inputs, out[k]);
    s :| s in inputs && s.right == out[k].right;
  }

  lemma BridgeAt(inputs: iset<Span>, out: seq<Span>, k: nat, x: real) returns (s: Span)
    requires NoHoles(inputs, out) && k < |out| && out[k].left <= x <= out[k].right
    ensures s in inputs && s.left <= x <= s.right + GAP
  {
    assert Inside(out, x);
    assert Bridged(inputs, x);
    s :| s in inputs && s.left <= x <= s.right + GAP;
  }

  lemma SeparatedAt(out: seq<Span>, j: nat, k: nat)
    requires Separated(out) && j < k < |out|
    ensures out[j].left <= out[j].right && out[j].right + GAP < out[k].left <= out[k].right
  {
  }

  /** The merge is unique, so it cannot depend on the order of the inputs. */
  lemma {:induction false} MergeIsUnique(inputs: iset<Span>, a: seq<Span>, b: seq<Span>)
    requires forall s | s in inputs :: s.left <= s.right
    requires IsMerge(inputs, a) && IsMerge(inputs, b)
    ensures a == b
    decreases |a|
  {
    hide Separated, Covers, TightEnds, NoHoles, Within;
    if a == [] {
      if b != [] {
        var s := LeftEnd(inputs, b, 0);
        var k := Owner(inputs, a, s);
      }
    } else {
      var s := LeftEnd(inputs, a, 0);
      var k := Owner(inputs, b, s);
      FirstLeft(inputs, a, b);
      FirstLeft(inputs, b, a);
      FirstRight(inputs, a, b);
      FirstRight(inputs, b, a);
      var rest := iset s | s in inputs && !Within(s, a[0]);
      RestIsMerge(inputs, a, rest);
      RestIsMerge(inputs, b, rest);
      MergeIsUnique(rest, a[1..], b[1..]);
      assert a == [a[0]] + a[1..] && b == [b[0]] + b[1..];
    }
  }

  /** Two spans are shown as one exactly if they come within 0.01 of each other. */
  lemma NearSpansJoin(a: Span, b: Span)
    requires a.left <= a.right < b.left <= b.right
    ensures IsMerge(iset{a, b}, [Span(a.left, b.right)]) <==> b.left - a.right <= 0.01
    ensures IsMerge(iset{a, b}, [a, b]) <==> b.left - a.right > 0.01
  {
    var inputs, joined, apart := iset{a, b}, [Span(a.left, b.right)], [a, b];
    if b.left - a.right <= 0.01 {
      JoinedIsMerge(a, b);
    } else {
      ApartIsMerge(a, b);
      hide IsMerge;
      if IsMerge(inputs, joined) {
        MergeIsUnique(inputs, joined, apart);
        assert false;
      }
    }
  }

  lemma JoinedIsMerge(a: Span, b: Span)
    requires a.left <= a.right < b.left <= b.right && b.left - a.right <= GAP
    ensures IsMerge(iset{a, b}, [Span(a.left, b.right)]) && !Separated([a, b])
  {
    var inputs, joined := iset{a, b}, [Span(a.left, b.right)];
    assert Within(a, joined[0]) && Within(b, joined[0]);
    forall x | Inside(joined, x) ensures Bridged(inputs, x) {
      assert x <= a.right + GAP ==> a in inputs;
      assert x > a.right + GAP ==> b in inputs;
    }
    assert [a, b][0].right + GAP >= [a, b][1].left;
  }

  lemma ApartIsMerge(a: Span, b: Span)
    requires a.left <= a.right < b.left <= b.right && b.left - a.right > GAP
    ensures IsMerge(iset{a, b}, [a, b])
  {
    var inputs, apart := iset{a, b}, [a, b];
    assert Within(a, apart[0]) && Within(b, apart[1]);
    forall x | Inside(apart, x) ensures Bridged(inputs, x) {
      var k :| 0 <= k < |apart| && apart[k].left <= x <= apart[k].right;
      assert apart[k] in inputs;
    }
  }

  lemma FirstLeft(inputs: iset<Span>, a: seq<Span>, b: seq<Span>)
    requires IsMerge(inputs, a) && IsMerge(inputs, b) && a != [] && b != []
    ensures b[0].left <= a[0].left
  {
    hide Separated, Covers, TightEnds, NoHoles;
    var s := LeftEnd(inputs, a, 0);
    var k := Owner(inputs, b, s);
    if k > 0 {
      SeparatedAt(b, 0, k);
    }
  }

  lemma FirstRight(inputs: iset<Span>, a: seq<Span>, b: seq<Span>)
    requires forall s | s in inputs :: s.left <= s.right
    requires IsMerge(inputs, a) && IsMerge(inputs, b) && a != [] && b != [] && a[0].left == b[0].left
    ensures b[0].right <= a[0].right
  {
    hide Separated, Covers, TightEnds, NoHoles;
    if b[0].right > a[0].right {
      var q := RightEnd(inputs, b, 0);
      var k := Owner(inputs, a, q);
      SeparatedAt(a, 0, k);
      SeparatedAt(a, 0, 1);
      if k > 1 {
        SeparatedAt(a, 1, k);
      }
      var x := (a[0].right + GAP + a[1].left) / 2.0;
      var p := BridgeAt(inputs, b, 0, x);
      var m := Owner(inputs, a, p);
      if m > 1 {
        SeparatedAt(a, 1, m);
      }
      assert false;
    }
  }

  lemma RestIsMerge(inputs: iset<Span>, a: seq<Span>, rest: iset<Span>)
    requires forall s | s in inputs :: s.left <= s.right
    requires IsMerge(inputs, a) && a != []
    requires rest == iset s | s in inputs && !Within(s, a[0])
    ensures IsMerge(rest, a[1..])
  {
    RestIsCovered(inputs, a, rest);
    RestIsTight(inputs, a, rest);
    RestHasNoHoles(inputs, a, rest);
  }

  lemma RestIsCovered(inputs: iset<Span>, a: seq<Span>, rest: iset<Span>)
    requires Covers(inputs, a) && a != []
    requires rest == iset s | s in inputs && !Within(s, a[0])
    ensures Covers(rest, a[1..])
  {
    hide Within;
    forall s | s in rest ensures Covered(a[1..], s) {
      var k := Owner(inputs, a, s);
      assert Within(s, a[1..][k - 1]);
    }
  }

  lemma RestIsTight(inputs: iset<Span>, a: seq<Span>, rest: iset<Span>)
    requires forall s | s in inputs :: s.left <= s.right
    requires Separated(a) && TightEnds(inputs, a) && a != []
    requires rest == iset s | s in inputs && !Within(s, a[0])
    ensures TightEnds(rest, a[1..])
  {
    hide Separated, TightEnds;
    forall k | 0 < k < |a| ensures Tight(rest, a[k]) {
      SeparatedAt(a, 0, k);
      var s := LeftEnd(inputs, a, k);
      var t := RightEnd(inputs, a, k);
      assert s in rest && t in rest;
    }
    TightFrom(rest, a);
  }

  lemma TightFrom(rest: iset<Span>, a: seq<Span>)
    requires a != [] && forall k | 0 < k < |a| :: Tight(rest, a[k])
    ensures TightEnds(rest, a[1..])
  {
    hide Tight;
  }

  lemma RestHasNoHoles(inputs: iset<Span>, a: seq<Span>, rest: iset<Span>)
    requires Separated(a) && NoHoles(inputs, a) && a != []
    requires rest == iset s | s in inputs && !Within(s, a[0])
    ensures NoHoles(rest, a[1..])
  {
    forall x | Inside(a[1..], x) ensures Bridged(rest, x) {
      hide Separated, NoHoles;
      var k :| 0 <= k < |a[1..]| && a[1..][k].left <= x <= a[1..][k].right;
      SeparatedAt(a, 0, k + 1);
      var s := BridgeAt(inputs, a, k + 1, x);
      assert s in rest;
    }
  }

  /** One step of the merging loop: the next span by left end extends the last merged
      span or starts a new one. */
  function Extend(merged: seq<Span>, s: Span): seq<Span> {
    var n := |merged|;
    if n > 0 && s.left <= merged[n - 1].right + GAP then
      merged[..n - 1] + [Span(merged[n - 1].left, Max(merged[n - 1].right, s.right))]
    else merged + [s]
  }

  lemma ExtendIsMerge(inputs: iset<Span>, merged: seq<Span>, s: Span)
    requires IsMerge(inputs, merged) && s.left <= s.right
    requires forall t | t in inputs :: t.left <= t.right && t.left <= s.left
    ensures IsMerge(inputs + iset{s}, Extend(merged, s))
  {
    ExtendIsSeparated(inputs, merged, s);
    ExtendCovers(inputs, merged, s);
    ExtendIsTight(inputs, merged, s);
    ExtendHasNoHoles(inputs, merged, s);
  }

  lemma ExtendIsSeparated(inputs: iset<Span>, merged: seq<Span>, s: Span)
    requires IsMerge(inputs, merged) && s.left <= s.right
    requires forall t | t in inputs :: t.left <= t.right && t.left <= s.left
    ensures Separated(Extend(merged, s))
    ensures merged != [] ==> merged[|merged| - 1].left <= s.left
  {
    var n := |merged|;
    if n > 0 {
      var l := LeftEnd(inputs, merged, n - 1);
    }
  }

  lemma ExtendCovers(inputs: iset<Span>, merged: seq<Span>, s: Span)
    requires IsMerge(inputs, merged) && s.left <= s.right
    requires forall t | t in inputs :: t.left <= t.right && t.left <= s.left
    ensures Covers(inputs + iset{s}, Extend(merged, s))
  {
    ExtendIsSeparated(inputs, merged, s);
    var out := Extend(merged, s);
    forall t | t in inputs + iset{s} ensures Covered(out, t) {
      hide Separated, Covers, TightEnds, NoHoles;
      if t == s {
        assert Within(t, out[|out| - 1]);
      } else {
        var k := Owner(inputs, merged, t);
        assert Within(t, out[k]);
      }
    }
  }

  lemma ExtendIsTight(inputs: iset<Span>, merged: seq<Span>, s: Span)
    requires IsMerge(inputs, merged)
    ensures TightEnds(inputs + iset{s}, Extend(merged, s))
  {
    var all, out := inputs + iset{s}, Extend(merged, s);
    forall k | 0 <= k < |out| ensures Tight(all, out[k]) {
      hide Separated, Covers, TightEnds, NoHoles;
      assert s in all;
      if k < |merged| {
        var l := LeftEnd(inputs, merged, k);
        var r := RightEnd(inputs, merged, k);
        assert l in all && r in all;
      }
    }
  }

  lemma ExtendHasNoHoles(inputs: iset<Span>, merged: seq<Span>, s: Span)
    requires IsMerge(inputs, merged) && s.left <= s.right
    requires forall t | t in inputs :: t.left <= t.right && t.left <= s.left
    ensures NoHoles(inputs + iset{s}, Extend(merged, s))
  {
    var all, out := inputs + iset{s}, Extend(merged, s);
    forall x | Inside(out, x) ensures Bridged(all, x) {
      hide Separated, Covers, TightEnds, NoHoles;
      var k :| 0 <= k < |out| && out[k].left <= x <= out[k].right;
      assert s in all;
      if s.left <= x <= s.right {
      } else if k < |merged| && x <= merged[k].right {
        var t := BridgeAt(inputs, merged, k, x);
        assert t in all;
      } else {
        var last := |merged| - 1;
        var t := RightEnd(inputs, merged, last);
        assert t in all;
      }
    }
  }

  // ------------------------------------------------------------ the method

  ghost function Contributions(cs: seq<Cluster>, units: nat, caret: nat -> Option<real>, selected: Range): iset<Span> {
    iset span | Contributed(cs, units, caret, selected, span)
  }

  ghost predicate Contributed(cs: seq<Cluster>, units: nat, caret: nat -> Option<real>, selected: Range, span: Span) {
    exists i :: Contributes(cs, units, caret, selected, i, span)
  }

  ghost predicate AnyFails(cs: seq<Cluster>, units: nat, caret: nat -> Option<real>, selected: Range) {
    exists i :: Fails(cs, units, caret, selected, i)
  }

  /** The clusters of the glyphs that `Keep` admits. */
  method KeptClusters(glyphs: seq<Glyph>, selected: Range) returns (kept: seq<Cluster>)
    ensures IsKept(Clusters(glyphs), selected, kept)
  {
    hide LastUpTo, FirstFrom;
    var cs := Clusters(glyphs);
    var predecessor := LastUpTo(cs, selected.start);
    var successor := FirstFrom(cs, selected.end);
    kept := [];
    for k := 0 to |glyphs|
      invariant forall c :: c in kept <==> c in cs[..k] && Keep(cs, selected, c.index)
    {
      var index := glyphs[k].index;
      assert cs[..k + 1] == cs[..k] + [cs[k]];
      if (index >= selected.start && index < selected.end) || Some(index) == predecessor || Some(index) == successor {
        kept := kept + [ClusterOf(glyphs[k])];
      }
    }
    assert cs[..|glyphs|] == cs;
  }

  /** Reads all glyphs of the cluster that begins at `cursor`. */
  method Group(cs: seq<Cluster>, cursor: nat, units: nat) returns (next: nat, left: real, right: real)
    requires cursor < |cs| && forall i, j | 0 <= i < j < |cs| :: cs[i].index <= cs[j].index
    requires cursor > 0 ==> cs[cursor - 1].index < cs[cursor].index
    ensures cursor < next <= |cs|
    ensures forall k | cursor <= k < next :: cs[k].index == cs[cursor].index
    ensures next < |cs| ==> cs[next].index > cs[cursor].index
    ensures IsExtent(cs, cs[cursor].index, left, right)
    ensures End(cs, units, cs[cursor].index) == if next < |cs| then cs[next].index else units
  {
    var start := cs[cursor].index;
    left, right := cs[cursor].left, cs[cursor].right;
    next := cursor + 1;
    while next < |cs| && cs[next].index == start
      invariant cursor < next <= |cs|
      invariant forall k | cursor <= k < next :: cs[k].index == start && left <= cs[k].left && cs[k].right <= right
      invariant exists k | cursor <= k < next :: cs[k].left == left
      invariant exists k | cursor <= k < next :: cs[k].right == right
    {
      left := Min(left, cs[next].left);
      right := Max(right, cs[next].right);
      next := next + 1;
    }
    GroupExtent(cs, cursor, next, left, right);
    GroupEnd(cs, units, cursor, next);
  }

  lemma GroupExtent(cs: seq<Cluster>, cursor: nat, next: nat, left: real, right: real)
    requires cursor < next <= |cs| && forall i, j | 0 <= i < j < |cs| :: cs[i].index <= cs[j].index
    requires cursor > 0 ==> cs[cursor - 1].index < cs[cursor].index
    requires next < |cs| ==> cs[next].index > cs[cursor].index
    requires forall k | cursor <= k < next ::
               cs[k].index == cs[cursor].index && left <= cs[k].left && cs[k].right <= right
    requires exists k | cursor <= k < next :: cs[k].left == left
    requires exists k | cursor <= k < next :: cs[k].right == right
    ensures IsExtent(cs, cs[cursor].index, left, right)
  {
    forall c | c in cs && c.index == cs[cursor].index ensures left <= c.left && c.right <= right {
      var k :| 0 <= k < |cs| && cs[k] == c;
    }
  }

  lemma GroupEnd(cs: seq<Cluster>, units: nat, cursor: nat, next: nat)
    requires cursor < next <= |cs| && forall i, j | 0 <= i < j < |cs| :: cs[i].index <= cs[j].index
    requires forall k | cursor <= k < next :: cs[k].index == cs[cursor].index
    requires next < |cs| ==> cs[next].index > cs[cursor].index
    ensures End(cs, units, cs[cursor].index) == if next < |cs| then cs[next].index else units
  {
    hide FirstFrom;
    var found := FirstFrom(cs, cs[cursor].index + 1);
    if found.Some? {
      var c :| c in cs && c.index == found.value;
      var k :| 0 <= k < |cs| && cs[k] == c;
    }
    if next < |cs| {
      assert cs[next] in cs;
    }
  }

  /** One group's contribution to the spans, as the loop computes it. */
  lemma GroupContribution(cs: seq<Cluster>, units: nat, caret: nat -> Option<real>, selected: Range, i: nat,
                          left: real, right: real, span: Span)
    requires IsExtent(cs, i, left, right)
    ensures Contributes(cs, units, caret, selected, i, span) <==>
            && Overlaps(cs, units, selected, i)
            && Narrowed(caret, selected, i, End(cs, units, i), Span(left, right)) == Some(span)
            && span.right >= span.left
    ensures Fails(cs, units, caret, selected, i) <==>
            && Overlaps(cs, units, selected, i)
            && Narrowed(caret, selected, i, End(cs, units, i), Span(left, right)) == None
  {
    hide Overlaps, End;
    var c :| c in cs && c.index == i;
    forall l, r | IsExtent(cs, i, l, r) ensures l == left && r == right {
    }
  }

  /** The spans of all clusters before the caret of the loop. */
  ghost predicate Processed(cs: seq<Cluster>, units: nat, caret: nat -> Option<real>, selected: Range, n: nat,
                            spans: seq<Span>)
    requires n <= |cs|
  {
    && (forall k | 0 <= k < n :: !Fails(cs, units, caret, selected, cs[k].index))
    && (forall s :: s in spans <==> exists k | 0 <= k < n :: Contributes(cs, units, caret, selected, cs[k].index, s))
  }

  /** Sorted clusters to spans; None when a caret query fails. */
  method RawSpans(cs: seq<Cluster>, units: nat, caret: nat -> Option<real>, selected: Range)
    returns (r: Option<seq<Span>>)
    requires forall i, j | 0 <= i < j < |cs| :: cs[i].index <= cs[j].index
    ensures r.None? <==> AnyFails(cs, units, caret, selected)
    ensures r.Some? ==> forall s :: s in r.value <==> Contributed(cs, units, caret, selected, s)
  {
    var spans: seq<Span> := [];
    var cursor := 0;
    while cursor < |cs|
      invariant cursor <= |cs|
      invariant 0 < cursor < |cs| ==> cs[cursor - 1].index < cs[cursor].index
      invariant Processed(cs, units, caret, selected, cursor, spans)
    {
      var start := cs[cursor].index;
      var next, left, right := Group(cs, cursor, units);
      var end := if next < |cs| then cs[next].index else units;
      ghost var before, from := spans, cursor;
      cursor := next;
      if start >= selected.end || end <= selected.start {
      } else {
        var narrowed := Narrowed(caret, selected, start, end, Span(left, right));
        if narrowed.None? {
          assert Fails(cs, units, caret, selected, start) by {
            GroupContribution(cs, units, caret, selected, start, left, right, Span(left, right));
          }
          return None;
        }
        if narrowed.value.right >= narrowed.value.left {
          spans := spans + [narrowed.value];
        }
      }
      ProcessGroup(cs, units, caret, selected, from, next, left, right, before, spans);
    }
    r := Some(spans);
    ProcessedAll(cs, units, caret, selected, spans);
  }

  lemma ProcessedAll(cs: seq<Cluster>, units: nat, caret: nat -> Option<real>, selected: Range, spans: seq<Span>)
    requires Processed(cs, units, caret, selected, |cs|, spans)
    ensures !AnyFails(cs, units, caret, selected)
    ensures forall s :: s in spans <==> Contributed(cs, units, caret, selected, s)
  {
    hide Overlaps, End, Narrowed;
    forall i: nat ensures !Fails(cs, units, caret, selected, i) {
      if HasIndex(cs, i) {
        var k :| 0 <= k < |cs| && cs[k].index == i;
        assert !Fails(cs, units, caret, selected, cs[k].index);
      }
    }
    forall s ensures s in spans <==> Contributed(cs, units, caret, selected, s) {
      if i :| Contributes(cs, units, caret, selected, i, s) {
        var k :| 0 <= k < |cs| && cs[k].index == i;
        assert Contributes(cs, units, caret, selected, cs[k].index, s);
      }
    }
  }

  lemma ProcessGroup(cs: seq<Cluster>, units: nat, caret: nat -> Option<real>, selected: Range, cursor: nat, next: nat,
                     left: real, right: real, before: seq<Span>, after: seq<Span>)
    requires cursor < next <= |cs| && Processed(cs, units, caret, selected, cursor, before)
    requires forall k | cursor <= k < next :: cs[k].index == cs[cursor].index
    requires IsExtent(cs, cs[cursor].index, left, right)
    requires var start := cs[cursor].index;
             if Overlaps(cs, units, selected, start) then
               var narrowed := Narrowed(caret, selected, start, End(cs, units, start), Span(left, right));
               && narrowed.Some?
               && after == if narrowed.value.right >= narrowed.value.left then before + [narrowed.value] else before
             else after == before
    ensures Processed(cs, units, caret, selected, next, after)
  {
    hide Overlaps, End, Narrowed, Contributes, Fails, IsExtent;
    var start := cs[cursor].index;
    GroupContribution(cs, units, caret, selected, start, left, right, Span(left, right));
    forall s: Span ensures s in after <==> s in before || Contributes(cs, units, caret, selected, start, s) {
      GroupContribution(cs, units, caret, selected, start, left, right, s);
    }
    forall s: Span
      ensures s in after <==> exists k | 0 <= k < next :: Contributes(cs, units, caret, selected, cs[k].index, s)
    {
      if s in before {
        var k :| 0 <= k < cursor && Contributes(cs, units, caret, selected, cs[k].index, s);
        assert Contributes(cs, units, caret, selected, cs[k].index, s);
      } else if Contributes(cs, units, caret, selected, start, s) {
        assert Contributes(cs, units, caret, selected, cs[cursor].index, s);
      }
    }
    forall k | 0 <= k < next ensures !Fails(cs, units, caret, selected, cs[k].index) {
      if k >= cursor {
        assert cs[k].index == start;
      }
    }
  }

  ghost function Members(spans: seq<Span>): iset<Span> {
    iset s | s in spans
  }

  method Merge(spans: seq<Span>) returns (merged: seq<Span>)
    requires SortedBy(spans, (a: Span, b: Span) => a.left <= b.left)
    requires forall s | s in spans :: s.left <= s.right
    ensures IsMerge(Members(spans), merged)
  {
    hide Separated, Covers, TightEnds, NoHoles;
    merged := [];
    MergeOfNone(Members(spans[..0]));
    for n := 0 to |spans|
      invariant IsMerge(Members(spans[..n]), merged)
    {
      var s := spans[n];
      ghost var extended := Extend(merged, s);
      ExtendIsMerge(Members(spans[..n]), merged, s);
      assert spans[..n + 1] == spans[..n] + [s];
      assert Members(spans[..n + 1]) == Members(spans[..n]) + iset{s};
      if |merged| > 0 && s.left <= merged[|merged| - 1].right + GAP {
        merged := merged[|merged| - 1 := Span(merged[|merged| - 1].left, Max(merged[|merged| - 1].right, s.right))];
      } else {
        merged := merged + [s];
      }
      assert merged == extended;
    }
    assert spans[..|spans|] == spans;
  }

  lemma MergeOfNone(inputs: iset<Span>)
    requires inputs == iset{}
    ensures IsMerge(inputs, [])
  {
  }

  /** The visual intervals of a selected range. They are the merge of what the clusters of
      the whole line contribute, although the method reads only a few of them. */
  method VisualSpans(glyphs: seq<Glyph>, units: nat, caret: nat -> Option<real>, selected: Range)
    returns (r: Option<seq<Span>>)
    ensures var cs := Clusters(glyphs);
            var inputs := Contributions(cs, units, caret, selected);
            var fallback := caret(MinNat(selected.start, units));
            && (r.None? <==> AnyFails(cs, units, caret, selected) || (inputs == iset{} && fallback.None?))
            && (r.Some? && inputs != iset{} ==> IsMerge(inputs, r.value))
            && (r.Some? && inputs == iset{} ==> r.value == [Span(fallback.value, fallback.value)])
  {
    var kept := KeptClusters(glyphs, selected);
    ghost var cs := Clusters(glyphs);
    var clusters := Sort(kept, (a: Cluster, b: Cluster) => a.index <= b.index);
    SameMembers(clusters, kept);
    SortedByIndex(clusters);
    var raw := RawSpans(clusters, units, caret, selected);
    FilterKeepsAll(cs, units, caret, selected, clusters);
    if raw.None? {
      return None;
    }
    var spans := Sort(raw.value, (a: Span, b: Span) => a.left <= b.left);
    SameMembers(spans, raw.value);
    var merged := Merge(spans);
    assert Members(spans) == Contributions(cs, units, caret, selected);
    if merged == [] {
      MergeOfNothing(Members(spans));
      var x := caret(MinNat(selected.start, units));
      if x.None? {
        return None;
      }
      merged := [Span(x.value, x.value)];
    } else {
      MergeOfSomething(Members(spans), merged);
    }
    r := Some(merged);
  }

  lemma SortedByIndex(cs: seq<Cluster>)
    requires SortedBy(cs, (a: Cluster, b: Cluster) => a.index <= b.index)
    ensures forall i, j | 0 <= i < j < |cs| :: cs[i].index <= cs[j].index
  {
  }

  lemma FilterKeepsAll(cs: seq<Cluster>, units: nat, caret: nat -> Option<real>, selected: Range, kept: seq<Cluster>)
    requires IsKept(cs, selected, kept)
    ensures AnyFails(kept, units, caret, selected) <==> AnyFails(cs, units, caret, selected)
    ensures forall s :: Contributed(kept, units, caret, selected, s) <==> Contributed(cs, units, caret, selected, s)
  {
    hide Contributes, Fails;
    forall i: nat ensures Fails(kept, units, caret, selected, i) <==> Fails(cs, units, caret, selected, i) {
      FilterIsExact(cs, units, caret, selected, kept, i);
    }
    forall s ensures Contributed(kept, units, caret, selected, s) <==> Contributed(cs, units, caret, selected, s) {
      if i :| Contributes(kept, units, caret, selected, i, s) {
        FilterIsExact(cs, units, caret, selected, kept, i);
        assert Contributes(cs, units, caret, selected, i, s);
      }
      if i :| Contributes(cs, units, caret, selected, i, s) {
        FilterIsExact(cs, units, caret, selected, kept, i);
        assert Contributes(kept, units, caret, selected, i, s);
      }
    }
  }

  lemma MergeOfNothing(inputs: iset<Span>)
    requires IsMerge(inputs, [])
    ensures inputs == iset{}
  {
    forall s | s in inputs ensures false {
      var k := Owner(inputs, [], s);
    }
  }

  lemma MergeOfSomething(inputs: iset<Span>, merged: seq<Span>)
    requires IsMerge(inputs, merged) && merged != []
    ensures inputs != iset{}
  {
    var s := LeftEnd(inputs, merged, 0);
  }

  /** Every glyph of a wholly selected cluster lies inside one of the spans. */
  lemma GlyphIsShown(glyphs: seq<Glyph>, units: nat, caret: nat -> Option<real>, selected: Range, spans: seq<Span>,
                     g: Glyph)
    returns (k: nat)
    requires IsMerge(Contributions(Clusters(glyphs), units, caret, selected), spans)
    requires g in glyphs && WhollySelected(Clusters(glyphs), units, selected, g.index)
    ensures k < |spans|
    ensures spans[k].left <= g.x <= spans[k].right && spans[k].left <= g.x + g.advance <= spans[k].right
  {
    hide Contributes, IsMerge, WhollySelected;
    var cs := Clusters(glyphs);
    var j: nat :| j < |glyphs| && glyphs[j] == g;
    assert cs[j] in cs;
    var extent := ExtentExists(cs, g.index);
    WholeClusterContributes(cs, units, caret, selected, g.index, extent);
    assert Contributed(cs, units, caret, selected, extent);
    k := OwnerOf(Contributions(cs, units, caret, selected), spans, extent);
  }

  lemma OwnerOf(inputs: iset<Span>, spans: seq<Span>, s: Span) returns (k: nat)
    requires IsMerge(inputs, spans) && s in inputs
    ensures k < |spans| && spans[k].left <= s.left && s.right <= spans[k].right
  {
    k := Owner(inputs, spans, s);
  }

  /** On a wholly selected line the spans begin and end at edges of glyphs. */
  lemma SpansEndAtGlyphs(glyphs: seq<Glyph>, units: nat, caret: nat -> Option<real>, selected: Range, spans: seq<Span>,
                         k: nat)
    requires IsMerge(Contributions(Clusters(glyphs), units, caret, selected), spans) && k < |spans|
    requires forall g | g in glyphs :: selected.start <= g.index < units <= selected.end
    ensures exists g | g in glyphs :: spans[k].left == g.x || spans[k].left == g.x + g.advance
    ensures exists g | g in glyphs :: spans[k].right == g.x || spans[k].right == g.x + g.advance
  {
    hide Separated, Covers, NoHoles, Contributes, IsExtent;
    var cs := Clusters(glyphs);
    var inputs := Contributions(cs, units, caret, selected);
    var s := LeftEnd(inputs, spans, k);
    var t := RightEnd(inputs, spans, k);
    var c, d := ContributedEdges(glyphs, units, caret, selected, s);
    var c', d' := ContributedEdges(glyphs, units, caret, selected, t);
    assert c in glyphs && d' in glyphs;
  }

  /** On such a line a contributed span ends at edges of glyphs. */
  lemma ContributedEdges(glyphs: seq<Glyph>, units: nat, caret: nat -> Option<real>, selected: Range, s: Span)
    returns (first: Glyph, last: Glyph)
    requires Contributed(Clusters(glyphs), units, caret, selected, s)
    requires forall g | g in glyphs :: selected.start <= g.index < units <= selected.end
    ensures first in glyphs && last in glyphs
    ensures s.left == first.x || s.left == first.x + first.advance
    ensures s.right == last.x || s.right == last.x + last.advance
  {
    var cs := Clusters(glyphs);
    hide Contributes, IsExtent, WhollySelected, HasIndex;
    var i: nat :| Contributes(cs, units, caret, selected, i, s);
    ContributesHasIndex(cs, units, caret, selected, i, s);
    var c := ClusterAt(cs, i);
    var g := GlyphOf(glyphs, c);
    EndIsWithin(glyphs, units, selected, i);
    WholeClusterContributes(cs, units, caret, selected, i, s);
    var a, b := ExtentEdges(cs, i, s.left, s.right);
    first := GlyphOf(glyphs, a);
    last := GlyphOf(glyphs, b);
  }

  lemma ContributesHasIndex(cs: seq<Cluster>, units: nat, caret: nat -> Option<real>, selected: Range, i: nat, s: Span)
    requires Contributes(cs, units, caret, selected, i, s)
    ensures HasIndex(cs, i)
  {
  }

  lemma ClusterAt(cs: seq<Cluster>, i: nat) returns (c: Cluster)
    requires HasIndex(cs, i)
    ensures c in cs && c.index == i
  {
    c :| c in cs && c.index == i;
  }

  lemma ExtentEdges(cs: seq<Cluster>, i: nat, left: real, right: real) returns (a: Cluster, b: Cluster)
    requires IsExtent(cs, i, left, right)
    ensures a in cs && a.left == left && b in cs && b.right == right
  {
    a :| a in cs && a.index == i && a.left == left;
    b :| b in cs && b.index == i && b.right == right;
  }

  lemma GlyphOf(glyphs: seq<Glyph>, c: Cluster) returns (g: Glyph)
    requires c in Clusters(glyphs)
    ensures g in glyphs && ClusterOf(g) == c
  {
    var k: nat :| k < |glyphs| && Clusters(glyphs)[k] == c;
    g := glyphs[k];
  }

  lemma EndIsWithin(glyphs: seq<Glyph>, units: nat, selected: Range, i: nat)
    requires forall g | g in glyphs :: selected.start <= g.index < units <= selected.end
    requires selected.start <= i < units <= selected.end
    ensures WhollySelected(Clusters(glyphs), units, selected, i)
  {
    hide FirstFrom;
    var next := FirstFrom(Clusters(glyphs), i + 1);
    if next.Some? {
      var c := ClusterAt(Clusters(glyphs), next.value);
      var g := GlyphOf(glyphs, c);
    }
  }

  /** Two adjoining glyphs, all selected, are one span. */
  lemma TwoGlyphsAreOneSpan(caret: nat -> Option<real>, spans: seq<Span>)
    requires IsMerge(Contributions(Clusters([Glyph(0, 0.0, 10.0), Glyph(1, 10.0, 10.0)]), 2, caret, Range(0, 2)), spans)
    ensures spans == [Span(0.0, 20.0)]
  {
    var glyphs := [Glyph(0, 0.0, 10.0), Glyph(1, 10.0, 10.0)];
    var inputs := Contributions(Clusters(glyphs), 2, caret, Range(0, 2));
    assert WhollySelected(Clusters(glyphs), 2, Range(0, 2), 0) && WhollySelected(Clusters(glyphs), 2, Range(0, 2), 1);
    var j := GlyphIsShown(glyphs, 2, caret, Range(0, 2), spans, glyphs[0]);
    var k := GlyphIsShown(glyphs, 2, caret, Range(0, 2), spans, glyphs[1]);
    hide Contributions, IsMerge, WhollySelected;
    forall m: nat | m < |spans|
      ensures spans[m].left in {0.0, 10.0, 20.0} && spans[m].right in {0.0, 10.0, 20.0}
    {
      SpansEndAtGlyphs(glyphs, 2, caret, Range(0, 2), spans, m);
    }
    OneSpanLeft(inputs, spans, j, k);
  }

  lemma OneSpanLeft(inputs: iset<Span>, spans: seq<Span>, j: nat, k: nat)
    requires IsMerge(inputs, spans) && j < |spans| && k < |spans|
    requires spans[j].left <= 0.0 && 10.0 <= spans[j].right && spans[k].left <= 10.0 && 20.0 <= spans[k].right
    requires forall m: nat | m < |spans| ::
               spans[m].left in {0.0, 10.0, 20.0} && spans[m].right in {0.0, 10.0, 20.0}
    ensures spans == [Span(0.0, 20.0)]
  {
    NearIsSame(spans, j, k);
    NearIsSame(spans, j, 0);
    NearIsSame(spans, j, |spans| - 1);
  }

  /** Two spans of a separated list that come within the gap of each other are one. */
  lemma NearIsSame(spans: seq<Span>, j: nat, k: nat)
    requires Separated(spans) && j < |spans| && k < |spans|
    requires spans[j].left <= spans[k].right + GAP && spans[k].left <= spans[j].right + GAP
    ensures j == k
  {
  }

  lemma SameContributions(cs: seq<Cluster>, cs': seq<Cluster>, units: nat, caret: nat -> Option<real>, selected: Range)
    requires forall c: Cluster :: c in cs <==> c in cs'
    ensures Contributions(cs, units, caret, selected) == Contributions(cs', units, caret, selected)
  {
    hide FirstFrom, Narrowed;
    forall i: nat ensures End(cs, units, i) == End(cs', units, i) {
      SameFirstFrom(cs, cs', i + 1);
    }
    forall s: Span, i: nat
      ensures Contributes(cs, units, caret, selected, i, s) <==> Contributes(cs', units, caret, selected, i, s)
    {
      assert forall l, r :: IsExtent(cs, i, l, r) <==> IsExtent(cs', i, l, r);
    }
  }

  lemma SameFirstFrom(cs: seq<Cluster>, cs': seq<Cluster>, bound: nat)
    requires forall c: Cluster :: c in cs <==> c in cs'
    ensures FirstFrom(cs, bound) == FirstFrom(cs', bound)
  {
    hide FirstFrom;
    var a, b := FirstFrom(cs, bound), FirstFrom(cs', bound);
    if a.Some? {
      var c :| c in cs && c.index == a.value;
    }
    if b.Some? {
      var c :| c in cs' && c.index == b.value;
    }
  }

  /** The result cannot depend on the order in which the line lists its glyphs. */
  lemma OrderDoesNotMatter(glyphs: seq<Glyph>, glyphs': seq<Glyph>, units: nat, caret: nat -> Option<real>,
                           selected: Range, a: seq<Span>, b: seq<Span>)
    requires multiset(glyphs) == multiset(glyphs')
    requires IsMerge(Contributions(Clusters(glyphs), units, caret, selected), a)
    requires IsMerge(Contributions(Clusters(glyphs'), units, caret, selected), b)
    ensures a == b
  {
    var cs, cs' := Clusters(glyphs), Clusters(glyphs');
    SameMembers(glyphs, glyphs');
    forall c: Cluster ensures c in cs <==> c in cs' {
      if c in cs {
        var k :| 0 <= k < |cs| && cs[k] == c;
        assert glyphs[k] in glyphs';
        var j :| 0 <= j < |glyphs'| && glyphs'[j] == glyphs[k];
        assert cs'[j] == c;
      }
      if c in cs' {
        var k :| 0 <= k < |cs'| && cs'[k] == c;
        assert glyphs'[k] in glyphs;
        var j :| 0 <= j < |glyphs| && glyphs[j] == glyphs'[k];
        assert cs[j] == c;
      }
    }
    SameContributions(cs, cs', units, caret, selected);
    MergeIsUnique(Contributions(cs, units, caret, selected), a, b);
  }
}
