/** `summarize` and `summarize_trials` of `analysis.rs`. */
module Summaries {
  import opened Spread
  import opened Latency
  import opened Metrics
  import opened Stats

  datatype SummaryRow = SummaryRow(phase: string, name: string, unit: string, summary: Summary)

  datatype Key = Key(phase: string, name: string)

  function KeyOf(m: Metric): Key {
    Key(m.phase, m.name)
  }

  // ---------------------------------------------------------- specification

  /** The values recorded under a key, in order. */
  function ValuesOf(metrics: seq<Metric>, key: Key): seq<real> {
    if metrics == [] then []
    else
      var n := |metrics| - 1;
      ValuesOf(metrics[..n], key) + if KeyOf(metrics[n]) == key then [metrics[n].value] else []
  }

  predicate Seen(metrics: seq<Metric>, key: Key) {
    exists k | 0 <= k < |metrics| :: KeyOf(metrics[k]) == key
  }

  /** The index where a key is first seen. */
  ghost predicate FirstSeen(metrics: seq<Metric>, key: Key, k: nat) {
    && k < |metrics| && KeyOf(metrics[k]) == key
    && forall j | 0 <= j < k :: KeyOf(metrics[j]) != key
  }

  /** One row per key, in first-seen order, with the unit it was first seen with and a
      summary of exactly its values. */
  ghost predicate IsSummaryTable(metrics: seq<Metric>, rows: seq<SummaryRow>, first: seq<nat>) {
    && |first| == |rows|
    && (forall i, j | 0 <= i < j < |rows| :: first[i] < first[j])
    && (forall i {:trigger IsRowOf(metrics, rows[i], first[i])} | 0 <= i < |rows| ::
          IsRowOf(metrics, rows[i], first[i]))
    && AllHaveRows(metrics, rows)
  }

  ghost predicate IsRowOf(metrics: seq<Metric>, row: SummaryRow, k: nat) {
    && FirstSeen(metrics, RowKey(row), k)
    && row.unit == metrics[k].unit
    && IsSummary(ValuesOf(metrics, RowKey(row)), row.summary)
  }

  ghost predicate IsSummaryOf(metrics: seq<Metric>, rows: seq<SummaryRow>) {
    exists first: seq<nat> :: IsSummaryTable(metrics, rows, first)
  }

  ghost predicate AllHaveRows(metrics: seq<Metric>, rows: seq<SummaryRow>) {
    forall k {:trigger HasRow(rows, KeyOf(metrics[k]))} | 0 <= k < |metrics| :: HasRow(rows, KeyOf(metrics[k]))
  }

  ghost predicate HasRow(rows: seq<SummaryRow>, key: Key) {
    exists i | 0 <= i < |rows| :: RowKey(rows[i]) == key
  }

  function RowKey(row: SummaryRow): Key {
    Key(row.phase, row.name)
  }

  // -------------------------------------------------------------- summarize

  /** The first pass: keys in first-seen order and their values. */
  ghost predicate Grouped(metrics: seq<Metric>, order: seq<(Key, string)>, values: map<Key, seq<real>>, first: seq<nat>)
  {
    && |first| == |order|
    && (forall i, j | 0 <= i < j < |order| :: first[i] < first[j])
    && (forall i | 0 <= i < |order| ::
          FirstSeen(metrics, order[i].0, first[i]) && order[i].1 == metrics[first[i]].unit)
    && (forall k {:trigger Listed(order, KeyOf(metrics[k]))} | 0 <= k < |metrics| :: Listed(order, KeyOf(metrics[k])))
    && (forall key :: key in values <==> Seen(metrics, key))
    && (forall key | key in values :: values[key] == ValuesOf(metrics, key))
  }

  ghost predicate Listed(order: seq<(Key, string)>, key: Key) {
    exists i | 0 <= i < |order| :: order[i].0 == key
  }

  lemma {:induction false} ValuesOfSeen(metrics: seq<Metric>, key: Key)
    ensures ValuesOf(metrics, key) != [] <==> Seen(metrics, key)
  {
    if metrics != [] {
      var n := |metrics| - 1;
      ValuesOfSeen(metrics[..n], key);
      if k :| 0 <= k < |metrics| && KeyOf(metrics[k]) == key && k < n {
        assert KeyOf(metrics[..n][k]) == key;
      }
    }
  }

  lemma ValuesOfAppend(metrics: seq<Metric>, m: Metric, key: Key)
    ensures ValuesOf(metrics + [m], key) == ValuesOf(metrics, key) + if KeyOf(m) == key then [m.value] else []
  {
    assert (metrics + [m])[..|metrics|] == metrics;
  }

  lemma SeenAppend(metrics: seq<Metric>, m: Metric, key: Key)
    ensures Seen(metrics + [m], key) <==> Seen(metrics, key) || KeyOf(m) == key
    ensures !Seen(metrics, key) && KeyOf(m) == key ==> FirstSeen(metrics + [m], key, |metrics|)
  {
    var all := metrics + [m];
    if Seen(metrics, key) {
      var k :| 0 <= k < |metrics| && KeyOf(metrics[k]) == key;
      assert KeyOf(all[k]) == key;
    }
    if KeyOf(m) == key {
      assert KeyOf(all[|metrics|]) == key;
    }
    if Seen(all, key) {
      var k :| 0 <= k < |all| && KeyOf(all[k]) == key;
      if k < |metrics| {
        assert KeyOf(metrics[k]) == key;
      }
    }
    if !Seen(metrics, key) {
      assert forall j | 0 <= j < |metrics| :: KeyOf(metrics[j]) != key;
    }
  }

  lemma FirstSeenAppend(metrics: seq<Metric>, m: Metric, key: Key, k: nat)
    requires FirstSeen(metrics, key, k)
    ensures FirstSeen(metrics + [m], key, k) && k < |metrics| && (metrics + [m])[k] == metrics[k]
  {
  }

  lemma ListedAppend(order: seq<(Key, string)>, entry: (Key, string), key: Key)
    ensures Listed(order, key) || entry.0 == key ==> Listed(order + [entry], key)
  {
    var all := order + [entry];
    if Listed(order, key) {
      var i :| 0 <= i < |order| && order[i].0 == key;
      assert all[i].0 == key;
    } else if entry.0 == key {
      assert all[|order|].0 == key;
    }
  }

  /** A key not seen before goes to the end of the order. */
  lemma GroupedNew(metrics: seq<Metric>, m: Metric, order: seq<(Key, string)>, values: map<Key, seq<real>>,
                   first: seq<nat>)
    requires Grouped(metrics, order, values, first) && KeyOf(m) !in values
    ensures Grouped(metrics + [m], order + [(KeyOf(m), m.unit)], values[KeyOf(m) := [m.value]], first + [|metrics|])
  {
    hide ValuesOf, Seen, FirstSeen, Listed;
    var key, all := KeyOf(m), metrics + [m];
    SeenAppend(metrics, m, key);
    forall i | 0 <= i < |order|
      ensures FirstSeen(all, order[i].0, first[i]) && first[i] < |metrics| && all[first[i]] == metrics[first[i]]
    {
      FirstSeenAppend(metrics, m, order[i].0, first[i]);
    }
    forall k | 0 <= k < |all| ensures Listed(order + [(key, m.unit)], KeyOf(all[k])) {
      if k < |metrics| {
        assert Listed(order, KeyOf(metrics[k]));
      }
      ListedAppend(order, (key, m.unit), KeyOf(all[k]));
    }
    ValuesGrow(metrics, m, values, values[key := [m.value]]);
  }

  /** A key seen before only gains a value. */
  lemma GroupedOld(metrics: seq<Metric>, m: Metric, order: seq<(Key, string)>, values: map<Key, seq<real>>,
                   first: seq<nat>)
    requires Grouped(metrics, order, values, first) && KeyOf(m) in values
    ensures Grouped(metrics + [m], order, values[KeyOf(m) := values[KeyOf(m)] + [m.value]], first)
  {
    hide ValuesOf, Seen, FirstSeen, Listed;
    var key, all := KeyOf(m), metrics + [m];
    forall i | 0 <= i < |order|
      ensures FirstSeen(all, order[i].0, first[i]) && first[i] < |metrics| && all[first[i]] == metrics[first[i]]
    {
      FirstSeenAppend(metrics, m, order[i].0, first[i]);
    }
    var j := SeenAt(metrics, key);
    assert Listed(order, KeyOf(metrics[j]));
    forall k | 0 <= k < |all| ensures Listed(order, KeyOf(all[k])) {
      if k < |metrics| {
        assert Listed(order, KeyOf(metrics[k]));
      }
    }
    ValuesGrow(metrics, m, values, values[key := values[key] + [m.value]]);
  }

  lemma ValuesGrow(metrics: seq<Metric>, m: Metric, values: map<Key, seq<real>>, values': map<Key, seq<real>>)
    requires forall key :: key in values <==> Seen(metrics, key)
    requires forall key | key in values :: values[key] == ValuesOf(metrics, key)
    requires var key := KeyOf(m);
             values' == values[key := if key in values then values[key] + [m.value] else [m.value]]
    ensures forall key :: key in values' <==> Seen(metrics + [m], key)
    ensures forall key | key in values' :: values'[key] == ValuesOf(metrics + [m], key)
  {
    hide ValuesOf, Seen;
    forall key ensures key in values' <==> Seen(metrics + [m], key) {
      SeenAppend(metrics, m, key);
    }
    forall key | key in values' ensures values'[key] == ValuesOf(metrics + [m], key) {
      ValuesOfAppend(metrics, m, key);
      if key !in values {
        ValuesOfUnseen(metrics, key);
      }
    }
  }

  lemma SeenAt(metrics: seq<Metric>, key: Key) returns (k: nat)
    requires Seen(metrics, key)
    ensures k < |metrics| && KeyOf(metrics[k]) == key
  {
    k :| 0 <= k < |metrics| && KeyOf(metrics[k]) == key;
  }

  lemma ValuesOfUnseen(metrics: seq<Metric>, key: Key)
    ensures !Seen(metrics, key) ==> ValuesOf(metrics, key) == []
  {
    ValuesOfSeen(metrics, key);
  }

  /** The grouping loop: a row for every key, placed where the key first occurs. */
  method Summarize(metrics: seq<Metric>, root: real -> real) returns (rows: seq<SummaryRow>)
    requires IsRoot(root)
    ensures IsSummaryOf(metrics, rows)
  {
    hide ValuesOf, Seen, FirstSeen, IsSummary, Listed, Grouped, IsSummaryTable, IsRoot;
    var order: seq<(Key, string)> := [];
    var values: map<Key, seq<real>> := map[];
    ghost var first: seq<nat> := [];
    NothingGrouped();
    for k := 0 to |metrics|
      invariant Grouped(metrics[..k], order, values, first)
    {
      var m := metrics[k];
      var key := KeyOf(m);
      assert metrics[..k + 1] == metrics[..k] + [m];
      if key !in values {
        GroupedNew(metrics[..k], m, order, values, first);
        order := order + [(key, m.unit)];
        first := first + [k];
        values := values[key := [m.value]];
      } else {
        GroupedOld(metrics[..k], m, order, values, first);
        values := values[key := values[key] + [m.value]];
      }
    }
    assert metrics[..|metrics|] == metrics;
    rows := [];
    for i := 0 to |order|
      invariant |rows| == i
      invariant forall j | 0 <= j < i ::
                  && RowKey(rows[j]) == order[j].0 && rows[j].unit == order[j].1
                  && IsSummary(ValuesOf(metrics, order[j].0), rows[j].summary)
    {
      var (key, unit) := order[i];
      OrderHasValues(metrics, order, values, first, i);
      var summary := Spread.Summarize(values[key], root);
      rows := rows + [SummaryRow(key.phase, key.name, unit, summary.value)];
    }
    TableFromGroups(metrics, order, values, first, rows);
  }

  lemma NothingGrouped()
    ensures Grouped([], [], map[], [])
  {
  }

  lemma OrderHasValues(metrics: seq<Metric>, order: seq<(Key, string)>, values: map<Key, seq<real>>, first: seq<nat>,
                       i: nat)
    requires Grouped(metrics, order, values, first) && i < |order|
    ensures order[i].0 in values && values[order[i].0] == ValuesOf(metrics, order[i].0) != []
  {
    hide ValuesOf;
    assert FirstSeen(metrics, order[i].0, first[i]);
    assert Seen(metrics, order[i].0);
    ValuesOfSeen(metrics, order[i].0);
  }

  lemma TableFromGroups(metrics: seq<Metric>, order: seq<(Key, string)>, values: map<Key, seq<real>>, first: seq<nat>,
                        rows: seq<SummaryRow>)
    requires Grouped(metrics, order, values, first) && |rows| == |order|
    requires forall j | 0 <= j < |order| ::
               && RowKey(rows[j]) == order[j].0 && rows[j].unit == order[j].1
               && IsSummary(ValuesOf(metrics, order[j].0), rows[j].summary)
    ensures IsSummaryTable(metrics, rows, first)
  {
    hide ValuesOf, Seen, IsSummary;
    forall k | 0 <= k < |metrics| ensures HasRow(rows, KeyOf(metrics[k])) {
      assert Listed(order, KeyOf(metrics[k]));
      var i :| 0 <= i < |order| && order[i].0 == KeyOf(metrics[k]);
      assert RowKey(rows[i]) == KeyOf(metrics[k]);
    }
  }

  // ---------------------------------------------------------- the partition

  function TotalCount(rows: seq<SummaryRow>): nat {
    if rows == [] then 0 else TotalCount(rows[..|rows| - 1]) + rows[|rows| - 1].summary.n
  }

  /** The rows partition the metrics: their keys differ and their counts add up. */
  lemma RowsPartitionMetrics(metrics: seq<Metric>, rows: seq<SummaryRow>)
    requires IsSummaryOf(metrics, rows)
    ensures forall i, j | 0 <= i < j < |rows| :: RowKey(rows[i]) != RowKey(rows[j])
    ensures TotalCount(rows) == |metrics|
  {
    hide ValuesOf, AllHaveRows;
    var first: seq<nat> :| IsSummaryTable(metrics, rows, first);
    forall i, j | 0 <= i < j < |rows| ensures RowKey(rows[i]) != RowKey(rows[j]) {
      assert IsRowOf(metrics, rows[i], first[i]) && IsRowOf(metrics, rows[j], first[j]);
    }
    forall i | 0 <= i < |rows| ensures rows[i].summary.n == |ValuesOf(metrics, RowKey(rows[i]))| {
      assert IsRowOf(metrics, rows[i], first[i]);
    }
    RowCountsAddUp(metrics, rows);
  }

  lemma {:induction false} RowCountsAddUp(metrics: seq<Metric>, rows: seq<SummaryRow>)
    requires forall i, j | 0 <= i < j < |rows| :: RowKey(rows[i]) != RowKey(rows[j])
    requires AllHaveRows(metrics, rows)
    requires forall i | 0 <= i < |rows| :: rows[i].summary.n == |ValuesOf(metrics, RowKey(rows[i]))|
    ensures TotalCount(rows) == |metrics|
    decreases |rows|
  {
    hide ValuesOf, Without, HasRow;
    if rows == [] {
      if metrics != [] {
        NoRows(metrics);
      }
    } else {
      hide TotalCount;
      var n := |rows| - 1;
      TotalCountLast(rows);
      var key := RowKey(rows[n]);
      var rest := Without(metrics, key);
      assert forall i | 0 <= i < n :: ValuesOf(rest, RowKey(rows[i])) == ValuesOf(metrics, RowKey(rows[i])) by {
        forall i | 0 <= i < n ensures ValuesOf(rest, RowKey(rows[i])) == ValuesOf(metrics, RowKey(rows[i])) {
          WithoutKeepsOthers(metrics, key, RowKey(rows[i]));
        }
      }
      forall k | 0 <= k < |rest| ensures HasRow(rows[..n], KeyOf(rest[k])) {
        var j := WithoutIsPart(metrics, key, k);
        assert HasRow(rows, KeyOf(metrics[j]));
        HasEarlierRow(rows, KeyOf(metrics[j]));
      }
      RowCountsAddUp(rest, rows[..n]);
      WithoutCount(metrics, key);
    }
  }

  lemma NoRows(metrics: seq<Metric>)
    requires AllHaveRows(metrics, [])
    ensures metrics == []
  {
    assert metrics != [] ==> HasRow([], KeyOf(metrics[0]));
  }

  lemma TotalCountLast(rows: seq<SummaryRow>)
    requires rows != []
    ensures TotalCount(rows) == TotalCount(rows[..|rows| - 1]) + rows[|rows| - 1].summary.n
  {
  }

  lemma HasEarlierRow(rows: seq<SummaryRow>, key: Key)
    requires rows != [] && HasRow(rows, key) && RowKey(rows[|rows| - 1]) != key
    ensures HasRow(rows[..|rows| - 1], key)
  {
    var i :| 0 <= i < |rows| && RowKey(rows[i]) == key;
    assert RowKey(rows[..|rows| - 1][i]) == key;
  }

  ghost function Without(metrics: seq<Metric>, key: Key): seq<Metric> {
    if metrics == [] then []
    else
      var n := |metrics| - 1;
      Without(metrics[..n], key) + if KeyOf(metrics[n]) == key then [] else [metrics[n]]
  }

  lemma {:induction false} WithoutCount(metrics: seq<Metric>, key: Key)
    ensures |Without(metrics, key)| + |ValuesOf(metrics, key)| == |metrics|
  {
    if metrics != [] {
      WithoutCount(metrics[..|metrics| - 1], key);
    }
  }

  lemma {:induction false} WithoutKeepsOthers(metrics: seq<Metric>, key: Key, other: Key)
    requires other != key
    ensures ValuesOf(Without(metrics, key), other) == ValuesOf(metrics, other)
  {
    if metrics != [] {
      var n := |metrics| - 1;
      WithoutKeepsOthers(metrics[..n], key, other);
      if KeyOf(metrics[n]) == key {
        assert Without(metrics, key) == Without(metrics[..n], key);
      } else {
        ValuesOfAppend(Without(metrics[..n], key), metrics[n], other);
      }
    }
  }

  lemma {:induction false} WithoutIsPart(metrics: seq<Metric>, key: Key, k: nat) returns (j: nat)
    requires k < |Without(metrics, key)|
    ensures j < |metrics| && metrics[j] == Without(metrics, key)[k] && KeyOf(metrics[j]) != key
  {
    var n := |metrics| - 1;
    var before := Without(metrics[..n], key);
    assert Without(metrics, key) == before + if KeyOf(metrics[n]) == key then [] else [metrics[n]];
    if k < |before| {
      j := WithoutIsPart(metrics[..n], key, k);
      assert Without(metrics, key)[k] == before[k];
    } else {
      j := n;
    }
  }

  // --------------------------------------------------------- across trials

  const CHILD_FOOTPRINT := "footprint_child_max:"

  predicate IsChild(m: Metric) {
    CHILD_FOOTPRINT <= m.name
  }

  datatype Child = Child(key: Key, unit: string)

  function Flatten(trials: seq<seq<Metric>>): seq<Metric> {
    if trials == [] then [] else Flatten(trials[..|trials| - 1]) + trials[|trials| - 1]
  }

  /** The distinct child names of all trials, first seen first. */
  function ChildrenOf(metrics: seq<Metric>): seq<Child> {
    if metrics == [] then []
    else
      var n := |metrics| - 1;
      var before := ChildrenOf(metrics[..n]);
      var child := Child(KeyOf(metrics[n]), metrics[n].unit);
      if IsChild(metrics[n]) && child !in before then before + [child] else before
  }

  predicate RanPhase(trial: seq<Metric>, phase: string) {
    exists k | 0 <= k < |trial| :: trial[k].phase == phase
  }

  /** The zeros that a trial needs: one for each child it lacks in a phase that it ran. */
  function Missing(trial: seq<Metric>, children: seq<Child>): seq<Metric> {
    if children == [] then []
    else
      var n := |children| - 1;
      var c := children[n];
      Missing(trial, children[..n])
      + if RanPhase(trial, c.key.phase) && !Seen(trial, c.key) then [Metric(c.key.phase, c.key.name, 0.0, c.unit)]
        else []
  }

  function Filled(trials: seq<seq<Metric>>, children: seq<Child>): seq<Metric> {
    if trials == [] then []
    else
      var n := |trials| - 1;
      Filled(trials[..n], children) + trials[n] + Missing(trials[n], children)
  }

  /** Rows about keys survive only if every trial reports them with its qualification. */
  predicate Retained(trials: seq<seq<Metric>>, key: Key) {
    if "key_hash_change_" <= key.name then QualifiedEverywhere(trials, key, "key_hash_timing_complete")
    else if "key_to_screen_" <= key.name then QualifiedEverywhere(trials, key, "key_semantic_qualified")
    else true
  }

  predicate QualifiedEverywhere(trials: seq<seq<Metric>>, key: Key, qualification: string) {
    forall t | 0 <= t < |trials| :: Seen(trials[t], key) && Qualified(trials[t], Key(key.phase, qualification))
  }

  predicate Qualified(trial: seq<Metric>, qualification: Key) {
    exists k | 0 <= k < |trial| :: KeyOf(trial[k]) == qualification && trial[k].value == 1.0
  }

  function Retain(trials: seq<seq<Metric>>, rows: seq<SummaryRow>): seq<SummaryRow> {
    if rows == [] then []
    else
      var n := |rows| - 1;
      Retain(trials, rows[..n]) + if Retained(trials, RowKey(rows[n])) then [rows[n]] else []
  }

  method FindChildren(trials: seq<seq<Metric>>) returns (children: seq<Child>)
    ensures children == ChildrenOf(Flatten(trials))
  {
    children := [];
    var metrics := Flatten(trials);
    for k := 0 to |metrics|
      invariant children == ChildrenOf(metrics[..k])
    {
      var m := metrics[k];
      assert metrics[..k + 1][..k] == metrics[..k];
      var child := Child(KeyOf(m), m.unit);
      if IsChild(m) && child !in children {
        children := children + [child];
      }
    }
    assert metrics[..|metrics|] == metrics;
  }

  method Fill(trials: seq<seq<Metric>>, children: seq<Child>) returns (filled: seq<Metric>)
    ensures filled == Filled(trials, children)
  {
    filled := [];
    for t := 0 to |trials|
      invariant filled == Filled(trials[..t], children)
    {
      var trial := trials[t];
      assert trials[..t + 1][..t] == trials[..t];
      ghost var start := filled + trial;
      filled := filled + trial;
      for c := 0 to |children|
        invariant filled == start + Missing(trial, children[..c])
      {
        var child := children[c];
        assert children[..c + 1][..c] == children[..c];
        if RanPhase(trial, child.key.phase) && !Seen(trial, child.key) {
          filled := filled + [Metric(child.key.phase, child.key.name, 0.0, child.unit)];
        }
      }
      assert children[..|children|] == children;
    }
    assert trials[..|trials|] == trials;
  }

  /** The rows of filled trials that are kept. */
  ghost predicate AreRowsOf(trials: seq<seq<Metric>>, rows: seq<SummaryRow>) {
    exists table: seq<SummaryRow> ::
      IsSummaryOf(Filled(trials, ChildrenOf(Flatten(trials))), table) && rows == Retain(trials, table)
  }

  method SummarizeTrials(trials: seq<seq<Metric>>, root: real -> real) returns (rows: seq<SummaryRow>)
    requires IsRoot(root)
    ensures AreRowsOf(trials, rows)
  {
    hide IsSummaryOf, Retained, Filled, ChildrenOf, IsRoot;
    var children := FindChildren(trials);
    var filled := Fill(trials, children);
    var table := Summarize(filled, root);
    rows := [];
    for i := 0 to |table|
      invariant rows == Retain(trials, table[..i])
    {
      assert table[..i + 1][..i] == table[..i];
      if Retained(trials, RowKey(table[i])) {
        rows := rows + [table[i]];
      }
    }
    assert table[..|table|] == table;
  }

  // ------------------------------------------------ how many values a row has

  function Occurrences(trials: seq<seq<Metric>>, key: Key): nat {
    if trials == [] then 0
    else Occurrences(trials[..|trials| - 1], key) + |ValuesOf(trials[|trials| - 1], key)|
  }

  /** Trials that ran the phase without recording the key. */
  function Gaps(trials: seq<seq<Metric>>, key: Key): nat {
    if trials == [] then 0
    else
      var n := |trials| - 1;
      Gaps(trials[..n], key) + if RanPhase(trials[n], key.phase) && !Seen(trials[n], key) then 1 else 0
  }

  function PhaseRuns(trials: seq<seq<Metric>>, phase: string): nat {
    if trials == [] then 0
    else PhaseRuns(trials[..|trials| - 1], phase) + if RanPhase(trials[|trials| - 1], phase) then 1 else 0
  }

  /** How many of the children have this key: one for each unit it was reported in. */
  function Units(children: seq<Child>, key: Key): nat {
    if children == [] then 0
    else Units(children[..|children| - 1], key) + if children[|children| - 1].key == key then 1 else 0
  }

  function UnitsOf(metrics: seq<Metric>, key: Key): set<string> {
    set m | m in metrics && KeyOf(m) == key :: m.unit
  }

  /** How many values of a key one trial brings to the summary: its own, and the zeros that
      are filled in for it. */
  function Contribution(trial: seq<Metric>, children: seq<Child>, key: Key): nat {
    |ValuesOf(trial + Missing(trial, children), key)|
  }

  function TotalContribution(trials: seq<seq<Metric>>, children: seq<Child>, key: Key): nat {
    if trials == [] then 0
    else
      var n := |trials| - 1;
      TotalContribution(trials[..n], children, key) + Contribution(trials[n], children, key)
  }

  /** Each trial brings one value of the key. */
  ghost predicate OneEach(trials: seq<seq<Metric>>, key: Key) {
    forall t | 0 <= t < |trials| :: Contribution(trials[t], ChildrenOf(Flatten(trials)), key) == 1
  }

  /** No trial records the key twice. */
  ghost predicate NoRepeats(trials: seq<seq<Metric>>, key: Key) {
    forall t | 0 <= t < |trials| :: |ValuesOf(trials[t], key)| <= 1
  }

  lemma {:induction false} ValuesOfConcat(a: seq<Metric>, b: seq<Metric>, key: Key)
    ensures ValuesOf(a + b, key) == ValuesOf(a, key) + ValuesOf(b, key)
  {
    if b == [] {
      assert a + b == a;
    } else {
      var n := |b| - 1;
      assert a + b == (a + b[..n]) + [b[n]];
      ValuesOfConcat(a, b[..n], key);
      ValuesOfAppend(a + b[..n], b[n], key);
    }
  }

  lemma {:induction false} MissingCount(trial: seq<Metric>, children: seq<Child>, key: Key)
    ensures |ValuesOf(Missing(trial, children), key)|
            == if RanPhase(trial, key.phase) && !Seen(trial, key) then Units(children, key) else 0
  {
    if children != [] {
      var n := |children| - 1;
      var c := children[n];
      MissingCount(trial, children[..n], key);
      if RanPhase(trial, c.key.phase) && !Seen(trial, c.key) {
        ValuesOfAppend(Missing(trial, children[..n]), Metric(c.key.phase, c.key.name, 0.0, c.unit), key);
      } else {
        assert Missing(trial, children) == Missing(trial, children[..n]);
      }
    }
  }

  lemma {:induction false} MissingAreZeros(trial: seq<Metric>, children: seq<Child>, key: Key)
    ensures forall v | v in ValuesOf(Missing(trial, children), key) :: v == 0.0
  {
    if children != [] {
      var n := |children| - 1;
      var c := children[n];
      MissingAreZeros(trial, children[..n], key);
      if RanPhase(trial, c.key.phase) && !Seen(trial, c.key) {
        ValuesOfAppend(Missing(trial, children[..n]), Metric(c.key.phase, c.key.name, 0.0, c.unit), key);
      } else {
        assert Missing(trial, children) == Missing(trial, children[..n]);
      }
    }
  }

  lemma {:induction false} ZerosAddNothing(values: seq<real>)
    requires forall v | v in values :: v == 0.0
    ensures Total(values, Itself) == 0.0
  {
    if values != [] {
      var n := |values| - 1;
      assert forall v | v in values[..n] :: v in values;
      ZerosAddNothing(values[..n]);
      assert values[n] in values;
    }
  }

  /** Filling in leaves the sum of a key's values as it was recorded. */
  lemma {:induction false} FillKeepsSum(trials: seq<seq<Metric>>, children: seq<Child>, key: Key)
    ensures Total(ValuesOf(Filled(trials, children), key), Itself) == Total(ValuesOf(Flatten(trials), key), Itself)
  {
    if trials != [] {
      hide ValuesOf, Missing, Total;
      var n := |trials| - 1;
      FillKeepsSum(trials[..n], children, key);
      var before, trial, zeros := Filled(trials[..n], children), trials[n], Missing(trials[n], children);
      ValuesOfConcat(before + trial, zeros, key);
      ValuesOfConcat(before, trial, key);
      ValuesOfConcat(Flatten(trials[..n]), trial, key);
      MissingAreZeros(trial, children, key);
      ZerosAddNothing(ValuesOf(zeros, key));
      TotalConcat(ValuesOf(before, key) + ValuesOf(trial, key), ValuesOf(zeros, key), Itself);
      TotalConcat(ValuesOf(before, key), ValuesOf(trial, key), Itself);
      TotalConcat(ValuesOf(Flatten(trials[..n]), key), ValuesOf(trial, key), Itself);
    }
  }

  /** What one trial brings. */
  lemma ContributionIsExact(trial: seq<Metric>, children: seq<Child>, key: Key)
    ensures Contribution(trial, children, key)
         == if Seen(trial, key) then |ValuesOf(trial, key)|
            else if RanPhase(trial, key.phase) then Units(children, key)
            else 0
  {
    hide ValuesOf, Missing, Units, Seen, RanPhase;
    ValuesOfConcat(trial, Missing(trial, children), key);
    MissingCount(trial, children, key);
    ValuesOfSeen(trial, key);
  }

  /** The values behind every row are what the trials bring. */
  lemma {:induction false} FilledIsContributed(trials: seq<seq<Metric>>, children: seq<Child>, key: Key)
    ensures |ValuesOf(Filled(trials, children), key)| == TotalContribution(trials, children, key)
  {
    if trials != [] {
      hide ValuesOf, Missing;
      var n := |trials| - 1;
      FilledIsContributed(trials[..n], children, key);
      var before, trial, zeros := Filled(trials[..n], children), trials[n], Missing(trials[n], children);
      assert before + trial + zeros == before + (trial + zeros);
      ValuesOfConcat(before, trial + zeros, key);
    }
  }

  /** The exact number of values behind every row: every occurrence and, for each gap, one
      zero per unit that the child was reported in. */
  lemma {:induction false} FilledCount(trials: seq<seq<Metric>>, children: seq<Child>, key: Key)
    ensures |ValuesOf(Filled(trials, children), key)|
         == Occurrences(trials, key) + Units(children, key) * Gaps(trials, key)
  {
    hide ValuesOf, Filled, Units, Seen, RanPhase, Contribution;
    FilledIsContributed(trials, children, key);
    if trials != [] {
      var n := |trials| - 1;
      FilledCount(trials[..n], children, key);
      FilledIsContributed(trials[..n], children, key);
      ContributionIsExact(trials[n], children, key);
      ValuesOfSeen(trials[n], key);
      OneMoreGap(Units(children, key), Gaps(trials[..n], key));
    }
  }

  lemma OneMoreGap(units: nat, gaps: nat)
    ensures units * (gaps + 1) == units * gaps + units
  {
  }

  lemma {:induction false} OneValuePerRun(trials: seq<seq<Metric>>, key: Key)
    requires NoRepeats(trials, key)
    ensures Occurrences(trials, key) + Gaps(trials, key) == PhaseRuns(trials, key.phase)
  {
    if trials != [] {
      var n := |trials| - 1;
      OneValuePerRun(trials[..n], key);
      ValuesOfSeen(trials[n], key);
      if Seen(trials[n], key) {
        var k := SeenAt(trials[n], key);
        assert trials[n][k].phase == key.phase;
      }
    }
  }

  lemma {:induction false} ChildrenHaveUnits(metrics: seq<Metric>, key: Key, unit: string)
    ensures Child(key, unit) in ChildrenOf(metrics) <==> CHILD_FOOTPRINT <= key.name && unit in UnitsOf(metrics, key)
  {
    if metrics != [] {
      var n := |metrics| - 1;
      ChildrenHaveUnits(metrics[..n], key, unit);
      UnitsOfAppend(metrics[..n], metrics[n], key);
      assert metrics == metrics[..n] + [metrics[n]];
    }
  }

  lemma OneMoreChild(metrics: seq<Metric>, m: Metric, key: Key)
    ensures Units(ChildrenOf(metrics + [m]), key)
         == Units(ChildrenOf(metrics), key)
            + if CHILD_FOOTPRINT <= key.name && KeyOf(m) == key && Child(key, m.unit) !in ChildrenOf(metrics) then 1
              else 0
  {
    var before, all := ChildrenOf(metrics), metrics + [m];
    assert all[..|all| - 1] == metrics;
    var more := before + [Child(KeyOf(m), m.unit)];
    assert more[..|more| - 1] == before;
  }

  /** Only names with the prefix are filled in, once for every unit they were reported in. */
  lemma {:induction false} UnitsAreDistinct(metrics: seq<Metric>, key: Key)
    ensures Units(ChildrenOf(metrics), key) == if CHILD_FOOTPRINT <= key.name then |UnitsOf(metrics, key)| else 0
  {
    if metrics == [] {
      assert UnitsOf(metrics, key) == {};
    } else {
      hide UnitsOf, ChildrenOf, Units;
      var n := |metrics| - 1;
      UnitsAreDistinct(metrics[..n], key);
      UnitsOfAppend(metrics[..n], metrics[n], key);
      ChildrenHaveUnits(metrics[..n], key, metrics[n].unit);
      OneMoreChild(metrics[..n], metrics[n], key);
      assert metrics == metrics[..n] + [metrics[n]];
    }
  }

  lemma UnitsOfAppend(metrics: seq<Metric>, m: Metric, key: Key)
    ensures UnitsOf(metrics + [m], key) == UnitsOf(metrics, key) + if KeyOf(m) == key then {m.unit} else {}
  {
    assert forall x :: x in metrics + [m] <==> x in metrics || x == m;
  }

  lemma UnitsOfSeen(metrics: seq<Metric>, key: Key)
    ensures UnitsOf(metrics, key) != {} <==> Seen(metrics, key)
  {
    if Seen(metrics, key) {
      var k := SeenAt(metrics, key);
      assert metrics[k].unit in UnitsOf(metrics, key);
    }
  }

  lemma Surplus(n: nat, occurrences: nat, units: nat, gaps: nat, runs: nat, trials: nat)
    requires n == occurrences + units * gaps && occurrences + gaps == runs
    ensures n == runs + (units - 1) * gaps
    ensures n == runs <==> units == 1 || gaps == 0
    ensures n == trials <==> (units - 1) * gaps == trials - runs
  {
    assert (units - 1) * gaps == units * gaps - gaps;
    if units >= 2 && gaps > 0 {
      assert units * gaps >= 2 * gaps;
    }
  }

  /** What is kept: every row that qualifies, in the same order. */
  lemma {:induction false} RetainIsExact(trials: seq<seq<Metric>>, rows: seq<SummaryRow>, row: SummaryRow)
    ensures row in Retain(trials, rows) <==> row in rows && Retained(trials, RowKey(row))
    ensures |Retain(trials, rows)| <= |rows|
  {
    hide Retained;
    if rows != [] {
      var n := |rows| - 1;
      RetainIsExact(trials, rows[..n], row);
      assert rows == rows[..n] + [rows[n]];
    }
  }

  // ------------------------------------------------------- the n of a returned row

  lemma {:induction false} OccurrencesAreValues(trials: seq<seq<Metric>>, key: Key)
    ensures Occurrences(trials, key) == |ValuesOf(Flatten(trials), key)|
  {
    if trials != [] {
      var n := |trials| - 1;
      OccurrencesAreValues(trials[..n], key);
      ValuesOfConcat(Flatten(trials[..n]), trials[n], key);
    }
  }

  /** Filling in brings no key that no trial recorded, and loses none. */
  lemma FilledKeys(trials: seq<seq<Metric>>, key: Key)
    ensures Seen(Filled(trials, ChildrenOf(Flatten(trials))), key) <==> Seen(Flatten(trials), key)
  {
    hide ValuesOf, Filled, ChildrenOf, Units, Gaps, Occurrences, Seen, Flatten, UnitsOf, TotalContribution;
    var children := ChildrenOf(Flatten(trials));
    FilledCount(trials, children, key);
    OccurrencesAreValues(trials, key);
    ValuesOfSeen(Flatten(trials), key);
    ValuesOfSeen(Filled(trials, children), key);
    UnitsAreDistinct(Flatten(trials), key);
    UnitsOfSeen(Flatten(trials), key);
  }

  /** A returned row's n counts the filled values of its key. */
  lemma RowCountsValues(trials: seq<seq<Metric>>, rows: seq<SummaryRow>, row: SummaryRow)
    requires AreRowsOf(trials, rows) && row in rows
    ensures row.summary.n == |ValuesOf(Filled(trials, ChildrenOf(Flatten(trials))), RowKey(row))|
    ensures Seen(Flatten(trials), RowKey(row)) && Retained(trials, RowKey(row))
  {
    hide ValuesOf, Filled, ChildrenOf, Flatten, Retained, Retain, AllHaveRows;
    var filled := Filled(trials, ChildrenOf(Flatten(trials)));
    var table: seq<SummaryRow> :| IsSummaryOf(filled, table) && rows == Retain(trials, table);
    RetainIsExact(trials, table, row);
    var first: seq<nat> :| IsSummaryTable(filled, table, first);
    var i: nat :| i < |table| && table[i] == row;
    assert IsRowOf(filled, table[i], first[i]);
    assert FirstSeen(filled, RowKey(row), first[i]);
    FilledKeys(trials, RowKey(row));
  }

  lemma KeyHasRow(trials: seq<seq<Metric>>, rows: seq<SummaryRow>, key: Key)
    requires AreRowsOf(trials, rows) && Seen(Flatten(trials), key) && Retained(trials, key)
    ensures HasRow(rows, key)
  {
    hide ValuesOf, Filled, ChildrenOf, Flatten, Retain, Retained, FirstSeen, IsSummary;
    var filled := Filled(trials, ChildrenOf(Flatten(trials)));
    var table: seq<SummaryRow> :| IsSummaryOf(filled, table) && rows == Retain(trials, table);
    FilledKeys(trials, key);
    var k := SeenAt(filled, key);
    assert HasRow(table, key);
    var i: nat :| i < |table| && RowKey(table[i]) == key;
    RetainIsExact(trials, table, table[i]);
    var j: nat :| j < |rows| && rows[j] == table[i];
  }

  /** The keys that have rows: those that some trial recorded and the filter keeps. */
  lemma RowsAreKeys(trials: seq<seq<Metric>>, rows: seq<SummaryRow>, key: Key)
    requires AreRowsOf(trials, rows)
    ensures HasRow(rows, key) <==> Seen(Flatten(trials), key) && Retained(trials, key)
  {
    hide AreRowsOf, Flatten, Retained, Seen;
    if HasRow(rows, key) {
      var i: nat :| i < |rows| && RowKey(rows[i]) == key;
      RowCountsValues(trials, rows, rows[i]);
    }
    if Seen(Flatten(trials), key) && Retained(trials, key) {
      KeyHasRow(trials, rows, key);
    }
  }

  // ------------------------------------------------------------ key timing rows

  predicate Records(trial: seq<Metric>, phase: string, name: string, value: real) {
    exists m | m in trial :: m.phase == phase && m.name == name && m.value == value
  }

  /** Which rows are returned, by name: hash timing needs every trial complete, screen timing
      needs every trial qualified, and any other metric only needs to be recorded. */
  lemma KeyTimingRows(trials: seq<seq<Metric>>, rows: seq<SummaryRow>, key: Key)
    requires AreRowsOf(trials, rows)
    ensures "key_hash_change_" <= key.name ==>
              (HasRow(rows, key) <==>
                 && Seen(Flatten(trials), key)
                 && forall t | 0 <= t < |trials| ::
                      Seen(trials[t], key) && Records(trials[t], key.phase, "key_hash_timing_complete", 1.0))
    ensures "key_to_screen_" <= key.name ==>
              (HasRow(rows, key) <==>
                 && Seen(Flatten(trials), key)
                 && forall t | 0 <= t < |trials| ::
                      Seen(trials[t], key) && Records(trials[t], key.phase, "key_semantic_qualified", 1.0))
    ensures !("key_hash_change_" <= key.name) && !("key_to_screen_" <= key.name) ==>
              (HasRow(rows, key) <==> Seen(Flatten(trials), key))
  {
    hide AreRowsOf, Flatten, Seen;
    RowsAreKeys(trials, rows, key);
    assert "key_hash_change_" <= key.name ==> key.name[4] == 'h';
    assert "key_to_screen_" <= key.name ==> key.name[4] == 't';
    forall t | 0 <= t < |trials|
      ensures Records(trials[t], key.phase, "key_hash_timing_complete", 1.0)
              <==> Qualified(trials[t], Key(key.phase, "key_hash_timing_complete"))
      ensures Records(trials[t], key.phase, "key_semantic_qualified", 1.0)
              <==> Qualified(trials[t], Key(key.phase, "key_semantic_qualified"))
    {
      RecordsAt(trials[t], key.phase, "key_hash_timing_complete");
      RecordsAt(trials[t], key.phase, "key_semantic_qualified");
    }
  }

  lemma RecordsAt(trial: seq<Metric>, phase: string, name: string)
    ensures Records(trial, phase, name, 1.0) <==> Qualified(trial, Key(phase, name))
  {
    if k :| 0 <= k < |trial| && KeyOf(trial[k]) == Key(phase, name) && trial[k].value == 1.0 {
      assert trial[k] in trial;
    }
    if m :| m in trial && m.phase == phase && m.name == name && m.value == 1.0 {
      var k :| 0 <= k < |trial| && trial[k] == m;
    }
  }

  /** The trials hold the reports of `latency_metrics` on one phase, and record the two
      qualifications of that phase nowhere else. */
  ghost predicate HoldReports(trials: seq<seq<Metric>>, phase: string, ks: seq<KeyLatencies>, sent: seq<nat>,
                              reports: seq<seq<Metric>>)
  {
    && |ks| == |sent| == |reports| == |trials|
    && forall t | 0 <= t < |trials| ::
         && IsReport(phase, ks[t], sent[t], reports[t])
         && (forall m | m in reports[t] :: m in trials[t])
         && forall m | m in trials[t] && m.phase == phase
                       && m.name in {"key_hash_timing_complete", "key_semantic_qualified"} :: m in reports[t]
  }

  /** A percentile of hash timing has a row exactly if the analysis of every trial was complete:
      one trial with a late, missed or ambiguous key drops it for all. */
  lemma HashRowsNeedCompleteTrials(trials: seq<seq<Metric>>, rows: seq<SummaryRow>, phase: string,
                                   ks: seq<KeyLatencies>, sent: seq<nat>, reports: seq<seq<Metric>>, p: string)
    requires AreRowsOf(trials, rows) && trials != [] && HoldReports(trials, phase, ks, sent, reports)
    requires p in {"p50", "p95", "max"}
    ensures HasRow(rows, Key(phase, "key_hash_change_" + p)) <==>
              forall t | 0 <= t < |trials| :: Complete(ks[t], sent[t])
  {
    hide AreRowsOf, IsReport, Complete, HasRow, Flatten, Seen;
    var key := Key(phase, "key_hash_change_" + p);
    KeyTimingRows(trials, rows, key);
    forall t | 0 <= t < |trials|
      ensures Records(trials[t], phase, "key_hash_timing_complete", 1.0) <==> Complete(ks[t], sent[t])
      ensures Complete(ks[t], sent[t]) ==> Seen(trials[t], key)
    {
      FlagIsComplete(phase, ks[t], sent[t], reports[t], trials[t]);
      PercentileIsReported(phase, ks[t], sent[t], reports[t], trials[t], p);
    }
    if Seen(trials[0], key) {
      SeenInFlatten(trials, 0, key);
    }
  }

  lemma FlagIsComplete(phase: string, k: KeyLatencies, sent: nat, report: seq<Metric>, trial: seq<Metric>)
    requires IsReport(phase, k, sent, report) && forall m | m in report :: m in trial
    requires forall m | m in trial && m.phase == phase && m.name == "key_hash_timing_complete" :: m in report
    ensures Records(trial, phase, "key_hash_timing_complete", 1.0) <==> Complete(k, sent)
  {
    hide Complete, IsNearestRank;
    if m :| m in trial && m.phase == phase && m.name == "key_hash_timing_complete" && m.value == 1.0 {
      ReportByName(phase, k, sent, report, m);
    }
    var flag := report[6];
    assert report[..9][6] == flag && flag in report;
  }

  lemma PercentileIsReported(phase: string, k: KeyLatencies, sent: nat, report: seq<Metric>, trial: seq<Metric>,
                             p: string)
    requires IsReport(phase, k, sent, report) && (forall m | m in report :: m in trial) && p in {"p50", "p95", "max"}
    ensures Complete(k, sent) ==> Seen(trial, Key(phase, "key_hash_change_" + p))
  {
    hide Complete, IsNearestRank;
    if Complete(k, sent) {
      var i := if p == "p50" then 9 else if p == "p95" then 10 else 11;
      assert report[i].name == "key_hash_change_" + p;
      assert report[i] in report;
      var j :| 0 <= j < |trial| && trial[j] == report[i];
      assert KeyOf(trial[j]) == Key(phase, "key_hash_change_" + p);
    }
  }

  lemma {:induction false} SeenInFlatten(trials: seq<seq<Metric>>, t: nat, key: Key)
    requires t < |trials| && Seen(trials[t], key)
    ensures Seen(Flatten(trials), key)
  {
    var n := |trials| - 1;
    var front := Flatten(trials[..n]);
    if t < n {
      SeenInFlatten(trials[..n], t, key);
      var k := SeenAt(front, key);
      assert Flatten(trials)[k] == front[k];
    } else {
      var k := SeenAt(trials[n], key);
      assert Flatten(trials)[|front| + k] == trials[n][k];
    }
  }

  /** Hash timing alone never yields a row of screen timing. */
  lemma HashTimingHasNoScreenRow(trials: seq<seq<Metric>>, rows: seq<SummaryRow>, phase: string, ks: seq<KeyLatencies>,
                                 sent: seq<nat>, reports: seq<seq<Metric>>, name: string)
    requires AreRowsOf(trials, rows) && trials != [] && HoldReports(trials, phase, ks, sent, reports)
    requires "key_to_screen_" <= name
    ensures !HasRow(rows, Key(phase, name))
  {
    hide AreRowsOf, IsReport, Complete, HasRow, Flatten, Seen;
    KeyTimingRows(trials, rows, Key(phase, name));
    if Records(trials[0], phase, "key_semantic_qualified", 1.0) {
      var m :| m in trials[0] && m.phase == phase && m.name == "key_semantic_qualified" && m.value == 1.0;
      HashTimingIsUnqualified(phase, ks[0], sent[0], reports[0], m);
    }
  }

  // ---------------------------------------------------------- one value per trial

  /** The trial recorded the key once; or it ran the phase without it, the key is a child's,
      and the trials report it in one unit. */
  predicate HasOneValue(trial: seq<Metric>, metrics: seq<Metric>, key: Key) {
    if Seen(trial, key) then |ValuesOf(trial, key)| == 1
    else RanPhase(trial, key.phase) && CHILD_FOOTPRINT <= key.name && |UnitsOf(metrics, key)| == 1
  }

  lemma TrialBringsOneValue(trial: seq<Metric>, metrics: seq<Metric>, key: Key)
    ensures Contribution(trial, ChildrenOf(metrics), key) == 1 <==> HasOneValue(trial, metrics, key)
  {
    hide ValuesOf, ChildrenOf, Units, UnitsOf, Seen, RanPhase, Contribution;
    ContributionIsExact(trial, ChildrenOf(metrics), key);
    UnitsAreDistinct(metrics, key);
  }

  /** When each trial brings one value of a row; then n is the number of trials. */
  lemma RowHasOneValuePerTrial(trials: seq<seq<Metric>>, rows: seq<SummaryRow>, row: SummaryRow)
    requires AreRowsOf(trials, rows) && row in rows
    ensures OneEach(trials, RowKey(row)) <==>
              forall t | 0 <= t < |trials| :: HasOneValue(trials[t], Flatten(trials), RowKey(row))
    ensures OneEach(trials, RowKey(row)) ==> row.summary.n == |trials|
  {
    hide ValuesOf, Filled, ChildrenOf, Flatten, AreRowsOf, HasOneValue, Contribution, TotalContribution;
    var key, metrics := RowKey(row), Flatten(trials);
    var children := ChildrenOf(metrics);
    forall t | 0 <= t < |trials|
      ensures Contribution(trials[t], children, key) == 1 <==> HasOneValue(trials[t], metrics, key)
    {
      TrialBringsOneValue(trials[t], metrics, key);
    }
    RowCountsValues(trials, rows, row);
    FilledIsContributed(trials, children, key);
    if OneEach(trials, key) {
      OnesAddUp(trials, children, key);
    }
  }

  lemma {:induction false} OnesAddUp(trials: seq<seq<Metric>>, children: seq<Child>, key: Key)
    requires forall t | 0 <= t < |trials| :: Contribution(trials[t], children, key) == 1
    ensures TotalContribution(trials, children, key) == |trials|
  {
    if trials != [] {
      OnesAddUp(trials[..|trials| - 1], children, key);
    }
  }

  /** The whole table: every row has one value per trial exactly if, for every recorded key
      that the filter keeps, each trial either recorded it once, or ran its phase without it
      while it is a child that is reported in one unit. */
  lemma EveryRowHasOneValuePerTrial(trials: seq<seq<Metric>>, rows: seq<SummaryRow>)
    requires AreRowsOf(trials, rows)
    ensures (forall row | row in rows :: OneEach(trials, RowKey(row))) <==>
              forall m, t | m in Flatten(trials) && Retained(trials, KeyOf(m)) && 0 <= t < |trials| ::
                HasOneValue(trials[t], Flatten(trials), KeyOf(m))
  {
    hide ValuesOf, Flatten, AreRowsOf, HasOneValue, Retained, OneEach;
    var metrics := Flatten(trials);
    forall row | row in rows
      ensures OneEach(trials, RowKey(row)) <==>
                forall t | 0 <= t < |trials| :: HasOneValue(trials[t], metrics, RowKey(row))
      ensures Retained(trials, RowKey(row)) && exists m :: m in metrics && KeyOf(m) == RowKey(row)
    {
      RowHasOneValuePerTrial(trials, rows, row);
      RowCountsValues(trials, rows, row);
      var k := SeenAt(metrics, RowKey(row));
      assert metrics[k] in metrics;
    }
    forall m | m in metrics && Retained(trials, KeyOf(m)) ensures HasRow(rows, KeyOf(m)) {
      var k: nat :| k < |metrics| && metrics[k] == m;
      RowsAreKeys(trials, rows, KeyOf(m));
    }
  }

  /** The exact n of every returned row: all occurrences, and one zero per unit for each gap.
      If no trial repeats the key, that is one value for each trial that ran the phase,
      corrected for the units: one each exactly if there is one unit or no gap. As a total it
      can be the number of trials although one trial brings two values and another none. */
  lemma RowCountIsExact(trials: seq<seq<Metric>>, rows: seq<SummaryRow>, row: SummaryRow)
    requires AreRowsOf(trials, rows) && row in rows
    ensures var units, gaps := Units(ChildrenOf(Flatten(trials)), RowKey(row)), Gaps(trials, RowKey(row));
            var runs := PhaseRuns(trials, row.phase);
            && row.summary.n == Occurrences(trials, RowKey(row)) + units * gaps
            && row.summary.n == TotalContribution(trials, ChildrenOf(Flatten(trials)), RowKey(row))
            && (NoRepeats(trials, RowKey(row)) ==>
                  && row.summary.n == runs + (units - 1) * gaps
                  && (row.summary.n == runs <==> units == 1 || gaps == 0)
                  && (row.summary.n == |trials| <==> (units - 1) * gaps == |trials| - runs))
  {
    hide ValuesOf, Filled, ChildrenOf, Units, Gaps, Occurrences, PhaseRuns, Seen, Flatten, AreRowsOf;
    hide NoRepeats, TotalContribution;
    var key := RowKey(row);
    RowCountsValues(trials, rows, row);
    FilledCount(trials, ChildrenOf(Flatten(trials)), key);
    FilledIsContributed(trials, ChildrenOf(Flatten(trials)), key);
    if NoRepeats(trials, key) {
      OneValuePerRun(trials, key);
      Surplus(row.summary.n, Occurrences(trials, key), Units(ChildrenOf(Flatten(trials)), key), Gaps(trials, key),
              PhaseRuns(trials, row.phase), |trials|);
    }
  }

  /** A gap counts as zero: the mean of every returned row, times its n, is the sum of the values
      that were recorded, and a row with a gap reaches down to zero. */
  lemma GapsCountAsZero(trials: seq<seq<Metric>>, rows: seq<SummaryRow>, row: SummaryRow)
    requires AreRowsOf(trials, rows) && row in rows
    ensures row.summary.mean * row.summary.n as real == Total(ValuesOf(Flatten(trials), RowKey(row)), Itself)
    ensures row.summary.n > Occurrences(trials, RowKey(row)) ==> row.summary.min <= 0.0 <= row.summary.max
  {
    hide ValuesOf, Filled, ChildrenOf, Flatten, AreRowsOf, IsMedian, IsDeviation, IsInterval, Total;
    var children := ChildrenOf(Flatten(trials));
    RowIsSummary(trials, rows, row);
    FillKeepsSum(trials, children, RowKey(row));
    FilledCount(trials, children, RowKey(row));
    if row.summary.n > Occurrences(trials, RowKey(row)) {
      var k := ZeroIsFilled(trials, children, RowKey(row));
    }
  }

  lemma RowIsSummary(trials: seq<seq<Metric>>, rows: seq<SummaryRow>, row: SummaryRow)
    requires AreRowsOf(trials, rows) && row in rows
    ensures IsSummary(ValuesOf(Filled(trials, ChildrenOf(Flatten(trials))), RowKey(row)), row.summary)
  {
    hide ValuesOf, Filled, ChildrenOf, Flatten, Retained, Retain, AllHaveRows, IsSummary;
    var filled := Filled(trials, ChildrenOf(Flatten(trials)));
    var table: seq<SummaryRow> :| IsSummaryOf(filled, table) && rows == Retain(trials, table);
    RetainIsExact(trials, table, row);
    var first: seq<nat> :| IsSummaryTable(filled, table, first);
    var i: nat :| i < |table| && table[i] == row;
    assert IsRowOf(filled, table[i], first[i]);
  }

  lemma {:induction false} ZeroIsFilled(trials: seq<seq<Metric>>, children: seq<Child>, key: Key) returns (k: nat)
    requires |ValuesOf(Filled(trials, children), key)| > Occurrences(trials, key)
    ensures k < |ValuesOf(Filled(trials, children), key)| && ValuesOf(Filled(trials, children), key)[k] == 0.0
  {
    hide ValuesOf, Missing;
    ValuesOfUnseen([], key);
    var n := |trials| - 1;
    var before, trial, zeros := Filled(trials[..n], children), trials[n], Missing(trials[n], children);
    ValuesOfConcat(before + trial, zeros, key);
    ValuesOfConcat(before, trial, key);
    if |ValuesOf(zeros, key)| > 0 {
      MissingAreZeros(trial, children, key);
      k := |ValuesOf(before, key)| + |ValuesOf(trial, key)|;
      assert ValuesOf(zeros, key)[0] in ValuesOf(zeros, key);
    } else {
      k := ZeroIsFilled(trials[..n], children, key);
    }
  }

  lemma {:induction false} EveryTrialRan(trials: seq<seq<Metric>>, phase: string)
    ensures PhaseRuns(trials, phase) <= |trials|
    ensures PhaseRuns(trials, phase) == |trials| <==> forall t | 0 <= t < |trials| :: RanPhase(trials[t], phase)
  {
    hide RanPhase;
    if trials != [] {
      var n := |trials| - 1;
      EveryTrialRan(trials[..n], phase);
      assert forall t | 0 <= t < n :: trials[..n][t] == trials[t];
    }
  }

  /** A child that is always reported in one unit has one value per trial exactly if every
      trial ran its phase and none recorded it twice. Without repeats it has one value for
      each trial that ran its phase. */
  lemma ChildRowHasOneValuePerRun(trials: seq<seq<Metric>>, rows: seq<SummaryRow>, row: SummaryRow, unit: string)
    requires AreRowsOf(trials, rows) && row in rows && CHILD_FOOTPRINT <= row.name
    requires UnitsOf(Flatten(trials), RowKey(row)) == {unit}
    ensures OneEach(trials, RowKey(row)) <==>
              NoRepeats(trials, RowKey(row)) && forall t | 0 <= t < |trials| :: RanPhase(trials[t], row.phase)
    ensures NoRepeats(trials, RowKey(row)) ==> row.summary.n == PhaseRuns(trials, row.phase)
    ensures NoRepeats(trials, RowKey(row)) ==>
              (row.summary.n == |trials| <==> forall t | 0 <= t < |trials| :: RanPhase(trials[t], row.phase))
  {
    hide ValuesOf, ChildrenOf, Units, UnitsOf, Gaps, Occurrences, PhaseRuns, Seen, Flatten, AreRowsOf, RanPhase;
    hide OneEach, TotalContribution;
    var key := RowKey(row);
    UnitsAreDistinct(Flatten(trials), key);
    RowHasOneValuePerTrial(trials, rows, row);
    RowCountIsExact(trials, rows, row);
    EveryTrialRan(trials, row.phase);
    forall t | 0 <= t < |trials|
      ensures HasOneValue(trials[t], Flatten(trials), key) <==>
                |ValuesOf(trials[t], key)| <= 1 && RanPhase(trials[t], row.phase)
    {
      SeenRanPhase(trials[t], key);
    }
  }

  lemma SeenRanPhase(trial: seq<Metric>, key: Key)
    ensures Seen(trial, key) ==> RanPhase(trial, key.phase)
    ensures Seen(trial, key) <==> |ValuesOf(trial, key)| > 0
  {
    hide ValuesOf;
    ValuesOfSeen(trial, key);
    if Seen(trial, key) {
      var k := SeenAt(trial, key);
      assert trial[k].phase == key.phase;
    }
  }

  lemma {:induction false} OneInEachTrial(trials: seq<seq<Metric>>, key: Key)
    ensures NoRepeats(trials, key) ==>
              && Occurrences(trials, key) <= |trials|
              && (Occurrences(trials, key) == |trials| <==> forall t | 0 <= t < |trials| :: Seen(trials[t], key))
    ensures (forall t | 0 <= t < |trials| :: Seen(trials[t], key)) ==>
              && Occurrences(trials, key) >= |trials|
              && (Occurrences(trials, key) == |trials| <==> NoRepeats(trials, key))
  {
    hide ValuesOf, Seen;
    if trials != [] {
      var n := |trials| - 1;
      OneInEachTrial(trials[..n], key);
      ValuesOfSeen(trials[n], key);
      assert forall t | 0 <= t < n :: trials[..n][t] == trials[t];
    }
  }

  /** Any other row is never filled: its n is the number of occurrences, and there is one
      value per trial exactly if every trial recorded the key once. */
  lemma PlainRowCoversTrials(trials: seq<seq<Metric>>, rows: seq<SummaryRow>, row: SummaryRow)
    requires AreRowsOf(trials, rows) && row in rows && !(CHILD_FOOTPRINT <= row.name)
    ensures row.summary.n == Occurrences(trials, RowKey(row))
    ensures OneEach(trials, RowKey(row)) <==> forall t | 0 <= t < |trials| :: |ValuesOf(trials[t], RowKey(row))| == 1
    ensures NoRepeats(trials, RowKey(row)) ==>
              (row.summary.n == |trials| <==> forall t | 0 <= t < |trials| :: Seen(trials[t], RowKey(row)))
  {
    hide ValuesOf, ChildrenOf, Units, UnitsOf, Gaps, Occurrences, PhaseRuns, Seen, Flatten, AreRowsOf;
    hide OneEach, NoRepeats, TotalContribution;
    var key := RowKey(row);
    UnitsAreDistinct(Flatten(trials), key);
    RowHasOneValuePerTrial(trials, rows, row);
    RowCountIsExact(trials, rows, row);
    OneInEachTrial(trials, key);
    forall t | 0 <= t < |trials|
      ensures HasOneValue(trials[t], Flatten(trials), key) <==> |ValuesOf(trials[t], key)| == 1
    {
      SeenRanPhase(trials[t], key);
    }
  }

  /** A key-timing row that is returned has a recorded value for every trial, and no more than
      one exactly if no trial repeats the key. */
  lemma KeptKeyRowCoversTrials(trials: seq<seq<Metric>>, rows: seq<SummaryRow>, row: SummaryRow)
    requires AreRowsOf(trials, rows) && row in rows
    requires "key_hash_change_" <= row.name || "key_to_screen_" <= row.name
    ensures forall t | 0 <= t < |trials| :: Seen(trials[t], RowKey(row))
    ensures row.summary.n >= |trials|
    ensures row.summary.n == |trials| <==> NoRepeats(trials, RowKey(row))
    ensures OneEach(trials, RowKey(row)) <==> NoRepeats(trials, RowKey(row))
  {
    hide ValuesOf, AreRowsOf, Occurrences, OneEach, Seen;
    RowCountsValues(trials, rows, row);
    assert row.name[0] == 'k' && CHILD_FOOTPRINT[0] == 'f';
    PlainRowCoversTrials(trials, rows, row);
    OneInEachTrial(trials, RowKey(row));
    forall t | 0 <= t < |trials| ensures |ValuesOf(trials[t], RowKey(row))| > 0 {
      SeenRanPhase(trials[t], RowKey(row));
    }
  }

  // ------------------------------------------------------------ failing instances

  lemma NoKeyName(name: string)
    requires CHILD_FOOTPRINT <= name
    ensures !("key_hash_change_" <= name) && !("key_to_screen_" <= name)
  {
    assert name[0] == 'f';
  }

  /** Trials of one metric each. */
  function Singles(metrics: seq<Metric>): (trials: seq<seq<Metric>>)
    ensures |trials| == |metrics|
    ensures forall t | 0 <= t < |trials| :: trials[t] == [metrics[t]]
  {
    seq(|metrics|, t requires 0 <= t < |metrics| => [metrics[t]])
  }

  lemma {:induction false} FlattenSingles(metrics: seq<Metric>)
    ensures Flatten(Singles(metrics)) == metrics
  {
    if metrics != [] {
      var n := |metrics| - 1;
      FlattenSingles(metrics[..n]);
      assert Singles(metrics)[..n] == Singles(metrics[..n]);
      assert metrics == metrics[..n] + [metrics[n]];
    }
  }

  /** What a trial of one metric brings of a child's key. */
  lemma SingleBrings(m: Metric, metrics: seq<Metric>, key: Key)
    requires CHILD_FOOTPRINT <= key.name
    ensures Contribution([m], ChildrenOf(metrics), key)
         == if KeyOf(m) == key then 1 else if m.phase == key.phase then |UnitsOf(metrics, key)| else 0
  {
    hide ChildrenOf, Units, UnitsOf, Contribution;
    ContributionIsExact([m], ChildrenOf(metrics), key);
    UnitsAreDistinct(metrics, key);
    assert [m] == [] + [m];
    ValuesOfAppend([], m, key);
    SeenAppend([], m, key);
    assert RanPhase([m], key.phase) <==> m.phase == key.phase by {
      assert [m][0] == m;
    }
  }

  /** A child that one of the trials recorded has a row, whose n is what the trials bring. */
  lemma RowOfChild(trials: seq<seq<Metric>>, rows: seq<SummaryRow>, a: Metric) returns (row: SummaryRow)
    requires AreRowsOf(trials, rows) && IsChild(a) && a in Flatten(trials)
    ensures row in rows && RowKey(row) == KeyOf(a)
    ensures row.summary.n == TotalContribution(trials, ChildrenOf(Flatten(trials)), KeyOf(a))
  {
    hide AreRowsOf, ChildrenOf, Flatten, Units, Gaps, Occurrences, PhaseRuns, ValuesOf, NoRepeats;
    var k: nat :| k < |Flatten(trials)| && Flatten(trials)[k] == a;
    assert KeyOf(Flatten(trials)[k]) == KeyOf(a);
    NoKeyName(a.name);
    RowsAreKeys(trials, rows, KeyOf(a));
    var i: nat :| i < |rows| && RowKey(rows[i]) == KeyOf(a);
    row := rows[i];
    RowCountIsExact(trials, rows, row);
  }

  lemma TotalOfTwo(a: seq<Metric>, b: seq<Metric>, children: seq<Child>, key: Key)
    ensures TotalContribution([a, b], children, key) == Contribution(a, children, key) + Contribution(b, children, key)
  {
    hide Contribution;
    assert [a, b][..1] == [a] && [a][..0] == [];
    assert TotalContribution([a], children, key) == Contribution(a, children, key);
  }

  lemma TotalOfThree(a: seq<Metric>, b: seq<Metric>, c: seq<Metric>, children: seq<Child>, key: Key)
    ensures TotalContribution([a, b, c], children, key)
         == Contribution(a, children, key) + Contribution(b, children, key) + Contribution(c, children, key)
  {
    hide Contribution;
    TotalOfTwo(a, b, children, key);
    assert [a, b, c][..2] == [a, b];
  }

  /** A trial that never ran the phase gets no zero: two trials, one value. */
  lemma TrialWithoutPhaseIsNotFilled(a: Metric, b: Metric, rows: seq<SummaryRow>)
    requires IsChild(a) && b.phase != a.phase && AreRowsOf([[a], [b]], rows)
    ensures exists row | row in rows :: RowKey(row) == KeyOf(a) && row.summary.n == 1
    ensures Contribution([b], ChildrenOf(Flatten([[a], [b]])), KeyOf(a)) == 0
  {
    hide AreRowsOf, ChildrenOf, Contribution, TotalContribution;
    var trials, metrics := [[a], [b]], [a, b];
    FlattenSingles(metrics);
    assert trials == Singles(metrics) && a == metrics[0];
    var row := RowOfChild(trials, rows, a);
    SingleBrings(a, metrics, KeyOf(a));
    SingleBrings(b, metrics, KeyOf(a));
    TotalOfTwo([a], [b], ChildrenOf(metrics), KeyOf(a));
  }

  lemma TwoUnits(metrics: seq<Metric>, key: Key)
    requires |metrics| >= 2 && KeyOf(metrics[0]) == KeyOf(metrics[1]) == key && metrics[0].unit != metrics[1].unit
    requires forall k | 2 <= k < |metrics| :: KeyOf(metrics[k]) != key
    ensures |UnitsOf(metrics, key)| == 2
  {
    assert metrics[0] in metrics && metrics[1] in metrics;
    assert UnitsOf(metrics, key) == {metrics[0].unit, metrics[1].unit};
  }

  /** A child reported in two units gets two zeros: three trials that all ran the phase, four
      values. */
  lemma TwoUnitsFillTwice(a: Metric, b: Metric, c: Metric, rows: seq<SummaryRow>)
    requires IsChild(a) && KeyOf(b) == KeyOf(a) && b.unit != a.unit
    requires c.phase == a.phase && c.name != a.name
    requires AreRowsOf([[a], [b], [c]], rows)
    ensures exists row | row in rows :: RowKey(row) == KeyOf(a) && row.summary.n == 4
    ensures Contribution([c], ChildrenOf(Flatten([[a], [b], [c]])), KeyOf(a)) == 2
  {
    hide AreRowsOf, ChildrenOf, Contribution, TotalContribution, UnitsOf;
    var trials, metrics := [[a], [b], [c]], [a, b, c];
    FlattenSingles(metrics);
    assert trials == Singles(metrics) && a == metrics[0];
    var row := RowOfChild(trials, rows, a);
    TwoUnits(metrics, KeyOf(a));
    SingleBrings(a, metrics, KeyOf(a));
    SingleBrings(b, metrics, KeyOf(a));
    SingleBrings(c, metrics, KeyOf(a));
    TotalOfThree([a], [b], [c], ChildrenOf(metrics), KeyOf(a));
  }

  /** The two faults can cancel out: four values in four trials, two of them of one trial and
      none of another. */
  lemma TotalHidesFaults(a: Metric, b: Metric, c: Metric, d: Metric, rows: seq<SummaryRow>)
    requires IsChild(a) && KeyOf(b) == KeyOf(a) && b.unit != a.unit
    requires c.phase == a.phase && c.name != a.name && d.phase != a.phase
    requires AreRowsOf([[a], [b], [c], [d]], rows)
    ensures exists row | row in rows :: RowKey(row) == KeyOf(a) && row.summary.n == 4
    ensures var children := ChildrenOf(Flatten([[a], [b], [c], [d]]));
            Contribution([c], children, KeyOf(a)) == 2 && Contribution([d], children, KeyOf(a)) == 0
  {
    hide AreRowsOf, ChildrenOf, Contribution, UnitsOf;
    var trials, metrics := [[a], [b], [c], [d]], [a, b, c, d];
    FlattenSingles(metrics);
    assert trials == Singles(metrics) && a == metrics[0];
    var row := RowOfChild(trials, rows, a);
    TwoUnits(metrics, KeyOf(a));
    SingleBrings(a, metrics, KeyOf(a));
    SingleBrings(b, metrics, KeyOf(a));
    SingleBrings(c, metrics, KeyOf(a));
    SingleBrings(d, metrics, KeyOf(a));
    TotalOfThree([a], [b], [c], ChildrenOf(metrics), KeyOf(a));
    assert trials[..3] == [[a], [b], [c]];
  }

  /** A phase may run twice in a trial: then one trial brings two values. */
  lemma RepeatedKeyCountsTwice(a: Metric, rows: seq<SummaryRow>)
    requires Retained([[a, a]], KeyOf(a)) && AreRowsOf([[a, a]], rows)
    ensures exists row | row in rows :: RowKey(row) == KeyOf(a) && row.summary.n == 2
  {
    hide AreRowsOf, ChildrenOf, Units, NoRepeats, PhaseRuns, Contribution, Retained, Gaps, Occurrences, ValuesOf;
    var trials, key := [[a, a]], KeyOf(a);
    assert Flatten(trials) == [] + [a, a] && Flatten(trials)[0] == a && [a, a] == [] + [a] + [a];
    RowsAreKeys(trials, rows, key);
    var i: nat :| i < |rows| && RowKey(rows[i]) == key;
    RowCountIsExact(trials, rows, rows[i]);
    ValuesOfAppend([] + [a], a, key);
    ValuesOfAppend([], a, key);
    ValuesOfUnseen([], key);
    SeenAppend([] + [a], a, key);
    ContributionIsExact([a, a], ChildrenOf(Flatten(trials)), key);
  }

  /** An input of each family: `rustc` in one of two phases, `rustc` in two units, both, and
      one metric twice in a trial. */
  lemma FailingInstances(one: seq<SummaryRow>, two: seq<SummaryRow>, both: seq<SummaryRow>, twice: seq<SummaryRow>)
    requires AreRowsOf([[Metric("p", "footprint_child_max:rustc", 5.0, "bytes")], [Metric("q", "x", 1.0, "ms")]], one)
    requires AreRowsOf([[Metric("p", "footprint_child_max:rustc", 5.0, "bytes")],
                        [Metric("p", "footprint_child_max:rustc", 6.0, "pages")],
                        [Metric("p", "x", 1.0, "ms")]], two)
    requires AreRowsOf([[Metric("p", "footprint_child_max:rustc", 5.0, "bytes")],
                        [Metric("p", "footprint_child_max:rustc", 6.0, "pages")],
                        [Metric("p", "x", 1.0, "ms")], [Metric("q", "x", 1.0, "ms")]], both)
    requires AreRowsOf([[Metric("p", "x", 1.0, "ms"), Metric("p", "x", 1.0, "ms")]], twice)
    ensures exists row | row in one :: row.name == "footprint_child_max:rustc" && row.summary.n == 1
    ensures exists row | row in two :: row.name == "footprint_child_max:rustc" && row.summary.n == 4
    ensures exists row | row in both :: row.name == "footprint_child_max:rustc" && row.summary.n == 4
    ensures exists row | row in twice :: row.name == "x" && row.summary.n == 2
  {
    hide AreRowsOf;
    var bytes := Metric("p", "footprint_child_max:rustc", 5.0, "bytes");
    var pages := Metric("p", "footprint_child_max:rustc", 6.0, "pages");
    var here, there := Metric("p", "x", 1.0, "ms"), Metric("q", "x", 1.0, "ms");
    assert IsChild(bytes) && !("key_hash_change_" <= here.name) && !("key_to_screen_" <= here.name);
    TrialWithoutPhaseIsNotFilled(bytes, there, one);
    TwoUnitsFillTwice(bytes, pages, here, two);
    TotalHidesFaults(bytes, pages, here, there, both);
    RepeatedKeyCountsTwice(here, twice);
  }
}
