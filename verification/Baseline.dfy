/** `baseline.rs`: which finished runs become rows of the tracked baseline. Tables are typed
    records; a cell keeps its text beside the finite number it reads as, if any. */
module Baseline {
  import opened Characters
  import opened Sorting
  import Metrics
  import Latency
  import opened Wrappers

  const MIN_TRIALS: nat := 10

  /** Key and value of every entry. */
  type Stamp = map<string, string>

  datatype Cell = Cell(text: string, number: Option<real>)

  /** The text of a count column beside the count it reads as, if any. */
  datatype CountCell = CountCell(text: string, count: Option<nat>)

  datatype TrialRow = TrialRow(trial: string, warmup: string, valid: string)

  datatype MetricRow = MetricRow(
    runId: string, app: string, workload: string, trial: string, warmup: string, valid: string,
    phase: string, metric: string, value: Cell, unit: string)

  datatype SummaryRow = SummaryRow(
    phase: string, metric: string, unit: string, n: CountCell,
    mean: Cell, ci95Low: Cell, ci95High: Cell, median: Cell, min: Cell, max: Cell)

  /** The tables of one finished run. */
  datatype Run = Run(stamp: Stamp, summary: seq<SummaryRow>, trials: seq<TrialRow>, metrics: seq<MetricRow>)

  datatype Required = Required(name: string, unit: string)

  const KEY_REQUIRED: seq<Required> := [
    Required("keys_sent", "count"),
    Required("key_semantic_qualified", "bool"),
    Required("key_to_screen_p50", "ms"),
    Required("key_to_screen_p95", "ms"),
    Required("key_to_screen_max", "ms")
  ]

  datatype Violation =
    | NotFullPower
    | BenchTreeNotClean
    | AlpineTreeNotClean
    | TooFewTrials
    | NoSummaryRows
    | SummaryUnqualified(required: Required)
    | TrialUnqualified(trial: string, name: string)

  datatype Refusal =
    | MissingKey(key: string)
    | DuplicateTrial(trial: string)
    | Violations(violations: seq<Violation>)
    | BlankMilestone
    | NotACount

  function Require(stamp: Stamp, key: string): Result<string, Refusal> {
    if key in stamp then Ok(stamp[key]) else Err(MissingKey(key))
  }

  function GetOr(stamp: Stamp, key: string, default: string): string {
    if key in stamp then stamp[key] else default
  }

  // ----------------------------------------------------- exactly one matching row

  function Filter<T>(rows: seq<T>, P: T -> bool): seq<T> {
    if rows == [] then []
    else Filter(rows[..|rows| - 1], P) + if P(rows[|rows| - 1]) then [rows[|rows| - 1]] else []
  }

  /** Row i matches, and no other row does. */
  predicate OnlyAt<T>(rows: seq<T>, P: T -> bool, i: nat) {
    i < |rows| && P(rows[i]) && forall j | 0 <= j < |rows| && j != i :: !P(rows[j])
  }

  lemma {:induction false} FilterIsEmpty<T>(rows: seq<T>, P: T -> bool)
    ensures Filter(rows, P) == [] <==> forall j | 0 <= j < |rows| :: !P(rows[j])
  {
    if rows != [] {
      FilterIsEmpty(rows[..|rows| - 1], P);
      assert !P(rows[|rows| - 1]) ==> Filter(rows, P) == Filter(rows[..|rows| - 1], P);
    }
  }

  lemma FilterNothing<T>(P: T -> bool)
    ensures Filter([], P) == []
  {
  }

  lemma OnlyAtEnd<T>(rows: seq<T>, P: T -> bool, i: nat)
    requires rows != []
    ensures P(rows[|rows| - 1]) ==>
              (OnlyAt(rows, P, i) <==> i == |rows| - 1 && forall j | 0 <= j < |rows| - 1 :: !P(rows[j]))
    ensures !P(rows[|rows| - 1]) ==> (OnlyAt(rows, P, i) <==> OnlyAt(rows[..|rows| - 1], P, i))
  {
    if !P(rows[|rows| - 1]) && OnlyAt(rows, P, i) {
      assert i < |rows| - 1;
    }
  }

  /** A one-row filter is a unique match. */
  lemma {:induction false} FilterIsOneRow<T>(rows: seq<T>, P: T -> bool)
    ensures |Filter(rows, P)| == 1 <==> exists i: nat :: OnlyAt(rows, P, i)
    ensures forall i: nat | OnlyAt(rows, P, i) :: Filter(rows, P) == [rows[i]]
  {
    if rows == [] {
      return;
    }
    var last := |rows| - 1;
    var front := rows[..last];
    FilterIsEmpty(front, P);
    FilterIsOneRow(front, P);
    hide OnlyAt, Filter;
    forall i: nat ensures OnlyAt(rows, P, i) <==>
        if P(rows[last]) then i == last && Filter(front, P) == [] else OnlyAt(front, P, i) {
      OnlyAtEnd(rows, P, i);
    }
    FilterEnd(rows, P);
    if P(rows[last]) {
      assert Filter(front, P) == [] <==> OnlyAt(rows, P, last);
    } else {
      OnlyAtIsIndex(front, P);
    }
  }

  lemma OnlyAtIsIndex<T>(rows: seq<T>, P: T -> bool)
    ensures forall i: nat | OnlyAt(rows, P, i) :: i < |rows|
  {
  }

  lemma FilterEnd<T>(rows: seq<T>, P: T -> bool)
    requires rows != []
    ensures var last := |rows| - 1;
            Filter(rows, P) == if P(rows[last]) then Filter(rows[..last], P) + [rows[last]] else Filter(rows[..last], P)
  {
  }

  // ------------------------------------------------------------------ conditions

  /** A measured trial: no warm-up, and it stayed valid. */
  predicate Measured(trial: TrialRow) {
    trial.warmup == "0" && trial.valid == "1"
  }

  function MeasuredTrials(trials: seq<TrialRow>): seq<string> {
    if trials == [] then []
    else
      var last := trials[|trials| - 1];
      MeasuredTrials(trials[..|trials| - 1]) + if Measured(last) then [last.trial] else []
  }

  predicate Contains(text: string, part: string) {
    exists i | 0 <= i <= |text| :: part <= text[i..]
  }

  predicate IsAcFullPower(power: string) {
    "ac " <= power && Contains(power, "lowpower=0")
  }

  /** Typing and caret runs need key evidence. */
  function KeyPhase(stamp: Stamp): Option<string> {
    if "workload" in stamp && stamp["workload"] in {"typing", "caret"} then Some(stamp["workload"]) else None
  }

  predicate KeyValue(value: Cell, unit: string) {
    match value.number
    case None => false
    case Some(x) =>
      if unit == "bool" then x == 1.0
      else if unit == "count" then x > 0.0 && x.Floor as real == x
      else x >= 0.0
  }

  predicate Summarizes(phase: string, required: Required, row: SummaryRow) {
    row.phase == phase && row.metric == required.name
  }

  function SummaryOf(phase: string, required: Required): SummaryRow -> bool {
    row => Summarizes(phase, required, row)
  }

  /** A summary row over at least ten trials, exactly `valid` of them when that is known. */
  predicate QualifiesRow(valid: Option<nat>, required: Required, row: SummaryRow) {
    && row.n.count.Some? && row.n.count.value >= MIN_TRIALS
    && (valid.Some? ==> row.n.count.value == valid.value)
    && row.unit == required.unit
    && KeyValue(row.min, required.unit) && KeyValue(row.max, required.unit)
    && KeyValue(row.mean, required.unit) && KeyValue(row.median, required.unit)
  }

  /** Exactly one summary row is about the required metric, and it qualifies. */
  ghost predicate SummaryQualifies(phase: string, valid: Option<nat>, summary: seq<SummaryRow>, required: Required) {
    exists i: nat :: OnlyAt(summary, SummaryOf(phase, required), i) && QualifiesRow(valid, required, summary[i])
  }

  predicate Measures(stamp: Stamp, phase: string, required: Required, trial: string, row: MetricRow) {
    && row.trial == trial && row.phase == phase && row.metric == required.name
    && row.warmup == "0" && row.valid == "1"
    && Get(stamp, "run_id") == Some(row.runId) && Get(stamp, "app") == Some(row.app)
    && row.workload == phase && row.unit == required.unit
  }

  function MetricOf(stamp: Stamp, phase: string, required: Required, trial: string): MetricRow -> bool {
    row => Measures(stamp, phase, required, trial, row)
  }

  function Get(stamp: Stamp, key: string): Option<string> {
    if key in stamp then Some(stamp[key]) else None
  }

  /** Exactly one metrics row is the trial's value of the required metric, and it qualifies. */
  ghost predicate TrialQualifies(stamp: Stamp, phase: string, metrics: seq<MetricRow>, trial: string,
                                 required: Required)
  {
    exists i: nat :: OnlyAt(metrics, MetricOf(stamp, phase, required, trial), i)
                  && KeyValue(metrics[i].value, required.unit)
  }

  /** What each reported violation means. */
  ghost predicate Violates(run: Run, violation: Violation) {
    match violation
    case NotFullPower => "power" in run.stamp && !IsAcFullPower(run.stamp["power"])
    case BenchTreeNotClean => "bench_tree" in run.stamp && run.stamp["bench_tree"] != "clean"
    case AlpineTreeNotClean =>
      Get(run.stamp, "app") == Some("alpine") && Get(run.stamp, "alpine_tree") != Some("clean")
    case TooFewTrials => |MeasuredTrials(run.trials)| < MIN_TRIALS
    case NoSummaryRows => run.summary == []
    case SummaryUnqualified(required) =>
      SummaryViolates(run.stamp, Some(|MeasuredTrials(run.trials)|), run.summary, required)
    case TrialUnqualified(trial, name) => TrialViolates(run, trial, name, |KEY_REQUIRED|)
  }

  ghost predicate SummaryViolates(stamp: Stamp, valid: Option<nat>, summary: seq<SummaryRow>, required: Required) {
    var phase := KeyPhase(stamp);
    phase.Some? && required in KEY_REQUIRED && !SummaryQualifies(phase.value, valid, summary, required)
  }

  /** One of the first `upTo` required metrics, by name, is unqualified in a measured trial. */
  ghost predicate TrialViolates(run: Run, trial: string, name: string, upTo: nat)
    requires upTo <= |KEY_REQUIRED|
  {
    var phase := KeyPhase(run.stamp);
    && phase.Some? && trial in MeasuredTrials(run.trials)
    && exists k | 0 <= k < upTo :: MetricViolates(run, phase.value, trial, name, k)
  }

  ghost predicate MetricViolates(run: Run, phase: string, trial: string, name: string, k: nat)
    requires k < |KEY_REQUIRED|
  {
    KEY_REQUIRED[k].name == name && !TrialQualifies(run.stamp, phase, run.metrics, trial, KEY_REQUIRED[k])
  }

  // -------------------------------------------------------------------- the loops

  lemma MeasuredEnd(trials: seq<TrialRow>, k: nat)
    requires k < |trials|
    ensures MeasuredTrials(trials[..k + 1])
         == MeasuredTrials(trials[..k]) + if Measured(trials[k]) then [trials[k].trial] else []
  {
    assert trials[..k + 1][..k] == trials[..k];
  }

  method ValidTrials(trials: seq<TrialRow>) returns (count: nat)
    ensures count == |MeasuredTrials(trials)|
  {
    count := 0;
    for k := 0 to |trials|
      invariant count == |MeasuredTrials(trials[..k])|
    {
      MeasuredEnd(trials, k);
      if Measured(trials[k]) {
        count := count + 1;
      }
    }
    assert trials[..|trials|] == trials;
  }

  /** The rows that match, collected in a loop. */
  method Collect<T>(rows: seq<T>, P: T -> bool) returns (matching: seq<T>)
    ensures matching == Filter(rows, P)
  {
    matching := [];
    for k := 0 to |rows|
      invariant matching == Filter(rows[..k], P)
    {
      assert rows[..k + 1][..k] == rows[..k];
      FilterEnd(rows[..k + 1], P);
      if P(rows[k]) {
        matching := matching + [rows[k]];
      }
    }
    assert rows[..|rows|] == rows;
  }

  method KeySummaryViolations(stamp: Stamp, valid: Option<nat>, summary: seq<SummaryRow>)
    returns (violations: seq<Violation>)
    ensures forall v :: v in violations <==> v.SummaryUnqualified? && SummaryViolates(stamp, valid, summary, v.required)
  {
    violations := [];
    var phase := KeyPhase(stamp);
    if phase.None? {
      return;
    }
    hide KeyPhase, QualifiesRow, Filter, OnlyAt;
    for k := 0 to |KEY_REQUIRED|
      invariant forall v: Violation :: v in violations <==>
                  && v.SummaryUnqualified? && v.required in KEY_REQUIRED[..k]
                  && !SummaryQualifies(phase.value, valid, summary, v.required)
    {
      var required := KEY_REQUIRED[k];
      var matching := Collect(summary, SummaryOf(phase.value, required));
      var qualified := |matching| == 1 && QualifiesRow(valid, required, matching[0]);
      FilterIsOneRow(summary, SummaryOf(phase.value, required));
      assert qualified == SummaryQualifies(phase.value, valid, summary, required);
      assert KEY_REQUIRED[..k + 1] == KEY_REQUIRED[..k] + [required];
      if !qualified {
        violations := violations + [SummaryUnqualified(required)];
      }
    }
    assert KEY_REQUIRED[..|KEY_REQUIRED|] == KEY_REQUIRED;
  }

  /** Reasons the run breaks the protocol, apart from its trials' evidence. */
  method ProtocolViolations(run: Run) returns (r: Result<seq<Violation>, Refusal>)
    ensures r.Ok? <==> "power" in run.stamp && "bench_tree" in run.stamp && "app" in run.stamp
    ensures r.Ok? ==> forall v :: v in r.value <==> !v.TrialUnqualified? && Violates(run, v)
    ensures r.Err? ==> r.error.MissingKey?
  {
    hide MeasuredTrials, KeyPhase, SummaryViolates, IsAcFullPower, TrialViolates;
    var valid := ValidTrials(run.trials);
    var violations := [];
    var power :- Require(run.stamp, "power");
    if !IsAcFullPower(power) {
      violations := violations + [NotFullPower];
    }
    var tree :- Require(run.stamp, "bench_tree");
    if tree != "clean" {
      violations := violations + [BenchTreeNotClean];
    }
    var app :- Require(run.stamp, "app");
    if app == "alpine" {
      if GetOr(run.stamp, "alpine_tree", "unknown") != "clean" {
        violations := violations + [AlpineTreeNotClean];
      }
    }
    if valid < MIN_TRIALS {
      violations := violations + [TooFewTrials];
    }
    if run.summary == [] {
      violations := violations + [NoSummaryRows];
    }
    var keys := KeySummaryViolations(run.stamp, Some(valid), run.summary);
    r := Ok(violations + keys);
  }

  lemma TrialViolatesNext(run: Run, phase: string, trial: string, k: nat)
    requires k < |KEY_REQUIRED| && KeyPhase(run.stamp) == Some(phase) && trial in MeasuredTrials(run.trials)
    ensures forall name :: TrialViolates(run, trial, name, k + 1) <==>
              TrialViolates(run, trial, name, k) || MetricViolates(run, phase, trial, name, k)
  {
    hide KeyPhase, TrialQualifies;
    forall name ensures TrialViolates(run, trial, name, k + 1) <==>
                  TrialViolates(run, trial, name, k) || MetricViolates(run, phase, trial, name, k) {
      if TrialViolates(run, trial, name, k + 1) {
        var j: nat :| j < k + 1 && MetricViolates(run, phase, trial, name, j);
        assert j < k ==> TrialViolates(run, trial, name, k);
      }
    }
  }

  /** Adds the unqualified required metrics of one measured trial. */
  method OneTrialViolations(run: Run, phase: string, trial: string, violations: seq<Violation>)
    returns (more: seq<Violation>)
    requires KeyPhase(run.stamp) == Some(phase) && trial in MeasuredTrials(run.trials)
    ensures forall v :: v in more <==>
              || v in violations
              || (v.TrialUnqualified? && v.trial == trial && TrialViolates(run, trial, v.name, |KEY_REQUIRED|))
  {
    hide KeyPhase, Filter, OnlyAt, TrialViolates, Measures;
    more := violations;
    assert forall name :: !TrialViolates(run, trial, name, 0) by { NoneViolated(run, trial); }
    for k := 0 to |KEY_REQUIRED|
      invariant forall v :: v in more <==>
                  || v in violations
                  || (v.TrialUnqualified? && v.trial == trial && TrialViolates(run, trial, v.name, k))
    {
      var required := KEY_REQUIRED[k];
      var values := Collect(run.metrics, MetricOf(run.stamp, phase, required, trial));
      FilterIsOneRow(run.metrics, MetricOf(run.stamp, phase, required, trial));
      var qualified := |values| == 1 && KeyValue(values[0].value, required.unit);
      assert qualified == TrialQualifies(run.stamp, phase, run.metrics, trial, required);
      TrialViolatesNext(run, phase, trial, k);
      if !qualified {
        more := more + [TrialUnqualified(trial, required.name)];
      }
    }
  }

  lemma NoneViolated(run: Run, trial: string)
    ensures forall name :: !TrialViolates(run, trial, name, 0)
  {
  }

  lemma {:induction false} MeasuredPrefix(trials: seq<TrialRow>, k: nat)
    requires k <= |trials|
    ensures MeasuredTrials(trials[..k]) <= MeasuredTrials(trials)
    decreases |trials| - k
  {
    if k < |trials| {
      MeasuredEnd(trials, k);
      MeasuredPrefix(trials, k + 1);
    } else {
      assert trials[..k] == trials;
    }
  }

  lemma RepeatedName(names: seq<string>, i: nat, j: nat)
    requires i < j < |names| && names[i] == names[j]
    ensures !Distinct(names) && multiset(names)[names[i]] > 1
  {
    RepeatedCount(names, i, j);
  }

  /** A measured trial seen before k makes the numbers repeat. */
  lemma RepeatedTrial(trials: seq<TrialRow>, k: nat)
    requires k < |trials| && Measured(trials[k]) && trials[k].trial in MeasuredTrials(trials[..k])
    ensures !Distinct(MeasuredTrials(trials)) && multiset(MeasuredTrials(trials))[trials[k].trial] > 1
  {
    hide MeasuredTrials, Distinct;
    var before, name := MeasuredTrials(trials[..k]), trials[k].trial;
    MeasuredEnd(trials, k);
    MeasuredPrefix(trials, k + 1);
    var i: nat :| i < |before| && before[i] == name;
    var next := MeasuredTrials(trials[..k + 1]);
    assert next[i] == name && next[|before|] == name;
    RepeatedName(MeasuredTrials(trials), i, |before|);
  }

  /** A prefix of distinct names grows by a new one. */
  lemma DistinctGrows(names: seq<string>, name: string)
    requires Distinct(names) && name !in names
    ensures Distinct(names + [name])
  {
  }

  lemma InPrefix(trials: seq<TrialRow>, k: nat, name: string)
    requires k < |trials| && name in MeasuredTrials(trials[..k + 1])
    ensures name in MeasuredTrials(trials)
  {
    MeasuredPrefix(trials, k + 1);
  }

  lemma NoTrials()
    ensures MeasuredTrials([]) == [] && Distinct<string>([])
  {
  }

  lemma TrialsViolated(run: Run)
    requires KeyPhase(run.stamp).Some?
    ensures forall trial, name :: Violates(run, TrialUnqualified(trial, name)) <==>
              trial in MeasuredTrials(run.trials) && TrialViolates(run, trial, name, |KEY_REQUIRED|)
  {
  }

  method KeyTrialViolations(run: Run) returns (r: Result<seq<Violation>, Refusal>)
    ensures r.Ok? <==>
              || KeyPhase(run.stamp).None?
              || ("run_id" in run.stamp && "app" in run.stamp && Distinct(MeasuredTrials(run.trials)))
    ensures r.Ok? ==> forall v :: v in r.value <==> v.TrialUnqualified? && Violates(run, v)
    ensures r.Err? && r.error.DuplicateTrial? ==> multiset(MeasuredTrials(run.trials))[r.error.trial] > 1
  {
    var phase := KeyPhase(run.stamp);
    if phase.None? {
      return Ok([]);
    }
    var _ :- Require(run.stamp, "run_id");
    var _ :- Require(run.stamp, "app");
    var violations := [];
    var seen := {};
    hide TrialViolates, KeyPhase, MeasuredTrials, Distinct, Violates;
    NoTrials();
    for k := 0 to |run.trials|
      invariant forall trial :: trial in seen <==> trial in MeasuredTrials(run.trials[..k])
      invariant Distinct(MeasuredTrials(run.trials[..k]))
      invariant forall v: Violation :: v in violations <==>
                  v.TrialUnqualified? && v.trial in seen && TrialViolates(run, v.trial, v.name, |KEY_REQUIRED|)
    {
      MeasuredEnd(run.trials, k);
      MeasuredPrefix(run.trials, k + 1);
      var trial := run.trials[k];
      if Measured(trial) {
        if trial.trial in seen {
          RepeatedTrial(run.trials, k);
          return Err(DuplicateTrial(trial.trial));
        }
        DistinctGrows(MeasuredTrials(run.trials[..k]), trial.trial);
        seen := seen + {trial.trial};
        InPrefix(run.trials, k, trial.trial);
        violations := OneTrialViolations(run, phase.value, trial.trial, violations);
      } else {
        assert MeasuredTrials(run.trials[..k]) + [] == MeasuredTrials(run.trials[..k]);
      }
    }
    assert run.trials[..|run.trials|] == run.trials;
    TrialsViolated(run);
    r := Ok(violations);
  }

  // ------------------------------------------------------------ rows and admission

  /** The columns a written row takes from the stamp. */
  const ROW_KEYS: set<string> := {
    "run_id", "workload", "bench_commit", "bench_tree", "machine", "macos", "display", "power", "zed_version"
  }

  function AppIdentity(stamp: Stamp, app: string): (string, string) {
    if app == "alpine" then (GetOr(stamp, "alpine_version", "unknown"), GetOr(stamp, "alpine_tree", "unknown"))
    else if app == "zed" then (GetOr(stamp, "zed_version", "unknown"), "release")
    else (GetOr(stamp, "appkit_version", "unknown"), GetOr(stamp, "bench_tree", "unknown"))
  }

  /** The version and tree that a row names are those of the measured app: Alpine's own, Zed's
      release, and otherwise AppKit's version with the tree of the benchmark. */
  lemma IdentityOfApp(stamp: Stamp, app: string)
    ensures app == "alpine" && "alpine_version" in stamp && "alpine_tree" in stamp ==>
              AppIdentity(stamp, app) == (stamp["alpine_version"], stamp["alpine_tree"])
    ensures app == "zed" && "zed_version" in stamp ==> AppIdentity(stamp, app) == (stamp["zed_version"], "release")
    ensures app == "appkit" && "appkit_version" in stamp && "bench_tree" in stamp ==>
              AppIdentity(stamp, app) == (stamp["appkit_version"], stamp["bench_tree"])
    ensures stamp == map[] ==> AppIdentity(stamp, app) == ("unknown", if app == "zed" then "release" else "unknown")
  {
  }

  datatype Labels = Labels(milestone: string, note: string, date: string)

  const BASELINE_HEADER: seq<string> := [
    "date_utc", "milestone", "note", "run_id", "app", "app_version", "app_tree", "workload", "phase", "metric",
    "unit", "n", "mean", "ci95_low", "ci95_high", "median", "min", "max", "bench_commit", "bench_tree", "machine",
    "macos", "display", "power", "zed_version"
  ]

  /** One line of the baseline. */
  function WriteRow(stamp: Stamp, labels: Labels, app: string, row: SummaryRow): Result<seq<string>, Refusal> {
    var identity := AppIdentity(stamp, app);
    var runId :- Require(stamp, "run_id");
    var workload :- Require(stamp, "workload");
    var commit :- Require(stamp, "bench_commit");
    var tree :- Require(stamp, "bench_tree");
    var machine :- Require(stamp, "machine");
    var macos :- Require(stamp, "macos");
    var display :- Require(stamp, "display");
    var power :- Require(stamp, "power");
    var zed :- Require(stamp, "zed_version");
    Ok([labels.date, labels.milestone, labels.note, runId, app, identity.0, identity.1, workload,
        row.phase, row.metric, row.unit, row.n.text, row.mean.text, row.ci95Low.text, row.ci95High.text,
        row.median.text, row.min.text, row.max.text, commit, tree, machine, macos, display, power, zed])
  }

  /** A row can be written exactly when the stamp is complete. */
  lemma RowIsWritable(stamp: Stamp, labels: Labels, app: string, row: SummaryRow)
    ensures WriteRow(stamp, labels, app, row).Ok? <==> ROW_KEYS <= stamp.Keys
  {
  }

  /** The cell that stands under a name: where the header has the name first. */
  function CellUnder(header: seq<string>, line: seq<string>, name: string): Option<string>
    requires |line| == |header|
  {
    if header == [] then None
    else if header[0] == name then Some(line[0])
    else CellUnder(header[1..], line[1..], name)
  }

  lemma {:induction false} CellUnderOwnName(header: seq<string>, line: seq<string>, i: nat)
    requires |line| == |header| && Distinct(header) && i < |header|
    ensures CellUnder(header, line, header[i]) == Some(line[i])
  {
    if i > 0 {
      assert header[0] != header[i];
      assert forall j | 0 <= j < |header[1..]| :: header[1..][j] == header[j + 1];
      CellUnderOwnName(header[1..], line[1..], i - 1);
    }
  }

  /** Length, first and last letter, which tell the column names apart. */
  function Shape(name: string): (nat, char, char)
    requires name != ""
  {
    (|name|, name[0], name[|name| - 1])
  }

  lemma NamesDiffer()
    ensures Distinct(BASELINE_HEADER)
  {
    forall i, j | 0 <= i < j < |BASELINE_HEADER| ensures Shape(BASELINE_HEADER[i]) != Shape(BASELINE_HEADER[j]) {
    }
  }

  /** Every cell stands under the name at its own place in the header. */
  lemma CellsFollowHeader(line: seq<string>)
    requires |line| == |BASELINE_HEADER|
    ensures forall i: nat | i < |line| :: CellUnder(BASELINE_HEADER, line, BASELINE_HEADER[i]) == Some(line[i])
  {
    NamesDiffer();
    hide CellUnder, Distinct;
    forall i: nat | i < |line| ensures CellUnder(BASELINE_HEADER, line, BASELINE_HEADER[i]) == Some(line[i]) {
      CellUnderOwnName(BASELINE_HEADER, line, i);
    }
  }

  /** The fields of a summary row stand under their names in the summary table. */
  predicate SummaryRowUnder(header: seq<string>, line: seq<string>, row: SummaryRow)
    requires |line| == |header|
  {
    && CellUnder(header, line, "phase") == Some(row.phase)
    && CellUnder(header, line, "metric") == Some(row.metric)
    && CellUnder(header, line, "unit") == Some(row.unit)
    && CellUnder(header, line, "n") == Some(row.n.text)
    && CellUnder(header, line, "mean") == Some(row.mean.text)
    && CellUnder(header, line, "ci95_low") == Some(row.ci95Low.text)
    && CellUnder(header, line, "ci95_high") == Some(row.ci95High.text)
    && CellUnder(header, line, "median") == Some(row.median.text)
    && CellUnder(header, line, "min") == Some(row.min.text)
    && CellUnder(header, line, "max") == Some(row.max.text)
  }

  lemma SummaryFollowsHeader(stamp: Stamp, labels: Labels, app: string, row: SummaryRow)
    requires WriteRow(stamp, labels, app, row).Ok?
    ensures var line := WriteRow(stamp, labels, app, row).value;
            |line| == |BASELINE_HEADER| && SummaryRowUnder(BASELINE_HEADER, line, row)
  {
    hide CellUnder, AppIdentity;
    var header, line := BASELINE_HEADER, WriteRow(stamp, labels, app, row).value;
    CellsFollowHeader(line);
    assert && header[8] == "phase" && header[9] == "metric" && header[10] == "unit" && header[11] == "n"
           && header[12] == "mean" && header[13] == "ci95_low" && header[14] == "ci95_high"
           && header[15] == "median" && header[16] == "min" && header[17] == "max";
  }

  lemma StampFollowsHeader(stamp: Stamp, labels: Labels, app: string, row: SummaryRow, key: string)
    requires WriteRow(stamp, labels, app, row).Ok? && key in ROW_KEYS
    ensures var line := WriteRow(stamp, labels, app, row).value;
            |line| == |BASELINE_HEADER| && CellUnder(BASELINE_HEADER, line, key) == Get(stamp, key) != None
  {
    hide CellUnder, AppIdentity;
    var header, line := BASELINE_HEADER, WriteRow(stamp, labels, app, row).value;
    CellsFollowHeader(line);
    assert && header[3] == "run_id" && header[7] == "workload" && header[18] == "bench_commit"
           && header[19] == "bench_tree" && header[20] == "machine" && header[21] == "macos"
           && header[22] == "display" && header[23] == "power" && header[24] == "zed_version";
  }

  /** A written row read back by column name gives the labels, the app with its identity, the
      stamp's entries, and the fields of the summary row it was made from. */
  lemma RowFollowsHeader(stamp: Stamp, labels: Labels, app: string, row: SummaryRow)
    requires WriteRow(stamp, labels, app, row).Ok?
    ensures var line := WriteRow(stamp, labels, app, row).value;
            && |line| == |BASELINE_HEADER|
            && CellUnder(BASELINE_HEADER, line, "date_utc") == Some(labels.date)
            && CellUnder(BASELINE_HEADER, line, "milestone") == Some(labels.milestone)
            && CellUnder(BASELINE_HEADER, line, "note") == Some(labels.note)
            && CellUnder(BASELINE_HEADER, line, "app") == Some(app)
            && CellUnder(BASELINE_HEADER, line, "app_version") == Some(AppIdentity(stamp, app).0)
            && CellUnder(BASELINE_HEADER, line, "app_tree") == Some(AppIdentity(stamp, app).1)
            && (forall key | key in ROW_KEYS :: CellUnder(BASELINE_HEADER, line, key) == Get(stamp, key) != None)
            && SummaryRowUnder(BASELINE_HEADER, line, row)
  {
    hide CellUnder, AppIdentity, SummaryRowUnder;
    var header, line := BASELINE_HEADER, WriteRow(stamp, labels, app, row).value;
    SummaryFollowsHeader(stamp, labels, app, row);
    forall key | key in ROW_KEYS ensures CellUnder(header, line, key) == Get(stamp, key) != None {
      StampFollowsHeader(stamp, labels, app, row, key);
    }
    CellsFollowHeader(line);
    assert && header[0] == "date_utc" && header[1] == "milestone" && header[2] == "note" && header[4] == "app"
           && header[5] == "app_version" && header[6] == "app_tree";
  }

  /** Enough values to be written. */
  predicate Enough(row: SummaryRow) {
    row.n.count.Some? && row.n.count.value >= MIN_TRIALS
  }

  predicate Short(row: SummaryRow) {
    !Enough(row)
  }

  predicate Writes(stamp: Stamp, labels: Labels, chosen: seq<SummaryRow>, rows: seq<seq<string>>) {
    && |rows| == |chosen|
    && "app" in stamp
    && forall i | 0 <= i < |rows| :: WriteRow(stamp, labels, stamp["app"], chosen[i]) == Ok(rows[i])
  }

  /** Every summary row can be read, and written if it has enough values. */
  predicate Writable(stamp: Stamp, summary: seq<SummaryRow>) {
    && "app" in stamp
    && forall row | row in summary :: row.n.count.Some? && (Enough(row) ==> ROW_KEYS <= stamp.Keys)
  }

  method BaselineRows(stamp: Stamp, summary: seq<SummaryRow>, labels: Labels)
    returns (r: Result<(seq<seq<string>>, seq<SummaryRow>), Refusal>)
    ensures r.Ok? <==>
              && !IsBlank(labels.milestone) && Writable(stamp, summary)
              && forall required :: !SummaryViolates(stamp, None, summary, required)
    ensures r.Ok? ==> Writes(stamp, labels, Filter(summary, Enough), r.value.0)
    ensures r.Ok? ==> r.value.1 == Filter(summary, Short)
  {
    if IsBlank(labels.milestone) {
      return Err(BlankMilestone);
    }
    var required := KeySummaryViolations(stamp, None, summary);
    if required != [] {
      assert required[0] in required;
      return Err(Violations(required));
    }
    assert forall m :: !SummaryViolates(stamp, None, summary, m) by {
      forall m ensures !SummaryViolates(stamp, None, summary, m) {
        assert SummaryUnqualified(m) !in required;
      }
    }
    var app :- Require(stamp, "app");
    var rows, skipped := [], [];
    hide SummaryViolates, WriteRow, Filter, Writes, Writable, IsBlank, AppIdentity, GetOr;
    NoRows(stamp, labels);
    for k := 0 to |summary|
      invariant Writable(stamp, summary[..k])
      invariant Writes(stamp, labels, Filter(summary[..k], Enough), rows)
      invariant skipped == Filter(summary[..k], Short)
    {
      var row := summary[k];
      NextRow(stamp, labels, summary, k, rows);
      if row.n.count.None? {
        return Err(NotACount);
      }
      if row.n.count.value < MIN_TRIALS {
        skipped := skipped + [row];
      } else {
        RowIsWritable(stamp, labels, app, row);
        var line :- WriteRow(stamp, labels, app, row);
        rows := rows + [line];
      }
    }
    assert summary[..|summary|] == summary;
    r := Ok((rows, skipped));
  }

  lemma NoRows(stamp: Stamp, labels: Labels)
    requires "app" in stamp
    ensures Filter([], Enough) == [] && Filter([], Short) == []
    ensures Writable(stamp, []) && Writes(stamp, labels, [], [])
  {
  }

  /** One more row is written, skipped, or spoils the table. */
  lemma NextRow(stamp: Stamp, labels: Labels, summary: seq<SummaryRow>, k: nat, rows: seq<seq<string>>)
    requires k < |summary| && Writable(stamp, summary[..k])
    requires Writes(stamp, labels, Filter(summary[..k], Enough), rows)
    ensures var row := summary[k];
            && "app" in stamp
            && (row.n.count.None? || (Enough(row) && !(ROW_KEYS <= stamp.Keys)) ==> !Writable(stamp, summary))
            && (row.n.count.Some? && !Enough(row) ==>
                 && Writable(stamp, summary[..k + 1])
                 && Filter(summary[..k + 1], Short) == Filter(summary[..k], Short) + [row]
                 && Filter(summary[..k + 1], Enough) == Filter(summary[..k], Enough))
            && (Enough(row) && ROW_KEYS <= stamp.Keys ==>
                 && Writable(stamp, summary[..k + 1])
                 && Filter(summary[..k + 1], Short) == Filter(summary[..k], Short)
                 && forall line :: WriteRow(stamp, labels, stamp["app"], row) == Ok(line) ==>
                      Writes(stamp, labels, Filter(summary[..k + 1], Enough), rows + [line]))
  {
    hide Filter, WriteRow;
    var row := summary[k];
    assert summary[..k + 1] == summary[..k] + [row];
    assert summary[..k + 1][..k] == summary[..k];
    FilterEnd(summary[..k + 1], Enough);
    FilterEnd(summary[..k + 1], Short);
  }

  // ------------------------------------------------------------------- admission

  /** The evidence a typing or caret run needs: distinct trials, and for every required metric
      one summary row over all of them and one metrics row for each of them. */
  ghost predicate KeyEvidence(run: Run, phase: string) {
    var trials := MeasuredTrials(run.trials);
    && "run_id" in run.stamp
    && Distinct(trials)
    && forall required | required in KEY_REQUIRED ::
         && SummaryQualifies(phase, Some(|trials|), run.summary, required)
         && forall trial | trial in trials :: TrialQualifies(run.stamp, phase, run.metrics, trial, required)
  }

  ghost predicate Protocol(run: Run) {
    && {"power", "bench_tree", "app"} <= run.stamp.Keys
    && IsAcFullPower(run.stamp["power"])
    && run.stamp["bench_tree"] == "clean"
    && (run.stamp["app"] == "alpine" ==> Get(run.stamp, "alpine_tree") == Some("clean"))
    && |MeasuredTrials(run.trials)| >= MIN_TRIALS
    && run.summary != []
  }

  /** The declarative condition under which a run's rows reach the baseline. */
  ghost predicate Admitted(run: Run, labels: Labels) {
    && Protocol(run)
    && (KeyPhase(run.stamp).Some? ==> KeyEvidence(run, KeyPhase(run.stamp).value))
    && !IsBlank(labels.milestone)
    && Writable(run.stamp, run.summary)
  }

  /** No violation is reported of exactly the runs that meet the conditions. */
  lemma NothingViolated(run: Run)
    requires {"power", "bench_tree", "app"} <= run.stamp.Keys
    requires KeyPhase(run.stamp).Some? ==> "run_id" in run.stamp && Distinct(MeasuredTrials(run.trials))
    ensures (forall v :: !Violates(run, v)) <==>
              Protocol(run) && (KeyPhase(run.stamp).Some? ==> KeyEvidence(run, KeyPhase(run.stamp).value))
  {
    hide IsAcFullPower, MeasuredTrials, SummaryQualifies, TrialQualifies, Distinct, KeyPhase;
    var phase := KeyPhase(run.stamp);
    if forall v :: !Violates(run, v) {
      assert !Violates(run, NotFullPower) && !Violates(run, BenchTreeNotClean) && !Violates(run, AlpineTreeNotClean);
      assert !Violates(run, TooFewTrials) && !Violates(run, NoSummaryRows);
      if phase.Some? {
        forall required | required in KEY_REQUIRED
          ensures SummaryQualifies(phase.value, Some(|MeasuredTrials(run.trials)|), run.summary, required)
          ensures forall trial | trial in MeasuredTrials(run.trials) ::
                    TrialQualifies(run.stamp, phase.value, run.metrics, trial, required)
        {
          RequiredQualifies(run, phase.value, required);
        }
      }
    }
    if Protocol(run) && (phase.Some? ==> KeyEvidence(run, phase.value)) {
      forall v ensures !Violates(run, v) {
        if v.TrialUnqualified? && phase.Some? {
          EvidencedTrial(run, phase.value, v.trial, v.name);
        }
      }
    }
  }

  lemma EvidencedTrial(run: Run, phase: string, trial: string, name: string)
    requires KeyPhase(run.stamp) == Some(phase) && KeyEvidence(run, phase)
    ensures !TrialViolates(run, trial, name, |KEY_REQUIRED|)
  {
    hide MeasuredTrials, SummaryQualifies, TrialQualifies, Distinct, KeyPhase;
    forall k: nat | k < |KEY_REQUIRED| && trial in MeasuredTrials(run.trials)
      ensures !MetricViolates(run, phase, trial, name, k)
    {
      assert KEY_REQUIRED[k] in KEY_REQUIRED;
    }
  }

  lemma RequiredQualifies(run: Run, phase: string, required: Required)
    requires KeyPhase(run.stamp) == Some(phase) && required in KEY_REQUIRED
    requires forall v :: !Violates(run, v)
    ensures SummaryQualifies(phase, Some(|MeasuredTrials(run.trials)|), run.summary, required)
    ensures forall trial | trial in MeasuredTrials(run.trials) ::
              TrialQualifies(run.stamp, phase, run.metrics, trial, required)
  {
    hide MeasuredTrials, SummaryQualifies, TrialQualifies, KeyPhase;
    assert !Violates(run, SummaryUnqualified(required));
    var k: nat :| k < |KEY_REQUIRED| && KEY_REQUIRED[k] == required;
    forall trial | trial in MeasuredTrials(run.trials)
      ensures TrialQualifies(run.stamp, phase, run.metrics, trial, required)
    {
      assert !Violates(run, TrialUnqualified(trial, required.name));
      assert !MetricViolates(run, phase, trial, required.name, k);
    }
  }

  /** A row over all valid trials also qualifies when their number is not asked for. */
  lemma QualifiesWithoutCount(phase: string, valid: nat, summary: seq<SummaryRow>, required: Required)
    requires SummaryQualifies(phase, Some(valid), summary, required)
    ensures SummaryQualifies(phase, None, summary, required)
  {
    var i: nat :| OnlyAt(summary, SummaryOf(phase, required), i) && QualifiesRow(Some(valid), required, summary[i]);
    assert QualifiesRow(None, required, summary[i]);
  }

  /** The rows reach the write exactly for an admitted run. */
  method Append(run: Run, labels: Labels) returns (r: Result<seq<seq<string>>, Refusal>)
    ensures r.Ok? <==> Admitted(run, labels)
    ensures r.Ok? ==> Writes(run.stamp, labels, Filter(run.summary, Enough), r.value)
  {
    hide MeasuredTrials, Protocol, KeyEvidence, Violates, KeyPhase, Filter, Writes, Writable, SummaryViolates, IsBlank;
    AdmittedHasKeys(run, labels);
    var violations :- ProtocolViolations(run);
    if KeyPhase(run.stamp).Some? {
      var more :- KeyTrialViolations(run);
      violations := violations + more;
    } else {
      NoTrialViolations(run);
    }
    NothingViolated(run);
    assert forall v :: v in violations <==> Violates(run, v);
    if violations != [] {
      assert violations[0] in violations;
      return Err(Violations(violations));
    }
    AllSummariesQualify(run);
    var written :- BaselineRows(run.stamp, run.summary, labels);
    r := Ok(written.0);
  }

  lemma AdmittedHasKeys(run: Run, labels: Labels)
    ensures Admitted(run, labels) ==>
              && {"power", "bench_tree", "app"} <= run.stamp.Keys
              && (KeyPhase(run.stamp).Some? ==> "run_id" in run.stamp && Distinct(MeasuredTrials(run.trials)))
  {
  }

  lemma NoTrialViolations(run: Run)
    requires KeyPhase(run.stamp).None?
    ensures forall v: Violation | v.TrialUnqualified? :: !Violates(run, v)
  {
  }

  lemma AllSummariesQualify(run: Run)
    requires forall v :: !Violates(run, v)
    ensures forall required :: !SummaryViolates(run.stamp, None, run.summary, required)
  {
    hide MeasuredTrials, SummaryQualifies, KeyPhase;
    forall required ensures !SummaryViolates(run.stamp, None, run.summary, required) {
      var phase := KeyPhase(run.stamp);
      if phase.Some? && required in KEY_REQUIRED {
        RequiredQualifies(run, phase.value, required);
        QualifiesWithoutCount(phase.value, |MeasuredTrials(run.trials)|, run.summary, required);
      }
    }
  }

  // ---------------------------------------------------- what admission guarantees

  /** The metrics rows that measure one of the trials, by index. */
  function EvidenceRows(stamp: Stamp, phase: string, metrics: seq<MetricRow>, trials: seq<string>,
                        required: Required): set<nat>
  {
    set i: nat | && i < |metrics| && metrics[i].trial in trials
                 && Measures(stamp, phase, required, metrics[i].trial, metrics[i])
  }

  /** Distinct trials with one row each have as many rows as trials. */
  lemma {:induction false} OneRowPerTrial(stamp: Stamp, phase: string, metrics: seq<MetricRow>, trials: seq<string>,
                                          required: Required)
    requires Distinct(trials)
    requires forall trial | trial in trials :: TrialQualifies(stamp, phase, metrics, trial, required)
    ensures |EvidenceRows(stamp, phase, metrics, trials, required)| == |trials|
    ensures forall i | i in EvidenceRows(stamp, phase, metrics, trials, required) ::
              KeyValue(metrics[i].value, required.unit)
  {
    if trials == [] {
      assert EvidenceRows(stamp, phase, metrics, trials, required) == {};
    } else {
      var last, front := trials[|trials| - 1], trials[..|trials| - 1];
      assert Distinct(front) && last !in front;
      OneRowPerTrial(stamp, phase, metrics, front, required);
      hide Measures, KeyValue, Distinct;
      assert last in trials && TrialQualifies(stamp, phase, metrics, last, required);
      var i: nat :| OnlyAt(metrics, MetricOf(stamp, phase, required, last), i)
                    && KeyValue(metrics[i].value, required.unit);
      NewEvidenceRow(stamp, phase, metrics, trials, required, i);
      assert i !in EvidenceRows(stamp, phase, metrics, front, required) by {
        OwnTrial(stamp, phase, required, last, metrics[i]);
      }
    }
  }

  lemma OwnTrial(stamp: Stamp, phase: string, required: Required, trial: string, row: MetricRow)
    requires MetricOf(stamp, phase, required, trial)(row)
    ensures row.trial == trial
  {
  }

  lemma NewEvidenceRow(stamp: Stamp, phase: string, metrics: seq<MetricRow>, trials: seq<string>, required: Required,
                       i: nat)
    requires trials != [] && OnlyAt(metrics, MetricOf(stamp, phase, required, trials[|trials| - 1]), i)
    ensures EvidenceRows(stamp, phase, metrics, trials, required)
         == EvidenceRows(stamp, phase, metrics, trials[..|trials| - 1], required) + {i}
  {
    var last := trials[|trials| - 1];
    forall j: nat | j < |metrics|
      ensures j in EvidenceRows(stamp, phase, metrics, trials, required) <==>
              j in EvidenceRows(stamp, phase, metrics, trials[..|trials| - 1], required) + {i}
    {
      assert MetricOf(stamp, phase, required, last)(metrics[j]) <==> j == i;
    }
  }

  /** Across the three tables of an admitted typing or caret run: at least ten measured trials
      with distinct numbers; for every required metric one summary row, whose n is both the
      number of trials and the number of metrics rows behind it, all qualifying. */
  lemma AdmittedRunIsComplete(run: Run, labels: Labels, required: Required)
    requires Admitted(run, labels) && required in KEY_REQUIRED
    requires "workload" in run.stamp && (run.stamp["workload"] == "typing" || run.stamp["workload"] == "caret")
    ensures var phase := run.stamp["workload"];
            var trials := MeasuredTrials(run.trials);
            var evidence := EvidenceRows(run.stamp, phase, run.metrics, trials, required);
            && |trials| >= MIN_TRIALS && Distinct(trials)
            && |evidence| == |trials|
            && (forall i | i in evidence :: KeyValue(run.metrics[i].value, required.unit))
            && exists s: nat :: OnlyAt(run.summary, SummaryOf(phase, required), s)
                             && run.summary[s].n.count == Some(|evidence|)
                             && run.summary[s].unit == required.unit
                             && KeyValue(run.summary[s].min, required.unit)
                             && KeyValue(run.summary[s].max, required.unit)
                             && KeyValue(run.summary[s].mean, required.unit)
                             && KeyValue(run.summary[s].median, required.unit)
  {
    hide MeasuredTrials, Distinct, EvidenceRows;
    var phase := KeyPhase(run.stamp).value;
    var trials := MeasuredTrials(run.trials);
    OneRowPerTrial(run.stamp, phase, run.metrics, trials, required);
    assert SummaryQualifies(phase, Some(|trials|), run.summary, required);
  }

  predicate IsCount(x: real, n: nat) {
    n > 0 && x == n as real
  }

  /** What qualifies a value: a flag that is set, a positive whole count, or a time that is not
      negative; never a cell that holds no number. */
  lemma KeyValuesMean(text: string, x: real)
    ensures KeyValue(Cell(text, Some(x)), "bool") <==> x == 1.0
    ensures KeyValue(Cell(text, Some(x)), "count") <==> exists n: nat :: IsCount(x, n)
    ensures KeyValue(Cell(text, Some(x)), "ms") <==> x >= 0.0
    ensures forall unit :: !KeyValue(Cell(text, None), unit)
  {
    if x > 0.0 && x.Floor as real == x {
      var n: nat := x.Floor;
      assert IsCount(x, n);
    }
  }

  /** The evidence behind an admitted run: the five key metrics of the phase, in rows of this
      run, app and workload, of measured trials. */
  lemma EvidenceRowMeans(stamp: Stamp, phase: string, metrics: seq<MetricRow>, trials: seq<string>, name: string,
                         unit: string, i: nat)
    ensures Required(name, unit) in KEY_REQUIRED <==>
              (name, unit) in {("keys_sent", "count"), ("key_semantic_qualified", "bool"), ("key_to_screen_p50", "ms"),
                               ("key_to_screen_p95", "ms"), ("key_to_screen_max", "ms")}
    ensures i in EvidenceRows(stamp, phase, metrics, trials, Required(name, unit)) <==>
              && i < |metrics| && metrics[i].trial in trials
              && "run_id" in stamp && metrics[i].runId == stamp["run_id"]
              && "app" in stamp && metrics[i].app == stamp["app"]
              && metrics[i].workload == phase && metrics[i].phase == phase
              && metrics[i].metric == name && metrics[i].unit == unit
              && metrics[i].warmup == "0" && metrics[i].valid == "1"
  {
  }

  ghost function MeasuredRows(trials: seq<TrialRow>): set<nat> {
    set k: nat | k < |trials| && trials[k].warmup == "0" && trials[k].valid == "1"
  }

  lemma OneMoreMeasured(trials: seq<TrialRow>)
    requires trials != []
    ensures var n := |trials| - 1;
            && n !in MeasuredRows(trials[..n])
            && MeasuredRows(trials) == MeasuredRows(trials[..n]) + if Measured(trials[n]) then {n} else {}
  {
  }

  lemma {:induction false} MeasuredIsSize(trials: seq<TrialRow>)
    ensures |MeasuredTrials(trials)| == |MeasuredRows(trials)|
  {
    if trials == [] {
      assert MeasuredRows(trials) == {};
    } else {
      MeasuredIsSize(trials[..|trials| - 1]);
      OneMoreMeasured(trials);
      hide MeasuredRows;
    }
  }

  /** The protocol of every admitted run: full AC power, clean trees, and ten trials that are no
      warm-up and valid. */
  lemma AdmittedProtocol(run: Run, labels: Labels)
    requires Admitted(run, labels)
    ensures "power" in run.stamp && "ac " <= run.stamp["power"]
    ensures exists i | 0 <= i <= |run.stamp["power"]| :: "lowpower=0" <= run.stamp["power"][i..]
    ensures "bench_tree" in run.stamp && run.stamp["bench_tree"] == "clean" && "app" in run.stamp
    ensures run.stamp["app"] == "alpine" ==> "alpine_tree" in run.stamp && run.stamp["alpine_tree"] == "clean"
    ensures |MeasuredRows(run.trials)| >= 10
    ensures run.summary != [] && exists c | c in labels.milestone :: !IsWhitespace(c)
  {
    hide KeyEvidence, Writable, IsWhitespace, MeasuredTrials, KeyPhase;
    MeasuredIsSize(run.trials);
  }

  /** A row of the metrics table that holds a reported metric. */
  predicate Holds(row: MetricRow, m: Metrics.Metric) {
    row.phase == m.phase && row.metric == m.name && row.value.number == Some(m.value) && row.unit == m.unit
  }

  /** In an admitted run, a metrics row that measures a required metric of a measured trial
      qualifies. */
  lemma AdmittedRowQualifies(run: Run, labels: Labels, i: nat, required: Required)
    requires Admitted(run, labels) && KeyPhase(run.stamp).Some? && required in KEY_REQUIRED && i < |run.metrics|
    requires var row := run.metrics[i];
             && row.trial in MeasuredTrials(run.trials)
             && Measures(run.stamp, KeyPhase(run.stamp).value, required, row.trial, row)
    ensures KeyValue(run.metrics[i].value, required.unit)
  {
    hide MeasuredTrials, KeyPhase, SummaryQualifies, Distinct, Measures;
    var phase, row := KeyPhase(run.stamp).value, run.metrics[i];
    assert TrialQualifies(run.stamp, phase, run.metrics, row.trial, required);
    assert MetricOf(run.stamp, phase, required, row.trial)(row);
  }

  /** Hash timing cannot make a baseline: a typing or caret run in which one measured trial
      takes its semantic qualification from `latency_metrics` is never admitted, however the
      keys were measured and whatever the summary says. */
  lemma HashTimingIsNeverAdmitted(run: Run, labels: Labels, i: nat, k: Latency.KeyLatencies, sent: nat,
                                  report: seq<Metrics.Metric>, m: Metrics.Metric)
    requires KeyPhase(run.stamp).Some? && i < |run.metrics|
    requires var row, required := run.metrics[i], Required("key_semantic_qualified", "bool");
             && row.trial in MeasuredTrials(run.trials)
             && Measures(run.stamp, KeyPhase(run.stamp).value, required, row.trial, row)
             && Metrics.IsReport(row.phase, k, sent, report) && m in report && Holds(row, m)
    ensures !Admitted(run, labels)
  {
    hide MeasuredTrials, KeyPhase, Admitted, Metrics.IsReport;
    Metrics.HashTimingIsUnqualified(run.metrics[i].phase, k, sent, report, m);
    if Admitted(run, labels) {
      AdmittedRowQualifies(run, labels, i, Required("key_semantic_qualified", "bool"));
    }
  }

  /** The rows that a typing or caret run must have are always among those written. */
  lemma RequiredRowsAreWritten(stamp: Stamp, summary: seq<SummaryRow>, required: Required)
    requires KeyPhase(stamp).Some? && required in KEY_REQUIRED && !SummaryViolates(stamp, None, summary, required)
    ensures exists row | row in Filter(summary, Enough) ::
              row.phase == stamp["workload"] && row.metric == required.name && row.unit == required.unit
  {
    hide Filter, KeyValue;
    var i: nat :| OnlyAt(summary, SummaryOf(stamp["workload"], required), i)
                  && QualifiesRow(None, required, summary[i]);
    OnlyAtHolds(summary, SummaryOf(stamp["workload"], required), i);
    FilterHolds(summary, Enough, summary[i]);
  }

  lemma OnlyAtHolds<T>(rows: seq<T>, P: T -> bool, i: nat)
    requires OnlyAt(rows, P, i)
    ensures i < |rows| && rows[i] in rows && P(rows[i])
  {
  }

  lemma {:induction false} FilterHolds<T>(rows: seq<T>, P: T -> bool, row: T)
    ensures row in Filter(rows, P) <==> row in rows && P(row)
  {
    hide Filter;
    if rows == [] {
      FilterNothing(P);
    } else {
      FilterHolds(rows[..|rows| - 1], P, row);
      FilterEnd(rows, P);
      assert rows == rows[..|rows| - 1] + [rows[|rows| - 1]];
    }
  }

  /** Every written row is a summary row over at least ten values, each once and in order, and
      the skipped ones are the rest. */
  lemma {:induction false} WrittenRowsHaveEnough(rows: seq<SummaryRow>)
    ensures forall row | row in Filter(rows, Enough) :: Enough(row) && row in rows
    ensures |Filter(rows, Enough)| + |Filter(rows, Short)| == |rows|
    ensures multiset(Filter(rows, Enough)) + multiset(Filter(rows, Short)) == multiset(rows)
  {
    hide Filter;
    if rows == [] {
      FilterNothing(Enough);
      FilterNothing(Short);
    } else {
      WrittenRowsHaveEnough(rows[..|rows| - 1]);
      FilterEnd(rows, Enough);
      FilterEnd(rows, Short);
      assert rows == rows[..|rows| - 1] + [rows[|rows| - 1]];
    }
  }
}
