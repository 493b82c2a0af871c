/** The metric record shared by the analysis, and `latency_metrics` of `analysis.rs`. */
module Metrics {
  import opened Latency
  import opened Stats

  datatype Metric = Metric(phase: string, name: string, value: real, unit: string)

  function Flag(b: bool): real {
    if b then 1.0 else 0.0
  }

  /** Every key that was sent was timed, and the input could be trusted. */
  predicate Complete(k: KeyLatencies, sent: nat) {
    && sent > 0 && |k.measured| == sent
    && k.late + k.missed + k.ambiguous == 0
    && !k.invalidTimestamps && !k.recordLimitExceeded
  }

  /** The counters, reported whether or not percentiles can be. */
  function Counters(phase: string, k: KeyLatencies, sent: nat): seq<Metric> {
    [Metric(phase, "keys_sent", sent as real, "count"),
     Metric(phase, "keys_hash_timed", |k.measured| as real, "count"),
     Metric(phase, "keys_late", k.late as real, "count"),
     Metric(phase, "keys_missed", k.missed as real, "count"),
     Metric(phase, "keys_ambiguous", k.ambiguous as real, "count"),
     Metric(phase, "key_timestamps_valid", Flag(!k.invalidTimestamps && !k.recordLimitExceeded), "bool"),
     Metric(phase, "key_hash_timing_complete", Flag(Complete(k, sent)), "bool"),
     Metric(phase, "key_semantic_qualified", 0.0, "bool"),
     Metric(phase, "key_analysis_within_limit", Flag(!k.recordLimitExceeded), "bool")]
  }

  const PERCENTILES: seq<(string, real)> := [("p50", 0.5), ("p95", 0.95), ("max", 1.0)]

  /** What is reported of one analysis: the counters, and the percentiles of the measured
      times if it is complete. */
  ghost predicate IsReport(phase: string, k: KeyLatencies, sent: nat, metrics: seq<Metric>) {
    && |metrics| == (if Complete(k, sent) then 12 else 9)
    && metrics[..9] == Counters(phase, k, sent)
    && forall i | 9 <= i < |metrics| ::
         && metrics[i].phase == phase && metrics[i].unit == "ms"
         && metrics[i].name == "key_hash_change_" + PERCENTILES[i - 9].0
         && IsNearestRank(k.measured, PERCENTILES[i - 9].1, metrics[i].value)
  }

  method LatencyMetrics(phase: string, latencies: KeyLatencies, sent: nat) returns (metrics: seq<Metric>)
    ensures IsReport(phase, latencies, sent, metrics)
  {
    hide IsNearestRank;
    var complete := Complete(latencies, sent);
    metrics := Counters(phase, latencies, sent);
    if !complete {
      return metrics;
    }
    for i := 0 to 3
      invariant |metrics| == 9 + i && metrics[..9] == Counters(phase, latencies, sent)
      invariant forall k | 9 <= k < |metrics| ::
                  && metrics[k].phase == phase && metrics[k].unit == "ms"
                  && metrics[k].name == "key_hash_change_" + PERCENTILES[k - 9].0
                  && IsNearestRank(latencies.measured, PERCENTILES[k - 9].1, metrics[k].value)
    {
      var (suffix, quantile) := PERCENTILES[i];
      var value := NearestRank(latencies.measured, quantile);
      if value.Some? {
        metrics := metrics + [Metric(phase, "key_hash_change_" + suffix, value.value, "ms")];
      }
    }
  }

  /** Timing by picture hashes alone always reports itself semantically unqualified. */
  lemma HashTimingIsUnqualified(phase: string, k: KeyLatencies, sent: nat, metrics: seq<Metric>, m: Metric)
    requires IsReport(phase, k, sent, metrics) && m in metrics && m.name == "key_semantic_qualified"
    ensures m.value == 0.0
  {
    hide IsNearestRank, Complete;
    var i: nat :| i < |metrics| && metrics[i] == m;
    assert |m.name| == 22;
    assert |PERCENTILES[0].0| == |PERCENTILES[1].0| == |PERCENTILES[2].0| == 3;
    if i < 9 {
      assert metrics[..9][i] == m;
      NamesByLength(phase, k, sent, i);
    }
  }

  lemma NamesByLength(phase: string, k: KeyLatencies, sent: nat, i: nat)
    requires i < 9 && |Counters(phase, k, sent)[i].name| == 22
    ensures Counters(phase, k, sent)[i].value == 0.0
  {
    hide Complete;
    assert i == 7;
  }

  /** Percentiles are reported for an analysed run exactly when every one of its keys, of
      which there is at least one, was measured. */
  lemma CompleteMeansAllMeasured(events: seq<InputEvent>, frames: seq<Frame>, timebase: Timebase, spacing: nat,
                                 k: KeyLatencies)
    requires IsAnswer(events, frames, timebase, spacing, k)
    ensures Complete(k, |events|) <==> events != [] && |k.measured| == |events|
  {
    KeysAreConserved(events, frames, timebase, spacing, k);
  }

  /** So percentiles are reported exactly of a run whose input was sound and within the limit,
      whose screen had settled before the first key, and each of whose keys was answered by a
      change strictly inside its own window. */
  lemma CompleteMeansAllAnswered(events: seq<InputEvent>, frames: seq<Frame>, timebase: Timebase, spacing: nat,
                                 k: KeyLatencies)
    requires IsAnswer(events, frames, timebase, spacing, k)
    ensures Complete(k, |events|) <==>
              && |frames| <= 65536 && |events| <= 65536
              && ValidInput(events, Members(frames), timebase, spacing)
              && HasBaseline(events, Members(frames))
              && forall i | 0 <= i < |events| :: AnsweredInTime(events, Members(frames), spacing, i)
  {
    hide ValidInput, HasBaseline, AnsweredInTime, Members;
    CompleteMeansAllMeasured(events, frames, timebase, spacing, k);
    BaselineHasEvent(events, Members(frames));
    if |frames| <= MAX_KEY_RECORDS && |events| <= MAX_KEY_RECORDS
       && ValidInput(events, Members(frames), timebase, spacing) {
      CountsAreExact(events, Members(frames), timebase, spacing, k);
    }
  }

  lemma BaselineHasEvent(events: seq<InputEvent>, frames: set<Frame>)
    ensures HasBaseline(events, frames) ==> events != []
  {
  }

  // --------------------------------------------------------- the report by name

  /** Every entry of a report, read by its name. */
  lemma ReportByName(phase: string, k: KeyLatencies, sent: nat, metrics: seq<Metric>, m: Metric)
    requires IsReport(phase, k, sent, metrics) && m in metrics
    ensures m.phase == phase
    ensures m.name == "keys_sent" ==> m.value == sent as real
    ensures m.name == "keys_hash_timed" ==> m.value == |k.measured| as real
    ensures m.name == "keys_late" ==> m.value == k.late as real
    ensures m.name == "keys_missed" ==> m.value == k.missed as real
    ensures m.name == "keys_ambiguous" ==> m.value == k.ambiguous as real
    ensures m.name == "key_timestamps_valid" ==>
              m.value == if k.invalidTimestamps || k.recordLimitExceeded then 0.0 else 1.0
    ensures m.name == "key_analysis_within_limit" ==> m.value == if k.recordLimitExceeded then 0.0 else 1.0
    ensures m.name == "key_hash_timing_complete" ==> m.value == if Complete(k, sent) then 1.0 else 0.0
    ensures m.name == "key_hash_change_p50" ==> Complete(k, sent) && IsNearestRank(k.measured, 0.5, m.value)
    ensures m.name == "key_hash_change_p95" ==> Complete(k, sent) && IsNearestRank(k.measured, 0.95, m.value)
    ensures m.name == "key_hash_change_max" ==> Complete(k, sent) && IsNearestRank(k.measured, 1.0, m.value)
  {
    hide IsNearestRank, Complete;
    var i: nat :| i < |metrics| && metrics[i] == m;
    if i >= 9 {
      var suffix := m.name[16..];
      assert suffix == PERCENTILES[i - 9].0;
      assert "key_hash_change_p50"[16..] == "p50" && "key_hash_change_p95"[16..] == "p95";
      assert "key_hash_change_max"[16..] == "max";
      assert suffix[0] == 'p' || suffix[0] == 'm';
    }
  }
}
