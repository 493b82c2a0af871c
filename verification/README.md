# Alpine editor and benchmark: a verified model

This project models the parts of the Alpine editor and of its benchmark whose results are
reached by a trickier route than their meaning, and proves the route right. `dafny verify
dfyconfig.toml` checks everything.

## What is modelled

- **Preedit projection** (`Text`, `Projection`). Text that is being composed is shown inside the
  document without being in it. The code rebuilds only the changed paragraph and reads all other
  lines from the old document with shifted numbers. The model states what a snapshot promises for
  scalars, lines, bytes and UTF-16 units, and proves the projection equal to really splicing the
  text, including a lone CR that the projection joins to an LF, and which source line each line is.
- **Marked ranges** (`VisualSpans`). The visual intervals of a selection are computed from a few
  glyph clusters. They are proved to be the merge of what all clusters of the line contribute, and
  at most two clusters to need the shaper's carets.
- **Tabs** (`TabState`, `DocumentTabs`, `TabRuns`, `TabEntries`). Documents move between the tab list and the
  caller's active document, may be deferred, are bounded by budgets, and are visited through a
  bounded history. `DocumentTabs` is the class; `TabState` says what each operation computes;
  `TabRuns` proves the invariant, the ownership map and the behaviour of whole runs; `TabEntries`
  proves the operations equal to plain edits of the list a user sees.
- **Command palette** (`Matching`, `Commands`). Greedy subsequence search, word prefixes, ranking,
  and a selection with a scrolling window.
- **Latency analysis** (`Latency`, `Metrics`, `Summaries`, `Stats`, `Spread`). Keys are matched with screen
  changes by sorting, bisecting and a sticky flag; metrics are grouped across trials; percentiles
  are nearest-rank, and summaries carry a t interval.
- **Evidence and admission** (`Evidence`, `Gate`, `Baseline`). The trace acceptor, the idle gate's
  polling loop, and the decision whether a run's rows join the baseline, each proved equal to a
  declarative condition.
- **Small algorithms** (`Calendar`, `Descendants`, `Tsv`, `TsvTable`). Civil dates, breadth-first
  search over processes, and the table format's printer and parser.

`Sorting`, `Characters`, `Machine` and `Wrappers` hold what several modules share: a sort known only
by its contract, character classes, machine limits, and the option and result types.

## Where a promise does not hold as stated

- `source_to_display` followed by `display_to_source` is the identity except at the end of a
  replaced range whose preedit is empty: there the answer is the range's start
  (`Projection.CoordinateRoundTrip`, with an instance in `Projection.DeletionEndDoesNotRoundTrip`).
- `Table::parse` skips empty lines, so a rendered table comes back exactly when it has a column and
  no row is one empty field. Tables with two columns or more always do (`Tsv.ParseInvertsRender`).
- The comment on `summarize_trials` says that every row has one value per trial. That holds exactly
  if every kept key is, in every trial, either recorded once, or missing from a phase that ran while
  it is a child reported in one unit (`Summaries.EveryRowHasOneValuePerTrial`). A trial without the
  phase brings no value, a child in two units two zeros, and a key recorded twice two values. A
  row's n alone does not show this, since the first two can cancel out (`Summaries.RowCountIsExact`,
  `Summaries.TotalHidesFaults`); `Summaries.FailingInstances` gives an input of each family.
- The gate repeats its state every 60 polls until its 32-bit counter saturates, after about 680
  years of waiting (`Gate.HeartbeatsStopAtSaturation`).

One thing the code does not promise is worth knowing: the subsequence score counts what the
earliest embedding skips. `Matching.EarliestIsTightest` says exactly when no other skips less.

## How the source is rendered

Objects whose methods update fields are classes, loops are loops, and each is proved against a
specification. A `&mut` document of the caller is passed in and returned. Sample scripts, caret
queries, prepared edits and file contents are parameters. `f32` and `f64` values are exact reals,
and the square root is a parameter known by its square. Machine integers are unbounded where the
invariants keep them in range; the saturating counters, the 16-bit gap count and the 64-bit id limit
are written out.

## Model

| member | source | states |
|---|---|---|
| Text.IndexOfIsInverse | crates/alpine-text/src/lib.rs:616-640 | Reading an offset in UTF-8 bytes or UTF-16 units is the exact inverse of measuring a prefix: None inside a scalar, inside a surrogate pair and past the end |
| Text.PositionIsPrefix | crates/alpine-text/src/lib.rs:741-752 | A byte offset is accepted if and only if it measures a prefix of the text in whole scalars |
| Text.LineStartAt | crates/alpine-text/src/lib.rs:453-463 | A boundary with l line ends before it is the start of line l, and the only one |
| Text.LinesPartition | crates/alpine-text/src/lib.rs:453-475 | The lines cut the text without gap or overlap; each holds no terminator before its end, and every line but the last is closed by one |
| Text.PositionInLine | crates/alpine-text/src/lib.rs:477-486 | The line that a position is looked up in is the line whose range holds it |
| Text.SliceIsSubstring | crates/alpine-text/src/lib.rs:442-451 | Slicing between two scalar boundaries returns exactly the scalars between them |
| Text.LineRight | crates/alpine-text/src/lib.rs:453-475 | If joining two texts creates no new CRLF, the later lines are those of the second text, shifted by the first one in line number and UTF-16 start |
| Text.LineEndsAreLineFeeds | crates/alpine-text/src/lib.rs:453-475 | A text has as many line ends as it has line feeds once every CRLF and lone CR is made one |
| Text.TextRefusals | crates/alpine-text/src/lib.rs:442-463 | Each bad argument gets its own error: a byte past the end, a byte inside a scalar, a line past the last, a reversed range, a UTF-16 offset inside a pair or past the end |
| Text.Utf16Units | crates/alpine-text/src/lib.rs:599-640 | A scalar takes one UTF-16 unit exactly if it has sixteen bits, and otherwise is a surrogate pair |
| Projection.NewAccepts | apps/alpine-editor/src/composition.rs:124-188 | `new` succeeds if and only if the range is ordered, both ends are scalar boundaries, and the rebuilt paragraph fits the byte limit |
| Projection.NewSplits | apps/alpine-editor/src/composition.rs:124-188 | What is rebuilt is exactly whole lines around the replaced range, one line earlier when a lone CR comes before them, and all measures match the cut |
| Projection.RebuiltFrom | apps/alpine-editor/src/composition.rs:124-146 | The rebuilt part begins with the line of the range's start, or the line before it exactly if a lone CR ends that |
| Projection.LineCountRefines | apps/alpine-editor/src/composition.rs:194-196 | The line count is that of the really spliced text |
| Projection.LineRefines | apps/alpine-editor/src/composition.rs:198-222 | Every line, before, inside and after the rebuilt paragraph, has the text and UTF-16 start of the spliced text's line, and the same error past the end |
| Projection.ProjectionRefinesSplice | apps/alpine-editor/src/composition.rs:123-222 | For every accepted composition the projection shows the really spliced document: the same line count, and the same text and start for every line |
| Projection.SourceLineIsKept | apps/alpine-editor/src/composition.rs:198-222 | For every accepted composition a display line names no source line exactly inside the rebuilt part; any other names, counted from the front or from the back, the source line whose scalars it consists of, before or after the part |
| Projection.MarkShowsPreedit | apps/alpine-editor/src/composition.rs:124-192 | The mark is the UTF-16 range at which the spliced document shows the preedit |
| Projection.DisplayIndexRefines | apps/alpine-editor/src/composition.rs:224-238 | The line computed from a UTF-16 offset is the spliced text's line holding it, with the same errors inside a surrogate pair and past the end |
| Projection.LineAtRefinesSplice | apps/alpine-editor/src/composition.rs:224-240 | For every accepted composition `line_at_utf16` returns the spliced document's line that holds the offset |
| Projection.SourceToDisplayIsSplicePosition | apps/alpine-editor/src/composition.rs:242-267 | A kept scalar keeps its identity, for either choice of side: its source offset goes to the offset of the same scalar in the spliced text, and a replaced one to none |
| Projection.CoordinateRoundTrip | apps/alpine-editor/src/composition.rs:242-267 | Source to display and back is the identity exactly unless the preedit is empty, the replacement is not, and the index is its end; only offsets strictly inside the replaced range have no display offset |
| Projection.DeletionEndDoesNotRoundTrip | apps/alpine-editor/src/composition.rs:242-267 | A concrete deletion whose end does not come back |
| VisualSpans.FilterIsExact | apps/alpine-editor/src/composition.rs:15-46 | With only the selected clusters, the nearest predecessor and the nearest successor kept, every cluster contributes the same span, and the same caret queries fail, as with all clusters kept |
| VisualSpans.NarrowedIsIntersection | apps/alpine-editor/src/composition.rs:66-75 | A partly selected cluster contributes the intersection of its extent with the interval between the two carets; coinciding carets leave the extent whole |
| VisualSpans.TwoClustersNeedCarets | apps/alpine-editor/src/composition.rs:6-7 | At most two clusters of a line need caret queries: the ones that hold an end of the selection |
| VisualSpans.OthersNeedNoCarets | apps/alpine-editor/src/composition.rs:64-75 | What every other cluster contributes is the same whatever the shaper answers, and it never fails |
| VisualSpans.WholeClusterContributes | apps/alpine-editor/src/composition.rs:63-79 | A wholly selected cluster contributes exactly its extent |
| VisualSpans.GlyphIsShown | apps/alpine-editor/src/composition.rs:8-99 | Every glyph of a wholly selected cluster lies inside one of the spans |
| VisualSpans.SpansEndAtGlyphs | apps/alpine-editor/src/composition.rs:8-99 | On a wholly selected line every span begins and ends at an edge of a glyph |
| VisualSpans.TwoGlyphsAreOneSpan | apps/alpine-editor/src/composition.rs:8-99 | An instance: two adjoining glyphs of ten units, all selected, give the span from 0 to 20 |
| VisualSpans.Group | apps/alpine-editor/src/composition.rs:54-62 | The inner loop reads exactly the glyphs of one cluster: its extent is their hull, and its end is the next cluster's index or the length |
| VisualSpans.RawSpans | apps/alpine-editor/src/composition.rs:53-79 | The loop produces exactly the spans that the clusters contribute, and fails if and only if some needed caret query fails |
| VisualSpans.Merge | apps/alpine-editor/src/composition.rs:80-93 | The merged list is sorted, has gaps of more than 0.01, covers every input, ends where inputs end, and has no point that no input reaches within 0.01 |
| VisualSpans.MergeIsUnique | apps/alpine-editor/src/composition.rs:80-93 | Those conditions fix the list: there is only one merge of a set of spans |
| VisualSpans.NearSpansJoin | apps/alpine-editor/src/composition.rs:80-93 | Two spans apart become one exactly if the gap between them is at most 0.01 |
| VisualSpans.VisualSpans | apps/alpine-editor/src/composition.rs:8-99 | The result is the merge of what the clusters of the whole line contribute, although few of them are read; with none, the caret at the selection's start, and it fails exactly when a needed caret query does |
| VisualSpans.OrderDoesNotMatter | apps/alpine-editor/src/composition.rs:8-99 | Listing the same glyphs in another order gives the same spans |
| DocumentTabs.DocumentTabs.New | apps/alpine-editor/src/documents.rs:141-183 | Creates the one-tab state of the specification, which is valid, or its error |
| DocumentTabs.DocumentTabs.FromRestored | apps/alpine-editor/src/documents.rs:185-256 | The restoring loop, with its running byte sum and duplicate search, reaches the specified state, which is valid, or the first error |
| DocumentTabs.DocumentTabs.Materialize | apps/alpine-editor/src/documents.rs:309-327 | The new state and result are those of the specification |
| DocumentTabs.DocumentTabs.ResetActiveToScratch | apps/alpine-editor/src/documents.rs:358-373 | The new state and result are those of the specification |
| DocumentTabs.DocumentTabs.RecordNavigation | apps/alpine-editor/src/documents.rs:707-719 | Truncating, dropping the oldest entry and pushing produce the specified history |
| DocumentTabs.DocumentTabs.SwitchTo | apps/alpine-editor/src/documents.rs:673-705 | The two payload moves leave the specified tabs, hand the caller the specified document, and change nothing on an error |
| DocumentTabs.DocumentTabs.Activate | apps/alpine-editor/src/documents.rs:550-567 | The new state, document and result are those of the specification |
| DocumentTabs.DocumentTabs.NavigateBack | apps/alpine-editor/src/documents.rs:569-587 | The loop over the cursor stops at the specified history position |
| DocumentTabs.DocumentTabs.NavigateForward | apps/alpine-editor/src/documents.rs:589-610 | The loop over the cursor stops at the specified history position |
| DocumentTabs.DocumentTabs.InsertAndActivate | apps/alpine-editor/src/documents.rs:487-548 | The new state, document and result are those of the specification |
| DocumentTabs.DocumentTabs.CloseActive | apps/alpine-editor/src/documents.rs:612-643 | The new state, document and result are those of the specification |
| DocumentTabs.DocumentTabs.Perform | apps/alpine-editor/src/documents.rs:141-718 | On a valid list every operation can be called, leaves it valid, and has the effect that runs are built from |
| TabRuns.NewIsValid | apps/alpine-editor/src/documents.rs:141-183 | A new list is valid, and refused exactly for limits of zero and a path over the budget |
| TabRuns.NewHoldsDocument | apps/alpine-editor/src/documents.rs:141-183 | A new list maps id 1 to the caller's document |
| TabRuns.RestoredIsValid | apps/alpine-editor/src/documents.rs:185-256 | Restoring succeeds exactly for a non-empty list within the limits whose paths differ; then the state is valid and all tabs but the active one are deferred |
| TabRuns.TabMeans | apps/alpine-editor/src/documents.rs:721-740 | A tab is titled with its file name or `Untitled` and takes the bytes of path and title; paths are compared by components |
| TabRuns.SwitchKeeps | apps/alpine-editor/src/documents.rs:673-705 | Switching keeps the invariant and the map from tab id to document, saves the view left, and changes no other field |
| TabRuns.SwitchSucceeds | apps/alpine-editor/src/documents.rs:673-705 | Switching succeeds exactly for another open tab that is not deferred, hands over that tab's document and view, and otherwise changes nothing |
| TabRuns.RecordKeeps | apps/alpine-editor/src/documents.rs:707-719 | The history becomes the last `historyCapacity` entries of the path taken with the visit at its end, or stays when the visit is where one is |
| TabRuns.ActivateKeeps | apps/alpine-editor/src/documents.rs:550-567 | Activating keeps the invariant and the documents, succeeds exactly for the active tab or one that is not deferred, and a failure changes nothing |
| TabRuns.ActivateVisits | apps/alpine-editor/src/documents.rs:550-567 | Activating another tab adds one visit to the history |
| TabRuns.InsertVisits | apps/alpine-editor/src/documents.rs:487-548 | Inserting adds one visit to the history |
| TabRuns.CloseVisits | apps/alpine-editor/src/documents.rs:612-643 | Closing adds one visit, of the neighbour, to the history |
| TabRuns.BackAfterActivate | apps/alpine-editor/src/documents.rs:329-342 | After opening another tab, back leads to the one left if and only if the history can hold two entries |
| TabRuns.NavigateKeeps | apps/alpine-editor/src/documents.rs:569-610 | Navigation goes exactly to `navigation_target`, which exists if and only if `can_navigate_*` holds; it fails exactly when that tab is deferred, and then changes nothing |
| TabRuns.ThereAndBack | apps/alpine-editor/src/documents.rs:569-610 | Back then forward, or forward then back, restores tab, document and saved view whatever closed or repeated ids the history holds; only the cursor and the two views may differ |
| TabRuns.InsertKeeps | apps/alpine-editor/src/documents.rs:487-548 | Inserting keeps the invariant, uses an id never open before, and adds exactly that entry to the documents; a failure changes nothing |
| TabRuns.InsertSucceeds | apps/alpine-editor/src/documents.rs:487-548 | Inserting succeeds if and only if no tab holds the path and the tab, id, length and byte limits allow it |
| TabRuns.CloseKeeps | apps/alpine-editor/src/documents.rs:612-643 | Closing keeps the invariant, removes exactly the active entry from the documents, activates the tab that takes its place, or else the last, and fails exactly for the last tab or a deferred neighbour |
| TabRuns.MaterializeKeeps | apps/alpine-editor/src/documents.rs:309-327 | Materializing replaces exactly one deferred entry by the document, and fails on any other tab without a change |
| TabRuns.ResetKeeps | apps/alpine-editor/src/documents.rs:358-373 | Resetting keeps the invariant, the id and the documents, and releases the path |
| TabRuns.StepKeeps | apps/alpine-editor/src/documents.rs:141-718 | Every operation keeps the invariant, and every id it leaves open was open before or is new |
| TabRuns.RunKeeps | apps/alpine-editor/src/documents.rs:141-718 | Every run keeps the invariant: payload ownership, exact byte sum within the budget, distinct ids and paths, bounded history whose cursor names the active tab; an id once closed is never used again |
| TabEntries.NewShows | apps/alpine-editor/src/documents.rs:141-183 | A new list shows one entry with the given path, workspace entry and document; each refusal has its own error |
| TabEntries.RestoredShows | apps/alpine-editor/src/documents.rs:185-256 | Every restored tab shows its own path and the view it was saved with, in order |
| TabEntries.RestoredViewReturns | apps/alpine-editor/src/documents.rs:185-327 | A restored tab, once loaded, is opened with its document and the view it was saved with |
| TabEntries.ActivateShows | apps/alpine-editor/src/documents.rs:550-567 | Activating edits the shown list in one place, the view of the tab left, and answers with the other tab's view and document; each refusal has its own error |
| TabEntries.NavigateShows | apps/alpine-editor/src/documents.rs:569-610 | Navigating edits the shown list in the same way and answers for the tab it moves to |
| TabEntries.InsertShows | apps/alpine-editor/src/documents.rs:487-548 | Inserting leaves the active tab with its view and adds one entry at the end; the first failing check names the error |
| TabEntries.CloseShows | apps/alpine-editor/src/documents.rs:612-643 | Closing removes the active entry and answers with the neighbour's view and document; each refusal has its own error |
| TabEntries.MaterializeShows | apps/alpine-editor/src/documents.rs:309-327 | Loading fills in one deferred entry; each refusal has its own error |
| TabEntries.ResetShows | apps/alpine-editor/src/documents.rs:358-373 | Resetting clears path, workspace entry and view of the active entry and keeps its document |
| TabEntries.StepKeepsAway | apps/alpine-editor/src/documents.rs:141-718 | No operation touches an entry that is not active, but for loading its document |
| TabEntries.RunKeepsAway | apps/alpine-editor/src/documents.rs:141-718 | Through any run during which a tab is not active it keeps its path, its document and the view it was left with |
| Latency.BadFrames | bench/src/analysis.rs:372-438 | The two indexes find a contradiction if and only if two frames of the set contradict each other or one is malformed |
| Latency.ChangedFrames | bench/src/analysis.rs:345-353 | Sorting by display and comparing neighbours yields the specified change list of the same set of frames |
| Latency.ChangesAreExact | bench/src/analysis.rs:345-353 | The change list holds exactly the ticks at which the set of frames changes, in strictly increasing order, whatever order ties come in |
| Latency.PartitionPoint | bench/src/analysis.rs:372-438 | The bisection returns how many changes come before the tick |
| Latency.MatchKeys | bench/src/analysis.rs:372-438 | The loop's counters, sticky flag and bisection compute the declarative relation between the events and the set of frames, or the fixed answer over the record limit |
| Latency.LatenciesAreUnique | bench/src/analysis.rs:372-438 | That relation has one answer, so neither the order of the frames nor exact duplicates can matter |
| Latency.OnlyTheSetMatters | bench/src/analysis.rs:372-438 | Two lists of the same frames within the record limit, in any order and with any exact duplicates, get the same answer |
| Latency.KeysAreConserved | bench/src/analysis.rs:372-438 | measured + late + missed + ambiguous is the number of events: on valid input, on refused input and over the record limit |
| Latency.MeasuredKeysOwnTheirChange | bench/src/analysis.rs:391-438 | The measured keys are a prefix, each timed by the first change since it, strictly inside its own window, and no change is used twice |
| Latency.NanosAreWhole | bench/src/helpers.rs:31-34 | A tick lasts numer / denom nanoseconds: the result is the number of whole nanoseconds, up to a full word |
| Latency.MillisAreSigned | bench/src/helpers.rs:41-47 | Swapping start and end changes the sign; a later end is never a shorter time |
| Latency.TenMillis | bench/src/helpers.rs:31-47 | An instance: 240000 ticks of 125/3 nanoseconds are ten milliseconds |
| Latency.MeasuredTimesAreElapsed | bench/src/analysis.rs:391-438 | Each measured time is the time from the key to its change, to the nanosecond below, in ticks and timebase, and no longer than the key's window |
| Latency.CountsAreExact | bench/src/analysis.rs:391-438 | The exact counts: measured are all keys up to the first not answered inside its window, missed those after which nothing changed, late those past the measured that were first answered after their window |
| Latency.SlowAnswersAreNeverMeasured | bench/src/analysis.rs:391-438 | If equally spaced keys are each answered no sooner than the spacing, nothing is measured |
| Metrics.LatencyMetrics | bench/src/analysis.rs:585-646 | Nine counters always, and three nearest-rank percentiles of the measured times exactly when the run is complete |
| Metrics.CompleteMeansAllMeasured | bench/src/analysis.rs:585-646 | An analysis is complete if and only if there was a key and every key was measured |
| Metrics.CompleteMeansAllAnswered | bench/src/analysis.rs:372-646 | Percentiles are reported if and only if input is sound and within the limit, the screen had settled before the first key, and every key is answered by a change inside its own window |
| Metrics.ReportByName | bench/src/analysis.rs:585-646 | Each entry of the report, read by its name, is the counter or the nearest-rank percentile that the name says |
| Summaries.Summarize | bench/src/analysis.rs:816-839 | The map-and-order loop yields one row per key in first-seen order, each summarizing exactly the values with its key |
| Summaries.RowsPartitionMetrics | bench/src/analysis.rs:816-839 | The rows' keys differ and their counts add up to the number of metrics |
| Summaries.SummarizeTrials | bench/src/analysis.rs:846-889 | Filling, summarizing and filtering give the specified table |
| Summaries.RetainIsExact | bench/src/analysis.rs:868-888 | The kept rows are exactly those that are no key timing or are qualified in every trial |
| Summaries.KeyTimingRows | bench/src/analysis.rs:868-888 | A hash timing row is returned if and only if every trial recorded it and was complete, a screen timing row if and only if every trial recorded it and was qualified, any other row if it was recorded |
| Summaries.HashRowsNeedCompleteTrials | bench/src/analysis.rs:585-889 | If the trials hold reports of `latency_metrics`, a percentile of hash timing has a row if and only if the analysis of every trial was complete |
| Summaries.HashTimingHasNoScreenRow | bench/src/analysis.rs:585-889 | Such trials never have a row of screen timing |
| Summaries.EveryRowHasOneValuePerTrial | bench/src/analysis.rs:841-889 | Every returned row gets one value from each trial if and only if, for each recorded key that the filter keeps, every trial recorded it once, or ran its phase without it while it is a child that the trials report in one unit |
| Summaries.RowHasOneValuePerTrial | bench/src/analysis.rs:841-889 | One returned row gets one value from each trial if and only if every trial meets that condition for its key; then its n is the number of trials |
| Summaries.RowsAreKeys | bench/src/analysis.rs:846-889 | The rows are those of the recorded keys that the filter keeps; filling in adds no key |
| Summaries.ContributionIsExact | bench/src/analysis.rs:855-866 | A trial brings its own values of a key if it has any, otherwise a zero per unit if it ran the phase, otherwise nothing |
| Summaries.FilledCount | bench/src/analysis.rs:846-867 | A key's values number its occurrences plus one zero per reported unit for each trial that ran the phase without it |
| Summaries.GapsCountAsZero | bench/src/analysis.rs:841-889 | The mean of every returned row times its n is the sum of the recorded values, so a filled gap counts as zero, and a row with one reaches down to zero |
| Summaries.UnitsAreDistinct | bench/src/analysis.rs:847-853 | Zeros are filled in only for child names, one for each distinct unit that the trials report the child in |
| Summaries.RowCountIsExact | bench/src/analysis.rs:841-889 | The n of every returned row is its occurrences plus units times gaps; without repeats that is the trials that ran the phase plus (units - 1) times the gaps |
| Summaries.ChildRowHasOneValuePerRun | bench/src/analysis.rs:841-889 | A returned child row reported in one unit gets one value per trial if and only if every trial ran its phase and none recorded it twice; without repeats its n is the number of trials that ran its phase |
| Summaries.PlainRowCoversTrials | bench/src/analysis.rs:841-889 | A returned row that is no child footprint has as many values as occurrences, and one per trial if and only if every trial recorded its key once |
| Summaries.KeptKeyRowCoversTrials | bench/src/analysis.rs:846-889 | A returned key-timing row has a recorded value for every trial, and exactly one each if and only if no trial repeats its key |
| Summaries.TrialWithoutPhaseIsNotFilled | bench/src/analysis.rs:841-889 | A failing family for one value per trial: a trial that never ran the phase gets no zero |
| Summaries.TwoUnitsFillTwice | bench/src/analysis.rs:841-889 | A second: a child reported in two units has four values in three trials |
| Summaries.TotalHidesFaults | bench/src/analysis.rs:841-889 | A third: four trials and n of 4, although one trial brings two values and another none |
| Summaries.RepeatedKeyCountsTwice | bench/src/analysis.rs:841-889 | A fourth: one trial that records a key twice gives its row two values |
| Summaries.FailingInstances | bench/src/analysis.rs:841-889 | A concrete input of each of the four families |
| Stats.NearestRank | bench/src/stats.rs:19-39 | Returns an observed value with at least the quantile of the samples at or below it and no smaller sample having that; None exactly for no samples or a quantile outside 0 to 1 |
| Stats.NearestRankIsUnique | bench/src/stats.rs:19-39 | That value is one number, in whatever order the samples come |
| Stats.NearestRankIsMonotone | bench/src/stats.rs:19-39 | A larger quantile never gives a smaller value |
| Stats.ExtremeRanks | bench/src/stats.rs:19-39 | The quantiles 1 and 0 give the greatest and the least sample |
| Stats.Median | bench/src/stats.rs:58-70 | Returns the middle sample or the mean of the middle two |
| Stats.MedianHalves | bench/src/stats.rs:58-70 | At least half of the samples are at or below the median, at most half below anything smaller |
| Stats.MedianMeetsRank | bench/src/stats.rs:58-70 | For an odd number the median is the nearest rank of one half; for an even number it lies midway between that sample and the next one up |
| Stats.MedianIsUnique | bench/src/stats.rs:58-70 | The median ignores the order of the samples |
| Spread.Deviation | bench/src/stats.rs:41-56 | The nonnegative number whose square times n - 1 is the sum of squares about the mean, for two samples or more |
| Spread.DeviationIsPairwise | bench/src/stats.rs:41-56 | The square of the deviation, times n (n - 1), is the sum of the squared differences of all pairs of samples, in which no mean appears |
| Spread.CriticalFalls | bench/src/stats.rs:72-87 | More degrees of freedom never have a larger critical value, so a smaller row of the table only widens the interval |
| Spread.CriticalRows | bench/src/stats.rs:72-87 | Between two rows of the table the row with fewer degrees of freedom is taken |
| Spread.IntervalOfTwo | bench/src/stats.rs:89-121 | For two samples twice the squared half width is the square of 12.706 deviations |
| Spread.Summarize | bench/src/stats.rs:89-121 | Count, mean, deviation, 95% interval about the mean, median, least and greatest of exactly these values; deviation and interval exactly for two values or more |
| Spread.SummaryIsUnique | bench/src/stats.rs:89-121 | The whole summary is one value, whatever the order of the samples |
| Spread.NoSpread | bench/src/stats.rs:89-121 | The deviation is zero, and the interval one point, if and only if all samples are equal |
| Calendar.CivilIsTheCalendar | bench/src/stamp.rs:142-159 | Day 0 is 1970-01-01, every day has a valid Gregorian date, and the next day has the calendar's next date, for all integers |
| Calendar.CivilIsDate | bench/src/stamp.rs:142-159 | The date determines the day it came from |
| Calendar.DateHasDay | bench/src/stamp.rs:142-159 | Every valid date is the date of exactly one day, so the formula is a bijection |
| Calendar.NextDayIsNext | bench/src/stamp.rs:142-159 | The reference calendar's next day is valid and one day later |
| Calendar.UtcRecombines | bench/src/stamp.rs:161-172 | Both strings print the same zero-padded fields, in range, and those recombine to the input seconds |
| Descendants.Index | bench/src/procs.rs:58-64 | The map lists for every parent its children in row order |
| Descendants.Descendants | bench/src/procs.rs:58-76 | On any rows, cyclic or not, returns exactly the processes other than the root that are reachable along parent edges, each once, in non-decreasing distance |
| Evidence.ScenesAreDisjoint | bench/src/physical_evidence.rs:47-58 | No samples match both scenes, so the order of the two tests does not matter |
| Evidence.ScenesMirror | bench/src/physical_evidence.rs:47-58 | Samples show scene A if and only if the same samples in reverse show scene B |
| Evidence.SceneAByPatch | bench/src/physical_evidence.rs:9-58 | Samples show scene A if and only if the five patches of 27 lie within 12 of 0, 118, 188, 225 and 255 |
| Evidence.TransformFits | bench/src/physical_evidence.rs:164-251 | A supported transform has no offset and a scale between 1 and 4, and scales its measures to those of the source |
| Evidence.SmallestTrace | bench/src/physical_evidence.rs:164-251 | A concrete trace of two frames that is accepted |
| Evidence.ClocksAdvance | bench/src/physical_evidence.rs:164-251 | Over a whole accepted trace both clocks advance strictly, frames are numbered from 1 and arrive after display, and the transform stays |
| Evidence.ActionIsBetween | bench/src/physical_evidence.rs:164-251 | In an accepted trace some A arrived before the action, and every B and the terminal record, which holds the frame count, come after it |
| Evidence.ReadSamples | bench/src/physical_evidence.rs:144-157 | Fills exactly 135 bytes, and refuses exactly fewer, more or a value that is no byte |
| Evidence.Replay | bench/src/physical_evidence.rs:164-251 | Accepts a trace if and only if some index splits it as the declarative condition asks; the result is then the number of frames and the display tick of the first B |
| Evidence.SplitIsUnique | bench/src/physical_evidence.rs:164-251 | The index at which a trace changes scene is unique |
| Evidence.FirstBIsLeast | bench/src/physical_evidence.rs:230-242 | The reported tick is the least display tick of all B frames |
| Gate.BlockersAreExact | bench/src/gate.rs:116-137 | The blockers are exactly the failing conditions, once each, in the order of the checks |
| Gate.OpensWhenNothingBlocks | bench/src/gate.rs:111-137 | A trial may start if and only if nothing blocks: enough idle time, unlocked, on AC, no copy running |
| Gate.BeforeTrial | bench/src/gate.rs:116-137 | The pushing code starts or waits with exactly those blockers |
| Gate.FiveMinutes | bench/src/gate.rs:26-39 | An instance: a gate of five minutes opens from 300 seconds of idle time on |
| Gate.OpenGateStands | bench/src/gate.rs:139-164 | A reading that opened the gate never voids the trial while idle time only grows and the screen stays unlocked, and a reading that voids would have kept the gate shut |
| Gate.VoidsAreBlockers | bench/src/gate.rs:149-164 | A running trial is void exactly for what would keep the gate shut of the same reading, the screen before the idle time, or for a reading that failed |
| Gate.WaitToStart | bench/src/gate.rs:202-241 | Returns Ok exactly at the first starting reading and Err exactly at the first two failed reads in a row, whichever comes first; the flag tells whether a reading was blocked; all it says and every pause are specified |
| Gate.PausesAreBlockedOrRetried | bench/src/gate.rs:202-241 | Until something decides, pauses equal blocked readings plus failed reads |
| Gate.EndIsUnique | bench/src/gate.rs:202-241 | A script of readings ends in one way only: with one outcome, after one number of readings |
| Gate.PausesOfWait | bench/src/gate.rs:202-241 | Over a whole wait the pauses are the blocked readings plus the failed reads before the deciding one, which is all of them |
| Gate.LinesOfWait | bench/src/gate.rs:199-241 | A whole wait says once that it waits if a reading was blocked, retries once per failed read but a deciding one, and says once that the gate opened if it is the first or had to wait |
| Gate.SaysWhatItRead | bench/src/gate.rs:199-241 | Every line that is said is true of a reading: exactly the conditions that failed in it, or that it may start |
| Gate.HeartbeatEverySixty | bench/src/gate.rs:227-238 | The state is repeated after every 60 blocked polls while the 32-bit counter has not saturated |
| Gate.HeartbeatsStopAtSaturation | bench/src/gate.rs:227-238 | Repeating every 60 polls is what the loop does exactly for fewer than 2^32 + 45 blocked polls |
| Gate.HeartbeatIsMissed | bench/src/gate.rs:227-238 | At 2^32 + 45 blocked polls one repetition is missing |
| Baseline.ValidTrials | bench/src/baseline.rs:52-60 | Counts exactly the trials that are no warm-up and stayed valid |
| Baseline.FilterIsOneRow | bench/src/baseline.rs:134-153 | Collecting matches in a list of one row means a unique matching row |
| Baseline.ProtocolViolations | bench/src/baseline.rs:63-97 | Reports exactly the violated conditions, and fails exactly when the stamp lacks power, tree or app |
| Baseline.KeySummaryViolations | bench/src/baseline.rs:124-159 | Reports exactly the required metrics without one unique qualifying summary row |
| Baseline.KeyTrialViolations | bench/src/baseline.rs:161-202 | Reports exactly the measured trials and required metrics without one unique qualifying metrics row; a repeated trial number is an error |
| Baseline.BaselineRows | bench/src/baseline.rs:219-278 | Writes the rows with enough values and skips the others, in order; refuses exactly a blank milestone, missing key evidence, an unreadable count or an incomplete stamp |
| Baseline.WrittenRowsHaveEnough | bench/src/baseline.rs:239-277 | Every written row has n of at least 10; written and skipped rows together are all rows |
| Baseline.RequiredRowsAreWritten | bench/src/baseline.rs:219-278 | The rows that a typing or caret run must have are always among those written |
| Baseline.RowFollowsHeader | bench/src/baseline.rs:249-275 | Read back by column name, all 25 cells of a written row are the stamp's entries, the labels, the app's identity and the fields of its summary row, each under its own name |
| Baseline.IdentityOfApp | bench/src/baseline.rs:205-217 | A row names the version and tree of the measured app |
| Baseline.NothingViolated | bench/src/baseline.rs:62-202 | No violation is reported of exactly the runs that meet the protocol and the key evidence |
| Baseline.Append | bench/src/baseline.rs:280-315 | The rows reach the write if and only if the run is admitted |
| Baseline.AdmittedRunIsComplete | bench/src/baseline.rs:52-315 | An admitted typing or caret run has at least 10 distinct measured trials, and for every required metric one summary row whose n is both the number of trials and the number of qualifying metrics rows behind it |
| Baseline.AdmittedProtocol | bench/src/baseline.rs:52-97 | Every admitted run was on AC with low power off, from clean trees, with at least ten trials that are no warm-up and valid, a summary and a milestone |
| Baseline.EvidenceRowMeans | bench/src/baseline.rs:99-202 | The evidence of a trial is a row of this run, app, workload and phase, of a measured trial, for one of the five named metrics in its unit |
| Baseline.KeyValuesMean | bench/src/baseline.rs:113-122 | A flag qualifies if set, a count if positive and whole, a time if not negative, and text that is no number never |
| Baseline.AdmittedRowQualifies | bench/src/baseline.rs:161-202 | In an admitted run every metrics row that measures a required metric of a measured trial qualifies |
| Baseline.HashTimingIsNeverAdmitted | bench/src/baseline.rs:102-315 | No typing or caret run is admitted in which a measured trial takes its semantic qualification from `latency_metrics` |
| Matching.TrimIsTight | apps/alpine-editor/src/commands.rs:637-637 | Trimming removes only white space and leaves none at either end; nothing is left exactly of a blank query |
| Matching.EncodesAsUtf8 | apps/alpine-editor/src/commands.rs:680-706 | The bytes that are matched decode, by the rules of UTF-8, to the characters |
| Matching.SameIsUpToCase | apps/alpine-editor/src/commands.rs:680-706 | Bytes match if and only if they are equal or capital and small letter of one another |
| Matching.SpacesAreWhitespace | apps/alpine-editor/src/commands.rs:667-706 | ASCII white space is Unicode's, but for the vertical tab |
| Matching.GreedyIsComplete | apps/alpine-editor/src/commands.rs:688-706 | The greedy search succeeds if and only if an embedding exists, and finds the earliest one |
| Matching.SubsequenceGaps | apps/alpine-editor/src/commands.rs:688-706 | The one-pass loop with its flag and saturating counter computes the greedy embedding's gaps |
| Matching.GapsOfEarliest | apps/alpine-editor/src/commands.rs:688-706 | A value is returned if and only if the query without ASCII white space is not empty and is a case-insensitive subsequence; it is the saturated number of bytes the earliest embedding skips |
| Matching.EarliestIsTightest | apps/alpine-editor/src/commands.rs:688-706 | The earliest embedding, whose gaps are the score, skips the fewest bytes of all embeddings if and only if no greedy search from a later occurrence of the first byte finds a shorter stretch |
| Matching.EarliestIsNotTightest | apps/alpine-editor/src/commands.rs:688-706 | An instance: in `aab` the earliest `ab` skips a byte and a later one none |
| Matching.TokenStartsAreWords | apps/alpine-editor/src/commands.rs:667-673 | Splitting into tokens and testing prefixes finds exactly the words that the query starts |
| Matching.RanksAreExact | apps/alpine-editor/src/commands.rs:660-678 | Rank 0 is a prefix of title or terms, rank 1 a prefix of a word and no such prefix, rank 2 neither, with the gaps of the title or else of the terms |
| Matching.ColonEndsTitleWord | apps/alpine-editor/src/commands.rs:660-678 | An instance: a colon begins a word in the title, not in the search terms |
| Matching.MatchesAreSubsequences | apps/alpine-editor/src/commands.rs:660-706 | Whatever the rank, a query matches if and only if its bytes other than white space are a subsequence of the title or of the search terms |
| Commands.RankMatches | apps/alpine-editor/src/commands.rs:633-658 | Lists exactly the available matching commands with their scores, strictly ordered by rank, gaps and registry index |
| Commands.RankingIsUnique | apps/alpine-editor/src/commands.rs:633-658 | Query and context fix the list |
| Commands.BestFirst | apps/alpine-editor/src/commands.rs:633-658 | A listed match has no higher rank than a later one, no more gaps at equal rank, and a smaller index at equal rank and gaps |
| Commands.ListedRank | apps/alpine-editor/src/commands.rs:633-678 | A listed command's rank and gaps are those of its own title and search terms, of the title before the terms |
| Commands.ListedCommands | apps/alpine-editor/src/commands.rs:633-706 | Each available command is listed once if the query is blank or a subsequence of its title or search terms, and no other |
| Commands.FlagsEnable | apps/alpine-editor/src/commands.rs:66-99 | Five commands always run, and each flag of editing and navigation enables exactly its own |
| Commands.WorkspaceFlagsEnable | apps/alpine-editor/src/commands.rs:66-99 | So does the flag of the workspace |
| Commands.PaneFlagsEnable | apps/alpine-editor/src/commands.rs:66-99 | So does each flag of the panes |
| Commands.CompletionFlagEnables | apps/alpine-editor/src/commands.rs:66-99 | The completion flag enables exactly the eight language commands |
| Commands.CommandPalette.Open | apps/alpine-editor/src/commands.rs:340-357 | Opens with the full ranking and nothing selected but the first match, or does nothing when open |
| Commands.CommandPalette.Cancel | apps/alpine-editor/src/commands.rs:359-366 | Clears an open palette and counts the cancellation |
| Commands.CommandPalette.Refresh | apps/alpine-editor/src/commands.rs:452-463 | Re-ranks an open palette, keeps the selection as far as the list reaches, and reports whether the list changed |
| Commands.CommandPalette.Navigate | apps/alpine-editor/src/commands.rs:465-485 | Moves the selection one step round either end and scrolls the window to it; it moves exactly when there are two matches or more |
| Commands.CommandPalette.ApplyEdit | apps/alpine-editor/src/commands.rs:438-606 | A changed query is ranked again and selects the first match; an unchanged one changes nothing |
| Commands.CommandPalette.Execute | apps/alpine-editor/src/commands.rs:500-513 | Runs exactly an available command and clears the palette; any other refreshes it and is refused |
| Commands.CommandPalette.ExecuteSelected | apps/alpine-editor/src/commands.rs:487-498 | Executes the selected row's command, and does nothing without one |
| Commands.CommandPalette.VisibleCommands | apps/alpine-editor/src/commands.rs:515-539 | Never slices out of range; at most 18 consecutive rows, of which exactly the selected one is marked |
| Commands.VisibleIsInRange | apps/alpine-editor/src/commands.rs:515-523 | The slice is in range, has at most 18 rows, and holds the whole window with the selection |
| Commands.StepKeeps | apps/alpine-editor/src/commands.rs:340-513 | Every operation keeps first_visible <= selected < first_visible + 12 with a valid selection |
| Commands.PaletteChanges | apps/alpine-editor/src/commands.rs:340-513 | Only opening opens the palette, only cancelling or executing an available command closes it, only opening or editing changes its query, and its list is always a ranking of its query |
| Commands.RunKeeps | apps/alpine-editor/src/commands.rs:340-513 | So does every sequence of operations |
| Commands.ThereAndBack | apps/alpine-editor/src/commands.rs:465-485 | Stepping forward and back, or back and forward, restores everything but the scroll position |
| Commands.ScrollIsMinimal | apps/alpine-editor/src/commands.rs:452-485 | Navigating and refreshing scroll the window no further than showing the selection demands |
| Commands.RefreshKeepsSelection | apps/alpine-editor/src/commands.rs:452-463 | A refreshed list keeps the selection, or selects its last match if it has become shorter |
| Commands.ForwardVisits | apps/alpine-editor/src/commands.rs:465-485 | Stepping forward visits the matches in turn and comes round after all of them |
| Tsv.UnescapeInvertsEscape | bench/src/tsv.rs:11-43 | Unescaping an escaped field gives the field back |
| Tsv.UnescapeReadsSpellings | bench/src/tsv.rs:25-43 | A field unescapes to a text if and only if it spells each character as itself or by one of the four escapes |
| Tsv.UnescapeRefuses | bench/src/tsv.rs:25-43 | It is refused if and only if, after a good beginning, a backslash stands at the end or before a character that makes no escape |
| Tsv.EscapeIsClean | bench/src/tsv.rs:11-23 | An escaped field holds no tab and no line break |
| Tsv.SplitInvertsJoin | bench/src/tsv.rs:45-55 | Splitting a joined line gives the fields back if and only if there is at least one |
| Tsv.ParseInvertsRender | bench/src/tsv.rs:83-109 | A rendered table parses back to itself if and only if it has a column and no row is one empty field, which includes every table of two columns or more |
| Tsv.CrlfParses | bench/src/tsv.rs:93-109 | A file with CRLF line ends holds the same table as with LF |
| Tsv.EmptyFieldIsLost | bench/src/tsv.rs:83-109 | A concrete one-column table that does not come back |
| Tsv.AppendExtendsFile | bench/src/tsv.rs:138-175 | Appending to a table's file, with or without its last newline, leaves exactly the file of the longer table |
| Tsv.AppendThenParse | bench/src/tsv.rs:138-175 | The appended file parses to the old rows followed by the new ones |
| TsvTable.EscapeField | bench/src/tsv.rs:11-23 | The loop computes the escaped field |
| TsvTable.UnescapeField | bench/src/tsv.rs:25-43 | The loop computes the field or the error |
| TsvTable.Table.Push | bench/src/tsv.rs:71-81 | Adds a row of the header's width and refuses any other |
| TsvTable.Table.RenderText | bench/src/tsv.rs:83-91 | The loop renders the table |
| TsvTable.Table.ParseText | bench/src/tsv.rs:93-109 | The loop builds the parsed table or the first error |
| TsvTable.Append | bench/src/tsv.rs:138-175 | The loop builds the appended text, or the error exactly for another first line or a row of another width |

## Left out

- Text.LinesPartition: lines end at LF, CR and CRLF only, as the workspace configures `ropey`; the rope itself is not part of this model
- Projection.NewAccepts: overflow of the byte sum and failed allocations, which the byte limit or the machine rule out
- VisualSpans.VisualSpans: floating-point rounding and NaN; font shaping, taken as a caret function that may fail
- DocumentTabs.DocumentTabs.SwitchTo: the in-place swap through `mem::replace`, rendered as a document passed in and handed back; failed allocations
- Spread.Summarize: floating-point rounding, and how a square root is computed
- Stats.NearestRank: NaN samples, and rounding of the product of quantile and count
- Latency.MatchKeys: rounding of the conversion from ticks to milliseconds
- Evidence.Replay: splitting the text into records, parsing numbers, checking the source and action lines, and which of several faults is reported; scales and transforms are exact reals
- Gate.WaitToStart: the wording of what is said, and error values other than the one returned
- Baseline.Append: reading and writing the files, cells that no row has, and the wording of violations; a stamp is a map, so only the first of repeated keys counts
- Baseline.BaselineRows: which of several refusals is reported first
- Commands.RankMatches: the contents of the registry, which may be any list of commands
- Commands.CommandPalette.ApplyEdit: how an edit is prepared (selection, composition, undo), its 256-byte limit and the retained-memory report
- Commands.CommandPalette.Cancel: the release of retained memory
- Tsv.AppendExtendsFile: the file system
- The rest of `documents.rs`: accessors, visible ranges and fault injection for tests
- The rest of `analysis.rs`: phase windows, footprints, CPU, frame intervals, scroll and visibility metrics, mostly sums and filters
- The Swift helpers, process control, accessibility, logging, crash reporting and command-line parsing
