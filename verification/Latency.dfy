/** `key_latencies` of `analysis.rs`: matching key presses to screen changes. */
module Latency {
  import opened Machine
  import opened Wrappers
  import opened Sorting

  const MAX_KEY_RECORDS: nat := 65536

  datatype Frame = Frame(sequence: nat, display: nat, arrival: nat, hash: nat)

  datatype InputEvent = InputEvent(sequence: nat, mach: nat)

  datatype Timebase = Timebase(numer: nat, denom: nat) {
    function Nanos(ticks: nat): nat {
      var value := ticks * numer / if denom > 1 then denom else 1;
      if value > U64_MAX then U64_MAX else value
    }

    function MillisBetween(start: nat, end: nat): real {
      if end >= start then Nanos(end - start) as real / 1000000.0
      else -(Nanos(start - end) as real / 1000000.0)
    }
  }

  /** A tick lasts numer / denom nanoseconds; whole nanoseconds are counted, up to a full word. */
  lemma NanosAreWhole(timebase: Timebase, ticks: nat)
    requires timebase.denom > 0
    ensures var n := timebase.Nanos(ticks);
            && n <= U64_MAX && n * timebase.denom <= ticks * timebase.numer
            && (n < U64_MAX ==> ticks * timebase.numer < (n + 1) * timebase.denom)
  {
    var d, x := timebase.denom, ticks * timebase.numer;
    assert x == x / d * d + x % d;
    if x / d > U64_MAX {
      assert U64_MAX * d <= x / d * d;
    }
  }

  /** Time runs the same in both directions, and a later end is never a shorter time. */
  lemma MillisAreSigned(timebase: Timebase, start: nat, end: nat, later: nat)
    ensures timebase.MillisBetween(start, end) == -timebase.MillisBetween(end, start)
    ensures start <= end ==> timebase.MillisBetween(start, end) >= 0.0
    ensures start <= end <= later ==> timebase.MillisBetween(start, end) <= timebase.MillisBetween(start, later)
  {
    if start <= end <= later {
      NanosGrow(timebase, end - start, later - start);
    }
    hide Timebase.Nanos;
  }

  lemma NanosGrow(timebase: Timebase, a: nat, b: nat)
    requires a <= b
    ensures timebase.Nanos(a) <= timebase.Nanos(b)
  {
    assert a * timebase.numer <= b * timebase.numer;
    QuotientGrows(a * timebase.numer, b * timebase.numer, if timebase.denom > 1 then timebase.denom else 1);
  }

  lemma QuotientGrows(x: nat, y: nat, d: nat)
    requires x <= y && d > 0
    ensures x / d <= y / d
  {
    var q, r := x / d, y / d;
    assert x == q * d + x % d && y == r * d + y % d;
    LessByProduct(q, r + 1, d);
  }

  lemma LessByProduct(a: nat, b: nat, d: nat)
    requires a * d < b * d
    ensures a < b
  {
  }

  /** 240000 ticks of 125/3 nanoseconds are ten milliseconds. */
  lemma TenMillis()
    ensures Timebase(125, 3).MillisBetween(0, 240000) == 10.0
  {
  }

  datatype KeyLatencies = KeyLatencies(
    measured: seq<real>, late: nat, missed: nat, ambiguous: nat,
    invalidTimestamps: bool, recordLimitExceeded: bool)

  // ------------------------------------------------- changes, declaratively

  /** Timestamps are sane and no two frames contradict each other. */
  ghost predicate Consistent(frames: set<Frame>) {
    && (forall f | f in frames :: Sane(f))
    && (forall f, g {:trigger Agree(f, g)} | f in frames && g in frames :: Agree(f, g))
  }

  predicate Sane(f: Frame) {
    f.display != 0 && f.arrival >= f.display
  }

  /** One sequence number names one picture at one time; one time shows one picture. */
  predicate Agree(f: Frame, g: Frame) {
    && (f.sequence == g.sequence ==> f.display == g.display && f.hash == g.hash)
    && (f.display == g.display ==> f.hash == g.hash)
  }

  /** The screen changes at tick d: the frame shown then differs from the one shown last
      before it. */
  ghost predicate ChangeAt(frames: set<Frame>, d: nat) {
    exists f, g :: ChangeBetween(frames, d, g, f)
  }

  ghost predicate ChangeBetween(frames: set<Frame>, d: nat, g: Frame, f: Frame) {
    && f in frames && g in frames
    && f.display == d && g.display < d && f.hash != g.hash
    && forall h | h in frames :: !(g.display < h.display < d)
  }

  /** The first change at or after a tick. */
  ghost predicate IsResponse(frames: set<Frame>, mach: nat, r: Option<nat>) {
    match r
    case None => forall d: nat | ChangeAt(frames, d) :: d < mach
    case Some(d) => mach <= d && ChangeAt(frames, d) && forall e: nat | ChangeAt(frames, e) :: e < mach || d <= e
  }

  lemma ResponseIsUnique(frames: set<Frame>, mach: nat, a: Option<nat>, b: Option<nat>)
    requires IsResponse(frames, mach, a) && IsResponse(frames, mach, b)
    ensures a == b
  {
  }

  // ------------------------------------------------ the result, declaratively

  function WindowEnd(events: seq<InputEvent>, spacing: nat, i: nat): nat
    requires i < |events|
  {
    if i + 1 < |events| then events[i + 1].mach
    else if events[i].mach + spacing > U64_MAX then U64_MAX
    else events[i].mach + spacing
  }

  ghost predicate ValidInput(events: seq<InputEvent>, frames: set<Frame>, timebase: Timebase, spacing: nat) {
    && spacing != 0 && timebase.numer != 0 && timebase.denom != 0
    && Consistent(frames)
    && (forall i | 0 <= i < |events| :: events[i].mach != 0)
    && (forall i | 0 <= i < |events| - 1 ::
          events[i].mach < events[i + 1].mach && events[i].sequence < events[i + 1].sequence)
    && (events != [] ==> events[|events| - 1].mach + spacing <= U64_MAX)
  }

  /** Something was on screen before the first key, and it had not changed yet. */
  ghost predicate HasBaseline(events: seq<InputEvent>, frames: set<Frame>) {
    && events != []
    && (exists f | f in frames :: f.display < events[0].mach)
    && forall d: nat | ChangeAt(frames, d) :: d >= events[0].mach
  }

  datatype Outcome = InTime | Late | Missed | Unclear

  /** How a key's response relates to its own window. */
  function OutcomeOf(mach: nat, windowEnd: nat, response: Option<nat>): Outcome {
    match response
    case None => Missed
    case Some(d) => if d >= windowEnd then Late else if d > mach then InTime else Unclear
  }

  function Count(outcomes: seq<Outcome>, kinds: set<Outcome>): nat {
    if outcomes == [] then 0
    else
      var n := |outcomes| - 1;
      Count(outcomes[..n], kinds) + if outcomes[n] in kinds then 1 else 0
  }

  /** Every key's response and its outcome. */
  ghost predicate AreOutcomes(events: seq<InputEvent>, frames: set<Frame>, spacing: nat,
                              responses: seq<Option<nat>>, outcomes: seq<Outcome>)
  {
    && |responses| == |outcomes| <= |events|
    && forall i | 0 <= i < |outcomes| ::
         && IsResponse(frames, events[i].mach, responses[i])
         && outcomes[i] == OutcomeOf(events[i].mach, WindowEnd(events, spacing, i), responses[i])
  }

  /** The first `p` keys, and no more, are answered in time before anything goes wrong. */
  ghost predicate IsMeasuredPrefix(baseline: bool, outcomes: seq<Outcome>, p: nat) {
    && p <= |outcomes|
    && (forall i | 0 <= i < p :: outcomes[i] == InTime)
    && (p < |outcomes| ==> !baseline || outcomes[p] != InTime)
    && (!baseline ==> p == 0)
  }

  /** Only the measured keys are timed; every later one is counted by its outcome, and an
      answer in time is then ambiguous. */
  ghost predicate Matches(events: seq<InputEvent>, baseline: bool, timebase: Timebase, r: KeyLatencies,
                          responses: seq<Option<nat>>, outcomes: seq<Outcome>, p: nat)
  {
    && |responses| == |outcomes| <= |events|
    && IsMeasuredPrefix(baseline, outcomes, p)
    && |r.measured| == p
    && (forall i | 0 <= i < p ::
          responses[i].Some? && r.measured[i] == timebase.MillisBetween(events[i].mach, responses[i].value))
    && r.late == Count(outcomes[p..], {Late})
    && r.missed == Count(outcomes[p..], {Missed})
    && r.ambiguous == Count(outcomes[p..], {InTime, Unclear})
    && !r.invalidTimestamps && !r.recordLimitExceeded
  }

  /** What `key_latencies` answers within the record limit, as a relation to the set of
      frames. */
  ghost predicate IsLatencies(events: seq<InputEvent>, frames: set<Frame>, timebase: Timebase, spacing: nat,
                              r: KeyLatencies)
  {
    if ValidInput(events, frames, timebase, spacing) then
      exists responses, outcomes, p ::
        && |outcomes| == |events|
        && AreOutcomes(events, frames, spacing, responses, outcomes)
        && Matches(events, HasBaseline(events, frames), timebase, r, responses, outcomes, p)
    else r == KeyLatencies([], 0, 0, |events|, true, false)
  }

  // ---------------------------------------------------- the sorted change list

  ghost predicate SortedFrames(frames: seq<Frame>) {
    forall i, j | 0 <= i < j < |frames| :: frames[i].display <= frames[j].display
  }

  /** The frames at which the picture changes; the first one is where it starts from. */
  function Changes(sorted: seq<Frame>): seq<Frame> {
    if |sorted| < 2 then []
    else
      var n := |sorted| - 1;
      Changes(sorted[..n]) + if sorted[n - 1].hash != sorted[n].hash then [sorted[n]] else []
  }

  function Members(frames: seq<Frame>): set<Frame> {
    set f | f in frames
  }

  /** The display of the frame before a change is strictly earlier. */
  ghost predicate StepsUp(sorted: seq<Frame>) {
    forall k | 0 < k < |sorted| && sorted[k - 1].hash != sorted[k].hash :: sorted[k - 1].display < sorted[k].display
  }

  lemma ConsistentStepsUp(sorted: seq<Frame>)
    requires SortedFrames(sorted) && Consistent(Members(sorted))
    ensures StepsUp(sorted)
  {
    forall k | 0 < k < |sorted| && sorted[k - 1].hash != sorted[k].hash
      ensures sorted[k - 1].display < sorted[k].display
    {
      assert sorted[k - 1] in Members(sorted) && sorted[k] in Members(sorted);
      assert Agree(sorted[k - 1], sorted[k]);
    }
  }

  lemma {:induction false} ChangesByIndex(sorted: seq<Frame>, c: Frame)
    ensures c in Changes(sorted) <==>
            exists k | 0 < k < |sorted| :: sorted[k - 1].hash != sorted[k].hash && sorted[k] == c
  {
    if |sorted| >= 2 {
      var n := |sorted| - 1;
      ChangesByIndex(sorted[..n], c);
      if k :| 0 < k < |sorted| && sorted[k - 1].hash != sorted[k].hash && sorted[k] == c && k < n {
        assert sorted[..n][k] == c && sorted[..n][k - 1] == sorted[k - 1];
      }
    }
  }

  lemma {:induction false} ChangesIncrease(sorted: seq<Frame>)
    requires SortedFrames(sorted) && StepsUp(sorted)
    ensures forall i, j | 0 <= i < j < |Changes(sorted)| :: Changes(sorted)[i].display < Changes(sorted)[j].display
  {
    if |sorted| >= 2 {
      var n := |sorted| - 1;
      ChangesIncrease(sorted[..n]);
      var before := Changes(sorted[..n]);
      forall i | 0 <= i < |before| ensures before[i].display <= sorted[n - 1].display {
        ChangesByIndex(sorted[..n], before[i]);
        assert before[i] in before;
      }
    }
  }

  /** The least index showing tick d or later. */
  lemma {:induction false} LeastFrom(sorted: seq<Frame>, d: nat, j: nat) returns (k: nat)
    requires SortedFrames(sorted) && j < |sorted| && sorted[j].display >= d
    ensures k <= j && sorted[k].display >= d
    ensures k > 0 ==> sorted[k - 1].display < d
  {
    if j > 0 && sorted[j - 1].display >= d {
      k := LeastFrom(sorted, d, j - 1);
    } else {
      k := j;
    }
  }

  lemma SameHash(frames: set<Frame>, f: Frame, g: Frame)
    requires Consistent(frames) && f in frames && g in frames && f.display == g.display
    ensures f.hash == g.hash
  {
    assert Agree(f, g);
  }

  lemma ChangeIsListed(sorted: seq<Frame>, d: nat)
    requires SortedFrames(sorted) && Consistent(Members(sorted)) && ChangeAt(Members(sorted), d)
    ensures exists c | c in Changes(sorted) :: c.display == d
  {
    hide Consistent, Changes;
    var f, g :| ChangeBetween(Members(sorted), d, g, f);
    var j :| 0 <= j < |sorted| && sorted[j] == f;
    var i :| 0 <= i < |sorted| && sorted[i] == g;
    var k := LeastFrom(sorted, d, j);
    assert i < k;
    assert sorted[k] in Members(sorted) && sorted[k - 1] in Members(sorted);
    assert sorted[i].display <= sorted[k - 1].display;
    assert sorted[k].display <= sorted[j].display;
    SameHash(Members(sorted), sorted[k - 1], g);
    SameHash(Members(sorted), sorted[k], f);
    ChangesByIndex(sorted, sorted[k]);
  }

  lemma ListedIsChange(sorted: seq<Frame>, c: Frame)
    requires SortedFrames(sorted) && StepsUp(sorted) && c in Changes(sorted)
    ensures ChangeAt(Members(sorted), c.display)
  {
    hide Changes;
    ChangesByIndex(sorted, c);
    var k :| 0 < k < |sorted| && sorted[k - 1].hash != sorted[k].hash && sorted[k] == c;
    forall h | h in Members(sorted) ensures !(sorted[k - 1].display < h.display < c.display) {
      var i :| 0 <= i < |sorted| && sorted[i] == h;
    }
    assert ChangeBetween(Members(sorted), c.display, sorted[k - 1], sorted[k]);
  }

  /** The list finds exactly the changes of the set, in order, whatever order ties come in. */
  lemma ChangesAreExact(sorted: seq<Frame>)
    requires SortedFrames(sorted) && Consistent(Members(sorted))
    ensures forall d :: ChangeAt(Members(sorted), d) <==> exists c | c in Changes(sorted) :: c.display == d
    ensures forall i, j | 0 <= i < j < |Changes(sorted)| :: Changes(sorted)[i].display < Changes(sorted)[j].display
  {
    hide Consistent, Changes, ChangeAt;
    ConsistentStepsUp(sorted);
    ChangesIncrease(sorted);
    forall d: nat ensures ChangeAt(Members(sorted), d) <==> exists c | c in Changes(sorted) :: c.display == d {
      if ChangeAt(Members(sorted), d) {
        ChangeIsListed(sorted, d);
      }
      if c :| c in Changes(sorted) && c.display == d {
        ListedIsChange(sorted, c);
      }
    }
  }

  // ------------------------------------------------------------- the methods

  /** The changes along some list of the frames in display order. */
  ghost predicate AreChanges(frames: seq<Frame>, changes: seq<Frame>) {
    exists sorted: seq<Frame> :: Orders(frames, sorted) && changes == Changes(sorted)
  }

  ghost predicate Orders(frames: seq<Frame>, sorted: seq<Frame>) {
    SortedFrames(sorted) && Members(sorted) == Members(frames)
  }

  /** `changed_frames`: the frames in display order, then those that differ from the one before. */
  method ChangedFrames(frames: seq<Frame>) returns (changes: seq<Frame>)
    ensures AreChanges(frames, changes)
  {
    var ordered := Sort(frames, (a: Frame, b: Frame) =>
      a.display < b.display || (a.display == b.display && a.sequence <= b.sequence));
    SameMembers(ordered, frames);
    changes := Changes(ordered);
    assert Orders(frames, ordered);
  }

  method BadFrames(frames: seq<Frame>) returns (bad: bool)
    ensures bad <==> !Consistent(Members(frames))
  {
    hide Consistent, Indexed, Agree;
    StartIndex();
    var bySequence: map<nat, (nat, nat)> := map[];
    var byDisplay: map<nat, nat> := map[];
    for k := 0 to |frames|
      invariant Consistent(Members(frames[..k]))
      invariant Indexed(frames[..k], bySequence, byDisplay)
    {
      var f := frames[k];
      ghost var before := bySequence;
      if f.display == 0 || f.arrival < f.display {
        Inconsistent(frames, k);
        return true;
      }
      if f.sequence in bySequence && bySequence[f.sequence] != (f.display, f.hash) {
        IndexedConflict(frames[..k], f, bySequence, byDisplay);
        Inconsistent(frames, k);
        return true;
      }
      bySequence := bySequence[f.sequence := (f.display, f.hash)];
      if f.display in byDisplay && byDisplay[f.display] != f.hash {
        IndexedConflict(frames[..k], f, before, byDisplay);
        Inconsistent(frames, k);
        return true;
      }
      IndexedExtends(frames[..k], before, byDisplay, f);
      ConsistentExtends(frames[..k], f);
      assert frames[..k + 1] == frames[..k] + [f];
      byDisplay := byDisplay[f.display := f.hash];
    }
    assert frames[..|frames|] == frames;
    bad := false;
  }

  /** The two maps hold what the frames read so far say, and nothing else. */
  ghost predicate Indexed(frames: seq<Frame>, bySequence: map<nat, (nat, nat)>, byDisplay: map<nat, nat>) {
    && (forall f | f in frames :: Known(bySequence, byDisplay, f))
    && (forall s | s in bySequence :: exists f | f in frames :: f.sequence == s)
    && (forall d | d in byDisplay :: exists f | f in frames :: f.display == d)
  }

  predicate Known(bySequence: map<nat, (nat, nat)>, byDisplay: map<nat, nat>, f: Frame) {
    && f.sequence in bySequence && bySequence[f.sequence] == (f.display, f.hash)
    && f.display in byDisplay && byDisplay[f.display] == f.hash
  }

  lemma IndexedConflict(frames: seq<Frame>, f: Frame, bySequence: map<nat, (nat, nat)>, byDisplay: map<nat, nat>)
    requires Indexed(frames, bySequence, byDisplay)
    requires || (f.sequence in bySequence && bySequence[f.sequence] != (f.display, f.hash))
             || (f.display in byDisplay && byDisplay[f.display] != f.hash)
    ensures exists g | g in frames :: !Agree(g, f)
  {
    if f.sequence in bySequence && bySequence[f.sequence] != (f.display, f.hash) {
      var g :| g in frames && g.sequence == f.sequence;
      assert Known(bySequence, byDisplay, g);
      assert !Agree(g, f);
    } else {
      var g :| g in frames && g.display == f.display;
      assert Known(bySequence, byDisplay, g);
      assert !Agree(g, f);
    }
  }

  lemma IndexedAgrees(frames: seq<Frame>, bySequence: map<nat, (nat, nat)>, byDisplay: map<nat, nat>, f: Frame)
    requires Indexed(frames, bySequence, byDisplay)
    requires f.sequence in bySequence ==> bySequence[f.sequence] == (f.display, f.hash)
    requires f.display in byDisplay ==> byDisplay[f.display] == f.hash
    ensures forall g | g in frames :: Agree(f, g) && Agree(g, f)
  {
    forall g | g in frames ensures Agree(f, g) && Agree(g, f) {
      assert Known(bySequence, byDisplay, g);
    }
  }

  lemma KnownStays(bySequence: map<nat, (nat, nat)>, byDisplay: map<nat, nat>, f: Frame, g: Frame)
    requires g == f || (Known(bySequence, byDisplay, g) && Agree(f, g))
    ensures Known(bySequence[f.sequence := (f.display, f.hash)], byDisplay[f.display := f.hash], g)
  {
  }

  lemma IndexedExtends(frames: seq<Frame>, bySequence: map<nat, (nat, nat)>, byDisplay: map<nat, nat>, f: Frame)
    requires Indexed(frames, bySequence, byDisplay)
    requires f.sequence in bySequence ==> bySequence[f.sequence] == (f.display, f.hash)
    requires f.display in byDisplay ==> byDisplay[f.display] == f.hash
    ensures Indexed(frames + [f], bySequence[f.sequence := (f.display, f.hash)], byDisplay[f.display := f.hash])
    ensures forall g | g in frames :: Agree(f, g) && Agree(g, f)
  {
    IndexedAgrees(frames, bySequence, byDisplay, f);
    hide Known, Agree;
    var all := frames + [f];
    var bySequence', byDisplay' := bySequence[f.sequence := (f.display, f.hash)], byDisplay[f.display := f.hash];
    forall g | g in all ensures Known(bySequence', byDisplay', g) {
      KnownStays(bySequence, byDisplay, f, g);
    }
    assert f in all && forall g | g in frames :: g in all;
  }

  lemma ConsistentExtends(frames: seq<Frame>, f: Frame)
    requires Consistent(Members(frames)) && Sane(f)
    requires forall g | g in frames :: Agree(f, g) && Agree(g, f)
    ensures Consistent(Members(frames + [f]))
  {
    hide Agree, Sane;
    forall g, h | g in Members(frames + [f]) && h in Members(frames + [f]) ensures Agree(g, h) {
      if g in frames && h in frames {
        assert g in Members(frames) && h in Members(frames);
      } else if g == f && h == f {
        AgreeWithItself(f);
      }
    }
    forall g | g in Members(frames + [f]) ensures Sane(g) {
      if g in frames {
        assert g in Members(frames);
      }
    }
  }

  lemma AgreeWithItself(f: Frame)
    ensures Agree(f, f)
  {
  }

  lemma StartIndex()
    ensures Consistent(Members([])) && Indexed([], map[], map[])
  {
  }

  lemma Inconsistent(frames: seq<Frame>, k: nat)
    requires k < |frames|
    requires !Sane(frames[k]) || exists g | g in frames[..k] :: !Agree(g, frames[k])
    ensures !Consistent(Members(frames))
  {
    assert frames[k] in Members(frames);
    if g :| g in frames[..k] && !Agree(g, frames[k]) {
      assert g in Members(frames);
    }
  }

  /** `partition_point` on the change list: how many changes come before a tick. */
  method PartitionPoint(changes: seq<Frame>, mach: nat) returns (p: nat)
    requires forall i, j | 0 <= i < j < |changes| :: changes[i].display < changes[j].display
    ensures p <= |changes|
    ensures forall i | 0 <= i < p :: changes[i].display < mach
    ensures forall i | p <= i < |changes| :: changes[i].display >= mach
  {
    p := 0;
    var high := |changes|;
    while p < high
      invariant p <= high <= |changes|
      invariant forall i | 0 <= i < p :: changes[i].display < mach
      invariant forall i | high <= i < |changes| :: changes[i].display >= mach
    {
      var middle := (p + high) / 2;
      if changes[middle].display < mach {
        p := middle + 1;
      } else {
        high := middle;
      }
    }
  }

  /** The checks that the event list and the clock can be trusted. */
  predicate BadEvents(events: seq<InputEvent>, timebase: Timebase, spacing: nat) {
    || spacing == 0 || timebase.numer == 0 || timebase.denom == 0
    || (exists i | 0 <= i < |events| :: events[i].mach == 0)
    || (exists i | 0 <= i < |events| - 1 ::
          events[i].mach >= events[i + 1].mach || events[i].sequence >= events[i + 1].sequence)
    || (events != [] && events[|events| - 1].mach + spacing > U64_MAX)
  }

  lemma FirstResponse(sorted: seq<Frame>, changes: seq<Frame>, mach: nat, p: nat)
    requires SortedFrames(sorted) && Consistent(Members(sorted)) && changes == Changes(sorted)
    requires p <= |changes|
    requires forall i | 0 <= i < p :: changes[i].display < mach
    requires forall i | p <= i < |changes| :: changes[i].display >= mach
    ensures IsResponse(Members(sorted), mach, if p < |changes| then Some(changes[p].display) else None)
  {
    hide ChangeAt, Consistent, Changes;
    ChangesAreExact(sorted);
    forall e: nat | ChangeAt(Members(sorted), e)
      ensures e < mach || (p < |changes| && changes[p].display <= e)
    {
      var c :| c in Changes(sorted) && c.display == e;
      var i :| 0 <= i < |changes| && changes[i] == c;
    }
    if p < |changes| {
      assert changes[p] in Changes(sorted);
    }
  }

  lemma CountAppend(outcomes: seq<Outcome>, p: nat, o: Outcome, kinds: set<Outcome>)
    requires p <= |outcomes|
    ensures Count((outcomes + [o])[p..], kinds) == Count(outcomes[p..], kinds) + if o in kinds then 1 else 0
  {
    assert (outcomes + [o])[p..] == outcomes[p..] + [o];
    assert (outcomes[p..] + [o])[..|outcomes| - p] == outcomes[p..];
  }

  /** One more key. */
  lemma MatchesExtends(events: seq<InputEvent>, baseline: bool, timebase: Timebase, r: KeyLatencies,
                       responses: seq<Option<nat>>, outcomes: seq<Outcome>, p: nat,
                       response: Option<nat>, o: Outcome, r': KeyLatencies, p': nat)
    requires Matches(events, baseline, timebase, r, responses, outcomes, p) && |outcomes| < |events|
    requires o == InTime ==> response.Some?
    requires var mach := events[|outcomes|].mach;
             var timed := o == InTime && baseline && p == |outcomes|;
             && p' == (if timed then p + 1 else p)
             && r' == if timed then r.(measured := r.measured + [timebase.MillisBetween(mach, response.value)])
                      else match o
                           case Late => r.(late := r.late + 1)
                           case Missed => r.(missed := r.missed + 1)
                           case _ => r.(ambiguous := r.ambiguous + 1)
    ensures Matches(events, baseline, timebase, r', responses + [response], outcomes + [o], p')
  {
    hide Count;
    if p' == p {
      CountAppend(outcomes, p, o, {Late});
      CountAppend(outcomes, p, o, {Missed});
      CountAppend(outcomes, p, o, {InTime, Unclear});
    } else {
      assert (outcomes + [o])[p'..] == [] && outcomes[p..] == [];
    }
  }

  /** The whole answer: a fixed one over the record limit, and else the one for the set of
      frames. */
  ghost predicate IsAnswer(events: seq<InputEvent>, frames: seq<Frame>, timebase: Timebase, spacing: nat,
                           r: KeyLatencies)
  {
    if |frames| > 65536 || |events| > 65536 then
      r == KeyLatencies([], 0, 0, |events|, false, true)
    else IsLatencies(events, Members(frames), timebase, spacing, r)
  }

  method MatchKeys(events: seq<InputEvent>, frames: seq<Frame>, timebase: Timebase, spacing: nat)
    returns (r: KeyLatencies)
    ensures IsAnswer(events, frames, timebase, spacing, r)
  {
    hide Consistent, ChangeAt, Count, Changes, SortedFrames, Tracked, IsResponse, HasBaseline, Members;
    r := KeyLatencies([], 0, 0, 0, false, false);
    if |frames| > MAX_KEY_RECORDS || |events| > MAX_KEY_RECORDS {
      return r.(recordLimitExceeded := true, ambiguous := |events|);
    }
    var changes := ChangedFrames(frames);
    ghost var sorted: seq<Frame> :| Orders(frames, sorted) && changes == Changes(sorted);
    var badFrames := BadFrames(frames);
    if badFrames || BadEvents(events, timebase, spacing) {
      return r.(invalidTimestamps := true, ambiguous := |events|);
    }
    ChangesAreExact(sorted);
    var ambiguous := events == []
                     || !(exists f | f in frames :: f.display < events[0].mach)
                     || exists c | c in changes :: c.display < events[0].mach;
    ghost var all := Members(frames);
    ghost var baseline := HasBaseline(events, all);
    BaselineTest(events, frames, sorted, changes);
    ghost var responses: seq<Option<nat>>, outcomes: seq<Outcome>, p: nat := [], [], 0;
    NothingTracked(events, all, baseline, timebase, spacing, r);
    for index := 0 to |events|
      invariant |outcomes| == |responses| == index && p <= index
      invariant Tracked(events, all, baseline, timebase, spacing, r, responses, outcomes, p)
      invariant ambiguous == (!baseline || p < index)
    {
      var event := events[index];
      var windowEnd := WindowEnd(events, spacing, index);
      var at := PartitionPoint(changes, event.mach);
      FirstResponse(sorted, changes, event.mach, at);
      var response := if at < |changes| then Some(changes[at].display) else None;
      ghost var o := OutcomeOf(event.mach, windowEnd, response);
      ghost var before, p0 := r, p;
      if response.Some? && response.value > event.mach && response.value < windowEnd && !ambiguous {
        r := r.(measured := r.measured + [timebase.MillisBetween(event.mach, response.value)]);
        p := p + 1;
      } else {
        ambiguous := true;
        if response.None? {
          r := r.(missed := r.missed + 1);
        } else if response.value >= windowEnd {
          r := r.(late := r.late + 1);
        } else {
          r := r.(ambiguous := r.ambiguous + 1);
        }
      }
      TrackKey(events, all, baseline, timebase, spacing, before, responses, outcomes, p0, response, o, r, p);
      responses := responses + [response];
      outcomes := outcomes + [o];
    }
    AllTracked(events, all, timebase, spacing, r, responses, outcomes, p);
  }

  /** What the loop knows of the keys read so far. */
  ghost predicate Tracked(events: seq<InputEvent>, frames: set<Frame>, baseline: bool, timebase: Timebase, spacing: nat,
                          r: KeyLatencies, responses: seq<Option<nat>>, outcomes: seq<Outcome>, p: nat)
  {
    AreOutcomes(events, frames, spacing, responses, outcomes)
    && Matches(events, baseline, timebase, r, responses, outcomes, p)
  }

  lemma NothingTracked(events: seq<InputEvent>, frames: set<Frame>, baseline: bool, timebase: Timebase, spacing: nat,
                       r: KeyLatencies)
    requires r == KeyLatencies([], 0, 0, 0, false, false)
    ensures Tracked(events, frames, baseline, timebase, spacing, r, [], [], 0)
  {
  }

  lemma TrackKey(events: seq<InputEvent>, frames: set<Frame>, baseline: bool, timebase: Timebase, spacing: nat,
                 r: KeyLatencies, responses: seq<Option<nat>>, outcomes: seq<Outcome>, p: nat,
                 response: Option<nat>, o: Outcome, r': KeyLatencies, p': nat)
    requires Tracked(events, frames, baseline, timebase, spacing, r, responses, outcomes, p) && |outcomes| < |events|
    requires IsResponse(frames, events[|outcomes|].mach, response)
    requires o == OutcomeOf(events[|outcomes|].mach, WindowEnd(events, spacing, |outcomes|), response)
    requires var mach := events[|outcomes|].mach;
             var timed := o == InTime && baseline && p == |outcomes|;
             && p' == (if timed then p + 1 else p)
             && r' == if timed then r.(measured := r.measured + [timebase.MillisBetween(mach, response.value)])
                      else match o
                           case Late => r.(late := r.late + 1)
                           case Missed => r.(missed := r.missed + 1)
                           case _ => r.(ambiguous := r.ambiguous + 1)
    ensures Tracked(events, frames, baseline, timebase, spacing, r', responses + [response], outcomes + [o], p')
  {
    hide IsResponse, AreOutcomes, Matches;
    MatchesExtends(events, baseline, timebase, r, responses, outcomes, p, response, o, r', p');
    OutcomesExtend(events, frames, spacing, responses, outcomes, response, o);
  }

  lemma AllTracked(events: seq<InputEvent>, frames: set<Frame>, timebase: Timebase, spacing: nat,
                   r: KeyLatencies, responses: seq<Option<nat>>, outcomes: seq<Outcome>, p: nat)
    requires ValidInput(events, frames, timebase, spacing) && |outcomes| == |events|
    requires Tracked(events, frames, HasBaseline(events, frames), timebase, spacing, r, responses, outcomes, p)
    ensures IsLatencies(events, frames, timebase, spacing, r)
  {
    hide ValidInput, AreOutcomes, Matches, HasBaseline;
  }

  lemma OutcomesExtend(events: seq<InputEvent>, frames: set<Frame>, spacing: nat,
                       responses: seq<Option<nat>>, outcomes: seq<Outcome>, response: Option<nat>, o: Outcome)
    requires AreOutcomes(events, frames, spacing, responses, outcomes) && |outcomes| < |events|
    requires IsResponse(frames, events[|outcomes|].mach, response)
    requires o == OutcomeOf(events[|outcomes|].mach, WindowEnd(events, spacing, |outcomes|), response)
    ensures AreOutcomes(events, frames, spacing, responses + [response], outcomes + [o])
  {
    hide IsResponse;
  }

  lemma BaselineTest(events: seq<InputEvent>, frames: seq<Frame>, sorted: seq<Frame>, changes: seq<Frame>)
    requires SortedFrames(sorted) && Consistent(Members(sorted)) && changes == Changes(sorted)
    requires Members(sorted) == Members(frames)
    ensures events == [] ==> !HasBaseline(events, Members(frames))
    ensures events != [] ==>
              (HasBaseline(events, Members(frames)) <==>
                 && (exists f | f in frames :: f.display < events[0].mach)
                 && !exists c | c in changes :: c.display < events[0].mach)
  {
    hide Consistent, ChangeAt, Changes;
    ChangesAreExact(sorted);
    if events != [] {
      assert (exists f | f in frames :: f.display < events[0].mach)
             <==> exists f | f in Members(frames) :: f.display < events[0].mach;
      if c :| c in changes && c.display < events[0].mach {
        assert ChangeAt(Members(sorted), c.display);
      }
    }
  }

  // ------------------------------------------------------------ the theorems

  lemma OutcomesAreUnique(events: seq<InputEvent>, frames: set<Frame>, spacing: nat,
                          responses: seq<Option<nat>>, outcomes: seq<Outcome>,
                          responses': seq<Option<nat>>, outcomes': seq<Outcome>)
    requires |outcomes| == |outcomes'|
    requires AreOutcomes(events, frames, spacing, responses, outcomes)
    requires AreOutcomes(events, frames, spacing, responses', outcomes')
    ensures responses == responses' && outcomes == outcomes'
  {
    hide IsResponse;
    forall i | 0 <= i < |responses| ensures responses[i] == responses'[i] {
      ResponseIsUnique(frames, events[i].mach, responses[i], responses'[i]);
    }
  }

  /** The answer is a function of the set of frames: neither their order nor exact
      duplicates can change it. */
  lemma LatenciesAreUnique(events: seq<InputEvent>, frames: set<Frame>, timebase: Timebase, spacing: nat,
                           a: KeyLatencies, b: KeyLatencies)
    requires IsLatencies(events, frames, timebase, spacing, a) && IsLatencies(events, frames, timebase, spacing, b)
    ensures a == b
  {
    hide ValidInput, HasBaseline, AreOutcomes, Count;
    if ValidInput(events, frames, timebase, spacing) {
      var responses: seq<Option<nat>>, outcomes: seq<Outcome>, p: nat :|
        && |outcomes| == |events|
        && AreOutcomes(events, frames, spacing, responses, outcomes)
        && Matches(events, HasBaseline(events, frames), timebase, a, responses, outcomes, p);
      var responses': seq<Option<nat>>, outcomes': seq<Outcome>, p': nat :|
        && |outcomes'| == |events|
        && AreOutcomes(events, frames, spacing, responses', outcomes')
        && Matches(events, HasBaseline(events, frames), timebase, b, responses', outcomes', p');
      OutcomesAreUnique(events, frames, spacing, responses, outcomes, responses', outcomes');
      assert p == p';
      assert a.measured == b.measured;
    }
  }

  /** Two lists of the same frames within the limit, in any order and with any exact
      duplicates, get the same answer. */
  lemma OnlyTheSetMatters(events: seq<InputEvent>, frames: seq<Frame>, frames': seq<Frame>, timebase: Timebase,
                          spacing: nat, a: KeyLatencies, b: KeyLatencies)
    requires Members(frames) == Members(frames') && |frames| <= MAX_KEY_RECORDS && |frames'| <= MAX_KEY_RECORDS
    requires IsAnswer(events, frames, timebase, spacing, a) && IsAnswer(events, frames', timebase, spacing, b)
    ensures a == b
  {
    hide IsLatencies, Members;
    if |events| <= MAX_KEY_RECORDS {
      LatenciesAreUnique(events, Members(frames), timebase, spacing, a, b);
    }
  }

  lemma {:induction false} CountsAddUp(outcomes: seq<Outcome>)
    ensures Count(outcomes, {Late}) + Count(outcomes, {Missed}) + Count(outcomes, {InTime, Unclear}) == |outcomes|
  {
    if outcomes != [] {
      var n := |outcomes| - 1;
      CountsAddUp(outcomes[..n]);
      match outcomes[n]
      case InTime => assert InTime in {InTime, Unclear} && InTime !in {Late} && InTime !in {Missed};
      case Late =>
      case Missed =>
      case Unclear => assert Unclear in {InTime, Unclear} && Unclear !in {Late} && Unclear !in {Missed};
    }
  }

  /** Every event is accounted for exactly once: on valid input, on refused input, and over the
      record limit. */
  lemma KeysAreConserved(events: seq<InputEvent>, frames: seq<Frame>, timebase: Timebase, spacing: nat, r: KeyLatencies)
    requires IsAnswer(events, frames, timebase, spacing, r)
    ensures |r.measured| + r.late + r.missed + r.ambiguous == |events|
  {
    hide HasBaseline, AreOutcomes, Count, Members;
    var shown := Members(frames);
    if IsLatencies(events, shown, timebase, spacing, r) && ValidInput(events, shown, timebase, spacing) {
      var responses: seq<Option<nat>>, outcomes: seq<Outcome>, p: nat :|
        && |outcomes| == |events|
        && AreOutcomes(events, shown, spacing, responses, outcomes)
        && Matches(events, HasBaseline(events, shown), timebase, r, responses, outcomes, p);
      CountsAddUp(outcomes[p..]);
    }
  }

  lemma {:induction false} EventsIncrease(events: seq<InputEvent>, frames: set<Frame>, timebase: Timebase,
                                          spacing: nat, i: nat, j: nat)
    requires ValidInput(events, frames, timebase, spacing) && i < j < |events|
    ensures events[i].mach < events[j].mach && WindowEnd(events, spacing, i) <= events[j].mach
    decreases j - i
  {
    hide Consistent;
    if i + 1 < j {
      EventsIncrease(events, frames, timebase, spacing, i + 1, j);
    }
  }

  lemma InTimeMeans(frames: set<Frame>, mach: nat, windowEnd: nat, response: Option<nat>)
    requires IsResponse(frames, mach, response) && OutcomeOf(mach, windowEnd, response) == InTime
    ensures response.Some? && ChangeAt(frames, response.value) && mach < response.value < windowEnd
    ensures forall d: nat | mach <= d < response.value :: !ChangeAt(frames, d)
  {
    hide ChangeAt;
  }

  /** The measured keys are the first ones, each timed by a change of its own that lies
      strictly inside its own window and is the first since the key. */
  lemma MeasuredKeysOwnTheirChange(events: seq<InputEvent>, frames: set<Frame>, timebase: Timebase, spacing: nat,
                                   r: KeyLatencies)
    returns (changes: seq<nat>)
    requires ValidInput(events, frames, timebase, spacing) && IsLatencies(events, frames, timebase, spacing, r)
    ensures |changes| == |r.measured| <= |events|
    ensures forall i | 0 <= i < |changes| ::
              && ChangeAt(frames, changes[i])
              && events[i].mach < changes[i] < WindowEnd(events, spacing, i)
              && r.measured[i] == timebase.MillisBetween(events[i].mach, changes[i])
              && forall d | events[i].mach <= d < changes[i] :: !ChangeAt(frames, d)
    ensures forall i, j | 0 <= i < j < |changes| :: changes[i] < changes[j]
  {
    hide HasBaseline, Count, ChangeAt, Consistent, WindowEnd, OutcomeOf, IsResponse;
    var responses: seq<Option<nat>>, outcomes: seq<Outcome>, p: nat :|
      && |outcomes| == |events|
      && AreOutcomes(events, frames, spacing, responses, outcomes)
      && Matches(events, HasBaseline(events, frames), timebase, r, responses, outcomes, p);
    changes := seq(p, i requires 0 <= i < p => responses[i].value);
    forall i | 0 <= i < p
      ensures ChangeAt(frames, changes[i])
      ensures events[i].mach < changes[i] < WindowEnd(events, spacing, i)
      ensures forall d | events[i].mach <= d < changes[i] :: !ChangeAt(frames, d)
    {
      InTimeMeans(frames, events[i].mach, WindowEnd(events, spacing, i), responses[i]);
    }
    hide ValidInput;
    forall i, j | 0 <= i < j < |changes| ensures changes[i] < changes[j] {
      EventsIncrease(events, frames, timebase, spacing, i, j);
    }
  }

  /** The time from a key to a change, in whole nanoseconds below it. */
  ghost predicate Elapsed(timebase: Timebase, ticks: nat, nanos: nat) {
    && nanos * timebase.denom <= ticks * timebase.numer
    && (nanos < U64_MAX ==> ticks * timebase.numer < (nanos + 1) * timebase.denom)
  }

  lemma MillisAreElapsed(timebase: Timebase, start: nat, end: nat, later: nat) returns (nanos: nat)
    requires timebase.denom > 0 && start <= end <= later
    ensures timebase.MillisBetween(start, end) * 1000000.0 == nanos as real
    ensures Elapsed(timebase, end - start, nanos)
    ensures timebase.MillisBetween(start, end) <= timebase.MillisBetween(start, later)
  {
    nanos := timebase.Nanos(end - start);
    NanosAreWhole(timebase, end - start);
    MillisAreSigned(timebase, start, end, later);
    hide Timebase.Nanos, Elapsed;
  }

  /** Each measured time is the time that passed from the key to its change, to the nanosecond
      below, and so no longer than the key's window. */
  lemma MeasuredTimesAreElapsed(events: seq<InputEvent>, frames: set<Frame>, timebase: Timebase, spacing: nat,
                                r: KeyLatencies, i: nat)
    returns (change: nat, nanos: nat)
    requires ValidInput(events, frames, timebase, spacing) && IsLatencies(events, frames, timebase, spacing, r)
    requires i < |r.measured|
    ensures |r.measured| <= |events| && ChangeAt(frames, change)
    ensures events[i].mach < change < WindowEnd(events, spacing, i)
    ensures r.measured[i] * 1000000.0 == nanos as real && Elapsed(timebase, change - events[i].mach, nanos)
    ensures r.measured[i] <= timebase.MillisBetween(events[i].mach, WindowEnd(events, spacing, i))
  {
    var changes := MeasuredKeysOwnTheirChange(events, frames, timebase, spacing, r);
    change := changes[i];
    hide IsLatencies, ChangeAt, WindowEnd, Consistent;
    nanos := MillisAreElapsed(timebase, events[i].mach, change, WindowEnd(events, spacing, i));
  }

  // --------------------------------------------------------- which keys are counted

  /** The first change since key i is strictly inside its window. */
  ghost predicate AnsweredInTime(events: seq<InputEvent>, frames: set<Frame>, spacing: nat, i: nat)
    requires i < |events|
  {
    exists d: nat ::
      && ChangeAt(frames, d) && events[i].mach < d < WindowEnd(events, spacing, i)
      && forall e: nat | events[i].mach <= e < d :: !ChangeAt(frames, e)
  }

  /** Something changes after key i, but not before its window ends. */
  ghost predicate AnsweredLate(events: seq<InputEvent>, frames: set<Frame>, spacing: nat, i: nat)
    requires i < |events|
  {
    && (exists d: nat :: ChangeAt(frames, d) && WindowEnd(events, spacing, i) <= d)
    && forall e: nat | events[i].mach <= e < WindowEnd(events, spacing, i) :: !ChangeAt(frames, e)
  }

  /** Nothing changes from key i on. */
  ghost predicate NeverAnswered(events: seq<InputEvent>, frames: set<Frame>, i: nat)
    requires i < |events|
  {
    forall d: nat | ChangeAt(frames, d) :: d < events[i].mach
  }

  lemma OutcomeMeans(events: seq<InputEvent>, frames: set<Frame>, spacing: nat, i: nat, response: Option<nat>)
    requires i < |events| && events[i].mach <= WindowEnd(events, spacing, i)
    requires IsResponse(frames, events[i].mach, response)
    ensures var o := OutcomeOf(events[i].mach, WindowEnd(events, spacing, i), response);
            && (o == InTime <==> AnsweredInTime(events, frames, spacing, i))
            && (o == Late <==> AnsweredLate(events, frames, spacing, i))
            && (o == Missed <==> NeverAnswered(events, frames, i))
  {
    hide ChangeAt, WindowEnd;
    if response.Some? {
      assert ChangeAt(frames, response.value);
    }
  }

  ghost function Having(outcomes: seq<Outcome>, from: nat, kind: Outcome): set<nat> {
    set i: nat | from <= i < |outcomes| && outcomes[i] == kind
  }

  lemma HavingOneMore(outcomes: seq<Outcome>, from: nat, kind: Outcome)
    requires from < |outcomes|
    ensures var n := |outcomes| - 1;
            && n !in Having(outcomes[..n], from, kind)
            && Having(outcomes, from, kind)
               == Having(outcomes[..n], from, kind) + if outcomes[n] == kind then {n} else {}
  {
  }

  lemma {:induction false} CountIsSize(outcomes: seq<Outcome>, from: nat, kind: Outcome)
    requires from <= |outcomes|
    ensures Count(outcomes[from..], {kind}) == |Having(outcomes, from, kind)|
  {
    if from == |outcomes| {
      assert Having(outcomes, from, kind) == {};
    } else {
      var n := |outcomes| - 1;
      CountIsSize(outcomes[..n], from, kind);
      HavingOneMore(outcomes, from, kind);
      hide Having;
      assert outcomes[from..][..n - from] == outcomes[..n][from..];
    }
  }

  lemma ValidWindow(events: seq<InputEvent>, frames: set<Frame>, timebase: Timebase, spacing: nat, i: nat)
    requires ValidInput(events, frames, timebase, spacing) && i < |events|
    ensures events[i].mach < WindowEnd(events, spacing, i)
  {
    hide Consistent;
  }

  /** The exact count of each kind. The measured keys are all those up to the first that is not
      answered inside its window, or none if the screen had no settled picture to begin with;
      the missed ones are those after which nothing ever changed; the late ones are, past the
      measured, those first answered after their window. */
  lemma CountsAreExact(events: seq<InputEvent>, frames: set<Frame>, timebase: Timebase, spacing: nat, r: KeyLatencies)
    requires ValidInput(events, frames, timebase, spacing) && IsLatencies(events, frames, timebase, spacing, r)
    ensures |r.measured| <= |events|
    ensures forall i | 0 <= i < |r.measured| :: AnsweredInTime(events, frames, spacing, i)
    ensures HasBaseline(events, frames) && |r.measured| < |events| ==>
              !AnsweredInTime(events, frames, spacing, |r.measured|)
    ensures !HasBaseline(events, frames) ==> r.measured == []
    ensures r.missed == |set i: nat | i < |events| && NeverAnswered(events, frames, i)|
    ensures r.late == |set i: nat | |r.measured| <= i < |events| && AnsweredLate(events, frames, spacing, i)|
  {
    hide ValidInput, HasBaseline, AnsweredInTime, AnsweredLate, NeverAnswered, Count, IsLatencies;
    var outcomes, p := OutcomesOf(events, frames, timebase, spacing, r);
    CountIsSize(outcomes, p, Missed);
    CountIsSize(outcomes, p, Late);
    assert Having(outcomes, p, Missed) == set i: nat | i < |events| && NeverAnswered(events, frames, i);
    assert Having(outcomes, p, Late) == set i: nat | p <= i < |events| && AnsweredLate(events, frames, spacing, i);
  }

  lemma OutcomesOf(events: seq<InputEvent>, frames: set<Frame>, timebase: Timebase, spacing: nat, r: KeyLatencies)
    returns (outcomes: seq<Outcome>, p: nat)
    requires ValidInput(events, frames, timebase, spacing) && IsLatencies(events, frames, timebase, spacing, r)
    ensures |outcomes| == |events| && p == |r.measured| <= |events|
    ensures IsMeasuredPrefix(HasBaseline(events, frames), outcomes, p)
    ensures r.late == Count(outcomes[p..], {Late}) && r.missed == Count(outcomes[p..], {Missed})
    ensures forall i: nat | i < |events| ::
              && (outcomes[i] == InTime <==> AnsweredInTime(events, frames, spacing, i))
              && (outcomes[i] == Late <==> AnsweredLate(events, frames, spacing, i))
              && (outcomes[i] == Missed <==> NeverAnswered(events, frames, i))
  {
    hide HasBaseline, Count, OutcomeOf, IsResponse, ValidInput, AnsweredInTime, AnsweredLate, NeverAnswered;
    hide WindowEnd;
    var responses: seq<Option<nat>>;
    responses, outcomes, p :|
      && |outcomes| == |events|
      && AreOutcomes(events, frames, spacing, responses, outcomes)
      && Matches(events, HasBaseline(events, frames), timebase, r, responses, outcomes, p);
    forall i: nat | i < |events|
      ensures outcomes[i] == InTime <==> AnsweredInTime(events, frames, spacing, i)
      ensures outcomes[i] == Late <==> AnsweredLate(events, frames, spacing, i)
      ensures outcomes[i] == Missed <==> NeverAnswered(events, frames, i)
    {
      ValidWindow(events, frames, timebase, spacing, i);
      OutcomeMeans(events, frames, spacing, i, responses[i]);
    }
  }

  /** If every change is the answer to some equally spaced key, and no answer comes sooner
      than the spacing, no key can look fast: nothing is measured. */
  lemma SlowAnswersAreNeverMeasured(events: seq<InputEvent>, frames: set<Frame>, timebase: Timebase, spacing: nat,
                                    delays: seq<nat>, r: KeyLatencies)
    requires ValidInput(events, frames, timebase, spacing) && IsLatencies(events, frames, timebase, spacing, r)
    requires forall i | 0 <= i < |events| - 1 :: events[i + 1].mach == events[i].mach + spacing
    requires |delays| == |events| && forall i | 0 <= i < |events| :: delays[i] >= spacing
    requires forall d: nat | ChangeAt(frames, d) :: exists i | 0 <= i < |events| :: d == events[i].mach + delays[i]
    ensures r.measured == []
  {
    hide ValidInput, IsLatencies, ChangeAt;
    var changes := MeasuredKeysOwnTheirChange(events, frames, timebase, spacing, r);
    if changes != [] {
      assert ChangeAt(frames, changes[0]);
      var i :| 0 <= i < |events| && changes[0] == events[i].mach + delays[i];
      if i > 0 {
        EventsIncrease(events, frames, timebase, spacing, 0, i);
      }
      SpacedWindow(events, frames, timebase, spacing);
    }
  }

  lemma SpacedWindow(events: seq<InputEvent>, frames: set<Frame>, timebase: Timebase, spacing: nat)
    requires ValidInput(events, frames, timebase, spacing) && events != []
    requires forall i | 0 <= i < |events| - 1 :: events[i + 1].mach == events[i].mach + spacing
    ensures WindowEnd(events, spacing, 0) == events[0].mach + spacing
  {
  }
}
