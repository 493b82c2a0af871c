/** `replay` of `physical_evidence.rs`: the acceptor of diagnostic scene traces, over
    records that have been split into fields. Scales and transforms are exact reals. */
module Evidence {
  import opened Wrappers

  const MAX_FRAMES: nat := 2048
  const SAMPLES: nat := 135
  const EXPECTED: seq<int> := [0, 118, 188, 225, 255]
  const TOLERANCE: int := 12
  const SLACK: real := 0.000001

  datatype Scene = A | B

  datatype Source = Source(start: nat, width: nat, height: nat, scale: real)

  /** One record after the source line. A raw sample that is not a byte is None. */
  datatype Record =
    | Frame(tag: string, number: nat, display: nat, arrival: nat, reported: string,
            samples: seq<Option<int>>, transform: seq<real>)
    | End(time: nat, count: nat)

  datatype Observation = Observation(frames: nat, firstB: nat)

  datatype TraceError =
    | RecordAfterEnd
    | InvalidEnd
    | UnsupportedTransform
    | TransformChanged
    | InvalidFrame
    | InvalidTimestamps
    | InvalidSamples
    | NoMatchingScene
    | LabelDisagrees
    | SceneRegressed
    | EarlyB
    | NoEnd
    | NoTransition

  // -------------------------------------------------------- scenes and samples

  /** The value a patch of 27 samples should have in a scene. */
  function ExpectedAt(scene: Scene, index: nat): int
    requires index < SAMPLES
  {
    var patch := index / 27;
    EXPECTED[if scene == B then 4 - patch else patch]
  }

  predicate Near(value: int, expected: int) {
    -TOLERANCE <= value - expected <= TOLERANCE
  }

  predicate Shows(samples: seq<int>, scene: Scene)
    requires |samples| == SAMPLES
  {
    forall k | 0 <= k < SAMPLES :: Near(samples[k], ExpectedAt(scene, k))
  }

  function Classify(samples: seq<int>): Result<Scene, TraceError>
    requires |samples| == SAMPLES
  {
    if Shows(samples, A) then Ok(A) else if Shows(samples, B) then Ok(B) else Err(NoMatchingScene)
  }

  /** The two scenes are too far apart to be confused, so the order of the tests is
      irrelevant. */
  lemma ScenesAreDisjoint(samples: seq<int>, scene: Scene)
    requires |samples| == SAMPLES
    ensures Classify(samples) == Ok(scene) <==> Shows(samples, scene)
  {
    if Shows(samples, A) {
      assert Near(samples[0], ExpectedAt(A, 0));
      assert !Near(samples[0], ExpectedAt(B, 0));
    }
  }

  /** Scene B is scene A the other way round. */
  lemma ScenesMirror(samples: seq<int>, mirrored: seq<int>)
    requires |samples| == |mirrored| == SAMPLES
    requires forall k | 0 <= k < SAMPLES :: mirrored[k] == samples[SAMPLES - 1 - k]
    ensures Shows(samples, A) <==> Shows(mirrored, B)
  {
    forall k | 0 <= k < SAMPLES ensures ExpectedAt(A, SAMPLES - 1 - k) == ExpectedAt(B, k) {
      assert (SAMPLES - 1 - k) / 27 == 4 - k / 27;
    }
    if Shows(mirrored, B) {
      forall k | 0 <= k < SAMPLES ensures Near(samples[k], ExpectedAt(A, k)) {
        assert Near(mirrored[SAMPLES - 1 - k], ExpectedAt(B, SAMPLES - 1 - k));
      }
    }
  }

  /** Scene A runs from black to white, in five patches. */
  lemma SceneAByPatch(samples: seq<int>)
    requires |samples| == SAMPLES
    ensures Shows(samples, A) <==>
              && (forall k | 0 <= k < 27 :: -12 <= samples[k] <= 12)
              && (forall k | 27 <= k < 54 :: 106 <= samples[k] <= 130)
              && (forall k | 54 <= k < 81 :: 176 <= samples[k] <= 200)
              && (forall k | 81 <= k < 108 :: 213 <= samples[k] <= 237)
              && (forall k | 108 <= k < 135 :: 243 <= samples[k] <= 267)
  {
    if Shows(samples, A) {
      forall k | 0 <= k < SAMPLES ensures Near(samples[k], ExpectedAt(A, k)) {
      }
    }
  }

  predicate IsByte(part: Option<int>) {
    part.Some? && 0 <= part.value < 256
  }

  method ReadSamples(parts: seq<Option<int>>) returns (r: Result<seq<int>, TraceError>)
    ensures r.Ok? <==>
              |parts| == 135 && forall k | 0 <= k < |parts| :: parts[k].Some? && 0 <= parts[k].value <= 255
    ensures r.Ok? ==> |r.value| == SAMPLES && forall k | 0 <= k < SAMPLES :: Some(r.value[k]) == parts[k]
    ensures r.Err? ==> r.error == InvalidSamples
  {
    var values := new int[SAMPLES](_ => 0);
    var count := 0;
    for k := 0 to |parts|
      invariant count == k <= SAMPLES
      invariant forall j | 0 <= j < k :: IsByte(parts[j]) && Some(values[j]) == parts[j]
    {
      if count >= SAMPLES {
        return Err(InvalidSamples);
      }
      if !IsByte(parts[k]) {
        return Err(InvalidSamples);
      }
      values[count] := parts[k].value;
      count := count + 1;
    }
    if count != SAMPLES {
      return Err(InvalidSamples);
    }
    r := Ok(values[..]);
  }

  function SceneName(scene: Scene): string {
    if scene == A then "A" else "B"
  }

  /** The scene that a frame's raw samples show. */
  function SceneOf(parts: seq<Option<int>>): Option<Scene> {
    if |parts| == SAMPLES && forall k | 0 <= k < |parts| :: IsByte(parts[k]) then
      var samples := seq(SAMPLES, k requires 0 <= k < SAMPLES => parts[k].value);
      match Classify(samples)
      case Ok(scene) => Some(scene)
      case Err(_) => None
    else None
  }

  predicate Close(x: real, y: real) {
    -SLACK <= x - y <= SLACK
  }

  /** The only content transform supported: no offset, and a scale that maps the reported
      size back to the source's pixels. */
  predicate Supported(source: Source, transform: seq<real>) {
    && |transform| == 6
    && transform[0] == 0.0 && transform[1] == 0.0
    && transform[4] > 0.0
    && 1.0 <= transform[5] <= 4.0
    && Close(transform[4] * transform[5], source.scale)
    && Close(transform[2] * transform[5], source.width as real)
    && Close(transform[3] * transform[5], source.height as real)
  }

  /** Only one content transform fits a source: no offset, a scale between 1 and 4, and reported
      measures that this scale turns into the source's, to a millionth. */
  lemma TransformFits(source: Source, transform: seq<real>)
    requires Supported(source, transform)
    ensures |transform| == 6 && transform[0] == transform[1] == 0.0
    ensures var scale := transform[5];
            && 1.0 <= scale <= 4.0 && transform[4] > 0.0
            && source.width as real - 0.000001 <= transform[2] * scale <= source.width as real + 0.000001
            && source.height as real - 0.000001 <= transform[3] * scale <= source.height as real + 0.000001
            && source.scale - 0.000001 <= transform[4] * scale <= source.scale + 0.000001
  {
  }

  // ---------------------------------------------------- the declarative condition

  /** A frame record that stands on its own as the n-th of a trace. */
  ghost predicate GoodFrame(source: Source, r: Record, n: nat) {
    && r.Frame? && r.tag == "scene-frame" && r.number == n + 1 <= 2048
    && Supported(source, r.transform)
    && r.arrival >= r.display
    && SceneOf(r.samples).Some? && r.reported == SceneName(SceneOf(r.samples).value)
  }

  /** Both clocks advance from one record to the next, and the transform stays. */
  ghost predicate Follows(source: Source, earlier: Option<Record>, r: Record)
    requires r.Frame?
  {
    match earlier
    case None => r.display > 0 && r.arrival > source.start
    case Some(p) => p.Frame? && r.display > p.display && r.arrival > p.arrival && r.transform == p.transform
  }

  ghost function Before(records: seq<Record>, k: nat): Option<Record>
    requires k <= |records|
  {
    if k == 0 then None else Some(records[k - 1])
  }

  /** Scene A before index b; scene B, after the action, from there on. */
  ghost predicate RightScene(action: nat, r: Record, k: nat, b: nat)
    requires r.Frame?
  {
    if k < b then SceneOf(r.samples) == Some(A)
    else SceneOf(r.samples) == Some(B) && r.display > action
  }

  ghost predicate GoodAt(source: Source, action: nat, records: seq<Record>, k: nat, b: nat)
    requires k < |records|
  {
    var r := records[k];
    GoodFrame(source, r, k) && Follows(source, Before(records, k), r) && RightScene(action, r, k, b)
  }

  /** Some A arrived before the action. */
  ghost predicate HasBaseline(action: nat, records: seq<Record>, b: nat)
    requires b <= |records|
  {
    exists k | 0 <= k < b :: records[k].Frame? && records[k].arrival < action
  }

  /** The terminal record follows every frame and the action, and holds the count. */
  ghost predicate GoodEnd(source: Source, action: nat, records: seq<Record>, n: nat)
    requires n < |records|
  {
    var end := records[n];
    && end.End? && end.count == n && end.time > action
    && match Before(records, n)
       case None => end.time >= source.start
       case Some(p) => p.Frame? && end.time >= p.arrival
  }

  /** A trace is accepted with its first B frame at index b: numbered frames under one
      supported transform with strictly increasing clocks and honest labels, scenes A...A
      B...B across the action, and one matching terminal record at the end. */
  ghost predicate Accepts(source: Source, action: nat, records: seq<Record>, b: nat) {
    && b + 1 < |records|
    && (forall k {:trigger GoodAt(source, action, records, k, b)} | 0 <= k < |records| - 1 ::
          GoodAt(source, action, records, k, b))
    && HasBaseline(action, records, b)
    && GoodEnd(source, action, records, |records| - 1)
  }

  // ------------------------------------------------------------- the acceptor

  /** The first n records are a good beginning with the first B frame, if any, at b. */
  ghost predicate Progress(source: Source, action: nat, records: seq<Record>, n: nat, b: nat, baseline: bool) {
    && b <= n <= |records|
    && (forall k {:trigger GoodAt(source, action, records, k, b)} | 0 <= k < n :: GoodAt(source, action, records, k, b))
    && (forall k | 0 <= k < n :: records[k].Frame?)
    && baseline == HasBaseline(action, records, b)
    && (b < n ==> baseline)
  }

  /** The next record continues a good beginning. */
  ghost predicate Continues(source: Source, action: nat, records: seq<Record>, n: nat, b: nat, baseline: bool)
    requires n < |records|
  {
    && records[n].Frame?
    && GoodFrame(source, records[n], n)
    && Follows(source, Before(records, n), records[n])
    && if SceneOf(records[n].samples) == Some(A) then b == n
       else records[n].display > action && baseline
  }

  lemma ProgressExtends(source: Source, action: nat, records: seq<Record>, n: nat, b: nat, baseline: bool)
    requires Progress(source, action, records, n, b, baseline) && n < |records|
    requires Continues(source, action, records, n, b, baseline)
    ensures var isA := SceneOf(records[n].samples) == Some(A);
            Progress(source, action, records, n + 1, if isA then b + 1 else b,
                     baseline || (isA && records[n].arrival < action))
  {
    hide GoodFrame, Follows, SceneOf;
    var isA := SceneOf(records[n].samples) == Some(A);
    if isA {
      var next := b + 1;
      forall k | 0 <= k <= n ensures GoodAt(source, action, records, k, next) {
        assert k < n ==> GoodAt(source, action, records, k, b);
      }
      assert HasBaseline(action, records, b + 1) <==> baseline || records[n].arrival < action;
    } else {
      SceneIsAOrB(source, records[n], n);
      assert GoodAt(source, action, records, n, b);
    }
  }

  lemma SceneIsAOrB(source: Source, r: Record, n: nat)
    requires GoodFrame(source, r, n)
    ensures r.Frame? && (SceneOf(r.samples) == Some(A) || SceneOf(r.samples) == Some(B))
  {
  }

  /** A good beginning fixes where an accepted trace may change scene. */
  lemma SplitIsForced(source: Source, action: nat, records: seq<Record>, n: nat, b: nat, baseline: bool, b': nat)
    requires Progress(source, action, records, n, b, baseline) && Accepts(source, action, records, b')
    requires n < |records|
    ensures b < n ==> b' == b
    ensures b == n ==> b' >= n
  {
    hide GoodAt;
    if b' < n {
      SameSide(source, action, records, b', b, b');
    }
    if b < n {
      SameSide(source, action, records, b, b, b');
    }
  }

  /** A frame shows one scene, so it lies on the same side of both splits. */
  lemma SameSide(source: Source, action: nat, records: seq<Record>, k: nat, b: nat, b': nat)
    requires k < |records|
    requires GoodAt(source, action, records, k, b) && GoodAt(source, action, records, k, b')
    ensures k < b <==> k < b'
  {
  }

  lemma AcceptedContinues(source: Source, action: nat, records: seq<Record>, n: nat, b: nat, baseline: bool, b': nat)
    requires Progress(source, action, records, n, b, baseline) && Accepts(source, action, records, b')
    requires n < |records| - 1
    ensures Continues(source, action, records, n, b, baseline)
  {
    hide Follows, SceneOf;
    SplitIsForced(source, action, records, n, b, baseline, b');
    assert GoodAt(source, action, records, n, b');
  }

  /** Why no split accepts: a record that does not continue, a terminal record that does not
      fit or is not last, or none at all. */
  lemma Reject(source: Source, action: nat, records: seq<Record>, n: nat, b: nat, baseline: bool)
    requires Progress(source, action, records, n, b, baseline)
    requires || n == |records|
             || (records[n].Frame? && !Continues(source, action, records, n, b, baseline))
             || (records[n].End? && (n + 1 < |records| || !GoodEnd(source, action, records, n) || b == n))
    ensures forall b' :: !Accepts(source, action, records, b')
  {
    hide GoodAt, GoodFrame, Follows;
    forall b': nat ensures !Accepts(source, action, records, b') {
      if Accepts(source, action, records, b') {
        var last := |records| - 1;
        if n == |records| {
          assert false;
        } else if n < last {
          AcceptedContinues(source, action, records, n, b, baseline, b');
          assert false;
        } else {
          SplitIsForced(source, action, records, n, b, baseline, b');
          assert false;
        }
      }
    }
  }

  lemma Accept(source: Source, action: nat, records: seq<Record>, b: nat, baseline: bool)
    requires records != [] && Progress(source, action, records, |records| - 1, b, baseline)
    requires GoodEnd(source, action, records, |records| - 1) && b < |records| - 1
    ensures Accepts(source, action, records, b) && records[b].Frame?
  {
  }

  /** Accepts a trace exactly when it meets the declarative condition, and reports its
      frame count and the display tick of its first B frame. */
  method Replay(source: Source, action: nat, records: seq<Record>)
    returns (r: Result<Observation, TraceError>, ghost b: nat)
    ensures r.Ok? <==> exists b' :: Accepts(source, action, records, b')
    ensures r.Ok? ==>
              && Accepts(source, action, records, b) && records[b].Frame?
              && r.value == Observation(|records| - 1, records[b].display)
  {
    hide Supported, SceneOf, Accepts, HasBaseline, GoodAt;
    b := 0;
    var frames, display, arrival := 0, 0, source.start;
    var baseline, ended := false, false;
    var firstB: Option<nat> := None;
    var previous: Option<seq<real>> := None;
    Start(source, action, records);
    for i := 0 to |records|
      invariant frames == if ended then i - 1 else i
      invariant 0 <= frames && Progress(source, action, records, frames, b, baseline)
      invariant display == if frames == 0 then 0 else records[frames - 1].display
      invariant arrival == if frames == 0 then source.start else records[frames - 1].arrival
      invariant previous == if frames == 0 then None else Some(records[frames - 1].transform)
      invariant firstB == if b < frames then Some(records[b].display) else None
      invariant ended ==> GoodEnd(source, action, records, frames)
    {
      var record := records[i];
      if ended {
        Reject(source, action, records, frames, b, baseline);
        return Err(RecordAfterEnd), b;
      }
      match record
      case End(time, count) =>
        if time < arrival || time <= action || count != frames {
          Reject(source, action, records, frames, b, baseline);
          return Err(InvalidEnd), b;
        }
        ended := true;
      case Frame(tag, number, nextDisplay, nextArrival, reported, samples, transform) =>
        if !Supported(source, transform) {
          Reject(source, action, records, frames, b, baseline);
          return Err(UnsupportedTransform), b;
        }
        if previous.Some? && previous.value != transform {
          Reject(source, action, records, frames, b, baseline);
          return Err(TransformChanged), b;
        }
        if tag != "scene-frame" || frames >= MAX_FRAMES || number != frames + 1 {
          Reject(source, action, records, frames, b, baseline);
          return Err(InvalidFrame), b;
        }
        if nextDisplay <= display || nextArrival <= arrival || nextArrival < nextDisplay {
          Reject(source, action, records, frames, b, baseline);
          return Err(InvalidTimestamps), b;
        }
        var scene := SceneIn(samples);
        if scene.Err? {
          Reject(source, action, records, frames, b, baseline);
          return Err(scene.error), b;
        }
        if reported != SceneName(scene.value) {
          Reject(source, action, records, frames, b, baseline);
          return Err(LabelDisagrees), b;
        }
        if scene.value == A {
          if firstB.Some? {
            Reject(source, action, records, frames, b, baseline);
            return Err(SceneRegressed), b;
          }
          ProgressExtends(source, action, records, frames, b, baseline);
          baseline := baseline || nextArrival < action;
          b := b + 1;
        } else {
          if nextDisplay <= action || !baseline {
            Reject(source, action, records, frames, b, baseline);
            return Err(EarlyB), b;
          }
          ProgressExtends(source, action, records, frames, b, baseline);
          firstB := if firstB.None? then Some(nextDisplay) else firstB;
        }
        previous := Some(transform);
        frames := frames + 1;
        display := nextDisplay;
        arrival := nextArrival;
    }
    if !ended {
      Reject(source, action, records, frames, b, baseline);
      return Err(NoEnd), b;
    }
    if firstB.None? {
      Reject(source, action, records, frames, b, baseline);
      return Err(NoTransition), b;
    }
    Accept(source, action, records, b, baseline);
    r := Ok(Observation(frames, firstB.value));
  }

  lemma Start(source: Source, action: nat, records: seq<Record>)
    ensures Progress(source, action, records, 0, 0, false)
  {
  }

  /** `classify` of `samples`. */
  method SceneIn(parts: seq<Option<int>>) returns (r: Result<Scene, TraceError>)
    ensures match SceneOf(parts)
            case Some(scene) => r == Ok(scene)
            case None => r.Err?
  {
    var samples :- ReadSamples(parts);
    assert |parts| == SAMPLES ==> samples == seq(SAMPLES, k requires 0 <= k < SAMPLES => samples[k]);
    r := Classify(samples);
  }

  /** The samples of five patches, 27 of each. */
  function Patches(a: int, b: int, c: int, d: int, e: int): seq<Option<int>> {
    seq(SAMPLES, k => Some(if k < 27 then a else if k < 54 then b else if k < 81 then c else if k < 108 then d else e))
  }

  /** A smallest accepted trace: on a source of 200 by 100 pixels at scale 2, scene A before
      the action, scene B after it. */
  lemma SmallestTrace()
    ensures var source, transform := Source(100, 200, 100, 2.0), [0.0, 0.0, 100.0, 50.0, 1.0, 2.0];
            var before := Frame("scene-frame", 1, 110, 111, "A", Patches(0, 118, 188, 225, 255), transform);
            var after := Frame("scene-frame", 2, 130, 131, "B", Patches(255, 225, 188, 118, 0), transform);
            Accepts(source, 120, [before, after, End(140, 2)], 1)
  {
    var source, transform := Source(100, 200, 100, 2.0), [0.0, 0.0, 100.0, 50.0, 1.0, 2.0];
    var dark, light := Patches(0, 118, 188, 225, 255), Patches(255, 225, 188, 118, 0);
    var before := Frame("scene-frame", 1, 110, 111, "A", dark, transform);
    var after := Frame("scene-frame", 2, 130, 131, "B", light, transform);
    var records := [before, after, End(140, 2)];
    PatchesShow(dark, A);
    PatchesShow(light, B);
    hide SceneOf;
    assert GoodAt(source, 120, records, 0, 1) && GoodAt(source, 120, records, 1, 1);
    assert records[0].arrival < 120;
  }

  lemma PatchesShow(parts: seq<Option<int>>, scene: Scene)
    requires parts == if scene == A then Patches(0, 118, 188, 225, 255) else Patches(255, 225, 188, 118, 0)
    ensures SceneOf(parts) == Some(scene)
  {
    var samples := seq(SAMPLES, k requires 0 <= k < SAMPLES => parts[k].value);
    assert Shows(samples, scene);
    ScenesAreDisjoint(samples, scene);
  }

  /** A trace changes scene at one place only. */
  lemma SplitIsUnique(source: Source, action: nat, records: seq<Record>, b: nat, b': nat)
    requires Accepts(source, action, records, b) && Accepts(source, action, records, b')
    ensures b == b'
  {
    hide GoodAt;
    SameSide(source, action, records, b, b, b');
    SameSide(source, action, records, b', b, b');
  }

  /** Over a whole accepted trace both clocks only advance, from the source's start on, frames
      arrive after they are displayed and are numbered from 1, and the transform never changes. */
  lemma {:induction false} ClocksAdvance(source: Source, action: nat, records: seq<Record>, b: nat, i: nat, j: nat)
    requires Accepts(source, action, records, b) && i < j < |records| - 1
    ensures records[i].Frame? && records[j].Frame?
    ensures 0 < records[i].display < records[j].display && source.start < records[i].arrival < records[j].arrival
    ensures records[j].display <= records[j].arrival && records[j].number == j + 1
    ensures records[j].transform == records[i].transform
  {
    hide Supported, SceneOf;
    assert GoodAt(source, action, records, j, b) && GoodAt(source, action, records, j - 1, b);
    if i < j - 1 {
      ClocksAdvance(source, action, records, b, i, j - 1);
    } else if i > 0 {
      ClocksAdvance(source, action, records, b, 0, i);
    }
  }

  /** The action lies inside an accepted trace: some A arrived before it, every B is displayed
      after it, and so is the terminal record, which holds the frame count. */
  lemma ActionIsBetween(source: Source, action: nat, records: seq<Record>, b: nat, k: nat)
    requires Accepts(source, action, records, b) && k < |records| - 1
    ensures var end := records[|records| - 1];
            end.End? && end.count == |records| - 1 && end.time > action
    ensures records[k].Frame? && (SceneOf(records[k].samples) == Some(B) ==> records[k].display > action && k >= b)
    ensures exists a | 0 <= a < b :: records[a].Frame? && records[a].arrival < action
  {
    hide Supported, SceneOf;
    assert GoodAt(source, action, records, k, b);
  }

  /** The reported tick is the least display tick of all B frames. */
  lemma {:induction false} FirstBIsLeast(source: Source, action: nat, records: seq<Record>, b: nat, k: nat)
    requires Accepts(source, action, records, b) && b <= k < |records| - 1
    ensures records[b].Frame? && records[k].Frame? && records[b].display <= records[k].display
    ensures SceneOf(records[k].samples) == Some(B)
  {
    hide Supported, SceneOf;
    assert GoodAt(source, action, records, k, b);
    if k > b {
      FirstBIsLeast(source, action, records, b, k - 1);
    }
  }
}
