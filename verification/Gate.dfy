/** `gate.rs`: whether a trial may start, whether one still stands, and the loop that polls
    until the gate opens. The readings are a script the loop consumes; what it says and when
    it pauses are recorded as events. Idle times are exact reals. */
module Gate {
  import opened Machine
  import opened Wrappers

  const HEARTBEAT_POLLS: nat := 60

  datatype Power = Ac | Other(name: string)

  datatype Sample = Sample(idle: real, locked: bool, power: Power, running: seq<int>)

  datatype Presence = Presence(idle: real, locked: bool)

  datatype Blocker = Owner(idle: real) | Locked | NoPower(power: Power) | AppRunning(pids: seq<int>)

  datatype Step = Start | Wait(blockers: seq<Blocker>)

  datatype Void = ScreenLocked | OwnerInput | Unreadable

  // ------------------------------------------------------------ single readings

  /** The gate of a number of minutes asks for that much idle time. */
  predicate IdleEnough(minutes: nat, idle: real) {
    idle >= minutes as real * 60.0
  }

  /** What a blocker claims about a sample. */
  predicate Blocks(minutes: nat, sample: Sample, blocker: Blocker) {
    match blocker
    case Owner(idle) => idle == sample.idle && !IdleEnough(minutes, idle)
    case Locked => sample.locked
    case NoPower(power) => power == sample.power && power != Ac
    case AppRunning(pids) => pids == sample.running && pids != []
  }

  function Rank(blocker: Blocker): nat {
    match blocker
    case Owner(_) => 0
    case Locked => 1
    case NoPower(_) => 2
    case AppRunning(_) => 3
  }

  /** All failing conditions, each listed once, in the order of the checks. */
  ghost predicate AreBlockers(minutes: nat, sample: Sample, blockers: seq<Blocker>) {
    && (forall b :: b in blockers <==> Blocks(minutes, sample, b))
    && (forall i, j | 0 <= i < j < |blockers| :: Rank(blockers[i]) < Rank(blockers[j]))
  }

  function Blockers(minutes: nat, sample: Sample): seq<Blocker> {
    (if IdleEnough(minutes, sample.idle) then [] else [Owner(sample.idle)])
    + (if sample.locked then [Locked] else [])
    + (if sample.power != Ac then [NoPower(sample.power)] else [])
    + (if sample.running != [] then [AppRunning(sample.running)] else [])
  }

  lemma BlockersAreExact(minutes: nat, sample: Sample)
    ensures AreBlockers(minutes, sample, Blockers(minutes, sample))
  {
    BlockersAreConditions(minutes, sample);
    BlockersAreOrdered(minutes, sample);
    hide Blockers, Blocks, Rank;
  }

  lemma BlockersAreConditions(minutes: nat, sample: Sample)
    ensures forall b :: b in Blockers(minutes, sample) <==> Blocks(minutes, sample, b)
  {
    hide IdleEnough;
  }

  lemma BlockersAreOrdered(minutes: nat, sample: Sample)
    ensures var blockers := Blockers(minutes, sample);
            forall i, j | 0 <= i < j < |blockers| :: Rank(blockers[i]) < Rank(blockers[j])
  {
    hide IdleEnough;
  }

  /** A trial may start after this reading. */
  predicate Opens(minutes: nat, sample: Sample) {
    IdleEnough(minutes, sample.idle) && !sample.locked && sample.power == Ac && sample.running == []
  }

  lemma OpensWhenNothingBlocks(minutes: nat, sample: Sample)
    ensures Opens(minutes, sample) <==> Blockers(minutes, sample) == []
    ensures Opens(minutes, sample) <==> forall b :: !Blocks(minutes, sample, b)
  {
    BlockersAreExact(minutes, sample);
    assert Blocks(minutes, sample, Owner(sample.idle)) <==> !IdleEnough(minutes, sample.idle);
    assert Blocks(minutes, sample, Locked) <==> sample.locked;
    assert Blocks(minutes, sample, NoPower(sample.power)) <==> sample.power != Ac;
    assert Blocks(minutes, sample, AppRunning(sample.running)) <==> sample.running != [];
  }

  method BeforeTrial(minutes: nat, sample: Sample) returns (step: Step)
    ensures step == if Opens(minutes, sample) then Start else Wait(Blockers(minutes, sample))
  {
    OpensWhenNothingBlocks(minutes, sample);
    var blockers := [];
    if !IdleEnough(minutes, sample.idle) {
      blockers := blockers + [Owner(sample.idle)];
    }
    if sample.locked {
      blockers := blockers + [Locked];
    }
    if sample.power != Ac {
      blockers := blockers + [NoPower(sample.power)];
    }
    if sample.running != [] {
      blockers := blockers + [AppRunning(sample.running)];
    }
    if blockers == [] {
      step := Start;
    } else {
      step := Wait(blockers);
    }
  }

  /** What one reading finds wrong with a running trial; a locked screen is named before input. */
  function VoidedBy(minutes: nat, reading: Result<Presence, string>): Option<Void> {
    match reading
    case Ok(presence) =>
      if presence.locked then Some(ScreenLocked)
      else if !IdleEnough(minutes, presence.idle) then Some(OwnerInput)
      else None
    case Err(_) => Some(Unreadable)
  }

  /** A running trial is void exactly for what would keep the gate shut of the same reading: its
      screen, first, or its idle time; or for a reading that failed. */
  lemma VoidsAreBlockers(minutes: nat, presence: Presence, error: string, power: Power, running: seq<int>)
    ensures VoidedBy(minutes, Err(error)) == Some(Unreadable)
    ensures var sample := Sample(presence.idle, presence.locked, power, running);
            var void := VoidedBy(minutes, Ok(presence));
            && (void == Some(ScreenLocked) <==> Blocks(minutes, sample, Locked))
            && (void == Some(OwnerInput) <==>
                  Blocks(minutes, sample, Owner(presence.idle)) && !Blocks(minutes, sample, Locked))
            && (void == None <==> forall b | b in Blockers(minutes, sample) :: b.NoPower? || b.AppRunning?)
  {
    var sample := Sample(presence.idle, presence.locked, power, running);
    BlockersAreExact(minutes, sample);
    assert Blocks(minutes, sample, Locked) <==> presence.locked;
    assert Blocks(minutes, sample, Owner(presence.idle)) <==> !IdleEnough(minutes, presence.idle);
  }

  /** Five minutes of idle time are 300 seconds. */
  lemma FiveMinutes(idle: real)
    ensures Opens(5, Sample(idle, false, Ac, [])) <==> idle >= 300.0
  {
  }

  /** A reading that opened the gate does not void the trial it opened, however much more
      idle time has passed since; any reading that voids would also have kept the gate shut. */
  lemma OpenGateStands(minutes: nat, sample: Sample, later: Presence)
    requires Opens(minutes, sample)
    requires later.idle >= sample.idle
    ensures VoidedBy(minutes, Ok(later)) == if later.locked then Some(ScreenLocked) else None
    ensures VoidedBy(minutes, Ok(later)).Some? ==>
              forall power, running :: !Opens(minutes, Sample(later.idle, later.locked, power, running))
  {
  }

  // ---------------------------------------------------------------- the loop

  type Script = seq<Result<Sample, string>>

  datatype Line =
    | Retrying
    | Waiting(blockers: seq<Blocker>)
    | StillWaiting(blockers: seq<Blocker>)
    | Open(sample: Sample)

  datatype Event = Say(line: Line) | Pause

  /** `Pending` is a loop that is still polling when the script ends. */
  datatype Outcome = Started(waited: bool) | Failed(error: string) | Pending

  predicate Starts(minutes: nat, reading: Result<Sample, string>) {
    reading.Ok? && Opens(minutes, reading.value)
  }

  predicate Blocked(minutes: nat, reading: Result<Sample, string>) {
    reading.Ok? && !Opens(minutes, reading.value)
  }

  /** The second of two consecutive failed reads. */
  predicate FailsAt(script: Script, i: nat)
    requires i < |script|
  {
    i > 0 && script[i - 1].Err? && script[i].Err?
  }

  /** Nothing among the first n readings ends the wait. */
  ghost predicate Undecided(minutes: nat, script: Script, n: nat)
    requires n <= |script|
  {
    forall i | 0 <= i < n :: !Starts(minutes, script[i]) && !FailsAt(script, i)
  }

  predicate Waited(minutes: nat, script: Script, n: nat)
    requires n <= |script|
  {
    exists i :: 0 <= i < n && Blocked(minutes, script[i])
  }

  function BlockedCount(minutes: nat, script: Script, n: nat): (count: nat)
    requires n <= |script|
    ensures count > 0 <==> Waited(minutes, script, n)
  {
    if n == 0 then 0
    else BlockedCount(minutes, script, n - 1) + if Blocked(minutes, script[n - 1]) then 1 else 0
  }

  function FailedCount(script: Script, n: nat): nat
    requires n <= |script|
  {
    if n == 0 then 0 else FailedCount(script, n - 1) + if script[n - 1].Err? then 1 else 0
  }

  /** What is said at a blocked reading. */
  function Announcement(blocked: nat, blockers: seq<Blocker>): seq<Event> {
    if blocked == 0 then [Say(Waiting(blockers))]
    else if blocked % HEARTBEAT_POLLS == 0 && blocked < U32_MAX then [Say(StillWaiting(blockers))]
    else []
  }

  /** What one reading makes the loop do, from how many readings were blocked before it. */
  function EventsAt(minutes: nat, first: bool, script: Script, i: nat): seq<Event>
    requires i < |script|
  {
    var blocked := BlockedCount(minutes, script, i);
    match script[i]
    case Err(_) => if FailsAt(script, i) then [] else [Say(Retrying), Pause]
    case Ok(sample) =>
      if Opens(minutes, sample) then (if first || blocked > 0 then [Say(Open(sample))] else [])
      else Announcement(blocked, Blockers(minutes, sample)) + [Pause]
  }

  function EventsOf(minutes: nat, first: bool, script: Script, n: nat): seq<Event>
    requires n <= |script|
  {
    if n == 0 then [] else EventsOf(minutes, first, script, n - 1) + EventsAt(minutes, first, script, n - 1)
  }

  /** What the loop adds for each kind of reading. */
  lemma FailedStep(minutes: nat, first: bool, script: Script, n: nat)
    requires n < |script| && script[n].Err? && Undecided(minutes, script, n)
    ensures EventsOf(minutes, first, script, n + 1)
         == EventsOf(minutes, first, script, n) + if FailsAt(script, n) then [] else [Say(Retrying), Pause]
    ensures BlockedCount(minutes, script, n + 1) == BlockedCount(minutes, script, n)
    ensures !FailsAt(script, n) ==> Undecided(minutes, script, n + 1)
  {
  }

  lemma StartStep(minutes: nat, first: bool, script: Script, n: nat)
    requires n < |script| && Starts(minutes, script[n])
    ensures EventsOf(minutes, first, script, n + 1)
         == EventsOf(minutes, first, script, n)
          + if first || BlockedCount(minutes, script, n) > 0 then [Say(Open(script[n].value))] else []
  {
  }

  lemma BlockedStep(minutes: nat, first: bool, script: Script, n: nat)
    requires n < |script| && Blocked(minutes, script[n]) && Undecided(minutes, script, n)
    ensures EventsOf(minutes, first, script, n + 1)
         == EventsOf(minutes, first, script, n)
          + (Announcement(BlockedCount(minutes, script, n), Blockers(minutes, script[n].value)) + [Pause])
    ensures BlockedCount(minutes, script, n + 1) == BlockedCount(minutes, script, n) + 1
    ensures Undecided(minutes, script, n + 1)
  {
  }

  /** The saturating counter says the same as the count while it has not saturated, and a
      saturated counter is no multiple of 60. */
  lemma SaturatedCounter(blocked: nat, polls: nat)
    requires polls == Saturated(blocked, U32_MAX)
    ensures Saturated(polls + 1, U32_MAX) == Saturated(blocked + 1, U32_MAX)
    ensures polls % HEARTBEAT_POLLS == 0 <==> blocked % HEARTBEAT_POLLS == 0 && blocked < U32_MAX
    ensures polls == 0 <==> blocked == 0
  {
  }

  /** How a wait ends: at the first reading that may start, at the second failed read in a
      row, or with the script. The flag tells whether an earlier reading was blocked. */
  ghost predicate Ends(minutes: nat, script: Script, outcome: Outcome, used: nat) {
    && used <= |script|
    && match outcome
       case Pending => used == |script| && Undecided(minutes, script, used)
       case Started(waited) =>
         && used > 0 && Undecided(minutes, script, used - 1) && Starts(minutes, script[used - 1])
         && waited == Waited(minutes, script, used - 1)
       case Failed(error) =>
         && used > 0 && Undecided(minutes, script, used - 1) && FailsAt(script, used - 1)
         && script[used - 1] == Err(error)
  }

  /** A script ends in one way only. */
  lemma EndIsUnique(minutes: nat, script: Script, a: Outcome, m: nat, b: Outcome, n: nat)
    requires Ends(minutes, script, a, m) && Ends(minutes, script, b, n)
    ensures a == b && m == n
  {
    hide Opens, Waited;
  }

  /** Reads until something decides: a reading that may start, or a second failed read in a
      row. The counter of blocked polls saturates. */
  method WaitToStart(minutes: nat, first: bool, script: Script)
    returns (outcome: Outcome, used: nat, events: seq<Event>)
    ensures Ends(minutes, script, outcome, used)
    ensures events == EventsOf(minutes, first, script, used)
  {
    hide Opens, Blockers, BlockedCount, EventsOf, EventsAt, Undecided, Waited, AreBlockers, Saturated;
    var polls: nat := 0;
    used, events := 0, [];
    Beginning(minutes, first, script);
    while true
      invariant used <= |script| && Undecided(minutes, script, used)
      invariant used > 0 ==> script[used - 1].Ok?
      invariant polls == Saturated(BlockedCount(minutes, script, used), U32_MAX)
      invariant events == EventsOf(minutes, first, script, used)
      decreases |script| - used
    {
      if used == |script| {
        return Pending, used, events;
      }
      var reading := script[used];
      if reading.Err? {
        FailedStep(minutes, first, script, used);
        events := events + [Say(Retrying), Pause];
        used := used + 1;
        if used == |script| {
          return Pending, used, events;
        }
        reading := script[used];
        if reading.Err? {
          FailedStep(minutes, first, script, used);
          assert events + [] == events;
          return Failed(reading.error), used + 1, events;
        }
      }
      var step := BeforeTrial(minutes, reading.value);
      SaturatedCounter(BlockedCount(minutes, script, used), polls);
      match step
      case Start =>
        StartStep(minutes, first, script, used);
        if polls > 0 || first {
          events := events + [Say(Open(reading.value))];
        } else {
          assert events + [] == events;
        }
        return Started(polls > 0), used + 1, events;
      case Wait(blockers) =>
        BlockedStep(minutes, first, script, used);
        var said := [];
        if polls == 0 {
          said := [Say(Waiting(blockers))];
        } else if polls % HEARTBEAT_POLLS == 0 {
          said := [Say(StillWaiting(blockers))];
        }
        polls := Saturated(polls + 1, U32_MAX);
        events := events + (said + [Pause]);
        used := used + 1;
    }
  }

  lemma Beginning(minutes: nat, first: bool, script: Script)
    ensures Undecided(minutes, script, 0) && BlockedCount(minutes, script, 0) == 0 == Saturated(0, U32_MAX)
    ensures EventsOf(minutes, first, script, 0) == []
  {
  }

  // ------------------------------------------------- what the whole run shows

  function Count(events: seq<Event>, P: Event -> bool): nat {
    if events == [] then 0
    else Count(events[..|events| - 1], P) + if P(events[|events| - 1]) then 1 else 0
  }

  predicate IsPause(event: Event) {
    event == Pause
  }

  predicate IsHeartbeat(event: Event) {
    event.Say? && event.line.StillWaiting?
  }

  lemma {:induction false} CountAppends(a: seq<Event>, b: seq<Event>, P: Event -> bool)
    ensures Count(a + b, P) == Count(a, P) + Count(b, P)
  {
    if b == [] {
      assert a + b == a;
    } else {
      var front := b[..|b| - 1];
      assert (a + b)[..|a + b| - 1] == a + front;
      CountAppends(a, front, P);
    }
  }

  lemma CountShort(a: Event, b: Event, P: Event -> bool)
    ensures Count([], P) == 0
    ensures Count([a], P) == if P(a) then 1 else 0
    ensures Count([a, b], P) == (if P(a) then 1 else 0) + if P(b) then 1 else 0
  {
    assert [a][..0] == [];
    assert [a, b][..1] == [a];
  }

  /** A reading that decides nothing pauses once, and at most repeats the state. */
  lemma EventsAtCounts(minutes: nat, first: bool, script: Script, i: nat)
    requires i < |script| && !Starts(minutes, script[i]) && !FailsAt(script, i)
    ensures Count(EventsAt(minutes, first, script, i), IsPause) == 1
    ensures Count(EventsAt(minutes, first, script, i), IsHeartbeat)
         == var blocked := BlockedCount(minutes, script, i);
            if Blocked(minutes, script[i]) && blocked > 0 && blocked % HEARTBEAT_POLLS == 0 && blocked < U32_MAX
            then 1 else 0
  {
    hide Count, BlockedCount, Blockers, Opens;
    var now := EventsAt(minutes, first, script, i);
    CountShort(now[0], now[|now| - 1], IsPause);
    CountShort(now[0], now[|now| - 1], IsHeartbeat);
    assert now == [now[0]] || now == [now[0], now[|now| - 1]];
  }

  /** While nothing decides, every reading is blocked or failed. */
  lemma {:induction false} UndecidedIsBlockedOrFailed(minutes: nat, script: Script, n: nat)
    requires n <= |script| && Undecided(minutes, script, n)
    ensures BlockedCount(minutes, script, n) + FailedCount(script, n) == n
  {
    hide Opens, Waited;
    if n > 0 {
      UndecidedIsBlockedOrFailed(minutes, script, n - 1);
    }
  }

  /** One pause for each blocked reading and each failed read, as long as nothing decided. */
  lemma {:induction false} PausesAreBlockedOrRetried(minutes: nat, first: bool, script: Script, n: nat)
    requires n <= |script| && Undecided(minutes, script, n)
    ensures Count(EventsOf(minutes, first, script, n), IsPause)
         == BlockedCount(minutes, script, n) + FailedCount(script, n) == n
  {
    hide Opens, Count, EventsAt, BlockedCount, FailedCount;
    UndecidedIsBlockedOrFailed(minutes, script, n);
    if n > 0 {
      PausesAreBlockedOrRetried(minutes, first, script, n - 1);
      EventsAtCounts(minutes, first, script, n - 1);
      CountAppends(EventsOf(minutes, first, script, n - 1), EventsAt(minutes, first, script, n - 1), IsPause);
    } else {
      assert Count([], IsPause) == 0 by { CountShort(Pause, Pause, IsPause); }
    }
  }

  lemma DecisionDoesNotPause(minutes: nat, first: bool, script: Script, n: nat)
    requires n < |script| && (Starts(minutes, script[n]) || FailsAt(script, n))
    ensures Count(EventsAt(minutes, first, script, n), IsPause) == 0
  {
    hide Opens, Blockers, BlockedCount;
    var now := EventsAt(minutes, first, script, n);
    if now != [] {
      CountShort(now[0], now[0], IsPause);
      assert now == [now[0]];
    } else {
      CountShort(Pause, Pause, IsPause);
    }
  }

  /** Over a whole wait the loop pauses once for each blocked reading and each failed read
      before the one that decides, if one does, and never otherwise. */
  lemma PausesOfWait(minutes: nat, first: bool, script: Script, outcome: Outcome, used: nat)
    requires Ends(minutes, script, outcome, used)
    ensures var before := if outcome.Pending? then used else used - 1;
            Count(EventsOf(minutes, first, script, used), IsPause)
            == BlockedCount(minutes, script, before) + FailedCount(script, before) == before
  {
    hide Opens, Count, EventsAt, BlockedCount, FailedCount;
    if outcome.Pending? {
      PausesAreBlockedOrRetried(minutes, first, script, used);
    } else {
      PausesAreBlockedOrRetried(minutes, first, script, used - 1);
      DecisionDoesNotPause(minutes, first, script, used - 1);
      CountAppends(EventsOf(minutes, first, script, used - 1), EventsAt(minutes, first, script, used - 1), IsPause);
    }
  }

  /** What a line says of a reading: which conditions failed, all of them, or that it may start. */
  ghost predicate IsTrueOf(minutes: nat, line: Line, reading: Result<Sample, string>) {
    match line
    case Retrying => reading.Err?
    case Open(sample) => reading == Ok(sample) && Opens(minutes, sample)
    case Waiting(blockers) => reading.Ok? && blockers != [] && AreBlockers(minutes, reading.value, blockers)
    case StillWaiting(blockers) => reading.Ok? && blockers != [] && AreBlockers(minutes, reading.value, blockers)
  }

  lemma SaysWhatItReads(minutes: nat, first: bool, script: Script, i: nat, event: Event)
    requires i < |script| && event in EventsAt(minutes, first, script, i) && event.Say?
    ensures IsTrueOf(minutes, event.line, script[i])
  {
    hide Opens, Blockers, AreBlockers, BlockedCount;
    if script[i].Ok? {
      OpensWhenNothingBlocks(minutes, script[i].value);
      BlockersAreExact(minutes, script[i].value);
    }
  }

  /** Every line that is said is true of some reading. */
  lemma {:induction false} SaysWhatItRead(minutes: nat, first: bool, script: Script, n: nat, event: Event)
    requires n <= |script| && event in EventsOf(minutes, first, script, n) && event.Say?
    ensures exists i | 0 <= i < n :: IsTrueOf(minutes, event.line, script[i])
  {
    hide EventsAt, IsTrueOf;
    if event in EventsOf(minutes, first, script, n - 1) {
      SaysWhatItRead(minutes, first, script, n - 1, event);
    } else {
      SaysWhatItReads(minutes, first, script, n - 1, event);
    }
  }

  predicate IsWaiting(event: Event) {
    event.Say? && event.line.Waiting?
  }

  predicate IsRetrying(event: Event) {
    event == Say(Retrying)
  }

  predicate IsOpening(event: Event) {
    event.Say? && event.line.Open?
  }

  lemma EventsAtLines(minutes: nat, first: bool, script: Script, i: nat)
    requires i < |script|
    ensures var now, blocked := EventsAt(minutes, first, script, i), BlockedCount(minutes, script, i);
            && Count(now, IsWaiting) == (if Blocked(minutes, script[i]) && blocked == 0 then 1 else 0)
            && Count(now, IsRetrying) == (if script[i].Err? && !FailsAt(script, i) then 1 else 0)
            && Count(now, IsOpening) == (if Starts(minutes, script[i]) && (first || blocked > 0) then 1 else 0)
  {
    hide Count, BlockedCount, Blockers, Opens;
    var now := EventsAt(minutes, first, script, i);
    if now == [] {
      CountShort(Pause, Pause, IsWaiting);
      CountShort(Pause, Pause, IsRetrying);
      CountShort(Pause, Pause, IsOpening);
    } else {
      CountShort(now[0], now[|now| - 1], IsWaiting);
      CountShort(now[0], now[|now| - 1], IsRetrying);
      CountShort(now[0], now[|now| - 1], IsOpening);
      assert now == [now[0]] || now == [now[0], now[|now| - 1]];
    }
  }

  lemma {:induction false} LinesWhileWaiting(minutes: nat, first: bool, script: Script, n: nat)
    requires n <= |script| && Undecided(minutes, script, n)
    ensures var events := EventsOf(minutes, first, script, n);
            && Count(events, IsWaiting) == (if Waited(minutes, script, n) then 1 else 0)
            && Count(events, IsRetrying) == FailedCount(script, n)
            && Count(events, IsOpening) == 0
  {
    hide Opens, Blockers, Count, EventsAt, Waited;
    assert Waited(minutes, script, n) <==> BlockedCount(minutes, script, n) > 0;
    if n > 0 {
      LinesWhileWaiting(minutes, first, script, n - 1);
      EventsAtLines(minutes, first, script, n - 1);
      var before, now := EventsOf(minutes, first, script, n - 1), EventsAt(minutes, first, script, n - 1);
      CountAppends(before, now, IsWaiting);
      CountAppends(before, now, IsRetrying);
      CountAppends(before, now, IsOpening);
    } else {
      CountShort(Pause, Pause, IsWaiting);
      CountShort(Pause, Pause, IsRetrying);
      CountShort(Pause, Pause, IsOpening);
    }
  }

  /** What a whole wait says: that it is waiting, once, if any reading was blocked; that it
      retries, for each failed read but a deciding one; and that the gate opened, once, if it
      did and it is the first gate or one that had to wait. */
  lemma LinesOfWait(minutes: nat, first: bool, script: Script, outcome: Outcome, used: nat)
    requires Ends(minutes, script, outcome, used)
    ensures var events := EventsOf(minutes, first, script, used);
            var before := if outcome.Pending? then used else used - 1;
            && Count(events, IsWaiting) == (if Waited(minutes, script, before) then 1 else 0)
            && Count(events, IsRetrying) == FailedCount(script, before)
            && Count(events, IsOpening) == (if outcome.Started? && (first || outcome.waited) then 1 else 0)
  {
    hide Opens, Blockers, Count, EventsAt, Waited, FailedCount;
    if outcome.Pending? {
      LinesWhileWaiting(minutes, first, script, used);
    } else {
      LinesWhileWaiting(minutes, first, script, used - 1);
      EventsAtLines(minutes, first, script, used - 1);
      var before, now := EventsOf(minutes, first, script, used - 1), EventsAt(minutes, first, script, used - 1);
      CountAppends(before, now, IsWaiting);
      CountAppends(before, now, IsRetrying);
      CountAppends(before, now, IsOpening);
    }
  }

  /** How often the state has been repeated after a number of blocked polls. */
  function Heartbeats(blocked: nat): nat {
    if blocked == 0 then 0
    else Saturated(blocked - 1, U32_MAX) / HEARTBEAT_POLLS
  }

  /** The state is repeated after every 60 blocked polls, until the counter saturates. */
  lemma {:induction false} HeartbeatEverySixty(minutes: nat, first: bool, script: Script, n: nat)
    requires n <= |script| && Undecided(minutes, script, n)
    ensures Count(EventsOf(minutes, first, script, n), IsHeartbeat) == Heartbeats(BlockedCount(minutes, script, n))
  {
    hide Opens, Blockers, Count, EventsAt, Waited;
    if n > 0 {
      HeartbeatEverySixty(minutes, first, script, n - 1);
      EventsAtCounts(minutes, first, script, n - 1);
      CountAppends(EventsOf(minutes, first, script, n - 1), EventsAt(minutes, first, script, n - 1), IsHeartbeat);
    } else {
      assert Count([], IsHeartbeat) == 0 by { CountShort(Pause, Pause, IsHeartbeat); }
    }
  }

  /** At 2^32 + 45 blocked polls one repetition is missing. */
  lemma HeartbeatIsMissed()
    ensures Heartbeats(0x1_0000_0000 + 45) + 1 == (0x1_0000_0000 + 45 - 1) / HEARTBEAT_POLLS
  {
  }

  /** So "after every 60 polls" is what the loop does exactly as long as fewer than 2^32 + 45
      polls were blocked. */
  lemma HeartbeatsStopAtSaturation(blocked: nat)
    ensures blocked > 0 ==>
              (Heartbeats(blocked) == (blocked - 1) / HEARTBEAT_POLLS <==> blocked - 1 < U32_MAX + 45)
  {
  }
}
