/** The command palette of `commands.rs`: ranking the registry against a query, and the
    selection with its scrolling window. The registry is any list of at most 32 commands. */
module Commands {
  import opened Characters
  import opened Machine
  import opened Matching
  import opened Sorting
  import opened Wrappers

  const MAX_COMMANDS: nat := 32
  const MAX_VISIBLE_COMMANDS: nat := 12
  const MAX_VISIBLE_OVERSCAN: nat := 3

  datatype EditorCommand =
    | SaveFile | CloseTab | NavigateBack | NavigateForward | ActivatePreviousTab | ActivateNextTab
    | OpenQuickOpen | OpenProjectSearch | OpenFind | OpenReplace | GoToLine
    | TriggerCompletion | ShowRustHover | GoToRustDefinition | FindRustReferences
    | ShowRustDocumentSymbols | ShowRustWorkspaceSymbols | ReloadSettings
    | PreviewRustRename | PreviewRustFormatting | ToggleFileTree
    | SplitRight | SplitDown | FocusNextPane | ClosePane | SavePerformanceLog

  datatype Context = Context(
    canSave: bool, canCloseTab: bool, canNavigateBack: bool, canNavigateForward: bool, canCycleTabs: bool,
    hasWorkspace: bool, canSplitRight: bool, canSplitDown: bool, canClosePane: bool, canComplete: bool)

  predicate Available(context: Context, command: EditorCommand) {
    match command
    case SaveFile => context.canSave
    case CloseTab => context.canCloseTab
    case NavigateBack => context.canNavigateBack
    case NavigateForward => context.canNavigateForward
    case ActivatePreviousTab | ActivateNextTab => context.canCycleTabs
    case OpenQuickOpen | OpenProjectSearch | ToggleFileTree => context.hasWorkspace
    case OpenFind | OpenReplace | GoToLine | ReloadSettings | SavePerformanceLog => true
    case TriggerCompletion | ShowRustHover | GoToRustDefinition | FindRustReferences
       | ShowRustDocumentSymbols | ShowRustWorkspaceSymbols | PreviewRustRename | PreviewRustFormatting =>
      context.canComplete
    case SplitRight => context.canSplitRight
    case SplitDown => context.canSplitDown
    case FocusNextPane | ClosePane => context.canClosePane
  }

  datatype CommandSpec = CommandSpec(command: EditorCommand, title: string, searchTerms: string)

  const NOTHING: Context := Context(false, false, false, false, false, false, false, false, false, false)

  /** The flag of the context enables the command, which does not run without any. */
  predicate Enables(flag: Context, c: EditorCommand) {
    Available(flag, c) && !Available(NOTHING, c)
  }

  /** Five commands always run, and each flag of the context enables its own. */
  lemma FlagsEnable(c: EditorCommand)
    ensures Available(NOTHING, c) <==>
              c.OpenFind? || c.OpenReplace? || c.GoToLine? || c.ReloadSettings? || c.SavePerformanceLog?
    ensures Enables(NOTHING.(canSave := true), c) <==> c.SaveFile?
    ensures Enables(NOTHING.(canCloseTab := true), c) <==> c.CloseTab?
    ensures Enables(NOTHING.(canNavigateBack := true), c) <==> c.NavigateBack?
    ensures Enables(NOTHING.(canNavigateForward := true), c) <==> c.NavigateForward?
    ensures Enables(NOTHING.(canCycleTabs := true), c) <==> c.ActivatePreviousTab? || c.ActivateNextTab?
  {
  }

  lemma WorkspaceFlagsEnable(c: EditorCommand)
    ensures Enables(NOTHING.(hasWorkspace := true), c) <==>
              c.OpenQuickOpen? || c.OpenProjectSearch? || c.ToggleFileTree?
  {
  }

  lemma PaneFlagsEnable(c: EditorCommand)
    ensures Enables(NOTHING.(canSplitRight := true), c) <==> c.SplitRight?
    ensures Enables(NOTHING.(canSplitDown := true), c) <==> c.SplitDown?
    ensures Enables(NOTHING.(canClosePane := true), c) <==> c.FocusNextPane? || c.ClosePane?
  {
  }

  lemma CompletionFlagEnables(c: EditorCommand)
    ensures Enables(NOTHING.(canComplete := true), c) <==>
              || c.TriggerCompletion? || c.ShowRustHover? || c.GoToRustDefinition? || c.FindRustReferences?
              || c.ShowRustDocumentSymbols? || c.ShowRustWorkspaceSymbols? || c.PreviewRustRename?
              || c.PreviewRustFormatting?
  {
  }

  type Registry = r: seq<CommandSpec> | |r| <= MAX_COMMANDS witness []

  datatype Match = Match(index: nat, rank: int, gaps: int)

  // ----------------------------------------------------------------------- ranking

  /** By rank, then gaps, then place in the registry. */
  predicate NotAfter(a: Match, b: Match) {
    a.rank < b.rank || (a.rank == b.rank && (a.gaps < b.gaps || (a.gaps == b.gaps && a.index <= b.index)))
  }

  function ScoreOf(spec: CommandSpec, query: string): Option<Score> {
    MatchScore(Encode(spec.title), Encode(spec.searchTerms), Encode(Trim(query)))
  }

  /** The match is an available command of the registry with its score. */
  predicate Qualifies(registry: seq<CommandSpec>, query: string, context: Context, m: Match) {
    && m.index < |registry|
    && Available(context, registry[m.index].command)
    && ScoreOf(registry[m.index], query) == Some(Score(m.rank, m.gaps))
  }

  ghost predicate IsRanking(registry: seq<CommandSpec>, query: string, context: Context, matches: seq<Match>) {
    && Ordered(matches)
    && forall m :: m in matches <==> Qualifies(registry, query, context, m)
  }

  lemma NotAfterIsTotal()
    ensures TotalPreorder(NotAfter)
  {
  }

  lemma SortedIsRanking(registry: seq<CommandSpec>, query: string, context: Context, matches: seq<Match>,
                        sorted: seq<Match>)
    requires Distinct(matches) && forall m :: m in matches <==> Qualifies(registry, query, context, m)
    requires SortedBy(sorted, NotAfter) && multiset(sorted) == multiset(matches)
    ensures IsRanking(registry, query, context, sorted) && |sorted| == |matches|
  {
    hide Qualifies, NotAfter;
    DistinctStays(matches, sorted);
    SameMembers(matches, sorted);
  }

  /** A query and a context fix the whole list. */
  lemma {:induction false} RankingIsUnique(registry: seq<CommandSpec>, query: string, context: Context, a: seq<Match>,
                                           b: seq<Match>)
    requires IsRanking(registry, query, context, a) && IsRanking(registry, query, context, b)
    ensures a == b
  {
    hide Qualifies;
    SameOrder(a, b);
  }

  ghost predicate Ordered(matches: seq<Match>) {
    forall i, j | 0 <= i < j < |matches| :: NotAfter(matches[i], matches[j]) && matches[i] != matches[j]
  }

  lemma {:induction false} SameOrder(a: seq<Match>, b: seq<Match>)
    requires Ordered(a) && Ordered(b) && forall m :: m in a <==> m in b
    ensures a == b
  {
    if a != [] {
      assert a[0] in b;
    }
    if b != [] {
      assert b[0] in a;
    }
    if a == [] {
      return;
    }
    var f, g := a[..|a| - 1], b[..|b| - 1];
    LastIsSame(a, b);
    FrontMembers(a);
    FrontMembers(b);
    hide Ordered;
    forall m ensures m in f <==> m in g {
      assert m in a <==> m in b;
    }
    SameOrder(f, g);
    assert a == f + [a[|a| - 1]] && b == g + [b[|b| - 1]];
  }

  lemma LastIsSame(a: seq<Match>, b: seq<Match>)
    requires Ordered(a) && Ordered(b) && a != [] && b != []
    requires forall m :: m in a <==> m in b
    ensures a[|a| - 1] == b[|b| - 1]
  {
    var x, y := a[|a| - 1], b[|b| - 1];
    assert x in b && y in a;
    assert NotAfter(x, y) && NotAfter(y, x);
  }

  lemma FrontMembers(a: seq<Match>)
    requires Ordered(a) && a != []
    ensures Ordered(a[..|a| - 1])
    ensures forall m :: m in a[..|a| - 1] <==> m in a && m != a[|a| - 1]
  {
  }

  method RankMatches(registry: Registry, query: string, context: Context) returns (matches: seq<Match>)
    ensures IsRanking(registry, query, context, matches)
    ensures |matches| <= |registry|
  {
    hide ScoreOf;
    matches := [];
    for k := 0 to |registry|
      invariant |matches| <= k
      invariant forall i | 0 <= i < |matches| :: matches[i].index < k
      invariant forall i, j | 0 <= i < j < |matches| :: matches[i].index < matches[j].index
      invariant forall m :: m in matches <==> m.index < k && Qualifies(registry, query, context, m)
    {
      if !Available(context, registry[k].command) {
        continue;
      }
      var score := ScoreOf(registry[k], query);
      if score.None? {
        continue;
      }
      matches := matches + [Match(k, score.value.rank, score.value.gaps)];
    }
    NotAfterIsTotal();
    var sorted := Sort(matches, NotAfter);
    SortedIsRanking(registry, query, context, matches, sorted);
    matches := sorted;
  }

  /** The best match comes first: by rank, among equals by fewer gaps, then as registered. */
  lemma BestFirst(registry: seq<CommandSpec>, query: string, context: Context, matches: seq<Match>, i: nat, j: nat)
    requires IsRanking(registry, query, context, matches) && i < j < |matches|
    ensures matches[i].rank <= matches[j].rank
    ensures matches[i].rank == matches[j].rank ==> matches[i].gaps <= matches[j].gaps
    ensures matches[i].rank == matches[j].rank && matches[i].gaps == matches[j].gaps ==>
              matches[i].index < matches[j].index
  {
    hide Qualifies;
  }

  /** What a listed command's rank and gaps say of its title and search terms. */
  lemma ListedRank(registry: seq<CommandSpec>, query: string, context: Context, matches: seq<Match>, m: Match)
    requires IsRanking(registry, query, context, matches) && m in matches && Encode(Trim(query)) != []
    ensures m.index < |registry|
    ensures var (title, terms, q) :=
              (Encode(registry[m.index].title), Encode(registry[m.index].searchTerms), Encode(Trim(query)));
            && (m.rank == 0 <==> OccursAt(title, q, 0) || OccursAt(terms, q, 0))
            && (m.rank == 1 ==> HasWord(title, EndsTitleWord, q) || HasWord(terms, IsSpace, q))
            && (m.rank == 2 && Gaps(title, q).Some? ==> Gaps(title, q) == Some(m.gaps))
            && (m.rank == 2 && Gaps(title, q).None? ==> Gaps(terms, q) == Some(m.gaps))
            && (m.rank == 0 || m.rank == 1 ==> m.gaps == 0) && 0 <= m.rank <= 2
  {
    hide Encode, Trim, Gaps, OccursAt, HasWord, Available, MatchScore, Ordered;
    var spec := registry[m.index];
    RanksAreExact(Encode(spec.title), Encode(spec.searchTerms), Encode(Trim(query)));
  }

  predicate Lists(matches: seq<Match>, index: nat) {
    exists m | m in matches :: m.index == index
  }

  /** A blank query lists every available command; any other lists those whose title or search
      terms have its bytes, white space aside, as a case-insensitive subsequence. Each is
      listed once. */
  lemma ListedCommands(registry: seq<CommandSpec>, query: string, context: Context, matches: seq<Match>, index: nat)
    requires IsRanking(registry, query, context, matches)
    ensures Lists(matches, index) <==>
              && index < |registry| && Available(context, registry[index].command)
              && (|| IsBlank(query)
                  || Subsequence(registry[index].title, query)
                  || Subsequence(registry[index].searchTerms, query))
    ensures forall i, j | 0 <= i < j < |matches| :: matches[i].index != matches[j].index
  {
    hide MatchScore, Encode, Trim, IsBlank;
    forall i, j | 0 <= i < j < |matches| ensures matches[i].index != matches[j].index {
      assert matches[i] in matches && matches[j] in matches;
    }
    if index < |registry| {
      var spec := registry[index];
      Listed(spec, query);
      if Available(context, spec.command) && ScoreOf(spec, query).Some? {
        var score := ScoreOf(spec, query).value;
        assert Qualifies(registry, query, context, Match(index, score.rank, score.gaps));
      }
    }
  }

  /** The query's bytes, white space aside, are a subsequence of the text's. */
  ghost predicate Subsequence(text: string, query: string) {
    exists at :: Embeds(Encode(text), Squeezed(Encode(Trim(query))), at)
  }

  lemma Listed(spec: CommandSpec, query: string)
    ensures ScoreOf(spec, query).Some? <==>
              IsBlank(query) || Subsequence(spec.title, query) || Subsequence(spec.searchTerms, query)
  {
    hide IsBlank;
    var before, after := TrimIsTight(query);
    if Trim(query) == "" {
      assert Encode("") == [];
    } else {
      TrimmedIsNotSqueezedAway(query);
      MatchesAreSubsequences(Encode(spec.title), Encode(spec.searchTerms), Encode(Trim(query)));
    }
  }

  // --------------------------------------------------------------- the palette's state

  datatype Palette = Palette(open: bool, query: string, matches: seq<Match>, selected: nat, firstVisible: nat)

  const CLOSED: Palette := Palette(false, "", [], 0, 0)

  datatype Action =
    | Open | Cancel | Refresh | Navigate(forward: bool) | Edit(value: string) | Execute(command: EditorCommand)

  /** The selection is a match, if there is any, and stands in the window. */
  predicate Windowed(p: Palette) {
    && p.firstVisible <= p.selected < p.firstVisible + 12
    && (if p.matches == [] then p.selected == 0 else p.selected < |p.matches|)
  }

  ghost predicate Sound(registry: seq<CommandSpec>, p: Palette) {
    Windowed(p) && forall m | m in p.matches :: m.index < |registry|
  }

  function Least(a: nat, b: nat): nat {
    if a < b then a else b
  }

  /** Subtraction that stops at zero. */
  function Minus(a: nat, b: nat): nat {
    if a < b then 0 else a - b
  }

  /** One step among n matches, round either end. */
  function Moved(selected: nat, n: nat, forward: bool): nat
    requires n > 0
  {
    if forward then (selected + 1) % n else if selected == 0 then n - 1 else selected - 1
  }

  function Navigated(p: Palette, forward: bool): Palette {
    if p.matches == [] then p
    else
      var selected := Moved(p.selected, |p.matches|, forward);
      var scrolled :=
        if selected >= p.firstVisible + MAX_VISIBLE_COMMANDS then Minus(selected + 1, MAX_VISIBLE_COMMANDS)
        else p.firstVisible;
      p.(selected := selected, firstVisible := Least(scrolled, selected))
  }

  function Refreshed(p: Palette, matches: seq<Match>): Palette {
    var selected := Least(p.selected, Minus(|matches|, 1));
    p.(matches := matches, selected := selected, firstVisible := Least(p.firstVisible, selected))
  }

  /** One operation of the palette. */
  ghost predicate Next(registry: seq<CommandSpec>, p: Palette, action: Action, context: Context, q: Palette) {
    match action
    case Open =>
      if p.open then q == p
      else IsRanking(registry, "", context, q.matches) && q == Palette(true, "", q.matches, 0, 0)
    case Cancel => q == if p.open then CLOSED else p
    case Refresh => RefreshedIn(registry, p, context, q)
    case Navigate(forward) => q == Navigated(p, forward)
    case Edit(value) =>
      if value == p.query then q == p
      else IsRanking(registry, value, context, q.matches) && q == Palette(p.open, value, q.matches, 0, 0)
    case Execute(command) =>
      if Available(context, command) then q == CLOSED else RefreshedIn(registry, p, context, q)
  }

  ghost predicate RefreshedIn(registry: seq<CommandSpec>, p: Palette, context: Context, q: Palette) {
    if !p.open then q == p
    else IsRanking(registry, p.query, context, q.matches) && q == Refreshed(p, q.matches)
  }

  /** Every operation keeps the window around the selection. */
  lemma StepKeeps(registry: seq<CommandSpec>, p: Palette, action: Action, context: Context, q: Palette)
    requires Sound(registry, p) && Next(registry, p, action, context, q)
    ensures Sound(registry, q)
  {
    hide ScoreOf, Available, Ordered;
  }

  /** What opens and closes the palette, and what changes its query. */
  lemma PaletteChanges(registry: seq<CommandSpec>, p: Palette, action: Action, context: Context, q: Palette)
    requires Next(registry, p, action, context, q)
    ensures !p.open && q.open ==> action == Open
    ensures p.open && !q.open ==> action == Cancel || (action.Execute? && Available(context, action.command))
    ensures q.query != p.query && q.open ==> action == Open || (action.Edit? && q.query == action.value)
    ensures q.open && q.matches != p.matches ==> IsRanking(registry, q.query, context, q.matches)
  {
    hide IsRanking, Available;
  }

  /** So it stands around the selection after any sequence of operations. */
  lemma {:induction false} RunKeeps(registry: seq<CommandSpec>, run: seq<(Action, Context)>, states: seq<Palette>,
                                    n: nat)
    requires |states| == |run| + 1 && states[0] == CLOSED && n < |states|
    requires forall i | 0 <= i < |run| :: Next(registry, states[i], run[i].0, run[i].1, states[i + 1])
    ensures Sound(registry, states[n])
  {
    hide Next;
    if n > 0 {
      RunKeeps(registry, run, states, n - 1);
      StepKeeps(registry, states[n - 1], run[n - 1].0, run[n - 1].1, states[n]);
    }
  }

  /** Stepping there and back, either way round, restores the selection. */
  lemma ThereAndBack(p: Palette, forward: bool)
    requires Windowed(p)
    ensures var back := Navigated(Navigated(p, forward), !forward);
            back == p.(firstVisible := back.firstVisible)
  {
    if p.matches != [] {
      MovedBack(p.selected, |p.matches|, forward);
      hide Moved;
    }
  }

  /** A refreshed list keeps the selection, or selects its last match if it has become shorter. */
  lemma RefreshKeepsSelection(p: Palette, matches: seq<Match>)
    ensures var q := Refreshed(p, matches);
            && (q.open, q.query, q.matches) == (p.open, p.query, matches)
            && (p.selected < |matches| ==> q.selected == p.selected)
            && (p.selected >= |matches| > 0 ==> q.selected == |matches| - 1)
            && (matches == [] ==> q.selected == 0 && q.firstVisible == 0)
  {
  }

  function Distance(a: nat, b: nat): nat {
    if a < b then b - a else a - b
  }

  /** Navigating and refreshing scroll no further than the selection demands: any window that
      shows it is at least as far from the old one. */
  lemma ScrollIsMinimal(p: Palette, forward: bool, matches: seq<Match>, window: nat)
    requires Windowed(p)
    ensures var q := Navigated(p, forward);
            window <= q.selected < window + MAX_VISIBLE_COMMANDS ==>
              Distance(q.firstVisible, p.firstVisible) <= Distance(window, p.firstVisible)
    ensures var q := Refreshed(p, matches);
            window <= q.selected < window + MAX_VISIBLE_COMMANDS ==>
              Distance(q.firstVisible, p.firstVisible) <= Distance(window, p.firstVisible)
  {
    hide Moved;
  }

  lemma MovedBack(i: nat, n: nat, forward: bool)
    requires i < n
    ensures Moved(i, n, forward) < n && Moved(Moved(i, n, forward), n, !forward) == i
  {
    Wrap(i, n);
    if i > 0 {
      Wrap(i - 1, n);
    }
    Wrap(n - 1, n);
  }

  lemma Wrap(i: nat, n: nat)
    requires i < n
    ensures (i + 1) % n == if i + 1 == n then 0 else i + 1
  {
  }

  function Repeat(p: Palette, steps: nat): Palette {
    if steps == 0 then p else Navigated(Repeat(p, steps - 1), true)
  }

  /** Stepping forward visits the matches in turn, and comes round after all of them. */
  lemma {:induction false} ForwardVisits(p: Palette, steps: nat)
    requires Windowed(p) && p.matches != [] && steps <= |p.matches|
    ensures var n := |p.matches|;
            var q := Repeat(p, steps);
            && Windowed(q) && q.matches == p.matches
            && q.selected == if p.selected + steps < n then p.selected + steps else p.selected + steps - n
  {
    if steps > 0 {
      ForwardVisits(p, steps - 1);
      Wrap(Repeat(p, steps - 1).selected, |p.matches|);
    }
  }

  // ------------------------------------------------------------------- visible rows

  datatype Row = Row(command: EditorCommand, title: string, selected: bool)

  function VisibleStart(p: Palette): nat {
    Minus(p.firstVisible, MAX_VISIBLE_OVERSCAN)
  }

  function VisibleEnd(p: Palette): nat {
    Least(Least(p.firstVisible + MAX_VISIBLE_COMMANDS + MAX_VISIBLE_OVERSCAN, |p.matches|),
          VisibleStart(p) + MAX_VISIBLE_COMMANDS + 2 * MAX_VISIBLE_OVERSCAN)
  }

  /** The slice is in range, no longer than 18 rows, and shows the whole window and with it the
      selection. */
  lemma VisibleIsInRange(p: Palette)
    requires Windowed(p)
    ensures VisibleStart(p) <= VisibleEnd(p) <= |p.matches|
    ensures VisibleEnd(p) - VisibleStart(p) <= 18
    ensures p.matches != [] ==> VisibleStart(p) <= p.selected < VisibleEnd(p)
    ensures VisibleStart(p) <= p.firstVisible
    ensures Least(p.firstVisible + MAX_VISIBLE_COMMANDS, |p.matches|) <= VisibleEnd(p)
    ensures p.firstVisible >= 3 ==> VisibleStart(p) + 3 == p.firstVisible
    ensures p.firstVisible >= 3 && p.firstVisible + 15 <= |p.matches| ==> VisibleEnd(p) == p.firstVisible + 15
  {
  }

  class CommandPalette {
    const registry: Registry
    var open: bool
    var query: string
    var matches: seq<Match>
    var selected: nat
    var firstVisible: nat
    var executions: nat
    var cancellations: nat

    ghost function State(): Palette
      reads this
    {
      Palette(open, query, matches, selected, firstVisible)
    }

    ghost predicate Valid()
      reads this
    {
      Sound(registry, State())
    }

    constructor (registry: Registry)
      ensures this.registry == registry && State() == CLOSED && Valid()
      ensures executions == 0 && cancellations == 0
    {
      this.registry := registry;
      open, query, matches, selected, firstVisible := false, "", [], 0, 0;
      executions, cancellations := 0, 0;
    }

    method Open(context: Context) returns (shown: bool)
      requires Valid()
      modifies this
      ensures Valid() && Next(registry, old(State()), Action.Open, context, State())
      ensures shown == !old(open) && open
      ensures executions == old(executions) && cancellations == old(cancellations)
    {
      if open {
        return false;
      }
      var ranked := RankMatches(registry, "", context);
      open, query, matches, selected, firstVisible := true, "", ranked, 0, 0;
      StepKeeps(registry, old(State()), Action.Open, context, State());
      return true;
    }

    method Cancel() returns (cancelled: bool)
      requires Valid()
      modifies this
      ensures Valid() && State() == if old(open) then CLOSED else old(State())
      ensures cancelled == old(open)
      ensures cancellations == if cancelled then Saturated(old(cancellations) + 1, U64_MAX) else old(cancellations)
      ensures executions == old(executions)
    {
      if !open {
        return false;
      }
      cancellations := Saturated(cancellations + 1, U64_MAX);
      Release();
      return true;
    }

    method Refresh(context: Context) returns (changed: bool)
      requires Valid()
      modifies this
      ensures Valid() && Next(registry, old(State()), Action.Refresh, context, State())
      ensures changed == (matches != old(matches))
      ensures executions == old(executions) && cancellations == old(cancellations)
    {
      if !open {
        return false;
      }
      var ranked := RankMatches(registry, query, context);
      changed := ranked != matches;
      matches := ranked;
      selected := Least(selected, Minus(|matches|, 1));
      firstVisible := Least(firstVisible, selected);
      StepKeeps(registry, old(State()), Action.Refresh, context, State());
    }

    method Navigate(forward: bool) returns (moved: bool)
      requires Valid()
      modifies this
      ensures Valid() && State() == Navigated(old(State()), forward)
      ensures moved == (selected != old(selected)) && (moved <==> |matches| > 1)
      ensures executions == old(executions) && cancellations == old(cancellations)
    {
      if matches == [] {
        return false;
      }
      var previous := selected;
      Wrap(selected, |matches|);
      selected := Moved(selected, |matches|, forward);
      if selected >= firstVisible + MAX_VISIBLE_COMMANDS {
        firstVisible := Minus(selected + 1, MAX_VISIBLE_COMMANDS);
      }
      firstVisible := Least(firstVisible, selected);
      return selected != previous;
    }

    /** `apply_edit` and `replace_query`, for a prepared new value of the query. */
    method ApplyEdit(value: string, context: Context) returns (changed: bool)
      requires Valid()
      modifies this
      ensures Valid() && Next(registry, old(State()), Edit(value), context, State())
      ensures changed == (query != old(query)) && query == value
      ensures executions == old(executions) && cancellations == old(cancellations)
    {
      changed := query != value;
      if changed {
        var ranked := RankMatches(registry, value, context);
        query, matches, selected, firstVisible := value, ranked, 0, 0;
        StepKeeps(registry, old(State()), Edit(value), context, State());
      }
    }

    method Execute(command: EditorCommand, context: Context) returns (r: Result<EditorCommand, EditorCommand>)
      requires Valid()
      modifies this
      ensures Valid() && Next(registry, old(State()), Action.Execute(command), context, State())
      ensures r == if Available(context, command) then Ok(command) else Err(command)
      ensures executions == if r.Ok? then Saturated(old(executions) + 1, U64_MAX) else old(executions)
      ensures cancellations == old(cancellations)
    {
      if !Available(context, command) {
        var _ := Refresh(context);
        return Err(command);
      }
      executions := Saturated(executions + 1, U64_MAX);
      Release();
      return Ok(command);
    }

    /** The command of the selected row, None when there is none to select. */
    ghost function Selected(): Option<EditorCommand>
      requires Valid()
      reads this
    {
      if matches == [] then None else Some(registry[matches[selected].index].command)
    }

    method ExecuteSelected(context: Context) returns (r: Option<Result<EditorCommand, EditorCommand>>)
      requires Valid()
      modifies this
      ensures Valid()
      ensures match old(Selected())
              case None => r == None && State() == old(State()) && executions == old(executions)
              case Some(command) =>
                && Next(registry, old(State()), Action.Execute(command), context, State())
                && r == Some(if Available(context, command) then Ok(command) else Err(command))
                && executions == (if r.value.Ok? then Saturated(old(executions) + 1, U64_MAX) else old(executions))
      ensures cancellations == old(cancellations)
    {
      if selected >= |matches| {
        return None;
      }
      var index := matches[selected].index;
      if index >= |registry| {
        assert false;
        return None;
      }
      var result := Execute(registry[index].command, context);
      return Some(result);
    }

    method Release()
      modifies this
      ensures State() == CLOSED && Valid()
      ensures executions == old(executions) && cancellations == old(cancellations)
    {
      open, query, matches, selected, firstVisible := false, "", [], 0, 0;
    }

    /** The rows around the window, one of them selected. */
    method VisibleCommands() returns (rows: seq<Row>)
      requires Valid()
      ensures |rows| <= 18 && (rows == [] <==> matches == [])
      ensures VisibleStart(State()) + |rows| <= |matches|
      ensures forall k | 0 <= k < |rows| ::
                var spec := registry[matches[VisibleStart(State()) + k].index];
                rows[k] == Row(spec.command, spec.title, VisibleStart(State()) + k == selected)
      ensures matches != [] ==>
                && VisibleStart(State()) <= selected < VisibleStart(State()) + |rows|
                && Selected() == Some(rows[selected - VisibleStart(State())].command)
    {
      VisibleIsInRange(State());
      var start := Minus(firstVisible, MAX_VISIBLE_OVERSCAN);
      var end := Least(Least(firstVisible + MAX_VISIBLE_COMMANDS + MAX_VISIBLE_OVERSCAN, |matches|),
                       start + MAX_VISIBLE_COMMANDS + 2 * MAX_VISIBLE_OVERSCAN);
      rows := [];
      for i := start to end
        invariant |rows| == i - start
        invariant forall k | 0 <= k < |rows| ::
                    var spec := registry[matches[start + k].index];
                    rows[k] == Row(spec.command, spec.title, start + k == selected)
      {
        var spec := registry[matches[i].index];
        rows := rows + [Row(spec.command, spec.title, i == selected)];
      }
    }
  }
}
