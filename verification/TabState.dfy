/** The state of `documents.rs` as a value, and the effect of each operation on it.
    The document being edited is owned by the caller, so every operation takes it and
    hands one back. */
module TabState {
  import opened Machine
  import opened Wrappers
  import opened Text

  /** A file path: Rust compares paths by component, while the budget counts encoded bytes. */
  datatype Path = Path(components: seq<string>, encodedBytes: nat, fileName: Option<string>)

  predicate SamePath(a: Option<Path>, b: Path) {
    a.Some? && a.value.components == b.components
  }

  datatype View = View(anchor: nat, head: nat, scrollY: real)

  const DEFAULT_VIEW := View(0, 0, 0.0)

  datatype Tab<T> = Tab(
    id: nat,
    path: Option<Path>,
    title: string,
    pathBytes: nat,
    workspaceEntry: Option<nat>,
    document: Option<T>,
    deferred: bool,
    view: View)

  datatype Limits = Limits(tabCapacity: nat, pathByteBudget: nat, historyCapacity: nat)

  datatype TabError =
    | InvalidLimits
    | AllocationFailed
    | CapacityReached(limit: nat)
    | PathBudgetExceeded(limit: nat)
    | IdentityExhausted
    | MissingTab(index: nat)
    | DuplicatePath(path: Path)
    | LastTab
    | InvalidPayloadState

  datatype State<T> = State(
    tabs: seq<Tab<T>>,
    active: nat,
    nextId: nat,
    retainedPathBytes: nat,
    history: seq<nat>,
    cursor: nat,
    limits: Limits)

  /** What an operation leaves behind: the tabs, the caller's document, and the answer. */
  datatype Outcome<T, R> = Outcome(state: State<T>, document: T, result: Result<R, TabError>)

  function Label(path: Option<Path>): string {
    if path.Some? && path.value.fileName.Some? then path.value.fileName.value else "Untitled"
  }

  function PathBytes(path: Option<Path>): nat {
    if path.None? then 0 else path.value.encodedBytes + Len(Utf8, Label(path))
  }

  /** The label and retained bytes of a path. */
  function TabMetadata(path: Option<Path>): Result<(string, nat), TabError> {
    if PathBytes(path) > USIZE_MAX then Err(AllocationFailed) else Ok((Label(path), PathBytes(path)))
  }

  function IndexForId<T>(tabs: seq<Tab<T>>, id: nat): (r: Option<nat>)
    ensures r.Some? ==> r.value < |tabs| && tabs[r.value].id == id
    ensures r.Some? ==> forall k | 0 <= k < r.value :: tabs[k].id != id
    ensures r.None? ==> forall k | 0 <= k < |tabs| :: tabs[k].id != id
  {
    IndexForIdFrom(tabs, id, 0)
  }

  function IndexForIdFrom<T>(tabs: seq<Tab<T>>, id: nat, from: nat): (r: Option<nat>)
    requires from <= |tabs|
    ensures r.Some? ==> from <= r.value < |tabs| && tabs[r.value].id == id
    ensures r.Some? ==> forall k | from <= k < r.value :: tabs[k].id != id
    ensures r.None? ==> forall k | from <= k < |tabs| :: tabs[k].id != id
    decreases |tabs| - from
  {
    if from == |tabs| then None
    else if tabs[from].id == id then Some(from)
    else IndexForIdFrom(tabs, id, from + 1)
  }

  predicate HoldsPath<T>(tabs: seq<Tab<T>>, path: Path) {
    exists k | 0 <= k < |tabs| :: SamePath(tabs[k].path, path)
  }

  // ---------------------------------------------------------------- creation

  predicate ValidLimits(limits: Limits) {
    limits.tabCapacity != 0 && limits.pathByteBudget != 0 && limits.historyCapacity != 0
  }

  function New<T>(path: Option<Path>, workspaceEntry: Option<nat>, limits: Limits): Result<State<T>, TabError> {
    if !ValidLimits(limits) then Err(InvalidLimits)
    else
      var metadata :- TabMetadata(path);
      if metadata.1 > limits.pathByteBudget then Err(PathBudgetExceeded(limits.pathByteBudget))
      else
        Ok(State([Tab(1, path, metadata.0, metadata.1, workspaceEntry, None, false, DEFAULT_VIEW)],
                 0, 2, metadata.1, [1], 0, limits))
  }

  datatype RestoredTab = RestoredTab(path: Option<Path>, view: View)

  /** The tab restored at an index: only the active one is not deferred. */
  function RestoredAt<T>(restored: seq<RestoredTab>, active: nat, k: nat): Tab<T>
    requires k < |restored|
  {
    Tab(k + 1, restored[k].path, Label(restored[k].path), PathBytes(restored[k].path), None, None, k != active,
        restored[k].view)
  }

  function RestoredTabs<T>(restored: seq<RestoredTab>, active: nat, n: nat): seq<Tab<T>>
    requires n <= |restored|
  {
    seq(n, k requires 0 <= k < |restored| => RestoredAt(restored, active, k))
  }

  function RestoredBytes(restored: seq<RestoredTab>, n: nat): nat
    requires n <= |restored|
  {
    if n == 0 then 0 else RestoredBytes(restored, n - 1) + PathBytes(restored[n - 1].path)
  }

  /** Why the tab at an index cannot be restored after the ones before it. The sum cannot
      overflow a machine word without exceeding the budget, which is one. */
  function RestoreError(restored: seq<RestoredTab>, limits: Limits, k: nat): Option<TabError>
    requires k < |restored|
  {
    var path := restored[k].path;
    if path.Some? && exists j | 0 <= j < k :: SamePath(restored[j].path, path.value) then
      Some(DuplicatePath(path.value))
    else if PathBytes(path) > USIZE_MAX then Some(AllocationFailed)
    else if RestoredBytes(restored, k + 1) > limits.pathByteBudget then
      Some(PathBudgetExceeded(limits.pathByteBudget))
    else None
  }

  function FirstRestoreError(restored: seq<RestoredTab>, limits: Limits, k: nat): Option<TabError>
    requires k <= |restored|
    decreases |restored| - k
  {
    if k == |restored| then None
    else if RestoreError(restored, limits, k).Some? then RestoreError(restored, limits, k)
    else FirstRestoreError(restored, limits, k + 1)
  }

  function FromRestored<T>(restored: seq<RestoredTab>, active: nat, limits: Limits): Result<State<T>, TabError> {
    if !ValidLimits(limits) then Err(InvalidLimits)
    else if restored == [] || |restored| > limits.tabCapacity || active >= |restored| then Err(InvalidPayloadState)
    else
      match FirstRestoreError(restored, limits, 0)
      case Some(error) => Err(error)
      case None =>
        Ok(State(RestoredTabs(restored, active, |restored|), active, |restored| + 1,
                 RestoredBytes(restored, |restored|), [active + 1], 0, limits))
  }

  lemma RestoredHoldsPath<T>(restored: seq<RestoredTab>, active: nat, k: nat, path: Path)
    requires k <= |restored|
    ensures HoldsPath(RestoredTabs<T>(restored, active, k), path)
            <==> exists j | 0 <= j < k :: SamePath(restored[j].path, path)
  {
    var tabs := RestoredTabs<T>(restored, active, k);
    if j :| 0 <= j < k && SamePath(restored[j].path, path) {
      assert SamePath(tabs[j].path, path);
    }
  }

  lemma RestoringEnds<T>(restored: seq<RestoredTab>, active: nat, limits: Limits)
    ensures RestoredTabs<T>(restored, active, 0) == [] && RestoredBytes(restored, 0) == 0
    ensures FirstRestoreError(restored, limits, |restored|) == None
  {
  }

  /** What the tab at k adds, or why restoring stops there. */
  lemma NextRestored<T>(restored: seq<RestoredTab>, active: nat, limits: Limits, k: nat)
    requires k < |restored|
    ensures RestoredTabs<T>(restored, active, k + 1)
         == RestoredTabs<T>(restored, active, k) + [RestoredAt<T>(restored, active, k)]
    ensures RestoredBytes(restored, k + 1) == RestoredBytes(restored, k) + PathBytes(restored[k].path)
    ensures var path := restored[k].path;
            FirstRestoreError(restored, limits, k) ==
            if path.Some? && HoldsPath(RestoredTabs<T>(restored, active, k), path.value) then
              Some(DuplicatePath(path.value))
            else if PathBytes(path) > USIZE_MAX then Some(AllocationFailed)
            else if RestoredBytes(restored, k + 1) > limits.pathByteBudget then
              Some(PathBudgetExceeded(limits.pathByteBudget))
            else FirstRestoreError(restored, limits, k + 1)
  {
    var path := restored[k].path;
    if path.Some? {
      RestoredHoldsPath<T>(restored, active, k, path.value);
    }
  }

  // ----------------------------------------------------------------- history

  /** A history entry that navigation may move to: the id of an open tab other than the
      active one. */
  predicate Usable<T>(s: State<T>, id: nat) {
    var index := IndexForId(s.tabs, id);
    index.Some? && index.value != s.active
  }

  /** The nearest usable history position before k. */
  function Before<T>(s: State<T>, k: nat): (r: Option<nat>)
    requires k <= |s.history|
    ensures r.Some? ==> r.value < k && Usable(s, s.history[r.value])
    ensures r.Some? ==> forall j | r.value < j < k :: !Usable(s, s.history[j])
    ensures r.None? ==> forall j | 0 <= j < k :: !Usable(s, s.history[j])
  {
    if k == 0 then None
    else if Usable(s, s.history[k - 1]) then Some(k - 1)
    else Before(s, k - 1)
  }

  /** The nearest usable history position from k on. */
  function After<T>(s: State<T>, k: nat): (r: Option<nat>)
    ensures r.Some? ==> k <= r.value < |s.history| && Usable(s, s.history[r.value])
    ensures r.Some? ==> forall j | k <= j < r.value :: !Usable(s, s.history[j])
    ensures r.None? ==> forall j | k <= j < |s.history| :: !Usable(s, s.history[j])
    decreases |s.history| - k
  {
    if k >= |s.history| then None
    else if Usable(s, s.history[k]) then Some(k)
    else After(s, k + 1)
  }

  /** The history position that navigation moves to. */
  function TargetPosition<T>(s: State<T>, forward: bool): Option<nat> {
    if forward then After(s, s.cursor + 1)
    else if s.cursor <= |s.history| then Before(s, s.cursor)
    else None
  }

  /** `navigation_target`: the tab that navigation moves to. */
  function NavigationTarget<T>(s: State<T>, forward: bool): Option<nat> {
    var position :- TargetPosition(s, forward);
    IndexForId(s.tabs, s.history[position])
  }

  predicate CanNavigate<T>(s: State<T>, forward: bool) {
    if forward then exists k | s.cursor < k < |s.history| :: Usable(s, s.history[k])
    else s.cursor <= |s.history| && exists k | 0 <= k < s.cursor :: Usable(s, s.history[k])
  }

  /** A new entry replaces everything ahead of the cursor; a full history forgets its
      oldest entry. */
  function RecordNavigation<T>(s: State<T>, id: nat): State<T> {
    if s.cursor < |s.history| && s.history[s.cursor] == id then s
    else
      var kept := if s.cursor + 1 < |s.history| then s.history[..s.cursor + 1] else s.history;
      var room := if |kept| == s.limits.historyCapacity && kept != [] then kept[1..] else kept;
      s.(history := room + [id], cursor := |room|)
  }

  // -------------------------------------------------------------- operations

  /** Hands the caller's document to the active tab and takes the target's. */
  function SwitchTo<T>(s: State<T>, index: nat, document: T, view: View): Outcome<T, View> {
    if s.active >= |s.tabs| || s.tabs[s.active].document.Some? || s.tabs[s.active].deferred then
      Outcome(s, document, Err(InvalidPayloadState))
    else if index >= |s.tabs| then Outcome(s, document, Err(MissingTab(index)))
    else if s.tabs[index].deferred || s.tabs[index].document.None? then
      Outcome(s, document, Err(InvalidPayloadState))
    else
      var target := s.tabs[index];
      var taken := s.tabs[index := target.(document := None)];
      var left := taken[s.active].(document := Some(document), deferred := false, view := view);
      Outcome(s.(tabs := taken[s.active := left], active := index), target.document.value, Ok(target.view))
  }

  function Activate<T>(s: State<T>, index: nat, document: T, view: View): Outcome<T, Option<View>> {
    if index == s.active then Outcome(s, document, Ok(None))
    else if index >= |s.tabs| then Outcome(s, document, Err(MissingTab(index)))
    else
      var o := SwitchTo(s, index, document, view);
      match o.result
      case Err(e) => Outcome(o.state, o.document, Err(e))
      case Ok(v) => Outcome(RecordNavigation(o.state, s.tabs[index].id), o.document, Ok(Some(v)))
  }

  function Navigate<T>(s: State<T>, forward: bool, document: T, view: View): Outcome<T, Option<View>> {
    match TargetPosition(s, forward)
    case None => Outcome(s, document, Ok(None))
    case Some(position) =>
      var o := SwitchTo(s, IndexForId(s.tabs, s.history[position]).value, document, view);
      match o.result
      case Err(e) => Outcome(o.state, o.document, Err(e))
      case Ok(v) => Outcome(o.state.(cursor := position), o.document, Ok(Some(v)))
  }

  function InsertAndActivate<T>(s: State<T>, path: Path, workspaceEntry: Option<nat>, newDocument: T,
                                document: T, view: View): Outcome<T, ()>
  {
    if HoldsPath(s.tabs, path) then Outcome(s, document, Err(DuplicatePath(path)))
    else if |s.tabs| >= s.limits.tabCapacity then
      Outcome(s, document, Err(CapacityReached(s.limits.tabCapacity)))
    else if s.active >= |s.tabs| || s.tabs[s.active].document.Some? then
      Outcome(s, document, Err(InvalidPayloadState))
    else if s.nextId + 1 > U64_MAX then Outcome(s, document, Err(IdentityExhausted))
    else if PathBytes(Some(path)) > USIZE_MAX then Outcome(s, document, Err(AllocationFailed))
    else if s.retainedPathBytes + PathBytes(Some(path)) > s.limits.pathByteBudget then
      Outcome(s, document, Err(PathBudgetExceeded(s.limits.pathByteBudget)))
    else
      var left := s.tabs[s.active].(document := Some(document), deferred := false, view := view);
      var added := Tab(s.nextId, Some(path), Label(Some(path)), PathBytes(Some(path)), workspaceEntry, None, false,
                       DEFAULT_VIEW);
      var next := s.(tabs := s.tabs[s.active := left] + [added], active := |s.tabs|, nextId := s.nextId + 1,
                     retainedPathBytes := s.retainedPathBytes + PathBytes(Some(path)));
      Outcome(RecordNavigation(next, s.nextId), newDocument, Ok(()))
  }

  function CloseTarget<T>(s: State<T>): Result<nat, TabError>
    requires s.active < |s.tabs|
  {
    if |s.tabs| == 1 then Err(LastTab)
    else Ok(if s.active + 1 < |s.tabs| then s.active + 1 else s.active - 1)
  }

  function Remove<A>(xs: seq<A>, k: nat): seq<A>
    requires k < |xs|
  {
    xs[..k] + xs[k + 1..]
  }

  /** Drops the caller's document and activates a neighbour. */
  function CloseActive<T>(s: State<T>, document: T): Outcome<T, View>
    requires s.active < |s.tabs|
  {
    var target := CloseTarget(s);
    if target.Err? then Outcome(s, document, Err(target.error))
    else if s.tabs[target.value].document.None? then Outcome(s, document, Err(InvalidPayloadState))
    else
      var tab := s.tabs[target.value];
      var tabs := Remove(s.tabs[target.value := tab.(document := None)], s.active);
      var bytes := s.tabs[s.active].pathBytes;
      var next := s.(tabs := tabs,
                     active := if target.value > s.active then s.active else target.value,
                     retainedPathBytes := if bytes <= s.retainedPathBytes then s.retainedPathBytes - bytes else 0);
      Outcome(RecordNavigation(next, tab.id), tab.document.value, Ok(tab.view))
  }

  function ResetActiveToScratch<T>(s: State<T>): (State<T>, Result<(), TabError>) {
    if s.active >= |s.tabs| then (s, Err(MissingTab(s.active)))
    else
      var tab := s.tabs[s.active];
      var scratch := tab.(path := None, title := "Untitled", pathBytes := 0, workspaceEntry := None,
                          deferred := false, view := DEFAULT_VIEW);
      var bytes := if tab.pathBytes <= s.retainedPathBytes then s.retainedPathBytes - tab.pathBytes else 0;
      (s.(tabs := s.tabs[s.active := scratch], retainedPathBytes := bytes), Ok(()))
  }

  function Materialize<T>(s: State<T>, index: nat, document: T): (State<T>, Result<(), TabError>) {
    if index == s.active then (s, Err(InvalidPayloadState))
    else if index >= |s.tabs| then (s, Err(MissingTab(index)))
    else if !s.tabs[index].deferred || s.tabs[index].document.Some? then (s, Err(InvalidPayloadState))
    else
      (s.(tabs := s.tabs[index := s.tabs[index].(document := Some(document), deferred := false)]), Ok(()))
  }
}
