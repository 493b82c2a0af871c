/** The tabs as the user sees them: a list of entries that hold their documents for good. The
    operations of `documents.rs`, which hand documents back and forth between the list and the
    caller, are proved equal to plain edits of that list. */
module TabEntries {
  import opened Machine
  import opened Wrappers
  import opened TabState
  import opened TabRuns

  datatype Entry<T> = Entry(id: nat, path: Option<Path>, workspaceEntry: Option<nat>, content: Content<T>, view: View)

  ghost function EntryAt<T>(s: State<T>, document: T, k: nat): Entry<T>
    requires k < |s.tabs|
  {
    var tab := s.tabs[k];
    Entry(tab.id, tab.path, tab.workspaceEntry, ContentAt(s, document, k), tab.view)
  }

  ghost function Entries<T>(s: State<T>, document: T): (entries: seq<Entry<T>>)
    ensures |entries| == |s.tabs|
    ensures forall k | 0 <= k < |s.tabs| :: entries[k] == EntryAt(s, document, k)
  {
    seq(|s.tabs|, k requires 0 <= k < |s.tabs| => EntryAt(s, document, k))
  }

  /** The list after the active tab was left with a view. */
  ghost function Left<T>(s: State<T>, document: T, view: View): seq<Entry<T>>
    requires s.active < |s.tabs|
  {
    var entries := Entries(s, document);
    entries[s.active := entries[s.active].(view := view)]
  }

  // ---------------------------------------------------------------- creation

  lemma NewShows<T>(path: Option<Path>, workspaceEntry: Option<nat>, limits: Limits, document: T)
    ensures match TabState.New<T>(path, workspaceEntry, limits)
            case Ok(s) =>
              && s.active == 0 && s.limits == limits && s.history == [1]
              && Entries(s, document) == [Entry(1, path, workspaceEntry, Present(document), DEFAULT_VIEW)]
            case Err(e) =>
              e == if limits.tabCapacity == 0 || limits.pathByteBudget == 0 || limits.historyCapacity == 0
                   then InvalidLimits
                   else if PathBytes(path) > USIZE_MAX then AllocationFailed
                   else PathBudgetExceeded(limits.pathByteBudget)
  {
  }

  /** Every restored tab comes back with its path and the view it was saved with. */
  lemma RestoredShows<T>(restored: seq<RestoredTab>, active: nat, limits: Limits, document: T)
    requires FromRestored<T>(restored, active, limits).Ok?
    ensures var s := FromRestored<T>(restored, active, limits).value;
            && s.active == active && s.limits == limits && s.history == [active + 1]
            && |s.tabs| == |restored|
            && forall k | 0 <= k < |restored| ::
                 Entries(s, document)[k]
                 == Entry(k + 1, restored[k].path, None, if k == active then Present(document) else Deferred,
                          restored[k].view)
  {
  }

  // -------------------------------------------------------------- operations

  lemma SwitchShows<T>(s: State<T>, index: nat, document: T, view: View)
    requires ValidTabs(s) && index < |s.tabs| && index != s.active
    ensures var o := SwitchTo(s, index, document, view);
            var entry := Entries(s, document)[index];
            if entry.content == Deferred then o == Outcome(s, document, Err(InvalidPayloadState))
            else
              && o.result == Ok(entry.view) && entry.content == Present(o.document)
              && o.state.active == index
              && Entries(o.state, o.document) == Left(s, document, view)
  {
    hide DistinctIds, DistinctPaths, TotalBytes, Label, PathBytes;
    assert ValidTab(s.tabs[index], false) && ValidTab(s.tabs[s.active], true);
    var o := SwitchTo(s, index, document, view);
    if o.result.Ok? {
      assert forall k | 0 <= k < |s.tabs| :: ValidTab(s.tabs[k], k == s.active);
      assert Entries(o.state, o.document) == Left(s, document, view);
    }
  }

  /** Recording a visit shows nothing. */
  lemma RecordShows<T>(s: State<T>, id: nat, document: T)
    ensures Entries(RecordNavigation(s, id), document) == Entries(s, document)
    ensures RecordNavigation(s, id).active == s.active
  {
    assert Entries(RecordNavigation(s, id), document) == Entries(s, document);
  }

  /** Activating another tab leaves its own view with the tab left, and hands out the document
      and the view of the other. */
  lemma ActivateShows<T>(s: State<T>, index: nat, document: T, view: View)
    requires Valid(s)
    ensures var o := Activate(s, index, document, view);
            if index == s.active then o == Outcome(s, document, Ok(None))
            else if index >= |s.tabs| then o == Outcome(s, document, Err(MissingTab(index)))
            else
              var entry := Entries(s, document)[index];
              if entry.content == Deferred then o == Outcome(s, document, Err(InvalidPayloadState))
              else
                && o.result == Ok(Some(entry.view)) && entry.content == Present(o.document)
                && o.state.active == index
                && Entries(o.state, o.document) == Left(s, document, view)
  {
    hide ValidTabs, SwitchTo, RecordNavigation, Entries, Left;
    assert s.active < |s.tabs| by { ActiveIsOpen(s); }
    if index < |s.tabs| && index != s.active {
      SwitchShows(s, index, document, view);
      var o := SwitchTo(s, index, document, view);
      RecordShows(o.state, s.tabs[index].id, o.document);
    }
  }

  lemma ActiveIsOpen<T>(s: State<T>)
    requires ValidTabs(s)
    ensures s.active < |s.tabs|
  {
  }

  /** Navigating does the same with the tab of the history position it moves to. */
  lemma NavigateShows<T>(s: State<T>, forward: bool, document: T, view: View)
    requires Valid(s)
    ensures var o := Navigate(s, forward, document, view);
            match NavigationTarget(s, forward)
            case None => o == Outcome(s, document, Ok(None))
            case Some(index) =>
              && index < |s.tabs|
              && var entry := Entries(s, document)[index];
              if entry.content == Deferred then o == Outcome(s, document, Err(InvalidPayloadState))
              else
                && o.result == Ok(Some(entry.view)) && entry.content == Present(o.document)
                && o.state.active == index
                && o.state.history == s.history && Some(o.state.cursor) == TargetPosition(s, forward)
                && Entries(o.state, o.document) == Left(s, document, view)
  {
    hide ValidTabs, Entries, Left, Before, After, IndexForId;
    assert s.active < |s.tabs| by { ActiveIsOpen(s); }
    var position := TargetPosition(s, forward);
    if position.Some? {
      assert Usable(s, s.history[position.value]);
      var index := IndexForId(s.tabs, s.history[position.value]).value;
      SwitchShows(s, index, document, view);
      SwitchKeepsHistory(s, index, document, view);
      var o := SwitchTo(s, index, document, view);
      CursorShows(o.state, position.value, o.document);
    }
  }

  lemma SwitchKeepsHistory<T>(s: State<T>, index: nat, document: T, view: View)
    ensures SwitchTo(s, index, document, view).state.history == s.history
  {
  }

  lemma CursorShows<T>(s: State<T>, cursor: nat, document: T)
    ensures Entries(s.(cursor := cursor), document) == Entries(s, document)
  {
    assert Entries(s.(cursor := cursor), document) == Entries(s, document);
  }

  /** Why a path cannot be opened, in the order of the checks. */
  function InsertError<T>(s: State<T>, path: Path): Option<TabError> {
    if HoldsPath(s.tabs, path) then Some(DuplicatePath(path))
    else if |s.tabs| >= s.limits.tabCapacity then Some(CapacityReached(s.limits.tabCapacity))
    else if s.nextId >= U64_MAX then Some(IdentityExhausted)
    else if PathBytes(Some(path)) > USIZE_MAX then Some(AllocationFailed)
    else if s.retainedPathBytes + PathBytes(Some(path)) > s.limits.pathByteBudget then
      Some(PathBudgetExceeded(s.limits.pathByteBudget))
    else None
  }

  /** Inserting leaves the active tab like activating does and adds one entry at the end. */
  lemma InsertShows<T>(s: State<T>, path: Path, workspaceEntry: Option<nat>, newDocument: T, document: T, view: View)
    requires Valid(s)
    ensures var o := InsertAndActivate(s, path, workspaceEntry, newDocument, document, view);
            match InsertError(s, path)
            case Some(e) => o == Outcome(s, document, Err(e))
            case None =>
              && o.result == Ok(()) && o.document == newDocument && o.state.active == |s.tabs|
              && Entries(o.state, o.document)
                 == Left(s, document, view)
                    + [Entry(s.nextId, Some(path), workspaceEntry, Present(newDocument), DEFAULT_VIEW)]
  {
    hide RecordNavigation, HoldsPath, Label, PathBytes, DistinctIds, DistinctPaths, TotalBytes, ValidHistory;
    assert ValidTab(s.tabs[s.active], true);
    var o := InsertAndActivate(s, path, workspaceEntry, newDocument, document, view);
    if o.result.Ok? {
      var left := s.tabs[s.active].(document := Some(document), deferred := false, view := view);
      var added := Tab(s.nextId, Some(path), Label(Some(path)), PathBytes(Some(path)), workspaceEntry, None, false,
                       DEFAULT_VIEW);
      var next := s.(tabs := s.tabs[s.active := left] + [added], active := |s.tabs|, nextId := s.nextId + 1,
                     retainedPathBytes := s.retainedPathBytes + PathBytes(Some(path)));
      RecordShows(next, s.nextId, newDocument);
      assert Entries(next, newDocument)
          == Left(s, document, view)
             + [Entry(s.nextId, Some(path), workspaceEntry, Present(newDocument), DEFAULT_VIEW)];
    }
  }

  /** Closing removes the active entry and hands out the neighbour's document and view. */
  lemma CloseShows<T>(s: State<T>, document: T)
    requires Valid(s)
    ensures var o := CloseActive(s, document);
            var entries := Entries(s, document);
            if |s.tabs| == 1 then o == Outcome(s, document, Err(LastTab))
            else
              var target := if s.active + 1 < |s.tabs| then s.active + 1 else s.active - 1;
              if entries[target].content == Deferred then o == Outcome(s, document, Err(InvalidPayloadState))
              else
                && o.result == Ok(entries[target].view) && entries[target].content == Present(o.document)
                && Entries(o.state, o.document) == Remove(entries, s.active)
                && Entries(o.state, o.document)[o.state.active] == entries[target]
  {
    hide RecordNavigation, Label, PathBytes, DistinctIds, DistinctPaths, TotalBytes, ValidHistory;
    var o := CloseActive(s, document);
    if |s.tabs| > 1 {
      var target := if s.active + 1 < |s.tabs| then s.active + 1 else s.active - 1;
      assert ValidTab(s.tabs[target], false);
      if o.result.Ok? {
        var tab := s.tabs[target];
        var tabs := Remove(s.tabs[target := tab.(document := None)], s.active);
        var bytes := s.tabs[s.active].pathBytes;
        var next := s.(tabs := tabs, active := if target > s.active then s.active else target,
                       retainedPathBytes := if bytes <= s.retainedPathBytes then s.retainedPathBytes - bytes else 0);
        RecordShows(next, tab.id, o.document);
        RemovedShows(s, document, target, next, o.document);
      }
    }
  }

  lemma RemovedShows<T>(s: State<T>, document: T, target: nat, next: State<T>, document': T)
    requires ValidTabs(s) && target < |s.tabs| && target != s.active
    requires s.tabs[target].document == Some(document')
    requires next.tabs == Remove(s.tabs[target := s.tabs[target].(document := None)], s.active)
    requires next.active == if target > s.active then target - 1 else target
    ensures Entries(next, document') == Remove(Entries(s, document), s.active)
    ensures Entries(next, document')[next.active] == Entries(s, document)[target]
  {
    hide DistinctIds, DistinctPaths, TotalBytes;
    assert Entries(next, document') == Remove(Entries(s, document), s.active);
  }

  /** Loading fills in one deferred entry. */
  lemma MaterializeShows<T>(s: State<T>, index: nat, loaded: T, document: T)
    requires Valid(s)
    ensures var (s', r) := Materialize(s, index, loaded);
            var entries := Entries(s, document);
            if index >= |s.tabs| then (s', r) == (s, Err(MissingTab(index)))
            else if entries[index].content != Deferred then (s', r) == (s, Err(InvalidPayloadState))
            else
              && r == Ok(()) && s'.active == s.active
              && Entries(s', document) == entries[index := entries[index].(content := Present(loaded))]
  {
    hide Label, PathBytes, DistinctIds, DistinctPaths, TotalBytes, ValidHistory;
    if index < |s.tabs| {
      assert ValidTab(s.tabs[index], index == s.active);
      var (s', r) := Materialize(s, index, loaded);
      if r.Ok? {
        var entries := Entries(s, document);
        assert Entries(s', document) == entries[index := entries[index].(content := Present(loaded))];
      }
    }
  }

  /** Resetting keeps the active document and forgets everything else about the tab. */
  lemma ResetShows<T>(s: State<T>, document: T)
    requires Valid(s)
    ensures var (s', r) := ResetActiveToScratch(s);
            var entries := Entries(s, document);
            && r == Ok(()) && s'.active == s.active
            && Entries(s', document)
               == entries[s.active := entries[s.active].(path := None, workspaceEntry := None, view := DEFAULT_VIEW)]
  {
    hide Label, PathBytes, DistinctIds, DistinctPaths, TotalBytes, ValidHistory;
    var (s', r) := ResetActiveToScratch(s);
    var entries := Entries(s, document);
    assert Entries(s', document)
        == entries[s.active := entries[s.active].(path := None, workspaceEntry := None, view := DEFAULT_VIEW)];
  }

  // ------------------------------------------------------------ saved views

  /** A restored tab, once its document is loaded, opens with the view it was saved with. */
  lemma RestoredViewReturns<T>(restored: seq<RestoredTab>, active: nat, limits: Limits, k: nat, loaded: T, document: T,
                               view: View)
    requires FromRestored<T>(restored, active, limits).Ok? && k < |restored| && k != active
    ensures var s := FromRestored<T>(restored, active, limits).value;
            var (s', r) := Materialize(s, k, loaded);
            var o := Activate(s', k, document, view);
            && r == Ok(())
            && o.result == Ok(Some(restored[k].view)) && o.document == loaded && o.state.active == k
  {
    hide Valid, Materialize, Activate, FromRestored;
    RestoredIsValid<T>(restored, active, limits);
    RestoredShows<T>(restored, active, limits, document);
    var s := FromRestored<T>(restored, active, limits).value;
    MaterializeShows(s, k, loaded, document);
    MaterializeKeeps(s, k, loaded, document);
    ActivateShows(Materialize(s, k, loaded).0, k, document, view);
  }

  /** The entry of an open tab. */
  ghost function EntryOf<T>(s: State<T>, document: T, id: nat): Entry<T>
    requires IndexForId(s.tabs, id).Some?
  {
    EntryAt(s, document, IndexForId(s.tabs, id).value)
  }

  lemma EntryFound<T>(s: State<T>, document: T, id: nat, k: nat)
    requires DistinctIds(s.tabs) && k < |s.tabs| && Entries(s, document)[k].id == id
    ensures IndexForId(s.tabs, id) == Some(k) && EntryOf(s, document, id) == Entries(s, document)[k]
  {
    DocumentsAt(s, document, k);
  }

  /** An entry apart from the document that may be loaded into it. */
  ghost predicate SameEntry<T>(a: Entry<T>, b: Entry<T>) {
    && (a.id, a.path, a.workspaceEntry, a.view) == (b.id, b.path, b.workspaceEntry, b.view)
    && (a.content == b.content || a.content == Deferred)
  }

  ghost predicate Away<T>(s: State<T>, id: nat) {
    IndexForId(s.tabs, id).Some? && IndexForId(s.tabs, id) != Some(s.active)
  }

  /** No operation touches a tab that is not active, but for loading its document. */
  lemma StepKeepsAway<T>(s: State<T>, document: T, op: Op<T>, id: nat)
    requires Valid(s) && Away(s, id)
    ensures var (s', document') := Step(s, document, op);
            && IndexForId(s'.tabs, id).Some?
            && SameEntry(EntryOf(s, document, id), EntryOf(s', document', id))
  {
    hide Valid, Activate, Navigate, InsertAndActivate, CloseActive, Materialize, ResetActiveToScratch, NavigationTarget;
    StepKeeps(s, document, op);
    ValidIsDistinct(s);
    var k := IndexForId(s.tabs, id).value;
    var (s', document') := Step(s, document, op);
    ValidIsDistinct(s');
    match op
    case Insert(path, entry, added, view) =>
      InsertShows(s, path, entry, added, document, view);
      EntryFound(s', document', id, k);
    case Open(index, view) =>
      ActivateShows(s, index, document, view);
      EntryFound(s', document', id, k);
    case Move(forward, view) =>
      NavigateShows(s, forward, document, view);
      EntryFound(s', document', id, k);
    case Load(index, loaded) =>
      MaterializeShows(s, index, loaded, document);
      EntryFound(s', document', id, k);
    case Close =>
      CloseShows(s, document);
      EntryFound(s', document', id, if CloseActive(s, document).result.Ok? && k > s.active then k - 1 else k);
    case Reset =>
      ResetShows(s, document);
      EntryFound(s', document', id, k);
  }

  lemma ValidIsDistinct<T>(s: State<T>)
    requires Valid(s)
    ensures DistinctIds(s.tabs) && s.active < |s.tabs|
  {
  }

  /** The tab is open, and not the active one, before each operation of the run. */
  ghost predicate AwayThroughout<T>(s: State<T>, document: T, ops: seq<Op<T>>, id: nat)
    requires Valid(s)
    decreases |ops|
  {
    ops != [] ==>
      && Away(s, id)
      && (StepKeeps(s, document, ops[0]);
          var (s', document') := Step(s, document, ops[0]);
          AwayThroughout(s', document', ops[1..], id))
  }

  /** Whatever happens while one is away from a tab, it keeps its path, its document and the view
      it was left with; activating hands out that view by `ActivateShows`. */
  lemma {:induction false} RunKeepsAway<T>(s: State<T>, document: T, ops: seq<Op<T>>, id: nat)
    requires Valid(s) && IndexForId(s.tabs, id).Some? && AwayThroughout(s, document, ops, id)
    ensures var (s', document') := Run(s, document, ops);
            && IndexForId(s'.tabs, id).Some?
            && SameEntry(EntryOf(s, document, id), EntryOf(s', document', id))
    decreases |ops|
  {
    hide Valid, Step, Away, EntryOf;
    if ops != [] {
      ValidIsDistinct(s);
      StepKeeps(s, document, ops[0]);
      StepKeepsAway(s, document, ops[0], id);
      var (s', document') := Step(s, document, ops[0]);
      RunKeepsAway(s', document', ops[1..], id);
    }
  }
}
