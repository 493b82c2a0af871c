/** `documents.rs`: the tab list as the editor holds it, updated in place. Each method is
    proved against its effect on the state in `TabState`. */
module DocumentTabs {
  import opened Machine
  import opened Wrappers
  import opened TabState
  import TabRuns

  class DocumentTabs<T> {
    var tabs: seq<Tab<T>>
    var active: nat
    var nextId: nat
    var retainedPathBytes: nat
    var history: seq<nat>
    var cursor: nat
    const limits: Limits

    ghost function State(): State<T>
      reads this
    {
      TabState.State(tabs, active, nextId, retainedPathBytes, history, cursor, limits)
    }

    /** What holds of every list that the operations have made. */
    ghost predicate Valid()
      reads this
    {
      TabRuns.Valid(State())
    }

    constructor (tabs: seq<Tab<T>>, active: nat, nextId: nat, retainedPathBytes: nat, id: nat, limits: Limits)
      ensures State() == TabState.State(tabs, active, nextId, retainedPathBytes, [id], 0, limits)
    {
      this.tabs, this.active, this.nextId, this.retainedPathBytes := tabs, active, nextId, retainedPathBytes;
      this.history, this.cursor, this.limits := [id], 0, limits;
    }

    static method New(path: Option<Path>, workspaceEntry: Option<nat>, limits: Limits)
      returns (r: Result<DocumentTabs<T>, TabError>)
      ensures r.Ok? ==> fresh(r.value)
      ensures match TabState.New(path, workspaceEntry, limits)
              case Ok(s) => r.Ok? && r.value.State() == s && r.value.Valid()
              case Err(e) => r == Err(e)
    {
      TabRuns.NewIsValid<T>(path, workspaceEntry, limits);
      if !ValidLimits(limits) {
        return Err(InvalidLimits);
      }
      var metadata :- TabMetadata(path);
      if metadata.1 > limits.pathByteBudget {
        return Err(PathBudgetExceeded(limits.pathByteBudget));
      }
      var first := Tab(1, path, metadata.0, metadata.1, workspaceEntry, None, false, DEFAULT_VIEW);
      var made := new DocumentTabs([first], 0, 2, metadata.1, 1, limits);
      r := Ok(made);
    }

    static method FromRestored(restored: seq<RestoredTab>, active: nat, limits: Limits)
      returns (r: Result<DocumentTabs<T>, TabError>)
      ensures r.Ok? ==> fresh(r.value)
      ensures match TabState.FromRestored(restored, active, limits)
              case Ok(s) => r.Ok? && r.value.State() == s && r.value.Valid()
              case Err(e) => r == Err(e)
    {
      TabRuns.RestoredIsValid<T>(restored, active, limits);
      hide TabRuns.Valid, RestoredTabs, RestoredBytes, RestoreError, FirstRestoreError, HoldsPath;
      if !ValidLimits(limits) {
        return Err(InvalidLimits);
      }
      if restored == [] || |restored| > limits.tabCapacity || active >= |restored| {
        return Err(InvalidPayloadState);
      }
      var tabs: seq<Tab<T>> := [];
      var bytes := 0;
      RestoringEnds<T>(restored, active, limits);
      for k := 0 to |restored|
        invariant tabs == RestoredTabs(restored, active, k)
        invariant bytes == RestoredBytes(restored, k)
        invariant FirstRestoreError(restored, limits, 0) == FirstRestoreError(restored, limits, k)
      {
        var path := restored[k].path;
        NextRestored<T>(restored, active, limits, k);
        if path.Some? && HoldsPath(tabs, path.value) {
          return Err(DuplicatePath(path.value));
        }
        var metadata :- TabMetadata(path);
        if bytes + metadata.1 > limits.pathByteBudget {
          return Err(PathBudgetExceeded(limits.pathByteBudget));
        }
        bytes := bytes + metadata.1;
        tabs := tabs + [Tab(k + 1, path, metadata.0, metadata.1, None, None, k != active, restored[k].view)];
      }
      var made := new DocumentTabs(tabs, active, |restored| + 1, bytes, active + 1, limits);
      r := Ok(made);
    }

    method Materialize(index: nat, document: T) returns (r: Result<(), TabError>)
      modifies this`tabs
      ensures (State(), r) == TabState.Materialize(old(State()), index, document)
      ensures old(Valid()) ==> Valid()
    {
      hide TabRuns.Valid;
      TabRuns.MaterializeStaysValid(State(), index, document);
      if index == active {
        return Err(InvalidPayloadState);
      }
      if index >= |tabs| {
        return Err(MissingTab(index));
      }
      if !tabs[index].deferred || tabs[index].document.Some? {
        return Err(InvalidPayloadState);
      }
      tabs := tabs[index := tabs[index].(document := Some(document), deferred := false)];
      r := Ok(());
    }

    method ResetActiveToScratch() returns (r: Result<(), TabError>)
      modifies this`tabs, this`retainedPathBytes
      ensures (State(), r) == TabState.ResetActiveToScratch(old(State()))
      ensures old(Valid()) ==> Valid()
    {
      hide TabRuns.Valid;
      TabRuns.ResetStaysValid(State());
      if active >= |tabs| {
        return Err(MissingTab(active));
      }
      var tab := tabs[active];
      retainedPathBytes := if tab.pathBytes <= retainedPathBytes then retainedPathBytes - tab.pathBytes else 0;
      tabs := tabs[active := tab.(path := None, title := "Untitled", pathBytes := 0, workspaceEntry := None,
                                  deferred := false, view := DEFAULT_VIEW)];
      r := Ok(());
    }

    method RecordNavigation(id: nat)
      modifies this`history, this`cursor
      ensures State() == TabState.RecordNavigation(old(State()), id)
    {
      if cursor < |history| && history[cursor] == id {
        return;
      }
      if cursor + 1 < |history| {
        history := history[..cursor + 1];
      }
      if |history| == limits.historyCapacity && history != [] {
        history := history[1..];
      }
      history := history + [id];
      cursor := |history| - 1;
    }

    method SwitchTo(index: nat, activeDocument: T, activeView: View)
      returns (r: Result<View, TabError>, document: T)
      modifies this`tabs, this`active
      ensures Outcome(State(), document, r) == TabState.SwitchTo(old(State()), index, activeDocument, activeView)
    {
      document := activeDocument;
      if active >= |tabs| || tabs[active].document.Some? || tabs[active].deferred {
        return Err(InvalidPayloadState), document;
      }
      if index >= |tabs| {
        return Err(MissingTab(index)), document;
      }
      if tabs[index].deferred {
        return Err(InvalidPayloadState), document;
      }
      var target := tabs[index];
      if target.document.None? {
        return Err(InvalidPayloadState), document;
      }
      tabs := tabs[index := target.(document := None)];
      tabs := tabs[active := tabs[active].(document := Some(document), deferred := false, view := activeView)];
      document := target.document.value;
      active := index;
      r := Ok(target.view);
    }

    method Activate(index: nat, activeDocument: T, activeView: View)
      returns (r: Result<Option<View>, TabError>, document: T)
      modifies this
      ensures Outcome(State(), document, r) == TabState.Activate(old(State()), index, activeDocument, activeView)
      ensures old(Valid()) ==> Valid()
    {
      hide TabRuns.Valid;
      TabRuns.ActivateStaysValid(State(), index, activeDocument, activeView);
      document := activeDocument;
      if index == active {
        return Ok(None), document;
      }
      if index >= |tabs| {
        return Err(MissingTab(index)), document;
      }
      var id := tabs[index].id;
      var view;
      view, document := SwitchTo(index, document, activeView);
      if view.Err? {
        return Err(view.error), document;
      }
      RecordNavigation(id);
      r := Ok(Some(view.value));
    }

    method NavigateBack(activeDocument: T, activeView: View)
      returns (r: Result<Option<View>, TabError>, document: T)
      requires cursor <= |history|
      modifies this
      ensures Outcome(State(), document, r) == TabState.Navigate(old(State()), false, activeDocument, activeView)
      ensures old(Valid()) ==> Valid()
    {
      hide TabRuns.Valid, TabState.SwitchTo, IndexForId;
      TabRuns.NavigateStaysValid(State(), false, activeDocument, activeView);
      document := activeDocument;
      var position: nat := cursor;
      while position > 0
        invariant position <= cursor && State() == old(State()) && document == activeDocument
        invariant Before(State(), cursor) == Before(State(), position)
      {
        position := position - 1;
        var id := history[position];
        var index := IndexForId(tabs, id);
        if index.Some? && index.value != active {
          var view;
          view, document := SwitchTo(index.value, document, activeView);
          if view.Err? {
            return Err(view.error), document;
          }
          cursor := position;
          return Ok(Some(view.value)), document;
        }
      }
      r := Ok(None);
    }

    method NavigateForward(activeDocument: T, activeView: View)
      returns (r: Result<Option<View>, TabError>, document: T)
      modifies this
      ensures Outcome(State(), document, r) == TabState.Navigate(old(State()), true, activeDocument, activeView)
      ensures old(Valid()) ==> Valid()
    {
      hide TabRuns.Valid, TabState.SwitchTo, IndexForId;
      TabRuns.NavigateStaysValid(State(), true, activeDocument, activeView);
      document := activeDocument;
      var position := cursor;
      while position + 1 < |history|
        invariant cursor <= position && State() == old(State()) && document == activeDocument
        invariant After(State(), cursor + 1) == After(State(), position + 1)
        decreases |history| - position
      {
        position := position + 1;
        var id := history[position];
        var index := IndexForId(tabs, id);
        if index.Some? && index.value != active {
          var view;
          view, document := SwitchTo(index.value, document, activeView);
          if view.Err? {
            return Err(view.error), document;
          }
          cursor := position;
          return Ok(Some(view.value)), document;
        }
      }
      r := Ok(None);
    }

    method InsertAndActivate(path: Path, workspaceEntry: Option<nat>, newDocument: T, activeDocument: T,
                             activeView: View)
      returns (r: Result<(), TabError>, document: T)
      modifies this
      ensures Outcome(State(), document, r)
           == TabState.InsertAndActivate(old(State()), path, workspaceEntry, newDocument, activeDocument, activeView)
      ensures old(Valid()) ==> Valid()
    {
      hide TabRuns.Valid;
      TabRuns.InsertStaysValid(State(), path, workspaceEntry, newDocument, activeDocument, activeView);
      document := activeDocument;
      if HoldsPath(tabs, path) {
        return Err(DuplicatePath(path)), document;
      }
      if |tabs| >= limits.tabCapacity {
        return Err(CapacityReached(limits.tabCapacity)), document;
      }
      if active >= |tabs| || tabs[active].document.Some? {
        return Err(InvalidPayloadState), document;
      }
      if nextId + 1 > U64_MAX {
        return Err(IdentityExhausted), document;
      }
      var metadata := TabMetadata(Some(path));
      if metadata.Err? {
        return Err(metadata.error), document;
      }
      var bytes := retainedPathBytes + metadata.value.1;
      if bytes > limits.pathByteBudget {
        return Err(PathBudgetExceeded(limits.pathByteBudget)), document;
      }
      tabs := tabs[active := tabs[active].(document := Some(document), deferred := false, view := activeView)];
      document := newDocument;
      var id := nextId;
      tabs := tabs + [Tab(id, Some(path), metadata.value.0, metadata.value.1, workspaceEntry, None, false,
                          DEFAULT_VIEW)];
      active := |tabs| - 1;
      nextId := nextId + 1;
      retainedPathBytes := bytes;
      RecordNavigation(id);
      r := Ok(());
    }

    method CloseActive(activeDocument: T) returns (r: Result<View, TabError>, document: T)
      requires active < |tabs|
      requires forall i, j | 0 <= i < j < |tabs| :: tabs[i].id != tabs[j].id
      modifies this
      ensures Outcome(State(), document, r) == TabState.CloseActive(old(State()), activeDocument)
      ensures old(Valid()) ==> Valid()
    {
      hide TabRuns.Valid;
      TabRuns.CloseStaysValid(State(), activeDocument);
      document := activeDocument;
      if |tabs| == 1 {
        return Err(LastTab), document;
      }
      var closing := active;
      var target := if closing + 1 < |tabs| then closing + 1 else closing - 1;
      var targetId := tabs[target].id;
      var targetView := tabs[target].view;
      var targetDocument := tabs[target].document;
      if targetDocument.None? {
        return Err(InvalidPayloadState), document;
      }
      tabs := tabs[target := tabs[target].(document := None)];
      document := targetDocument.value;
      var removed := tabs[closing];
      tabs := Remove(tabs, closing);
      retainedPathBytes :=
        if removed.pathBytes <= retainedPathBytes then retainedPathBytes - removed.pathBytes else 0;
      var position := IndexForId(tabs, targetId);
      ghost var moved := if target > closing then closing else target;
      assert tabs[moved].id == targetId;
      assert position == Some(moved);
      active := position.value;
      RecordNavigation(targetId);
      r := Ok(targetView);
    }

    /** One operation of a run, on the object: its demands are met whenever the list is valid. */
    method Perform(op: TabRuns.Op<T>, activeDocument: T) returns (document: T)
      requires Valid()
      modifies this
      ensures Valid() && (State(), document) == TabRuns.Step(old(State()), activeDocument, op)
    {
      document := activeDocument;
      match op
      case Insert(path, entry, added, view) =>
        var _, next := InsertAndActivate(path, entry, added, activeDocument, view);
        document := next;
      case Open(index, view) =>
        var _, next := Activate(index, activeDocument, view);
        document := next;
      case Move(forward, view) =>
        if forward {
          var _, next := NavigateForward(activeDocument, view);
          document := next;
        } else {
          var _, next := NavigateBack(activeDocument, view);
          document := next;
        }
      case Load(index, loaded) =>
        var _ := Materialize(index, loaded);
      case Close =>
        var _, next := CloseActive(activeDocument);
        document := next;
      case Reset =>
        var _ := ResetActiveToScratch();
    }
  }
}
