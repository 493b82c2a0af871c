/** What every operation on the tabs keeps, and what whole runs of them guarantee. */
module TabRuns {
  import opened Machine
  import opened Wrappers
  import opened TabState
  import Text

  ghost function TotalBytes<T>(tabs: seq<Tab<T>>): nat {
    if tabs == [] then 0 else TotalBytes(tabs[..|tabs| - 1]) + tabs[|tabs| - 1].pathBytes
  }

  ghost predicate DistinctIds<T>(tabs: seq<Tab<T>>) {
    forall i, j | 0 <= i < j < |tabs| :: tabs[i].id != tabs[j].id
  }

  ghost predicate DistinctPaths<T>(tabs: seq<Tab<T>>) {
    forall i, j | 0 <= i < |tabs| && 0 <= j < |tabs| && i != j && tabs[j].path.Some? ::
      !SamePath(tabs[i].path, tabs[j].path.value)
  }

  /** A tab carries the metadata of its path, and an inactive one either stores its
      document or is still deferred. */
  ghost predicate ValidTab<T>(tab: Tab<T>, active: bool) {
    && tab.title == Label(tab.path)
    && tab.pathBytes == PathBytes(tab.path)
    && (if active then tab.document.None? && !tab.deferred else tab.document.Some? != tab.deferred)
  }

  ghost predicate ValidTabs<T>(s: State<T>) {
    && ValidLimits(s.limits)
    && s.active < |s.tabs| <= s.limits.tabCapacity
    && (forall k | 0 <= k < |s.tabs| :: ValidTab(s.tabs[k], k == s.active))
    && DistinctIds(s.tabs) && DistinctPaths(s.tabs)
    && (forall k | 0 <= k < |s.tabs| :: 0 < s.tabs[k].id < s.nextId)
    && s.retainedPathBytes == TotalBytes(s.tabs) <= s.limits.pathByteBudget
  }

  ghost predicate ValidHistory<T>(s: State<T>) {
    && s.cursor < |s.history| <= s.limits.historyCapacity
    && (forall k | 0 <= k < |s.history| :: 0 < s.history[k] < s.nextId)
  }

  ghost predicate Valid<T>(s: State<T>) {
    && ValidTabs(s) && ValidHistory(s)
    && s.history[s.cursor] == s.tabs[s.active].id
  }

  /** Equal but for the payload: where the document is, and optionally the saved view. */
  ghost predicate SameTab<T>(a: Tab<T>, b: Tab<T>, sameView: bool) {
    && (a.id, a.path, a.title, a.workspaceEntry) == (b.id, b.path, b.title, b.workspaceEntry)
    && (sameView ==> a.view == b.view)
  }

  /** What a tab holds, counting the caller's document as the active tab's. */
  datatype Content<T> = Present(document: T) | Deferred

  ghost function ContentAt<T>(s: State<T>, document: T, k: nat): Content<T>
    requires k < |s.tabs|
  {
    if k == s.active then Present(document)
    else if s.tabs[k].document.Some? then Present(s.tabs[k].document.value)
    else Deferred
  }

  /** The map from open tab ids to their documents. */
  ghost function Documents<T>(s: State<T>, document: T): map<nat, Content<T>> {
    map id | id in (set k | 0 <= k < |s.tabs| :: s.tabs[k].id) ::
      ContentAt(s, document, IndexForId(s.tabs, id).value)
  }

  /** What a tab is called and how many bytes it takes of the budget; paths are the same if their
      components are. */
  lemma TabMeans<T>(s: State<T>, k: nat, path: Path)
    requires Valid(s) && k < |s.tabs|
    ensures var tab := s.tabs[k];
            && (tab.path == None ==> tab.title == "Untitled" && tab.pathBytes == 0)
            && (tab.path.Some? ==>
                  && tab.title == (match tab.path.value.fileName case Some(name) => name case None => "Untitled")
                  && tab.pathBytes == tab.path.value.encodedBytes + Text.Len(Text.Utf8, tab.title))
            && (tab.path.Some? && tab.path.value.components == path.components ==> HoldsPath(s.tabs, path))
    ensures HoldsPath(s.tabs, path) ==>
              exists j | 0 <= j < |s.tabs| :: s.tabs[j].path.Some? && s.tabs[j].path.value.components == path.components
  {
    hide DistinctIds, DistinctPaths, TotalBytes, ValidHistory;
    assert ValidTab(s.tabs[k], k == s.active);
  }

  lemma DocumentsAt<T>(s: State<T>, document: T, k: nat)
    requires DistinctIds(s.tabs) && k < |s.tabs|
    ensures IndexForId(s.tabs, s.tabs[k].id) == Some(k)
    ensures s.tabs[k].id in Documents(s, document)
    ensures Documents(s, document)[s.tabs[k].id] == ContentAt(s, document, k)
  {
    assert s.tabs[k].id in (set j | 0 <= j < |s.tabs| :: s.tabs[j].id);
  }

  lemma DocumentsOnly<T>(s: State<T>, document: T, id: nat)
    ensures id in Documents(s, document) <==> IndexForId(s.tabs, id).Some?
  {
  }

  /** The map is determined by ids and contents, tab by tab. */
  lemma DocumentsAre<T>(s: State<T>, document: T, m: map<nat, Content<T>>)
    requires DistinctIds(s.tabs)
    requires forall k | 0 <= k < |s.tabs| :: s.tabs[k].id in m && m[s.tabs[k].id] == ContentAt(s, document, k)
    requires forall id | id in m :: IndexForId(s.tabs, id).Some?
    ensures Documents(s, document) == m
  {
    var d := Documents(s, document);
    forall id ensures id in d <==> id in m {
      DocumentsOnly(s, document, id);
    }
    forall id | id in m ensures d[id] == m[id] {
      DocumentsAt(s, document, IndexForId(s.tabs, id).value);
    }
  }

  lemma SameDocuments<T>(s: State<T>, document: T, s': State<T>, document': T)
    requires DistinctIds(s.tabs) && DistinctIds(s'.tabs) && |s.tabs| == |s'.tabs|
    requires forall k | 0 <= k < |s.tabs| ::
               s.tabs[k].id == s'.tabs[k].id && ContentAt(s, document, k) == ContentAt(s', document', k)
    ensures Documents(s', document') == Documents(s, document)
  {
    hide Documents, ContentAt;
    var m := Documents(s, document);
    forall k | 0 <= k < |s'.tabs| ensures s'.tabs[k].id in m && m[s'.tabs[k].id] == ContentAt(s', document', k) {
      DocumentsAt(s, document, k);
    }
    forall id | id in m ensures IndexForId(s'.tabs, id).Some? {
      DocumentsOnly(s, document, id);
      assert s'.tabs[IndexForId(s.tabs, id).value].id == id;
    }
    DocumentsAre(s', document', m);
  }

  lemma {:induction false} TotalBytesUpdate<T>(tabs: seq<Tab<T>>, k: nat, tab: Tab<T>)
    requires k < |tabs|
    ensures TotalBytes(tabs[k := tab]) == TotalBytes(tabs) - tabs[k].pathBytes + tab.pathBytes
  {
    var n := |tabs| - 1;
    if k == n {
      assert tabs[k := tab][..n] == tabs[..n];
    } else {
      assert tabs[k := tab][..n] == tabs[..n][k := tab];
      TotalBytesUpdate(tabs[..n], k, tab);
    }
  }

  lemma TotalBytesAppend<T>(tabs: seq<Tab<T>>, tab: Tab<T>)
    ensures TotalBytes(tabs + [tab]) == TotalBytes(tabs) + tab.pathBytes
  {
    assert (tabs + [tab])[..|tabs|] == tabs;
  }

  lemma {:induction false} TotalBytesRemove<T>(tabs: seq<Tab<T>>, k: nat)
    requires k < |tabs|
    ensures TotalBytes(Remove(tabs, k)) == TotalBytes(tabs) - tabs[k].pathBytes
  {
    var n := |tabs| - 1;
    if k == n {
      assert Remove(tabs, k) == tabs[..n];
    } else {
      assert Remove(tabs, k)[..n - 1] == Remove(tabs[..n], k);
      TotalBytesRemove(tabs[..n], k);
    }
  }

  /** Updating tabs in place keeps the invariant while ids stay and no path appears. */
  lemma UpdateIsValid<T>(s: State<T>, s': State<T>)
    requires ValidTabs(s) && |s'.tabs| == |s.tabs| && s'.active < |s.tabs|
    requires s'.limits == s.limits && s'.nextId == s.nextId
    requires forall k | 0 <= k < |s.tabs| ::
               && s'.tabs[k].id == s.tabs[k].id
               && (s'.tabs[k].path == s.tabs[k].path || s'.tabs[k].path == None)
               && ValidTab(s'.tabs[k], k == s'.active)
    requires s'.retainedPathBytes == TotalBytes(s'.tabs) <= s.limits.pathByteBudget
    ensures ValidTabs(s')
  {
    hide TotalBytes, ValidTab;
    forall i, j | 0 <= i < |s'.tabs| && 0 <= j < |s'.tabs| && i != j && s'.tabs[j].path.Some?
      ensures !SamePath(s'.tabs[i].path, s'.tabs[j].path.value)
    {
      assert !SamePath(s.tabs[i].path, s.tabs[j].path.value);
    }
  }

  // --------------------------------------------------------------- switching

  lemma SwitchSucceeds<T>(s: State<T>, index: nat, document: T, view: View)
    requires ValidTabs(s) && index != s.active
    ensures var o := SwitchTo(s, index, document, view);
            && (o.result.Ok? <==> index < |s.tabs| && !s.tabs[index].deferred)
            && (o.result.Err? ==> o.state == s && o.document == document)
            && (o.result.Ok? ==>
                  && o.result.value == s.tabs[index].view
                  && o.state.active == index
                  && s.tabs[index].document == Some(o.document))
  {
    if index < |s.tabs| {
      assert ValidTab(s.tabs[index], false);
      assert ValidTab(s.tabs[s.active], true);
    }
  }

  /** Switching moves two payloads and changes nothing else. */
  lemma SwitchKeeps<T>(s: State<T>, index: nat, document: T, view: View)
    requires ValidTabs(s) && index != s.active
    ensures var o := SwitchTo(s, index, document, view);
            && ValidTabs(o.state)
            && Documents(o.state, o.document) == Documents(s, document)
            && |o.state.tabs| == |s.tabs|
            && (forall k | 0 <= k < |s.tabs| :: SameTab(o.state.tabs[k], s.tabs[k], k != s.active))
            && (o.result.Ok? ==> o.state.tabs[s.active].view == view)
            && (o.state.nextId, o.state.history, o.state.cursor, o.state.limits)
               == (s.nextId, s.history, s.cursor, s.limits)
  {
    hide Documents, TotalBytes, DistinctPaths;
    SwitchSucceeds(s, index, document, view);
    var o := SwitchTo(s, index, document, view);
    if o.result.Ok? {
      var tabs := s.tabs;
      var target := tabs[index].(document := None);
      var left := tabs[s.active].(document := Some(document), deferred := false, view := view);
      assert o.state.tabs == tabs[index := target][s.active := left];
      TotalBytesUpdate(tabs, index, target);
      TotalBytesUpdate(tabs[index := target], s.active, left);
      assert forall k | 0 <= k < |tabs| :: ValidTab(tabs[k], k == s.active);
      UpdateIsValid(s, o.state);
      SameDocuments(s, document, o.state, o.document);
    }
  }

  /** The history after a visit: unchanged if it is where one already is, and otherwise the
      last `historyCapacity` entries of the path taken so far, with the visit at its end and
      nothing ahead. */
  ghost predicate Visited<T>(s: State<T>, id: nat, s': State<T>)
    requires s.cursor < |s.history|
  {
    var path := s.history[..s.cursor + 1] + [id];
    var dropped := if |path| > s.limits.historyCapacity then |path| - s.limits.historyCapacity else 0;
    if s.history[s.cursor] == id then s'.history == s.history && s'.cursor == s.cursor
    else s'.history == path[dropped..] && s'.cursor + 1 == |s'.history|
  }

  lemma RecordKeeps<T>(s: State<T>, id: nat)
    requires ValidLimits(s.limits) && ValidHistory(s) && 0 < id < s.nextId
    ensures var r := RecordNavigation(s, id);
            && Visited(s, id, r)
            && ValidHistory(r) && r.history[r.cursor] == id
            && r == s.(history := r.history, cursor := r.cursor)
  {
    if s.cursor + 1 == |s.history| {
      assert s.history[..s.cursor + 1] == s.history;
    }
  }

  // ---------------------------------------------------- one operation at a time

  lemma NewIsValid<T>(path: Option<Path>, workspaceEntry: Option<nat>, limits: Limits)
    ensures var r := TabState.New<T>(path, workspaceEntry, limits);
            && (r.Ok? <==>
                  ValidLimits(limits) && PathBytes(path) <= USIZE_MAX && PathBytes(path) <= limits.pathByteBudget)
            && (r.Ok? ==> Valid(r.value))
  {
  }

  lemma NewHoldsDocument<T>(path: Option<Path>, workspaceEntry: Option<nat>, limits: Limits, document: T)
    requires TabState.New<T>(path, workspaceEntry, limits).Ok?
    ensures Documents(TabState.New<T>(path, workspaceEntry, limits).value, document) == map[1 := Present(document)]
  {
    DocumentsAt(TabState.New<T>(path, workspaceEntry, limits).value, document, 0);
  }

  lemma ActivateKeeps<T>(s: State<T>, index: nat, document: T, view: View)
    requires Valid(s)
    ensures var o := Activate(s, index, document, view);
            && Valid(o.state)
            && Documents(o.state, o.document) == Documents(s, document)
            && o.state.nextId == s.nextId
            && (o.result.Ok? <==> index == s.active || (index < |s.tabs| && !s.tabs[index].deferred))
            && (o.result.Ok? ==> o.state.active == index)
            && (o.result.Err? ==> o.state == s && o.document == document)
  {
    hide Documents, TotalBytes, DistinctPaths, Visited;
    if index != s.active && index < |s.tabs| {
      SwitchKeeps(s, index, document, view);
      SwitchSucceeds(s, index, document, view);
      var o := SwitchTo(s, index, document, view);
      RecordKeeps(o.state, s.tabs[index].id);
      if o.result.Ok? {
        var r := RecordNavigation(o.state, s.tabs[index].id);
        assert Documents(r, o.document) == Documents(o.state, o.document) by {
          SameDocuments(o.state, o.document, r, o.document);
        }
      }
    }
  }

  /** The visit before the last is remembered exactly when there is room for two. */
  lemma VisitBefore<T>(s: State<T>, id: nat, r: State<T>)
    requires ValidLimits(s.limits) && ValidHistory(s) && s.history[s.cursor] != id && Visited(s, id, r)
    ensures |r.history| == r.cursor + 1
    ensures s.limits.historyCapacity >= 2 ==> r.cursor > 0 && r.history[r.cursor - 1] == s.history[s.cursor]
    ensures s.limits.historyCapacity == 1 ==> r.cursor == 0
  {
  }

  /** Going back after opening another tab returns to the one left, exactly when the
      history can hold both. */
  lemma BackAfterActivate<T>(s: State<T>, index: nat, document: T, view: View)
    requires Valid(s) && index != s.active && Activate(s, index, document, view).result.Ok?
    ensures NavigationTarget(Activate(s, index, document, view).state, false) == Some(s.active)
            <==> s.limits.historyCapacity >= 2
  {
    hide Documents, TotalBytes, DistinctPaths, ValidTab, Visited, RecordNavigation;
    SwitchKeeps(s, index, document, view);
    SwitchSucceeds(s, index, document, view);
    var o := SwitchTo(s, index, document, view);
    var id := s.tabs[index].id;
    assert s.tabs[s.active].id != id;
    RecordKeeps(o.state, id);
    var r := RecordNavigation(o.state, id);
    VisitBefore(o.state, id, r);
    if s.limits.historyCapacity >= 2 {
      assert o.state.tabs[s.active].id == s.tabs[s.active].id;
      assert IndexForId(r.tabs, s.tabs[s.active].id) == Some(s.active);
      assert Usable(r, r.history[r.cursor - 1]);
    }
  }

  /** Navigation goes exactly to its target, and moves exactly when there is one that is
      not deferred. */
  lemma NavigateKeeps<T>(s: State<T>, forward: bool, document: T, view: View)
    requires Valid(s)
    ensures var o := Navigate(s, forward, document, view);
            var target := NavigationTarget(s, forward);
            && Valid(o.state)
            && Documents(o.state, o.document) == Documents(s, document)
            && (o.state.nextId, o.state.history) == (s.nextId, s.history)
            && (target.Some? <==> CanNavigate(s, forward))
            && (o.result == Ok(None) <==> target == None)
            && (o.result.Err? <==> target.Some? && s.tabs[target.value].deferred)
            && (target.Some? && o.result.Ok? ==> o.state.active == target.value != s.active)
            && (target.None? || o.result.Err? ==> o.state == s && o.document == document)
  {
    hide Documents, TotalBytes, DistinctPaths;
    var position := TargetPosition(s, forward);
    if position.Some? {
      assert Usable(s, s.history[position.value]);
      var index := IndexForId(s.tabs, s.history[position.value]).value;
      SwitchKeeps(s, index, document, view);
      SwitchSucceeds(s, index, document, view);
      var o := SwitchTo(s, index, document, view);
      var moved := o.state.(cursor := position.value);
      SameDocuments(o.state, o.document, moved, o.document);
    }
  }

  lemma InsertKeeps<T>(s: State<T>, path: Path, workspaceEntry: Option<nat>, newDocument: T, document: T, view: View)
    requires Valid(s)
    ensures var o := InsertAndActivate(s, path, workspaceEntry, newDocument, document, view);
            && Valid(o.state)
            && (o.result.Err? ==> o.state == s && o.document == document)
            && (o.result.Ok? ==>
                  && o.state.nextId == s.nextId + 1
                  && o.state.tabs[o.state.active].id == s.nextId
                  && SamePath(o.state.tabs[o.state.active].path, path)
                  && o.state.tabs[o.state.active].workspaceEntry == workspaceEntry
                  && |o.state.tabs| == |s.tabs| + 1 && o.state.active == |s.tabs|
                  && (forall k | 0 <= k < |s.tabs| :: SameTab(o.state.tabs[k], s.tabs[k], k != s.active))
                  && o.state.tabs[s.active].view == view
                  && o.state.tabs[|s.tabs|].view == DEFAULT_VIEW
                  && s.nextId !in Documents(s, document)
                  && Documents(o.state, o.document) == Documents(s, document)[s.nextId := Present(newDocument)])
  {
    hide Documents, DistinctPaths, TotalBytes, RecordNavigation, Visited;
    var o := InsertAndActivate(s, path, workspaceEntry, newDocument, document, view);
    if o.result.Ok? {
      var n := |s.tabs|;
      var left := s.tabs[s.active].(document := Some(document), deferred := false, view := view);
      var tabs := s.tabs[s.active := left];
      var added := Tab(s.nextId, Some(path), Label(Some(path)), PathBytes(Some(path)), workspaceEntry, None, false,
                       DEFAULT_VIEW);
      var next := s.(tabs := tabs + [added], active := n, nextId := s.nextId + 1,
                     retainedPathBytes := s.retainedPathBytes + PathBytes(Some(path)));
      RecordKeeps(next, s.nextId);
      assert o.state == RecordNavigation(next, s.nextId);
      TotalBytesUpdate(s.tabs, s.active, left);
      TotalBytesAppend(tabs, added);
      assert forall k | 0 <= k < n :: ValidTab(s.tabs[k], k == s.active);
      InsertIsValid(s, path, o.state);
      InsertedDocuments(s, document, o.state, newDocument);
    }
  }

  /** Inserting succeeds exactly for a path of its own, within the four limits. */
  lemma InsertSucceeds<T>(s: State<T>, path: Path, workspaceEntry: Option<nat>, newDocument: T, document: T, view: View)
    requires Valid(s)
    ensures InsertAndActivate(s, path, workspaceEntry, newDocument, document, view).result.Ok? <==>
              && !HoldsPath(s.tabs, path) && |s.tabs| < s.limits.tabCapacity && s.nextId < U64_MAX
              && PathBytes(Some(path)) <= USIZE_MAX
              && TotalBytes(s.tabs) + PathBytes(Some(path)) <= s.limits.pathByteBudget
  {
    hide TotalBytes, DistinctPaths, DistinctIds, ValidHistory;
    assert ValidTab(s.tabs[s.active], true);
  }

  /** Recording reads and writes the history alone. */
  lemma RecordVisits<T>(s: State<T>, id: nat, s': State<T>)
    requires s.cursor < |s.history| <= s.limits.historyCapacity
    requires (s'.history, s'.cursor, s'.limits) == (s.history, s.cursor, s.limits)
    ensures Visited(s, id, RecordNavigation(s', id))
  {
    if s.cursor + 1 == |s.history| {
      assert s.history[..s.cursor + 1] == s.history;
    }
  }

  /** Activating, inserting and closing each add one visit to the history, of the tab they
      leave active. */
  lemma ActivateVisits<T>(s: State<T>, index: nat, document: T, view: View)
    requires Valid(s) && index != s.active && Activate(s, index, document, view).result.Ok?
    ensures Visited(s, s.tabs[index].id, Activate(s, index, document, view).state)
  {
    hide DistinctIds, DistinctPaths, TotalBytes, ValidTab, RecordNavigation, Visited;
    RecordVisits(s, s.tabs[index].id, SwitchTo(s, index, document, view).state);
  }

  lemma InsertVisits<T>(s: State<T>, path: Path, entry: Option<nat>, newDocument: T, document: T, view: View)
    requires Valid(s) && InsertAndActivate(s, path, entry, newDocument, document, view).result.Ok?
    ensures Visited(s, s.nextId, InsertAndActivate(s, path, entry, newDocument, document, view).state)
  {
    hide DistinctIds, DistinctPaths, TotalBytes, ValidTab, RecordNavigation, Visited;
    forall next: State<T> | (next.history, next.cursor, next.limits) == (s.history, s.cursor, s.limits)
      ensures Visited(s, s.nextId, RecordNavigation(next, s.nextId))
    {
      RecordVisits(s, s.nextId, next);
    }
  }

  lemma CloseVisits<T>(s: State<T>, document: T)
    requires Valid(s) && CloseActive(s, document).result.Ok?
    ensures Visited(s, s.tabs[CloseTarget(s).value].id, CloseActive(s, document).state)
  {
    hide DistinctIds, DistinctPaths, TotalBytes, ValidTab, RecordNavigation, Visited;
    var id := s.tabs[CloseTarget(s).value].id;
    forall next: State<T> | (next.history, next.cursor, next.limits) == (s.history, s.cursor, s.limits)
      ensures Visited(s, id, RecordNavigation(next, id))
    {
      RecordVisits(s, id, next);
    }
  }

  lemma InsertIsValid<T>(s: State<T>, path: Path, s': State<T>)
    requires Valid(s) && |s'.tabs| == |s.tabs| + 1 && s'.active == |s.tabs| < s.limits.tabCapacity
    requires s'.limits == s.limits && s'.nextId == s.nextId + 1
    requires !HoldsPath(s.tabs, path)
    requires var added := s'.tabs[|s.tabs|];
             added.id == s.nextId && added.path == Some(path) && ValidTab(added, true)
    requires forall k | 0 <= k < |s.tabs| ::
               && s'.tabs[k].id == s.tabs[k].id && s'.tabs[k].path == s.tabs[k].path
               && ValidTab(s'.tabs[k], false)
    requires s'.retainedPathBytes == TotalBytes(s'.tabs) <= s.limits.pathByteBudget
    requires ValidHistory(s') && s'.history[s'.cursor] == s.nextId
    ensures Valid(s')
  {
    hide TotalBytes, ValidTab;
    forall i, j | 0 <= i < |s'.tabs| && 0 <= j < |s'.tabs| && i != j && s'.tabs[j].path.Some?
      ensures !SamePath(s'.tabs[i].path, s'.tabs[j].path.value)
    {
      if j == |s.tabs| {
        assert !SamePath(s.tabs[i].path, path);
      } else if i == |s.tabs| {
        assert !SamePath(s.tabs[j].path, path);
      } else {
        assert !SamePath(s.tabs[i].path, s.tabs[j].path.value);
      }
    }
  }

  lemma InsertedDocuments<T>(s: State<T>, document: T, s': State<T>, document': T)
    requires Valid(s) && DistinctIds(s'.tabs) && |s'.tabs| == |s.tabs| + 1 && s'.active == |s.tabs|
    requires s'.tabs[|s.tabs|].id == s.nextId
    requires forall k | 0 <= k < |s.tabs| ::
               s'.tabs[k].id == s.tabs[k].id && ContentAt(s', document', k) == ContentAt(s, document, k)
    ensures s.nextId !in Documents(s, document)
    ensures Documents(s', document') == Documents(s, document)[s.nextId := Present(document')]
  {
    hide Documents, ContentAt;
    var m := Documents(s, document);
    DocumentsOnly(s, document, s.nextId);
    var m' := m[s.nextId := Present(document')];
    forall k | 0 <= k < |s'.tabs| ensures s'.tabs[k].id in m' && m'[s'.tabs[k].id] == ContentAt(s', document', k) {
      if k < |s.tabs| {
        DocumentsAt(s, document, k);
      } else {
        ActiveContent(s', document');
      }
    }
    forall id | id in m' ensures IndexForId(s'.tabs, id).Some? {
      DocumentsOnly(s, document, id);
      var index := IndexForId(s.tabs, id);
      assert s'.tabs[if id == s.nextId then |s.tabs| else index.value].id == id;
    }
    DocumentsAre(s', document', m');
  }

  lemma ActiveContent<T>(s: State<T>, document: T)
    requires s.active < |s.tabs|
    ensures ContentAt(s, document, s.active) == Present(document)
  {
  }

  lemma CloseKeeps<T>(s: State<T>, document: T)
    requires Valid(s)
    ensures var o := CloseActive(s, document);
            var target := CloseTarget(s);
            && Valid(o.state)
            && o.state.nextId == s.nextId
            && (o.result.Err? <==> |s.tabs| == 1 || s.tabs[target.value].deferred)
            && (o.result.Err? ==> o.state == s && o.document == document)
            && (o.result.Ok? ==>
                  && o.result.value == s.tabs[target.value].view
                  && |o.state.tabs| == |s.tabs| - 1 && Shifted(s.active, o.state.active) == target.value
                  && o.state.active == (if s.active < |o.state.tabs| then s.active else |o.state.tabs| - 1)
                  && (forall k | 0 <= k < |o.state.tabs| ::
                        SameTab(o.state.tabs[k], s.tabs[Shifted(s.active, k)], true))
                  && Documents(o.state, o.document) == Documents(s, document) - {s.tabs[s.active].id})
  {
    hide Documents, TotalBytes, DistinctPaths, RecordNavigation, Visited;
    var o := CloseActive(s, document);
    var target := CloseTarget(s);
    if target.Ok? {
      assert ValidTab(s.tabs[target.value], false);
    }
    if o.result.Ok? {
      var tab := s.tabs[target.value].(document := None);
      var tabs := s.tabs[target.value := tab];
      TotalBytesUpdate(s.tabs, target.value, tab);
      TotalBytesRemove(tabs, s.active);
      TotalBytesBound(s.tabs, s.active);
      var next := s.(tabs := Remove(tabs, s.active),
                     active := if target.value > s.active then s.active else target.value,
                     retainedPathBytes := s.retainedPathBytes - s.tabs[s.active].pathBytes);
      RecordKeeps(next, tab.id);
      assert o.state == RecordNavigation(next, tab.id);
      CloseIsValid(s, target.value, o.state);
      ClosedDocuments(s, document, o.state, o.document);
    }
  }

  /** Where the tab at k goes when the one at `removed` leaves. */
  ghost function Shifted(removed: nat, k: nat): nat {
    if k < removed then k else k + 1
  }

  lemma CloseIsValid<T>(s: State<T>, target: nat, s': State<T>)
    requires Valid(s) && |s'.tabs| == |s.tabs| - 1 && target < |s.tabs| && target != s.active
    requires s'.limits == s.limits && s'.nextId == s.nextId
    requires s'.active < |s'.tabs| && Shifted(s.active, s'.active) == target
    requires forall k | 0 <= k < |s'.tabs| ::
               s'.tabs[k] == if k == s'.active then s.tabs[target].(document := None) else s.tabs[Shifted(s.active, k)]
    requires !s.tabs[target].deferred
    requires s'.retainedPathBytes == TotalBytes(s'.tabs) <= s.limits.pathByteBudget
    requires ValidHistory(s') && s'.history[s'.cursor] == s.tabs[target].id
    ensures Valid(s')
  {
    hide TotalBytes, ValidTab;
    forall k | 0 <= k < |s'.tabs|
      ensures ValidTab(s'.tabs[k], k == s'.active)
      ensures 0 < s'.tabs[k].id < s'.nextId
    {
      KeptTabIsValid(s, target, Shifted(s.active, k));
    }
    forall i, j | 0 <= i < |s'.tabs| && 0 <= j < |s'.tabs| && i != j && s'.tabs[j].path.Some?
      ensures !SamePath(s'.tabs[i].path, s'.tabs[j].path.value)
    {
      var i', j' := Shifted(s.active, i), Shifted(s.active, j);
      assert !SamePath(s.tabs[i'].path, s.tabs[j'].path.value);
    }
    forall i, j | 0 <= i < j < |s'.tabs| ensures s'.tabs[i].id != s'.tabs[j].id {
      assert s.tabs[Shifted(s.active, i)].id != s.tabs[Shifted(s.active, j)].id;
    }
  }

  lemma KeptTabIsValid<T>(s: State<T>, target: nat, k: nat)
    requires ValidTabs(s) && k < |s.tabs| && k != s.active && target < |s.tabs| && target != s.active
    ensures ValidTab(s.tabs[k], false)
    ensures !s.tabs[target].deferred ==> ValidTab(s.tabs[target].(document := None), true)
  {
    assert ValidTab(s.tabs[k], false) && ValidTab(s.tabs[target], false);
  }

  lemma ClosedDocuments<T>(s: State<T>, document: T, s': State<T>, document': T)
    requires DistinctIds(s.tabs) && DistinctIds(s'.tabs) && |s'.tabs| == |s.tabs| - 1 && s.active < |s.tabs|
    requires forall k | 0 <= k < |s'.tabs| ::
               && s'.tabs[k].id == s.tabs[Shifted(s.active, k)].id
               && ContentAt(s', document', k) == ContentAt(s, document, Shifted(s.active, k))
    ensures Documents(s', document') == Documents(s, document) - {s.tabs[s.active].id}
  {
    hide Documents, ContentAt;
    var m := Documents(s, document);
    var m' := m - {s.tabs[s.active].id};
    forall k | 0 <= k < |s'.tabs| ensures s'.tabs[k].id in m' && m'[s'.tabs[k].id] == ContentAt(s', document', k) {
      DocumentsAt(s, document, Shifted(s.active, k));
    }
    forall id | id in m' ensures IndexForId(s'.tabs, id).Some? {
      DocumentsOnly(s, document, id);
      var k := IndexForId(s.tabs, id).value;
      assert s'.tabs[if k < s.active then k else k - 1].id == id;
    }
    DocumentsAre(s', document', m');
  }

  lemma MaterializeKeeps<T>(s: State<T>, index: nat, loaded: T, document: T)
    requires Valid(s)
    ensures var (s', r) := Materialize(s, index, loaded);
            && Valid(s') && s'.nextId == s.nextId
            && (r.Ok? <==> index < |s.tabs| && s.tabs[index].deferred)
            && (r.Err? ==> s' == s)
            && (r.Ok? ==> Documents(s', document) == Documents(s, document)[s.tabs[index].id := Present(loaded)])
  {
    hide Documents, TotalBytes, DistinctPaths;
    var (s', r) := Materialize(s, index, loaded);
    if index < |s.tabs| {
      assert ValidTab(s.tabs[index], index == s.active);
    }
    if r.Ok? {
      TotalBytesUpdate(s.tabs, index, s'.tabs[index]);
      assert forall k | 0 <= k < |s.tabs| :: ValidTab(s.tabs[k], k == s.active);
      UpdateIsValid(s, s');
      MaterializedDocuments(s, index, loaded, document, s');
    }
  }

  lemma MaterializedDocuments<T>(s: State<T>, index: nat, loaded: T, document: T, s': State<T>)
    requires DistinctIds(s.tabs) && DistinctIds(s'.tabs) && |s'.tabs| == |s.tabs| && index < |s.tabs|
    requires forall k | 0 <= k < |s.tabs| ::
               && s'.tabs[k].id == s.tabs[k].id
               && ContentAt(s', document, k) == if k == index then Present(loaded) else ContentAt(s, document, k)
    ensures Documents(s', document) == Documents(s, document)[s.tabs[index].id := Present(loaded)]
  {
    hide Documents, ContentAt;
    var m := Documents(s, document);
    var m' := m[s.tabs[index].id := Present(loaded)];
    forall k | 0 <= k < |s'.tabs| ensures s'.tabs[k].id in m' && m'[s'.tabs[k].id] == ContentAt(s', document, k) {
      DocumentsAt(s, document, k);
    }
    forall id | id in m' ensures IndexForId(s'.tabs, id).Some? {
      DocumentsOnly(s, document, id);
      DocumentsAt(s, document, index);
      assert s'.tabs[IndexForId(s.tabs, id).value].id == id;
    }
    DocumentsAre(s', document, m');
  }

  lemma ResetIsValid<T>(s: State<T>)
    requires Valid(s)
    ensures Valid(ResetActiveToScratch(s).0)
  {
    hide TotalBytes, DistinctPaths;
    var (s', r) := ResetActiveToScratch(s);
    TotalBytesUpdate(s.tabs, s.active, s'.tabs[s.active]);
    TotalBytesBound(s.tabs, s.active);
    assert forall k | 0 <= k < |s.tabs| :: ValidTab(s.tabs[k], k == s.active);
    UpdateIsValid(s, s');
  }

  lemma ResetKeeps<T>(s: State<T>, document: T)
    requires Valid(s)
    ensures var (s', r) := ResetActiveToScratch(s);
            && Valid(s') && s'.nextId == s.nextId && r.Ok?
            && s'.tabs[s'.active].path == None && s'.tabs[s'.active].id == s.tabs[s.active].id
            && Documents(s', document) == Documents(s, document)
  {
    hide Documents, TotalBytes, DistinctPaths;
    var (s', r) := ResetActiveToScratch(s);
    ResetIsValid(s);
    SameDocuments(s, document, s', document);
  }

  lemma {:induction false} TotalBytesBound<T>(tabs: seq<Tab<T>>, k: nat)
    requires k < |tabs|
    ensures tabs[k].pathBytes <= TotalBytes(tabs)
  {
    if k < |tabs| - 1 {
      TotalBytesBound(tabs[..|tabs| - 1], k);
    }
  }

  /** Restoring accepts exactly a non-empty list within the limits whose paths differ;
      every tab but the active one then waits for its document. */
  lemma RestoredIsValid<T>(restored: seq<RestoredTab>, active: nat, limits: Limits)
    ensures var r := FromRestored<T>(restored, active, limits);
            && (r.Ok? <==>
                  && ValidLimits(limits) && active < |restored| <= limits.tabCapacity
                  && (forall k | 0 <= k < |restored| :: PathBytes(restored[k].path) <= USIZE_MAX)
                  && (forall j, k | 0 <= j < k < |restored| && restored[k].path.Some? ::
                        !SamePath(restored[j].path, restored[k].path.value))
                  && RestoredBytes(restored, |restored|) <= limits.pathByteBudget)
            && (r.Ok? ==>
                  && Valid(r.value) && |r.value.tabs| == |restored| && r.value.active == active
                  && forall k | 0 <= k < |restored| ::
                       && r.value.tabs[k].deferred == (k != active)
                       && r.value.tabs[k].path == restored[k].path && r.value.tabs[k].view == restored[k].view)
  {
    NoRestoreError(restored, limits, 0);
    if |restored| > 0 {
      forall k | 0 < k <= |restored| ensures RestoredBytes(restored, k) <= RestoredBytes(restored, |restored|) {
        RestoredBytesMonotone(restored, k, |restored|);
      }
      RestoreErrors(restored, limits);
    }
    var r := FromRestored<T>(restored, active, limits);
    if r.Ok? {
      RestoredTotal<T>(restored, active, |restored|);
      RestoredTabsAreValid(restored, active, r.value);
    }
  }

  lemma {:induction false} NoRestoreError(restored: seq<RestoredTab>, limits: Limits, k: nat)
    requires k <= |restored|
    ensures FirstRestoreError(restored, limits, k).None? <==>
            forall j | k <= j < |restored| :: RestoreError(restored, limits, j).None?
    decreases |restored| - k
  {
    if k < |restored| && RestoreError(restored, limits, k).None? {
      NoRestoreError(restored, limits, k + 1);
    }
  }

  lemma RestoreErrors(restored: seq<RestoredTab>, limits: Limits)
    requires |restored| > 0
    requires forall k | 0 < k <= |restored| :: RestoredBytes(restored, k) <= RestoredBytes(restored, |restored|)
    ensures (forall j | 0 <= j < |restored| :: RestoreError(restored, limits, j).None?) <==>
            && (forall k | 0 <= k < |restored| :: PathBytes(restored[k].path) <= USIZE_MAX)
            && (forall j, k | 0 <= j < k < |restored| && restored[k].path.Some? ::
                  !SamePath(restored[j].path, restored[k].path.value))
            && RestoredBytes(restored, |restored|) <= limits.pathByteBudget
  {
    hide RestoredBytes, PathBytes, SamePath;
    if forall j | 0 <= j < |restored| :: RestoreError(restored, limits, j).None? {
      assert RestoreError(restored, limits, |restored| - 1).None?;
      forall k | 0 <= k < |restored| ensures PathBytes(restored[k].path) <= USIZE_MAX {
        assert RestoreError(restored, limits, k).None?;
      }
      forall j, k | 0 <= j < k < |restored| && restored[k].path.Some?
        ensures !SamePath(restored[j].path, restored[k].path.value)
      {
        assert RestoreError(restored, limits, k).None?;
      }
    }
  }

  lemma {:induction false} RestoredBytesMonotone(restored: seq<RestoredTab>, j: nat, k: nat)
    requires j <= k <= |restored|
    ensures RestoredBytes(restored, j) <= RestoredBytes(restored, k)
  {
    if j < k {
      RestoredBytesMonotone(restored, j, k - 1);
    }
  }

  lemma {:induction false} RestoredTotal<T>(restored: seq<RestoredTab>, active: nat, n: nat)
    requires n <= |restored|
    ensures TotalBytes(RestoredTabs<T>(restored, active, n)) == RestoredBytes(restored, n)
  {
    if n > 0 {
      RestoredTotal<T>(restored, active, n - 1);
      assert RestoredTabs<T>(restored, active, n)[..n - 1] == RestoredTabs<T>(restored, active, n - 1);
    }
  }

  lemma RestoredTabsAreValid<T>(restored: seq<RestoredTab>, active: nat, s: State<T>)
    requires active < |restored| <= s.limits.tabCapacity && ValidLimits(s.limits)
    requires forall j, k | 0 <= j < k < |restored| && restored[k].path.Some? ::
               !SamePath(restored[j].path, restored[k].path.value)
    requires TotalBytes(s.tabs) == s.retainedPathBytes <= s.limits.pathByteBudget
    requires (s.tabs, s.active, s.nextId) == (RestoredTabs(restored, active, |restored|), active, |restored| + 1)
    requires s.history == [active + 1] && s.cursor == 0
    ensures Valid(s)
  {
    hide TotalBytes, RestoredBytes;
    forall i, j | 0 <= i < |s.tabs| && 0 <= j < |s.tabs| && i != j && s.tabs[j].path.Some?
      ensures !SamePath(s.tabs[i].path, s.tabs[j].path.value)
    {
      if i < j {
        assert !SamePath(restored[i].path, restored[j].path.value);
      } else if restored[i].path.Some? {
        assert !SamePath(restored[j].path, restored[i].path.value);
      }
    }
  }

  // -------------------------------------------------------------- round trip

  /** Going back and then forward, or forward and then back, returns to the tab one came
      from, with its document and its saved view, whatever closed or repeated ids the
      history holds in between. Only the two views and the cursor may differ. */
  lemma ThereAndBack<T>(s: State<T>, forward: bool, document: T, view: View, otherView: View)
    requires Valid(s)
    requires var o := Navigate(s, forward, document, view); o.result.Ok? && o.result.value.Some?
    ensures var there := Navigate(s, forward, document, view);
            var back := Navigate(there.state, !forward, there.document, otherView);
            && back.result == Ok(Some(view))
            && back.document == document
            && back.state.active == s.active
            && back.state.history == s.history
            && back.state.tabs == s.tabs[s.active := s.tabs[s.active].(view := view)]
                                        [there.state.active := s.tabs[there.state.active].(view := otherView)]
  {
    hide Documents, Before, After, ValidTab, TotalBytes, DistinctPaths;
    var there := Navigate(s, forward, document, view);
    var left := TargetPosition(s, forward).value;
    assert Usable(s, s.history[left]);
    var index := IndexForId(s.tabs, s.history[left]).value;
    SwitchKeeps(s, index, document, view);
    SwitchSucceeds(s, index, document, view);
    ReturnTarget(s, forward, there.state);
    SwitchSucceeds(there.state, s.active, there.document, otherView);
  }

  /** From the tab that navigation reached, the opposite direction leads to the old one. */
  lemma ReturnTarget<T>(s: State<T>, forward: bool, s': State<T>)
    requires Valid(s)
    requires |s'.tabs| == |s.tabs| && forall k | 0 <= k < |s.tabs| :: s'.tabs[k].id == s.tabs[k].id
    requires s'.history == s.history && Some(s'.cursor) == TargetPosition(s, forward)
    requires Some(s'.active) == IndexForId(s.tabs, s.history[s'.cursor])
    ensures var p := TargetPosition(s', !forward);
            p.Some? && IndexForId(s'.tabs, s'.history[p.value]) == Some(s.active)
  {
    hide Before, After;
    assert Usable(s, s.history[s'.cursor]);
    SameIndex(s, s', s.history[s.cursor]);
    assert IndexForId(s.tabs, s.history[s.cursor]) == Some(s.active);
    assert Usable(s', s.history[s.cursor]);
    var p := TargetPosition(s', !forward);
    if forward {
      assert s.cursor < s'.cursor;
    } else {
      assert s'.cursor < s.cursor;
    }
    assert p.Some?;
    SameIndex(s, s', s.history[p.value]);
    if p.value != s.cursor {
      assert !Usable(s, s.history[p.value]);
    }
  }

  lemma SameIndex<T>(s: State<T>, s': State<T>, id: nat)
    requires |s'.tabs| == |s.tabs| && forall k | 0 <= k < |s.tabs| :: s'.tabs[k].id == s.tabs[k].id
    requires DistinctIds(s.tabs)
    ensures IndexForId(s'.tabs, id) == IndexForId(s.tabs, id)
  {
  }

  // ------------------------------------------- validity alone, for the list object

  lemma ActivateStaysValid<T>(s: State<T>, index: nat, document: T, view: View)
    ensures Valid(s) ==> Valid(Activate(s, index, document, view).state)
  {
    if Valid(s) {
      ActivateKeeps(s, index, document, view);
    }
  }

  lemma NavigateStaysValid<T>(s: State<T>, forward: bool, document: T, view: View)
    ensures Valid(s) ==> Valid(Navigate(s, forward, document, view).state)
  {
    if Valid(s) {
      NavigateKeeps(s, forward, document, view);
    }
  }

  lemma InsertStaysValid<T>(s: State<T>, path: Path, entry: Option<nat>, newDocument: T, document: T, view: View)
    ensures Valid(s) ==> Valid(InsertAndActivate(s, path, entry, newDocument, document, view).state)
  {
    if Valid(s) {
      InsertKeeps(s, path, entry, newDocument, document, view);
    }
  }

  lemma CloseStaysValid<T>(s: State<T>, document: T)
    requires s.active < |s.tabs|
    ensures Valid(s) ==> Valid(CloseActive(s, document).state)
  {
    if Valid(s) {
      CloseKeeps(s, document);
    }
  }

  lemma MaterializeStaysValid<T>(s: State<T>, index: nat, loaded: T)
    ensures Valid(s) ==> Valid(Materialize(s, index, loaded).0)
  {
    if Valid(s) {
      MaterializeKeeps(s, index, loaded, loaded);
    }
  }

  lemma ResetStaysValid<T>(s: State<T>)
    ensures Valid(s) ==> Valid(ResetActiveToScratch(s).0)
  {
    if Valid(s) {
      ResetIsValid(s);
    }
  }

  // -------------------------------------------------------------------- runs

  datatype Op<T> =
    | Insert(path: Path, workspaceEntry: Option<nat>, newDocument: T, view: View)
    | Open(index: nat, view: View)
    | Move(forward: bool, view: View)
    | Load(index: nat, loaded: T)
    | Close
    | Reset

  ghost function Step<T>(s: State<T>, document: T, op: Op<T>): (State<T>, T)
    requires s.active < |s.tabs|
  {
    match op
    case Insert(path, entry, added, view) =>
      var o := InsertAndActivate(s, path, entry, added, document, view);
      (o.state, o.document)
    case Open(index, view) =>
      var o := Activate(s, index, document, view);
      (o.state, o.document)
    case Move(forward, view) =>
      var o := Navigate(s, forward, document, view);
      (o.state, o.document)
    case Load(index, loaded) => (Materialize(s, index, loaded).0, document)
    case Close =>
      var o := CloseActive(s, document);
      (o.state, o.document)
    case Reset => (ResetActiveToScratch(s).0, document)
  }

  /** One operation keeps the invariant; every id it leaves open was open before or is new. */
  lemma StepKeeps<T>(s: State<T>, document: T, op: Op<T>)
    requires Valid(s)
    ensures var (s', document') := Step(s, document, op);
            && Valid(s') && s.nextId <= s'.nextId
            && forall id | id in Documents(s', document') :: id in Documents(s, document) || s.nextId <= id < s'.nextId
  {
    hide Documents, DistinctIds, DistinctPaths, TotalBytes, ValidTab, Visited;
    match op
    case Insert(path, entry, added, view) => InsertKeeps(s, path, entry, added, document, view);
    case Open(index, view) => ActivateKeeps(s, index, document, view);
    case Move(forward, view) => NavigateKeeps(s, forward, document, view);
    case Load(index, loaded) =>
      MaterializeKeeps(s, index, loaded, document);
      if Materialize(s, index, loaded).1.Ok? {
        DocumentsAt(s, document, index);
      }
    case Close => CloseKeeps(s, document);
    case Reset => ResetKeeps(s, document);
  }

  ghost function Run<T>(s: State<T>, document: T, ops: seq<Op<T>>): (State<T>, T)
    requires Valid(s)
    decreases |ops|
  {
    if ops == [] then (s, document)
    else
      StepKeeps(s, document, ops[0]);
      var (s', document') := Step(s, document, ops[0]);
      Run(s', document', ops[1..])
  }

  /** Every run from a valid state ends in one, and an id that was ever handed out and is
      not open stays unused for good. */
  lemma {:induction false} RunKeeps<T>(s: State<T>, document: T, ops: seq<Op<T>>, id: nat)
    requires Valid(s)
    ensures var (s', document') := Run(s, document, ops);
            && Valid(s') && s.nextId <= s'.nextId
            && (id < s.nextId && id !in Documents(s, document) ==> id !in Documents(s', document'))
    decreases |ops|
  {
    hide Documents, ValidTab, DistinctIds, DistinctPaths, ValidHistory, TotalBytes, Step;
    if ops != [] {
      StepKeeps(s, document, ops[0]);
      var (s', document') := Step(s, document, ops[0]);
      RunKeeps(s', document', ops[1..], id);
    }
  }
}
