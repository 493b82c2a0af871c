/** `descendants` of `procs.rs`: a breadth-first search over a process snapshot, which may
    hold cycles, repeated pids and parents that are not listed. */
module Descendants {
  import opened Sorting

  datatype PsRow = PsRow(pid: int, ppid: int, command: string)

  // ----------------------------------------------------------- specification

  ghost predicate Edge(rows: seq<PsRow>, parent: int, child: int) {
    exists k | 0 <= k < |rows| :: rows[k].ppid == parent && rows[k].pid == child
  }

  /** A chain of n parent links leads from the root to p. */
  ghost predicate Chain(rows: seq<PsRow>, root: int, p: int, n: nat)
    decreases n
  {
    if n == 0 then p == root
    else exists parent :: Chain(rows, root, parent, n - 1) && Edge(rows, parent, p)
  }

  ghost predicate Reachable(rows: seq<PsRow>, root: int, p: int) {
    exists n :: Chain(rows, root, p, n)
  }

  /** p is no farther from the root than q. */
  ghost predicate NoFarther(rows: seq<PsRow>, root: int, p: int, q: int) {
    forall n | Chain(rows, root, q, n) :: exists m | 0 <= m <= n :: Chain(rows, root, p, m)
  }

  // --------------------------------------------------------------- the index

  /** The pids of the rows with a given parent, in row order. */
  function ChildrenOf(rows: seq<PsRow>, parent: int): seq<int> {
    if rows == [] then []
    else
      var last := rows[|rows| - 1];
      ChildrenOf(rows[..|rows| - 1], parent) + if last.ppid == parent then [last.pid] else []
  }

  lemma {:induction false} ChildrenAreEdges(rows: seq<PsRow>, parent: int, child: int)
    ensures child in ChildrenOf(rows, parent) <==> Edge(rows, parent, child)
  {
    if rows != [] {
      var n := |rows| - 1;
      ChildrenAreEdges(rows[..n], parent, child);
      if k :| 0 <= k < |rows| && rows[k].ppid == parent && rows[k].pid == child {
        if k < n {
          assert rows[..n][k] == rows[k];
        }
      }
    }
  }

  function Lookup(children: map<int, seq<int>>, parent: int): seq<int> {
    if parent in children then children[parent] else []
  }

  method Index(rows: seq<PsRow>) returns (children: map<int, seq<int>>)
    ensures forall p :: Lookup(children, p) == ChildrenOf(rows, p)
  {
    children := map[];
    for k := 0 to |rows|
      invariant forall p :: Lookup(children, p) == ChildrenOf(rows[..k], p)
    {
      var row := rows[k];
      assert rows[..k + 1][..k] == rows[..k];
      children := children[row.ppid := Lookup(children, row.ppid) + [row.pid]];
    }
    assert rows[..|rows|] == rows;
  }

  // -------------------------------------------------------------- the search

  /** What the search knows: the depth at which each seen process was found. */
  ghost predicate Explored(rows: seq<PsRow>, root: int, seen: set<int>, found: seq<int>, depth: map<int, nat>) {
    && seen == depth.Keys
    && root in seen && depth[root] == 0
    && Distinct(found) && root !in found
    && (forall p :: p in found <==> p in seen && p != root)
    && (forall p | p in seen :: Chain(rows, root, p, depth[p]))
    && (forall i, j | 0 <= i < j < |found| && found[i] in depth && found[j] in depth ::
          depth[found[i]] <= depth[found[j]])
  }

  /** Every child of a finished process has been seen, at most one level deeper. */
  ghost predicate Finished(rows: seq<PsRow>, done: set<int>, seen: set<int>, depth: map<int, nat>) {
    && done <= seen == depth.Keys
    && forall p, c | p in done && Edge(rows, p, c) :: c in seen && depth[c] <= depth[p] + 1
  }

  /** The queue holds the seen processes that are not finished, nearest last, and spans at
      most two levels, `level` and the next. */
  ghost predicate Queued(queue: seq<int>, done: set<int>, seen: set<int>, depth: map<int, nat>, level: nat) {
    && seen == depth.Keys
    && Distinct(queue)
    && (forall p :: p in queue <==> p in seen && p !in done)
    && (forall i, j | 0 <= i < j < |queue| && queue[i] in depth && queue[j] in depth ::
          depth[queue[j]] <= depth[queue[i]])
    && (forall p | p in seen :: depth[p] <= level + 1)
    && (forall p | p in seen && p !in done :: level <= depth[p])
  }

  lemma Pop(queue: seq<int>, done: set<int>, seen: set<int>, depth: map<int, nat>, level: nat)
    requires queue != [] && Queued(queue, done, seen, depth, level)
    ensures var parent := queue[|queue| - 1];
            && parent in depth && parent !in done
            && Queued(queue[..|queue| - 1], done + {parent}, seen, depth, depth[parent])
  {
    var last := |queue| - 1;
    var parent, rest := queue[last], queue[..last];
    assert parent in queue;
    forall p ensures p in rest <==> p in seen && p !in done + {parent} {
      if p in seen && p !in done && p != parent {
        var k :| 0 <= k < |queue| && queue[k] == p;
        assert rest[k] == p;
      }
    }
    forall p | p in seen && p !in done + {parent} ensures depth[parent] <= depth[p] {
      assert p in queue;
      var k :| 0 <= k < |queue| && queue[k] == p;
      assert k < last;
    }
  }

  /** A newly seen child is one level below its parent and goes to the far end. */
  lemma Discover(rows: seq<PsRow>, root: int, queue: seq<int>, done: set<int>, seen: set<int>, found: seq<int>,
                 depth: map<int, nat>, parent: int, child: int)
    requires Explored(rows, root, seen, found, depth) && parent in seen && child !in seen
    requires Queued(queue, done, seen, depth, depth[parent]) && done <= seen && Edge(rows, parent, child)
    ensures var depth' := depth[child := depth[parent] + 1];
            && Explored(rows, root, seen + {child}, found + [child], depth')
            && Queued([child] + queue, done, seen + {child}, depth', depth[parent])
            && depth'.Keys == seen + {child}
  {
    DiscoverExplored(rows, root, seen, found, depth, parent, child);
    DiscoverQueued(queue, done, seen, depth, parent, child);
  }

  lemma DiscoverExplored(rows: seq<PsRow>, root: int, seen: set<int>, found: seq<int>, depth: map<int, nat>,
                         parent: int, child: int)
    requires Explored(rows, root, seen, found, depth) && parent in seen && child !in seen && Edge(rows, parent, child)
    requires forall p | p in seen :: depth[p] <= depth[parent] + 1
    ensures Explored(rows, root, seen + {child}, found + [child], depth[child := depth[parent] + 1])
  {
    hide Edge;
    var depth' := depth[child := depth[parent] + 1];
    assert depth'.Keys == seen + {child};
    assert Chain(rows, root, child, depth[parent] + 1);
    forall p | p in seen + {child} ensures Chain(rows, root, p, depth'[p]) {
      if p != child {
        assert depth'[p] == depth[p];
      }
    }
    var found' := found + [child];
    assert forall k | 0 <= k < |found| :: found[k] in found;
    forall p ensures p in found' <==> p in seen + {child} && p != root {
    }
  }

  lemma DiscoverQueued(queue: seq<int>, done: set<int>, seen: set<int>, depth: map<int, nat>, parent: int, child: int)
    requires parent in depth && child !in seen && done <= seen
    requires Queued(queue, done, seen, depth, depth[parent])
    ensures Queued([child] + queue, done, seen + {child}, depth[child := depth[parent] + 1], depth[parent])
  {
    var depth' := depth[child := depth[parent] + 1];
    assert depth'.Keys == seen + {child};
    forall k | 0 <= k < |queue| ensures queue[k] in depth {
      var p: int := queue[k];
      assert p in queue;
    }
    var queue' := [child] + queue;
    forall i, j | 0 <= i < j < |queue'| ensures queue'[i] != queue'[j] && depth'[queue'[j]] <= depth'[queue'[i]] {
      assert queue'[j] == queue[j - 1];
      if i > 0 {
        assert queue'[i] == queue[i - 1];
      }
    }
  }

  /** Once every seen process is finished, its depth is its distance. */
  lemma {:induction false} ChainIsSeen(rows: seq<PsRow>, root: int, seen: set<int>, depth: map<int, nat>, p: int,
                                       n: nat)
    requires Finished(rows, seen, seen, depth) && root in depth && depth[root] == 0
    requires Chain(rows, root, p, n)
    ensures p in seen && depth[p] <= n
    decreases n
  {
    if n > 0 {
      var parent :| Chain(rows, root, parent, n - 1) && Edge(rows, parent, p);
      ChainIsSeen(rows, root, seen, depth, parent, n - 1);
    }
  }

  lemma SearchIsComplete(rows: seq<PsRow>, root: int, seen: set<int>, found: seq<int>, depth: map<int, nat>)
    requires Explored(rows, root, seen, found, depth) && Finished(rows, seen, seen, depth)
    ensures forall p :: p in found <==> p != root && Reachable(rows, root, p)
    ensures forall i, j | 0 <= i < j < |found| :: NoFarther(rows, root, found[i], found[j])
    ensures Distinct(found)
  {
    forall p ensures p in found <==> p != root && Reachable(rows, root, p) {
      if p in found {
        assert Chain(rows, root, p, depth[p]);
      }
      if n :| Chain(rows, root, p, n) {
        ChainIsSeen(rows, root, seen, depth, p, n);
      }
    }
    forall i, j | 0 <= i < j < |found| ensures NoFarther(rows, root, found[i], found[j]) {
      var p: int, q: int := found[i], found[j];
      assert p in found && q in found;
      assert depth[p] <= depth[q];
      assert Chain(rows, root, found[i], depth[found[i]]);
      forall n | Chain(rows, root, found[j], n) ensures exists m | 0 <= m <= n :: Chain(rows, root, found[i], m) {
        ChainIsSeen(rows, root, seen, depth, found[j], n);
      }
    }
  }

  lemma Start(rows: seq<PsRow>, root: int)
    ensures var depth: map<int, nat> := map[root := 0];
            && Explored(rows, root, {root}, [], depth)
            && Finished(rows, {}, {root}, depth)
            && Queued([root], {}, {root}, depth, 0)
  {
  }

  /** Finishing a process whose children have all been seen. */
  lemma Finish(rows: seq<PsRow>, done: set<int>, seen: set<int>, depth: map<int, nat>, parent: int, listed: seq<int>)
    requires Finished(rows, done, seen, depth) && parent in seen
    requires listed == ChildrenOf(rows, parent)
    requires forall j | 0 <= j < |listed| :: listed[j] in depth && depth[listed[j]] <= depth[parent] + 1
    ensures Finished(rows, done + {parent}, seen, depth)
  {
    forall c | Edge(rows, parent, c) ensures c in seen && depth[c] <= depth[parent] + 1 {
      ChildrenAreEdges(rows, parent, c);
      var j :| 0 <= j < |listed| && listed[j] == c;
    }
  }

  lemma FinishedGrows(rows: seq<PsRow>, done: set<int>, seen: set<int>, depth: map<int, nat>, child: int, level: nat)
    requires Finished(rows, done, seen, depth) && child !in seen
    ensures Finished(rows, done, seen + {child}, depth[child := level])
  {
    assert depth[child := level].Keys == seen + {child};
  }

  lemma ListedIsEdge(rows: seq<PsRow>, parent: int, listed: seq<int>, k: nat)
    requires listed == ChildrenOf(rows, parent) && k < |listed|
    ensures Edge(rows, parent, listed[k])
    ensures exists j | 0 <= j < |rows| :: rows[j].pid == listed[k]
  {
    assert listed[k] in listed;
    ChildrenAreEdges(rows, parent, listed[k]);
  }

  /** Exactly the processes below the root, each once, nearest first. */
  method Descendants(rows: seq<PsRow>, root: int) returns (found: seq<int>)
    ensures Distinct(found)
    ensures forall p :: p in found <==> p != root && Reachable(rows, root, p)
    ensures forall i, j | 0 <= i < j < |found| :: NoFarther(rows, root, found[i], found[j])
  {
    hide Explored, Finished, Queued, Distinct, Edge, Chain, Reachable, NoFarther, ChildrenOf;
    var children := Index(rows);
    found := [];
    var seen := {root};
    var queue := [root];
    ghost var done: set<int>, level: nat, depth: map<int, nat> := {}, 0, map[root := 0];
    ghost var pids := {root} + set k | 0 <= k < |rows| :: rows[k].pid;
    Start(rows, root);
    while queue != []
      invariant Explored(rows, root, seen, found, depth)
      invariant Finished(rows, done, seen, depth)
      invariant Queued(queue, done, seen, depth, level)
      invariant done <= seen <= pids && seen == depth.Keys
      decreases pids - done
    {
      Pop(queue, done, seen, depth, level);
      var parent := queue[|queue| - 1];
      queue := queue[..|queue| - 1];
      level := depth[parent];
      var listed := Lookup(children, parent);
      ghost var finished := done;
      done := done + {parent};
      for k := 0 to |listed|
        invariant parent in depth && depth[parent] == level
        invariant Explored(rows, root, seen, found, depth)
        invariant Finished(rows, finished, seen, depth)
        invariant Queued(queue, done, seen, depth, level)
        invariant done <= seen <= pids && seen == depth.Keys
        invariant forall j | 0 <= j < k :: listed[j] in depth && depth[listed[j]] <= level + 1
      {
        var child := listed[k];
        ListedIsEdge(rows, parent, listed, k);
        if child !in seen {
          Discover(rows, root, queue, done, seen, found, depth, parent, child);
          FinishedGrows(rows, finished, seen, depth, child, level + 1);
          seen := seen + {child};
          found := found + [child];
          queue := [child] + queue;
          depth := depth[child := level + 1];
        } else {
          SeenIsNear(queue, done, seen, depth, level, child);
        }
      }
      Finish(rows, finished, seen, depth, parent, listed);
    }
    NothingQueued(done, seen, depth, level);
    SearchIsComplete(rows, root, seen, found, depth);
  }

  lemma SeenIsNear(queue: seq<int>, done: set<int>, seen: set<int>, depth: map<int, nat>, level: nat, p: int)
    requires Queued(queue, done, seen, depth, level) && p in seen
    ensures p in depth && depth[p] <= level + 1
  {
  }

  lemma NothingQueued(done: set<int>, seen: set<int>, depth: map<int, nat>, level: nat)
    requires Queued([], done, seen, depth, level) && done <= seen
    ensures done == seen
  {
    forall p | p in seen ensures p in done {
      var queue: seq<int> := [];
      assert p !in queue;
    }
  }
}
