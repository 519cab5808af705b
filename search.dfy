/** What the reference search guarantees: its invariants hold throughout,
    and the finished search's visit order and rebuilt path are what the
    frontend promises. The imperative searches are proved to compute exactly
    this reference. */
module GridSearch {
  import opened Grids
  import opened ParentPaths
  import opened SearchStates

  lemma InitialInv(g: Grid, start: Coord, end: Coord, d: Discipline)
    requires WellFormed(g) && InBounds(g, start)
    ensures Inv(g, start, end, d, Initial(start))
  {
    InCells(g, start);
    assert Elems([start]) == {start};
  }

  lemma PopKeeps(g: Grid, start: Coord, end: Coord, d: Discipline, s: SearchState)
    requires Inv(g, start, end, d, s) && s.frontier != []
    requires Next(d, s.frontier) != end
    ensures var cur := Next(d, s.frontier);
      ExpandInv(g, start, end, d, s.(frontier := Rest(d, s.frontier), order := s.order + [cur]), cur, 0)
  {
    var f := s.frontier;
    var cur := Next(d, f);
    var t := s.(frontier := Rest(d, f), order := s.order + [cur]);
    PopStructure(g, start, d, s);
    assert Closed(g, d, t, {cur});
    if d == Fifo {
      PopAround(s);
    }
  }

  /** Taking the head of a layered queue leaves the rest within one hop of it. */
  lemma PopAround(s: SearchState)
    requires Layered(s) && s.frontier != []
    ensures var cur := s.frontier[0];
      Around(s.(frontier := s.frontier[1..], order := s.order + [cur]), HopsOf(s, cur))
  {
    var f := s.frontier;
    var h := HopsOf(s, f[0]);
    var t := s.(frontier := f[1..], order := s.order + [f[0]]);
    assert forall v :: HopsOf(t, v) == HopsOf(s, v);
    forall i, j | 0 <= i <= j < |t.frontier|
      ensures HopsOf(t, t.frontier[i]) <= HopsOf(t, t.frontier[j]) <= HopsOf(t, t.frontier[i]) + 1
    {
      assert t.frontier[i] == f[i + 1] && t.frontier[j] == f[j + 1];
    }
    forall v | v in t.frontier ensures h <= HopsOf(t, v) <= h + 1 {
      var i :| 0 <= i < |t.frontier| && t.frontier[i] == v;
      assert f[i + 1] == v;
    }
    forall u | u in t.order ensures HopsOf(t, u) <= h {
      if u != f[0] {
        assert u in s.order;
      }
    }
  }

  lemma DiscoverKeeps(g: Grid, start: Coord, end: Coord, d: Discipline, t: SearchState, cur: Coord, k: nat)
    requires ExpandInv(g, start, end, d, t, cur, k) && k < |Dirs|
    ensures ExpandInv(g, start, end, d, Discover(g, t, cur, k), cur, k + 1)
  {
    var n := Shift(cur, k);
    if Passable(g, n) && n !in t.seen {
      DiscoverStructure(g, start, t, cur, k);
      DiscoverClosed(g, d, t, cur, k);
      if d == Fifo {
        DiscoverAround(t, cur, n, HopsOf(t, cur));
      }
    }
    DiscoverDone(g, start, end, d, t, cur, k);
  }

  /** After direction `k` the neighbour that way is seen, and in breadth-first
      order it is at most one hop further than `cur`. */
  lemma DiscoverDone(g: Grid, start: Coord, end: Coord, d: Discipline, t: SearchState, cur: Coord, k: nat)
    requires ExpandInv(g, start, end, d, t, cur, k) && k < |Dirs|
    ensures DirsDone(g, d, Discover(g, t, cur, k), cur, k + 1)
  {
    var n := Shift(cur, k);
    var t' := Discover(g, t, cur, k);
    if Passable(g, n) && n !in t.seen {
      assert forall v :: v in t.seen ==> HopsOf(t', v) == HopsOf(t, v);
    } else if Passable(g, n) && d == Fifo {
      assert n in t.order || n in t.frontier;
    }
  }

  /** Discovering a new cell changes no earlier cell's hop count, so the
      cells already closed stay closed. */
  lemma DiscoverClosed(g: Grid, d: Discipline, t: SearchState, cur: Coord, k: nat)
    requires k < |Dirs| && Closed(g, d, t, {cur})
    requires forall v :: v in t.order ==> v in t.seen
    requires Shift(cur, k) !in t.seen
    ensures forall v :: v in t.seen ==> HopsOf(Discover(g, t, cur, k), v) == HopsOf(t, v)
    ensures Closed(g, d, Discover(g, t, cur, k), {cur})
  {
  }

  /** Adding a newly discovered neighbour of a taken cell keeps the structural facts. */
  lemma DiscoverStructure(g: Grid, start: Coord, t: SearchState, cur: Coord, k: nat)
    requires Structure(g, start, t) && cur in t.order && k < |Dirs|
    requires Passable(g, Shift(cur, k)) && Shift(cur, k) !in t.seen
    ensures Structure(g, start, Discover(g, t, cur, k))
  {
    var n := Shift(cur, k);
    var t' := Discover(g, t, cur, k);
    InCells(g, n);
    ShiftIsAdjacent(cur, k);
    AppendFresh(t.frontier, n);
    assert Shape(start, t');
    forall v | v in t'.parent
      ensures t'.parent[v] in t'.order && Adjacent(t'.parent[v], v) && Passable(g, v)
        && t'.hops[v] == t'.hops[t'.parent[v]] + 1
    {
      if v != n {
        assert t.parent[v] != n;
      }
    }
  }

  /** Appending a cell one hop beyond the current head keeps the layering. */
  lemma DiscoverAround(t: SearchState, cur: Coord, n: Coord, h: nat)
    requires Around(t, h) && cur in t.order && HopsOf(t, cur) == h
    requires n !in t.order && n !in t.frontier
    ensures var t' := t.(frontier := t.frontier + [n], hops := t.hops[n := h + 1]);
      Around(t', h)
  {
    var t' := t.(frontier := t.frontier + [n], hops := t.hops[n := h + 1]);
    assert forall u :: u in t.order ==> HopsOf(t', u) == HopsOf(t, u);
    forall i, j | 0 <= i <= j < |t'.frontier|
      ensures HopsOf(t', t'.frontier[i]) <= HopsOf(t', t'.frontier[j]) <= HopsOf(t', t'.frontier[i]) + 1
    {
      if j < |t.frontier| {
        assert t'.frontier[i] == t.frontier[i] && t'.frontier[j] == t.frontier[j];
      } else if i < |t.frontier| {
        assert t'.frontier[i] == t.frontier[i];
      }
    }
  }

  /** Examining all four directions from `cur` keeps the invariant. */
  lemma ExpandKeeps(g: Grid, start: Coord, end: Coord, d: Discipline, t: SearchState, cur: Coord)
    requires ExpandInv(g, start, end, d, t, cur, 0)
    ensures ExpandInv(g, start, end, d, ExpandDirs(g, t, cur, |Dirs|), cur, |Dirs|)
  {
    var t1 := Discover(g, t, cur, 0);
    DiscoverKeeps(g, start, end, d, t, cur, 0);
    var t2 := Discover(g, t1, cur, 1);
    DiscoverKeeps(g, start, end, d, t1, cur, 1);
    var t3 := Discover(g, t2, cur, 2);
    DiscoverKeeps(g, start, end, d, t2, cur, 2);
    var t4 := Discover(g, t3, cur, 3);
    DiscoverKeeps(g, start, end, d, t3, cur, 3);
    assert ExpandDirs(g, t, cur, 1) == t1;
    assert ExpandDirs(g, t, cur, 2) == t2;
    assert ExpandDirs(g, t, cur, 3) == t3;
    assert ExpandDirs(g, t, cur, 4) == t4;
  }

  /** Taking a cell other than the end and expanding it keeps the invariant. */
  lemma StepKeeps(g: Grid, start: Coord, end: Coord, d: Discipline, s: SearchState)
    requires Inv(g, start, end, d, s) && s.frontier != []
    requires Next(d, s.frontier) != end
    ensures var cur := Next(d, s.frontier);
      Inv(g, start, end, d, ExpandDirs(g, s.(frontier := Rest(d, s.frontier), order := s.order + [cur]), cur, |Dirs|))
  {
    var cur := Next(d, s.frontier);
    var t := s.(frontier := Rest(d, s.frontier), order := s.order + [cur]);
    PopKeeps(g, start, end, d, s);
    ExpandKeeps(g, start, end, d, t, cur);
    var r := ExpandDirs(g, t, cur, |Dirs|);
    forall u, n | u in r.order && Adjacent(u, n) && Passable(g, n)
      ensures n in r.seen && (d == Fifo ==> HopsOf(r, n) <= HopsOf(r, u) + 1)
    {
      if u == cur {
        var k := DirOf(u, n);
        assert Shift(cur, k) == n;
      }
    }
    if d == Fifo {
      assert Layered(r);
    }
  }

  // ---------------------------------------------------------------------------
  // What the finished search guarantees

  /** In breadth-first order, when the end cell reaches the head of the queue,
      no route from the start to the end has fewer steps than its hop count. */
  lemma FifoShortest(g: Grid, start: Coord, end: Coord, s: SearchState, q: seq<Coord>)
    requires Structure(g, start, s) && Closed(g, Fifo, s, {}) && Layered(s)
    requires s.frontier != [] && s.frontier[0] == end
    requires Route(g, q, start, end)
    ensures HopsOf(s, end) + 1 <= |q|
  {
    if start == end {
      return;
    }
    assert s.order != [] && start in s.order;
    var i := 0;
    while i < |q| && q[i] in s.order
      invariant 0 <= i <= |q|
      invariant forall j :: 0 <= j < i ==> q[j] in s.order && HopsOf(s, q[j]) <= j
    {
      if i > 0 {
        assert Adjacent(q[i - 1], q[i]);
      }
      i := i + 1;
    }
    // q[i] is the first cell of the route the search has not taken yet
    assert end !in s.order;
    assert i < |q|;
    assert i > 0;
    assert Adjacent(q[i - 1], q[i]) && Passable(g, q[i]);
    assert q[i] in s.frontier;
    var k :| 0 <= k < |s.frontier| && s.frontier[k] == q[i];
    assert HopsOf(s, s.frontier[0]) <= HopsOf(s, s.frontier[k]);
  }

  /** When the frontier runs dry before the end cell is taken, no route from
      the start reaches the end. */
  lemma ExhaustedUnreachable(g: Grid, start: Coord, end: Coord, d: Discipline, s: SearchState)
    requires Structure(g, start, s) && Closed(g, d, s, {})
    requires s.frontier == [] && end !in s.order
    ensures !Reachable(g, start, end)
  {
    if q :| Route(g, q, start, end) {
      RouteTaken(g, start, end, d, s, q);
    }
  }

  /** With nothing left waiting, every cell on a route from the start has been taken. */
  lemma RouteTaken(g: Grid, start: Coord, e: Coord, d: Discipline, s: SearchState, q: seq<Coord>)
    requires Structure(g, start, s) && Closed(g, d, s, {})
    requires s.frontier == [] && Route(g, q, start, e)
    ensures e in s.order
  {
    var i := 1;
    while i < |q|
      invariant 1 <= i <= |q|
      invariant q[i - 1] in s.order
    {
      assert Adjacent(q[i - 1], q[i]);
      i := i + 1;
    }
  }

  lemma {:induction false} ExploreSound(g: Grid, start: Coord, end: Coord, d: Discipline, s: SearchState)
    requires Inv(g, start, end, d, s)
    ensures Final(g, start, end, d, Explore(g, end, d, s))
    decreases |Cells(g) - s.seen|, |s.frontier|
  {
    if s.frontier == [] {
      ExhaustedUnreachable(g, start, end, d, s);
    } else {
      var cur := Next(d, s.frontier);
      var popped := s.(frontier := Rest(d, s.frontier), order := s.order + [cur]);
      if cur == end {
        if d == Fifo {
          forall q | Route(g, q, start, end) ensures HopsOf(popped, end) + 1 <= |q| {
            FifoShortest(g, start, end, s, q);
          }
        }
        assert Structure(g, start, popped) by {
          PopStructure(g, start, d, s);
        }
      } else {
        var next := ExpandDirs(g, popped, cur, |Dirs|);
        StepKeeps(g, start, end, d, s);
        if next.seen != s.seen { FewerUnseen(g, s.seen, next.seen); }
        ExploreSound(g, start, end, d, next);
      }
    }
  }

  /** Taking a frontier cell keeps the structural facts. */
  lemma PopStructure(g: Grid, start: Coord, d: Discipline, s: SearchState)
    requires Structure(g, start, s) && s.frontier != []
    ensures Structure(g, start, s.(frontier := Rest(d, s.frontier), order := s.order + [Next(d, s.frontier)]))
  {
    PopShape(start, d, s);
  }

  /** Moving the taken cell from the frontier to the order keeps the seen set
      and leaves no cell in both or in either twice. */
  lemma PopShape(start: Coord, d: Discipline, s: SearchState)
    requires Shape(start, s) && s.frontier != []
    ensures Shape(start, s.(frontier := Rest(d, s.frontier), order := s.order + [Next(d, s.frontier)]))
  {
    var f := s.frontier;
    var cur := Next(d, f);
    var t := s.(frontier := Rest(d, f), order := s.order + [cur]);
    var ci := if d == Fifo then 0 else |f| - 1;
    assert f[ci] == cur;
    assert Rest(d, f) == f[..ci] + f[ci + 1..];
    RemoveAt(f, ci);
    assert cur !in s.order;
    AppendFresh(s.order, cur);
    assert s.order == [] ==> cur == start;
  }

  lemma StructureRanked(g: Grid, start: Coord, s: SearchState)
    requires Structure(g, start, s)
    ensures Ranked(s.parent, s.hops, start)
  {
  }

  // ---------------------------------------------------------------------------
  // The traversal result

  ghost function SearchResult(g: Grid, start: Coord, end: Coord, d: Discipline): (r: SearchState)
    requires WellFormed(g) && InBounds(g, start)
    ensures Final(g, start, end, d, r)
  {
    InitialInv(g, start, end, d);
    ExploreSound(g, start, end, d, Initial(start));
    Explore(g, end, d, Initial(start))
  }

  /** The visit order and the path rebuilt from parent pointers. */
  ghost function SearchTraversal(g: Grid, start: Coord, end: Coord, d: Discipline): Traversal
    requires WellFormed(g) && InBounds(g, start)
  {
    var r := SearchResult(g, start, end, d);
    StructureRanked(g, start, r);
    Traversal(r.order, if end in r.parent then TracePath(r.parent, r.hops, start, end) else [])
  }

  // ---------------------------------------------------------------------------
  // Properties of the traversal

  /** The visit order starts at the start cell, never repeats a cell, enters
      only passable cells, is bounded by the grid size, and holds the end cell,
      as its last entry, exactly when the end is reachable. */
  lemma TraversalVisits(g: Grid, start: Coord, end: Coord, d: Discipline, t: Traversal)
    requires WellFormed(g) && InBounds(g, start)
    requires t == SearchTraversal(g, start, end, d)
    ensures |t.visitedOrder| >= 1 && t.visitedOrder[0] == start
    ensures Distinct(t.visitedOrder)
    ensures forall i :: 1 <= i < |t.visitedOrder| ==> Passable(g, t.visitedOrder[i])
    ensures |t.visitedOrder| <= |g| * |g[0]|
    ensures end in t.visitedOrder <==> Reachable(g, start, end)
    ensures end in t.visitedOrder ==> t.visitedOrder[|t.visitedOrder| - 1] == end
  {
    var r := SearchResult(g, start, end, d);
    var o := r.order;
    assert o != [];
    forall i | 1 <= i < |o| ensures Passable(g, o[i]) {
      assert o[i] != o[0];
      assert o[i] in r.parent;
    }
    DistinctLength(o, Cells(g));
    CellsCount(g);
    if end in o {
      SeenReachable(g, start, end, d, r);
    }
  }

  /** Every seen cell is reachable from the start, along its parent chain. */
  lemma SeenReachable(g: Grid, start: Coord, end: Coord, d: Discipline, r: SearchState)
    requires Structure(g, start, r) && end in r.seen
    ensures end == start || end in r.parent
    ensures Reachable(g, start, end)
  {
    StructureRanked(g, start, r);
    if end != start {
      TraceIsRoute(g, r.parent, r.hops, start, end);
    } else {
      assert Route(g, [start], start, end);
    }
  }

  /** The path is a route from the start to the end, and it is empty exactly
      when the end is unreachable or is the start itself. */
  lemma TraversalPath(g: Grid, start: Coord, end: Coord, d: Discipline, t: Traversal)
    requires WellFormed(g) && InBounds(g, start)
    requires t == SearchTraversal(g, start, end, d)
    ensures t.path != [] <==> start != end && Reachable(g, start, end)
    ensures t.path != [] ==> Route(g, t.path, start, end)
  {
    var r := SearchResult(g, start, end, d);
    StructureRanked(g, start, r);
    if end in r.parent {
      TraceIsRoute(g, r.parent, r.hops, start, end);
    } else {
      assert end != start ==> end !in r.order;
    }
  }

  /** Breadth-first search returns a shortest path: no route from the start
      to the end has fewer cells. */
  lemma BfsPathShortest(g: Grid, start: Coord, end: Coord, t: Traversal)
    requires WellFormed(g) && InBounds(g, start)
    requires t == SearchTraversal(g, start, end, Fifo)
    ensures t.path != [] ==> forall q :: Route(g, q, start, end) ==> |t.path| <= |q|
  {
    var r := SearchResult(g, start, end, Fifo);
    StructureRanked(g, start, r);
    if end in r.parent {
      TraceLength(r.parent, r.hops, start, end);
      assert end in r.order;
    }
  }
}
