/** `bfs_predict(grid, start, end)`, the server's fallback predictor: the same
    breadth-first search as the front end, in the same direction order, but it
    stops when the end cell is dequeued and walks the parent table until a cell
    without a parent. */
module Backend {
  import opened Grids
  import opened ParentPaths
  import opened SearchStates
  import opened GridSearch
  import opened FrontierSearch

  /** What the predictor returns: the parent chain from the start to the end
      when the end is dequeued, nothing otherwise. */
  ghost function PredictPath(grid: Grid, start: Coord, end: Coord): seq<Coord>
    requires WellFormed(grid) && InBounds(grid, start)
  {
    var r := SearchResult(grid, start, end, Fifo);
    StructureRanked(grid, start, r);
    if end in r.order then
      SeenReachable(grid, start, end, Fifo, r);
      TracePath(r.parent, r.hops, start, end)
    else []
  }

  /** The path is empty exactly when the end is unreachable; otherwise it is a
      shortest route from the start to the end, `[end]` when the two coincide,
      and the breadth-first search's own path when they differ. */
  method BfsPredict(grid: Grid, start: Coord, end: Coord) returns (path: seq<Coord>)
    requires WellFormed(grid) && InBounds(grid, start)
    ensures path == PredictPath(grid, start, end)
    ensures path != [] <==> Reachable(grid, start, end)
    ensures path != [] ==> Route(grid, path, start, end)
    ensures path != [] ==> forall q :: Route(grid, q, start, end) ==> |path| <= |q|
    ensures start == end ==> path == [end]
    ensures start != end ==> path == SearchTraversal(grid, start, end, Fifo).path
  {
    var rows := |grid|;
    var cols := |grid[0]|;
    var visited := new bool[rows, cols]((r, c) => false);
    var parent := new Option<Coord>[rows, cols]((r, c) => None);
    visited[start.row, start.col] := true;
    var found;
    ghost var s;
    found, s := PredictRun(grid, start, end, visited, parent);
    path := [];
    if found {
      StructureRanked(grid, start, s);
      SeenReachable(grid, start, end, Fifo, s);
      path := WalkToRoot(parent, start, end, s.parent, s.hops);
    }
    PredictFacts(grid, start, end);
  }

  /** The queue loop; `found` says whether the end was dequeued. */
  method PredictRun(grid: Grid, start: Coord, end: Coord,
                    visited: array2<bool>, parent: array2<Option<Coord>>)
    returns (found: bool, ghost s: SearchState)
    requires WellFormed(grid) && InBounds(grid, start)
    requires visited.Length0 == parent.Length0 == |grid| && visited.Length1 == parent.Length1 == |grid[0]|
    requires MirrorsSeen(visited, {start}) && MirrorsParent(parent, map[])
    modifies visited, parent
    ensures s == SearchResult(grid, start, end, Fifo)
    ensures found <==> end in s.order
    ensures MirrorsParent(parent, s.parent)
  {
    var q := [start];
    found := false;
    s := Initial(start);
    InitialInv(grid, start, end, Fifo);

    while q != []
      invariant Searching(grid, start, end, Fifo, s) && !found
      invariant q == s.frontier
      invariant MirrorsSeen(visited, s.seen) && MirrorsParent(parent, s.parent)
      decreases |Cells(grid) - s.seen|, |s.frontier|
    {
      var cur;
      cur, q := Take(Fifo, q);
      if cur == end {
        found := true;
        TakeEnd(grid, start, end, Fifo, s);
        s := s.(frontier := q, order := s.order + [cur]);
        break;
      }
      q, s := Visit(grid, start, end, Fifo, visited, parent, q, cur, s);
    }
  }

  /** Follow parent pointers from `end` until a cell that has none, then
      reverse. With the start the only discovered cell without a parent, this
      is the parent chain from the start to the end. */
  method WalkToRoot(parent: array2<Option<Coord>>, start: Coord, end: Coord,
                    ghost P: map<Coord, Coord>, ghost rank: map<Coord, nat>)
    returns (path: seq<Coord>)
    requires MirrorsParent(parent, P) && Ranked(P, rank, start) && start !in P && start in rank
    requires 0 <= start.row < parent.Length0 && 0 <= start.col < parent.Length1
    requires end == start || end in P
    ensures path == TracePath(P, rank, start, end)
  {
    var rev := [];
    var cur := Some(end);
    while cur != None
      invariant cur.Some? ==> Walking(P, rank, start, end, cur.value, rev)
      invariant cur.Some? ==> 0 <= cur.value.row < parent.Length0 && 0 <= cur.value.col < parent.Length1
      invariant cur == None ==> TracePath(P, rank, start, end) == Reverse(rev)
      decreases if cur.Some? && cur.value in rank then rank[cur.value] + 1 else 0
    {
      var v := cur.value;
      cur := parent[v.row, v.col];
      if v == start {
        WalkLast(P, rank, start, end, rev);
      } else {
        WalkStep(P, rank, start, end, v, rev);
      }
      rev := rev + [v];
    }
    path := Reverse(rev);
  }

  /** What the predictor's path guarantees, and its agreement with the front
      end's breadth-first search whenever the start and the end differ. */
  lemma PredictFacts(grid: Grid, start: Coord, end: Coord)
    requires WellFormed(grid) && InBounds(grid, start)
    ensures var path := PredictPath(grid, start, end);
      && (path != [] <==> Reachable(grid, start, end))
      && (path != [] ==> Route(grid, path, start, end))
      && (path != [] ==> forall q :: Route(grid, q, start, end) ==> |path| <= |q|)
      && (start == end ==> path == [end])
      && (start != end ==> path == SearchTraversal(grid, start, end, Fifo).path)
  {
    var r := SearchResult(grid, start, end, Fifo);
    StructureRanked(grid, start, r);
    TraversalVisits(grid, start, end, Fifo, SearchTraversal(grid, start, end, Fifo));
    TraversalPath(grid, start, end, Fifo, SearchTraversal(grid, start, end, Fifo));
    if end in r.order {
      SeenReachable(grid, start, end, Fifo, r);
      TraceIsRoute(grid, r.parent, r.hops, start, end);
      BfsPathShortest(grid, start, end, SearchTraversal(grid, start, end, Fifo));
    }
  }
}
