/** The loop shared by the breadth-first and depth-first searches, over a
    `visited` table and a `parent` table of the grid's shape. The two differ
    only in which end of the frontier they take a cell from. */
module FrontierSearch {
  import opened Grids
  import opened ParentPaths
  import opened SearchStates
  import opened GridSearch

  /** The visited table marks exactly the cells of `S`. */
  ghost predicate MirrorsSeen(visited: array2<bool>, S: set<Coord>)
    reads visited
  {
    forall r, c :: 0 <= r < visited.Length0 && 0 <= c < visited.Length1 ==>
      (visited[r, c] <==> Coord(r, c) in S)
  }

  /** Run the search from `start` until `end` is taken or the frontier is
      empty, then rebuild the path from the parent table. The start must lie
      inside the grid; an end whose row lies inside must have its column inside
      too (otherwise the path rebuild reads past a row). */
  method Traverse(grid: Grid, start: Coord, end: Coord, d: Discipline) returns (result: Traversal)
    requires WellFormed(grid) && InBounds(grid, start)
    requires 0 <= end.row < |grid| ==> 0 <= end.col < |grid[0]|
    ensures result == SearchTraversal(grid, start, end, d)
  {
    var rows := |grid|;
    var cols := |grid[0]|;
    var visited := new bool[rows, cols]((r, c) => false);
    var parent := new Option<Coord>[rows, cols]((r, c) => None);
    visited[start.row, start.col] := true;
    var visitedOrder;
    ghost var s;
    visitedOrder, s := Run(grid, start, end, d, visited, parent);
    StructureRanked(grid, start, s);
    var path := ReconstructPath(parent, start, end, s.parent, s.hops);
    result := Traversal(visitedOrder, path);
  }

  /** The search loop, from the tables holding only the marked start. */
  method Run(grid: Grid, start: Coord, end: Coord, d: Discipline,
             visited: array2<bool>, parent: array2<Option<Coord>>)
    returns (visitedOrder: seq<Coord>, ghost s: SearchState)
    requires WellFormed(grid) && InBounds(grid, start)
    requires visited.Length0 == parent.Length0 == |grid| && visited.Length1 == parent.Length1 == |grid[0]|
    requires MirrorsSeen(visited, {start}) && MirrorsParent(parent, map[])
    modifies visited, parent
    ensures s == SearchResult(grid, start, end, d) && visitedOrder == s.order
    ensures MirrorsParent(parent, s.parent)
  {
    var frontier := [start];
    visitedOrder := [];
    s := Initial(start);
    InitialInv(grid, start, end, d);

    while frontier != []
      invariant Searching(grid, start, end, d, s)
      invariant frontier == s.frontier && visitedOrder == s.order
      invariant MirrorsSeen(visited, s.seen) && MirrorsParent(parent, s.parent)
      decreases |Cells(grid) - s.seen|, |s.frontier|
    {
      var cur;
      cur, frontier := Take(d, frontier);
      visitedOrder := visitedOrder + [cur];
      if cur == end {
        TakeEnd(grid, start, end, d, s);
        s := s.(frontier := frontier, order := visitedOrder);
        break;
      }
      frontier, s := Visit(grid, start, end, d, visited, parent, frontier, cur, s);
    }
  }

  /** The loop invariant of both queue loops: the reference invariant holds,
      and running the reference search from here gives what it gives from the
      start. */
  ghost predicate Searching(grid: Grid, start: Coord, end: Coord, d: Discipline, s: SearchState) {
    && Inv(grid, start, end, d, s)
    && Explore(grid, end, d, s) == Explore(grid, end, d, Initial(start))
  }

  /** Taking the end cell finishes the search. */
  lemma TakeEnd(grid: Grid, start: Coord, end: Coord, d: Discipline, s: SearchState)
    requires Searching(grid, start, end, d, s) && s.frontier != [] && Next(d, s.frontier) == end
    ensures s.(frontier := Rest(d, s.frontier), order := s.order + [end]) == SearchResult(grid, start, end, d)
  {
    ExploreUnfold(grid, end, d, s);
  }

  /** One round for a taken cell other than the end: expand it. The state
      moves on as the reference search's does, and either more cells are seen
      or the frontier is shorter. */
  method Visit(grid: Grid, start: Coord, end: Coord, d: Discipline,
               visited: array2<bool>, parent: array2<Option<Coord>>,
               frontier: seq<Coord>, cur: Coord, ghost s: SearchState)
    returns (frontier': seq<Coord>, ghost t: SearchState)
    requires Searching(grid, start, end, d, s) && s.frontier != []
    requires visited.Length0 == parent.Length0 == |grid| && visited.Length1 == parent.Length1 == |grid[0]|
    requires cur == Next(d, s.frontier) && cur != end && frontier == Rest(d, s.frontier)
    requires MirrorsSeen(visited, s.seen) && MirrorsParent(parent, s.parent)
    modifies visited, parent
    ensures Searching(grid, start, end, d, t) && frontier' == t.frontier && t.order == s.order + [cur]
    ensures MirrorsSeen(visited, t.seen) && MirrorsParent(parent, t.parent)
    ensures |Cells(grid) - t.seen| < |Cells(grid) - s.seen| || (t.seen == s.seen && |t.frontier| < |s.frontier|)
  {
    ghost var popped := s.(frontier := frontier, order := s.order + [cur]);
    frontier', t := ExpandCell(grid, visited, parent, frontier, cur, popped);
    ExploreUnfold(grid, end, d, s);
    StepKeeps(grid, start, end, d, s);
    if t.seen != s.seen { FewerUnseen(grid, s.seen, t.seen); }
  }

  /** `queue.shift()` for breadth-first search, `stack.pop()` for depth-first:
      the queue gives up its oldest entry, the stack its newest, and the
      other entries stay in order. */
  method Take(d: Discipline, frontier: seq<Coord>) returns (cur: Coord, rest: seq<Coord>)
    requires frontier != []
    ensures d == Fifo ==> [cur] + rest == frontier
    ensures d == Lifo ==> rest + [cur] == frontier
    ensures cur == Next(d, frontier) && rest == Rest(d, frontier)
  {
    if d == Fifo {
      cur := frontier[0];
      rest := frontier[1..];
    } else {
      cur := frontier[|frontier| - 1];
      rest := frontier[..|frontier| - 1];
    }
  }

  /** Look in the four directions from `cur`, marking, parenting and queueing
      every passable cell not yet visited. */
  method ExpandCell(grid: Grid, visited: array2<bool>, parent: array2<Option<Coord>>,
                    frontier: seq<Coord>, cur: Coord, ghost t0: SearchState)
    returns (frontier': seq<Coord>, ghost t: SearchState)
    requires WellFormed(grid)
    requires visited.Length0 == parent.Length0 == |grid| && visited.Length1 == parent.Length1 == |grid[0]|
    requires frontier == t0.frontier
    requires MirrorsSeen(visited, t0.seen) && MirrorsParent(parent, t0.parent)
    modifies visited, parent
    ensures t == ExpandDirs(grid, t0, cur, |Dirs|) && frontier' == t.frontier
    ensures MirrorsSeen(visited, t.seen) && MirrorsParent(parent, t.parent)
  {
    frontier' := frontier;
    t := t0;
    for k := 0 to |Dirs|
      invariant t == ExpandDirs(grid, t0, cur, k)
      invariant frontier' == t.frontier
      invariant MirrorsSeen(visited, t.seen) && MirrorsParent(parent, t.parent)
    {
      frontier', t := Look(grid, visited, parent, frontier', cur, k, t);
    }
  }

  /** Direction `k` from `cur`: a cell inside the grid, not visited and not a
      wall is marked, given `cur` as parent and added to the frontier. */
  method Look(grid: Grid, visited: array2<bool>, parent: array2<Option<Coord>>,
              frontier: seq<Coord>, cur: Coord, k: nat, ghost t0: SearchState)
    returns (frontier': seq<Coord>, ghost t: SearchState)
    requires WellFormed(grid) && k < |Dirs|
    requires visited.Length0 == parent.Length0 == |grid| && visited.Length1 == parent.Length1 == |grid[0]|
    requires frontier == t0.frontier
    requires MirrorsSeen(visited, t0.seen) && MirrorsParent(parent, t0.parent)
    modifies visited, parent
    ensures t == Discover(grid, t0, cur, k) && frontier' == t.frontier
    ensures MirrorsSeen(visited, t.seen) && MirrorsParent(parent, t.parent)
  {
    var n := Shift(cur, k);
    frontier' := frontier;
    t := Discover(grid, t0, cur, k);
    if 0 <= n.row < visited.Length0 && 0 <= n.col < visited.Length1 && !visited[n.row, n.col]
       && grid[n.row][n.col].kind != Wall
    {
      visited[n.row, n.col] := true;
      parent[n.row, n.col] := Some(cur);
      frontier' := frontier' + [n];
    }
  }
}
