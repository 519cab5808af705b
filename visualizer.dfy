/** The pathfinding screen: the grid, the start and end marks and the running
    flag, with the cell-click handler, a run's replay of a search result, and
    the clearing of a finished replay. */
module PathfindingScreen {
  import opened Grids
  import opened SearchStates
  import opened GridHelpers
  import opened GridEdits
  import opened GridSearch
  import BreadthFirst
  import DepthFirst
  import Dijkstra

  /** The search a run uses (the two learned-model branches are not modelled). */
  datatype Algo = Bfs | Dfs | DijkstraAlgo

  const Rows := 18
  const Cols := 28

  /** A run's replay: the first cells of the visit order the visited replay
      reached, then the first cells of the path the path replay reached. */
  function Replayed(g: Grid, result: Traversal, visitedFlags: seq<bool>, pathFlags: seq<bool>): (h: Grid)
    requires AllIn(g, result.visitedOrder) && AllIn(g, result.path)
    ensures SameShape(g, h)
  {
    var v := VisitedPainted(g, result.visitedOrder, Stop(visitedFlags, |result.visitedOrder|));
    PathPainted(v, result.path, Stop(pathFlags, |result.path|))
  }

  /** `result` is what the search `algo` names returns on `g`: the
      queue-ordered reference search for BFS, the stack-ordered one for DFS,
      and a run meeting every promise of the shortest-path search for
      Dijkstra. */
  ghost predicate Chosen(algo: Algo, g: Grid, start: Coord, end: Coord, result: Traversal)
    requires WellFormed(g) && InBounds(g, start)
  {
    match algo
    case Bfs => result == SearchTraversal(g, start, end, Fifo)
    case Dfs => result == SearchTraversal(g, start, end, Lifo)
    case DijkstraAlgo => exists costs :: Dijkstra.ShortestRun(g, start, end, result, costs)
  }

  /** A run whose visited replay and path replay each find the flag cleared
      on their first reading paints nothing: the grid is left as it was. */
  lemma NothingReplayed(g: Grid, result: Traversal, visitedFlags: seq<bool>, pathFlags: seq<bool>)
    requires AllIn(g, result.visitedOrder) && AllIn(g, result.path)
    requires visitedFlags != [] && !visitedFlags[0] && pathFlags != [] && !pathFlags[0]
    ensures Replayed(g, result, visitedFlags, pathFlags) == g
  {
  }

  class Visualizer {
    var grid: Grid
    var start: Coord
    var end: Coord
    var running: bool

    ghost predicate Valid()
      reads this
    {
      ScreenOk(Screen(grid, start, end))
    }

    /** The screen as first shown: an empty 18 by 28 grid with the start at
        (3, 3) and the end at (14, 24), not running. */
    constructor ()
      ensures Valid() && !running
      ensures start == Coord(3, 3) && end == Coord(Rows - 4, Cols - 4)
      ensures |grid| == Rows && forall r :: 0 <= r < Rows ==> |grid[r]| == Cols
      ensures forall r, c :: 0 <= r < Rows && 0 <= c < Cols ==>
        grid[r][c] == Cell(r, c, if Coord(r, c) == end then End else if Coord(r, c) == start then Start else Empty, 1)
    {
      var g := MakeEmptyGrid(Rows, Cols);
      BlankShape(g, Rows, Cols);
      ghost var g0 := g;
      g := SetKind(g, Coord(3, 3), Start);
      g := SetKind(g, Coord(Rows - 4, Cols - 4), End);
      forall r, c | 0 <= r < Rows && 0 <= c < Cols
        ensures g[r][c] == Cell(r, c, if Coord(r, c) == Coord(Rows - 4, Cols - 4) then End
                                      else if Coord(r, c) == Coord(3, 3) then Start else Empty, 1)
      {
        assert BlankRow(g0[r], r, Cols);
      }
      grid := g;
      start := Coord(3, 3);
      end := Coord(Rows - 4, Cols - 4);
      running := false;
    }

    /** `handleToggleCell`: while running nothing changes; otherwise the click
        on `x` with `tool` is applied to a copy of the grid. */
    method ToggleCell(x: Coord, tool: Tool)
      requires Valid() && InBounds(grid, x)
      modifies this
      ensures Valid() && running == old(running)
      ensures old(running) ==> grid == old(grid) && start == old(start) && end == old(end)
      ensures !old(running) ==> Screen(grid, start, end) == Toggle(old(Screen(grid, start, end)), x, tool)
    {
      if running {
        return;
      }
      ToggleOk(Screen(grid, start, end), x, tool);
      var g: Grid := DeepCopyGrid(grid);
      CopySame(grid);
      var c: Cell := g[x.row][x.col];
      match tool {
        case WallTool =>
          if c.kind != Start && c.kind != End {
            g := SetCell(g, x, c.(kind := if c.kind == Wall then Empty else Wall));
          }
        case StartTool =>
          g := SetCell(g, start, g[start.row][start.col].(kind := Empty));
          c := g[x.row][x.col];
          g := SetCell(g, x, c.(kind := Start));
          start := Coord(c.row, c.col);
        case EndTool =>
          g := SetCell(g, end, g[end.row][end.col].(kind := Empty));
          c := g[x.row][x.col];
          g := SetCell(g, x, c.(kind := End));
          end := Coord(c.row, c.col);
        case WeightTool =>
          var k := if c.kind == Weight then Empty else Weight;
          g := SetCell(g, x, c.(kind := k, weight := if k == Weight then 5 else 1));
      }
      grid := g;
    }

    /** `runAlgorithm`: unless already running, set the flag, search a copy
        of the grid with `algo`, replay the visit order and then the path
        (each replay stopping at its first reading of a cleared flag), and
        clear the flag. The searched result is returned so the new grid can be
        stated in its terms. */
    method RunAlgorithm(algo: Algo, visitedFlags: seq<bool>, pathFlags: seq<bool>) returns (result: Traversal)
      requires Valid()
      modifies this
      ensures Valid() && start == old(start) && end == old(end) && running == old(running)
      ensures old(running) ==> grid == old(grid)
      ensures !old(running) ==> AllIn(old(grid), result.visitedOrder) && AllIn(old(grid), result.path)
      ensures !old(running) ==> grid == Replayed(old(grid), result, visitedFlags, pathFlags)
      ensures !old(running) && result.path != [] ==> Route(old(grid), result.path, start, end)
      ensures !old(running) ==> Chosen(algo, old(grid), start, end, result)
    {
      result := Traversal([], []);
      if running {
        return;
      }
      running := true;
      var gridCopy := DeepCopyGrid(grid);
      CopySame(grid);
      result := Search(algo, gridCopy);
      Replay(result, visitedFlags, pathFlags);
      running := false;
    }

    /** The two replays of a run: the visit order, then the path. */
    method Replay(result: Traversal, visitedFlags: seq<bool>, pathFlags: seq<bool>)
      requires Valid() && AllIn(grid, result.visitedOrder) && AllIn(grid, result.path)
      modifies this
      ensures Valid() && start == old(start) && end == old(end) && running == old(running)
      ensures grid == Replayed(old(grid), result, visitedFlags, pathFlags)
    {
      ReplayVisited(result.visitedOrder, visitedFlags);
      ReplayPath(result.path, pathFlags);
    }

    /** The search `algo` names, from the start to the end of `g`: the
        queue-ordered reference search for BFS, the stack-ordered one for DFS,
        and a run meeting the shortest-path search's promises for Dijkstra. */
    method Search(algo: Algo, g: Grid) returns (result: Traversal)
      requires Valid() && g == grid
      ensures AllIn(g, result.visitedOrder) && AllIn(g, result.path)
      ensures result.path != [] ==> Route(g, result.path, start, end)
      ensures Chosen(algo, g, start, end, result)
    {
      match algo {
        case Bfs => result := BreadthFirst.Bfs(g, start, end);
        case Dfs => result := DepthFirst.Dfs(g, start, end);
        case DijkstraAlgo => result := Dijkstra.Dijkstra(g, start, end);
      }
      SearchCells(g, start, result);
    }

    /** The visited replay: paint the cells of `order` one at a time until a
        reading of the flag finds it cleared. */
    method ReplayVisited(order: seq<Coord>, flags: seq<bool>)
      requires Valid() && AllIn(grid, order)
      modifies this
      ensures Valid() && start == old(start) && end == old(end) && running == old(running)
      ensures grid == VisitedPainted(old(grid), order, Stop(flags, |order|))
    {
      ghost var g0 := grid;
      for i := 0 to |order|
        invariant Valid()
        invariant start == old(start) && end == old(end) && running == old(running)
        invariant i <= Stop(flags, |order|)
        invariant grid == VisitedPainted(g0, order, i)
      {
        if !Flag(flags, i) {
          assert i == Stop(flags, |order|);
          break;
        }
        VisitCell(order[i]);
        VisitedStep(g0, order, i);
      }
    }

    /** One iteration of the visited replay, on a copy of the grid: an empty
        or weight cell becomes visited. */
    method VisitCell(cell: Coord)
      requires Valid() && InBounds(grid, cell)
      modifies this
      ensures Valid() && start == old(start) && end == old(end) && running == old(running)
      ensures grid == PaintVisited(old(grid), cell)
    {
      var g: Grid := DeepCopyGrid(grid);
      CopySame(grid);
      var typeBefore := g[cell.row][cell.col].kind;
      if typeBefore == Empty || typeBefore == Weight {
        g := SetCell(g, cell, g[cell.row][cell.col].(kind := Visited));
        assert |g[0]| == |grid[0]|;
      }
      grid := g;
    }

    /** The path replay: the same for the cells of `path`. */
    method ReplayPath(path: seq<Coord>, flags: seq<bool>)
      requires Valid() && AllIn(grid, path)
      modifies this
      ensures Valid() && start == old(start) && end == old(end) && running == old(running)
      ensures grid == PathPainted(old(grid), path, Stop(flags, |path|))
    {
      ghost var g0 := grid;
      for i := 0 to |path|
        invariant Valid()
        invariant start == old(start) && end == old(end) && running == old(running)
        invariant i <= Stop(flags, |path|)
        invariant grid == PathPainted(g0, path, i)
      {
        if !Flag(flags, i) {
          assert i == Stop(flags, |path|);
          break;
        }
        MarkPathCell(path[i]);
        PathStep(g0, path, i);
      }
    }

    /** One iteration of the path replay, on a copy of the grid: a cell other
        than a start or end cell becomes a path cell. */
    method MarkPathCell(cell: Coord)
      requires Valid() && InBounds(grid, cell)
      modifies this
      ensures Valid() && start == old(start) && end == old(end) && running == old(running)
      ensures grid == PaintPath(old(grid), cell)
    {
      var g: Grid := DeepCopyGrid(grid);
      CopySame(grid);
      var t := g[cell.row][cell.col].kind;
      if t != Start && t != End {
        g := SetCell(g, cell, g[cell.row][cell.col].(kind := Path));
        assert |g[0]| == |grid[0]|;
      }
      grid := g;
    }

    /** `handleClearVisited`: on a copy of the grid, turn every visited or
        path cell empty, row by row, then mark the start and the end. */
    method ClearVisited()
      requires Valid()
      modifies this
      ensures Valid() && start == old(start) && end == old(end) && running == old(running)
      ensures grid == Cleared(old(grid), start, end)
    {
      var g: Grid := DeepCopyGrid(grid);
      CopySame(grid);
      ghost var g0 := g;
      g := ClearRows(g);
      g := SetCell(g, start, g[start.row][start.col].(kind := Start));
      g := SetCell(g, end, g[end.row][end.col].(kind := End));
      grid := g;
      ClearedOk(g0, grid, start, end);
    }
  }

  /** The two loops of `handleClearVisited`: every visited or path cell of
      the grid becomes empty, row by row. */
  method ClearRows(g: Grid) returns (h: Grid)
    requires WellFormed(g)
    ensures h == UnvisitAll(g)
  {
    h := g;
    for r := 0 to |h|
      invariant WellFormed(h) && SameShape(g, h)
      invariant forall i, c :: 0 <= i < r && 0 <= c < |g[i]| ==> h[i][c] == Unvisit(g[i][c])
      invariant forall i :: r <= i < |g| ==> h[i] == g[i]
    {
      h := ClearRow(h, r);
    }
    forall i | 0 <= i < |g| ensures h[i] == UnvisitAll(g)[i] {
      assert |h[i]| == |g[i]|;
    }
  }

  /** The inner loop of `handleClearVisited`: along row `r`, for as many
      columns as the first row has, a visited or path cell becomes empty. */
  method ClearRow(g: Grid, r: nat) returns (h: Grid)
    requires WellFormed(g) && r < |g|
    ensures SameShape(g, h)
    ensures forall c :: 0 <= c < |g[r]| ==> h[r][c] == Unvisit(g[r][c])
    ensures forall i :: 0 <= i < |g| && i != r ==> h[i] == g[i]
  {
    h := g;
    for c := 0 to |h[0]|
      invariant SameShape(g, h)
      invariant forall i :: 0 <= i < |g| && i != r ==> h[i] == g[i]
      invariant forall c' :: 0 <= c' < c ==> h[r][c'] == Unvisit(g[r][c'])
      invariant forall c' :: c <= c' < |g[r]| ==> h[r][c'] == g[r][c']
    {
      if h[r][c].kind == Visited || h[r][c].kind == Path {
        h := SetCell(h, Coord(r, c), h[r][c].(kind := Empty));
      }
    }
  }

  /** Every cell a search result names lies inside the grid. */
  lemma SearchCells(g: Grid, start: Coord, result: Traversal)
    requires InBounds(g, start)
    requires |result.visitedOrder| >= 1 && result.visitedOrder[0] == start
    requires forall i :: 1 <= i < |result.visitedOrder| ==> Passable(g, result.visitedOrder[i])
    requires result.path != [] ==> exists e :: Route(g, result.path, start, e)
    ensures AllIn(g, result.visitedOrder) && AllIn(g, result.path)
  {
  }

  /** One more step of the visited replay. */
  lemma VisitedStep(g: Grid, cells: seq<Coord>, i: nat)
    requires i < |cells| && AllIn(g, cells)
    ensures InBounds(VisitedPainted(g, cells, i), cells[i])
    ensures VisitedPainted(g, cells, i + 1) == PaintVisited(VisitedPainted(g, cells, i), cells[i])
  {
  }

  /** One more step of the path replay. */
  lemma PathStep(g: Grid, cells: seq<Coord>, i: nat)
    requires i < |cells| && AllIn(g, cells)
    ensures InBounds(PathPainted(g, cells, i), cells[i])
    ensures PathPainted(g, cells, i + 1) == PaintPath(PathPainted(g, cells, i), cells[i])
  {
  }

  lemma ClearedOk(g: Grid, h: Grid, start: Coord, end: Coord)
    requires ScreenOk(Screen(g, start, end)) && h == Cleared(g, start, end)
    ensures ScreenOk(Screen(h, start, end))
  {
  }
}
