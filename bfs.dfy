/** `bfs(grid, start, end)`: breadth-first search over the grid, a queue as
    the frontier. */
module BreadthFirst {
  import opened Grids
  import opened SearchStates
  import opened GridSearch
  import opened FrontierSearch

  /** The visit order starts at `start`, repeats no cell, enters only passable
      cells, holds at most one entry per grid cell, and ends with `end` exactly
      when `end` is reachable. The path is a route from `start` to `end`, empty
      exactly when `end` is unreachable or is `start`, and no route is shorter. */
  method Bfs(grid: Grid, start: Coord, end: Coord) returns (result: Traversal)
    requires WellFormed(grid) && InBounds(grid, start)
    requires 0 <= end.row < |grid| ==> 0 <= end.col < |grid[0]|
    ensures result == SearchTraversal(grid, start, end, Fifo)
    ensures |result.visitedOrder| >= 1 && result.visitedOrder[0] == start
    ensures Distinct(result.visitedOrder)
    ensures forall i :: 1 <= i < |result.visitedOrder| ==> Passable(grid, result.visitedOrder[i])
    ensures |result.visitedOrder| <= |grid| * |grid[0]|
    ensures end in result.visitedOrder <==> Reachable(grid, start, end)
    ensures end in result.visitedOrder ==> result.visitedOrder[|result.visitedOrder| - 1] == end
    ensures result.path != [] <==> start != end && Reachable(grid, start, end)
    ensures result.path != [] ==> Route(grid, result.path, start, end)
    ensures result.path != [] ==> forall q :: Route(grid, q, start, end) ==> |result.path| <= |q|
  {
    result := Traverse(grid, start, end, Fifo);
    TraversalVisits(grid, start, end, Fifo, result);
    TraversalPath(grid, start, end, Fifo, result);
    BfsPathShortest(grid, start, end, result);
  }
}
