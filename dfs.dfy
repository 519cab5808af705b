/** `dfs(grid, start, end)`: iterative depth-first search over the grid, a
    stack as the frontier. */
module DepthFirst {
  import opened Grids
  import opened SearchStates
  import opened GridSearch
  import opened FrontierSearch

  /** The visit order starts at `start`, repeats no cell, enters only passable
      cells, holds at most one entry per grid cell, and ends with `end` exactly
      when `end` is reachable. The path is a route from `start` to `end`, and it
      is empty exactly when `end` is unreachable or is `start`. */
  method Dfs(grid: Grid, start: Coord, end: Coord) returns (result: Traversal)
    requires WellFormed(grid) && InBounds(grid, start)
    requires 0 <= end.row < |grid| ==> 0 <= end.col < |grid[0]|
    ensures result == SearchTraversal(grid, start, end, Lifo)
    ensures |result.visitedOrder| >= 1 && result.visitedOrder[0] == start
    ensures Distinct(result.visitedOrder)
    ensures forall i :: 1 <= i < |result.visitedOrder| ==> Passable(grid, result.visitedOrder[i])
    ensures |result.visitedOrder| <= |grid| * |grid[0]|
    ensures end in result.visitedOrder <==> Reachable(grid, start, end)
    ensures end in result.visitedOrder ==> result.visitedOrder[|result.visitedOrder| - 1] == end
    ensures result.path != [] <==> start != end && Reachable(grid, start, end)
    ensures result.path != [] ==> Route(grid, result.path, start, end)
  {
    result := Traverse(grid, start, end, Lifo);
    TraversalVisits(grid, start, end, Lifo, result);
    TraversalPath(grid, start, end, Lifo, result);
  }
}
