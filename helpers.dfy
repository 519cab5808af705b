/** `makeEmptyGrid` and `deepCopyGrid`: building a blank grid and copying one. */
module GridHelpers {
  import opened Grids

  /** `rows` rows (none when `rows` is negative) of `cols` cells each, the
      cell at `[r][c]` recording `r` and `c`, kind empty and weight 1. */
  ghost predicate Blank(g: Grid, rows: int, cols: int) {
    && |g| == (if rows < 0 then 0 else rows)
    && (forall r :: 0 <= r < |g| ==> BlankRow(g[r], r, cols))
  }

  /** Row `r` of a blank grid. */
  ghost predicate BlankRow(row: seq<Cell>, r: int, cols: int) {
    && |row| == (if cols < 0 then 0 else cols)
    && forall c :: 0 <= c < |row| ==> row[c] == Cell(r, c, Empty, 1)
  }

  /** `makeEmptyGrid(rows, cols)`: the nested loops pushing one new empty cell
      at a time. */
  method MakeEmptyGrid(rows: int, cols: int) returns (grid: Grid)
    ensures Blank(grid, rows, cols)
  {
    grid := [];
    var r := 0;
    while r < rows
      invariant 0 <= r && (rows >= 0 ==> r <= rows) && (rows < 0 ==> r == 0)
      invariant |grid| == r
      invariant forall i :: 0 <= i < r ==> BlankRow(grid[i], i, cols)
    {
      var row := [];
      var c := 0;
      while c < cols
        invariant 0 <= c && (cols >= 0 ==> c <= cols) && (cols < 0 ==> c == 0)
        invariant |row| == c
        invariant forall j :: 0 <= j < c ==> row[j] == Cell(r, j, Empty, 1)
      {
        row := row + [Cell(r, c, Empty, 1)];
        c := c + 1;
      }
      grid := grid + [row];
      r := r + 1;
    }
  }

  /** A blank grid with at least one row and one column is rectangular, has
      `rows * cols` cells, and none of them is a wall. */
  lemma BlankShape(g: Grid, rows: int, cols: int)
    requires Blank(g, rows, cols) && rows >= 1 && cols >= 1
    ensures WellFormed(g) && |g| == rows && |g[0]| == cols
    ensures |Cells(g)| == rows * cols
    ensures forall c :: InBounds(g, c) ==> Passable(g, c) && EnterCost(g, c) == 1
  {
    assert BlankRow(g[0], 0, cols);
    CellsCount(g);
  }

  /** In a blank grid every cell can be reached from every other: go along
      the column to the target's row, then along the row. */
  lemma BlankConnected(g: Grid, rows: int, cols: int, s: Coord, e: Coord)
    requires Blank(g, rows, cols) && InBounds(g, s) && InBounds(g, e)
    ensures Reachable(g, s, e)
  {
    BlankShape(g, rows, cols);
    WalkRoute(g, s, e);
  }

  /** The column-then-row walk from `s` to `e`. */
  function Walk(s: Coord, e: Coord): (q: seq<Coord>)
    ensures |q| >= 1 && q[0] == s && q[|q| - 1] == e
    decreases (if s.row < e.row then e.row - s.row else s.row - e.row) +
              (if s.col < e.col then e.col - s.col else s.col - e.col)
  {
    if s.row < e.row then [s] + Walk(Coord(s.row + 1, s.col), e)
    else if s.row > e.row then [s] + Walk(Coord(s.row - 1, s.col), e)
    else if s.col < e.col then [s] + Walk(Coord(s.row, s.col + 1), e)
    else if s.col > e.col then [s] + Walk(Coord(s.row, s.col - 1), e)
    else [s]
  }

  /** The walk between two cells of a grid without walls is a route. */
  lemma {:induction false} WalkRoute(g: Grid, s: Coord, e: Coord)
    requires WellFormed(g) && InBounds(g, s) && InBounds(g, e)
    requires forall c :: InBounds(g, c) ==> Passable(g, c)
    ensures Route(g, Walk(s, e), s, e)
    decreases (if s.row < e.row then e.row - s.row else s.row - e.row) +
              (if s.col < e.col then e.col - s.col else s.col - e.col)
  {
    if s != e {
      var n :=
        if s.row < e.row then Coord(s.row + 1, s.col)
        else if s.row > e.row then Coord(s.row - 1, s.col)
        else if s.col < e.col then Coord(s.row, s.col + 1)
        else Coord(s.row, s.col - 1);
      WalkRoute(g, n, e);
      RouteCons(g, s, Walk(n, e), n, e);
    }
  }

  /** A route extended at its front by an adjacent passable-or-start cell. */
  lemma RouteCons(g: Grid, s: Coord, q: seq<Coord>, n: Coord, e: Coord)
    requires Route(g, q, n, e) && InBounds(g, s) && Passable(g, n) && Adjacent(s, n)
    ensures Route(g, [s] + q, s, e)
  {
    var q' := [s] + q;
    assert forall i :: 1 <= i < |q'| ==> q'[i] == q[i - 1];
  }

  /** `deepCopyGrid(grid)`: a row-by-row, cell-by-cell copy. Cells are values
      here, so the copy is equal to the original in shape and in every field
      of every cell. */
  function DeepCopyGrid(grid: Grid): (copy: Grid)
    ensures |copy| == |grid|
    ensures forall r :: 0 <= r < |grid| ==> |copy[r]| == |grid[r]|
    ensures forall r, c :: 0 <= r < |grid| && 0 <= c < |grid[r]| ==> copy[r][c] == grid[r][c]
  {
    seq(|grid|, r requires 0 <= r < |grid| =>
      seq(|grid[r]|, c requires 0 <= c < |grid[r]| => CopyCell(grid[r][c])))
  }

  /** `{...cell}`: a cell with the same four fields. */
  function CopyCell(cell: Cell): (copy: Cell)
    ensures copy.row == cell.row && copy.col == cell.col
    ensures copy.kind == cell.kind && copy.weight == cell.weight
  {
    Cell(cell.row, cell.col, cell.kind, cell.weight)
  }

  /** Copying a grid changes nothing a search sees: the copy is the same grid. */
  lemma CopySame(grid: Grid)
    ensures DeepCopyGrid(grid) == grid
  {
    var copy := DeepCopyGrid(grid);
    forall r | 0 <= r < |grid| ensures copy[r] == grid[r] {
      assert |copy[r]| == |grid[r]|;
    }
  }
}
