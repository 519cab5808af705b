/** The pathfinding grid: cells, coordinates, bounds, orthogonal moves, and
    the walks ("routes") that the traversal algorithms are measured against. */
module Grids {

  datatype Option<T> = None | Some(value: T)

  /** A `{row, col}` position. */
  datatype Coord = Coord(row: int, col: int)

  /** The `type` string of a cell. */
  datatype Kind = Empty | Wall | Start | End | Weight | Visited | Path

  /** One grid cell: the coordinates it records, its kind and its weight. */
  datatype Cell = Cell(row: int, col: int, kind: Kind, weight: nat)

  /** Rows of cells, indexed `[row][col]`. */
  type Grid = seq<seq<Cell>>

  /** At least one row, and every row as long as the first. */
  ghost predicate WellFormed(g: Grid) {
    |g| >= 1 && forall r :: 0 <= r < |g| ==> |g[r]| == |g[0]|
  }

  predicate InBounds(g: Grid, c: Coord) {
    0 <= c.row < |g| && 0 <= c.col < |g[c.row]|
  }

  function CellAt(g: Grid, c: Coord): Cell
    requires InBounds(g, c)
  {
    g[c.row][c.col]
  }

  /** Inside the grid and not a wall: a cell a search may enter. */
  predicate Passable(g: Grid, c: Coord) {
    InBounds(g, c) && CellAt(g, c).kind != Wall
  }

  /** The direction table shared by every search: down, up, right, left. */
  const Dirs: seq<(int, int)> := [(1, 0), (-1, 0), (0, 1), (0, -1)]

  function Shift(c: Coord, k: nat): Coord
    requires k < |Dirs|
  {
    Coord(c.row + Dirs[k].0, c.col + Dirs[k].1)
  }

  /** One orthogonal step apart. */
  predicate Adjacent(a: Coord, b: Coord) {
    (a.row == b.row && (a.col - b.col == 1 || b.col - a.col == 1)) ||
    (a.col == b.col && (a.row - b.row == 1 || b.row - a.row == 1))
  }

  /** The direction index that leads from `u` to an adjacent `n`. */
  function DirOf(u: Coord, n: Coord): (k: nat)
    requires Adjacent(u, n)
    ensures k < |Dirs| && Shift(u, k) == n
  {
    if n.row == u.row + 1 then 0
    else if n.row == u.row - 1 then 1
    else if n.col == u.col + 1 then 2
    else 3
  }

  lemma ShiftIsAdjacent(u: Coord, k: nat)
    requires k < |Dirs|
    ensures Adjacent(u, Shift(u, k))
  {
  }

  /** The price of entering a cell: its weight, or 1 when the weight is 0 (`weight || 1`). */
  function CellCost(c: Cell): (w: nat)
    ensures w >= 1
  {
    if c.weight == 0 then 1 else c.weight
  }

  function EnterCost(g: Grid, c: Coord): nat
    requires InBounds(g, c)
  {
    CellCost(CellAt(g, c))
  }

  /** Every coordinate of the grid. */
  ghost function Cells(g: Grid): set<Coord> {
    set r, c | 0 <= r < |g| && 0 <= c < |g[r]| :: Coord(r, c)
  }

  lemma InCells(g: Grid, c: Coord)
    ensures c in Cells(g) <==> InBounds(g, c)
  {
    if InBounds(g, c) {
      assert Coord(c.row, c.col) in Cells(g);
    }
  }

  ghost predicate Distinct<T>(s: seq<T>) {
    forall i, j :: 0 <= i < j < |s| ==> s[i] != s[j]
  }

  ghost function Elems<T>(s: seq<T>): set<T> {
    set x | x in s
  }

  /** A walk from `s` to `e`: it starts inside the grid, every later cell is
      passable, and consecutive cells are one orthogonal step apart. The start
      cell's own kind is not examined, as none of the searches examines it. */
  ghost predicate Route(g: Grid, q: seq<Coord>, s: Coord, e: Coord) {
    && |q| >= 1
    && q[0] == s
    && q[|q| - 1] == e
    && InBounds(g, s)
    && (forall i :: 1 <= i < |q| ==> Passable(g, q[i]))
    && (forall i :: 0 <= i < |q| - 1 ==> Adjacent(q[i], q[i + 1]))
  }

  ghost predicate Reachable(g: Grid, s: Coord, e: Coord) {
    exists q :: Route(g, q, s, e)
  }

  /** The weight a route pays: the entering cost of every cell after the first. */
  ghost function RouteCost(g: Grid, q: seq<Coord>): nat
    requires forall i :: 1 <= i < |q| ==> InBounds(g, q[i])
  {
    if |q| <= 1 then 0 else RouteCost(g, q[..|q| - 1]) + EnterCost(g, q[|q| - 1])
  }

  /** A route's cost is at least that of any of its prefixes plus the step into
      the next cell. */
  lemma {:induction false} RouteCostPrefix(g: Grid, q: seq<Coord>, i: nat)
    requires forall j :: 1 <= j < |q| ==> InBounds(g, q[j])
    requires 1 <= i < |q|
    ensures RouteCost(g, q[..i]) + EnterCost(g, q[i]) <= RouteCost(g, q)
  {
    if i == |q| - 1 {
      assert q[..|q| - 1] == q[..i];
    } else {
      var p := q[..|q| - 1];
      assert p[..i] == q[..i];
      assert p[i] == q[i];
      RouteCostPrefix(g, p, i);
    }
  }

  /** A prefix of a route is a route to its own last cell. */
  lemma RoutePrefix(g: Grid, q: seq<Coord>, s: Coord, e: Coord, i: nat)
    requires Route(g, q, s, e)
    requires 1 <= i <= |q|
    ensures Route(g, q[..i], s, q[i - 1])
  {
  }

  /** A grid of `rows` rows and `cols` columns has `rows * cols` cells. */
  lemma {:induction false} CellsCount(g: Grid)
    requires WellFormed(g)
    ensures |Cells(g)| == |g| * |g[0]|
  {
    BoxCount(|g|, |g[0]|);
    assert Cells(g) == Box(|g|, |g[0]|);
  }

  ghost function Box(rows: nat, cols: nat): set<Coord> {
    set r, c | 0 <= r < rows && 0 <= c < cols :: Coord(r, c)
  }

  ghost function Band(r: int, cols: nat): set<Coord> {
    set c | 0 <= c < cols :: Coord(r, c)
  }

  lemma {:induction false} BandCount(r: int, cols: nat)
    ensures |Band(r, cols)| == cols
  {
    if cols > 0 {
      BandCount(r, cols - 1);
      assert Band(r, cols) == Band(r, cols - 1) + {Coord(r, cols - 1)};
    } else {
      assert Band(r, cols) == {};
    }
  }

  lemma {:induction false} BoxCount(rows: nat, cols: nat)
    ensures |Box(rows, cols)| == rows * cols
  {
    if rows > 0 {
      BoxCount(rows - 1, cols);
      BandCount(rows - 1, cols);
      BoxSplit(rows, cols);
      MulStep(rows - 1, cols);
    } else {
      assert Box(rows, cols) == {};
    }
  }

  /** The last row of a box is a band disjoint from the rows above it. */
  lemma BoxSplit(rows: nat, cols: nat)
    requires rows > 0
    ensures Box(rows, cols) == Box(rows - 1, cols) + Band(rows - 1, cols)
    ensures Box(rows - 1, cols) !! Band(rows - 1, cols)
  {
    forall x | x in Box(rows, cols) ensures x in Box(rows - 1, cols) + Band(rows - 1, cols) {
      if x.row < rows - 1 {
        assert x in Box(rows - 1, cols);
      } else {
        assert x in Band(rows - 1, cols);
      }
    }
  }

  lemma MulStep(a: nat, b: nat)
    ensures a * b + b == (a + 1) * b
  {
  }

  /** Removing one entry of a sequence without repetitions removes exactly
      that element. */
  lemma RemoveAt<T>(f: seq<T>, i: nat)
    requires i < |f| && Distinct(f)
    ensures Distinct(f[..i] + f[i + 1..])
    ensures f[i] !in f[..i] + f[i + 1..]
    ensures Elems(f) == Elems(f[..i] + f[i + 1..]) + {f[i]}
  {
    var t := f[..i] + f[i + 1..];
    assert forall j :: 0 <= j < |t| ==> t[j] == f[if j < i then j else j + 1];
    forall x | x in f ensures x in t || x == f[i] {
      var j :| 0 <= j < |f| && f[j] == x;
      if j < i { assert t[j] == x; } else if j > i { assert t[j - 1] == x; }
    }
  }

  /** Appending a new element to a sequence without repetitions. */
  lemma AppendFresh<T>(f: seq<T>, x: T)
    requires Distinct(f) && x !in f
    ensures Distinct(f + [x]) && Elems(f + [x]) == Elems(f) + {x}
  {
  }

  /** A sequence without repetitions is no longer than any set holding its elements. */
  lemma {:induction false} DistinctLength<T>(s: seq<T>, S: set<T>)
    requires Distinct(s)
    requires forall x :: x in s ==> x in S
    ensures |s| <= |S|
  {
    if s != [] {
      var x := s[|s| - 1];
      var t := s[..|s| - 1];
      assert forall y :: y in t ==> y in S - {x} by {
        forall y | y in t ensures y in S - {x} {
          var i :| 0 <= i < |t| && t[i] == y;
          assert s[i] == y;
        }
      }
      DistinctLength(t, S - {x});
    }
  }

  /** A proper subset is smaller. */
  lemma SubsetSmaller<T>(a: set<T>, b: set<T>, x: T)
    requires a <= b && x in b && x !in a
    ensures |a| < |b|
  {
    SubsetNoLarger(a, b - {x});
  }

  lemma {:induction false} SubsetNoLarger<T>(a: set<T>, b: set<T>)
    requires a <= b
    ensures |a| <= |b|
  {
    if a != {} {
      var y :| y in a;
      SubsetNoLarger(a - {y}, b - {y});
    }
  }
}
