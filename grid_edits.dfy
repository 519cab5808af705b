/** The grid edits of the pathfinding screen, as functions of the grid they
    are applied to: the cell tools, the replay painting of a search result,
    and clearing a finished replay. */
module GridEdits {
  import opened Grids

  /** The tool a click on a cell applies. */
  datatype Tool = WallTool | StartTool | EndTool | WeightTool

  /** What the cell edits act on: the grid and the two marked coordinates. */
  datatype Screen = Screen(grid: Grid, start: Coord, end: Coord)

  /** Every cell records its own coordinates. */
  ghost predicate SelfPlaced(g: Grid) {
    forall r, c :: 0 <= r < |g| && 0 <= c < |g[r]| ==> g[r][c].row == r && g[r][c].col == c
  }

  /** A rectangular grid whose cells record their coordinates, with the start
      and the end inside it. */
  ghost predicate ScreenOk(s: Screen) {
    WellFormed(s.grid) && SelfPlaced(s.grid) && InBounds(s.grid, s.start) && InBounds(s.grid, s.end)
  }

  ghost predicate SameShape(g: Grid, h: Grid) {
    |h| == |g| && forall r :: 0 <= r < |g| ==> |h[r]| == |g[r]|
  }

  /** `g` with the cell at `x` replaced by `cell`. */
  function SetCell(g: Grid, x: Coord, cell: Cell): (h: Grid)
    requires InBounds(g, x)
    ensures SameShape(g, h) && h[x.row][x.col] == cell
    ensures forall r, c :: 0 <= r < |g| && 0 <= c < |g[r]| && Coord(r, c) != x ==> h[r][c] == g[r][c]
  {
    g[x.row := g[x.row][x.col := cell]]
  }

  /** `g[x.row][x.col].type = k`. */
  function SetKind(g: Grid, x: Coord, k: Kind): (h: Grid)
    requires InBounds(g, x)
    ensures SameShape(g, h)
  {
    SetCell(g, x, CellAt(g, x).(kind := k))
  }

  // ---------------------------------------------------------------------------
  // handleToggleCell

  /** A click on the cell at `x` with `tool`. The wall tool leaves start and
      end cells alone and otherwise flips wall and empty. The start and end
      tools empty the old marked cell, mark the clicked one and take the
      coordinates it records. The weight tool flips weight and empty on any
      cell, start and end cells included, and sets the weight to 5 on a weight
      cell and to 1 otherwise. */
  function Toggle(s: Screen, x: Coord, tool: Tool): (t: Screen)
    requires InBounds(s.grid, x) && InBounds(s.grid, s.start) && InBounds(s.grid, s.end)
    ensures SameShape(s.grid, t.grid)
  {
    var c := CellAt(s.grid, x);
    match tool
    case WallTool =>
      if c.kind == Start || c.kind == End then s
      else s.(grid := SetCell(s.grid, x, c.(kind := if c.kind == Wall then Empty else Wall)))
    case StartTool =>
      var g := SetKind(s.grid, s.start, Empty);
      s.(grid := SetKind(g, x, Start), start := Coord(c.row, c.col))
    case EndTool =>
      var g := SetKind(s.grid, s.end, Empty);
      s.(grid := SetKind(g, x, End), end := Coord(c.row, c.col))
    case WeightTool =>
      var k := if c.kind == Weight then Empty else Weight;
      s.(grid := SetCell(s.grid, x, c.(kind := k, weight := if k == Weight then 5 else 1)))
  }

  /** Cells the edit did not name are as they were. */
  ghost predicate OnlyChanged(g: Grid, h: Grid, a: Coord, b: Coord)
    requires SameShape(g, h)
  {
    forall r, c :: 0 <= r < |g| && 0 <= c < |g[r]| && Coord(r, c) != a && Coord(r, c) != b ==> h[r][c] == g[r][c]
  }

  /** Every edit keeps the grid rectangular, self-placed, and both marks inside it. */
  lemma ToggleOk(s: Screen, x: Coord, tool: Tool)
    requires ScreenOk(s) && InBounds(s.grid, x)
    ensures ScreenOk(Toggle(s, x, tool))
  {
    var t := Toggle(s, x, tool);
    assert |t.grid[0]| == |s.grid[0]|;
  }

  /** The wall tool: start and end stay where they are; a click on a start or
      end cell changes nothing; any other clicked cell becomes a wall unless it
      was one, in which case it becomes empty, keeping its weight; no other
      cell changes. */
  lemma WallToolSpares(s: Screen, x: Coord)
    requires ScreenOk(s) && InBounds(s.grid, x)
    ensures var t := Toggle(s, x, WallTool);
      && t.start == s.start && t.end == s.end
      && (CellAt(s.grid, x).kind in {Start, End} ==> t == s)
      && OnlyChanged(s.grid, t.grid, x, x)
      && t.grid[x.row][x.col].weight == CellAt(s.grid, x).weight
      && (CellAt(s.grid, x).kind !in {Start, End} ==>
            (t.grid[x.row][x.col].kind == Wall <==> CellAt(s.grid, x).kind != Wall)
            && (t.grid[x.row][x.col].kind == Empty <==> CellAt(s.grid, x).kind == Wall))
  {
  }

  /** The start tool: the start moves to the clicked cell, which is marked
      start; the old start cell becomes empty unless it is the clicked one; no
      weight and no other cell changes, and the end stays. */
  lemma StartToolMoves(s: Screen, x: Coord)
    requires ScreenOk(s) && InBounds(s.grid, x)
    ensures var t := Toggle(s, x, StartTool);
      && t.start == x && t.end == s.end
      && t.grid[x.row][x.col].kind == Start
      && (x != s.start ==> t.grid[s.start.row][s.start.col].kind == Empty)
      && OnlyChanged(s.grid, t.grid, x, s.start)
      && t.grid[x.row][x.col].weight == CellAt(s.grid, x).weight
      && t.grid[s.start.row][s.start.col].weight == CellAt(s.grid, s.start).weight
  {
  }

  /** The end tool, the same for the end. */
  lemma EndToolMoves(s: Screen, x: Coord)
    requires ScreenOk(s) && InBounds(s.grid, x)
    ensures var t := Toggle(s, x, EndTool);
      && t.end == x && t.start == s.start
      && t.grid[x.row][x.col].kind == End
      && (x != s.end ==> t.grid[s.end.row][s.end.col].kind == Empty)
      && OnlyChanged(s.grid, t.grid, x, s.end)
      && t.grid[x.row][x.col].weight == CellAt(s.grid, x).weight
      && t.grid[s.end.row][s.end.col].weight == CellAt(s.grid, s.end).weight
  {
  }

  /** The weight tool: afterwards the clicked cell weighs 5 exactly when it is
      a weight cell and 1 otherwise; it is a weight cell exactly when it was
      not one before (a start or end cell included); no other cell changes. */
  lemma WeightToolFlips(s: Screen, x: Coord)
    requires ScreenOk(s) && InBounds(s.grid, x)
    ensures var t := Toggle(s, x, WeightTool);
      && t.start == s.start && t.end == s.end
      && OnlyChanged(s.grid, t.grid, x, x)
      && (t.grid[x.row][x.col].kind == Weight <==> CellAt(s.grid, x).kind != Weight)
      && (t.grid[x.row][x.col].kind != Weight ==> t.grid[x.row][x.col].kind == Empty)
      && t.grid[x.row][x.col].weight == (if t.grid[x.row][x.col].kind == Weight then 5 else 1)
  {
  }

  // ---------------------------------------------------------------------------
  // The replay loops of runAlgorithm

  /** The running flag as read by iteration `i` of a replay loop: the list
      gives the successive readings, and readings past its end find the flag
      still set. */
  function Flag(flags: seq<bool>, i: nat): bool {
    i >= |flags| || flags[i]
  }

  /** The number of iterations a replay over `n` cells runs: it stops at the
      first reading of a cleared flag. */
  function Stop(flags: seq<bool>, n: nat): (k: nat)
    ensures k <= n
    ensures forall j :: 0 <= j < k ==> Flag(flags, j)
    ensures k < n ==> !Flag(flags, k)
  {
    StopFrom(flags, 0, n)
  }

  function StopFrom(flags: seq<bool>, i: nat, n: nat): (k: nat)
    requires i <= n
    ensures i <= k <= n
    ensures forall j :: i <= j < k ==> Flag(flags, j)
    ensures k < n ==> !Flag(flags, k)
    decreases n - i
  {
    if i == n || !Flag(flags, i) then i else StopFrom(flags, i + 1, n)
  }

  ghost predicate AllIn(g: Grid, cells: seq<Coord>) {
    forall i :: 0 <= i < |cells| ==> InBounds(g, cells[i])
  }

  /** One step of the visited replay: an empty or weight cell becomes visited. */
  function PaintVisited(g: Grid, x: Coord): (h: Grid)
    requires InBounds(g, x)
    ensures SameShape(g, h)
    ensures forall r, c :: 0 <= r < |g| && 0 <= c < |g[r]| ==>
      h[r][c] == if Coord(r, c) == x && g[r][c].kind in {Empty, Weight} then g[r][c].(kind := Visited) else g[r][c]
  {
    var k := CellAt(g, x).kind;
    if k == Empty || k == Weight then SetKind(g, x, Visited) else g
  }

  /** The visited replay after its first `n` steps. Afterwards exactly the
      empty and weight cells among the first `n` of `cells` are visited, each
      keeping its weight and coordinates, and every other cell is as before. */
  function VisitedPainted(g: Grid, cells: seq<Coord>, n: nat): (h: Grid)
    requires n <= |cells| && AllIn(g, cells)
    ensures SameShape(g, h)
    ensures forall r, c :: 0 <= r < |g| && 0 <= c < |g[r]| ==>
      h[r][c] == if Coord(r, c) in cells[..n] && g[r][c].kind in {Empty, Weight}
                 then g[r][c].(kind := Visited) else g[r][c]
  {
    if n == 0 then g
    else
      var h := VisitedPainted(g, cells, n - 1);
      assert InBounds(h, cells[n - 1]);
      assert cells[..n] == cells[..n - 1] + [cells[n - 1]];
      PaintVisited(h, cells[n - 1])
  }

  /** One step of the path replay: a cell that is not the start or the end
      becomes a path cell. */
  function PaintPath(g: Grid, x: Coord): (h: Grid)
    requires InBounds(g, x)
    ensures SameShape(g, h)
    ensures forall r, c :: 0 <= r < |g| && 0 <= c < |g[r]| ==>
      h[r][c] == if Coord(r, c) == x && g[r][c].kind !in {Start, End} then g[r][c].(kind := Path) else g[r][c]
  {
    var k := CellAt(g, x).kind;
    if k != Start && k != End then SetKind(g, x, Path) else g
  }

  /** The path replay after its first `n` steps: exactly the cells among the
      first `n` of `cells` that are not start or end cells are path cells,
      keeping their weights, and every other cell is as before. */
  function PathPainted(g: Grid, cells: seq<Coord>, n: nat): (h: Grid)
    requires n <= |cells| && AllIn(g, cells)
    ensures SameShape(g, h)
    ensures forall r, c :: 0 <= r < |g| && 0 <= c < |g[r]| ==>
      h[r][c] == if Coord(r, c) in cells[..n] && g[r][c].kind !in {Start, End}
                 then g[r][c].(kind := Path) else g[r][c]
  {
    if n == 0 then g
    else
      var h := PathPainted(g, cells, n - 1);
      assert InBounds(h, cells[n - 1]);
      assert cells[..n] == cells[..n - 1] + [cells[n - 1]];
      PaintPath(h, cells[n - 1])
  }

  // ---------------------------------------------------------------------------
  // handleClearVisited

  /** A visited or path cell becomes empty. */
  function Unvisit(cell: Cell): (u: Cell)
    ensures u.row == cell.row && u.col == cell.col && u.weight == cell.weight
    ensures u.kind == if cell.kind in {Visited, Path} then Empty else cell.kind
  {
    if cell.kind == Visited || cell.kind == Path then cell.(kind := Empty) else cell
  }

  /** Clearing: every visited or path cell becomes empty, then the start cell
      is marked start and the end cell end (the end mark last). */
  function Cleared(g: Grid, start: Coord, end: Coord): (h: Grid)
    requires WellFormed(g) && InBounds(g, start) && InBounds(g, end)
    ensures SameShape(g, h)
    ensures forall r, c :: 0 <= r < |g| && 0 <= c < |g[r]| ==>
      h[r][c] == if Coord(r, c) == end then g[r][c].(kind := End)
                 else if Coord(r, c) == start then g[r][c].(kind := Start)
                 else Unvisit(g[r][c])
  {
    var u := UnvisitAll(g);
    SetKind(SetKind(u, start, Start), end, End)
  }

  /** Every cell of the grid unvisited. */
  function UnvisitAll(g: Grid): (h: Grid)
    ensures SameShape(g, h)
    ensures forall r, c :: 0 <= r < |g| && 0 <= c < |g[r]| ==> h[r][c] == Unvisit(g[r][c])
  {
    seq(|g|, r requires 0 <= r < |g| => seq(|g[r]|, c requires 0 <= c < |g[r]| => Unvisit(g[r][c])))
  }

  /** After clearing, no cell is visited or a path cell, walls and weight
      cells other than the marks are as they were, and every cell keeps its
      weight. */
  lemma ClearFacts(g: Grid, start: Coord, end: Coord)
    requires WellFormed(g) && InBounds(g, start) && InBounds(g, end)
    ensures var h := Cleared(g, start, end);
      && CellAt(h, end).kind == End
      && (start != end ==> CellAt(h, start).kind == Start)
      && (forall r, c :: 0 <= r < |h| && 0 <= c < |h[r]| ==>
            h[r][c].kind !in {Visited, Path} && h[r][c].weight == g[r][c].weight
            && (g[r][c].kind in {Wall, Weight} && Coord(r, c) != start && Coord(r, c) != end ==> h[r][c] == g[r][c]))
  {
  }

  /** The weight quirk: a weight cell the visited replay reached is visited
      and keeps its weight; clearing then makes it an empty cell that still
      keeps that weight, so entering it still costs what it did as a weight
      cell, not the 1 of an empty cell. */
  lemma WeightQuirk(g: Grid, start: Coord, end: Coord, cells: seq<Coord>, n: nat, x: Coord)
    requires WellFormed(g) && InBounds(g, start) && InBounds(g, end) && AllIn(g, cells)
    requires n <= |cells| && x in cells[..n] && x != start && x != end
    requires CellAt(g, x).kind == Weight
    ensures var p := VisitedPainted(g, cells, n);
      && CellAt(p, x).kind == Visited && CellAt(p, x).weight == CellAt(g, x).weight
      && var h := Cleared(p, start, end);
         CellAt(h, x).kind == Empty && EnterCost(h, x) == EnterCost(g, x)
  {
    var p := VisitedPainted(g, cells, n);
    assert p[x.row][x.col] == g[x.row][x.col].(kind := Visited);
    assert WellFormed(p) by {
      assert |p[0]| == |g[0]|;
    }
  }
}
