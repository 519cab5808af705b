/** `dijkstra(grid, start, end)`: repeatedly settle the closest unvisited cell,
    found by a row-major scan, and relax the edges into its passable
    neighbours; stop once the end is settled or no unvisited cell has a finite
    distance. */
module Dijkstra {
  import opened Grids
  import opened ParentPaths
  import opened SearchStates
  import opened GridSearch
  import opened WeightedSearch

  /** `neighbors(r, c)`: the cells one step away that lie inside the grid and
      are not walls, in the order down, up, right, left. */
  function Neighbors(grid: Grid, u: Coord): (ns: seq<Coord>)
    requires WellFormed(grid)
    ensures forall n :: n in ns <==> Adjacent(u, n) && Passable(grid, n)
  {
    assert forall n :: Adjacent(u, n) ==> Shift(u, DirOf(u, n)) == n;
    assert forall j :: 0 <= j < |Dirs| ==> Adjacent(u, Shift(u, j));
    NeighborsFrom(grid, u, 0)
  }

  function NeighborsFrom(grid: Grid, u: Coord, k: nat): (ns: seq<Coord>)
    requires WellFormed(grid) && k <= |Dirs|
    ensures forall n :: n in ns <==> exists j :: k <= j < |Dirs| && Shift(u, j) == n && Passable(grid, n)
    decreases |Dirs| - k
  {
    if k == |Dirs| then []
    else
      var n := Shift(u, k);
      (if 0 <= n.row < |grid| && 0 <= n.col < |grid[0]| && grid[n.row][n.col].kind != Wall then [n] else [])
        + NeighborsFrom(grid, u, k + 1)
  }

  /** The distance table agrees with the finite labels `D`. */
  ghost predicate MirrorsDist(dist: array2<Dist>, D: map<Coord, nat>)
    reads dist
  {
    && (forall v :: v in D ==> 0 <= v.row < dist.Length0 && 0 <= v.col < dist.Length1)
    && forall r, c :: 0 <= r < dist.Length0 && 0 <= c < dist.Length1 ==>
         dist[r, c] == if Coord(r, c) in D then Fin(D[Coord(r, c)]) else Inf
  }

  /** The visited table marks exactly the settled cells. */
  ghost predicate MirrorsSettled(visited: array2<bool>, order: seq<Coord>)
    reads visited
  {
    forall r, c :: 0 <= r < visited.Length0 && 0 <= c < visited.Length1 ==>
      (visited[r, c] <==> Coord(r, c) in order)
  }

  /** The scan state after the cells before `(r, c)` in row-major order. */
  ghost predicate Scan(dist: array2<Dist>, visited: array2<bool>, u: Option<Coord>, min: Dist, r: int, c: int)
    requires dist.Length0 == visited.Length0 && dist.Length1 == visited.Length1
    reads dist, visited
  {
    && (u.None? ==> min == Inf)
    && (u.Some? ==>
          && 0 <= u.value.row < dist.Length0 && 0 <= u.value.col < dist.Length1
          && RowMajorBefore(u.value.row, u.value.col, r, c)
          && !visited[u.value.row, u.value.col] && min.Fin? && dist[u.value.row, u.value.col] == min)
    && (forall r', c' ::
          0 <= r' < dist.Length0 && 0 <= c' < dist.Length1 && RowMajorBefore(r', c', r, c) && !visited[r', c']
          ==> !Below(dist[r', c'], min))
    && (forall r', c' ::
          0 <= r' < dist.Length0 && 0 <= c' < dist.Length1 && u.Some?
          && RowMajorBefore(r', c', u.value.row, u.value.col) && !visited[r', c']
          ==> Below(min, dist[r', c']))
  }

  /** The row-major scan for the closest unvisited cell. With the strict `<`,
      the first of several equally close cells is chosen; `None` when every
      unvisited cell is at distance `Infinity`. */
  method SelectMin(dist: array2<Dist>, visited: array2<bool>) returns (u: Option<Coord>)
    requires dist.Length0 == visited.Length0 && dist.Length1 == visited.Length1
    ensures u.None? <==>
      forall r, c :: 0 <= r < dist.Length0 && 0 <= c < dist.Length1 && !visited[r, c] ==> dist[r, c] == Inf
    ensures u.Some? ==>
      && 0 <= u.value.row < dist.Length0 && 0 <= u.value.col < dist.Length1
      && !visited[u.value.row, u.value.col] && dist[u.value.row, u.value.col].Fin?
      && (forall r, c :: 0 <= r < dist.Length0 && 0 <= c < dist.Length1 && !visited[r, c] ==>
            !Below(dist[r, c], dist[u.value.row, u.value.col]))
      && (forall r, c ::
            0 <= r < dist.Length0 && 0 <= c < dist.Length1 && !visited[r, c]
            && RowMajorBefore(r, c, u.value.row, u.value.col)
            ==> Below(dist[u.value.row, u.value.col], dist[r, c]))
  {
    var min := Inf;
    u := None;
    for r := 0 to dist.Length0
      invariant Scan(dist, visited, u, min, r, 0)
    {
      for c := 0 to dist.Length1
        invariant Scan(dist, visited, u, min, r, c)
      {
        if !visited[r, c] && Below(dist[r, c], min) {
          min := dist[r, c];
          u := Some(Coord(r, c));
        }
      }
    }
  }

  /** What a run of the shortest-path search promises about its result,
      `costs[i]` being the distance of the `i`-th settled cell. The visit
      order starts at `start`, repeats no cell, enters only passable cells,
      and ends with `end` exactly when `end` is reachable; each settled
      distance is the cost of a cheapest route, and they never decrease. When
      `end` is settled, so is every cell whose route from `start` is cheaper
      than the end's, or as cheap and before the end in row-major order; when
      it is not, every reachable cell is settled. The path is a route of least
      cost from `start` to `end`, that cost being the end's distance, and it is
      empty exactly when `end` is unreachable or is `start`. */
  ghost predicate ShortestRun(grid: Grid, start: Coord, end: Coord, result: Traversal, costs: seq<nat>)
    requires WellFormed(grid)
  {
    SettledRun(grid, start, end, result.visitedOrder, costs) && CheapestPath(grid, start, end, result.path, costs)
  }

  /** The visit-order half of `ShortestRun`. */
  ghost predicate SettledRun(grid: Grid, start: Coord, end: Coord, order: seq<Coord>, costs: seq<nat>)
    requires WellFormed(grid)
  {
    && |order| >= 1 && order[0] == start
    && Distinct(order)
    && (forall i :: 1 <= i < |order| ==> Passable(grid, order[i]))
    && |order| <= |grid| * |grid[0]|
    && (end in order <==> Reachable(grid, start, end))
    && (end in order ==> order[|order| - 1] == end)
    && |costs| == |order| && costs[0] == 0
    && (forall i :: 0 <= i < |costs| ==> IsCheapest(grid, start, order[i], costs[i]))
    && (forall i, j :: 0 <= i <= j < |costs| ==> costs[i] <= costs[j])
    && (end in order ==>
          forall v, q :: Route(grid, q, start, v) && Ahead(grid, q, v, end, costs[|costs| - 1]) ==> v in order)
    && (end !in order ==> forall v :: Reachable(grid, start, v) ==> v in order)
  }

  /** The path half of `ShortestRun`. */
  ghost predicate CheapestPath(grid: Grid, start: Coord, end: Coord, path: seq<Coord>, costs: seq<nat>) {
    && (path != [] <==> start != end && Reachable(grid, start, end))
    && (path != [] ==> Route(grid, path, start, end))
    && (path != [] ==> |costs| >= 1 && RouteCost(grid, path) == costs[|costs| - 1])
    && (path != [] ==>
          forall q :: Route(grid, q, start, end) ==> RouteCost(grid, path) <= RouteCost(grid, q))
  }

  /** The shortest-path search: its result meets `ShortestRun` for the
      distances of the cells it settled. */
  method Dijkstra(grid: Grid, start: Coord, end: Coord) returns (result: Traversal)
    requires WellFormed(grid) && InBounds(grid, start)
    requires 0 <= end.row < |grid| ==> 0 <= end.col < |grid[0]|
    ensures exists costs :: ShortestRun(grid, start, end, result, costs)
  {
    var dist, visited, parent := Tables(grid, start);
    var visitedOrder;
    ghost var L;
    visitedOrder, L := Settle(grid, start, end, dist, visited, parent);
    LabelledRoute(grid, start, L, start);
    var path := ReconstructPath(parent, start, end, L.P, L.D);
    result := Traversal(visitedOrder, path);
    ghost var costs := Costs(L);
    Finished(grid, start, end, L, path, costs);
  }

  /** What the labels of a finished search say about the visit order, the
      distances and the rebuilt path. */
  lemma Finished(grid: Grid, start: Coord, end: Coord, L: Labels, path: seq<Coord>, costs: seq<nat>)
    requires DFinal(grid, start, end, L) && Ranked(L.P, L.D, start)
    requires path == (if end in L.P then TracePath(L.P, L.D, start, end) else [])
    requires costs == Costs(L)
    ensures ShortestRun(grid, start, end, Traversal(L.order, path), costs)
  {
    Outcome(grid, start, end, L);
    CostFacts(grid, start, end, L, costs);
    PathFacts(grid, start, end, L, path);
  }

  /** The three tables of the search: every distance `Infinity` but the
      start's 0, nothing visited, no parents. */
  method Tables(grid: Grid, start: Coord) returns (dist: array2<Dist>, visited: array2<bool>, parent: array2<Option<Coord>>)
    requires WellFormed(grid) && InBounds(grid, start)
    ensures fresh(dist) && fresh(visited) && fresh(parent)
    ensures dist.Length0 == |grid| && dist.Length1 == |grid[0]|
    ensures Agree(dist, visited, parent, StartLabels(start))
  {
    dist := new Dist[|grid|, |grid[0]|]((r, c) => Inf);
    visited := new bool[|grid|, |grid[0]|]((r, c) => false);
    parent := new Option<Coord>[|grid|, |grid[0]|]((r, c) => None);
    dist[start.row, start.col] := Fin(0);
  }

  /** The distance table, the visited table and the parent table agree with
      the labels `L`. */
  ghost predicate Agree(dist: array2<Dist>, visited: array2<bool>, parent: array2<Option<Coord>>, L: Labels)
    reads dist, visited, parent
  {
    && dist.Length0 == visited.Length0 == parent.Length0
    && dist.Length1 == visited.Length1 == parent.Length1
    && MirrorsDist(dist, L.D) && MirrorsSettled(visited, L.order) && MirrorsParent(parent, L.P)
  }

  /** The main loop, from the tables holding only the start's distance 0. */
  method Settle(grid: Grid, start: Coord, end: Coord,
                dist: array2<Dist>, visited: array2<bool>, parent: array2<Option<Coord>>)
    returns (visitedOrder: seq<Coord>, ghost L: Labels)
    requires WellFormed(grid) && InBounds(grid, start)
    requires dist.Length0 == |grid| && dist.Length1 == |grid[0]|
    requires Agree(dist, visited, parent, StartLabels(start))
    modifies dist, visited, parent
    ensures DFinal(grid, start, end, L) && visitedOrder == L.order
    ensures Agree(dist, visited, parent, L)
  {
    visitedOrder := [];
    L := StartLabels(start);
    StartInv(grid, start, end);
    while true
      invariant DInv(grid, start, end, L) && visitedOrder == L.order
      invariant Agree(dist, visited, parent, L)
      decreases |Cells(grid)| - |L.order|
    {
      var u := NextToSettle(dist, visited, L);
      if u == None {
        Exhausted(grid, start, end, L);
        break;
      }
      var x := u.value;
      if x == end {
        L := SettleLast(grid, start, end, dist, visited, parent, L);
        visitedOrder := visitedOrder + [x];
        break;
      }
      L := SettleOne(grid, start, end, dist, visited, parent, x, L);
      visitedOrder := visitedOrder + [x];
    }
  }

  /** The round that settles the end: mark it visited and stop. */
  method SettleLast(grid: Grid, start: Coord, end: Coord,
                    dist: array2<Dist>, visited: array2<bool>, parent: array2<Option<Coord>>,
                    ghost L0: Labels)
    returns (ghost L: Labels)
    requires DInv(grid, start, end, L0) && FirstClosest(L0, end)
    requires Agree(dist, visited, parent, L0)
    modifies visited
    ensures DFinal(grid, start, end, L) && L.order == L0.order + [end]
    ensures Agree(dist, visited, parent, L)
  {
    Mark(visited, end, L0.order);
    SettleEnd(grid, start, end, L0);
    L := L0.(order := L0.order + [end]);
  }

  /** One round for a closest unvisited cell `u` other than the end: mark it
      visited, then relax the edges into its passable neighbours. */
  method SettleOne(grid: Grid, start: Coord, end: Coord,
                   dist: array2<Dist>, visited: array2<bool>, parent: array2<Option<Coord>>,
                   u: Coord, ghost L0: Labels)
    returns (ghost L: Labels)
    requires Selected(grid, start, end, L0, u)
    requires dist.Length0 == |grid| && dist.Length1 == |grid[0]|
    requires Agree(dist, visited, parent, L0)
    modifies dist, visited, parent
    ensures |L0.order| < |Cells(grid)|
    ensures DInv(grid, start, end, L) && L.order == L0.order + [u]
    ensures Agree(dist, visited, parent, L)
  {
    OrderRoom(grid, start, end, L0, u);
    Mark(visited, u, L0.order);
    L := Expand(grid, start, end, dist, parent, u, L0);
  }

  /** `neighbors(u)` and the relaxation of the edges into them. */
  method Expand(grid: Grid, start: Coord, end: Coord, dist: array2<Dist>, parent: array2<Option<Coord>>,
                u: Coord, ghost L0: Labels)
    returns (ghost L: Labels)
    requires Selected(grid, start, end, L0, u)
    requires dist.Length0 == parent.Length0 == |grid| && dist.Length1 == parent.Length1 == |grid[0]|
    requires MirrorsDist(dist, L0.D) && MirrorsParent(parent, L0.P)
    modifies dist, parent
    ensures DInv(grid, start, end, L) && L.order == L0.order + [u]
    ensures MirrorsDist(dist, L.D) && MirrorsParent(parent, L.P)
  {
    var ns := Neighbors(grid, u);
    SettleKeeps(grid, start, end, L0, u, ns);
    L := RelaxNeighbors(grid, start, end, dist, parent, u, ns, L0.(order := L0.order + [u]));
    RelaxDone(grid, start, end, L, u, ns);
  }

  /** The scan read through the labels: `None` when every labelled cell is
      settled, otherwise a closest unsettled one. */
  method NextToSettle(dist: array2<Dist>, visited: array2<bool>, ghost L: Labels) returns (u: Option<Coord>)
    requires dist.Length0 == visited.Length0 && dist.Length1 == visited.Length1
    requires MirrorsDist(dist, L.D) && MirrorsSettled(visited, L.order)
    ensures u.None? ==> forall v :: v in L.D ==> v in L.order
    ensures u.Some? ==> FirstClosest(L, u.value)
    ensures u.Some? ==> 0 <= u.value.row < dist.Length0 && 0 <= u.value.col < dist.Length1
  {
    u := SelectMin(dist, visited);
    if u == None {
      forall v | v in L.D ensures v in L.order {
        assert dist[v.row, v.col] != Inf;
      }
    }
  }

  /** `visited[u] = true`: the table now marks `u` as settled too. */
  method Mark(visited: array2<bool>, u: Coord, ghost order: seq<Coord>)
    requires 0 <= u.row < visited.Length0 && 0 <= u.col < visited.Length1
    requires MirrorsSettled(visited, order)
    modifies visited
    ensures MirrorsSettled(visited, order + [u])
  {
    visited[u.row, u.col] := true;
  }

  /** Relax the edges from the newly settled `u` into each of `ns`. */
  method RelaxNeighbors(grid: Grid, start: Coord, end: Coord, dist: array2<Dist>, parent: array2<Option<Coord>>,
                        u: Coord, ns: seq<Coord>, ghost L0: Labels)
    returns (ghost L: Labels)
    requires RInv(grid, start, end, L0, u, ns, 0)
    requires dist.Length0 == parent.Length0 == |grid| && dist.Length1 == parent.Length1 == |grid[0]|
    requires MirrorsDist(dist, L0.D) && MirrorsParent(parent, L0.P)
    modifies dist, parent
    ensures RInv(grid, start, end, L, u, ns, |ns|) && L.order == L0.order
    ensures MirrorsDist(dist, L.D) && MirrorsParent(parent, L.P)
  {
    L := L0;
    for i := 0 to |ns|
      invariant RInv(grid, start, end, L, u, ns, i) && L.order == L0.order
      invariant MirrorsDist(dist, L.D) && MirrorsParent(parent, L.P)
    {
      RelaxKeeps(grid, start, end, L, u, ns, i);
      L := RelaxEdge(grid, dist, parent, u, ns[i], L);
    }
  }

  /** `if (dist[u] + w < dist[n]) { dist[n] = dist[u] + w; parent[n] = u }`,
      with `w` the cost of entering `n`. */
  method RelaxEdge(grid: Grid, dist: array2<Dist>, parent: array2<Option<Coord>>, u: Coord, n: Coord, ghost L0: Labels)
    returns (ghost L: Labels)
    requires u in L0.D && InBounds(grid, n)
    requires MirrorsDist(dist, L0.D) && MirrorsParent(parent, L0.P)
    requires dist.Length0 == parent.Length0 && dist.Length1 == parent.Length1
    requires n.row < dist.Length0 && n.col < dist.Length1
    modifies dist, parent
    ensures L == Relax(grid, L0, u, n)
    ensures MirrorsDist(dist, L.D) && MirrorsParent(parent, L.P)
  {
    var w := CellCost(grid[n.row][n.col]);
    var du := dist[u.row, u.col];
    assert du.n + w == L0.D[u] + EnterCost(grid, n);
    var dn := dist[n.row, n.col];
    RelaxChoice(grid, L0, u, n, du.n + w, dn);
    if Below(Fin(du.n + w), dn) {
      Lower(dist, parent, n, du.n + w, u, L0.D, L0.P);
      L := L0.(D := L0.D[n := du.n + w], P := L0.P[n := u]);
    } else {
      L := L0;
    }
  }

  /** Relaxing through `u` with the new distance `nd` against the current
      label `dn` of `n`. */
  lemma RelaxChoice(g: Grid, L0: Labels, u: Coord, n: Coord, nd: nat, dn: Dist)
    requires u in L0.D && InBounds(g, n)
    requires nd == L0.D[u] + EnterCost(g, n) && dn == DistOf(L0, n)
    ensures Relax(g, L0, u, n) == if Below(Fin(nd), dn) then L0.(D := L0.D[n := nd], P := L0.P[n := u]) else L0
  {
  }

  /** `dist[n] = d; parent[n] = u`. */
  method Lower(dist: array2<Dist>, parent: array2<Option<Coord>>, n: Coord, d: nat, u: Coord,
               ghost D: map<Coord, nat>, ghost P: map<Coord, Coord>)
    requires 0 <= n.row < dist.Length0 && 0 <= n.col < dist.Length1
    requires dist.Length0 == parent.Length0 && dist.Length1 == parent.Length1
    requires MirrorsDist(dist, D) && MirrorsParent(parent, P)
    modifies dist, parent
    ensures MirrorsDist(dist, D[n := d]) && MirrorsParent(parent, P[n := u])
  {
    dist[n.row, n.col] := Fin(d);
    parent[n.row, n.col] := Some(u);
  }

  /** The distance of each settled cell, in settling order. */
  ghost function Costs(L: Labels): (costs: seq<nat>)
    requires forall v :: v in L.order ==> v in L.D
    ensures |costs| == |L.order| && forall i :: 0 <= i < |L.order| ==> costs[i] == L.D[L.order[i]]
  {
    seq(|L.order|, i requires 0 <= i < |L.order| => L.D[L.order[i]])
  }

  /** A finished search's labels form a parent tree, and its visit order
      starts at the start, repeats no cell, enters only passable cells and
      holds the end, last, exactly when the end is reachable. */
  lemma Outcome(grid: Grid, start: Coord, end: Coord, L: Labels)
    requires DFinal(grid, start, end, L)
    ensures Ranked(L.P, L.D, start)
    ensures |L.order| >= 1 && L.order[0] == start && Distinct(L.order)
    ensures forall v :: v in L.order ==> v in L.D
    ensures forall i :: 1 <= i < |L.order| ==> Passable(grid, L.order[i])
    ensures |L.order| <= |grid| * |grid[0]|
    ensures end in L.order <==> Reachable(grid, start, end)
    ensures end in L.order ==> L.order[|L.order| - 1] == end
  {
    LabelledRoute(grid, start, L, start);
    forall i | 1 <= i < |L.order| ensures Passable(grid, L.order[i]) {
      assert L.order[i] != L.order[0];
      assert L.order[i] in L.P;
    }
    DistinctLength(L.order, Cells(grid));
    CellsCount(grid);
    if end in L.order {
      LabelledRoute(grid, start, L, end);
    }
  }


  /** Each settled distance is the cost of a cheapest route, the start's is
      0, and they never decrease. */
  lemma CostFacts(grid: Grid, start: Coord, end: Coord, L: Labels, costs: seq<nat>)
    requires DFinal(grid, start, end, L)
    requires costs == Costs(L)
    ensures |costs| == |L.order| && costs[0] == 0
    ensures forall i :: 0 <= i < |costs| ==> IsCheapest(grid, start, L.order[i], costs[i])
    ensures forall i, j :: 0 <= i <= j < |costs| ==> costs[i] <= costs[j]
  {
    forall i | 0 <= i < |L.order| ensures IsCheapest(grid, start, L.order[i], costs[i]) {
      SettledCheapest(grid, start, L, L.order[i]);
    }
  }

  /** The rebuilt path is a cheapest route to the end, whose cost is the
      end's distance; it is empty exactly when the end is the start or is
      unreachable. */
  lemma PathFacts(grid: Grid, start: Coord, end: Coord, L: Labels, path: seq<Coord>)
    requires DFinal(grid, start, end, L)
    requires Ranked(L.P, L.D, start)
    requires path == if end in L.P then TracePath(L.P, L.D, start, end) else []
    ensures path != [] <==> start != end && Reachable(grid, start, end)
    ensures path != [] ==> end in L.order && L.order[|L.order| - 1] == end
    ensures path != [] ==> Route(grid, path, start, end) && RouteCost(grid, path) == L.D[end]
    ensures path != [] ==> forall q :: Route(grid, q, start, end) ==> RouteCost(grid, path) <= RouteCost(grid, q)
  {
    if end in L.order {
      LabelledRoute(grid, start, L, end);
    }
    if path != [] {
      TraceShape(L.P, L.D, start, end);
    }
  }
}
