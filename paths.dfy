/** Rebuilding a path by walking parent pointers back from the end cell, as
    all three frontend searches do after their main loop. */
module ParentPaths {
  import opened Grids

  /** Every cell with a parent has a strictly smaller rank than the cell, and
      its parent is the root or has a parent itself: walking parents from any
      such cell reaches the root. */
  ghost predicate Ranked(parent: map<Coord, Coord>, rank: map<Coord, nat>, root: Coord) {
    forall v :: v in parent ==>
      v in rank && parent[v] in rank && rank[parent[v]] < rank[v] &&
      (parent[v] == root || parent[v] in parent)
  }

  /** The cells from the root to `v`, following parent pointers backwards. */
  ghost function TracePath(parent: map<Coord, Coord>, rank: map<Coord, nat>, root: Coord, v: Coord): seq<Coord>
    requires Ranked(parent, rank, root)
    requires v == root || v in parent
    decreases if v in rank then rank[v] else 0
  {
    if v == root then [root] else TracePath(parent, rank, root, parent[v]) + [v]
  }

  /** The traced path starts at the root, ends at `v`, and each cell is the
      parent of the next. */
  lemma {:induction false} TraceShape(parent: map<Coord, Coord>, rank: map<Coord, nat>, root: Coord, v: Coord)
    requires Ranked(parent, rank, root)
    requires v == root || v in parent
    ensures var p := TracePath(parent, rank, root, v);
      && |p| >= 1 && p[0] == root && p[|p| - 1] == v
      && forall i :: 1 <= i < |p| ==> p[i] in parent && parent[p[i]] == p[i - 1]
    decreases if v in rank then rank[v] else 0
  {
    if v != root {
      TraceShape(parent, rank, root, parent[v]);
    }
  }

  /** When parents are adjacent to their children and every child is passable,
      the traced path is a route of the grid. */
  lemma TraceIsRoute(g: Grid, parent: map<Coord, Coord>, rank: map<Coord, nat>, root: Coord, v: Coord)
    requires Ranked(parent, rank, root)
    requires v == root || v in parent
    requires InBounds(g, root)
    requires forall u :: u in parent ==> Adjacent(parent[u], u) && Passable(g, u)
    ensures Route(g, TracePath(parent, rank, root, v), root, v)
  {
    TraceShape(parent, rank, root, v);
    var p := TracePath(parent, rank, root, v);
    forall i | 1 <= i < |p| ensures Passable(g, p[i]) && Adjacent(p[i - 1], p[i]) {
      assert p[i] in parent;
    }
  }

  /** When each child's rank is its parent's plus one and the root has rank 0,
      the traced path has exactly rank + 1 cells. */
  lemma {:induction false} TraceLength(parent: map<Coord, Coord>, rank: map<Coord, nat>, root: Coord, v: Coord)
    requires Ranked(parent, rank, root)
    requires v == root || v in parent
    requires root in rank && rank[root] == 0
    requires forall u :: u in parent ==> rank[u] == rank[parent[u]] + 1
    ensures v in rank && |TracePath(parent, rank, root, v)| == rank[v] + 1
    decreases if v in rank then rank[v] else 0
  {
    if v != root {
      TraceLength(parent, rank, root, parent[v]);
    }
  }

  /** When each child's rank is its parent's plus the cost of entering the
      child, the traced path costs the difference of ranks. */
  lemma {:induction false} TraceCost(g: Grid, parent: map<Coord, Coord>, rank: map<Coord, nat>, root: Coord, v: Coord)
    requires Ranked(parent, rank, root)
    requires v == root || v in parent
    requires root in rank
    requires forall u :: u in parent ==> InBounds(g, u) && rank[u] == rank[parent[u]] + EnterCost(g, u)
    ensures var p := TracePath(parent, rank, root, v);
      && (forall i :: 1 <= i < |p| ==> InBounds(g, p[i]))
      && v in rank && RouteCost(g, p) + rank[root] == rank[v]
    decreases if v in rank then rank[v] else 0
  {
    TraceShape(parent, rank, root, v);
    if v != root {
      TraceCost(g, parent, rank, root, parent[v]);
      var p := TracePath(parent, rank, root, v);
      assert p[..|p| - 1] == TracePath(parent, rank, root, parent[v]);
    }
  }

  function Reverse<T>(s: seq<T>): (r: seq<T>)
    ensures |r| == |s| && forall i :: 0 <= i < |s| ==> r[i] == s[|s| - 1 - i]
  {
    if s == [] then [] else [s[|s| - 1]] + Reverse(s[..|s| - 1])
  }

  /** The parent array agrees with the parent map, and the map's cells lie
      inside the array. */
  ghost predicate MirrorsParent(parent: array2<Option<Coord>>, P: map<Coord, Coord>)
    reads parent
  {
    && (forall v :: v in P ==> 0 <= v.row < parent.Length0 && 0 <= v.col < parent.Length1)
    && forall r, c :: 0 <= r < parent.Length0 && 0 <= c < parent.Length1 ==>
         parent[r, c] == if Coord(r, c) in P then Some(P[Coord(r, c)]) else None
  }

  /** Path reconstruction: empty when the end's row is outside the parent
      table or the end has no parent, otherwise the cells from the start to the
      end along parent pointers. A row inside the table with a column outside it
      has no defined outcome and is excluded. */
  method ReconstructPath(parent: array2<Option<Coord>>, start: Coord, end: Coord,
                         ghost P: map<Coord, Coord>, ghost rank: map<Coord, nat>)
    returns (path: seq<Coord>)
    requires MirrorsParent(parent, P) && Ranked(P, rank, start)
    requires 0 <= start.row < parent.Length0 && 0 <= start.col < parent.Length1
    requires 0 <= end.row < parent.Length0 ==> 0 <= end.col < parent.Length1
    ensures path == if end in P then TracePath(P, rank, start, end) else []
  {
    path := [];
    if 0 <= end.row < parent.Length0 && parent[end.row, end.col] != None {
      path := WalkBack(parent, start, end, P, rank);
    }
  }

  /** The walk back from `end` after `path` (nearest first) has been passed:
      `cur` is the next cell to visit. */
  ghost predicate Walking(P: map<Coord, Coord>, rank: map<Coord, nat>, start: Coord, end: Coord,
                          cur: Coord, path: seq<Coord>) {
    && Ranked(P, rank, start)
    && (end == start || end in P)
    && (cur == start || cur in P)
    && TracePath(P, rank, start, end) == TracePath(P, rank, start, cur) + Reverse(path)
  }

  /** `while (cur != start) { path.push(cur); cur = parent[cur] }`, then the
      start is pushed and the whole is reversed. */
  method WalkBack(parent: array2<Option<Coord>>, start: Coord, end: Coord,
                  ghost P: map<Coord, Coord>, ghost rank: map<Coord, nat>)
    returns (path: seq<Coord>)
    requires MirrorsParent(parent, P) && Ranked(P, rank, start)
    requires 0 <= start.row < parent.Length0 && 0 <= start.col < parent.Length1
    requires end in P
    ensures path == TracePath(P, rank, start, end)
  {
    var rev := [];
    var cur := end;
    while cur != start
      invariant Walking(P, rank, start, end, cur, rev)
      invariant 0 <= cur.row < parent.Length0 && 0 <= cur.col < parent.Length1
      decreases if cur in rank then rank[cur] else 0
    {
      WalkStep(P, rank, start, end, cur, rev);
      rev := rev + [cur];
      cur := parent[cur.row, cur.col].value;
    }
    WalkLast(P, rank, start, end, rev);
    path := Reverse(rev + [start]);
  }

  /** Reaching the start completes the walk. */
  lemma WalkLast(P: map<Coord, Coord>, rank: map<Coord, nat>, start: Coord, end: Coord, rev: seq<Coord>)
    requires Walking(P, rank, start, end, start, rev)
    ensures TracePath(P, rank, start, end) == Reverse(rev + [start])
  {
    assert Reverse(rev + [start]) == [start] + Reverse(rev);
  }

  lemma WalkStep(P: map<Coord, Coord>, rank: map<Coord, nat>, start: Coord, end: Coord,
                 cur: Coord, rev: seq<Coord>)
    requires Walking(P, rank, start, end, cur, rev) && cur != start
    ensures Walking(P, rank, start, end, P[cur], rev + [cur])
    ensures rank[P[cur]] < rank[cur]
  {
    assert Reverse(rev + [cur]) == [cur] + Reverse(rev);
  }
}
