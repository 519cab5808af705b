/** The state of the frontier-driven grid searches and its invariants:
    breadth-first search takes the oldest frontier cell (a queue), depth-first
    search the newest (a stack). Both mark a cell seen when it enters the
    frontier, record its parent at that moment, append every cell they take to
    the visit order, and stop once they take the end cell. */
module SearchStates {
  import opened Grids

  datatype Discipline = Fifo | Lifo

  /** The search's working state: the frontier (queue or stack), the cells
      marked visited, the parent of each discovered cell, the number of steps
      from the start along parent pointers (bookkeeping for the proofs), and
      the order in which cells were taken. */
  datatype SearchState = SearchState(
    frontier: seq<Coord>,
    seen: set<Coord>,
    parent: map<Coord, Coord>,
    hops: map<Coord, nat>,
    order: seq<Coord>)

  /** What a traversal returns: `{visitedOrder, path}`. */
  datatype Traversal = Traversal(visitedOrder: seq<Coord>, path: seq<Coord>)

  function Initial(start: Coord): SearchState {
    SearchState([start], {start}, map[], map[start := 0], [])
  }

  function HopsOf(s: SearchState, v: Coord): nat {
    if v in s.hops then s.hops[v] else 0
  }

  /** The frontier cell taken next: the head of a queue, the top of a stack. */
  function Next(d: Discipline, f: seq<Coord>): Coord
    requires f != []
  {
    if d == Fifo then f[0] else f[|f| - 1]
  }

  function Rest(d: Discipline, f: seq<Coord>): seq<Coord>
    requires f != []
  {
    if d == Fifo then f[1..] else f[..|f| - 1]
  }

  /** Look one step from `cur` in direction `k`: a passable cell not yet seen
      is marked seen, gets `cur` as parent and joins the frontier. */
  function Discover(g: Grid, s: SearchState, cur: Coord, k: nat): SearchState
    requires k < |Dirs|
  {
    var n := Shift(cur, k);
    if Passable(g, n) && n !in s.seen then
      s.(frontier := s.frontier + [n], seen := s.seen + {n},
         parent := s.parent[n := cur], hops := s.hops[n := HopsOf(s, cur) + 1])
    else s
  }

  /** The first `k` directions of the expansion of `cur`. */
  function ExpandDirs(g: Grid, s: SearchState, cur: Coord, k: nat): (r: SearchState)
    requires k <= |Dirs|
    ensures s.seen <= r.seen && r.seen - s.seen <= Cells(g)
    ensures r.seen == s.seen ==> r.frontier == s.frontier
    ensures r.order == s.order
  {
    if k == 0 then s
    else
      var t := ExpandDirs(g, s, cur, k - 1);
      InCells(g, Shift(cur, k - 1));
      Discover(g, t, cur, k - 1)
  }

  lemma FewerUnseen(g: Grid, a: set<Coord>, b: set<Coord>)
    requires a <= b && b - a <= Cells(g) && a != b
    ensures |Cells(g) - b| < |Cells(g) - a|
  {
    var x :| x in b && x !in a;
    SubsetSmaller(Cells(g) - b, Cells(g) - a, x);
  }

  /** Run the search from state `s` until the frontier is empty or the end
      cell has been taken. */
  function Explore(g: Grid, end: Coord, d: Discipline, s: SearchState): SearchState
    decreases |Cells(g) - s.seen|, |s.frontier|
  {
    if s.frontier == [] then s
    else
      var cur := Next(d, s.frontier);
      var popped := s.(frontier := Rest(d, s.frontier), order := s.order + [cur]);
      if cur == end then popped
      else
        var next := ExpandDirs(g, popped, cur, |Dirs|);
        assert next.seen != s.seen ==> |Cells(g) - next.seen| < |Cells(g) - s.seen| by {
          if next.seen != s.seen { FewerUnseen(g, s.seen, next.seen); }
        }
        Explore(g, end, d, next)
  }

  /** One step of the search: taking the end cell finishes it, taking any
      other cell continues from the state after its expansion. */
  lemma ExploreUnfold(g: Grid, end: Coord, d: Discipline, s: SearchState)
    requires s.frontier != []
    ensures var cur := Next(d, s.frontier);
      var popped := s.(frontier := Rest(d, s.frontier), order := s.order + [cur]);
      Explore(g, end, d, s) ==
        if cur == end then popped else Explore(g, end, d, ExpandDirs(g, popped, cur, |Dirs|))
  {
  }

  // ---------------------------------------------------------------------------
  // Invariants of the search

  /** Facts that hold of every state, before and after a cell is taken. */
  ghost predicate Structure(g: Grid, start: Coord, s: SearchState) {
    && WellFormed(g) && InBounds(g, start)
    && s.seen <= Cells(g)
    && Shape(start, s)
    && Tree(g, start, s)
  }

  /** The seen cells are exactly the taken ones and the waiting ones, each once;
      the start is taken first. */
  ghost predicate Shape(start: Coord, s: SearchState) {
    && start in s.seen
    && Distinct(s.order) && Distinct(s.frontier)
    && (forall x :: x in s.order ==> x !in s.frontier)
    && s.seen == Elems(s.order) + Elems(s.frontier)
    && (s.order == [] ==> s.frontier == [start])
    && (s.order != [] ==> s.order[0] == start)
  }

  /** Every seen cell but the start hangs off a taken neighbour, one hop further. */
  ghost predicate Tree(g: Grid, start: Coord, s: SearchState) {
    && s.hops.Keys == s.seen && start in s.hops && s.hops[start] == 0
    && s.parent.Keys == s.seen - {start}
    && (forall v :: v in s.parent ==>
          && s.parent[v] in s.order
          && s.parent[v] in s.hops
          && Adjacent(s.parent[v], v)
          && Passable(g, v)
          && s.hops[v] == s.hops[s.parent[v]] + 1)
  }

  /** Every taken cell outside `skip` has had all its passable neighbours seen;
      in breadth-first order those neighbours are at most one hop further. */
  ghost predicate Closed(g: Grid, d: Discipline, s: SearchState, skip: set<Coord>) {
    forall u, n :: u in s.order && u !in skip && Adjacent(u, n) && Passable(g, n) ==>
      n in s.seen && (d == Fifo ==> HopsOf(s, n) <= HopsOf(s, u) + 1)
  }

  /** Breadth-first layering: hop counts along the queue never decrease and
      span at most one, and no taken cell is further than a queued one. */
  ghost predicate Layered(s: SearchState) {
    && (forall i, j :: 0 <= i <= j < |s.frontier| ==>
          HopsOf(s, s.frontier[i]) <= HopsOf(s, s.frontier[j]) <= HopsOf(s, s.frontier[i]) + 1)
    && (forall u, v :: u in s.order && v in s.frontier ==> HopsOf(s, u) <= HopsOf(s, v))
  }

  /** The loop invariant: what holds each time the search is about to take a cell. */
  ghost predicate Inv(g: Grid, start: Coord, end: Coord, d: Discipline, s: SearchState) {
    && Structure(g, start, s)
    && end !in s.order
    && Closed(g, d, s, {})
    && (d == Fifo ==> Layered(s))
  }

  /** The breadth-first layering once the head `cur` (with `h` hops) has been
      taken and some of its neighbours appended. */
  ghost predicate Around(s: SearchState, h: nat) {
    && (forall i, j :: 0 <= i <= j < |s.frontier| ==>
          HopsOf(s, s.frontier[i]) <= HopsOf(s, s.frontier[j]) <= HopsOf(s, s.frontier[i]) + 1)
    && (forall v :: v in s.frontier ==> h <= HopsOf(s, v) <= h + 1)
    && (forall u :: u in s.order ==> HopsOf(s, u) <= h)
  }

  /** The invariant while the neighbours of `cur` are being examined: the
      first `k` directions are done. */
  ghost predicate ExpandInv(g: Grid, start: Coord, end: Coord, d: Discipline, t: SearchState, cur: Coord, k: nat) {
    && k <= |Dirs|
    && Expanding(g, start, end, d, t, cur)
    && DirsDone(g, d, t, cur, k)
  }

  /** What holds throughout the examination of `cur`'s neighbours. */
  ghost predicate Expanding(g: Grid, start: Coord, end: Coord, d: Discipline, t: SearchState, cur: Coord) {
    && Structure(g, start, t)
    && end !in t.order
    && cur in t.order
    && Closed(g, d, t, {cur})
    && (d == Fifo ==> Around(t, HopsOf(t, cur)))
  }

  /** The passable neighbours of `cur` in the first `k` directions are seen
      (in breadth-first order, at most one hop further than `cur`). */
  ghost predicate DirsDone(g: Grid, d: Discipline, t: SearchState, cur: Coord, k: nat) {
    forall j :: 0 <= j < k && j < |Dirs| && Passable(g, Shift(cur, j)) ==>
      Shift(cur, j) in t.seen && (d == Fifo ==> HopsOf(t, Shift(cur, j)) <= HopsOf(t, cur) + 1)
  }

  /** The state a finished search leaves behind. */
  ghost predicate Final(g: Grid, start: Coord, end: Coord, d: Discipline, r: SearchState) {
    && Structure(g, start, r)
    && (end in r.order ==> r.order[|r.order| - 1] == end)
    && (end !in r.order ==> r.frontier == [] && !Reachable(g, start, end))
    && (d == Fifo && end in r.order ==>
          forall q :: Route(g, q, start, end) ==> HopsOf(r, end) + 1 <= |q|)
  }
}
