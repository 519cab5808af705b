/** The labels Dijkstra's algorithm keeps over the grid (tentative distances,
    parents, and the order in which cells are settled), the relaxation step on
    them, and the invariants that make the settled distances the cheapest
    route costs. Entering a cell costs its weight, or 1 when the weight is 0. */
module WeightedSearch {
  import opened Grids
  import opened ParentPaths

  /** A tentative distance: `Infinity` or a number. */
  datatype Dist = Inf | Fin(n: nat)

  /** `a < b`, with `Infinity` above every number and not below itself. */
  predicate Below(a: Dist, b: Dist) {
    a.Fin? && (b.Inf? || a.n < b.n)
  }

  /** Finite distances `D`, parents `P`, and the settled cells in settling order. */
  datatype Labels = Labels(D: map<Coord, nat>, P: map<Coord, Coord>, order: seq<Coord>)

  function DistOf(L: Labels, v: Coord): Dist {
    if v in L.D then Fin(L.D[v]) else Inf
  }

  /** The labels before the first cell is settled: only the start has a distance. */
  function StartLabels(start: Coord): Labels {
    Labels(map[start := 0], map[], [])
  }

  /** Relax the edge from the settled cell `u` into its neighbour `n`: a
      cheaper distance through `u` replaces the old one and makes `u` the parent. */
  function Relax(g: Grid, L: Labels, u: Coord, n: Coord): (r: Labels)
    requires u in L.D && InBounds(g, n)
    ensures L.D.Keys <= r.D.Keys && r.order == L.order
  {
    var nd := L.D[u] + EnterCost(g, n);
    if Below(Fin(nd), DistOf(L, n)) then L.(D := L.D[n := nd], P := L.P[n := u]) else L
  }

  // ---------------------------------------------------------------------------
  // Invariants

  /** Every labelled cell but the start hangs off a settled neighbour, its
      distance that neighbour's plus the cost of entering it. */
  ghost predicate Tree(g: Grid, start: Coord, L: Labels) {
    && start in L.D && L.D[start] == 0 && start !in L.P
    && L.P.Keys == L.D.Keys - {start}
    && (forall v {:trigger L.P[v]} :: v in L.P ==>
          && L.P[v] in L.order && L.P[v] in L.D
          && Adjacent(L.P[v], v) && Passable(g, v)
          && L.D[v] == L.D[L.P[v]] + EnterCost(g, v))
  }

  /** The settled cells are distinct and labelled, the start comes first,
      their distances never decrease along the settling order, and no
      unsettled labelled cell is closer than a settled one. */
  ghost predicate Settled(start: Coord, L: Labels) {
    && Distinct(L.order)
    && (forall v :: v in L.order ==> v in L.D)
    && (L.order == [] ==> L.D.Keys == {start})
    && (L.order != [] ==> L.order[0] == start)
    && (forall i, j :: 0 <= i < j < |L.order| ==> L.D[L.order[i]] <= L.D[L.order[j]])
    && (forall u, v :: u in L.order && v in L.D && v !in L.order ==> L.D[u] <= L.D[v])
  }

  /** No route to a settled cell is cheaper than its distance. */
  ghost predicate Optimal(g: Grid, start: Coord, L: Labels) {
    forall u, q :: u in L.order && Route(g, q, start, u) ==> u in L.D && L.D[u] <= RouteCost(g, q)
  }

  /** The edges out of every settled cell outside `skip` have been relaxed. */
  ghost predicate Relaxed(g: Grid, L: Labels, skip: set<Coord>) {
    forall u, n :: u in L.order && u !in skip && Adjacent(u, n) && Passable(g, n) ==>
      u in L.D && n in L.D && L.D[n] <= L.D[u] + EnterCost(g, n)
  }

  ghost predicate Base(g: Grid, start: Coord, L: Labels) {
    && WellFormed(g) && InBounds(g, start)
    && L.D.Keys <= Cells(g)
    && Tree(g, start, L) && Settled(start, L) && Optimal(g, start, L)
  }

  /** The loop invariant: what holds each time a cell is about to be selected. */
  ghost predicate DInv(g: Grid, start: Coord, end: Coord, L: Labels) {
    && Base(g, start, L)
    && Relaxed(g, L, {})
    && end !in L.order
  }

  /** The invariant while the neighbours `ns` of the newly settled `u` are
      relaxed: the first `i` are done. */
  ghost predicate RInv(g: Grid, start: Coord, end: Coord, L: Labels, u: Coord, ns: seq<Coord>, i: nat) {
    && i <= |ns|
    && Base(g, start, L)
    && Relaxed(g, L, {u})
    && end !in L.order
    && L.order != [] && L.order[|L.order| - 1] == u
    && (forall n :: n in ns ==> Adjacent(u, n) && Passable(g, n))
    && (forall j :: 0 <= j < i ==> ns[j] in L.D && L.D[ns[j]] <= L.D[u] + EnterCost(g, ns[j]))
  }

  /** `u` is a closest unsettled labelled cell. */
  ghost predicate Closest(L: Labels, u: Coord) {
    && u in L.D && u !in L.order
    && forall v :: v in L.D && v !in L.order ==> L.D[u] <= L.D[v]
  }

  /** `(r, c)` comes before `(r', c')` in row-major order. */
  predicate RowMajorBefore(r: int, c: int, r': int, c': int) {
    r < r' || (r == r' && c < c')
  }

  /** `u` is the closest unsettled labelled cell that comes first in
      row-major order: every unsettled labelled cell before it is further. */
  ghost predicate FirstClosest(L: Labels, u: Coord) {
    && Closest(L, u)
    && forall v :: v in L.D && v !in L.order && RowMajorBefore(v.row, v.col, u.row, u.col) ==> L.D[u] < L.D[v]
  }

  /** The labels a finished search leaves behind. When the end was settled,
      it was settled last, and every cell with a route from the start cheaper
      than the end's distance, or as cheap and before the end in row-major
      order, was settled before it. Otherwise no labelled cell is left
      unsettled, and every cell reachable from the start is settled. */
  ghost predicate DFinal(g: Grid, start: Coord, end: Coord, L: Labels) {
    && Base(g, start, L)
    && L.order != []
    && (end in L.order ==> L.order[|L.order| - 1] == end)
    && (end in L.order ==> end in L.D && forall v, q :: Route(g, q, start, v) && Ahead(g, q, v, end, L.D[end]) ==> v in L.order)
    && (end !in L.order ==> end !in L.D && !Reachable(g, start, end))
    && (end !in L.order ==> forall v :: v in L.D ==> v in L.order)
    && (end !in L.order ==> forall v :: Reachable(g, start, v) ==> v in L.order)
  }

  /** The route `q` to `v` costs less than `d`, or exactly `d` with `v` before
      `end` in row-major order: the scan would settle `v` before an end at
      distance `d`. */
  ghost predicate Ahead(g: Grid, q: seq<Coord>, v: Coord, end: Coord, d: nat)
    requires forall i :: 1 <= i < |q| ==> InBounds(g, q[i])
  {
    RouteCost(g, q) < d || (RouteCost(g, q) == d && RowMajorBefore(v.row, v.col, end.row, end.col))
  }

  lemma StartInv(g: Grid, start: Coord, end: Coord)
    requires WellFormed(g) && InBounds(g, start)
    ensures DInv(g, start, end, StartLabels(start))
  {
    InCells(g, start);
  }

  /** The closest unsettled cell's distance is the cost of a cheapest route to it. */
  lemma SettleOptimal(g: Grid, start: Coord, end: Coord, L: Labels, u: Coord, q: seq<Coord>)
    requires DInv(g, start, end, L) && Closest(L, u)
    requires Route(g, q, start, u)
    ensures L.D[u] <= RouteCost(g, q)
  {
    if L.order == [] {
      return;
    }
    var w := Crossing(g, start, end, L, q, u);
  }

  /** A route from the start to an unsettled cell `v` leaves the settled
      cells at a labelled cell `w` whose distance is at most the route's cost,
      and below it unless `w` is `v` itself. */
  lemma Crossing(g: Grid, start: Coord, end: Coord, L: Labels, q: seq<Coord>, v: Coord) returns (w: Coord)
    requires DInv(g, start, end, L) && L.order != []
    requires Route(g, q, start, v) && v !in L.order
    ensures w in L.D && w !in L.order && L.D[w] <= RouteCost(g, q)
    ensures w != v ==> L.D[w] < RouteCost(g, q)
  {
    assert start in L.order;
    var i := FirstOutside(q, L.order);
    var p := q[i - 1];
    w := q[i];
    assert Adjacent(p, w) && Passable(g, w);
    assert w in L.D && L.D[w] <= L.D[p] + EnterCost(g, w);
    RoutePrefix(g, q, start, v, i);
    assert L.D[p] <= RouteCost(g, q[..i]);
    RouteCostPrefix(g, q, i);
    if i < |q| - 1 {
      assert q[..i + 1][..i] == q[..i];
      RouteCostPrefix(g, q, i + 1);
    }
  }

  /** The first entry of `q` outside `S`, when `q` starts inside and ends outside. */
  lemma FirstOutside(q: seq<Coord>, S: seq<Coord>) returns (i: nat)
    requires |q| >= 1 && q[0] in S && q[|q| - 1] !in S
    ensures 1 <= i < |q| && q[i - 1] in S && q[i] !in S
  {
    i := 1;
    while q[i] in S
      invariant 1 <= i < |q| && q[i - 1] in S
      decreases |q| - i
    {
      i := i + 1;
    }
  }

  /** Settling a closest cell keeps the labels a tree of optimal distances. */
  lemma SettleBase(g: Grid, start: Coord, end: Coord, L: Labels, u: Coord)
    requires DInv(g, start, end, L) && Closest(L, u)
    ensures Base(g, start, L.(order := L.order + [u]))
  {
    forall q | Route(g, q, start, u) ensures L.D[u] <= RouteCost(g, q) {
      SettleOptimal(g, start, end, L, u, q);
    }
    SettleSettled(start, L, u);
  }

  /** Appending a closest unsettled cell to the settling order keeps it
      ordered by distance. */
  lemma SettleSettled(start: Coord, L: Labels, u: Coord)
    requires Settled(start, L) && Closest(L, u)
    ensures Settled(start, L.(order := L.order + [u]))
  {
    AppendFresh(L.order, u);
    assert L.order == [] ==> u == start;
  }

  /** Settling a closest cell other than the end starts the relaxation of its
      neighbours with every invariant in place. */
  lemma SettleKeeps(g: Grid, start: Coord, end: Coord, L: Labels, u: Coord, ns: seq<Coord>)
    requires Selected(g, start, end, L, u)
    requires forall n :: n in ns ==> Adjacent(u, n) && Passable(g, n)
    ensures RInv(g, start, end, L.(order := L.order + [u]), u, ns, 0)
  {
    SettleBase(g, start, end, L, u);
  }

  /** Settling the end cell, chosen as the first closest, finishes the
      search: no cell the scan would have chosen before it is left unsettled. */
  lemma SettleEnd(g: Grid, start: Coord, end: Coord, L: Labels)
    requires DInv(g, start, end, L) && FirstClosest(L, end)
    ensures DFinal(g, start, end, L.(order := L.order + [end]))
  {
    SettleBase(g, start, end, L, end);
    forall v, q | Route(g, q, start, v) && Ahead(g, q, v, end, L.D[end])
      ensures v in L.order + [end]
    {
      if v !in L.order && v != end {
        if L.order == [] {
          assert q[|q| - 1] != q[0];
          RouteCostPrefix(g, q, 1);
        } else {
          var w := Crossing(g, start, end, L, q, v);
        }
      }
    }
  }

  /** One relaxation keeps the invariant and extends the relaxed prefix. */
  lemma RelaxKeeps(g: Grid, start: Coord, end: Coord, L: Labels, u: Coord, ns: seq<Coord>, i: nat)
    requires RInv(g, start, end, L, u, ns, i) && i < |ns|
    ensures u in L.D && InBounds(g, ns[i])
    ensures RInv(g, start, end, Relax(g, L, u, ns[i]), u, ns, i + 1)
  {
    var n := ns[i];
    assert n in ns;
    var nd := L.D[u] + EnterCost(g, n);
    if Below(Fin(nd), DistOf(L, n)) {
      RelaxLowers(g, start, end, L, u, ns, i);
    }
  }

  /** The relaxation that lowers a label. */
  lemma RelaxLowers(g: Grid, start: Coord, end: Coord, L: Labels, u: Coord, ns: seq<Coord>, i: nat)
    requires RInv(g, start, end, L, u, ns, i) && i < |ns|
    requires ns[i] in ns && Below(Fin(L.D[u] + EnterCost(g, ns[i])), DistOf(L, ns[i]))
    ensures RInv(g, start, end, Relax(g, L, u, ns[i]), u, ns, i + 1)
  {
    var n := ns[i];
    var nd := L.D[u] + EnterCost(g, n);
    var L' := L.(D := L.D[n := nd], P := L.P[n := u]);
    assert Relax(g, L, u, n) == L';
    InCells(g, n);
    RelaxedUnsettled(start, L, u, n, nd);
    RelaxTree(g, start, L, u, n, nd);
    RelaxSettled(start, L, u, n, nd);
    RelaxOptimal(g, start, L, u, n, nd);
    RelaxRelaxed(g, L, u, n, nd);
    RelaxPrefix(g, L, u, ns, i);
  }

  lemma RelaxPrefix(g: Grid, L: Labels, u: Coord, ns: seq<Coord>, i: nat)
    requires i < |ns| && u in L.D && ns[i] != u
    requires forall n :: n in ns ==> InBounds(g, n)
    requires forall j :: 0 <= j < i ==> ns[j] in L.D && L.D[ns[j]] <= L.D[u] + EnterCost(g, ns[j])
    ensures var L' := Relax(g, L, u, ns[i]);
      u in L'.D && forall j :: 0 <= j < i + 1 ==> ns[j] in L'.D && L'.D[ns[j]] <= L'.D[u] + EnterCost(g, ns[j])
  {
  }

  /** A relaxation that lowers the label of `n` never touches a settled cell:
      a settled cell is never further than `u`, the last one settled. */
  lemma RelaxedUnsettled(start: Coord, L: Labels, u: Coord, n: Coord, nd: nat)
    requires Settled(start, L) && start in L.D && L.D[start] == 0
    requires L.order != [] && L.order[|L.order| - 1] == u
    requires L.D[u] < nd && Below(Fin(nd), DistOf(L, n))
    ensures n !in L.order && n != start && n != u
  {
    if n in L.order {
      var k :| 0 <= k < |L.order| && L.order[k] == n;
    }
  }

  lemma RelaxTree(g: Grid, start: Coord, L: Labels, u: Coord, n: Coord, nd: nat)
    requires Tree(g, start, L) && u in L.order && u in L.D
    requires Adjacent(u, n) && Passable(g, n) && nd == L.D[u] + EnterCost(g, n)
    requires n !in L.order && n != start && n != u
    ensures Tree(g, start, L.(D := L.D[n := nd], P := L.P[n := u]))
  {
    var L' := L.(D := L.D[n := nd], P := L.P[n := u]);
    forall v | v in L'.P
      ensures L'.P[v] in L'.order && L'.P[v] in L'.D && Adjacent(L'.P[v], v) && Passable(g, v)
        && L'.D[v] == L'.D[L'.P[v]] + EnterCost(g, v)
    {
      if v != n {
        assert L.P[v] in L.order;
      }
    }
  }

  lemma RelaxSettled(start: Coord, L: Labels, u: Coord, n: Coord, nd: nat)
    requires Settled(start, L)
    requires L.order != [] && L.order[|L.order| - 1] == u && L.D[u] <= nd
    requires n !in L.order
    ensures Settled(start, L.(D := L.D[n := nd], P := L.P[n := u]))
  {
    var L' := L.(D := L.D[n := nd], P := L.P[n := u]);
    forall x, v | x in L'.order && v in L'.D && v !in L'.order ensures L'.D[x] <= L'.D[v] {
      if v == n {
        var k :| 0 <= k < |L.order| && L.order[k] == x;
        if k < |L.order| - 1 {
          assert L.D[L.order[k]] <= L.D[L.order[|L.order| - 1]];
        }
      }
    }
  }

  lemma RelaxOptimal(g: Grid, start: Coord, L: Labels, u: Coord, n: Coord, nd: nat)
    requires Optimal(g, start, L) && n !in L.order
    ensures Optimal(g, start, L.(D := L.D[n := nd], P := L.P[n := u]))
  {
  }

  lemma RelaxRelaxed(g: Grid, L: Labels, u: Coord, n: Coord, nd: nat)
    requires Relaxed(g, L, {u}) && n !in L.order && Below(Fin(nd), DistOf(L, n))
    ensures Relaxed(g, L.(D := L.D[n := nd], P := L.P[n := u]), {u})
  {
  }

  /** Once every passable neighbour of `u` has been relaxed, the loop invariant holds again. */
  lemma RelaxDone(g: Grid, start: Coord, end: Coord, L: Labels, u: Coord, ns: seq<Coord>)
    requires RInv(g, start, end, L, u, ns, |ns|)
    requires forall n :: Adjacent(u, n) && Passable(g, n) ==> n in ns
    ensures DInv(g, start, end, L)
  {
    forall x, n | x in L.order && Adjacent(x, n) && Passable(g, n)
      ensures x in L.D && n in L.D && L.D[n] <= L.D[x] + EnterCost(g, n)
    {
      if x == u {
        var j :| 0 <= j < |ns| && ns[j] == n;
      }
    }
  }

  /** A closest unsettled cell other than the end has been chosen. */
  ghost predicate Selected(g: Grid, start: Coord, end: Coord, L: Labels, u: Coord) {
    DInv(g, start, end, L) && Closest(L, u) && u != end
  }

  /** While a labelled cell is unsettled, fewer cells are settled than the
      grid has. */
  lemma OrderRoom(g: Grid, start: Coord, end: Coord, L: Labels, u: Coord)
    requires Selected(g, start, end, L, u)
    ensures |L.order| < |Cells(g)|
  {
    DistinctLength(L.order, Cells(g) - {u});
  }

  /** With no unsettled labelled cell left, the search is finished. */
  lemma Exhausted(g: Grid, start: Coord, end: Coord, L: Labels)
    requires DInv(g, start, end, L)
    requires forall v :: v in L.D ==> v in L.order
    ensures DFinal(g, start, end, L)
  {
    forall v | Reachable(g, start, v) ensures v in L.order {
      var q :| Route(g, q, start, v);
      RouteSettled(g, start, v, L, q);
    }
  }

  /** When every labelled cell is settled, every route from the start stays
      among the settled cells. */
  lemma RouteSettled(g: Grid, start: Coord, e: Coord, L: Labels, q: seq<Coord>)
    requires Base(g, start, L) && Relaxed(g, L, {})
    requires forall v :: v in L.D ==> v in L.order
    requires Route(g, q, start, e)
    ensures e in L.order
  {
    var i := 1;
    while i < |q|
      invariant 1 <= i <= |q|
      invariant q[i - 1] in L.order
    {
      assert Adjacent(q[i - 1], q[i]);
      i := i + 1;
    }
  }

  // ---------------------------------------------------------------------------
  // What the labels of a finished search say

  /** `n` is the cost of a cheapest route from `s` to `v`. */
  ghost predicate IsCheapest(g: Grid, s: Coord, v: Coord, n: nat) {
    && (exists q :: Route(g, q, s, v) && RouteCost(g, q) == n)
    && (forall q :: Route(g, q, s, v) ==> n <= RouteCost(g, q))
  }

  /** A labelled cell's parent chain is a route whose cost is its distance. */
  lemma LabelledRoute(g: Grid, start: Coord, L: Labels, v: Coord)
    requires Base(g, start, L) && v in L.D
    ensures v == start || v in L.P
    ensures Ranked(L.P, L.D, start)
    ensures Route(g, TracePath(L.P, L.D, start, v), start, v)
    ensures RouteCost(g, TracePath(L.P, L.D, start, v)) == L.D[v]
  {
    TraceIsRoute(g, L.P, L.D, start, v);
    TraceCost(g, L.P, L.D, start, v);
  }

  /** Every settled distance is the cost of a cheapest route. */
  lemma SettledCheapest(g: Grid, start: Coord, L: Labels, v: Coord)
    requires Base(g, start, L) && v in L.order
    ensures IsCheapest(g, start, v, L.D[v])
  {
    LabelledRoute(g, start, L, v);
  }
}
