# SmartPath algorithm visualizer: a verified model of its core

This project models the logic behind the SmartPath visualizer.

**Grid searches.** A grid is rows of cells. Each cell records its own row and column, a kind (empty, wall, start, end, weight, visited, path) and a weight. Three searches run on it, from a start cell to an end cell:
- breadth-first search (`bfs`), with a queue;
- depth-first search (`dfs`), with a stack;
- Dijkstra's algorithm (`dijkstra`), which settles the closest unvisited cell, found by a row-major scan. Entering a cell costs its weight, or 1 when the weight is 0.

Each search returns the order in which cells were taken (`visitedOrder`) and a path rebuilt from parent pointers. The server's fallback predictor (`bfs_predict`) is a second breadth-first search. It returns only the path, and it handles a start equal to the end differently: the front-end searches return no path, the predictor returns `[end]`.

**Sorts.** Three sorts record snapshots (`steps`) for animation: bubble sort, bottom-up merge sort and Lomuto quicksort.

**Grid helpers.** `makeEmptyGrid` and `deepCopyGrid` build and copy grids.

**Pathfinding screen.** It holds the grid, the start, the end and a running flag. It has three operations:
- the cell-click handler, with its wall, start, end and weight tools;
- a run, which searches and then replays the visit order and the path onto the grid;
- clearing a finished replay.

**How the algorithms are modelled.** They are imperative methods over arrays, as in the source. Each is proved against a specification function:
- BFS and DFS against a functional search `Explore`, parameterised by queue or stack discipline. The server's predictor is proved against the same function, which is what shows that its path agrees with the front-end BFS path.
- Dijkstra against a labelling (`Labels`) of distances, parents and settled cells.
- Each sort against snapshot predicates.
- The screen's edits against functions on grid values in `GridEdits`.

**The weight quirk.** A weight cell that the visited replay repaints stays a weight-5 cell painted visited. Clearing makes it an empty cell that still weighs 5, so Dijkstra still charges 5 to enter it (`GridEdits.WeightQuirk`).

**Tool quirks.**
- The weight tool has no start/end guard. A click on the start or end cell with it turns that cell into a weight cell, while the start or end coordinate stays where it was.
- The wall tool turns a weight cell into a wall that keeps weight 5.

**The running flag.** During a run, the flag each replay iteration reads is taken as an input sequence, one reading per iteration. Readings past the end of the list find the flag set. In the source the flag reaches the loops through a React effect, so which readings find it set depends on React's commit timing. That includes the very first reading. Outside the learned-model branches nothing awaits before it (`PathfindingVisualizer.jsx:123`), so React has most likely not yet committed `setRunning(true)` and the reading finds the flag still cleared. The path replay's first reading follows at once, so it finds the flag cleared too. In that case both replays stop before painting anything and the run leaves the grid as it was (`PathfindingScreen.NothingReplayed`). The model does not decide this timing; it proves the outcome for every sequence of readings.

## Model

| member | source | states |
|---|---|---|
| BreadthFirst.Bfs | frontend/src/pathfindingAlgorithms/bfs.js:7-45 | the visit order starts at the start, repeats no cell, enters only passable cells, has at most rows*cols entries, contains the end exactly when it is reachable and then ends with it; the path is non-empty exactly when start differs from end and end is reachable, is then a start-to-end route of orthogonal steps through non-wall cells, and no route is shorter |
| DepthFirst.Dfs | frontend/src/pathfindingAlgorithms/dfs.js:5-43 | the same visit-order facts under the stack discipline; the path is non-empty exactly when start differs from end and end is reachable, and is then a start-to-end route |
| FrontierSearch.Traverse | frontend/src/pathfindingAlgorithms/bfs.js:7-45 | the array-based search with queue or stack returns exactly the traversal of the functional reference search |
| FrontierSearch.Run | frontend/src/pathfindingAlgorithms/bfs.js:18-29 | the while loop ends in the reference search's final state, with the parent table mirroring its parent map |
| FrontierSearch.Visit | frontend/src/pathfindingAlgorithms/bfs.js:19-29 | one round for a taken cell other than the end appends it to the visit order and moves the state on as the reference search does, with more cells seen or a shorter frontier |
| FrontierSearch.Take | frontend/src/pathfindingAlgorithms/bfs.js:19 | with the queue the taken cell followed by the rest is the old frontier (the oldest entry is taken); with the stack the rest followed by the taken cell is (the newest is taken); the other entries keep their order |
| FrontierSearch.ExpandCell | frontend/src/pathfindingAlgorithms/bfs.js:22-28 | the loop over the four directions does what the reference expansion does, the tables mirroring the new seen set and parents |
| FrontierSearch.Look | frontend/src/pathfindingAlgorithms/bfs.js:23-27 | an in-bounds, unvisited, non-wall neighbour is marked, parented and appended; otherwise nothing changes |
| SearchStates.ExpandDirs | frontend/src/pathfindingAlgorithms/bfs.js:22-28 | expanding only adds grid cells to the seen set, leaves the frontier alone when nothing new is seen, and does not touch the visit order |
| GridSearch.SearchResult | frontend/src/pathfindingAlgorithms/bfs.js:18-29 | the reference search ends either on taking the end or with an empty frontier, in a state meeting the search invariant |
| GridSearch.TraversalVisits | frontend/src/pathfindingAlgorithms/bfs.js:12-29 | the visit order begins with the start, is duplicate-free, enters only passable cells, is bounded by rows*cols, and contains the end exactly when it is reachable, last |
| GridSearch.TraversalPath | frontend/src/pathfindingAlgorithms/bfs.js:31-42 | the rebuilt path is non-empty exactly when start differs from end and end is reachable, and is then a route from start to end |
| GridSearch.BfsPathShortest | frontend/src/pathfindingAlgorithms/bfs.js:18-29 | with the queue discipline, a non-empty path is no longer than any route from start to end |
| GridSearch.FifoShortest | frontend/src/pathfindingAlgorithms/bfs.js:18-29 | when the end reaches the head of the queue its hop count is at most the length of any route to it, less one |
| GridSearch.ExhaustedUnreachable | frontend/src/pathfindingAlgorithms/bfs.js:18-29 | if the frontier empties without taking the end, no route reaches the end |
| GridSearch.SeenReachable | frontend/src/pathfindingAlgorithms/bfs.js:22-27 | every marked cell is the start or has a parent, and is reachable from the start |
| ParentPaths.ReconstructPath | frontend/src/pathfindingAlgorithms/bfs.js:32-42 | the path is empty when the end has no parent (the start included), otherwise the parent chain from start to end |
| ParentPaths.WalkBack | frontend/src/pathfindingAlgorithms/bfs.js:34-40 | pushing cells while walking parents back to the start, then the start, then reversing, yields the parent chain from start to end |
| ParentPaths.TraceIsRoute | frontend/src/pathfindingAlgorithms/bfs.js:34-40 | a parent chain whose links are orthogonal steps into passable cells is a route |
| ParentPaths.TraceLength | frontend/src/pathfindingAlgorithms/bfs.js:34-40 | when each hop count is the parent's plus one, the chain to a cell has its hop count plus one cells |
| ParentPaths.TraceCost | frontend/src/pathfindingAlgorithms/dijkstra.js:42-51 | when each distance is the parent's plus the cost of entering the cell, the chain's entered-cell cost is the cell's distance |
| Dijkstra.Dijkstra | frontend/src/pathfindingAlgorithms/dijkstra.js:7-53 | the visit order starts at the start with distance 0, repeats no cell, enters only passable cells, is bounded by rows*cols, contains the end exactly when it is reachable and then ends with it; each settled cell's distance is the cost of a cheapest route to it and these distances never decrease; when the end is settled, so is every cell with a route cheaper than the end's distance, or as cheap and before the end in row-major order; when it is not, every reachable cell is settled; the path is non-empty exactly when start differs from end and end is reachable, is then a route whose entered-cell cost is the end's distance and is least among all routes |
| Dijkstra.Finished | frontend/src/pathfindingAlgorithms/dijkstra.js:21-51 | the labels of a finished main loop, with the rebuilt path and the settled distances, meet every promise of the search stated for `Dijkstra.Dijkstra` |
| Dijkstra.Outcome | frontend/src/pathfindingAlgorithms/dijkstra.js:21-40 | a finished labelling's visit order starts at the start, repeats no cell, enters only passable cells, is bounded by rows*cols and holds the end, last, exactly when it is reachable |
| Dijkstra.CostFacts | frontend/src/pathfindingAlgorithms/dijkstra.js:21-40 | each settled distance is the cost of a cheapest route, the start's is 0, and they never decrease in settling order |
| Dijkstra.PathFacts | frontend/src/pathfindingAlgorithms/dijkstra.js:42-51 | the rebuilt path is empty exactly when the end is the start or unreachable, and is otherwise a cheapest route whose cost is the end's distance |
| Dijkstra.Neighbors | frontend/src/pathfindingAlgorithms/dijkstra.js:17-19 | a cell is listed exactly when it is one orthogonal step away, inside the grid and not a wall |
| Dijkstra.SelectMin | frontend/src/pathfindingAlgorithms/dijkstra.js:22-27 | no cell is chosen exactly when every unvisited cell is at infinity; otherwise the chosen cell is unvisited and finite, no unvisited cell is closer, and every unvisited cell before it in row-major order is strictly farther |
| Dijkstra.Settle | frontend/src/pathfindingAlgorithms/dijkstra.js:21-40 | the main loop ends either with the end settled last, after every cell the scan would take before it, or with no labelled cell left unsettled and every reachable cell settled; all settled distances are optimal and the tables agree with the labelling |
| Dijkstra.SettleLast | frontend/src/pathfindingAlgorithms/dijkstra.js:28-31 | settling the end, chosen as the first closest cell, marks it visited and leaves a finished labelling with the end last |
| Dijkstra.SettleOne | frontend/src/pathfindingAlgorithms/dijkstra.js:28-39 | a round for a closest cell other than the end marks it visited, appends it to the settled cells and relaxes its edges, keeping the loop invariant and the tables in agreement |
| Dijkstra.Expand | frontend/src/pathfindingAlgorithms/dijkstra.js:33-39 | relaxing the edges into every neighbour of the newly settled cell restores the loop invariant with that cell appended |
| Dijkstra.RelaxNeighbors | frontend/src/pathfindingAlgorithms/dijkstra.js:33-39 | relaxing every neighbour keeps the labelling invariant and does not change the settled cells |
| Dijkstra.RelaxEdge | frontend/src/pathfindingAlgorithms/dijkstra.js:34-38 | the table update is the reference relaxation: a strictly shorter tentative distance through the settled cell replaces the old one and records that cell as parent |
| Dijkstra.Lower | frontend/src/pathfindingAlgorithms/dijkstra.js:36-37 | the two table writes make the tables mirror the labelling with the new distance and parent of the neighbour |
| Dijkstra.Tables | frontend/src/pathfindingAlgorithms/dijkstra.js:10-15 | every distance is infinite but the start's 0, nothing is visited and nothing has a parent |
| WeightedSearch.Relax | frontend/src/pathfindingAlgorithms/dijkstra.js:35-38 | relaxation only adds finite distances and never changes the settled cells |
| WeightedSearch.SettleOptimal | frontend/src/pathfindingAlgorithms/dijkstra.js:21-31 | the closest unsettled cell's distance is at most the cost of any route to it |
| WeightedSearch.Crossing | frontend/src/pathfindingAlgorithms/dijkstra.js:21-39 | a route from the start to an unsettled cell passes a labelled unsettled cell whose distance is at most the route's cost, and below it unless that cell ends the route |
| WeightedSearch.SettleEnd | frontend/src/pathfindingAlgorithms/dijkstra.js:22-31 | settling the end as the first closest cell leaves settled every cell with a cheaper route, or an equally cheap one before the end in row-major order |
| WeightedSearch.Exhausted | frontend/src/pathfindingAlgorithms/dijkstra.js:22-28 | when the scan finds no unsettled finite cell, every reachable cell is settled, and the end is unreachable |
| WeightedSearch.SettledCheapest | frontend/src/pathfindingAlgorithms/dijkstra.js:21-40 | every settled distance is the cost of a cheapest route from the start |
| Grids.CellCost | frontend/src/pathfindingAlgorithms/dijkstra.js:34 | entering a cell costs at least 1: its weight, or 1 for weight 0 |
| Backend.BfsPredict | backend/app.py:42-70 | the path is empty exactly when the end is unreachable; otherwise it is a shortest start-to-end route; it is `[end]` when start equals end and equals the front-end BFS path otherwise |
| Backend.PredictFacts | backend/app.py:42-70 | the same five facts about the predictor's specification function, both directions of the emptiness condition included |
| Backend.PredictRun | backend/app.py:52-62 | the deque loop ends in the reference breadth-first state; `found` holds exactly when the end was dequeued |
| Backend.WalkToRoot | backend/app.py:63-69 | walking parents from the end until a cell without one, then reversing, gives the parent chain from start to end |
| BubbleSort.BubbleSort | frontend/src/sortingAlgorithms/bubbleSort.js:5-22 | the first step is the input with no highlights; every step rearranges the input; each middle step highlights `[j, j+1]` and is a comparison or the exchange of an out-of-order pair just compared; the last step is sorted with no highlights; the count is 2 + n(n-1)/2 + the number of inversions |
| BubbleSort.Passes | frontend/src/sortingAlgorithms/bubbleSort.js:10-19 | after the outer loop the array is a sorted rearrangement of the input, the steps so far recorded |
| BubbleSort.Pass | frontend/src/sortingAlgorithms/bubbleSort.js:11-18 | one outer pass places the largest of the first m entries at m-1, keeping the suffix ascending, adding m-1 comparisons plus one step per removed inversion |
| BubbleSort.Visit | frontend/src/sortingAlgorithms/bubbleSort.js:13-17 | one comparison, and an exchange exactly when out of order, moves the running maximum one place right and records one step plus one per removed inversion |
| Sorting.SwapInversions | frontend/src/sortingAlgorithms/bubbleSort.js:14-15 | exchanging an out-of-order adjacent pair removes exactly one inversion |
| Sorting.SortedNoInversions | frontend/src/sortingAlgorithms/bubbleSort.js:10-20 | a sorted array has no inversions |
| Sorting.TriangleClosed | frontend/src/sortingAlgorithms/bubbleSort.js:10-11 | the comparisons of all passes number n(n-1)/2 |
| MergeSort.Merge | frontend/src/sortingAlgorithms/mergeSort.js:5-12 | the result is a rearrangement of the two inputs together, and ascending when both are |
| MergeSort.MergeSort | frontend/src/sortingAlgorithms/mergeSort.js:14-39 | the first snapshot is the input, every snapshot rearranges it, none highlights anything, the last is sorted and repeats the one before; the count is 2 plus one per merged pair of every pass |
| MergeSort.Passes | frontend/src/sortingAlgorithms/mergeSort.js:20-36 | the width-doubling loop leaves a sorted rearrangement of the input with one snapshot per merged pair |
| MergeSort.Pass | frontend/src/sortingAlgorithms/mergeSort.js:24-34 | after the pass every aligned block of width 2w is ascending, one snapshot recorded per block pair |
| MergeSort.MergePair | frontend/src/sortingAlgorithms/mergeSort.js:26-32 | merging the pair at i makes its block ascending, keeps the rest and adds one snapshot |
| MergeSort.WriteBack | frontend/src/sortingAlgorithms/mergeSort.js:29-31 | the merged run replaces positions i.. of the array and nothing else changes |
| MergeSort.ChunksCeil | frontend/src/sortingAlgorithms/mergeSort.js:25-33 | the pairs per pass number the ceiling of the length over the block width |
| MergeSort.PairSorted | frontend/src/sortingAlgorithms/mergeSort.js:26-27 | the left and right slices handed to merge are ascending |
| QuickSort.QuickSort | frontend/src/sortingAlgorithms/quickSort.js:5-37 | the first step is the input, every step rearranges it, every middle step exchanges two highlighted positions of the previous one, and the last step is sorted with no highlights |
| QuickSort.Quick | frontend/src/sortingAlgorithms/quickSort.js:26-32 | positions l..r end sorted and rearranged among themselves, the rest unchanged, the steps extended |
| QuickSort.Partition | frontend/src/sortingAlgorithms/quickSort.js:11-24 | p lies in [l, r], holds the old pivot, everything before it in the range is at most the pivot and everything after is above; only the range is rearranged; one step `[i, j]` per entry at most the pivot, in increasing j (also when i equals j), then one `[p, r]` |
| QuickSort.Examine | frontend/src/sortingAlgorithms/quickSort.js:15-19 | one iteration keeps the partition invariant: the low part grows by one, with a recorded exchange, exactly when the entry is at most the pivot |
| QuickSort.Pivot | frontend/src/sortingAlgorithms/quickSort.js:21-23 | the pivot moves to i+1, completing the partition, with one step `[i+1, r]` |
| GridHelpers.MakeEmptyGrid | frontend/src/utils/helpers.js:9-19 | rows rows (none when negative) of cols cells each, the cell at [r][c] recording r and c, empty, weight 1 |
| GridHelpers.BlankShape | frontend/src/utils/helpers.js:9-19 | a blank grid is rectangular with rows*cols cells, all passable at cost 1 |
| GridHelpers.BlankConnected | frontend/src/utils/helpers.js:9-19 | in a blank grid every cell is reachable from every other |
| GridHelpers.DeepCopyGrid | frontend/src/utils/helpers.js:49-51 | the copy has the same shape and every cell the same four fields |
| GridHelpers.CopySame | frontend/src/utils/helpers.js:49-51 | the copy is the same grid value, so a search on it sees the original |
| GridEdits.Toggle | frontend/src/components/PathfindingVisualizer.jsx:64-89 | the click's effect on grid, start and end, tool by tool (stated by the four lemmas below); the grid keeps its shape |
| GridEdits.ToggleOk | frontend/src/components/PathfindingVisualizer.jsx:64-89 | every tool keeps the grid rectangular, the cells self-placed and both marks inside |
| GridEdits.WallToolSpares | frontend/src/components/PathfindingVisualizer.jsx:69-71 | a start or end cell is left alone; any other cell flips between wall and non-wall (a wall becoming empty), keeping its weight; marks and other cells unchanged |
| GridEdits.StartToolMoves | frontend/src/components/PathfindingVisualizer.jsx:72-77 | the clicked cell becomes start and the start coordinate moves there; the old start cell becomes empty unless clicked; weights, the end and other cells unchanged |
| GridEdits.EndToolMoves | frontend/src/components/PathfindingVisualizer.jsx:78-82 | the same for the end |
| GridEdits.WeightToolFlips | frontend/src/components/PathfindingVisualizer.jsx:83-85 | the cell becomes a weight cell exactly when it was not one (start and end cells included), otherwise empty; its weight is 5 exactly when it is a weight cell, else 1; nothing else changes |
| GridEdits.Stop | frontend/src/components/PathfindingVisualizer.jsx:122-136 | a replay runs exactly up to the first reading that finds the flag cleared, all readings before it finding it set |
| GridEdits.PaintVisited | frontend/src/components/PathfindingVisualizer.jsx:125-130 | one visited step changes only the given cell, and that one only when empty or weight, into visited with its weight kept |
| GridEdits.PaintPath | frontend/src/components/PathfindingVisualizer.jsx:137-142 | one path step changes only the given cell, and that one only when not start or end, into a path cell with its weight kept |
| GridEdits.VisitedPainted | frontend/src/components/PathfindingVisualizer.jsx:122-132 | after n steps, exactly the empty and weight cells among the first n are visited, each keeping its weight and coordinates; every other cell is as before |
| GridEdits.PathPainted | frontend/src/components/PathfindingVisualizer.jsx:134-144 | after n steps, exactly the cells among the first n that are not start or end cells are path cells, keeping their weights; every other cell is as before |
| GridEdits.Cleared | frontend/src/components/PathfindingVisualizer.jsx:149-158 | the end cell is marked end, the start cell start (unless it is the end), every other cell unvisited |
| GridEdits.ClearFacts | frontend/src/components/PathfindingVisualizer.jsx:149-158 | after clearing no cell is visited or a path cell, every weight is kept, walls and weight cells away from the marks are unchanged, and the marks are re-marked |
| GridEdits.WeightQuirk | frontend/src/components/PathfindingVisualizer.jsx:122-158 | a weight cell the visited replay reached is visited with its weight kept; after clearing it is empty yet entering it costs what it cost as a weight cell |
| PathfindingScreen.Visualizer.constructor | frontend/src/components/PathfindingVisualizer.jsx:24-48 | the screen opens on an 18 by 28 empty grid with the start at (3, 3), the end at (14, 24), not running |
| PathfindingScreen.Visualizer.ToggleCell | frontend/src/components/PathfindingVisualizer.jsx:64-89 | while running nothing changes; otherwise the new grid, start and end are the click's edit of the old ones, and the screen stays well formed |
| PathfindingScreen.Visualizer.RunAlgorithm | frontend/src/components/PathfindingVisualizer.jsx:91-147 | while running nothing changes; otherwise the result is the chosen search's (the queue-ordered reference search for BFS, the stack-ordered one for DFS, a run with every shortest-path promise for Dijkstra) on the old grid, the grid becomes its replay, its cells lie in the grid and its non-empty path is a start-to-end route |
| PathfindingScreen.Visualizer.Search | frontend/src/components/PathfindingVisualizer.jsx:115-119 | the result is that of the search the selector names: equal to the queue-ordered reference search for BFS and the stack-ordered one for DFS, and meeting every promise of the shortest-path search for Dijkstra; its cells lie inside the grid and its non-empty path is a start-to-end route |
| PathfindingScreen.Visualizer.Replay | frontend/src/components/PathfindingVisualizer.jsx:121-144 | the visited replay then the path replay leave the grid as `Replayed` states, with marks and flag unchanged |
| PathfindingScreen.Replayed | frontend/src/components/PathfindingVisualizer.jsx:122-144 | the visited replay then the path replay keep the grid's shape |
| PathfindingScreen.NothingReplayed | frontend/src/components/PathfindingVisualizer.jsx:121-144 | when each replay finds the flag cleared on its first reading, the run leaves the grid as it was |
| PathfindingScreen.Visualizer.ReplayVisited | frontend/src/components/PathfindingVisualizer.jsx:122-132 | the loop leaves the grid painted up to the stopping iteration, the screen well formed |
| PathfindingScreen.Visualizer.VisitCell | frontend/src/components/PathfindingVisualizer.jsx:125-130 | one iteration paints an empty or weight cell visited on a copy |
| PathfindingScreen.Visualizer.ReplayPath | frontend/src/components/PathfindingVisualizer.jsx:134-144 | the loop leaves the grid path-painted up to the stopping iteration |
| PathfindingScreen.Visualizer.MarkPathCell | frontend/src/components/PathfindingVisualizer.jsx:137-142 | one iteration paints a cell that is not the start or end as path |
| PathfindingScreen.Visualizer.ClearVisited | frontend/src/components/PathfindingVisualizer.jsx:149-158 | the new grid is the cleared old grid, with start, end and the flag unchanged |
| PathfindingScreen.ClearRows | frontend/src/components/PathfindingVisualizer.jsx:151-154 | the nested loops unvisit every cell of the grid |
| PathfindingScreen.ClearRow | frontend/src/components/PathfindingVisualizer.jsx:151-154 | the inner loop unvisits every cell of one row and leaves the other rows alone |

## Left out

- Rendering, styling, mouse-drag handling, the sorting screen and its timers, the speed control and the `setTimeout` pacing of the replays are presentation and timing. The replay is modelled as its sequence of grid updates.
- The learned-model branches of a run use TensorFlow.js, axios and HTTP. They are left out, as are the server's save, load and predict routes and their file and network I/O; of the server, only `bfs_predict` is modelled.
- `makeRandomGrid` depends on `Math.random` and is not part of this model.
- `resetGrid` is modelled only through the screen's first state (`PathfindingScreen.Visualizer.constructor`). Its own button handler is not part of this model.
- The running flag's readings are an input sequence rather than derived from React's commit order.
- The algorithm selector is a parameter of `RunAlgorithm`. The current tool is a parameter of `ToggleCell`.
- Cells are values, not objects. Three things follow:
  - `deepCopyGrid`'s freshness (mutating the copy leaves the original alone) holds trivially.
  - The sorts' promise that the caller's `arr` is not modified holds trivially.
  - Aliasing between cells of the grid cannot arise.
- BreadthFirst.Bfs, DepthFirst.Dfs, Dijkstra.Dijkstra: a call whose end row lies inside the grid but whose end column lies outside it is excluded. In the source the parent entry read there is `undefined`, which passes the `!== null` test, so the rebuild pushes the end, moves to `undefined` and then throws a `TypeError` reading its row; the model has no exceptions.
- BreadthFirst.Bfs, DepthFirst.Dfs, Dijkstra.Dijkstra, Backend.BfsPredict: the start must lie inside the grid. The source indexes its tables at the start without checking it; in Python a negative index would wrap around.
- Dijkstra.Dijkstra: the contract states which cells are settled and that their distances never decrease, and `SelectMin` states the row-major tie-break of each scan, but the exact order among equally distant cells is not stated for the search as a whole.
- MergeSort.Merge: taking from the left list on ties (stability) is not stated. On plain integers it is unobservable in the result.
- QuickSort.QuickSort: the total number of steps is not given in closed form, only per partition (`QuickSort.Partition`: one step per entry at most the pivot, plus one).
- Dijkstra.Dijkstra: the source's `Infinity` and floating-point distances become `Dist`, either `Inf` or a natural number. Weights are natural numbers.
