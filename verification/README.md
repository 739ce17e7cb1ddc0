# A* grid pathfinding, modelled in Dafny

This project models the A* engine of a browser-based pathfinding visualizer,
together with the pure grid transformations that the visualizer component
applies before and around a search. The board is a rectangular grid of cells.
Each cell carries layout flags (start, finish, wall) and per-run search state
(visited flag, distance, predecessor, g-, h- and f-scores). A* runs on a fresh
snapshot of the board. It repeatedly re-sorts a working list of every cell by
f-score, takes the cheapest cell, skips walls, stops on an infinite f-score or
on reaching the finish, and otherwise relaxes the unvisited orthogonal
neighbours of the cell. The visualizer then walks the predecessor links back
from the finish to obtain the path.

The main results are about one visualizer run on a board. The search
reports the finish as found exactly when an open walk leads from the start
to the finish, that is, a walk of orthogonal steps through cells that are
not walls. When the finish is found, the rebuilt path is such a walk, and
no open walk from the start to the finish is shorter. The proof is the
classical argument for A* with a consistent heuristic. Every expanded cell
is settled: its g-score is at most the number of steps of any open walk to
it. Every open cell that has not been expanded still waits in the working
list. Every cell next to an expanded cell has been relaxed against it.

Modelling choices:

- JavaScript `Infinity` is the `Inf` case of `Scores.Ext`, next to finite
  `Fin(n)`. `Scores.Lt` is both the `<` of the source and the sign of the sort
  comparator `a.fScore - b.fScore`. `Infinity - Infinity` is `NaN`, which
  the array sort treats as a tie, and `Lt` treats it the same way.
- Cells are addressed by `Grid.Coord(row, col)` instead of object
  references. The predecessor link is an `Option<Coord>`. Grids are
  immutable `seq<seq<Node>>`, and each in-place mutation of the source is a
  new grid that differs in the mutated cell only.
- The working list is a `seq<Coord>` that keeps exactly the order the source
  array has. It is re-sorted by a stable sort on every iteration.
  `FScoreSort.SortByFScore` is an insertion sort. `FScoreSort.StableSortIsSortByFScore`
  shows that every stable sort by f-score gives the same result.
- The source's `astar` falls off the end of the function and returns
  `undefined` when the working list runs empty. That outcome is
  `AStar.Stop.Exhausted`, and the model proves it can only happen when the
  finish cell is a wall.
- `Board.CreateNode` gives `isVisited` the value `false` and the three scores
  the value `Infinity`. The source leaves these fields undefined. The
  difference is never observable, because the search always runs on a
  snapshot that resets those fields.

Points where the code admits more than one might expect:

- Start and finish may share a cell. Nothing in the marker drags
  (`src/PathfindingVisualizer/PathfindingVisualizer.jsx:112` and `:132`)
  prevents it, so `Board.MarkersPlaced` allows it.
- The neighbour list does not filter walls
  (`src/algorithms/astar.js:61-69`), so a walled finish can still receive a
  predecessor during relaxation. The unreached-path guarantee of
  `Visualize.VisualizeAStar` is therefore stated only for a finish that is
  not a wall. The drag and toggle operations keep the finish free of walls
  (`Board.ToggleWallKeepsMarkers`, `Board.MoveFinishKeepsMarkers`).
- The visualizer imports `getNodesInShortestPathOrder` from
  `src/algorithms/dijkstra.js`. That file is not part of this model. The path
  walk is modelled on the copy in `src/algorithms/astar.js`.

## Model

| member | source | states |
|---|---|---|
| Scores.LtStrictTotalOrder | src/algorithms/astar.js:55-57 | The score order behind the sort comparator is a strict total order: irreflexive, transitive and trichotomous. Infinity lies above every finite score, and nothing lies above Infinity. |
| Scores.Succ | src/algorithms/astar.js:42 | `gScore + 1` keeps a finite score finite and one larger; Infinity plus one is Infinity. |
| Board.CreateInitialGrid | src/PathfindingVisualizer/PathfindingVisualizer.jsx:30-40 | The initial board has 20 rows of 50 cells, and every cell carries its own position. Exactly the given start position has the start flag and exactly the given finish position has the finish flag. No cell is a wall, every distance is Infinity, and no cell has a predecessor. |
| Board.InitialBoardPlacesMarkers | src/PathfindingVisualizer/PathfindingVisualizer.jsx:18-40 | For in-range positions, the initial board has exactly one start and one finish at those positions and no walls. |
| Board.ToggleWall | src/PathfindingVisualizer/PathfindingVisualizer.jsx:42-49 | On the start or finish cell the grid comes back unchanged. Otherwise only that cell's wall flag flips, and every other cell and field stays as it was. |
| Board.ToggleWallTwice | src/PathfindingVisualizer/PathfindingVisualizer.jsx:42-49 | Toggling the same cell twice restores the original grid. |
| Board.ToggleWallKeepsMarkers | src/PathfindingVisualizer/PathfindingVisualizer.jsx:42-49 | Toggling any cell keeps one start and one finish at their positions, neither of them a wall. |
| Board.MoveMarker | src/PathfindingVisualizer/PathfindingVisualizer.jsx:102-116 | A drag clears the marker at the old cell and sets it at the new cell, whose wall flag is removed. Every other cell is unchanged. |
| Board.MoveStartKeepsMarkers | src/PathfindingVisualizer/PathfindingVisualizer.jsx:103-115 | After a start drag there is exactly one start, at the new position. The finish is unchanged, and neither marker sits on a wall. |
| Board.MoveFinishKeepsMarkers | src/PathfindingVisualizer/PathfindingVisualizer.jsx:126-135 | After a finish drag there is exactly one finish, at the new position. The start is unchanged, and neither marker sits on a wall. |
| Board.SearchSnapshot | src/PathfindingVisualizer/PathfindingVisualizer.jsx:290-300 | The snapshot keeps every cell's position and layout flags. It resets every search field to not visited, Infinity, or no predecessor. |
| Board.SnapshotDependsOnlyOnLayout | src/PathfindingVisualizer/PathfindingVisualizer.jsx:250-260 | Two boards with the same layout give identical snapshots, so nothing from an earlier run reaches the next one. |
| Board.ClearPath | src/PathfindingVisualizer/PathfindingVisualizer.jsx:203-209 | After "clear path" every distance is Infinity and no cell has a predecessor. Every other field is kept. |
| Board.ClearPathIdempotent | src/PathfindingVisualizer/PathfindingVisualizer.jsx:203-209 | Clearing the path twice has the same effect as clearing it once. |
| Board.SnapshotAbsorbsClearPath | src/PathfindingVisualizer/PathfindingVisualizer.jsx:203-209 | Clearing the path before a run does not change the grid the search receives. |
| FScoreSort.SortByFScore | src/algorithms/astar.js:55-57 | The sorted working list is a permutation of the input (same multiset and length) in non-decreasing f-score order. |
| FScoreSort.SortStable | src/algorithms/astar.js:55-57 | For every f-score, the cells with that score keep their relative order from the input. |
| FScoreSort.StableSortUnique | src/algorithms/astar.js:55-57 | Two f-score-sorted lists that order the cells of every score the same way are equal. |
| FScoreSort.StableSortIsSortByFScore | src/algorithms/astar.js:55-57 | Any sorted and stable rearrangement of the list equals the insertion sort's result, so the model's tie-breaking is the source's. |
| AStar.Heuristic | src/algorithms/astar.js:31-35 | The Manhattan distance is zero exactly when the two positions coincide. |
| AStar.HeuristicStep | src/algorithms/astar.js:31-35 | The heuristic is symmetric, and two positions are adjacent exactly when it is 1 between them. One step changes the distance to the finish by at most one, so the heuristic is consistent. |
| AStar.HeuristicTriangle | src/algorithms/astar.js:31-35 | The Manhattan distance satisfies the triangle inequality. |
| AStar.WalkLength | src/algorithms/astar.js:31-35 | A walk of orthogonal unit steps has more cells than the Manhattan distance between its ends. |
| AStar.Candidates | src/algorithms/astar.js:63-67 | The pushed positions are inside the grid and adjacent to the cell. Every in-bounds neighbour in the remaining directions is present, in up, down, left, right order. The column bound comes from the first row. |
| AStar.Unvisited | src/algorithms/astar.js:68 | The filter keeps exactly the listed cells that are not visited. |
| AStar.Neighbors | src/algorithms/astar.js:61-69 | The result lists exactly the in-bounds, adjacent, unvisited cells, at most four, in up, down, left, right order. It has no repeats and never the cell itself. |
| AStar.AllNodes | src/algorithms/astar.js:71-79 | The flattening has rows times columns entries. Entry `i` is the cell at row `i / cols` and column `i % cols`, and every cell appears exactly once. |
| AStar.InitStart | src/algorithms/astar.js:8-11 | The start gets distance and g-score 0, and the heuristic as both h-score and f-score. Every other cell is unchanged. |
| AStar.InitStartEstablishes | src/algorithms/astar.js:5-11 | On a reset snapshot, initialising the start establishes the search invariant. Scores are consistent (f = g + h, distance = g), every predecessor link points to an adjacent expanded cell with g-score one less, and the start has g-score 0 and no predecessor. |
| AStar.MarkVisited | src/algorithms/astar.js:21 | Only the expanded cell's visited flag changes. |
| AStar.RelaxOne | src/algorithms/astar.js:42-50 | A neighbour's g-score never rises. The neighbour is left unchanged exactly when `gScore + 1` is not below its g-score. Otherwise it gets that g-score, its heuristic, their sum as f-score, the g-score as distance, and the current cell as predecessor. |
| AStar.Relax | src/algorithms/astar.js:38-52 | Relaxing a list of distinct neighbours equals relaxing each one against the grid as it was. Cells not in the list are unchanged, and the layout is kept. |
| AStar.Expand | src/algorithms/astar.js:21-26 | Expansion marks the cell visited and relaxes exactly the unvisited cells adjacent to it. Every other cell is unchanged. |
| AStar.ExpandPreserves | src/algorithms/astar.js:21-26 | Expanding a non-wall cell of finite f-score preserves the search invariant. |
| AStar.ExpandKeepsAbove | src/algorithms/astar.js:42-47 | After expansion, no cell that was at least as expensive as the expanded cell becomes cheaper than it, because the heuristic is consistent. |
| AStar.OrderExpand | src/algorithms/astar.js:13-26 | Expanding the cheapest cell keeps the expanded cells in non-decreasing f-score order. Nothing left in the working list is cheaper than the last expanded cell. |
| AStar.FrontierStart | src/algorithms/astar.js:5-11 | On a reset snapshot, before the first iteration, no cell is expanded and every cell waits in the working list. |
| AStar.WaitingOnWalk | src/algorithms/astar.js:13-26 | On any open walk from the start, the first cell not yet expanded still waits in the working list. Its g-score is finite and at most its index on the walk. |
| AStar.PoppedWithinWalk | src/algorithms/astar.js:14-19 | If an open walk leads from the start to a waiting cell, the cell taken from the working list has a finite f-score. If the walk ends at the taken cell, that cell's g-score is below the walk's length. |
| AStar.PoppedSettled | src/algorithms/astar.js:14-21 | The cell taken from the working list is settled: its g-score is at most the number of steps of every open walk from the start to it. |
| AStar.FrontierExpand | src/algorithms/astar.js:21-26 | Expanding the cheapest cell keeps the frontier invariant. Expanded cells are settled and gone from the working list. Open unexpanded cells still wait in it. Each unexpanded neighbour of an expanded cell has a g-score at most one above that cell's. |
| AStar.FoundSettled | src/algorithms/astar.js:21-24 | When the finish is taken and marked visited, every visited cell, the finish included, is settled. |
| AStar.NoWalkWhenStuck | src/algorithms/astar.js:19 | When the cheapest waiting cell has f-score Infinity, no open walk leads from the start to the finish. |
| AStar.PopCheapest | src/algorithms/astar.js:14-15 | Exactly one cell leaves the working list, and no remaining cell has a lower f-score. The taken cell followed by the remaining list is sorted by f-score and keeps, for every f-score, the input order of the cells with that score. With `FScoreSort.StableSortUnique` this fixes both the taken cell and the order of the remaining list. |
| AStar.PopTieBreak | src/algorithms/astar.js:14-15 | When the head of a stable re-sort is taken, it is the first cell of its f-score in the old list, so ties go to the earlier cell. |
| AStar.SkipWallStep | src/algorithms/astar.js:17 | Dropping a wall from the working list without marking it keeps the loop invariant. |
| AStar.ExpandStep | src/algorithms/astar.js:21-26 | Expanding a non-finish cell keeps the loop invariant. The cell joins the visited order and leaves the working list. |
| AStar.FoundStep | src/algorithms/astar.js:21-24 | When the finish is taken, it is marked visited and appended last. The invariant and the f-score order still hold. |
| AStar.Search | src/algorithms/astar.js:3-28 | The visited order holds distinct non-wall cells, each marked visited, and at most one entry per cell. The finish is in it exactly when the search found it, and then it comes last. Running out of cells happens only when the finish is a wall. An infinite cheapest f-score means the finish is a wall or unreached. On a reset snapshot the result satisfies the search invariant, cells were expanded in non-decreasing f-score order, every visited cell is settled, and the search ends with the finish found whenever an open walk leads to it. |
| Paths.PathTo | src/algorithms/astar.js:82-90 | The reconstructed sequence ends at the given cell and starts at a cell without predecessor. Each cell in it is the predecessor of the next. The walk is defined whenever g-scores strictly decrease along links. |
| Paths.SearchLinksRanked | src/algorithms/astar.js:85-88 | In any search state, g-scores strictly decrease along predecessor links, so the walk back terminates. |
| Paths.ReachedPath | src/algorithms/astar.js:82-90 | From a reached cell the walk leads back to the start through adjacent expanded cells and has exactly g-score + 1 cells. |
| Paths.UnreachedPath | src/algorithms/astar.js:82-90 | From a cell never reached the walk is that cell alone, and the cell is not the start. |
| Paths.FoundPathShortest | src/algorithms/astar.js:82-90 | The walk back from an expanded cell is an open walk from the start, and no open walk from the start to that cell has fewer cells. |
| Visualize.FoundOnBoard | src/PathfindingVisualizer/PathfindingVisualizer.jsx:290-311 | After a successful search on the snapshot, the path rebuilt from the finish is, on the board itself, an open walk from the start that no other open walk to the finish undercuts. |
| Visualize.VisualizeAStar | src/PathfindingVisualizer/PathfindingVisualizer.jsx:290-311 | One A* run on the board gives a visited order of distinct non-wall cells, with the finish in it exactly on success and then last. The finish is found exactly when an open walk leads from the start to it on the board. When found, the path is an open walk from start to finish that is no longer than any other open walk between them, and it is longer than their Manhattan distance. When the finish is not a wall, a non-found run gives the one-cell path and the run succeeded exactly when the path starts at the start. |

## Left out

- Rendering, mouse and touch handling, animation timing, the tutorial, and React state are out of scope; so are the `performance.now()` timings and the `isVisualizing` guard. The timings are clock reads, and the guard only sequences user actions.
- The Dijkstra engine and the comparison of its distances with A*'s are out of scope. `src/algorithms/dijkstra.js` is not part of this model.
- Line 7 of `src/algorithms/astar.js` holds a stray expression statement `e` that refers to an undeclared name. The model treats that line as absent, so `AStar.Search` models the search the surrounding code describes.
- AStar.Search: the predecessor-chain, f-score-order, settledness and completeness guarantees are stated for reset snapshots only, because that is the only input the visualizer passes. On arbitrary leftover state the source gives no such promise.
- Paths.PathTo: defined only when g-scores strictly decrease along predecessor links. On a cyclic chain the source loops forever. `Paths.SearchLinksRanked` shows that every search state satisfies the requirement.
- The concrete 5×5 scenarios, and running a search twice on independent snapshots, are not stated as lemmas. The model is deterministic by construction, and `Board.SnapshotDependsOnlyOnLayout` shows two snapshots of one board are identical.
