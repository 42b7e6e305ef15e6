# Maze generator and solver: a verified model

This project models the algorithmic core of a browser maze generator. The
generator carves a perfect maze on a width-by-height grid by randomized
iterative depth-first search. The solver finds the path between two cells
by breadth-first search and then follows parent links back from the end.

The Dafny modules follow the structure of `script.ts`:

- `Grid` (grid.dfy): cells, two-dimensional grids indexed `[x][y]` as
  sequences of columns, and the `neighbors` enumeration.
- `Mazes` (maze.dfy): the `Wall` record and the `Maze` (visited flags and
  walls). It defines the step test the solver uses (`Open`: the current
  cell's own wall facing the neighbour is open), carving of a shared edge,
  walks, and the set of carved edges.
- `Generator` (generator.dfy): `generateMaze` as a loop over an explicit
  stack, with the loop invariant split into named parts. Each part has its
  own preservation lemma.
- `Solver` (solver.dfy): `findSolution`. This covers the per-neighbour
  callback, the FIFO search loop and the parent-link walk back. It returns
  the path instead of drawing it.
- `App` (app.dfy): `generate` without the page I/O. It generates a maze and
  solves it from corner to corner.

The model makes these choices:

- Randomness is injected. The k-th call of `Math.random()` is replaced by
  the k-th entry of a caller-supplied `draws: seq<nat>`, taken modulo the
  range the source scales to (0 once the entries run out). Draws 0 and 1
  pick the start cell. Each carving step uses the next draw. A run is
  therefore a deterministic function of the size and the draws.
- The `Status.VISITED` bit is a plain `bool` per cell.
- A record of the search is `Record(parent: Option<Cell>, dist: Dist)`. The
  source's `[-1, -1]` parent is `None` and its `Infinity` is `Infinity`.
- The source never checks the dimensions. `width >= 1` and `height >= 1`
  are preconditions of generation, because the source fails on an empty
  grid. For the same reason `start` and `end` must lie in the grid.
- When `end` cannot be reached, the source silently returns `[end]`;
  `FindSolution` returns `NoPath` instead, exactly when no walk leads from
  `start` to `end`.

## Model

| member | source | states |
|---|---|---|
| Grid.Neighbors | script.ts:25-35 | at most four cells, and exactly the in-bounds cells one step up, down, left or right of the given cell |
| Grid.Reverse | script.ts:174 | `path.reverse()`: same length, and entry `i` is entry `|s|-1-i` of the input |
| Mazes.Carve | script.ts:100-119 | clears `cur`'s side facing `nb` and `nb`'s side facing `cur`; no other cell's walls change and the grid stays the same shape |
| Mazes.Clear | script.ts:100-119 | one cell's side of the two if-chains on `dx` and `dy`: after it the step to the adjacent `to` is not blocked, and no side was closed; `ClearBlocks` adds that no other step is unblocked |
| Mazes.ClearBlocks | script.ts:100-119 | clearing the side facing a neighbour unblocks the step to that neighbour and no other step, and closes nothing |
| Mazes.CarveOpens | script.ts:100-119 | after carving, a step is allowed exactly when it was allowed before or it is one of the two steps between `cur` and `nb` |
| Mazes.CarveOnlyOpens | script.ts:100-119 | walls only go from closed to open during carving |
| Mazes.CarveKeepsSymmetric | script.ts:100-119 | both sides of a shared edge are cleared together, so `walls[x][y].right == walls[x+1][y].left` and `walls[x][y].bottom == walls[x][y+1].top` keep holding |
| Mazes.CarveKeepsBorder | script.ts:94-119 | carving between two cells of the grid leaves every outer border wall closed |
| Mazes.CarveAddsEdge | script.ts:100-119 | carving a still-closed edge adds exactly that edge to the carved edges, which therefore grow by one |
| Mazes.Mark | script.ts:120 | marking sets the visited flag of that cell only and leaves the walls alone |
| Mazes.Blocked | script.ts:144-153 | the one-sided wall test of the search (right for `dx == 1`, left for `dx == -1`, bottom for `dy == 1`, top for `dy == -1`): a fully closed cell blocks every step to an adjacent cell and a fully open one blocks none; `OpenSymmetric` relates it to the step back |
| Mazes.OpenSymmetric | script.ts:144-153 | in a maze whose walls agree on both sides, checking only the current cell's wall allows a step exactly when the step back is allowed |
| Generator.Draw | script.ts:88-99 | each random choice (the start column and row at line 88, the neighbour at line 99) is an index below the range it scales to, as `Math.floor(Math.random() * n)` is |
| Generator.Unvisited | script.ts:94-96 | keeps exactly the listed cells that are not visited, and no more of them |
| Generator.UnvisitedNeighbors | script.ts:94-96 | exactly the unvisited in-bounds neighbours of the cell |
| Generator.MarkCounts | script.ts:120 | marking an unvisited cell moves exactly that cell from the unvisited to the visited cells |
| Generator.InitInv | script.ts:75-90 | after the start cell is marked and pushed, all walls are closed, no edge is carved and only the start is visited |
| Generator.CarveKeepsWallsInv | script.ts:97-121 | a carving step keeps the walls symmetric and the border closed, and leaves unvisited cells with all four walls |
| Generator.CarveCounts | script.ts:97-121 | a carving step adds exactly one carved edge and one visited cell, keeps carved edges equal to visited cells minus one, and removes one unvisited cell |
| Generator.CarvedOpensMore | script.ts:100-120 | a carving step keeps every open step open and opens the step from `cur` to `nb` |
| Generator.CarveKeepsReach | script.ts:97-121 | after a carving step, every visited cell is still reachable from the start cell |
| Generator.CarveKeepsClosed | script.ts:97-121 | the stack keeps holding visited cells, and a visited cell off the stack keeps having only visited neighbours |
| Generator.CarveStep | script.ts:97-121 | one carving step keeps the whole loop invariant, adds one edge and one visited cell, and lowers the unvisited count by one |
| Generator.BacktrackStep | script.ts:92-97 | popping a cell with no unvisited neighbour keeps the loop invariant |
| Generator.BacktrackKeepsClosed | script.ts:92-97 | a popped cell has only visited neighbours, so every visited cell off the shorter stack is closed |
| Generator.AllVisitedWhenClosed | script.ts:92-123 | once the visited cells have no unvisited neighbour, every cell of the grid is visited |
| Generator.Finish | script.ts:92-123 | with the stack empty, every cell is visited, there are `width*height-1` carved edges, and any cell is reachable from any other |
| Generator.GenerateMaze | script.ts:73-130 | the loop ends (measure `2*unvisited + |stack|`); the result has every cell visited, walls that agree on both sides, a closed border, `width*height-1` carved edges and every cell reachable from every other, so it is a spanning tree of the grid |
| Solver.InitSearch | script.ts:133-139 | initially only the start is reached, at distance 0 with no parent, and it is the only queued cell |
| Solver.Reach | script.ts:155-160 | the record write for a newly reached neighbour: it gets parent `current` and distance `d`, and every other record and the grid's shape stay as they were; `ReachExtends` adds that no written record changes |
| Solver.ReachExtends | script.ts:155-161 | writing an unreached cell's record changes no record already written |
| Solver.DiscoverLinked | script.ts:155-161 | a newly reached cell is linked to `current`, one open step away, at `current`'s distance plus one |
| Solver.DiscoverFrontier | script.ts:155-161 | enqueuing the new cell at distance `level+1` keeps the queue sorted by distance and within one level |
| Solver.DiscoverExplored | script.ts:155-161 | every reached cell stays queued, in expansion, or settled |
| Solver.DiscoverCount | script.ts:155-161 | the unreached cells shrink by exactly the newly reached one |
| Solver.Discover | script.ts:155-161 | reaching an unreached cell through an open step from `current` gives it distance `level+1`, keeps every search invariant and every written record, and removes it from the unreached cells |
| Solver.Visit | script.ts:144-162 | the step is skipped when `current`'s wall facing the neighbour is closed; a record is written only when the cell is still unreached, and then it gets parent `current` and distance plus one and is queued once; written records never change |
| Solver.Expand | script.ts:142-163 | after `current`'s neighbours are processed, every open step out of `current` leads to a reached cell at most one further away, and the search invariants hold |
| Solver.Dequeue | script.ts:141 | taking the head of the queue raises the level to its distance and keeps the queue and the explored cells consistent |
| Solver.Bfs | script.ts:133-164 | the loop ends (measure: unreached cells plus queue length); the start has distance 0 and no parent, every other reached cell links to a reached parent one open step away at one less distance, and every reached cell is settled |
| Solver.Reconstruct | script.ts:166-174 | the parent walk ends (distance strictly drops) at the start; the reversed path starts at `start`, ends at `end`, has `dist[end] + 1` cells and moves only through open walls |
| Solver.WalkBound | script.ts:140-164 | any walk from the start ends at a reached cell whose distance is at most the walk's step count, so distances are shortest |
| Solver.FindSolution | script.ts:132-174 | returns a path exactly when `end` is reachable; the path is a walk from `start` to `end` no longer than any other; it is `[start]` when `start == end` |
| App.Generate | script.ts:182-194 | on a generated maze the corner-to-corner search always finds a path, and the path is a shortest walk; on a 1-by-1 grid it is `[(0,0)]` |

## Left out

- Canvas setup and drawing (`drawCells`, `drawWalls`, the highlight loop) are rendering I/O with no effect on the maze or the path.
- The `cellSize` field and its computation use floating-point division over canvas dimensions and only matter for rendering.
- `Math.random` itself is replaced by the caller-supplied draws.
- `generate` reads the size from input elements, and `resize` sets the canvas size. Only the generate-then-solve sequence is kept, as `App.Generate`, with the size as parameters.
- The `Status.EXPLORED` flag is never used. The bit arithmetic on `Status.VISITED` becomes a boolean.
- The source's `[end]` result for an unreachable end is replaced by `NoPath`. On a generated maze this case cannot occur, as `App.Generate` shows.
- Acyclicity of the carved edges is not proved separately. The model proves connectivity and `width*height-1` edges, and together those make the carved graph a tree.
- Distance symmetry (a search from `end` back to `start` finds the same distance) is not a separate member. It follows from `Mazes.OpenSymmetric` (via `Mazes.ReverseWalk`) together with shortest-path optimality.
