# Maze generator and solver, modelled in Dafny

`main.py` builds a 24 × 37 grid of 20-pixel cells for a 480 × 750 window. Each cell starts
unvisited with all four walls up. The program carves a maze with a randomised iterative
depth-first search, which removes the wall between the current cell and a randomly chosen
unvisited neighbour. It then animates a breadth-first search from the first cell to the last.
That search is `solve_maze`, a Python generator that yields once per discovered cell and once
more at the end.

This project models that core and proves what it promises:

- **Grid** (`grid.dfy`, module `Grid`). A cell is a value holding pixel coordinates, size,
  `visited` flag and four walls. The grid is built row-major, so the cell of column `x` and
  row `y` sits at index `y * cols + x` and at pixel `(20x, 20y)`. Lemmas show that the
  program's coordinate tests ("one tile to the right") agree with index arithmetic.
- **Walls** (`walls.dfy`, module `Passages`). `remove_walls` as a function on the grid,
  with its two offset tests kept independent as in the program. On neighbouring cells it
  takes down exactly the facing pair of walls. It keeps wall symmetry and the outer border.
- **Neighbour queries** (`neighbors.dfy`, module `Neighbors`). `get_neighbors_for_generation`
  and `get_neighbors` are linear scans over the grid, as in the program. Lemmas give their
  results both by meaning (every unvisited axis neighbour; every cell behind an open wall)
  and exactly, by index arithmetic (at most one per direction, in the program's order).
- **Sets** (`sets.dfy`, module `Sets`). Two counting facts about finite sets of indices, used by
  the carving and solving proofs.
- **Walks** (`walks.dfy`, module `Walks`). Walks and reachability in the maze graph, whose
  edges are the steps `get_neighbors` allows.
- **Carving** (`generator.dfy`, module `Generator`). Class `Maze` holds the grid in an
  array. `RemoveWalls` updates two cells in place. `Generate` is the carving loop, with
  `random.choice` as an arbitrary choice. It proves that every choice sequence ends in a
  perfect maze: every cell is visited, the walls stay symmetric, the border stays closed,
  exactly `cols * rows - 1` inner walls are down, and every cell is reachable from every
  other. With `N` cells, `N - 1` edges and connectivity, the maze is a spanning tree.
- **Solving** (`solver.dfy`, module `Bfs`). Class `Solver` is the suspended generator. Its
  `frame` holds the generator's locals (`queue`, `came_from`, `current`, the neighbour list
  and the position in it), or only `came_from` once the final event has been produced.
  `Step` is `next(solver)` and returns `Discovered`, `Final` or `Exhausted` (`StopIteration`).
  A discovery records `current` as the new cell's predecessor, through an open wall. The
  final event says whether `end` was reached, exactly when a walk leads to it. The
  `came_from` chain from `end` is then a shortest walk. Every event but `Exhausted` lowers
  a bound that starts at the number of cells.
- **Top level** (`program.dfy`, module `Program`). Builds and carves the window-sized grid,
  then drains the solver. On the carved maze the final event always reports `end` as reached.

## Model

| member | source | states |
|---|---|---|
| Grid.NewCell | main.py:13-18 | a new cell has the given position and size, is not visited and has all four walls |
| Grid.BuildGrid | main.py:93-94 | the grid comprehension yields `cols * rows` cells |
| Grid.BuildGridAt | main.py:93-94 | the cell of column `x`, row `y` is at index `y * cols + x`, at pixel `(20x, 20y)`, unvisited, with all walls |
| Grid.BuildGridShape | main.py:93-94 | the built grid is row-major on 20-pixel tiles, every cell unvisited with all walls up |
| Grid.Cleared | main.py:79-90 | clearing side `d` takes that wall down and leaves the other three as they were |
| Grid.LiesIndex | main.py:59-62 | cell `j` is one tile from cell `i` in direction `d` exactly when index arithmetic names `j` as `i`'s neighbour in `d` |
| Grid.TilesDistinct | main.py:94 | two cells of the grid on the same tile are the same cell |
| Passages.Facing | main.py:77-90 | the walls of one cell after `remove_walls`: never raises a wall, and when the other cell lies next to it in direction `d`, exactly side `d` is cleared |
| Passages.RemoveWallsSpec | main.py:76-90 | the grid after `remove_walls(cells[i], cells[j])`: same length; cells other than `i` and `j` unchanged; positions, sizes and visited flags unchanged; no wall raised |
| Passages.LiesOpposite | main.py:77-90 | `b` lies in direction `d` from `a` exactly when `a` lies in the opposite direction from `b` |
| Passages.LiesOneDirection | main.py:77-90 | a cell lies next to another in at most one direction, and never next to itself |
| Passages.RemoveWallsFacing | main.py:76-90 | on neighbouring cells, `remove_walls` clears exactly `a`'s wall toward `b` and `b`'s wall toward `a`; no other cell changes |
| Passages.RemoveWallsSymmetric | main.py:76-90 | `remove_walls` on neighbouring cells keeps every facing pair of walls equal |
| Passages.RemoveWallsBorder | main.py:76-90 | `remove_walls` on neighbouring cells keeps the outer wall closed and every cell on its tile |
| Neighbors.Scan | main.py:99-104 | the `for neighbor in grid` loop that appends the cells passing a test: at most one entry per cell, every entry a cell index |
| Neighbors.ScanSpec | main.py:99-104 | the scan over the grid lists, in increasing order, exactly the indices whose cell passes the test |
| Neighbors.IsGenerationCandidate | main.py:100-102 | the test of `get_neighbors_for_generation` holds exactly for an unvisited cell one tile away in one of the four directions |
| Neighbors.GenerationNeighbors | main.py:97-105 | `get_neighbors_for_generation(c)`: every listed index is an unvisited cell one tile from `c` |
| Neighbors.OpenToward | main.py:59-62 | the test of `get_neighbors` for one direction: a cell that passes it is at Manhattan distance exactly one tile |
| Neighbors.OpenInDirection | main.py:59-63 | one pass of the direction loop of `get_neighbors`: every listed cell is the tile in that direction, and nothing is listed when the wall there is up |
| Neighbors.GetNeighbors | main.py:51-64 | `get_neighbors(c)`: every listed cell is one tile from `c` through an open wall of `c`; a cell with all four walls has no neighbours |
| Neighbors.AxisNeighbor | main.py:100-102 | the axis-distance test names exactly the cells one tile away in one of the four directions |
| Neighbors.GenerationNeighborsSpec | main.py:97-105 | `get_neighbors_for_generation(c)` lists exactly the unvisited cells one tile from `c`, each once, in grid order |
| Neighbors.GenerationNeighborsExact | main.py:97-105 | on a grid, the result is the unvisited neighbours above, left, right and below, so at most four |
| Neighbors.GetNeighborsSpec | main.py:51-64 | `get_neighbors(cells[u])` lists exactly the cells `w` with an open step from `u` to `w` |
| Neighbors.OpenInDirectionExact | main.py:59-63 | one direction of the scan yields the neighbour in that direction if `u`'s wall there is down, otherwise nothing |
| Neighbors.GetNeighborsExact | main.py:51-64 | on a grid, the result is at most one cell per direction, in the order top, right, bottom, left, so at most four |
| Neighbors.UnvisitedAround | main.py:97-105 | the index-arithmetic list of unvisited neighbours has at most four entries |
| Neighbors.UnvisitedAroundHas | main.py:100-102 | an index is in that list exactly when it is an unvisited cell one tile from `u` |
| Walks.OpenWidened | main.py:124 | taking walls down keeps every open step open |
| Walks.WalkWidened | main.py:124 | taking walls down keeps every walk a walk |
| Walks.OpenSymmetric | main.py:51-64 | with symmetric walls every open step can be taken back |
| Walks.WalkReverse | main.py:51-64 | with symmetric walls a reversed walk is a walk |
| Walks.WalkJoin | main.py:51-64 | two walks meeting at a cell join into one |
| Walks.ConnectedFromRoot | main.py:119-130 | with symmetric walls, if every cell is reachable from one cell, every cell is reachable from every other |
| Generator.Carved | main.py:123-126 | the grid after one carve step: `next` is visited, no other visited flag changes, only `current` and `next` change, and no wall is raised |
| Generator.GenInit | main.py:108-110 | after `current = grid[0]; current.visited = True` the carving invariant holds, with no wall down and `N - 1` cells unvisited |
| Generator.CarveBasics | main.py:122-126 | a carve step clears the facing walls of `current` and `next`, marks `next` visited, changes no other cell and keeps symmetry, border and shape |
| Generator.CarveCountAxis | main.py:124 | a carve step to the right or downward neighbour adds one passage to the count |
| Generator.CarveCount | main.py:124-126 | a carve step adds exactly one open passage and removes `next` from the unvisited cells |
| Generator.CarveRoutes | main.py:123-126 | after a carve step every visited cell still has a walk from cell 0 |
| Generator.CarveDfs | main.py:120-126 | after a carve step the stacked cells and `current` are visited, and every other visited cell has no unvisited neighbour |
| Generator.CarveStep | main.py:120-126 | a carve step toward any unvisited neighbour keeps the carving invariant and shrinks the unvisited set |
| Generator.BacktrackStep | main.py:127-128 | popping the stack when no unvisited neighbour is left keeps the carving invariant |
| Generator.AllVisited | main.py:119-130 | if cell 0 is visited and no visited cell has an unvisited neighbour, every cell is visited |
| Generator.GenFinal | main.py:129-130 | when the loop stops, the maze is perfect: all visited, `N - 1` passages, symmetric, closed border, connected |
| Generator.EdgeOfOpen | main.py:76-90 | every open step is one of the counted passages |
| Generator.OpenOfEdge | main.py:76-90 | every counted passage is an open step both ways |
| Generator.OpenWallsAreEdges | main.py:76-90 | the counted passages are exactly the edges of the maze graph |
| Generator.Maze.constructor | main.py:93-94 | the array holds the freshly built grid |
| Generator.Maze.RemoveWalls | main.py:76-90 | the array after the call is the grid after `remove_walls`, with both offset tests as in the program |
| Generator.Maze.Generate | main.py:108-130 | for every sequence of random choices, the loop stops and leaves a perfect maze |
| Bfs.Trace | main.py:44 | following predecessors back from `v` gives a list ending in `v`, at most `fuel + 1` long |
| Bfs.InitInv | main.py:34-35 | `queue = [start]`, `came_from = {start: None}` satisfies the search invariant |
| Bfs.SkipFrontier | main.py:41-42 | passing over an already discovered neighbour leaves no undiscovered edge unaccounted for |
| Bfs.SkipInv | main.py:41-42 | passing over an already discovered neighbour keeps the search invariant |
| Bfs.DiscoverRooted | main.py:42-44 | recording a new cell keeps `start` the root and every depth below the number of discovered cells |
| Bfs.DiscoverEdges | main.py:42-44 | recording `came_from[w] = current` along an open step keeps every predecessor one level up, through an open wall |
| Bfs.DiscoverParents | main.py:42-44 | recording a new cell keeps the predecessor map a tree rooted at `start` |
| Bfs.DiscoverLevels | main.py:43-44 | appending the new cell one level below `current` keeps the queue sorted by depth within two levels |
| Bfs.DiscoverFrontier | main.py:41-45 | after a discovery every open step out of the discovered cells is still queued or pending |
| Bfs.DiscoverInv | main.py:41-45 | discovering a neighbour keeps the search invariant |
| Bfs.DequeueInv | main.py:36-40 | `popleft` and `get_neighbors` keep the search invariant, with the new neighbour list all open steps |
| Bfs.ExploredOfSearch | main.py:36-45 | between two cells, every open step out of a discovered cell reaches a discovered cell unless the cell is queued |
| Bfs.WalkDepth | main.py:36-45 | along any walk from `start`, the `j`-th cell is discovered at depth at most `j`, unless the queue head is that shallow |
| Bfs.TraceWalk | main.py:44 | the `came_from` chain back from a discovered cell is a walk from `start` with depth + 1 cells |
| Bfs.NoShorterWalk | main.py:37-39 | when `end` is at the queue head, or the queue is empty, no walk reaches `end` in fewer steps than its depth |
| Bfs.FinalShortest | main.py:46-48 | then the `came_from` chain from `end` is a walk from `start` no longer than any other |
| Bfs.FinalOnEnd | main.py:37-39 | stopping at `end` means `end` is discovered and its chain is a shortest walk |
| Bfs.FinalOnEmpty | main.py:36-48 | stopping on an empty queue means `end` is discovered exactly when it is reachable |
| Bfs.Solver.constructor | main.py:33-35 | a new generator holds `queue = [start]`, `came_from = {start: None}` and satisfies its invariant |
| Bfs.Solver.Step | main.py:33-48 | `next(solver)`: a discovery adds one new cell with `current` as predecessor through an open wall; the final event comes once, with `reached` exactly when `end` is reachable and a shortest `came_from` chain; afterwards only `Exhausted`; every event lowers a bound of `N`; dequeues never exceed the discovered cells |
| Program.Build | main.py:93-130 | the window-sized grid is built and carved into a perfect maze |
| Program.Drain | main.py:155-158 | pulling events until the generator is exhausted ends with `reached` exactly when `end` is reachable, after fewer discoveries than cells |
| Program.Run | main.py:132-134 | solving from `grid[0]` to `grid[-1]` on the carved maze always reaches `end` |

## Left out

- The pygame window, clock, event loops and key handling (main.py:1-9, 112-117, 145-166) are I/O and frame pacing. `Program.Drain` stands for the repeated `next(solver)` calls.
- Drawing is rendering only: `Cell.draw`, `draw_solution` and `blink_cell` (which reads `pygame.time.get_ticks`).
- The random number generator behind `random.choice` is not modelled. Carving picks an arbitrary index among the unvisited neighbours, so every property holds for every sequence of choices.
- The `print` for an unreachable `end` is not modelled. The final event carries a `reached` flag instead.
- Cells are identified by grid index, not by object identity. `came_from` keys, stack entries and `current` are indices.
- The solver reads a snapshot (`seq`) of the carved grid, not the live cell objects. The program does not change the grid while solving.
- The yielded `came_from` is the generator's own live dict. The model hands out a copy of its value at each event, so it does not model the caller aliasing or mutating that dict.
- The cost of the linear scans over the grid is not modelled. The scans themselves are kept, and lemmas give their results by index arithmetic.
- Acyclicity is not stated as a separate property. It follows from connectivity together with exactly `N - 1` passages.
- Path reconstruction is not in the program. `Bfs.Trace` is a specification function that states what the `came_from` chain means.
- `Program.Drain` does not model the rendering that follows each event. After `StopIteration` the program keeps redrawing the last `came_from`; the model stops after one `Exhausted`.
