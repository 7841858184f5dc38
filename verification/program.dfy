/**
 * The top level of the script, without its window: build the grid, carve
 * it, then call `next(solver)` until the generator is exhausted.
 */
module Program {
  import opened Grid
  import opened Walks
  import opened Generator
  import opened Bfs

  /** The grid size of main.py:93: as many 20-pixel tiles as fit across and down the window. */
  const Cols: nat := Width / 20
  const Rows: nat := Height / 20

  /** Builds the grid of the window's size and carves it. */
  method Build() returns (maze: Maze)
    ensures fresh(maze) && fresh(maze.cells)
    ensures maze.cols == Cols && maze.rows == Rows && maze.cells.Length == Cols * Rows
    ensures Perfect(Cols, Rows, maze.cells[..])
  {
    maze := new Maze(Cols, Rows);
    BuildGridShape(Cols, Rows);
    maze.Generate();
  }

  /**
   * Calls `next(solver)` on a fresh generator until its final event, then
   * once more, which finds it exhausted. Every event but the final one is
   * a discovery, and there are fewer of them than cells.
   */
  method Drain(solver: Solver) returns (discoveries: nat, reached: bool)
    requires solver.Valid()
    requires solver.frame.Suspended? && solver.frame.cameFrom == map[solver.start := None]
    modifies solver
    ensures solver.Valid() && solver.frame.Closed?
    ensures reached <==> Reachable(solver.cells, solver.start, solver.end)
    ensures discoveries < |solver.cells|
  {
    var r := solver.Step();
    discoveries := if r.Discovered? then 1 else 0;
    while r.Discovered?
      invariant solver.Valid() && !r.Exhausted?
      invariant r.Discovered? ==> solver.frame.Suspended?
      invariant r.Final? ==> solver.frame.Closed? && r.reached == Reachable(solver.cells, solver.start, solver.end)
      invariant |solver.frame.cameFrom.Keys| == discoveries + 1 <= |solver.cells|
      decreases solver.Budget()
    {
      r := solver.Step();
      if r.Discovered? {
        discoveries := discoveries + 1;
      }
    }
    reached := r.reached;
    var last := solver.Step();
    assert last.Exhausted?;
  }

  /**
   * The whole script (main.py:132-134): solving the carved maze from its
   * first cell to its last always reaches `end`, since a perfect maze is
   * connected.
   */
  method Run() returns (maze: Maze, discoveries: nat, reached: bool)
    ensures fresh(maze) && Perfect(Cols, Rows, maze.cells[..])
    ensures reached && discoveries < Cols * Rows
  {
    maze := Build();
    var solver := new Solver(maze.cells[..], 0, maze.cells.Length - 1);
    discoveries, reached := Drain(solver);
  }
}
