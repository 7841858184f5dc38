/**
 * Maze carving by randomised iterative depth-first search (main.py:108-130)
 * over a grid held in an array, with `remove_walls` as a method that updates
 * two cells in place.
 */
module Generator {
  import opened Grid
  import opened Passages
  import opened Neighbors
  import opened Walks
  import opened Sets

  /** Cells whose right wall is down and faces a neighbour: one per open horizontal passage. */
  ghost function RightOpen(cols: nat, cells: seq<Cell>): set<nat>
    requires cols > 0
  {
    set i: nat | i < |cells| && Col(cols, i) < cols - 1 && !cells[i].walls.right
  }

  /** Cells whose bottom wall is down and faces a neighbour: one per open vertical passage. */
  ghost function BottomOpen(cols: nat, cells: seq<Cell>): set<nat>
  {
    set i: nat | i + cols < |cells| && !cells[i].walls.bottom
  }

  /** The number of walls between neighbouring cells that are down, each counted once. */
  ghost function OpenWallCount(cols: nat, cells: seq<Cell>): nat
    requires cols > 0
  {
    |RightOpen(cols, cells)| + |BottomOpen(cols, cells)|
  }

  ghost function UnvisitedSet(cells: seq<Cell>): set<nat> {
    set i: nat | i < |cells| && !cells[i].visited
  }

  /** The grid after one carve step: `remove_walls(cur, next)`, then `next` marked visited. */
  function Carved(cells: seq<Cell>, cur: nat, next: nat): (r: seq<Cell>)
    requires cur < |cells| && next < |cells|
    ensures |r| == |cells| && r[next].visited
    ensures forall k :: 0 <= k < |cells| && k != next ==> r[k].visited == cells[k].visited
    ensures forall k :: 0 <= k < |cells| && k != cur && k != next ==> r[k] == cells[k]
    ensures Widened(cells, r)
  {
    var r := RemoveWallsSpec(cells, cur, next);
    r[next := r[next].(visited := true)]
  }

  /** Every neighbour of the visited cell `v` is visited. */
  ghost predicate Settled(cells: seq<Cell>, v: nat)
    requires v < |cells|
  {
    forall w, d :: 0 <= w < |cells| && Lies(cells[v], cells[w], d) ==> cells[w].visited
  }

  /** The state of the grid that carving keeps. */
  ghost predicate GridOk(cols: nat, rows: nat, cells: seq<Cell>) {
    && Shape(cols, rows, cells)
    && Symmetric(cells)
    && Border(cols, rows, cells)
    && cells[0].visited
    && (forall i :: 0 <= i < |cells| && !cells[i].visited ==> cells[i].walls == AllWalls)
  }

  /** A walk through open walls from cell 0 to every visited cell. */
  ghost predicate RoutesOk(cells: seq<Cell>, routes: map<nat, seq<nat>>) {
    forall v :: 0 <= v < |cells| && cells[v].visited ==> v in routes && WalkFrom(cells, routes[v], 0, v)
  }

  /**
   * The depth-first discipline: `current` and every stacked cell are visited,
   * and a visited cell that is neither stacked nor current has no unvisited
   * neighbour left.
   */
  ghost predicate DfsOk(cells: seq<Cell>, stack: seq<nat>, current: nat) {
    && current < |cells| && cells[current].visited
    && (forall k :: 0 <= k < |stack| ==> stack[k] < |cells| && cells[stack[k]].visited)
    && (forall v :: 0 <= v < |cells| && cells[v].visited && v != current && v !in stack ==> Settled(cells, v))
  }

  ghost predicate GenInv(cols: nat, rows: nat, cells: seq<Cell>, stack: seq<nat>, current: nat,
                         routes: map<nat, seq<nat>>) {
    && GridOk(cols, rows, cells)
    && OpenWallCount(cols, cells) + |UnvisitedSet(cells)| == |cells| - 1
    && RoutesOk(cells, routes)
    && DfsOk(cells, stack, current)
  }

  /** What carving promises: a perfect maze, every cell visited, `cols * rows - 1` passages, all connected. */
  ghost predicate Perfect(cols: nat, rows: nat, cells: seq<Cell>) {
    && Shape(cols, rows, cells)
    && Symmetric(cells)
    && Border(cols, rows, cells)
    && (forall i :: 0 <= i < |cells| ==> cells[i].visited)
    && OpenWallCount(cols, cells) == |cells| - 1
    && (forall a, b :: 0 <= a < |cells| && 0 <= b < |cells| ==> Reachable(cells, a, b))
  }

  /** The state right after the first cell is made current and marked visited (main.py:108-110). */
  lemma GenInit(cols: nat, rows: nat)
    requires cols > 0 && rows > 0
    ensures |BuildGrid(cols, rows)| > 0
    ensures GenInv(cols, rows, BuildGrid(cols, rows)[0 := BuildGrid(cols, rows)[0].(visited := true)],
                   [], 0, map[0 := [0]])
  {
    var g := BuildGrid(cols, rows);
    MulAtLeast(cols, rows);
    BuildGridShape(cols, rows);
    var cells := g[0 := g[0].(visited := true)];
    assert GridOk(cols, rows, cells) by {
      SameTilesShape(cols, rows, g, cells);
    }
    assert OpenWallCount(cols, cells) + |UnvisitedSet(cells)| == |cells| - 1 by {
      assert RightOpen(cols, cells) == {};
      assert BottomOpen(cols, cells) == {};
      assert UnvisitedSet(cells) == Range(1, |cells|);
    }
    assert RoutesOk(cells, map[0 := [0]]) by {
      assert WalkFrom(cells, [0], 0, 0);
    }
  }

  /** The facts about one carve step that the other lemmas share. */
  lemma CarveBasics(cols: nat, rows: nat, cells: seq<Cell>, cur: nat, next: nat, d: Dir)
    requires GridOk(cols, rows, cells) && cur < |cells| && next < |cells|
    requires cells[cur].visited && !cells[next].visited && Lies(cells[cur], cells[next], d)
    ensures GridOk(cols, rows, Carved(cells, cur, next))
    ensures Widened(cells, Carved(cells, cur, next))
    ensures Carved(cells, cur, next)[cur].walls == Cleared(cells[cur].walls, d)
    ensures Carved(cells, cur, next)[next].walls == Cleared(cells[next].walls, Opposite(d))
    ensures forall k :: 0 <= k < |cells| && k != cur && k != next ==> Carved(cells, cur, next)[k] == cells[k]
    ensures forall k :: 0 <= k < |cells| ==> Carved(cells, cur, next)[k].visited == (cells[k].visited || k == next)
  {
    var r := RemoveWallsSpec(cells, cur, next);
    var c := Carved(cells, cur, next);
    RemoveWallsFacing(cells, cur, next, d);
    RemoveWallsSymmetric(cols, rows, cells, cur, next, d);
    RemoveWallsBorder(cols, rows, cells, cur, next, d);
    SameTilesShape(cols, rows, r, c);
    assert Symmetric(c) by {
      forall i, j, e | 0 <= i < |c| && 0 <= j < |c| && Lies(c[i], c[j], e)
        ensures WallAt(c[i].walls, e) == WallAt(c[j].walls, Opposite(e))
      {
        assert Lies(r[i], r[j], e);
      }
    }
    assert Border(cols, rows, c) by {
      forall i, e | 0 <= i < |c| && NeighborIndex(cols, rows, i, e).None?
        ensures WallAt(c[i].walls, e)
      {
        assert WallAt(r[i].walls, e);
      }
    }
  }

  /** Taking down one right wall that faces a neighbour adds its cell to `RightOpen`. */
  lemma RightOpenAdd(cols: nat, cells: seq<Cell>, c: seq<Cell>, k: nat)
    requires cols > 0 && |c| == |cells| && k < |cells| && Col(cols, k) < cols - 1
    requires cells[k].walls.right && !c[k].walls.right
    requires forall i :: 0 <= i < |c| && i != k ==> c[i].walls.right == cells[i].walls.right
    ensures RightOpen(cols, c) == RightOpen(cols, cells) + {k}
    ensures k !in RightOpen(cols, cells)
  {
  }

  lemma RightOpenSame(cols: nat, cells: seq<Cell>, c: seq<Cell>)
    requires cols > 0 && |c| == |cells|
    requires forall i :: 0 <= i < |c| ==> c[i].walls.right == cells[i].walls.right
    ensures RightOpen(cols, c) == RightOpen(cols, cells)
  {
  }

  /** Taking down one bottom wall that faces a neighbour adds its cell to `BottomOpen`. */
  lemma BottomOpenAdd(cols: nat, cells: seq<Cell>, c: seq<Cell>, k: nat)
    requires |c| == |cells| && k + cols < |cells|
    requires cells[k].walls.bottom && !c[k].walls.bottom
    requires forall i :: 0 <= i < |c| && i != k ==> c[i].walls.bottom == cells[i].walls.bottom
    ensures BottomOpen(cols, c) == BottomOpen(cols, cells) + {k}
    ensures k !in BottomOpen(cols, cells)
  {
  }

  lemma BottomOpenSame(cols: nat, cells: seq<Cell>, c: seq<Cell>)
    requires |c| == |cells|
    requires forall i :: 0 <= i < |c| ==> c[i].walls.bottom == cells[i].walls.bottom
    ensures BottomOpen(cols, c) == BottomOpen(cols, cells)
  {
  }

  /**
   * One carve step between `lo` and the cell `hi` to its right (`Right`) or
   * below it (`Bottom`), in whichever order the two were visited, takes down
   * exactly one wall between neighbours that was up.
   */
  lemma CarveCountAxis(cols: nat, rows: nat, cells: seq<Cell>, cur: nat, next: nat, lo: nat, hi: nat, d: Dir)
    requires GridOk(cols, rows, cells) && cur < |cells| && next < |cells|
    requires cells[cur].visited && !cells[next].visited && Lies(cells[cur], cells[next], d)
    requires if d == Right || d == Bottom then lo == cur && hi == next else lo == next && hi == cur
    ensures OpenWallCount(cols, Carved(cells, cur, next)) == OpenWallCount(cols, cells) + 1
  {
    var c := Carved(cells, cur, next);
    CarveBasics(cols, rows, cells, cur, next, d);
    LiesOpposite(cells[cur], cells[next], d);
    var e := if d == Right || d == Left then Right else Bottom;
    assert Lies(cells[lo], cells[hi], e);
    LiesIndex(cols, rows, cells, lo, hi, e);
    assert WallAt(cells[lo].walls, e) by {
      if lo == next {
        assert cells[next].walls == AllWalls;
      } else {
        assert WallAt(cells[next].walls, Opposite(d));
      }
    }
    if e == Right {
      RightOpenAdd(cols, cells, c, lo);
      BottomOpenSame(cols, cells, c);
    } else {
      RightOpenSame(cols, cells, c);
      BottomOpenAdd(cols, cells, c, lo);
    }
  }

  /** One carve step takes down exactly one wall between neighbours that was up. */
  lemma CarveCount(cols: nat, rows: nat, cells: seq<Cell>, cur: nat, next: nat, d: Dir)
    requires GridOk(cols, rows, cells) && cur < |cells| && next < |cells|
    requires cells[cur].visited && !cells[next].visited && Lies(cells[cur], cells[next], d)
    ensures OpenWallCount(cols, Carved(cells, cur, next)) == OpenWallCount(cols, cells) + 1
    ensures UnvisitedSet(Carved(cells, cur, next)) == UnvisitedSet(cells) - {next}
    ensures next in UnvisitedSet(cells)
  {
    CarveBasics(cols, rows, cells, cur, next, d);
    if d == Right || d == Bottom {
      CarveCountAxis(cols, rows, cells, cur, next, cur, next, d);
    } else {
      CarveCountAxis(cols, rows, cells, cur, next, next, cur, d);
    }
  }

  lemma CarveRoutes(cols: nat, rows: nat, cells: seq<Cell>, routes: map<nat, seq<nat>>, cur: nat, next: nat, d: Dir)
    requires GridOk(cols, rows, cells) && RoutesOk(cells, routes) && cur < |cells| && next < |cells|
    requires cells[cur].visited && !cells[next].visited && Lies(cells[cur], cells[next], d)
    ensures RoutesOk(Carved(cells, cur, next), routes[next := routes[cur] + [next]])
  {
    var c := Carved(cells, cur, next);
    var routes' := routes[next := routes[cur] + [next]];
    CarveBasics(cols, rows, cells, cur, next, d);
    forall v | 0 <= v < |c| && c[v].visited ensures v in routes' && WalkFrom(c, routes'[v], 0, v) {
      if v == next {
        WalkWidened(cells, c, routes[cur]);
        assert OpenToward(c[cur], c[next], d);
        WalkExtend(c, routes[cur], next);
      } else {
        WalkWidened(cells, c, routes[v]);
      }
    }
  }

  lemma CarveDfs(cols: nat, rows: nat, cells: seq<Cell>, stack: seq<nat>, cur: nat, next: nat, d: Dir)
    requires GridOk(cols, rows, cells) && DfsOk(cells, stack, cur) && next < |cells|
    requires !cells[next].visited && Lies(cells[cur], cells[next], d)
    ensures DfsOk(Carved(cells, cur, next), stack + [cur], next)
  {
    var c := Carved(cells, cur, next);
    CarveBasics(cols, rows, cells, cur, next, d);
    forall v | 0 <= v < |c| && c[v].visited && v != next && v !in stack + [cur] ensures Settled(c, v) {
      assert Settled(cells, v);
      forall w, e | 0 <= w < |c| && Lies(c[v], c[w], e) ensures c[w].visited {
        assert Lies(cells[v], cells[w], e);
      }
    }
  }

  /** A carve step toward an unvisited neighbour keeps the invariant. */
  lemma CarveStep(cols: nat, rows: nat, cells: seq<Cell>, stack: seq<nat>, cur: nat,
                  routes: map<nat, seq<nat>>, next: nat)
    requires GenInv(cols, rows, cells, stack, cur, routes)
    requires next in GenerationNeighbors(cells, cells[cur])
    ensures next < |cells|
    ensures GenInv(cols, rows, Carved(cells, cur, next), stack + [cur], next, routes[next := routes[cur] + [next]])
    ensures |UnvisitedSet(Carved(cells, cur, next))| < |UnvisitedSet(cells)|
  {
    GenerationNeighborsSpec(cells, cells[cur]);
    var d :| Lies(cells[cur], cells[next], d);
    CarveBasics(cols, rows, cells, cur, next, d);
    CarveCount(cols, rows, cells, cur, next, d);
    CarveRoutes(cols, rows, cells, routes, cur, next, d);
    CarveDfs(cols, rows, cells, stack, cur, next, d);
  }

  /** With no unvisited neighbour, popping the stack keeps the invariant. */
  lemma BacktrackStep(cols: nat, rows: nat, cells: seq<Cell>, stack: seq<nat>, cur: nat,
                      routes: map<nat, seq<nat>>)
    requires GenInv(cols, rows, cells, stack, cur, routes)
    requires GenerationNeighbors(cells, cells[cur]) == [] && stack != []
    ensures GenInv(cols, rows, cells, stack[..|stack| - 1], stack[|stack| - 1], routes)
  {
    GenerationNeighborsSpec(cells, cells[cur]);
    var top := stack[|stack| - 1];
    var rest := stack[..|stack| - 1];
    assert stack == rest + [top];
    forall v | 0 <= v < |cells| && cells[v].visited && v != top && v !in rest ensures Settled(cells, v) {
      if v == cur {
        forall w, e | 0 <= w < |cells| && Lies(cells[cur], cells[w], e) ensures cells[w].visited {
          assert w !in GenerationNeighbors(cells, cells[cur]);
        }
      }
    }
  }

  /** Every cell of a grid is visited once cell 0 is and no visited cell has an unvisited neighbour. */
  lemma {:induction false} AllVisited(cols: nat, rows: nat, cells: seq<Cell>, i: nat)
    requires Shape(cols, rows, cells) && cells[0].visited
    requires forall v :: 0 <= v < |cells| && cells[v].visited ==> Settled(cells, v)
    requires i < |cells|
    ensures cells[i].visited
  {
    if i > 0 {
      if Col(cols, i) > 0 {
        AllVisited(cols, rows, cells, i - 1);
        LiesIndex(cols, rows, cells, i, i - 1, Left);
        LiesOpposite(cells[i], cells[i - 1], Left);
        assert Settled(cells, i - 1);
      } else {
        assert i >= cols;
        AllVisited(cols, rows, cells, i - cols);
        LiesIndex(cols, rows, cells, i, i - cols, Top);
        LiesOpposite(cells[i], cells[i - cols], Top);
        assert Settled(cells, i - cols);
      }
    }
  }

  /** When the loop stops (no unvisited neighbour, empty stack) the maze is perfect. */
  lemma GenFinal(cols: nat, rows: nat, cells: seq<Cell>, cur: nat, routes: map<nat, seq<nat>>)
    requires GenInv(cols, rows, cells, [], cur, routes)
    requires GenerationNeighbors(cells, cells[cur]) == []
    ensures Perfect(cols, rows, cells)
  {
    GenerationNeighborsSpec(cells, cells[cur]);
    forall v | 0 <= v < |cells| && cells[v].visited ensures Settled(cells, v) {
      if v == cur {
        forall w, e | 0 <= w < |cells| && Lies(cells[cur], cells[w], e) ensures cells[w].visited {
          assert w !in GenerationNeighbors(cells, cells[cur]);
        }
      }
    }
    forall i | 0 <= i < |cells| ensures cells[i].visited {
      AllVisited(cols, rows, cells, i);
    }
    assert UnvisitedSet(cells) == {};
    forall v | 0 <= v < |cells| ensures Reachable(cells, 0, v) {
      assert WalkFrom(cells, routes[v], 0, v);
    }
    ConnectedFromRoot(cells, 0);
  }

  /** An open step from `u` to `w` is one of the passages `OpenWallCount` counts. */
  lemma EdgeOfOpen(cols: nat, rows: nat, cells: seq<Cell>, u: nat, w: nat)
    requires Shape(cols, rows, cells) && Symmetric(cells) && u < |cells| && w < |cells|
    requires Open(cells, u, w)
    ensures (u in RightOpen(cols, cells) && w == u + 1) || (w in RightOpen(cols, cells) && u == w + 1) ||
            (u in BottomOpen(cols, cells) && w == u + cols) || (w in BottomOpen(cols, cells) && u == w + cols)
  {
    var d :| OpenToward(cells[u], cells[w], d);
    LiesOpposite(cells[u], cells[w], d);
    match d
    case Right => LiesIndex(cols, rows, cells, u, w, Right);
    case Bottom => LiesIndex(cols, rows, cells, u, w, Bottom);
    case Left =>
      LiesIndex(cols, rows, cells, w, u, Right);
      assert WallAt(cells[w].walls, Right) == WallAt(cells[u].walls, Left);
    case Top =>
      LiesIndex(cols, rows, cells, w, u, Bottom);
      assert WallAt(cells[w].walls, Bottom) == WallAt(cells[u].walls, Top);
  }

  /** Every passage `OpenWallCount` counts is an open step, both ways. */
  lemma OpenOfEdge(cols: nat, rows: nat, cells: seq<Cell>, lo: nat, hi: nat)
    requires Shape(cols, rows, cells) && Symmetric(cells) && lo < |cells| && hi < |cells|
    requires (lo in RightOpen(cols, cells) && hi == lo + 1) || (lo in BottomOpen(cols, cells) && hi == lo + cols)
    ensures Open(cells, lo, hi) && Open(cells, hi, lo)
  {
    var d := if hi == lo + 1 && lo in RightOpen(cols, cells) then Right else Bottom;
    LiesIndex(cols, rows, cells, lo, hi, d);
    assert OpenToward(cells[lo], cells[hi], d);
    OpenSymmetric(cells, lo, hi);
  }

  /**
   * The passages counted by `OpenWallCount` are exactly the edges of the
   * maze graph: on a grid with symmetric walls, `u` and `w` are joined
   * (either way) exactly when the lower of the two is in `RightOpen` with the
   * other to its right, or in `BottomOpen` with the other below it.
   */
  lemma OpenWallsAreEdges(cols: nat, rows: nat, cells: seq<Cell>, u: nat, w: nat)
    requires Shape(cols, rows, cells) && Symmetric(cells) && u < |cells| && w < |cells|
    ensures Open(cells, u, w) <==>
      (u in RightOpen(cols, cells) && w == u + 1) || (w in RightOpen(cols, cells) && u == w + 1) ||
      (u in BottomOpen(cols, cells) && w == u + cols) || (w in BottomOpen(cols, cells) && u == w + cols)
  {
    if Open(cells, u, w) {
      EdgeOfOpen(cols, rows, cells, u, w);
    }
    if (u in RightOpen(cols, cells) && w == u + 1) || (u in BottomOpen(cols, cells) && w == u + cols) {
      OpenOfEdge(cols, rows, cells, u, w);
    }
    if (w in RightOpen(cols, cells) && u == w + 1) || (w in BottomOpen(cols, cells) && u == w + cols) {
      OpenOfEdge(cols, rows, cells, w, u);
    }
  }

  /** The grid of main.py: a `cols * rows` array of cells. */
  class Maze {
    const cols: nat
    const rows: nat
    const cells: array<Cell>

    /** The grid comprehension of main.py:94: a fresh cell on every tile, row by row. */
    constructor (cols: nat, rows: nat)
      ensures this.cols == cols && this.rows == rows
      ensures fresh(cells) && cells[..] == BuildGrid(cols, rows)
    {
      this.cols := cols;
      this.rows := rows;
      var g := BuildGrid(cols, rows);
      cells := new Cell[|g|](i requires 0 <= i < |g| => g[i]);
    }

    /** `remove_walls(cells[i], cells[j])`: the offsets are tested independently, as in the program. */
    method RemoveWalls(i: nat, j: nat)
      requires i < cells.Length && j < cells.Length
      modifies cells
      ensures cells[..] == RemoveWallsSpec(old(cells[..]), i, j)
    {
      var a, b := cells[i], cells[j];
      var dx := a.x - b.x;
      var dy := a.y - b.y;
      var wa, wb := a.walls, b.walls;
      if dx == Tile {
        wa, wb := wa.(left := false), wb.(right := false);
      } else if dx == -Tile {
        wa, wb := wa.(right := false), wb.(left := false);
      }
      if dy == Tile {
        wa, wb := wa.(top := false), wb.(bottom := false);
      } else if dy == -Tile {
        wa, wb := wa.(bottom := false), wb.(top := false);
      }
      cells[i] := a.(walls := wa);
      cells[j] := b.(walls := wb);
    }

    /**
     * The carving loop. `random.choice` is an arbitrary choice among the
     * unvisited neighbours, so what is proved holds for every sequence of
     * choices.
     */
    method Generate()
      requires cols > 0 && rows > 0 && cells[..] == BuildGrid(cols, rows)
      modifies cells
      ensures Perfect(cols, rows, cells[..])
    {
      GenInit(cols, rows);
      var stack: seq<nat> := [];
      var current: nat := 0;
      cells[current] := cells[current].(visited := true);
      ghost var routes: map<nat, seq<nat>> := map[0 := [0]];
      while true
        invariant GenInv(cols, rows, cells[..], stack, current, routes)
        decreases 2 * |UnvisitedSet(cells[..])| + |stack|
      {
        var neighbors := GenerationNeighbors(cells[..], cells[current]);
        if neighbors != [] {
          var k :| 0 <= k < |neighbors|;
          var next := neighbors[k];
          ghost var before := cells[..];
          CarveStep(cols, rows, before, stack, current, routes, next);
          stack := stack + [current];
          RemoveWalls(current, next);
          current := next;
          cells[current] := cells[current].(visited := true);
          assert cells[..] == Carved(before, stack[|stack| - 1], next);
          routes := routes[next := routes[stack[|stack| - 1]] + [next]];
        } else if stack != [] {
          BacktrackStep(cols, rows, cells[..], stack, current, routes);
          current := stack[|stack| - 1];
          stack := stack[..|stack| - 1];
        } else {
          GenFinal(cols, rows, cells[..], current, routes);
          break;
        }
      }
    }
  }
}
