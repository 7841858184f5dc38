/**
 * Walls shared between neighbouring cells, and `remove_walls`, which takes
 * down the wall between two cells on both sides at once.
 */
module Passages {
  import opened Grid

  /**
   * The walls of `a` after `remove_walls` has run on `a` and `b` (in either
   * order): the horizontal offset and the vertical offset are tested
   * independently, as the program does.
   */
  function Facing(a: Cell, b: Cell): (r: Walls)
    ensures forall d :: !WallAt(a.walls, d) ==> !WallAt(r, d)
    ensures forall d :: Lies(a, b, d) ==> r == Cleared(a.walls, d)
  {
    var dx := a.x - b.x;
    var dy := a.y - b.y;
    var w := if dx == Tile then a.walls.(left := false)
             else if dx == -Tile then a.walls.(right := false)
             else a.walls;
    if dy == Tile then w.(top := false)
    else if dy == -Tile then w.(bottom := false)
    else w
  }

  /** The grid after `remove_walls(cells[i], cells[j])`. */
  function RemoveWallsSpec(cells: seq<Cell>, i: nat, j: nat): (r: seq<Cell>)
    requires i < |cells| && j < |cells|
    ensures |r| == |cells|
    ensures forall k :: 0 <= k < |cells| && k != i && k != j ==> r[k] == cells[k]
    ensures forall k :: 0 <= k < |cells| ==>
      r[k].x == cells[k].x && r[k].y == cells[k].y && r[k].size == cells[k].size && r[k].visited == cells[k].visited
    ensures forall k, d :: 0 <= k < |cells| && !WallAt(cells[k].walls, d) ==> !WallAt(r[k].walls, d)
  {
    var a, b := cells[i], cells[j];
    cells[i := a.(walls := Facing(a, b))][j := b.(walls := Facing(b, a))]
  }

  /**
   * Wall symmetry: whenever cell `j` lies next to cell `i` in direction `d`,
   * `i`'s wall toward `j` is present exactly when `j`'s wall toward `i` is.
   */
  ghost predicate Symmetric(cells: seq<Cell>) {
    forall i, j, d :: 0 <= i < |cells| && 0 <= j < |cells| && Lies(cells[i], cells[j], d) ==>
      WallAt(cells[i].walls, d) == WallAt(cells[j].walls, Opposite(d))
  }

  /** The outer wall of the maze: a side of a cell with no cell behind it keeps its wall. */
  ghost predicate Border(cols: nat, rows: nat, cells: seq<Cell>)
    requires Shape(cols, rows, cells)
  {
    forall i, d :: 0 <= i < |cells| && NeighborIndex(cols, rows, i, d).None? ==> WallAt(cells[i].walls, d)
  }

  lemma LiesOpposite(a: Cell, b: Cell, d: Dir)
    ensures Lies(a, b, d) <==> Lies(b, a, Opposite(d))
  {
  }

  /** A cell never lies next to itself, and lies next to another in at most one direction. */
  lemma LiesOneDirection(a: Cell, b: Cell, d: Dir, e: Dir)
    requires Lies(a, b, d) && Lies(a, b, e)
    ensures d == e && a != b
  {
  }

  /**
   * On two cells next to each other, `remove_walls` takes down exactly the
   * facing pair of walls (`a`'s side toward `b`, `b`'s side toward `a`) and
   * changes nothing else.
   */
  lemma RemoveWallsFacing(cells: seq<Cell>, i: nat, j: nat, d: Dir)
    requires i < |cells| && j < |cells| && Lies(cells[i], cells[j], d)
    ensures i != j
    ensures |RemoveWallsSpec(cells, i, j)| == |cells|
    ensures RemoveWallsSpec(cells, i, j)[i] == cells[i].(walls := Cleared(cells[i].walls, d))
    ensures RemoveWallsSpec(cells, i, j)[j] == cells[j].(walls := Cleared(cells[j].walls, Opposite(d)))
    ensures forall k :: 0 <= k < |cells| && k != i && k != j ==> RemoveWallsSpec(cells, i, j)[k] == cells[k]
  {
    match d
    case Top =>
    case Right =>
    case Bottom =>
    case Left =>
  }

  /** `remove_walls` on neighbouring cells keeps every wall pair symmetric. */
  lemma RemoveWallsSymmetric(cols: nat, rows: nat, cells: seq<Cell>, i: nat, j: nat, d: Dir)
    requires Shape(cols, rows, cells) && Symmetric(cells)
    requires i < |cells| && j < |cells| && Lies(cells[i], cells[j], d)
    ensures Symmetric(RemoveWallsSpec(cells, i, j))
  {
    var r := RemoveWallsSpec(cells, i, j);
    RemoveWallsFacing(cells, i, j, d);
    forall a, b, e | 0 <= a < |r| && 0 <= b < |r| && Lies(r[a], r[b], e)
      ensures WallAt(r[a].walls, e) == WallAt(r[b].walls, Opposite(e))
    {
      assert Lies(cells[a], cells[b], e);
      var old_ab := WallAt(cells[a].walls, e) == WallAt(cells[b].walls, Opposite(e));
      assert old_ab;
      if a == i && b == j {
        LiesOneDirection(cells[i], cells[j], d, e);
      } else if a == j && b == i {
        LiesOpposite(cells[i], cells[j], d);
        LiesOneDirection(cells[j], cells[i], Opposite(d), e);
      } else if a == i {
        // b is not j: `i` lies next to both, so in different directions
        if e == d { TilesDistinct(cols, rows, cells, b, j); }
        assert e != d;
        LiesOpposite(cells[a], cells[b], e);
        assert b != i;
      } else if a == j {
        LiesOpposite(cells[i], cells[j], d);
        if e == Opposite(d) { TilesDistinct(cols, rows, cells, b, i); }
        assert b != j;
      } else if b == i {
        LiesOpposite(cells[a], cells[b], e);
        if Opposite(e) == d { TilesDistinct(cols, rows, cells, a, j); }
      } else if b == j {
        LiesOpposite(cells[a], cells[b], e);
        LiesOpposite(cells[i], cells[j], d);
        if Opposite(e) == Opposite(d) { TilesDistinct(cols, rows, cells, a, i); }
      }
    }
  }

  /** `remove_walls` on neighbouring cells never opens the outer wall, and keeps every cell on its tile. */
  lemma RemoveWallsBorder(cols: nat, rows: nat, cells: seq<Cell>, i: nat, j: nat, d: Dir)
    requires Shape(cols, rows, cells) && Border(cols, rows, cells)
    requires i < |cells| && j < |cells| && Lies(cells[i], cells[j], d)
    ensures SameTiles(cells, RemoveWallsSpec(cells, i, j))
    ensures Shape(cols, rows, RemoveWallsSpec(cells, i, j))
    ensures Border(cols, rows, RemoveWallsSpec(cells, i, j))
  {
    var r := RemoveWallsSpec(cells, i, j);
    RemoveWallsFacing(cells, i, j, d);
    SameTilesShape(cols, rows, cells, r);
    LiesIndex(cols, rows, cells, i, j, d);
    LiesOpposite(cells[i], cells[j], d);
    LiesIndex(cols, rows, cells, j, i, Opposite(d));
    forall k, e | 0 <= k < |r| && NeighborIndex(cols, rows, k, e).None?
      ensures WallAt(r[k].walls, e)
    {
      assert WallAt(cells[k].walls, e);
    }
  }
}
