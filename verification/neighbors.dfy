/**
 * The two neighbour queries of main.py. Both scan the whole grid in index
 * order, as the program does; lemmas give their exact results by index
 * arithmetic on a well-shaped grid.
 */
module Neighbors {
  import opened Grid

  /** Indices `k` of `cells`, in increasing order, whose cell satisfies `p`. */
  function Scan(cells: seq<Cell>, p: Cell -> bool): (r: seq<nat>)
    ensures |r| <= |cells|
    ensures forall k :: 0 <= k < |r| ==> r[k] < |cells|
    decreases |cells|
  {
    if cells == [] then []
    else Scan(cells[..|cells| - 1], p) + (if p(cells[|cells| - 1]) then [|cells| - 1] else [])
  }

  predicate Increasing(s: seq<nat>) {
    forall i, j :: 0 <= i < j < |s| ==> s[i] < s[j]
  }

  lemma {:induction false} ScanSpec(cells: seq<Cell>, p: Cell -> bool)
    ensures forall k :: k in Scan(cells, p) <==> 0 <= k < |cells| && p(cells[k])
    ensures Increasing(Scan(cells, p))
    decreases |cells|
  {
    if cells != [] {
      var init := cells[..|cells| - 1];
      ScanSpec(init, p);
      forall k | 0 <= k < |init| ensures init[k] == cells[k] { }
      var rest := Scan(init, p);
      var tail := if p(cells[|cells| - 1]) then [|cells| - 1] else [];
      assert Scan(cells, p) == rest + tail;
      forall i, j | 0 <= i < j < |rest + tail| ensures (rest + tail)[i] < (rest + tail)[j] {
        if j >= |rest| {
          assert rest[i] in rest;
        }
      }
    }
  }

  /** Two increasing sequences with the same elements are equal. */
  lemma {:induction false} IncreasingUnique(a: seq<nat>, b: seq<nat>)
    requires Increasing(a) && Increasing(b)
    requires forall k :: k in a <==> k in b
    ensures a == b
    decreases |a|
  {
    if a != [] {
      assert a[0] in b;
      assert b[0] in a;
      IncreasingFirst(a, b[0]);
      IncreasingFirst(b, a[0]);
      forall k ensures k in a[1..] <==> k in b[1..] {
        IncreasingTail(a, k);
        IncreasingTail(b, k);
      }
      IncreasingUnique(a[1..], b[1..]);
      assert a == [a[0]] + a[1..];
      assert b == [b[0]] + b[1..];
    } else {
      HeadIn(b);
    }
  }

  lemma HeadIn(b: seq<nat>)
    ensures b == [] || b[0] in b
  {
  }

  lemma IncreasingFirst(a: seq<nat>, k: nat)
    requires Increasing(a) && k in a
    ensures a[0] <= k
  {
  }

  lemma IncreasingTail(a: seq<nat>, k: nat)
    requires Increasing(a) && a != []
    ensures k in a[1..] <==> k in a && k != a[0]
  {
    if k in a[1..] {
      var i :| 0 <= i < |a[1..]| && a[1..][i] == k;
      assert a[i + 1] == k;
    }
  }

  function Abs(n: int): nat {
    if n < 0 then -n else n
  }

  /** The test of `get_neighbors_for_generation`: `n` is unvisited and one tile from `c` along an axis. */
  predicate IsGenerationCandidate(c: Cell, n: Cell): (r: bool)
    ensures r <==> !n.visited && exists d :: Lies(c, n, d)
  {
    AxisNeighbor(c, n);
    !n.visited &&
    ((n.x == c.x && Abs(n.y - c.y) == Tile) || (n.y == c.y && Abs(n.x - c.x) == Tile))
  }

  /** `get_neighbors_for_generation(c)`: every unvisited cell one tile from `c`, in grid order. */
  function GenerationNeighbors(cells: seq<Cell>, c: Cell): (r: seq<nat>)
    ensures forall k :: k in r ==> k < |cells| && !cells[k].visited && exists d :: Lies(c, cells[k], d)
  {
    ScanSpec(cells, n => IsGenerationCandidate(c, n));
    Scan(cells, n => IsGenerationCandidate(c, n))
  }

  /** The test of `get_neighbors` for one direction: `n` is the tile in direction `d` and `c`'s wall there is down. */
  predicate OpenToward(c: Cell, n: Cell, d: Dir): (r: bool)
    ensures r ==> Abs(n.x - c.x) + Abs(n.y - c.y) == Tile
  {
    Lies(c, n, d) && !WallAt(c.walls, d)
  }

  /** One direction of `get_neighbors`: the cells on the tile in direction `d`, if `c`'s wall there is down. */
  function OpenInDirection(cells: seq<Cell>, c: Cell, d: Dir): (r: seq<nat>)
    ensures forall k :: k in r ==> k < |cells| && OpenToward(c, cells[k], d)
    ensures WallAt(c.walls, d) ==> r == []
  {
    ScanSpec(cells, n => OpenToward(c, n, d));
    var r := Scan(cells, n => OpenToward(c, n, d));
    assert WallAt(c.walls, d) ==> r == [] by {
      if r != [] { assert r[0] in r; }
    }
    r
  }

  /** `get_neighbors(c)`: the cells reachable through an open wall of `c`, top, right, bottom, left. */
  function GetNeighbors(cells: seq<Cell>, c: Cell): (r: seq<nat>)
    ensures forall k :: k in r ==> k < |cells| && exists d :: OpenToward(c, cells[k], d)
    ensures c.walls == AllWalls ==> r == []
  {
    OpenInDirection(cells, c, Top) + OpenInDirection(cells, c, Right)
      + OpenInDirection(cells, c, Bottom) + OpenInDirection(cells, c, Left)
  }

  /** An edge of the maze graph: `w` is one tile from `u` in a direction where `u` has no wall. */
  ghost predicate Open(cells: seq<Cell>, u: nat, w: nat) {
    u < |cells| && w < |cells| && exists d :: OpenToward(cells[u], cells[w], d)
  }

  /** The axis test of `get_neighbors_for_generation` names the four directions. */
  lemma AxisNeighbor(c: Cell, n: Cell)
    ensures ((n.x == c.x && Abs(n.y - c.y) == Tile) || (n.y == c.y && Abs(n.x - c.x) == Tile))
            <==> exists d :: Lies(c, n, d)
  {
    if n.x == c.x && n.y == c.y - Tile { assert Lies(c, n, Top); }
    if n.x == c.x && n.y == c.y + Tile { assert Lies(c, n, Bottom); }
    if n.y == c.y && n.x == c.x + Tile { assert Lies(c, n, Right); }
    if n.y == c.y && n.x == c.x - Tile { assert Lies(c, n, Left); }
  }

  /**
   * `get_neighbors_for_generation(c)` returns exactly the unvisited cells
   * one tile from `c` along an axis, each once, in grid order.
   */
  lemma GenerationNeighborsSpec(cells: seq<Cell>, c: Cell)
    ensures forall k :: k in GenerationNeighbors(cells, c) <==>
      0 <= k < |cells| && !cells[k].visited && exists d :: Lies(c, cells[k], d)
    ensures Increasing(GenerationNeighbors(cells, c))
  {
    ScanSpec(cells, n => IsGenerationCandidate(c, n));
    forall k | 0 <= k < |cells| ensures IsGenerationCandidate(c, cells[k]) <==> !cells[k].visited && exists d :: Lies(c, cells[k], d) {
      AxisNeighbor(c, cells[k]);
    }
  }

  /** `get_neighbors(cells[u])` returns exactly the edges of the maze graph out of `u`. */
  lemma GetNeighborsSpec(cells: seq<Cell>, u: nat)
    requires u < |cells|
    ensures forall w: nat :: w in GetNeighbors(cells, cells[u]) <==> Open(cells, u, w)
  {
    var c := cells[u];
    ScanSpec(cells, n => OpenToward(c, n, Top));
    ScanSpec(cells, n => OpenToward(c, n, Right));
    ScanSpec(cells, n => OpenToward(c, n, Bottom));
    ScanSpec(cells, n => OpenToward(c, n, Left));
    forall w: nat ensures w in GetNeighbors(cells, c) <==> Open(cells, u, w) {
      if w in GetNeighbors(cells, c) {
        assert w < |cells|;
        assert OpenToward(c, cells[w], Top) || OpenToward(c, cells[w], Right)
            || OpenToward(c, cells[w], Bottom) || OpenToward(c, cells[w], Left);
      }
      if Open(cells, u, w) {
        var d :| OpenToward(c, cells[w], d);
        match d
        case Top => assert w in OpenInDirection(cells, c, Top);
        case Right => assert w in OpenInDirection(cells, c, Right);
        case Bottom => assert w in OpenInDirection(cells, c, Bottom);
        case Left => assert w in OpenInDirection(cells, c, Left);
      }
    }
  }

  /** The neighbour of `u` in direction `d`, as a list of at most one index. */
  function Along(cols: nat, rows: nat, u: nat, d: Dir, keep: bool): seq<nat>
    requires cols > 0 && u < cols * rows
  {
    match NeighborIndex(cols, rows, u, d)
    case Some(j) => if keep then [j] else []
    case None => []
  }

  lemma OpenInDirectionExact(cols: nat, rows: nat, cells: seq<Cell>, u: nat, d: Dir)
    requires Shape(cols, rows, cells) && u < |cells|
    ensures OpenInDirection(cells, cells[u], d) == Along(cols, rows, u, d, !WallAt(cells[u].walls, d))
  {
    var c := cells[u];
    ScanSpec(cells, n => OpenToward(c, n, d));
    var along := Along(cols, rows, u, d, !WallAt(c.walls, d));
    forall k: nat ensures k in OpenInDirection(cells, c, d) <==> k in along {
      if k < |cells| { LiesIndex(cols, rows, cells, u, k, d); }
    }
    IncreasingUnique(OpenInDirection(cells, c, d), along);
  }

  /**
   * On a well-shaped grid `get_neighbors(cells[u])` lists at most one cell per
   * direction, in the order top, right, bottom, left: the neighbour in each
   * direction whose wall on `u`'s side is down.
   */
  lemma GetNeighborsExact(cols: nat, rows: nat, cells: seq<Cell>, u: nat)
    requires Shape(cols, rows, cells) && u < |cells|
    ensures GetNeighbors(cells, cells[u]) ==
      Along(cols, rows, u, Top, !cells[u].walls.top) + Along(cols, rows, u, Right, !cells[u].walls.right)
      + Along(cols, rows, u, Bottom, !cells[u].walls.bottom) + Along(cols, rows, u, Left, !cells[u].walls.left)
    ensures |GetNeighbors(cells, cells[u])| <= 4
  {
    OpenInDirectionExact(cols, rows, cells, u, Top);
    OpenInDirectionExact(cols, rows, cells, u, Right);
    OpenInDirectionExact(cols, rows, cells, u, Bottom);
    OpenInDirectionExact(cols, rows, cells, u, Left);
  }

  /**
   * On a well-shaped grid `get_neighbors_for_generation(cells[u])` is the list
   * of unvisited neighbours above, left, right and below `u`, in that (grid)
   * order, so it has at most four entries.
   */
  lemma GenerationNeighborsExact(cols: nat, rows: nat, cells: seq<Cell>, u: nat)
    requires Shape(cols, rows, cells) && u < |cells|
    ensures GenerationNeighbors(cells, cells[u]) == UnvisitedAround(cols, rows, cells, u)
    ensures |GenerationNeighbors(cells, cells[u])| <= 4
  {
    var r := GenerationNeighbors(cells, cells[u]);
    var e := UnvisitedAround(cols, rows, cells, u);
    GenerationNeighborsSpec(cells, cells[u]);
    UnvisitedAroundIncreasing(cols, rows, cells, u);
    forall k: nat ensures k in r <==> k in e {
      if k < |cells| {
        UnvisitedAroundHas(cols, rows, cells, u, k);
      }
    }
    IncreasingUnique(r, e);
  }

  /** The unvisited neighbours of `u` by index arithmetic: above, left, right, below. */
  function UnvisitedAround(cols: nat, rows: nat, cells: seq<Cell>, u: nat): (r: seq<nat>)
    requires cols > 0 && u < cols * rows && |cells| == cols * rows
    ensures |r| <= 4
  {
    Unvisited(cols, rows, cells, u, Top) + Unvisited(cols, rows, cells, u, Left)
      + Unvisited(cols, rows, cells, u, Right) + Unvisited(cols, rows, cells, u, Bottom)
  }

  lemma UnvisitedAroundIncreasing(cols: nat, rows: nat, cells: seq<Cell>, u: nat)
    requires cols > 0 && u < cols * rows && |cells| == cols * rows
    ensures Increasing(UnvisitedAround(cols, rows, cells, u))
  {
  }

  lemma UnvisitedAroundHas(cols: nat, rows: nat, cells: seq<Cell>, u: nat, k: nat)
    requires Shape(cols, rows, cells) && u < |cells| && k < |cells|
    ensures k in UnvisitedAround(cols, rows, cells, u) <==>
      !cells[k].visited && exists d :: Lies(cells[u], cells[k], d)
  {
    LiesIndex(cols, rows, cells, u, k, Top);
    LiesIndex(cols, rows, cells, u, k, Left);
    LiesIndex(cols, rows, cells, u, k, Right);
    LiesIndex(cols, rows, cells, u, k, Bottom);
    if exists d :: Lies(cells[u], cells[k], d) {
      var d :| Lies(cells[u], cells[k], d);
      assert d == Top || d == Left || d == Right || d == Bottom;
    }
  }

  function Unvisited(cols: nat, rows: nat, cells: seq<Cell>, u: nat, d: Dir): seq<nat>
    requires cols > 0 && u < cols * rows && |cells| == cols * rows
  {
    match NeighborIndex(cols, rows, u, d)
    case Some(j) => if !cells[j].visited then [j] else []
    case None => []
  }
}
