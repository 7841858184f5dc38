/**
 * The grid model of main.py: cells on square tiles, each with a `visited`
 * flag and four wall flags, stored row-major so that the cell in column `x`
 * and row `y` sits at index `y * cols + x` and has pixel origin
 * `(Tile * x, Tile * y)`.
 */
module Grid {

  datatype Option<T> = None | Some(value: T)

  /** Side of one square tile, in pixels. */
  const Tile: int := 20
  /** Window size of the program; the grid has Width / Tile columns and Height / Tile rows. */
  const Width: nat := 480
  const Height: nat := 750

  /** The four cardinal directions, in the order the solver enumerates them. */
  datatype Dir = Top | Right | Bottom | Left

  /** The four wall flags of a cell; `true` means the wall is present. */
  datatype Walls = Walls(top: bool, right: bool, bottom: bool, left: bool)

  const AllWalls: Walls := Walls(true, true, true, true)

  datatype Cell = Cell(x: int, y: int, size: int, visited: bool, walls: Walls)

  function Opposite(d: Dir): Dir {
    match d
    case Top => Bottom
    case Right => Left
    case Bottom => Top
    case Left => Right
  }

  /** Horizontal pixel offset from a cell to its neighbour in direction `d`. */
  function DX(d: Dir): int {
    match d
    case Top => 0
    case Right => Tile
    case Bottom => 0
    case Left => -Tile
  }

  /** Vertical pixel offset from a cell to its neighbour in direction `d`. */
  function DY(d: Dir): int {
    match d
    case Top => -Tile
    case Right => 0
    case Bottom => Tile
    case Left => 0
  }

  function WallAt(w: Walls, d: Dir): bool {
    match d
    case Top => w.top
    case Right => w.right
    case Bottom => w.bottom
    case Left => w.left
  }

  /** The walls `w` with the wall on side `d` taken down. */
  function Cleared(w: Walls, d: Dir): (r: Walls)
    ensures !WallAt(r, d)
    ensures forall e :: e != d ==> WallAt(r, e) == WallAt(w, e)
  {
    match d
    case Top => w.(top := false)
    case Right => w.(right := false)
    case Bottom => w.(bottom := false)
    case Left => w.(left := false)
  }

  /** `b` lies exactly one tile away from `a` in direction `d`. */
  predicate Lies(a: Cell, b: Cell, d: Dir) {
    b.x == a.x + DX(d) && b.y == a.y + DY(d)
  }

  /** A freshly constructed cell: not visited, all four walls up. */
  function NewCell(x: int, y: int, size: int): (c: Cell)
    ensures c.x == x && c.y == y && c.size == size
    ensures !c.visited && forall d :: WallAt(c.walls, d)
  {
    Cell(x, y, size, false, AllWalls)
  }

  function Col(cols: nat, i: nat): nat
    requires cols > 0
  {
    i % cols
  }

  function Row(cols: nat, i: nat): nat
    requires cols > 0
  {
    i / cols
  }

  /** The grid comprehension: rows outer, columns inner. */
  function BuildGrid(cols: nat, rows: nat): (g: seq<Cell>)
    ensures |g| == cols * rows
  {
    if cols == 0 then []
    else seq(cols * rows, i requires 0 <= i < cols * rows =>
               NewCell(Tile * Col(cols, i), Tile * Row(cols, i), Tile))
  }

  /**
   * The shape every grid keeps: `cols * rows` cells, and the cell at index
   * `i` sits on the tile of column `i % cols` and row `i / cols`.
   */
  ghost predicate Shape(cols: nat, rows: nat, cells: seq<Cell>) {
    && cols > 0 && rows > 0
    && |cells| == cols * rows
    && forall i :: 0 <= i < |cells| ==> PlacedAt(cols, cells, i)
  }

  ghost predicate PlacedAt(cols: nat, cells: seq<Cell>, i: nat)
    requires cols > 0 && i < |cells|
  {
    cells[i].x == Tile * Col(cols, i) && cells[i].y == Tile * Row(cols, i) && cells[i].size == Tile
  }

  /** Two grids whose cells sit on the same tiles. */
  ghost predicate SameTiles(a: seq<Cell>, b: seq<Cell>) {
    |a| == |b| && forall i :: 0 <= i < |a| ==> a[i].x == b[i].x && a[i].y == b[i].y && a[i].size == b[i].size
  }

  lemma SameTilesShape(cols: nat, rows: nat, a: seq<Cell>, b: seq<Cell>)
    requires Shape(cols, rows, a) && SameTiles(a, b)
    ensures Shape(cols, rows, b)
  {
    forall i | 0 <= i < |b| ensures PlacedAt(cols, b, i) {
      assert PlacedAt(cols, a, i);
    }
  }

  lemma DivModUnique(n: int, cols: int, q: int, r: int)
    requires cols > 0 && 0 <= r < cols && n == cols * q + r
    ensures n / cols == q && n % cols == r
  {
    var q', r' := n / cols, n % cols;
    assert n == cols * q' + r';
    if q > q' {
      assert cols * q - cols * q' == cols * (q - q');
      MulAtLeast(cols, q - q');
    } else if q < q' {
      assert cols * q' - cols * q == cols * (q' - q);
      MulAtLeast(cols, q' - q);
    }
  }

  lemma MulAtLeast(a: int, k: int)
    requires a > 0 && k >= 1
    ensures a * k >= a
  {
  }

  /** Row of an index inside a `cols * rows` grid is below `rows`. */
  lemma RowBound(cols: nat, rows: nat, i: nat)
    requires cols > 0 && i < cols * rows
    ensures Row(cols, i) < rows
  {
    var q, r := i / cols, i % cols;
    assert i == cols * q + r;
  }

  /** Index of column `x`, row `y` lies inside the grid and maps back to `(x, y)`. */
  lemma IndexOf(cols: nat, rows: nat, x: nat, y: nat)
    requires x < cols && y < rows
    ensures y * cols + x < cols * rows
    ensures Col(cols, y * cols + x) == x && Row(cols, y * cols + x) == y
  {
    assert cols * rows - cols * y == cols * (rows - y);
    MulAtLeast(cols, rows - y);
    DivModUnique(y * cols + x, cols, y, x);
  }

  /** A freshly built grid: the cell of column `x`, row `y` is at index `y * cols + x`. */
  lemma BuildGridAt(cols: nat, rows: nat, x: nat, y: nat)
    requires x < cols && y < rows
    ensures y * cols + x < |BuildGrid(cols, rows)|
    ensures BuildGrid(cols, rows)[y * cols + x] == Cell(Tile * x, Tile * y, Tile, false, AllWalls)
  {
    IndexOf(cols, rows, x, y);
  }

  lemma BuildGridShape(cols: nat, rows: nat)
    requires cols > 0 && rows > 0
    ensures Shape(cols, rows, BuildGrid(cols, rows))
    ensures forall i :: 0 <= i < cols * rows ==> BuildGrid(cols, rows)[i].walls == AllWalls && !BuildGrid(cols, rows)[i].visited
  {
  }

  /** The index of the neighbour of cell `i` in direction `d`, by index arithmetic. */
  function NeighborIndex(cols: nat, rows: nat, i: nat, d: Dir): (r: Option<nat>)
    requires cols > 0 && i < cols * rows
    ensures r.Some? ==> r.value < cols * rows
  {
    RowBound(cols, rows, i);
    match d
    case Top => if i >= cols then Some(i - cols) else None
    case Bottom => if i + cols < cols * rows then Some(i + cols) else None
    case Left => if Col(cols, i) > 0 then Some(i - 1) else None
    case Right =>
      if Col(cols, i) < cols - 1 then
        assert i + 1 < cols * rows by { IndexOf(cols, rows, Col(cols, i) + 1, Row(cols, i)); }
        Some(i + 1)
      else None
  }

  lemma LiesRight(cols: nat, rows: nat, cells: seq<Cell>, i: nat, j: nat)
    requires Shape(cols, rows, cells) && i < |cells| && j < |cells|
    ensures Lies(cells[i], cells[j], Right) <==> NeighborIndex(cols, rows, i, Right) == Some(j)
  {
    assert PlacedAt(cols, cells, i) && PlacedAt(cols, cells, j);
    assert i == cols * Row(cols, i) + Col(cols, i);
    assert j == cols * Row(cols, j) + Col(cols, j);
    if Col(cols, i) < cols - 1 && j == i + 1 {
      DivModUnique(i + 1, cols, Row(cols, i), Col(cols, i) + 1);
    }
  }

  lemma LiesBottom(cols: nat, rows: nat, cells: seq<Cell>, i: nat, j: nat)
    requires Shape(cols, rows, cells) && i < |cells| && j < |cells|
    ensures Lies(cells[i], cells[j], Bottom) <==> NeighborIndex(cols, rows, i, Bottom) == Some(j)
  {
    assert PlacedAt(cols, cells, i) && PlacedAt(cols, cells, j);
    assert i == cols * Row(cols, i) + Col(cols, i);
    assert j == cols * Row(cols, j) + Col(cols, j);
    if Lies(cells[i], cells[j], Bottom) {
      assert cols * (Row(cols, i) + 1) == cols * Row(cols, i) + cols;
    }
    if j == i + cols {
      DivModUnique(i + cols, cols, Row(cols, i) + 1, Col(cols, i));
      assert cols * (Row(cols, i) + 1) == cols * Row(cols, i) + cols;
    }
  }

  /**
   * The coordinate test the program uses and the index arithmetic agree:
   * cell `j` lies one tile from cell `i` in direction `d` exactly when
   * `NeighborIndex` names `j`.
   */
  lemma LiesIndex(cols: nat, rows: nat, cells: seq<Cell>, i: nat, j: nat, d: Dir)
    requires Shape(cols, rows, cells) && i < |cells| && j < |cells|
    ensures Lies(cells[i], cells[j], d) <==> NeighborIndex(cols, rows, i, d) == Some(j)
  {
    match d
    case Right => LiesRight(cols, rows, cells, i, j);
    case Bottom => LiesBottom(cols, rows, cells, i, j);
    case Left =>
      LiesRight(cols, rows, cells, j, i);
      assert PlacedAt(cols, cells, i) && PlacedAt(cols, cells, j);
      if Col(cols, i) > 0 {
        DivModUnique(i - 1, cols, Row(cols, i), Col(cols, i) - 1);
      }
    case Top =>
      LiesBottom(cols, rows, cells, j, i);
  }

  /** Distinct cells of a grid sit on distinct tiles. */
  lemma TilesDistinct(cols: nat, rows: nat, cells: seq<Cell>, i: nat, j: nat)
    requires Shape(cols, rows, cells) && i < |cells| && j < |cells|
    requires cells[i].x == cells[j].x && cells[i].y == cells[j].y
    ensures i == j
  {
    assert PlacedAt(cols, cells, i) && PlacedAt(cols, cells, j);
    assert i == cols * Row(cols, i) + Col(cols, i);
    assert j == cols * Row(cols, j) + Col(cols, j);
  }
}
