/**
 * Values of the maze grid: cell coordinates, the per-cell record (four wall
 * flags and the generator's visited mark), orthogonal adjacency, and the
 * facts about the whole rows x cols grid that the generator and the placement
 * rules rely on (how many cells it has, and that it is connected).
 */
module Grid {

  /** A cell position (row, col). */
  type Coord = (int, int)

  /**
   * One maze cell: the wall flags in the source's order [top, right, bottom,
   * left], and the `visited` mark used only while the maze is generated.
   */
  datatype Cell = Cell(top: bool, right: bool, bottom: bool, left: bool, visited: bool)

  /** The cell `new Cell(row, col)` builds: all four walls, not visited. */
  const FreshCell: Cell := Cell(true, true, true, true, false)

  /** The four sides of a cell, in the order the source indexes `walls`. */
  datatype Side = Top | Right | Bottom | Left

  function Wall(c: Cell, s: Side): bool
  {
    match s
    case Top => c.top
    case Right => c.right
    case Bottom => c.bottom
    case Left => c.left
  }

  function Opposite(s: Side): Side
  {
    match s
    case Top => Bottom
    case Right => Left
    case Bottom => Top
    case Left => Right
  }

  predicate InGrid(rows: int, cols: int, p: Coord)
  {
    0 <= p.0 < rows && 0 <= p.1 < cols
  }

  /** Orthogonal neighbours: same row and next column, or same column and next row. */
  predicate Adjacent(a: Coord, b: Coord)
  {
    (a.0 == b.0 && (a.1 == b.1 + 1 || b.1 == a.1 + 1)) ||
    (a.1 == b.1 && (a.0 == b.0 + 1 || b.0 == a.0 + 1))
  }

  /** The neighbour of `p` across side `s`. */
  function Neighbour(p: Coord, s: Side): (n: Coord)
    ensures Adjacent(p, n)
  {
    match s
    case Top => (p.0 - 1, p.1)
    case Right => (p.0, p.1 + 1)
    case Bottom => (p.0 + 1, p.1)
    case Left => (p.0, p.1 - 1)
  }

  /** The side of `a` that faces its neighbour `b`. */
  function Facing(a: Coord, b: Coord): (s: Side)
    requires Adjacent(a, b)
    ensures Neighbour(a, s) == b
  {
    if b.0 == a.0 - 1 then Top
    else if b.1 == a.1 + 1 then Right
    else if b.0 == a.0 + 1 then Bottom
    else Left
  }

  /** Position of a side in the order up, right, down, left. */
  function SideIndex(s: Side): nat
  {
    match s
    case Top => 0
    case Right => 1
    case Bottom => 2
    case Left => 3
  }

  /** Two neighbours of `a` seen through the same side are the same cell. */
  lemma FacingInjective(a: Coord, b: Coord, c: Coord)
    requires Adjacent(a, b) && Adjacent(a, c) && Facing(a, b) == Facing(a, c)
    ensures b == c
  {
  }

  /** Adjacent cells see each other through opposite sides. */
  lemma FacingOpposite(a: Coord, b: Coord)
    requires Adjacent(a, b)
    ensures Adjacent(b, a) && Facing(b, a) == Opposite(Facing(a, b))
  {
  }

  /**
   * What `removeWalls(a, b)` does to the cell `c` standing at `self` when the
   * other cell stands at `other`: the column difference clears left or
   * right, then the row difference clears top or bottom.
   */
  function ClearFacing(c: Cell, self: Coord, other: Coord): (r: Cell)
    ensures r.visited == c.visited
    ensures forall s :: Wall(r, s) ==> Wall(c, s)
    ensures self == other ==> r == c
  {
    var byCol :=
      if self.1 - other.1 == 1 then c.(left := false)
      else if self.1 - other.1 == -1 then c.(right := false)
      else c;
    if self.0 - other.0 == 1 then byCol.(top := false)
    else if self.0 - other.0 == -1 then byCol.(bottom := false)
    else byCol
  }

  /**
   * For orthogonal neighbours, `ClearFacing` clears exactly the wall facing
   * the other cell and keeps every other wall and the visited mark.
   */
  lemma ClearFacingAdjacent(c: Cell, a: Coord, b: Coord)
    requires Adjacent(a, b)
    ensures ClearFacing(c, a, b).visited == c.visited
    ensures forall s :: Wall(ClearFacing(c, a, b), s) == (Wall(c, s) && s != Facing(a, b))
  {
  }

  /** Every coordinate of a rows x cols grid. */
  function AllCells(rows: nat, cols: nat): set<Coord>
  {
    set r, c | 0 <= r < rows && 0 <= c < cols :: (r, c)
  }

  /** Coordinates of one row. */
  function RowCells(r: int, cols: nat): set<Coord>
  {
    set c | 0 <= c < cols :: (r, c)
  }

  lemma {:induction false} RowCellsCount(r: int, cols: nat)
    ensures |RowCells(r, cols)| == cols
  {
    if cols > 0 {
      RowCellsCount(r, cols - 1);
      assert RowCells(r, cols) == RowCells(r, cols - 1) + {(r, cols - 1)};
    } else {
      assert RowCells(r, cols) == {};
    }
  }

  /** A rows x cols grid has exactly rows * cols cells. */
  lemma {:induction false} AllCellsCount(rows: nat, cols: nat)
    ensures |AllCells(rows, cols)| == rows * cols
  {
    if rows > 0 {
      AllCellsCount(rows - 1, cols);
      RowCellsCount(rows - 1, cols);
      LastRowSplit(rows, cols);
      DisjointUnionCount(AllCells(rows - 1, cols), RowCells(rows - 1, cols));
      assert rows * cols == (rows - 1) * cols + cols;
    } else {
      assert AllCells(rows, cols) == {};
    }
  }

  /** The grid is the grid one row shorter plus its last row, and the two do not overlap. */
  lemma LastRowSplit(rows: nat, cols: nat)
    requires rows > 0
    ensures AllCells(rows, cols) == AllCells(rows - 1, cols) + RowCells(rows - 1, cols)
    ensures AllCells(rows - 1, cols) * RowCells(rows - 1, cols) == {}
  {
    var below, last := AllCells(rows - 1, cols), RowCells(rows - 1, cols);
    forall p | p in AllCells(rows, cols) ensures p in below + last {
      if p.0 < rows - 1 { assert p in below; } else { assert p in last; }
    }
    forall p | p in below ensures p !in last { }
  }

  lemma DisjointUnionCount<T>(a: set<T>, b: set<T>)
    requires a * b == {}
    ensures |a + b| == |a| + |b|
  {
  }

  /** A set of fewer than rows * cols coordinates leaves some grid cell free. */
  lemma FreeCellExists(rows: nat, cols: nat, used: set<Coord>)
    requires |used| < rows * cols
    ensures exists p :: InGrid(rows, cols, p) && p !in used
  {
    AllCellsCount(rows, cols);
    var all := AllCells(rows, cols);
    if all <= used {
      SubsetCount(all, used);
      assert false;
    }
    var p :| p in all && p !in used;
  }

  lemma {:induction false} SubsetCount<T>(a: set<T>, b: set<T>)
    requires a <= b
    ensures |a| <= |b|
  {
    if a != {} {
      var x :| x in a;
      SubsetCount(a - {x}, b - {x});
    }
  }

  function Abs(n: int): nat
  {
    if n < 0 then -n else n
  }

  /** Manhattan distance between two cells. */
  function Distance(a: Coord, b: Coord): nat
  {
    Abs(a.0 - b.0) + Abs(a.1 - b.1)
  }

  /**
   * The grid is connected: a set of cells that holds `s` and is closed under
   * stepping to in-grid neighbours holds every cell of the grid.
   */
  lemma {:induction false} ClosedRegionCoversGrid(rows: int, cols: int, region: set<Coord>, s: Coord, t: Coord)
    requires InGrid(rows, cols, s) && s in region && InGrid(rows, cols, t)
    requires forall a, b :: a in region && InGrid(rows, cols, b) && Adjacent(a, b) ==> b in region
    ensures t in region
    decreases Distance(s, t)
  {
    if s != t {
      var n :=
        if s.0 < t.0 then (s.0 + 1, s.1)
        else if s.0 > t.0 then (s.0 - 1, s.1)
        else if s.1 < t.1 then (s.0, s.1 + 1)
        else (s.0, s.1 - 1);
      assert Adjacent(s, n) && InGrid(rows, cols, n);
      ClosedRegionCoversGrid(rows, cols, region, n, t);
    }
  }
}
