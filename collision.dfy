/**
 * Collision of the player's disc with the maze walls. A position is mapped
 * to the cell whose square holds it (floor division by the cell size); a
 * position outside the grid always collides, and inside the grid the disc
 * collides when it pokes past a wall that is still standing on that cell.
 * Positions are exact reals.
 */
module Collision {
  import opened Grid
  import opened Carving
  import opened Mazes

  /** `Math.floor(p / cs)`: the band of width `cs` that holds `p`. */
  function CellIndex(p: real, cs: real): (i: int)
    requires cs > 0.0
    ensures i as real * cs <= p < i as real * cs + cs
  {
    var q := p / cs;
    FloorScaled(p, q, cs, q.Floor);
    q.Floor
  }

  lemma FloorScaled(p: real, q: real, cs: real, f: int)
    requires cs > 0.0 && q * cs == p && f as real <= q < f as real + 1.0
    ensures f as real * cs <= p < f as real * cs + cs
  {
    var fr := f as real;
    MulMonoLe(fr, q, cs);
    MulMonoLt(q, fr + 1.0, cs);
    AddScaled(fr, 1.0, cs);
  }

  /** The band index is the only `i` with `i * cs <= p < (i + 1) * cs`. */
  lemma CellIndexUnique(p: real, cs: real, i: int)
    requires cs > 0.0 && i as real * cs <= p < i as real * cs + cs
    ensures CellIndex(p, cs) == i
  {
    var j := CellIndex(p, cs);
    BandsApart(i, j, cs, p);
    BandsApart(j, i, cs, p);
  }

  /** A point in band `b` that lies below the end of band `a` has `b <= a`. */
  lemma BandsApart(a: int, b: int, cs: real, p: real)
    requires cs > 0.0 && b as real * cs <= p < a as real * cs + cs
    ensures b <= a
  {
    AddScaled(a as real, 1.0, cs);
    ScaleCancel(b as real, a as real + 1.0, cs);
  }

  /** `(a + k) * c == a * c + k * c`. */
  lemma AddScaled(a: real, k: real, c: real)
    ensures (a + k) * c == a * c + k * c
  {
  }

  /** The band after band `i` starts one band width later. */
  lemma NextBandStart(i: int, c: real)
    ensures (i + 1) as real * c == i as real * c + c
  {
    assert (i + 1) as real == i as real + 1.0;
    AddScaled(i as real, 1.0, c);
  }

  /** The band before band `n` ends where band `n` starts. */
  lemma PrevBandStart(n: int, c: real)
    ensures (n - 1) as real * c + c == n as real * c
  {
    assert (n - 1) as real + 1.0 == n as real;
    AddScaled((n - 1) as real, 1.0, c);
  }

  lemma MulNonneg(a: real, b: real)
    requires a >= 0.0 && b >= 0.0
    ensures a * b >= 0.0
  {
  }

  lemma MulPos(a: real, b: real)
    requires a > 0.0 && b > 0.0
    ensures a * b > 0.0
  {
  }

  lemma MulMonoLe(a: real, b: real, c: real)
    requires a <= b && c > 0.0
    ensures a * c <= b * c
  {
    MulNonneg(b - a, c);
    AddScaled(a, b - a, c);
  }

  lemma MulMonoLt(a: real, b: real, c: real)
    requires a < b && c > 0.0
    ensures a * c < b * c
  {
    MulPos(b - a, c);
    AddScaled(a, b - a, c);
  }

  lemma ScaleCancel(x: real, y: real, c: real)
    requires c > 0.0 && x * c < y * c
    ensures x < y
  {
  }

  /**
   * `isCollidingWithWalls(px, py, radius)`: outside the grid is a collision;
   * otherwise the offsets inside the cell are compared against its top, right,
   * bottom and left walls in turn.
   */
  function IsCollidingWithWalls(m: Maze, cellSize: nat, px: real, py: real, radius: real): (r: bool)
    requires m.Valid() && cellSize > 0
    reads m, m.cells
    ensures !r ==> InGrid(m.rows, m.cols, CellOf(px, py, cellSize))
  {
    var cs := cellSize as real;
    var colIndex := CellIndex(px, cs);
    var rowIndex := CellIndex(py, cs);
    if rowIndex < 0 || rowIndex >= m.rows || colIndex < 0 || colIndex >= m.cols then true
    else
      var cellX := px - colIndex as real * cs;
      var cellY := py - rowIndex as real * cs;
      var cell := m.cells[rowIndex, colIndex];
      if cell.top && cellY - radius < 0.0 then true
      else if cell.right && cellX + radius > cs then true
      else if cell.bottom && cellY + radius > cs then true
      else if cell.left && cellX - radius < 0.0 then true
      else false
  }

  /** The cell of a position lies in the grid exactly when the position lies on the board. */
  lemma CellInGridIff(m: Maze, cellSize: nat, px: real, py: real)
    requires m.Valid() && cellSize > 0
    ensures var cs := cellSize as real;
      InGrid(m.rows, m.cols, (CellIndex(py, cs), CellIndex(px, cs))) <==>
      0.0 <= px < m.cols as real * cs && 0.0 <= py < m.rows as real * cs
  {
    BandInRange(px, cellSize as real, m.cols);
    BandInRange(py, cellSize as real, m.rows);
  }

  lemma BandInRange(p: real, cs: real, n: nat)
    requires cs > 0.0
    ensures 0 <= CellIndex(p, cs) < n <==> 0.0 <= p < n as real * cs
  {
    BandFromZero(p, cs);
    BandBelow(p, cs, n);
  }

  /** A position lies in band 0 or later exactly when it is not negative. */
  lemma BandFromZero(p: real, cs: real)
    requires cs > 0.0
    ensures 0 <= CellIndex(p, cs) <==> 0.0 <= p
  {
    var i := CellIndex(p, cs);
    if 0 <= i {
      MulNonneg(i as real, cs);
    }
    if 0.0 <= p {
      BandsApart(i, 0, cs, p);
    }
  }

  /** A position lies in a band before band `n` exactly when it lies before `n * cs`. */
  lemma BandBelow(p: real, cs: real, n: int)
    requires cs > 0.0
    ensures CellIndex(p, cs) < n <==> p < n as real * cs
  {
    var i := CellIndex(p, cs);
    if i < n {
      assert i as real + 1.0 <= n as real;
      MulMonoLe(i as real + 1.0, n as real, cs);
      AddScaled(i as real, 1.0, cs);
      assert p < n as real * cs;
    }
    if p < n as real * cs {
      PrevBandStart(n, cs);
      BandsApart(n - 1, i, cs, p);
      assert i < n;
    }
  }

  /** A position off the board always collides, whatever the walls. */
  lemma OffBoardCollides(m: Maze, cellSize: nat, px: real, py: real, radius: real)
    requires m.Valid() && cellSize > 0
    requires !(0.0 <= px < m.cols as real * cellSize as real && 0.0 <= py < m.rows as real * cellSize as real)
    ensures IsCollidingWithWalls(m, cellSize, px, py, radius)
  {
    CellInGridIff(m, cellSize, px, py);
  }

  /** The centre of band `i`, `i * cs + cs / 2`, lies in band `i`, half a band from its start. */
  lemma CentreBand(i: int, cs: real)
    requires cs > 0.0
    ensures CellIndex((i as real + 0.5) * cs, cs) == i
    ensures (i as real + 0.5) * cs - i as real * cs == 0.5 * cs
  {
    AddScaled(i as real, 0.5, cs);
    CellIndexUnique((i as real + 0.5) * cs, cs, i);
  }

  /**
   * A disc whose diameter fits in a cell and that sits at the centre of a
   * grid cell collides with nothing, whichever walls that cell has.
   */
  lemma CentreIsFree(m: Maze, cellSize: nat, r: int, c: int, radius: real)
    requires m.Valid() && cellSize > 0 && InGrid(m.rows, m.cols, (r, c))
    requires 0.0 <= radius && 2.0 * radius <= cellSize as real
    ensures !IsCollidingWithWalls(m, cellSize, (c as real + 0.5) * cellSize as real, (r as real + 0.5) * cellSize as real, radius)
  {
    var cs := cellSize as real;
    CentreBand(c, cs);
    CentreBand(r, cs);
    var px, py := (c as real + 0.5) * cs, (r as real + 0.5) * cs;
    assert CellIndex(px, cs) == c && CellIndex(py, cs) == r;
    assert px - c as real * cs == 0.5 * cs && py - r as real * cs == 0.5 * cs;
    var cell := m.cells[r, c];
    assert !(cell.top && py - r as real * cs - radius < 0.0);
    assert !(cell.right && px - c as real * cs + radius > cs);
    assert !(cell.bottom && py - r as real * cs + radius > cs);
    assert !(cell.left && px - c as real * cs - radius < 0.0);
  }

  /**
   * With cells of 10 pixels or more, a disc of a fifth of a cell moved from
   * a cell's centre by its radius plus one pixel towards a standing right
   * wall still fits inside the cell: only the new position is looked at,
   * and there the disc reaches at most the cell's right edge.
   */
  lemma NudgeFromCentreIsFree(m: Maze, cellSize: nat, r: int, c: int)
    requires m.Valid() && 10 <= cellSize && InGrid(m.rows, m.cols, (r, c))
    ensures var cs := cellSize as real;
      !IsCollidingWithWalls(m, cellSize, (c as real + 0.5) * cs + cs * 0.2 + 1.0, (r as real + 0.5) * cs, cs * 0.2)
  {
    var cs := cellSize as real;
    AddScaled(c as real, 0.5, cs);
    AddScaled(r as real, 0.5, cs);
    InsideCellIsFree(m, cellSize, r, c, (c as real + 0.5) * cs + cs * 0.2 + 1.0, (r as real + 0.5) * cs, cs * 0.2);
  }

  /** A disc lying wholly inside one grid cell collides with nothing, whichever walls that cell has. */
  lemma InsideCellIsFree(m: Maze, cellSize: nat, r: int, c: int, px: real, py: real, radius: real)
    requires m.Valid() && cellSize > 0 && InGrid(m.rows, m.cols, (r, c)) && 0.0 < radius
    requires var cs := cellSize as real;
      c as real * cs + radius <= px && px + radius <= c as real * cs + cs &&
      r as real * cs + radius <= py && py + radius <= r as real * cs + cs
    ensures !IsCollidingWithWalls(m, cellSize, px, py, radius)
  {
    var cs := cellSize as real;
    CellIndexUnique(px, cs, c);
    CellIndexUnique(py, cs, r);
    var cell := m.cells[r, c];
    assert !(cell.top && py - r as real * cs - radius < 0.0);
    assert !(cell.right && px - c as real * cs + radius > cs);
    assert !(cell.bottom && py - r as real * cs + radius > cs);
    assert !(cell.left && px - c as real * cs - radius < 0.0);
  }

  /**
   * The disc at (`px`, `py`) lies in a grid cell and keeps clear of every
   * standing wall of that cell: the collision test stated as bounds.
   */
  ghost predicate KeepsClear(m: Maze, cellSize: nat, px: real, py: real, radius: real)
    requires m.Valid() && cellSize > 0
    reads m, m.cells
  {
    var cs := cellSize as real;
    var r, c := CellIndex(py, cs), CellIndex(px, cs);
    InGrid(m.rows, m.cols, (r, c)) &&
    (m.cells[r, c].top ==> r as real * cs + radius <= py) &&
    (m.cells[r, c].right ==> px + radius <= c as real * cs + cs) &&
    (m.cells[r, c].bottom ==> py + radius <= r as real * cs + cs) &&
    (m.cells[r, c].left ==> c as real * cs + radius <= px)
  }

  /** A position is free of collisions exactly when the disc there keeps clear of its cell's standing walls. */
  lemma ClearOfWalls(m: Maze, cellSize: nat, px: real, py: real, radius: real)
    requires m.Valid() && cellSize > 0
    ensures !IsCollidingWithWalls(m, cellSize, px, py, radius) <==> KeepsClear(m, cellSize, px, py, radius)
  {
  }

  /** Two points less than one band apart and in different bands are in consecutive bands. */
  lemma NextBand(p1: real, p2: real, cs: real)
    requires cs > 0.0 && p1 < p2 < p1 + cs
    requires CellIndex(p1, cs) != CellIndex(p2, cs)
    ensures CellIndex(p2, cs) == CellIndex(p1, cs) + 1
  {
    var i, j := CellIndex(p1, cs), CellIndex(p2, cs);
    BandsApart(j, i, cs, p1);
    NextBandStart(i, cs);
    BandsApart(i + 1, j, cs, p2);
  }

  /**
   * A wall at `edge` that two discs of the given radius, less than a
   * diameter apart, both keep clear of whenever it stands cannot be standing.
   */
  lemma WallBetweenOpen(near: bool, far: bool, p1: real, p2: real, edge: real, radius: real)
    requires near == far && p2 < p1 + 2.0 * radius
    requires near ==> p1 + radius <= edge
    requires far ==> edge + radius <= p2
    ensures !near && !far
  {
  }

  /**
   * No tunnelling sideways: two collision-free positions at the same height,
   * less than a diameter apart and in different cells, lie in horizontally
   * neighbouring cells whose shared wall is open on both sides.
   */
  lemma HorizontalCrossingIsOpen(m: Maze, cellSize: nat, x1: real, x2: real, y: real, radius: real)
    requires m.Valid() && m.WallsSymmetric() && cellSize > 0
    requires 0.0 < radius && 2.0 * radius <= cellSize as real
    requires x1 < x2 < x1 + 2.0 * radius
    requires !IsCollidingWithWalls(m, cellSize, x1, y, radius) && !IsCollidingWithWalls(m, cellSize, x2, y, radius)
    requires CellIndex(x1, cellSize as real) != CellIndex(x2, cellSize as real)
    ensures var cs := cellSize as real;
      var r, c := CellIndex(y, cs), CellIndex(x1, cs);
      CellIndex(x2, cs) == c + 1 && !m.cells[r, c].right && !m.cells[r, c + 1].left
  {
    ClearOfWalls(m, cellSize, x1, y, radius);
    ClearOfWalls(m, cellSize, x2, y, radius);
    HorizontalClearance(m, cellSize, x1, x2, y, radius);
  }

  lemma HorizontalClearance(m: Maze, cellSize: nat, x1: real, x2: real, y: real, radius: real)
    requires m.Valid() && m.WallsSymmetric() && cellSize > 0
    requires 0.0 < radius && 2.0 * radius <= cellSize as real
    requires x1 < x2 < x1 + 2.0 * radius
    requires KeepsClear(m, cellSize, x1, y, radius) && KeepsClear(m, cellSize, x2, y, radius)
    requires CellIndex(x1, cellSize as real) != CellIndex(x2, cellSize as real)
    ensures var cs := cellSize as real;
      var r, c := CellIndex(y, cs), CellIndex(x1, cs);
      CellIndex(x2, cs) == c + 1 && !m.cells[r, c].right && !m.cells[r, c + 1].left
  {
    var cs := cellSize as real;
    var r, c, c2 := CellIndex(y, cs), CellIndex(x1, cs), CellIndex(x2, cs);
    NextBand(x1, x2, cs);
    NextBandStart(c, cs);
    m.SharedWalls(r, c);
    WallBetweenOpen(m.cells[r, c].right, m.cells[r, c2].left, x1, x2, c2 as real * cs, radius);
  }

  /**
   * No tunnelling up or down: two collision-free positions at the same
   * horizontal offset, less than a diameter apart and in different cells,
   * lie in vertically neighbouring cells whose shared wall is open on both
   * sides.
   */
  lemma VerticalCrossingIsOpen(m: Maze, cellSize: nat, x: real, y1: real, y2: real, radius: real)
    requires m.Valid() && m.WallsSymmetric() && cellSize > 0
    requires 0.0 < radius && 2.0 * radius <= cellSize as real
    requires y1 < y2 < y1 + 2.0 * radius
    requires !IsCollidingWithWalls(m, cellSize, x, y1, radius) && !IsCollidingWithWalls(m, cellSize, x, y2, radius)
    requires CellIndex(y1, cellSize as real) != CellIndex(y2, cellSize as real)
    ensures var cs := cellSize as real;
      var r, c := CellIndex(y1, cs), CellIndex(x, cs);
      CellIndex(y2, cs) == r + 1 && !m.cells[r, c].bottom && !m.cells[r + 1, c].top
  {
    ClearOfWalls(m, cellSize, x, y1, radius);
    ClearOfWalls(m, cellSize, x, y2, radius);
    VerticalClearance(m, cellSize, x, y1, y2, radius);
  }

  lemma VerticalClearance(m: Maze, cellSize: nat, x: real, y1: real, y2: real, radius: real)
    requires m.Valid() && m.WallsSymmetric() && cellSize > 0
    requires 0.0 < radius && 2.0 * radius <= cellSize as real
    requires y1 < y2 < y1 + 2.0 * radius
    requires KeepsClear(m, cellSize, x, y1, radius) && KeepsClear(m, cellSize, x, y2, radius)
    requires CellIndex(y1, cellSize as real) != CellIndex(y2, cellSize as real)
    ensures var cs := cellSize as real;
      var r, c := CellIndex(y1, cs), CellIndex(x, cs);
      CellIndex(y2, cs) == r + 1 && !m.cells[r, c].bottom && !m.cells[r + 1, c].top
  {
    var cs := cellSize as real;
    var r, r2, c := CellIndex(y1, cs), CellIndex(y2, cs), CellIndex(x, cs);
    NextBand(y1, y2, cs);
    NextBandStart(r, cs);
    m.SharedWalls(r, c);
    WallBetweenOpen(m.cells[r, c].bottom, m.cells[r2, c].top, y1, y2, r2 as real * cs, radius);
  }

  /**
   * Two cells the player may pass between in one move: the same cell, or
   * grid neighbours whose shared wall is open on both sides.
   */
  predicate OpenBetween(m: Maze, a: Coord, b: Coord)
    requires m.Valid()
    reads m, m.cells
  {
    a == b ||
    (m.InBounds(a) && m.InBounds(b) && Adjacent(a, b) &&
     !Wall(m.cells[a.0, a.1], Facing(a, b)) && !Wall(m.cells[b.0, b.1], Facing(b, a)))
  }

  /** The cell holding a position: `floor(py / cellSize)`, `floor(px / cellSize)`. */
  function CellOf(px: real, py: real, cellSize: nat): Coord
    requires cellSize > 0
  {
    (CellIndex(py, cellSize as real), CellIndex(px, cellSize as real))
  }

  /**
   * A sideways move shorter than the disc's diameter between two
   * collision-free positions never crosses a standing wall.
   */
  lemma SideStepIsOpen(m: Maze, cellSize: nat, x1: real, x2: real, y: real, radius: real)
    requires m.Valid() && m.WallsSymmetric() && cellSize > 0
    requires 0.0 < radius && 2.0 * radius <= cellSize as real
    requires x1 - 2.0 * radius < x2 < x1 + 2.0 * radius
    requires !IsCollidingWithWalls(m, cellSize, x1, y, radius) && !IsCollidingWithWalls(m, cellSize, x2, y, radius)
    ensures OpenBetween(m, CellOf(x1, y, cellSize), CellOf(x2, y, cellSize))
  {
    var cs := cellSize as real;
    if CellIndex(x1, cs) != CellIndex(x2, cs) {
      if x1 < x2 {
        HorizontalCrossingIsOpen(m, cellSize, x1, x2, y, radius);
      } else {
        HorizontalCrossingIsOpen(m, cellSize, x2, x1, y, radius);
      }
    }
  }

  /**
   * An up or down move shorter than the disc's diameter between two
   * collision-free positions never crosses a standing wall.
   */
  lemma UpDownStepIsOpen(m: Maze, cellSize: nat, x: real, y1: real, y2: real, radius: real)
    requires m.Valid() && m.WallsSymmetric() && cellSize > 0
    requires 0.0 < radius && 2.0 * radius <= cellSize as real
    requires y1 - 2.0 * radius < y2 < y1 + 2.0 * radius
    requires !IsCollidingWithWalls(m, cellSize, x, y1, radius) && !IsCollidingWithWalls(m, cellSize, x, y2, radius)
    ensures OpenBetween(m, CellOf(x, y1, cellSize), CellOf(x, y2, cellSize))
  {
    var cs := cellSize as real;
    if CellIndex(y1, cs) != CellIndex(y2, cs) {
      if y1 < y2 {
        VerticalCrossingIsOpen(m, cellSize, x, y1, y2, radius);
      } else {
        VerticalCrossingIsOpen(m, cellSize, x, y2, y1, radius);
      }
    }
  }
}
