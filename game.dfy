/**
 * The game played in the carved maze: a disc-shaped player slides through
 * the corridors under keyboard control, picks up the stars by touching
 * them, and wins by touching the exit door, which opens once every star
 * has been picked up. Positions are exact reals in pixels; the maze has
 * `cellSize` pixels per cell.
 */
module Game {
  import opened Grid
  import opened Mazes
  import opened Collision

  datatype Star = Star(row: int, col: int, collected: bool)

  datatype Door = Door(row: int, col: int, isOpen: bool)

  /** The four arrow keys (or w, s, a, d) held down. */
  datatype Keys = Keys(up: bool, down: bool, left: bool, right: bool)

  function StarCell(s: Star): Coord
  {
    (s.row, s.col)
  }

  function DoorCell(d: Door): Coord
  {
    (d.row, d.col)
  }

  /**
   * The unit direction the held keys ask for, as `(dx, dy)`: up and down
   * cancel, and so do left and right.
   */
  function KeyDirection(k: Keys): (d: (int, int))
    ensures -1 <= d.0 <= 1 && -1 <= d.1 <= 1
    ensures d.0 == 0 <==> k.left == k.right
    ensures d.1 == 0 <==> k.up == k.down
    ensures d.0 == 1 <==> k.right && !k.left
    ensures d.1 == 1 <==> k.down && !k.up
  {
    var dx := (if k.left then -1 else 0) + (if k.right then 1 else 0);
    var dy := (if k.up then -1 else 0) + (if k.down then 1 else 0);
    (dx, dy)
  }

  /** `dx * dx + dy * dy`: 1 for a straight move, 2 for a diagonal one. */
  function NormSquared(d: (int, int)): (n: int)
    ensures -1 <= d.0 <= 1 && -1 <= d.1 <= 1 && d != (0, 0) ==> 1 <= n <= 2
  {
    d.0 * d.0 + d.1 * d.1
  }

  /** The pixel centre of cell `(row, col)`: `col * cellSize + cellSize / 2`, `row * cellSize + cellSize / 2`. */
  function CentreX(col: int, cellSize: nat): real
  {
    col as real * cellSize as real + cellSize as real / 2.0
  }

  function CentreY(row: int, cellSize: nat): real
  {
    row as real * cellSize as real + cellSize as real / 2.0
  }

  /**
   * `Math.hypot(px - cx, py - cy) < reach`, compared on squares: for a
   * positive reach the two agree, and a distance is never below a reach
   * that is not positive.
   */
  predicate Touches(px: real, py: real, cx: real, cy: real, reach: real): (t: bool)
    ensures t ==> cx - reach < px < cx + reach && cy - reach < py < cy + reach
  {
    if 0.0 < reach then
      SquareNonneg(px - cx);
      SquareNonneg(py - cy);
      if (px - cx) * (px - cx) + (py - cy) * (py - cy) < reach * reach then
        SquareBelow(px - cx, reach);
        SquareBelow(py - cy, reach);
        true
      else
        false
    else
      false
  }

  lemma SquareNonneg(a: real)
    ensures a * a >= 0.0
  {
    if a < 0.0 {
      MulPos(-a, -a);
    } else {
      MulNonneg(a, a);
    }
  }

  /** A number whose square is below the square of a positive `r` lies strictly between `-r` and `r`. */
  lemma SquareBelow(a: real, r: real)
    requires 0.0 < r && a * a < r * r
    ensures -r < a < r
  {
    if a >= r {
      MulMonoLe(r, a, r);
      MulMonoLe(r, a, a);
    } else if a <= -r {
      assert (-a) * (-a) == a * a;
      MulMonoLe(r, -a, r);
      MulMonoLe(r, -a, -a);
    }
  }

  /** `stars.every(star => star.collected)`. */
  predicate AllCollected(stars: seq<Star>)
  {
    forall i :: 0 <= i < |stars| ==> stars[i].collected
  }

  /** The stars lie on distinct grid cells, none of them the player's cell `p`. */
  predicate StarsApart(stars: seq<Star>, p: Coord, rows: int, cols: int)
  {
    (forall i :: 0 <= i < |stars| ==> InGrid(rows, cols, StarCell(stars[i])) && StarCell(stars[i]) != p) &&
    (forall i, j :: 0 <= i < j < |stars| ==> StarCell(stars[i]) != StarCell(stars[j]))
  }

  /** The door lies on a grid cell that is neither the player's cell `p` nor a star's cell. */
  predicate DoorApart(door: Door, stars: seq<Star>, p: Coord, rows: int, cols: int)
  {
    InGrid(rows, cols, DoorCell(door)) && DoorCell(door) != p &&
    forall i :: 0 <= i < |stars| ==> DoorCell(door) != StarCell(stars[i])
  }

  /** Between two moments of play: the same stars on the same cells, and collected ones stay collected. */
  predicate CollectedKept(before: seq<Star>, after: seq<Star>)
  {
    |after| == |before| &&
    forall i :: 0 <= i < |before| ==>
      StarCell(after[i]) == StarCell(before[i]) && (before[i].collected ==> after[i].collected)
  }

  /** The per-axis step never exceeds `speed`, whether the move is straight or diagonal. */
  lemma StepBound(step: real, len2: int, speed: real)
    requires 0.0 < step && 0.0 < speed && 1 <= len2 && step * step * len2 as real == speed * speed
    ensures step <= speed
  {
    SquareScaled(step, len2);
    SquareGap(step, speed);
  }

  /** A square scaled by a positive whole number is at least the square. */
  lemma SquareScaled(a: real, k: int)
    requires 1 <= k
    ensures a * a <= a * a * k as real
  {
    MulNonneg(a * a, k as real - 1.0);
  }

  lemma SquareGap(a: real, b: real)
    requires 0.0 < a && 0.0 < b && a * a <= b * b
    ensures a <= b
  {
    if b < a {
      MulMonoLt(b, a, b);
      MulMonoLt(b, a, a);
    }
  }

  /** `p + k * step`: a position moved `k` steps along one axis. */
  function Shift(p: real, k: int, step: real): real
  {
    p + k as real * step
  }

  /**
   * With cells of at least 10 pixels the disc is 4 pixels or more across, so
   * a step of at most 3.5 pixels along one axis is shorter than its diameter.
   */
  lemma StepWithinDiameter(step: real, k: int, cellSize: nat, radius: real, p: real)
    requires 0.0 < step <= 3.5 && -1 <= k <= 1 && 10 <= cellSize && radius == cellSize as real * 0.2
    ensures p - 2.0 * radius < Shift(p, k, step) < p + 2.0 * radius
  {
    if k == 0 {
      assert k as real * step == 0.0;
    } else if k == 1 {
      assert k as real * step == step;
    } else {
      assert k as real * step == -step;
    }
  }

  /** Both axis moves of one frame stay shorter than the disc's diameter. */
  lemma StepsFit(d: (int, int), step: real, speed: real, cellSize: nat, radius: real)
    requires -1 <= d.0 <= 1 && -1 <= d.1 <= 1 && d != (0, 0) && speed == 3.5
    requires 0.0 < step && step * step * NormSquared(d) as real == speed * speed
    requires 10 <= cellSize && radius == cellSize as real * 0.2
    ensures 0.0 < radius && 2.0 * radius <= cellSize as real
    ensures forall p :: p - 2.0 * radius < Shift(p, d.0, step) < p + 2.0 * radius
    ensures forall p :: p - 2.0 * radius < Shift(p, d.1, step) < p + 2.0 * radius
  {
    StepBound(step, NormSquared(d), speed);
    forall p ensures p - 2.0 * radius < Shift(p, d.0, step) < p + 2.0 * radius {
      StepWithinDiameter(step, d.0, cellSize, radius, p);
    }
    forall p ensures p - 2.0 * radius < Shift(p, d.1, step) < p + 2.0 * radius {
      StepWithinDiameter(step, d.1, cellSize, radius, p);
    }
  }

  /**
   * The centre of the start cell, where `setup()` puts the player, is in
   * cell (0, 0) and clear of its walls.
   */
  lemma StartIsFree(m: Maze, cellSize: nat)
    requires m.Valid() && 1 <= m.rows && 1 <= m.cols && 10 <= cellSize
    ensures var cs := cellSize as real;
      CellOf(0.5 * cs, 0.5 * cs, cellSize) == (0, 0) &&
      !IsCollidingWithWalls(m, cellSize, 0.5 * cs, 0.5 * cs, cs * 0.2)
  {
    var cs := cellSize as real;
    assert 0.5 * cs == (0 as real + 0.5) * cs;
    CentreBand(0, cs);
    CentreIsFree(m, cellSize, 0, 0, cs * 0.2);
  }

  /** Steps 1 and 2 of `setup()`: `createMazeStructure()`, then `generateMazeDFS(0, 0)`. */
  method NewMaze(rows: nat, cols: nat) returns (m: Maze)
    requires 1 <= rows && 1 <= cols
    ensures fresh(m) && fresh(m.cells) && m.Valid() && m.rows == rows && m.cols == cols
    ensures m.WallsSymmetric() && m.CarvedFrom((0, 0))
  {
    m := new Maze(rows, cols);
    ghost var parent, depth := m.GenerateMazeDFS((0, 0));
  }

  /**
   * `setup()`: build the grid, carve it from (0, 0), put the player at the
   * centre of (0, 0), then place the stars and the door.
   */
  method Setup(rows: nat, cols: nat, cellSize: nat) returns (game: Game)
    requires 1 <= rows && 1 <= cols && 5 <= rows * cols && 10 <= cellSize
    ensures fresh(game) && fresh(game.maze) && game.Valid()
    ensures game.maze.rows == rows && game.maze.cols == cols && game.cellSize == cellSize
    ensures game.PlayerCell() == (0, 0) && !game.door.isOpen
    ensures forall i :: 0 <= i < |game.stars| ==> !game.stars[i].collected
  {
    var m := NewMaze(rows, cols);
    game := new Game(m, cellSize);
  }

  class Game {
    const maze: Maze
    const cellSize: nat
    /** `player.radius`, a fifth of a cell. */
    const radius: real
    /** `player.speed` in pixels per frame. */
    const speed: real := 3.5
    var x: real
    var y: real
    var stars: seq<Star>
    var door: Door

    /**
     * The game's invariant: a perfect maze whose walls agree, a player disc
     * clear of every wall, three stars and a door on distinct cells away from
     * the start cell (0, 0), and an open door only once every star is
     * collected. `cellSize` stays in the 10 to 40 pixel range the board
     * sizing produces, so the disc is always wider than one frame's step.
     */
    ghost predicate Valid(): (v: bool)
      reads this, maze, maze.cells
      ensures v ==> 0 < cellSize && InGrid(maze.rows, maze.cols, PlayerCell())
    {
      maze.Valid() && maze.WallsSymmetric() &&
      10 <= cellSize && radius == cellSize as real * 0.2 &&
      !IsCollidingWithWalls(maze, cellSize, x, y, radius) &&
      |stars| == 3 &&
      StarsApart(stars, (0, 0), maze.rows, maze.cols) &&
      DoorApart(door, stars, (0, 0), maze.rows, maze.cols) &&
      (door.isOpen ==> AllCollected(stars))
    }

    /** The player's current cell. */
    function PlayerCell(): Coord
      requires 0 < cellSize
      reads this
    {
      CellOf(x, y, cellSize)
    }

    /**
     * The game on a carved maze: the player object of the source, with its
     * radius a fifth of a cell, and three stars and a door placed as
     * `setup()` places them.
     */
    constructor (m: Maze, cellSize: nat)
      requires m.Valid() && m.WallsSymmetric() && 5 <= m.rows * m.cols && 10 <= cellSize
      ensures Valid() && maze == m && this.cellSize == cellSize
      ensures x == 0.5 * cellSize as real && y == 0.5 * cellSize as real && PlayerCell() == (0, 0)
      ensures forall i :: 0 <= i < |stars| ==> !stars[i].collected
      ensures !door.isOpen
    {
      maze := m;
      this.cellSize := cellSize;
      radius := cellSize as real * 0.2;
      stars := [Star(0, 0, false), Star(0, 0, false), Star(0, 0, false)];
      new;
      ResetAndPlace();
    }

    /**
     * Steps 3 and 4 of `setup()`: the player back at the centre of cell
     * (0, 0), then the stars and the door placed on free cells.
     */
    method ResetAndPlace()
      requires maze.Valid() && maze.WallsSymmetric() && 5 <= maze.rows * maze.cols
      requires 10 <= cellSize && radius == cellSize as real * 0.2 && |stars| == 3
      modifies this
      ensures Valid()
      ensures x == 0.5 * cellSize as real && y == 0.5 * cellSize as real && PlayerCell() == (0, 0)
      ensures forall i :: 0 <= i < |stars| ==> !stars[i].collected
      ensures !door.isOpen
    {
      x, y := 0.5 * cellSize as real, 0.5 * cellSize as real;
      StartIsFree(maze, cellSize);
      PlaceStars();
      PlaceDoor();
    }

    /**
     * `placeStars()`: each star in turn gets a cell drawn until it is not
     * the player's cell nor an earlier star's; the drawing is any unused
     * grid cell.
     */
    method PlaceStars()
      requires maze.Valid() && 0 < cellSize && |stars| < maze.rows * maze.cols
      modifies this
      ensures |stars| == old(|stars|) && x == old(x) && y == old(y) && door == old(door)
      ensures forall i :: 0 <= i < |stars| ==> !stars[i].collected
      ensures StarsApart(stars, PlayerCell(), maze.rows, maze.cols)
    {
      var pCell := PlayerCell();
      var used := {pCell};
      for i := 0 to |stars|
        invariant |stars| == old(|stars|) && x == old(x) && y == old(y) && door == old(door)
        invariant pCell in used && |used| <= i + 1
        invariant forall j :: 0 <= j < i ==> StarCell(stars[j]) in used && !stars[j].collected
        invariant forall j :: 0 <= j < i ==> InGrid(maze.rows, maze.cols, StarCell(stars[j])) && StarCell(stars[j]) != pCell
        invariant forall j, k :: 0 <= j < k < i ==> StarCell(stars[j]) != StarCell(stars[k])
      {
        FreeCellExists(maze.rows, maze.cols, used);
        var cell :| InGrid(maze.rows, maze.cols, cell) && cell !in used;
        used := used + {cell};
        stars := stars[i := Star(cell.0, cell.1, false)];
      }
    }

    /**
     * `placeDoor()`: the door gets a cell drawn until it is neither the
     * player's cell nor a star's; the drawing is any unused grid cell.
     */
    method PlaceDoor()
      requires maze.Valid() && 0 < cellSize && |stars| + 1 < maze.rows * maze.cols
      modifies this
      ensures stars == old(stars) && x == old(x) && y == old(y)
      ensures !door.isOpen
      ensures DoorApart(door, stars, PlayerCell(), maze.rows, maze.cols)
    {
      var used := {PlayerCell()};
      for i := 0 to |stars|
        invariant x == old(x) && y == old(y) && stars == old(stars)
        invariant PlayerCell() in used && |used| <= i + 1
        invariant forall j :: 0 <= j < i ==> StarCell(stars[j]) in used
      {
        used := used + {StarCell(stars[i])};
      }
      FreeCellExists(maze.rows, maze.cols, used);
      var cell :| InGrid(maze.rows, maze.cols, cell) && cell !in used;
      door := Door(cell.0, cell.1, false);
    }

    /**
     * `updatePlayerMovement()` with the held keys. `step` is the length the
     * source computes as `speed / sqrt(dx * dx + dy * dy)`, given here by
     * its square. The move is tried along x first and kept only when the
     * disc would not collide there, then along y from the x just reached.
     * The player stays clear of the walls and never passes through a wall
     * that is standing.
     */
    method UpdatePlayerMovement(keys: Keys, step: real)
      requires Valid()
      requires var d := KeyDirection(keys);
        d != (0, 0) ==> 0.0 < step && step * step * NormSquared(d) as real == speed * speed
      modifies this
      ensures Valid()
      ensures stars == old(stars) && door == old(door)
      ensures KeyDirection(keys) == (0, 0) ==> x == old(x) && y == old(y)
      ensures KeyDirection(keys) != (0, 0) ==>
        var nx := Shift(old(x), KeyDirection(keys).0, step);
        x == (if IsCollidingWithWalls(maze, cellSize, nx, old(y), radius) then old(x) else nx)
      ensures KeyDirection(keys) != (0, 0) ==>
        var ny := Shift(old(y), KeyDirection(keys).1, step);
        y == (if IsCollidingWithWalls(maze, cellSize, x, ny, radius) then old(y) else ny)
      ensures OpenBetween(maze, CellOf(old(x), old(y), cellSize), CellOf(x, old(y), cellSize))
      ensures OpenBetween(maze, CellOf(x, old(y), cellSize), CellOf(x, y, cellSize))
    {
      assert maze.Valid() && 0 < cellSize;
      var d := KeyDirection(keys);
      if d == (0, 0) {
        return;
      }
      MoveBy(d, step);
    }

    /**
     * Steps 1 and 2 of a move along the direction `d`, each axis moving
     * `d.k * step` and kept only when the disc does not collide there.
     */
    method MoveBy(d: (int, int), step: real)
      requires Valid() && -1 <= d.0 <= 1 && -1 <= d.1 <= 1 && d != (0, 0)
      requires 0.0 < step && step * step * NormSquared(d) as real == speed * speed
      modifies this
      ensures Valid() && stars == old(stars) && door == old(door)
      ensures var nx := Shift(old(x), d.0, step);
        x == (if IsCollidingWithWalls(maze, cellSize, nx, old(y), radius) then old(x) else nx)
      ensures var ny := Shift(old(y), d.1, step);
        y == (if IsCollidingWithWalls(maze, cellSize, x, ny, radius) then old(y) else ny)
      ensures OpenBetween(maze, CellOf(old(x), old(y), cellSize), CellOf(x, old(y), cellSize))
      ensures OpenBetween(maze, CellOf(x, old(y), cellSize), CellOf(x, y, cellSize))
    {
      StepsFit(d, step, speed, cellSize, radius);
      MoveX(Shift(x, d.0, step));
      MoveY(Shift(y, d.1, step));
    }

    /**
     * Step 1 of the move: the player goes to `newX` unless the disc would
     * collide with a wall there. A step shorter than the disc's diameter
     * changes the player's cell only to a side neighbour across an open
     * wall.
     */
    method MoveX(newX: real)
      requires Valid() && x - 2.0 * radius < newX < x + 2.0 * radius
      modifies this
      ensures Valid() && stars == old(stars) && door == old(door) && y == old(y)
      ensures x == if IsCollidingWithWalls(maze, cellSize, newX, y, radius) then old(x) else newX
      ensures OpenBetween(maze, CellOf(old(x), y, cellSize), CellOf(x, y, cellSize))
    {
      if !IsCollidingWithWalls(maze, cellSize, newX, y, radius) {
        SideStepIsOpen(maze, cellSize, x, newX, y, radius);
        x := newX;
      }
    }

    /**
     * Step 2 of the move: the player goes to `newY` unless the disc would
     * collide with a wall there. A step shorter than the disc's diameter
     * changes the player's cell only to the cell above or below across an
     * open wall.
     */
    method MoveY(newY: real)
      requires Valid() && y - 2.0 * radius < newY < y + 2.0 * radius
      modifies this
      ensures Valid() && stars == old(stars) && door == old(door) && x == old(x)
      ensures y == if IsCollidingWithWalls(maze, cellSize, x, newY, radius) then old(y) else newY
      ensures OpenBetween(maze, CellOf(x, old(y), cellSize), CellOf(x, y, cellSize))
    {
      if !IsCollidingWithWalls(maze, cellSize, x, newY, radius) {
        UpDownStepIsOpen(maze, cellSize, x, y, newY, radius);
        y := newY;
      }
    }

    /**
     * `checkStarsCollection()`: every star not yet collected whose centre
     * the player touches, within the player's radius plus a fifth of a
     * cell, becomes collected; nothing else changes.
     */
    method CheckStarsCollection()
      requires Valid()
      modifies this
      ensures Valid()
      ensures x == old(x) && y == old(y) && door == old(door) && CollectedKept(old(stars), stars)
      ensures forall i :: 0 <= i < |stars| ==>
        stars[i].collected == (old(stars[i].collected) ||
          Touches(x, y, CentreX(stars[i].col, cellSize), CentreY(stars[i].row, cellSize),
                  radius + cellSize as real * 0.2))
    {
      var cs := cellSize as real;
      for i := 0 to |stars|
        invariant x == old(x) && y == old(y) && door == old(door) && |stars| == |old(stars)|
        invariant forall j :: 0 <= j < |stars| ==> StarCell(stars[j]) == StarCell(old(stars[j]))
        invariant forall j :: i <= j < |stars| ==> stars[j] == old(stars[j])
        invariant forall j :: 0 <= j < i ==>
          stars[j].collected == (old(stars[j].collected) ||
            Touches(x, y, CentreX(stars[j].col, cellSize), CentreY(stars[j].row, cellSize), radius + cs * 0.2))
      {
        var st := stars[i];
        if !st.collected {
          var sx := CentreX(st.col, cellSize);
          var sy := CentreY(st.row, cellSize);
          if Touches(x, y, sx, sy, radius + cs * 0.2) {
            stars := stars[i := st.(collected := true)];
          }
        }
      }
    }

    /**
     * `checkDoor()`: an open door that the player touches, within the
     * player's radius plus a quarter of a cell, wins the game; a closed door
     * opens once every star is collected.
     */
    method CheckDoor() returns (won: bool)
      requires Valid()
      modifies this
      ensures Valid()
      ensures x == old(x) && y == old(y) && stars == old(stars) && DoorCell(door) == DoorCell(old(door))
      ensures door.isOpen == (old(door.isOpen) || AllCollected(stars))
      ensures won == (old(door.isOpen) &&
        Touches(x, y, CentreX(door.col, cellSize), CentreY(door.row, cellSize), radius + cellSize as real * 0.25))
      ensures won ==> AllCollected(stars)
    {
      var cs := cellSize as real;
      if door.isOpen {
        var dx := CentreX(door.col, cellSize);
        var dy := CentreY(door.row, cellSize);
        won := Touches(x, y, dx, dy, radius + cs * 0.25);
      } else {
        won := false;
        if AllCollected(stars) {
          door := door.(isOpen := true);
        }
      }
    }

    /**
     * One frame of `gameLoop()` without the drawing: move, collect, check
     * the door. The player moves as `updatePlayerMovement()` moves it, the
     * stars touched at the new position become collected, the door opens
     * once every star is collected, and the frame is won when the door was
     * already open at its start and the player touches it. Progress only
     * grows, and a win needs every star.
     */
    method Tick(keys: Keys, step: real) returns (won: bool)
      requires Valid()
      requires var d := KeyDirection(keys);
        d != (0, 0) ==> 0.0 < step && step * step * NormSquared(d) as real == speed * speed
      modifies this
      ensures Valid()
      ensures KeyDirection(keys) == (0, 0) ==> x == old(x) && y == old(y)
      ensures KeyDirection(keys) != (0, 0) ==>
        var nx := Shift(old(x), KeyDirection(keys).0, step);
        x == (if IsCollidingWithWalls(maze, cellSize, nx, old(y), radius) then old(x) else nx)
      ensures KeyDirection(keys) != (0, 0) ==>
        var ny := Shift(old(y), KeyDirection(keys).1, step);
        y == (if IsCollidingWithWalls(maze, cellSize, x, ny, radius) then old(y) else ny)
      ensures OpenBetween(maze, CellOf(old(x), old(y), cellSize), CellOf(x, old(y), cellSize))
      ensures OpenBetween(maze, CellOf(x, old(y), cellSize), CellOf(x, y, cellSize))
      ensures CollectedKept(old(stars), stars) && DoorCell(door) == DoorCell(old(door))
      ensures forall i :: 0 <= i < |stars| ==>
        stars[i].collected == (old(stars[i].collected) ||
          Touches(x, y, CentreX(stars[i].col, cellSize), CentreY(stars[i].row, cellSize),
                  radius + cellSize as real * 0.2))
      ensures door.isOpen == (old(door.isOpen) || AllCollected(stars))
      ensures won == (old(door.isOpen) &&
        Touches(x, y, CentreX(door.col, cellSize), CentreY(door.row, cellSize), radius + cellSize as real * 0.25))
      ensures old(door.isOpen) ==> door.isOpen
      ensures won ==> AllCollected(stars) && door.isOpen
    {
      UpdatePlayerMovement(keys, step);
      CheckStarsCollection();
      won := CheckDoor();
    }
  }
}
