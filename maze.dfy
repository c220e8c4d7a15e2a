/**
 * The maze itself: a rows x cols array of cells that is built with every
 * wall standing and then carved, once, by the randomized depth-first
 * backtracker into a perfect maze (a spanning tree of the grid).
 */
module Mazes {
  import opened Grid
  import opened Carving

  /** Popping the last element and pushing it back gives the same sequence. */
  lemma PopPush<T>(s: seq<T>)
    requires s != []
    ensures s[..|s| - 1] + [s[|s| - 1]] == s
  {
  }

  class Maze {
    const rows: nat
    const cols: nat
    /** `maze[r][c]`; the array never changes, its cells do. */
    const cells: array2<Cell>

    ghost predicate Valid()
      reads this
    {
      cells.Length0 == rows && cells.Length1 == cols
    }

    predicate InBounds(p: Coord)
    {
      InGrid(rows, cols, p)
    }

    /** The cells as a board value, keyed by coordinate. */
    ghost function Snapshot(): (g: Board)
      requires Valid()
      reads this, cells
      ensures forall p :: p in g <==> InGrid(rows, cols, p)
      ensures forall p :: p in g ==> InGrid(rows, cols, p) && g[p] == cells[p.0, p.1]
    {
      var g := map p | p in AllCells(rows, cols) :: cells[p.0, p.1];
      assert forall p :: InBounds(p) ==> p in AllCells(rows, cols) by {
        forall p | InBounds(p) ensures p in AllCells(rows, cols) {
          var (r, c) := p;
          assert (r, c) in AllCells(rows, cols);
        }
      }
      g
    }

    lemma SnapshotAt(r: int, c: int)
      requires Valid() && 0 <= r < rows && 0 <= c < cols
      ensures (r, c) in Snapshot() && Snapshot()[(r, c)] == cells[r, c]
    {
    }

    /** The two cells on either side of every inner wall agree on it. */
    ghost predicate WallsSymmetric()
      requires Valid()
      reads this, cells
    {
      Symmetric(Snapshot())
    }

    /** With symmetric walls, a cell's right and bottom walls are its neighbours' left and top walls. */
    lemma SharedWalls(r: int, c: int)
      requires Valid() && WallsSymmetric() && 0 <= r < rows && 0 <= c < cols
      ensures c + 1 < cols ==> cells[r, c].right == cells[r, c + 1].left
      ensures r + 1 < rows ==> cells[r, c].bottom == cells[r + 1, c].top
    {
      var g := Snapshot();
      SnapshotAt(r, c);
      if c + 1 < cols {
        SnapshotAt(r, c + 1);
        assert Wall(g[(r, c)], Facing((r, c), (r, c + 1))) == Wall(g[(r, c + 1)], Facing((r, c + 1), (r, c)));
      }
      if r + 1 < rows {
        SnapshotAt(r + 1, c);
        assert Wall(g[(r, c)], Facing((r, c), (r + 1, c))) == Wall(g[(r + 1, c)], Facing((r + 1, c), (r, c)));
      }
    }

    /** The walls along the grid's outer edge are all standing. */
    ghost predicate OuterWallsUp()
      requires Valid()
      reads this, cells
    {
      forall r, c :: 0 <= r < rows && 0 <= c < cols ==>
        (r == 0 ==> cells[r, c].top) && (r == rows - 1 ==> cells[r, c].bottom) &&
        (c == 0 ==> cells[r, c].left) && (c == cols - 1 ==> cells[r, c].right)
    }

    /**
     * What generation leaves behind: every cell visited, the outer walls
     * standing, and the open inner walls a spanning tree of the grid rooted
     * at `start`, with rows * cols - 1 links.
     */
    ghost predicate CarvedFrom(start: Coord)
      requires Valid()
      reads this, cells
    {
      (forall r, c :: 0 <= r < rows && 0 <= c < cols ==> cells[r, c].visited) && OuterWallsUp() &&
      exists parent, depth :: SpanningTree(Snapshot(), parent, depth, start) && |parent| == rows * cols - 1
    }

    /** `new Cell(r, c)` for every cell, as `createMazeStructure` lays them out. */
    constructor (rows: nat, cols: nat)
      ensures this.rows == rows && this.cols == cols && Valid() && fresh(cells)
      ensures forall r, c :: 0 <= r < rows && 0 <= c < cols ==> cells[r, c] == FreshCell
    {
      this.rows := rows;
      this.cols := cols;
      cells := new Cell[rows, cols];
      new;
      var r := 0;
      while r < rows
        invariant 0 <= r <= rows
        invariant forall i, j :: 0 <= i < r && 0 <= j < cols ==> cells[i, j] == FreshCell
      {
        var c := 0;
        while c < cols
          invariant 0 <= c <= cols
          invariant forall i, j :: 0 <= i < r && 0 <= j < cols ==> cells[i, j] == FreshCell
          invariant forall j :: 0 <= j < c ==> cells[r, j] == FreshCell
        {
          cells[r, c] := FreshCell;
          c := c + 1;
        }
        r := r + 1;
      }
    }

    /**
     * `getUnvisitedNeighbors(row, col)`: the neighbours looked at up, right,
     * down, left, each kept when it is in the grid and not yet visited.
     */
    method GetUnvisitedNeighbors(row: int, col: int) returns (neighbors: seq<Coord>)
      requires Valid() && InBounds((row, col))
      ensures neighbors == UnvisitedNeighbours(Snapshot(), (row, col))
    {
      ghost var g, p := Snapshot(), (row, col);
      neighbors := [];
      assert (row > 0 && !cells[row - 1, col].visited) == UnvisitedAcross(g, p, Top);
      if row > 0 && !cells[row - 1, col].visited {
        neighbors := neighbors + [(row - 1, col)];
      }
      assert neighbors == Across(g, p, Top);
      assert (col < cols - 1 && !cells[row, col + 1].visited) == UnvisitedAcross(g, p, Right);
      if col < cols - 1 && !cells[row, col + 1].visited {
        neighbors := neighbors + [(row, col + 1)];
      }
      assert neighbors == Across(g, p, Top) + Across(g, p, Right);
      assert (row < rows - 1 && !cells[row + 1, col].visited) == UnvisitedAcross(g, p, Bottom);
      if row < rows - 1 && !cells[row + 1, col].visited {
        neighbors := neighbors + [(row + 1, col)];
      }
      assert neighbors == Across(g, p, Top) + Across(g, p, Right) + Across(g, p, Bottom);
      assert (col > 0 && !cells[row, col - 1].visited) == UnvisitedAcross(g, p, Left);
      if col > 0 && !cells[row, col - 1].visited {
        neighbors := neighbors + [(row, col - 1)];
      }
    }

    /**
     * `removeWalls(a, b)`: each cell loses the wall its column and row
     * differences point at. For neighbours that is exactly the shared wall,
     * on both sides, so the walls stay symmetric.
     */
    method RemoveWalls(a: Coord, b: Coord)
      requires Valid() && InBounds(a) && InBounds(b) && a != b
      modifies cells
      ensures cells[a.0, a.1] == ClearFacing(old(cells[a.0, a.1]), a, b)
      ensures cells[b.0, b.1] == ClearFacing(old(cells[b.0, b.1]), b, a)
      ensures forall r, c :: 0 <= r < rows && 0 <= c < cols && (r, c) != a && (r, c) != b ==>
        cells[r, c] == old(cells[r, c])
      ensures Snapshot() == RemoveWallsBetween(old(Snapshot()), a, b)
    {
      ghost var g0 := Snapshot();
      cells[a.0, a.1] := ClearFacing(cells[a.0, a.1], a, b);
      cells[b.0, b.1] := ClearFacing(cells[b.0, b.1], b, a);
      ghost var g1 := Snapshot();
      forall p | p in g1 && p != a && p != b ensures g1[p] == g0[p] {
        assert cells[p.0, p.1] == old(cells[p.0, p.1]);
      }
      TwoWrites(g0, g1, a, b);
    }

    /** `p.visited = true`. */
    method MarkVisitedAt(p: Coord)
      requires Valid() && InBounds(p)
      modifies cells
      ensures Snapshot() == MarkVisited(old(Snapshot()), p)
    {
      cells[p.0, p.1] := cells[p.0, p.1].(visited := true);
      assert Snapshot() == MarkVisited(old(Snapshot()), p);
    }

    /** Removing the walls between `current` and `next`, then marking `next` visited. */
    method Carve(current: Coord, next: Coord)
      requires Valid() && InBounds(current) && InBounds(next) && current != next
      modifies cells
      ensures Snapshot() == CarveTo(old(Snapshot()), current, next)
    {
      RemoveWalls(current, next);
      MarkVisitedAt(next);
    }

    /**
     * One pass of the `while (stack.length > 0)` loop of `generateMazeDFS`:
     * pop the top; if it has unvisited neighbours, push it back, pick one,
     * remove the walls between them, mark it visited and push it. The ghost
     * board, parent links and depths follow along; the pass keeps the
     * backtracker's invariant and either marks a cell visited or shortens
     * the stack.
     */
    method BacktrackStep(stack: seq<Coord>, ghost g: Board, ghost parent: map<Coord, Coord>, ghost depth: map<Coord, nat>,
                         ghost start: Coord)
        returns (stack': seq<Coord>, ghost g': Board, ghost parent': map<Coord, Coord>, ghost depth': map<Coord, nat>)
      requires Valid() && g == Snapshot() && DfsState(g, stack, parent, depth, start) && stack != []
      requires OuterWallsStanding(g)
      modifies cells
      ensures g' == Snapshot() && DfsState(g', stack', parent', depth', start) && OuterWallsStanding(g')
      ensures var top := stack[|stack| - 1];
        (UnvisitedNeighbours(g, top) == [] && stack' == stack[..|stack| - 1] && g' == g && parent' == parent) ||
        (exists next ::
           (next in g && next in UnvisitedNeighbours(g, top) &&
            stack' == stack + [next] && g' == CarveTo(g, top, next) && parent' == parent[next := top]))
      ensures g'.Keys - depth'.Keys < g.Keys - depth.Keys ||
        (g'.Keys - depth'.Keys == g.Keys - depth.Keys && |stack'| < |stack|)
    {
      var current := stack[|stack| - 1];
      stack' := stack[..|stack| - 1];
      var neighbors := GetUnvisitedNeighbors(current.0, current.1);
      assert Snapshot() == g;
      if |neighbors| > 0 {
        var k :| 0 <= k < |neighbors|;
        stack', g', parent', depth' := PushNeighbour(stack, g, parent, depth, start, neighbors[k]);
      } else {
        DfsPop(g, stack, parent, depth, start);
        g', parent', depth' := g, parent, depth;
      }
    }

    /**
     * The branch of a backtracking pass that found an unvisited neighbour
     * `next` of the popped cell: push the cell back, carve through to `next`,
     * and push `next`.
     */
    method PushNeighbour(stack: seq<Coord>, ghost g: Board, ghost parent: map<Coord, Coord>, ghost depth: map<Coord, nat>,
                         ghost start: Coord, next: Coord)
        returns (stack': seq<Coord>, ghost g': Board, ghost parent': map<Coord, Coord>, ghost depth': map<Coord, nat>)
      requires Valid() && g == Snapshot() && DfsState(g, stack, parent, depth, start) && stack != []
      requires OuterWallsStanding(g)
      requires next in UnvisitedNeighbours(g, stack[|stack| - 1])
      modifies cells
      ensures g' == Snapshot() && DfsState(g', stack', parent', depth', start) && OuterWallsStanding(g')
      ensures next in g && stack' == stack + [next] && g' == CarveTo(g, stack[|stack| - 1], next)
      ensures parent' == parent[next := stack[|stack| - 1]]
      ensures g'.Keys - depth'.Keys < g.Keys - depth.Keys
    {
      var current := stack[|stack| - 1];
      parent', depth' := parent[next := current], depth[next := depth[current] + 1];
      DfsPush(g, stack, parent, depth, start, current, next);
      CarveKeepsOuterWalls(g, current, next);
      Carve(current, next);
      g' := CarveTo(g, current, next);
      stack' := stack[..|stack| - 1] + [current];
      PopPush(stack);
      stack' := stack' + [next];
    }

    /**
     * `generateMazeDFS(start)`: the randomized depth-first backtracker over
     * an explicit stack. The random neighbour choice is any index into the
     * neighbour list. From a fresh grid it ends with every cell visited, the
     * outer walls standing and the open inner walls forming a spanning tree
     * with rows * cols - 1 links.
     */
    method GenerateMazeDFS(start: Coord) returns (ghost parent: map<Coord, Coord>, ghost depth: map<Coord, nat>)
      requires Valid() && InBounds(start)
      requires forall r, c :: 0 <= r < rows && 0 <= c < cols ==> cells[r, c] == FreshCell
      modifies cells
      ensures forall r, c :: 0 <= r < rows && 0 <= c < cols ==> cells[r, c].visited
      ensures WallsSymmetric()
      ensures SpanningTree(Snapshot(), parent, depth, start)
      ensures |parent| == rows * cols - 1
      ensures OuterWallsUp()
    {
      MarkVisitedAt(start);
      ghost var g := Snapshot();
      DfsInit(g, start);
      var stack := [start];
      parent, depth := map[], map[start := 0];

      while |stack| > 0
        invariant g == Snapshot() && DfsState(g, stack, parent, depth, start) && OuterWallsStanding(g)
        decreases g.Keys - depth.Keys, |stack|
      {
        stack, g, parent, depth := BacktrackStep(stack, g, parent, depth, start);
      }
      DfsDone(rows, cols, g, parent, depth, start);
      OuterWallsOnGrid(rows, cols, g);
      forall r, c | 0 <= r < rows && 0 <= c < cols ensures cells[r, c].visited {
        SnapshotAt(r, c);
      }
      forall r, c | 0 <= r < rows && 0 <= c < cols
        ensures (r == 0 ==> cells[r, c].top) && (r == rows - 1 ==> cells[r, c].bottom) &&
          (c == 0 ==> cells[r, c].left) && (c == cols - 1 ==> cells[r, c].right)
      {
        SnapshotAt(r, c);
      }
    }
  }
}
