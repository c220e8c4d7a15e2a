/**
 * The maze's walls as a value, and what carving does to them. A `Board` maps
 * every grid coordinate to its cell; the generator's state is proved about
 * boards, and the `Maze` class ties its array to a board.
 */
module Carving {
  import opened Grid

  /** The cells of a maze, keyed by coordinate. */
  type Board = map<Coord, Cell>

  /** The wall of `a` facing its neighbour `b` has been removed. */
  ghost predicate Open(g: Board, a: Coord, b: Coord)
    requires a in g && Adjacent(a, b)
  {
    !Wall(g[a], Facing(a, b))
  }

  /** The two cells on either side of every inner wall agree on it. */
  ghost predicate Symmetric(g: Board)
  {
    forall a, b :: a in g && b in g && Adjacent(a, b) ==>
      Wall(g[a], Facing(a, b)) == Wall(g[b], Facing(b, a))
  }

  /**
   * `parent` links form a tree over the open walls: every linked cell has a
   * neighbour as parent, strictly shallower, with the wall between them
   * open; and every open inner wall is such a link, one way or the other.
   */
  ghost predicate TreeLinks(g: Board, parent: map<Coord, Coord>, depth: map<Coord, nat>)
  {
    ParentLinksOpen(g, parent, depth) && OpeningsAreLinks(g, parent)
  }

  ghost predicate ParentLinksOpen(g: Board, parent: map<Coord, Coord>, depth: map<Coord, nat>)
  {
    forall k :: k in parent ==>
      k in g && k in depth && parent[k] in g && parent[k] in depth &&
      Adjacent(k, parent[k]) && depth[parent[k]] < depth[k] && Open(g, k, parent[k])
  }

  ghost predicate OpeningsAreLinks(g: Board, parent: map<Coord, Coord>)
  {
    forall a, b :: a in g && b in g && Adjacent(a, b) && Open(g, a, b) ==>
      (a in parent && parent[a] == b) || (b in parent && parent[b] == a)
  }

  /**
   * The open walls of `g` form a spanning tree rooted at `root`: every cell
   * but the root has exactly one parent link, and there are no other
   * openings.
   */
  ghost predicate SpanningTree(g: Board, parent: map<Coord, Coord>, depth: map<Coord, nat>, root: Coord)
  {
    root in g && depth.Keys == g.Keys && parent.Keys == g.Keys - {root} && TreeLinks(g, parent, depth)
  }

  /** A board that differs from `g0` only at `a` and `b` is `g0` updated at those keys. */
  lemma TwoWrites(g0: Board, g1: Board, a: Coord, b: Coord)
    requires g0.Keys == g1.Keys && a in g1 && b in g1
    requires forall p :: p in g1 && p != a && p != b ==> g1[p] == g0[p]
    ensures g1 == g0[a := g1[a]][b := g1[b]]
  {
  }

  /** `removeWalls(a, b)` on a board. */
  function RemoveWallsBetween(g: Board, a: Coord, b: Coord): (r: Board)
    requires a in g && b in g
    ensures r.Keys == g.Keys
    ensures Adjacent(a, b) ==> !Wall(r[a], Facing(a, b)) && !Wall(r[b], Facing(b, a))
  {
    var r := g[a := ClearFacing(g[a], a, b)][b := ClearFacing(g[b], b, a)];
    if Adjacent(a, b) then
      ClearFacingAdjacent(g[a], a, b);
      ClearFacingAdjacent(g[b], b, a);
      r
    else
      r
  }

  /** `next.visited = true` on a board. */
  function MarkVisited(g: Board, p: Coord): Board
    requires p in g
  {
    g[p := g[p].(visited := true)]
  }

  /** Every wall of a cell whose other side is off the board is standing. */
  ghost predicate OuterWallsStanding(g: Board)
  {
    forall p, s :: p in g && Neighbour(p, s) !in g ==> Wall(g[p], s)
  }

  /** One step of the backtracker: carve towards `next`, then mark it visited. */
  function CarveTo(g: Board, current: Coord, next: Coord): (r: Board)
    requires current in g && next in g
    ensures r.Keys == g.Keys && r[next].visited
  {
    MarkVisited(RemoveWallsBetween(g, current, next), next)
  }

  /**
   * Carving between neighbours opens exactly the shared wall, from both
   * sides, and keeps every other wall of every cell.
   */
  lemma CarveOpensOnlyShared(g: Board, a: Coord, b: Coord)
    requires a in g && b in g && Adjacent(a, b)
    ensures CarveTo(g, a, b).Keys == g.Keys
    ensures Open(CarveTo(g, a, b), a, b) && Open(CarveTo(g, a, b), b, a)
    ensures forall p :: p in g && p != a && p != b ==> CarveTo(g, a, b)[p] == g[p]
    ensures forall s :: s != Facing(a, b) ==> Wall(CarveTo(g, a, b)[a], s) == Wall(g[a], s)
    ensures forall s :: s != Facing(b, a) ==> Wall(CarveTo(g, a, b)[b], s) == Wall(g[b], s)
  {
    FacingOpposite(a, b);
    ClearFacingAdjacent(g[a], a, b);
    ClearFacingAdjacent(g[b], b, a);
  }

  /** Carving between neighbours on the board leaves the outer walls standing. */
  lemma CarveKeepsOuterWalls(g: Board, a: Coord, b: Coord)
    requires a in g && b in g && Adjacent(a, b) && OuterWallsStanding(g)
    ensures OuterWallsStanding(CarveTo(g, a, b))
  {
    var g' := CarveTo(g, a, b);
    CarveOpensOnlyShared(g, a, b);
    FacingOpposite(a, b);
    forall p, s | p in g' && Neighbour(p, s) !in g' ensures Wall(g'[p], s) {
      assert Neighbour(a, Facing(a, b)) == b && Neighbour(b, Facing(b, a)) == a;
    }
  }

  /** Carving between neighbours keeps the walls symmetric. */
  lemma CarveKeepsSymmetry(g: Board, a: Coord, b: Coord)
    requires a in g && b in g && Adjacent(a, b) && Symmetric(g)
    ensures Symmetric(CarveTo(g, a, b))
  {
    CarveOpensOnlyShared(g, a, b);
    forall p, q | p in g && q in g && Adjacent(p, q)
      ensures Wall(CarveTo(g, a, b)[p], Facing(p, q)) == Wall(CarveTo(g, a, b)[q], Facing(q, p))
    {
      CarveKeepsWallAgreement(g, a, b, p, q);
    }
  }

  lemma CarveKeepsWallAgreement(g: Board, a: Coord, b: Coord, p: Coord, q: Coord)
    requires a in g && b in g && Adjacent(a, b) && Symmetric(g)
    requires p in g && q in g && Adjacent(p, q)
    ensures Wall(CarveTo(g, a, b)[p], Facing(p, q)) == Wall(CarveTo(g, a, b)[q], Facing(q, p))
  {
    var g' := CarveTo(g, a, b);
    CarveOpensOnlyShared(g, a, b);
    FacingOpposite(p, q);
    FacingOpposite(a, b);
    if {p, q} != {a, b} {
      assert Neighbour(p, Facing(p, q)) == q && Neighbour(q, Facing(q, p)) == p;
      if p == a || p == b {
        if Facing(p, q) == Facing(p, if p == a then b else a) {
          FacingInjective(p, q, if p == a then b else a);
        }
      } else if q == a || q == b {
        if Facing(q, p) == Facing(q, if q == a then b else a) {
          FacingInjective(q, p, if q == a then b else a);
        }
      }
    } else if p == b {
      assert q == a;
    }
  }

  /**
   * Carving from a tree cell `current` into a cell `next` outside the tree
   * grows the tree by the one link from `next` to `current`.
   */
  lemma CarveExtendsTree(g: Board, current: Coord, next: Coord, parent: map<Coord, Coord>, depth: map<Coord, nat>)
    requires current in g && next in g && Adjacent(current, next)
    requires current in depth && next !in depth && TreeLinks(g, parent, depth)
    ensures TreeLinks(CarveTo(g, current, next), parent[next := current], depth[next := depth[current] + 1])
  {
    CarveKeepsParentLinks(g, current, next, parent, depth);
    CarveOpensOnlyLink(g, current, next, parent, depth);
  }

  lemma CarveKeepsParentLinks(g: Board, current: Coord, next: Coord, parent: map<Coord, Coord>, depth: map<Coord, nat>)
    requires current in g && next in g && Adjacent(current, next)
    requires current in depth && next !in depth && ParentLinksOpen(g, parent, depth)
    ensures ParentLinksOpen(CarveTo(g, current, next), parent[next := current], depth[next := depth[current] + 1])
  {
    var g', parent', depth' := CarveTo(g, current, next), parent[next := current], depth[next := depth[current] + 1];
    CarveOpensOnlyShared(g, current, next);
    forall k | k in parent'
      ensures k in g' && k in depth' && parent'[k] in g' && parent'[k] in depth' &&
        Adjacent(k, parent'[k]) && depth'[parent'[k]] < depth'[k] && Open(g', k, parent'[k])
    {
      if k != next {
        assert parent'[k] == parent[k] != next;
        assert Neighbour(k, Facing(k, parent[k])) == parent[k];
        if k == current && Facing(k, parent[k]) == Facing(current, next) {
          FacingInjective(k, parent[k], next);
        }
      }
    }
  }

  lemma CarveOpensOnlyLink(g: Board, current: Coord, next: Coord, parent: map<Coord, Coord>, depth: map<Coord, nat>)
    requires current in g && next in g && Adjacent(current, next)
    requires current in depth && next !in depth && ParentLinksOpen(g, parent, depth) && OpeningsAreLinks(g, parent)
    ensures OpeningsAreLinks(CarveTo(g, current, next), parent[next := current])
  {
    var g', parent' := CarveTo(g, current, next), parent[next := current];
    CarveOpensOnlyShared(g, current, next);
    forall a, b | a in g' && b in g' && Adjacent(a, b) && Open(g', a, b)
      ensures (a in parent' && parent'[a] == b) || (b in parent' && parent'[b] == a)
    {
      if {a, b} != {current, next} {
        assert Neighbour(a, Facing(a, b)) == b;
        if a == current || a == next {
          var other := if a == current then next else current;
          if Facing(a, b) == Facing(a, other) { FacingInjective(a, b, other); }
        }
        assert Open(g, a, b);
      } else if a == next {
        assert b == current;
      }
    }
  }

  /** Carving keeps the board's cells, marks `next` visited and leaves every other mark as it was. */
  lemma {:induction false} CarveKeepsVisited(g: Board, current: Coord, next: Coord)
    requires current in g && next in g && current != next
    ensures CarveTo(g, current, next).Keys == g.Keys
    ensures CarveTo(g, current, next)[next].visited
    ensures forall p :: p in g && p != next ==> CarveTo(g, current, next)[p].visited == g[p].visited
  {
    var g1 := RemoveWallsBetween(g, current, next);
    assert g1[current].visited == g[current].visited;
  }

  /** The neighbour of `p` across `s` is on the board and not yet visited. */
  predicate UnvisitedAcross(g: Board, p: Coord, s: Side)
  {
    Neighbour(p, s) in g && !g[Neighbour(p, s)].visited
  }

  /** The neighbour across `s`, when it is on the board and unvisited. */
  function Across(g: Board, p: Coord, s: Side): seq<Coord>
  {
    if UnvisitedAcross(g, p, s) then [Neighbour(p, s)] else []
  }

  /** The unvisited neighbours of `p`, looked for up, right, down, left. */
  function UnvisitedNeighbours(g: Board, p: Coord): (ns: seq<Coord>)
    ensures |ns| <= 4
  {
    Across(g, p, Top) + Across(g, p, Right) + Across(g, p, Bottom) + Across(g, p, Left)
  }

  /** A neighbour listed is on the board, orthogonally adjacent and unvisited. */
  lemma UnvisitedNeighbourListed(g: Board, p: Coord, n: Coord)
    requires n in UnvisitedNeighbours(g, p)
    ensures n in g && Adjacent(p, n) && !g[n].visited
  {
    var s :| s in {Top, Right, Bottom, Left} && n in Across(g, p, s);
  }

  /** Every unvisited neighbour on the board is listed. */
  lemma UnvisitedNeighbourComplete(g: Board, p: Coord, b: Coord)
    requires b in g && Adjacent(p, b) && !g[b].visited
    ensures b in UnvisitedNeighbours(g, p)
  {
    var s := Facing(p, b);
    assert b in Across(g, p, s);
  }

  /** The sides through which the listed neighbours are seen strictly increase. */
  ghost predicate SidesIncrease(p: Coord, ns: seq<Coord>, k: nat)
  {
    (forall i :: 0 <= i < |ns| ==> Adjacent(p, ns[i]) && SideIndex(Facing(p, ns[i])) < k) &&
    (forall i, j :: 0 <= i < j < |ns| && Adjacent(p, ns[i]) && Adjacent(p, ns[j]) ==>
       SideIndex(Facing(p, ns[i])) < SideIndex(Facing(p, ns[j])))
  }

  lemma SidesIncreaseStep(g: Board, p: Coord, ns: seq<Coord>, s: Side)
    requires SidesIncrease(p, ns, SideIndex(s))
    ensures SidesIncrease(p, ns + Across(g, p, s), SideIndex(s) + 1)
  {
    if UnvisitedAcross(g, p, s) {
      var n := Neighbour(p, s);
      assert Facing(p, n) == s by { FacingInjective(p, n, Neighbour(p, Facing(p, n))); }
    } else {
      assert ns + Across(g, p, s) == ns;
    }
  }

  /**
   * The neighbour list holds exactly the unvisited orthogonal neighbours of
   * `p` that are on the board.
   */
  lemma UnvisitedNeighboursMembers(g: Board, p: Coord)
    ensures forall n :: n in UnvisitedNeighbours(g, p) <==> n in g && Adjacent(p, n) && !g[n].visited
  {
    forall n ensures n in UnvisitedNeighbours(g, p) <==> n in g && Adjacent(p, n) && !g[n].visited {
      if n in UnvisitedNeighbours(g, p) { UnvisitedNeighbourListed(g, p, n); }
      if n in g && Adjacent(p, n) && !g[n].visited { UnvisitedNeighbourComplete(g, p, n); }
    }
  }

  /** The neighbours are listed in the order up, right, down, left. */
  lemma UnvisitedNeighboursOrdered(g: Board, p: Coord)
    ensures var ns := UnvisitedNeighbours(g, p);
      forall i, j :: 0 <= i < j < |ns| ==> SideIndex(Facing(p, ns[i])) < SideIndex(Facing(p, ns[j]))
  {
    AcrossUpToIncreasing(g, p, 4);
    assert AcrossUpTo(g, p, 1) == Across(g, p, Top);
    assert AcrossUpTo(g, p, 2) == Across(g, p, Top) + Across(g, p, Right);
    assert AcrossUpTo(g, p, 3) == Across(g, p, Top) + Across(g, p, Right) + Across(g, p, Bottom);
    assert AcrossUpTo(g, p, 4) == UnvisitedNeighbours(g, p);
    SidesIncreaseOrdered(p, UnvisitedNeighbours(g, p), 4);
  }

  /** The side at position `k` of the order up, right, down, left. */
  function SideAt(k: nat): (s: Side)
    requires k < 4
    ensures SideIndex(s) == k
  {
    if k == 0 then Top else if k == 1 then Right else if k == 2 then Bottom else Left
  }

  /** The neighbours listed after looking through the first `k` sides. */
  function AcrossUpTo(g: Board, p: Coord, k: nat): seq<Coord>
    requires k <= 4
  {
    if k == 0 then [] else AcrossUpTo(g, p, k - 1) + Across(g, p, SideAt(k - 1))
  }

  lemma {:induction false} AcrossUpToIncreasing(g: Board, p: Coord, k: nat)
    requires k <= 4
    ensures SidesIncrease(p, AcrossUpTo(g, p, k), k)
  {
    if k > 0 {
      AcrossUpToIncreasing(g, p, k - 1);
      SidesIncreaseStep(g, p, AcrossUpTo(g, p, k - 1), SideAt(k - 1));
    }
  }

  lemma SidesIncreaseOrdered(p: Coord, ns: seq<Coord>, k: nat)
    requires SidesIncrease(p, ns, k)
    ensures forall i, j :: 0 <= i < j < |ns| ==> SideIndex(Facing(p, ns[i])) < SideIndex(Facing(p, ns[j]))
  {
    forall i, j | 0 <= i < j < |ns| ensures SideIndex(Facing(p, ns[i])) < SideIndex(Facing(p, ns[j])) {
      assert Adjacent(p, ns[i]) && Adjacent(p, ns[j]);
    }
  }

  /**
   * The backtracker's loop invariant over its board, stack and tree
   * witness: visited cells are exactly the tree's cells, the stack holds
   * only visited cells, and a visited cell off the stack has no unvisited
   * neighbour left.
   */
  ghost predicate DfsState(g: Board, stack: seq<Coord>, parent: map<Coord, Coord>, depth: map<Coord, nat>, start: Coord)
  {
    CarvedTree(g, parent, depth, start) && StackFrontier(g, stack, depth)
  }

  /** The walls are symmetric and the visited cells are the cells of the tree. */
  ghost predicate CarvedTree(g: Board, parent: map<Coord, Coord>, depth: map<Coord, nat>, start: Coord)
  {
    Symmetric(g) && start in depth && depth.Keys <= g.Keys &&
    (forall p :: p in g ==> (g[p].visited <==> p in depth)) &&
    parent.Keys == depth.Keys - {start} &&
    TreeLinks(g, parent, depth)
  }

  /** The stack holds visited cells, and every visited cell off it is finished. */
  ghost predicate StackFrontier(g: Board, stack: seq<Coord>, depth: map<Coord, nat>)
  {
    (forall i :: 0 <= i < |stack| ==> stack[i] in depth) &&
    (forall a, b :: a in depth && a !in stack && b in g && Adjacent(a, b) ==> b in depth)
  }

  /** A fresh board with only `start` marked visited, and `start` on the stack. */
  lemma DfsInit(g: Board, start: Coord)
    requires start in g
    requires forall p :: p in g ==> g[p] == if p == start then FreshCell.(visited := true) else FreshCell
    ensures DfsState(g, [start], map[], map[start := 0], start)
  {
  }

  /**
   * Carving from the top of the stack into a listed unvisited neighbour and
   * pushing it keeps the invariant and marks one more board cell visited.
   */
  lemma DfsPush(g: Board, stack: seq<Coord>, parent: map<Coord, Coord>, depth: map<Coord, nat>, start: Coord,
                current: Coord, next: Coord)
    requires DfsState(g, stack, parent, depth, start) && stack != [] && current == stack[|stack| - 1]
    requires next in UnvisitedNeighbours(g, current)
    ensures next in g && Adjacent(current, next)
    ensures DfsState(CarveTo(g, current, next), stack + [next], parent[next := current], depth[next := depth[current] + 1], start)
    ensures CarveTo(g, current, next).Keys - depth[next := depth[current] + 1].Keys < g.Keys - depth.Keys
  {
    UnvisitedNeighbourListed(g, current, next);
    assert current in depth && next !in depth;
    CarveExtendsCarvedTree(g, parent, depth, start, current, next);
    CarveKeepsVisited(g, current, next);
    PushKeepsFrontier(g, CarveTo(g, current, next), stack, depth, next, depth[current] + 1);
    assert next in g.Keys - depth.Keys;
  }

  lemma CarveExtendsCarvedTree(g: Board, parent: map<Coord, Coord>, depth: map<Coord, nat>, start: Coord,
                               current: Coord, next: Coord)
    requires CarvedTree(g, parent, depth, start)
    requires current in depth && next in g && next !in depth && Adjacent(current, next)
    ensures CarvedTree(CarveTo(g, current, next), parent[next := current], depth[next := depth[current] + 1], start)
  {
    var g', parent', depth' := CarveTo(g, current, next), parent[next := current], depth[next := depth[current] + 1];
    CarveKeepsSymmetry(g, current, next);
    CarveExtendsTree(g, current, next, parent, depth);
    CarveMarksTreeCells(g, depth, current, next, depth[current] + 1);
    assert parent'.Keys == depth'.Keys - {start};
  }

  /** After carving into `next`, the visited cells are the old tree's cells and `next`. */
  lemma CarveMarksTreeCells(g: Board, depth: map<Coord, nat>, current: Coord, next: Coord, d: nat)
    requires current in g && next in g && current != next
    requires forall p :: p in g ==> (g[p].visited <==> p in depth)
    ensures forall p :: p in CarveTo(g, current, next) ==> (CarveTo(g, current, next)[p].visited <==> p in depth[next := d])
  {
    var g' := CarveTo(g, current, next);
    CarveKeepsVisited(g, current, next);
    forall p | p in g' ensures g'[p].visited <==> p in depth[next := d] {
      if p != next { assert g'[p].visited == g[p].visited; }
    }
  }

  lemma PushKeepsFrontier(g: Board, g': Board, stack: seq<Coord>, depth: map<Coord, nat>, next: Coord, d: nat)
    requires StackFrontier(g, stack, depth) && g'.Keys == g.Keys
    ensures StackFrontier(g', stack + [next], depth[next := d])
  {
    var stack' := stack + [next];
    forall a | a in stack ensures a in stack' { }
  }

  /** Popping a stack top none of whose neighbours is unvisited. */
  lemma DfsPop(g: Board, stack: seq<Coord>, parent: map<Coord, Coord>, depth: map<Coord, nat>, start: Coord)
    requires DfsState(g, stack, parent, depth, start) && stack != []
    requires UnvisitedNeighbours(g, stack[|stack| - 1]) == []
    ensures DfsState(g, stack[..|stack| - 1], parent, depth, start)
  {
    forall b | b in g && Adjacent(stack[|stack| - 1], b) ensures g[b].visited {
      if !g[b].visited { UnvisitedNeighbourComplete(g, stack[|stack| - 1], b); }
    }
    var rest := stack[..|stack| - 1];
    assert stack == rest + [stack[|stack| - 1]];
    forall a | a in stack && a != stack[|stack| - 1] ensures a in rest { }
  }

  /**
   * With the stack empty, the visited cells are closed under adjacency, so
   * they are the whole grid and the tree spans it with rows * cols - 1 links.
   */
  lemma DfsDone(rows: nat, cols: nat, g: Board, parent: map<Coord, Coord>, depth: map<Coord, nat>, start: Coord)
    requires DfsState(g, [], parent, depth, start)
    requires forall p :: p in g <==> InGrid(rows, cols, p)
    ensures SpanningTree(g, parent, depth, start)
    ensures forall r, c :: 0 <= r < rows && 0 <= c < cols ==> (r, c) in g && g[(r, c)].visited
    ensures |parent| == rows * cols - 1
  {
    forall t | t in g ensures t in depth {
      ClosedRegionCoversGrid(rows, cols, depth.Keys, start, t);
    }
    forall r, c | 0 <= r < rows && 0 <= c < cols ensures (r, c) in g && g[(r, c)].visited {
      assert InGrid(rows, cols, (r, c));
    }
    AllCellsCount(rows, cols);
    assert g.Keys == AllCells(rows, cols);
    assert |parent.Keys| == |depth.Keys| - 1;
  }

  /** On a rows x cols board, the outer walls are the top of row 0, the bottom of the last row, and so on. */
  lemma OuterWallsOnGrid(rows: int, cols: int, g: Board)
    requires forall p :: p in g <==> InGrid(rows, cols, p)
    requires OuterWallsStanding(g)
    ensures forall r, c :: 0 <= r < rows && 0 <= c < cols ==>
      (r, c) in g &&
      (r == 0 ==> g[(r, c)].top) && (r == rows - 1 ==> g[(r, c)].bottom) &&
      (c == 0 ==> g[(r, c)].left) && (c == cols - 1 ==> g[(r, c)].right)
  {
    forall r, c | 0 <= r < rows && 0 <= c < cols
      ensures (r, c) in g && (r == 0 ==> g[(r, c)].top) && (r == rows - 1 ==> g[(r, c)].bottom) &&
        (c == 0 ==> g[(r, c)].left) && (c == cols - 1 ==> g[(r, c)].right)
    {
      var p := (r, c);
      assert p in g;
      assert Neighbour(p, Top) in g <==> r != 0;
      assert Neighbour(p, Bottom) in g <==> r != rows - 1;
      assert Neighbour(p, Left) in g <==> c != 0;
      assert Neighbour(p, Right) in g <==> c != cols - 1;
    }
  }
}
