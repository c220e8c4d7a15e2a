# Maze game: a Dafny model

`script.js` is a browser maze game. Its core is modelled here:

- **The maze.** A `rows x cols` grid of cells, each with four wall flags `[top, right, bottom, left]` and a `visited` mark. The grid is built with every wall standing. It is then carved once from cell (0, 0) by a randomized depth-first backtracker that works over an explicit stack.
- **The player.** A disc of radius `cellSize * 0.2` that slides through the corridors at `speed` 3.5 pixels per frame. Each frame moves along x first and then along y. A move on one axis is kept only when `isCollidingWithWalls` finds no collision at the new position.
- **Stars and door.** Three stars and an exit door are placed on distinct random cells away from the start cell. A star is collected when the player touches it. The door opens once every star is collected, and touching the open door wins.

The model has five modules:

- `Grid` (grid.dfy) holds coordinates, the cell record and orthogonal adjacency. It also holds the facts about the whole grid: it has `rows * cols` cells, a set of fewer cells leaves one free, and the grid is connected.
- `Carving` (carving.dfy) treats the walls as a value, a `Board` mapping coordinates to cells. It defines what `removeWalls` and marking a cell visited do to a board. It also defines the backtracker's loop invariant and proves each step keeps it.
- `Mazes` (maze.dfy) holds the class `Maze`, an `array2<Cell>` updated in place. Its members are `createMazeStructure`, `getUnvisitedNeighbors`, `removeWalls` and `generateMazeDFS`. Each method is proved against the board functions, and `generateMazeDFS` is proved to leave a perfect maze. In a perfect maze the open inner walls form a spanning tree of the grid: every cell but (0, 0) has exactly one parent link, and there are no other openings between cells. Every wall on the grid's outer edge stays standing.
- `Collision` (collision.dfy) models `isCollidingWithWalls` as a function of the maze and an exact real position. It proves two things:
  - a position off the board always collides;
  - a move along one axis, shorter than the disc's diameter, between two collision-free positions never crosses a standing wall ("no tunnelling"). A frame's move is two such axis moves, x first and then y.
- `Game` (game.dfy) holds the class `Game`, with the player's position, the stars and the door. Its methods are movement, placement, collection, the door check, one frame of the loop, and `setup()`. The class invariant `Game.Game.Valid` holds that:
  - the maze's walls are symmetric;
  - the player disc is clear of every wall;
  - the stars and the door sit on distinct cells other than (0, 0);
  - the door is open only when every star is collected.

  The constructor and `ResetAndPlace` establish this invariant, and the per-frame methods (movement, collection, the door check and `Tick`) keep it, so the player is never left embedded in a wall. `PlaceStars` and `PlaceDoor` are steps of `ResetAndPlace` and do not restate it.

A move of `radius + 1` pixels from a cell's centre towards a standing right wall is accepted whenever cells are at least 10 pixels wide, which the board sizing always gives. `isCollidingWithWalls` looks only at the new position, and there the disc reaches 0.9 of a cell plus one pixel, at most the cell's edge (`Collision.NudgeFromCentreIsFree`).

## Model

| member | source | states |
|---|---|---|
| Grid.Neighbour | script.js:124-139 | the cell looked at across each side is an orthogonal neighbour |
| Grid.Facing | script.js:144-165 | for neighbours `a`, `b`, the side of `a` that faces `b`; the neighbour across that side is `b` |
| Grid.FacingInjective | script.js:121-142 | two neighbours seen through the same side are the same cell |
| Grid.FacingOpposite | script.js:144-165 | neighbours see each other through opposite sides (left/right, top/bottom) |
| Grid.ClearFacing | script.js:144-165 | what `removeWalls` does to one of its two cells: the `visited` mark is kept, walls are only ever cleared, never raised, and a cell compared with itself is unchanged |
| Grid.ClearFacingAdjacent | script.js:144-165 | for orthogonal neighbours, `removeWalls`' column and row differences clear exactly the wall facing the other cell; the other three walls and `visited` are kept |
| Grid.RowCellsCount | script.js:84-86 | one row of the grid holds `cols` cells |
| Grid.AllCellsCount | script.js:81-88 | the grid laid out by `createMazeStructure` has exactly `rows * cols` cells |
| Grid.FreeCellExists | script.js:285-289 | while fewer cells are used than the grid holds, some in-grid cell is unused, so the rejection draw has a cell to find |
| Grid.ClosedRegionCoversGrid | script.js:93-119 | the grid is connected: a set holding one cell and closed under stepping to in-grid neighbours holds every cell |
| Carving.RemoveWallsBetween | script.js:144-165 | `removeWalls` on a board keeps the board's coordinates, and for orthogonal neighbours clears the wall of each cell that faces the other |
| Carving.CarveTo | script.js:112-115 | one carving step keeps the board's coordinates and leaves `next` visited |
| Carving.CarveKeepsOuterWalls | script.js:144-165 | carving between two cells of the board leaves every wall that faces off the board standing |
| Carving.OuterWallsOnGrid | script.js:124-139 | on a `rows x cols` board, the walls facing off the board are the top walls of row 0, the bottom walls of the last row, the left walls of column 0 and the right walls of the last column |
| Carving.CarveOpensOnlyShared | script.js:111-115 | carving between neighbours opens their shared wall from both sides; every other wall of every cell, and every other cell, stays as it was |
| Carving.CarveKeepsSymmetry | script.js:144-165 | carving keeps the two cells on either side of every inner wall in agreement |
| Carving.CarveKeepsWallAgreement | script.js:144-165 | after carving, any two neighbours still agree on their shared wall |
| Carving.CarveExtendsTree | script.js:107-116 | carving from a tree cell into an unvisited neighbour grows the tree by exactly the link from `next` to `current`; the open walls stay exactly the tree's links |
| Carving.CarveKeepsParentLinks | script.js:107-116 | after the carve, every parent link (old ones and the new one) joins neighbours, is strictly shallower and is open |
| Carving.CarveOpensOnlyLink | script.js:107-116 | after the carve, every open inner wall is a parent link one way or the other |
| Carving.CarveKeepsVisited | script.js:115 | carving marks `next` visited and leaves every other cell's mark unchanged |
| Carving.UnvisitedNeighbours | script.js:121-142 | `getUnvisitedNeighbors` on a board lists at most four cells; which cells and in what order is stated by the three lemmas below |
| Carving.UnvisitedNeighbourListed | script.js:121-142 | every listed neighbour is on the board, orthogonally adjacent and unvisited |
| Carving.UnvisitedNeighbourComplete | script.js:121-142 | every unvisited orthogonal neighbour on the board is listed |
| Carving.UnvisitedNeighboursMembers | script.js:121-142 | a cell is listed if and only if it is an unvisited orthogonal neighbour on the board |
| Carving.UnvisitedNeighboursOrdered | script.js:124-139 | the neighbours are listed in the order up, right, down, left, each side at most once |
| Carving.AcrossUpToIncreasing | script.js:124-139 | the list built after looking through the first `k` sides holds only neighbours seen through those sides, in increasing side order |
| Carving.DfsInit | script.js:94-97 | with only the start cell visited and on the stack, the backtracker's invariant holds |
| Carving.DfsPush | script.js:103-116 | carving from the stack top into a listed neighbour and pushing it keeps the invariant and strictly shrinks the set of unvisited cells |
| Carving.CarveExtendsCarvedTree | script.js:107-116 | carving into an unvisited neighbour keeps the walls symmetric, the visited cells equal to the tree's cells, and the tree links |
| Carving.CarveMarksTreeCells | script.js:112-115 | after carving into `next`, the visited cells are exactly the old tree's cells plus `next` |
| Carving.PushKeepsFrontier | script.js:105-116 | pushing the newly visited cell keeps every stacked cell visited and every finished cell without unvisited neighbours |
| Carving.DfsPop | script.js:99-103 | popping a top with no unvisited neighbour keeps the invariant |
| Carving.DfsDone | script.js:99-119 | once the stack is empty, every cell is visited and the open walls form a spanning tree with `rows * cols - 1` links |
| Mazes.Maze.Snapshot | script.js:64 | the board view of the array has exactly the grid's coordinates as keys, each mapped to its array cell |
| Mazes.Maze.constructor | script.js:70-88 | every cell of a fresh `rows x cols` array has all four walls and is not visited |
| Mazes.Maze.GetUnvisitedNeighbors | script.js:121-142 | the result is the list of unvisited in-grid neighbours in the order up, right, down, left |
| Mazes.Maze.RemoveWalls | script.js:144-165 | only the two cells change, each losing the wall its column and row differences point at; the board becomes `RemoveWallsBetween` of the old board |
| Mazes.Maze.MarkVisitedAt | script.js:115 | the board becomes the old board with that one cell marked visited |
| Mazes.Maze.Carve | script.js:112-115 | the board becomes the old board carved from `current` to `next` |
| Mazes.Maze.SharedWalls | script.js:144-165 | with symmetric walls, a cell's right wall is its right neighbour's left wall, and its bottom wall is the lower neighbour's top wall |
| Mazes.Maze.PushNeighbour | script.js:103-116 | with an unvisited neighbour `next` of the stack top: the stack becomes the old stack plus `next`, the board becomes the old board carved from the top to `next`, and the invariant and the outer walls are kept |
| Mazes.Maze.BacktrackStep | script.js:99-118 | one pass of the loop, with `top` the old stack's last cell: either `top` has no unvisited neighbour, the stack loses `top` and the board is unchanged, or for some listed unvisited neighbour `next` the stack becomes the old stack plus `next` and the board becomes the old board carved from `top` to `next`. The invariant and the outer walls are kept, and either one more cell is visited or the stack is shorter |
| Mazes.Maze.GenerateMazeDFS | script.js:93-119 | from a fresh grid, every cell ends visited, the walls are symmetric, every outer wall is standing, and the open inner walls form a spanning tree rooted at `start` with `rows * cols - 1` links |
| Collision.IsCollidingWithWalls | script.js:242-266 | a position found free of collisions lies in a grid cell |
| Collision.ClearOfWalls | script.js:242-266 | a position is free of collisions exactly when it lies in a grid cell and the disc stays within each standing wall of that cell, touching it at most |
| Collision.CellIndex | script.js:244-245 | `Math.floor(p / cellSize)`: the band `i` with `i * cellSize <= p < (i + 1) * cellSize` |
| Collision.CellIndexUnique | script.js:244-245 | that band is the only index satisfying those bounds |
| Collision.CellInGridIff | script.js:244-250 | the computed cell is in the grid if and only if the position lies on the board, `0 <= px < cols * cellSize` and `0 <= py < rows * cellSize` |
| Collision.BandInRange | script.js:244-250 | a band index lies in `0 .. n - 1` if and only if the position lies in `[0, n * cellSize)` |
| Collision.OffBoardCollides | script.js:247-250 | a position off the board collides whatever the walls |
| Collision.CentreIsFree | script.js:252-265 | a disc no wider than a cell, centred in an in-grid cell, collides with nothing |
| Collision.InsideCellIsFree | script.js:252-265 | a disc lying wholly inside an in-grid cell collides with none of that cell's walls, whichever are standing |
| Collision.NudgeFromCentreIsFree | script.js:252-265 | with cells of at least 10 pixels, a disc moved from a cell's centre by its radius plus one pixel towards the right wall does not collide |
| Collision.HorizontalCrossingIsOpen | script.js:242-266 | two collision-free positions at one height, less than a diameter apart and in different cells, are in side-by-side cells whose shared wall is open on both sides |
| Collision.VerticalCrossingIsOpen | script.js:242-266 | the same for positions one above the other: cells one above the other, with the wall between them open |
| Collision.HorizontalClearance | script.js:252-265 | the horizontal case stated for two discs that keep clear of their cells' standing walls |
| Collision.VerticalClearance | script.js:252-265 | the vertical case stated for two discs that keep clear of their cells' standing walls |
| Collision.SideStepIsOpen | script.js:224-229 | a move along x, shorter than the diameter, between collision-free positions, stays in its cell or crosses into a neighbour through an open wall |
| Collision.UpDownStepIsOpen | script.js:231-236 | the same for a move along y |
| Game.KeyDirection | script.js:207-213 | each component is in -1..1; it is 0 exactly when both or neither of the opposing keys are held, and +1 exactly when only right (or down) is held |
| Game.NormSquared | script.js:217-218 | `dx * dx + dy * dy` is 1 or 2 for any nonzero direction |
| Game.Touches | script.js:336-341 | `Math.hypot(px - cx, py - cy) < reach` on squares, as used for stars and, at script.js:364-368, for the door: a touch puts the player's centre within `reach` of the target's centre along each axis |
| Game.StepBound | script.js:217-222 | the per-axis step `speed / length` never exceeds `speed` |
| Game.StepWithinDiameter | script.js:217-222 | a step of at most 3.5 pixels moves a position by less than the disc's diameter when cells are at least 10 pixels |
| Game.StepsFit | script.js:217-222 | for any nonzero key direction, both axis moves of one frame are shorter than the disc's diameter, and the disc fits in a cell |
| Game.StartIsFree | script.js:492-494 | the centre of cell (0, 0) lies in cell (0, 0), and the player's disc there is clear of the walls |
| Game.NewMaze | script.js:486-490 | a fresh maze of the given size, carved from (0, 0) into a perfect maze with symmetric walls |
| Game.Setup | script.js:485-498 | the game starts valid: the player in cell (0, 0) clear of the walls, no star collected, the door closed |
| Game.Game.Valid | script.js:171-177 | the game's invariant: symmetric walls, the player disc clear of the walls, three stars and a door on distinct cells other than (0, 0), an open door only once every star is collected; it puts the player on a grid cell |
| Game.Game.constructor | script.js:171-177 | the player at the centre of (0, 0) with radius `cellSize * 0.2`, three uncollected stars and a closed door, all placed apart; the invariant holds |
| Game.Game.ResetAndPlace | script.js:492-498 | the player back at the centre of (0, 0); stars then door placed; the invariant holds |
| Game.Game.PlaceStars | script.js:277-296 | every star gets an in-grid cell other than the player's cell and every earlier star's, and is not collected; the player and the door are untouched |
| Game.Game.PlaceDoor | script.js:307-328 | the door gets an in-grid cell other than the player's and every star's, and is closed; everything else is untouched |
| Game.Game.UpdatePlayerMovement | script.js:206-237 | with no direction, nothing moves. Otherwise x moves to `x + dx * step` unless that collides, then y likewise from the new x. The invariant holds, and each axis move changes the player's cell only into a neighbour across an open wall |
| Game.Game.MoveBy | script.js:224-236 | the two axis moves of one frame, in order x then y, with the same guarantees |
| Game.Game.MoveX | script.js:224-229 | x becomes `newX` exactly when the disc would not collide there, else stays; y, stars and door unchanged; no standing wall crossed |
| Game.Game.MoveY | script.js:231-236 | the same for y, from the current x |
| Game.Game.CheckStarsCollection | script.js:333-347 | each star ends collected exactly when it already was or the player touches it within `radius + cellSize * 0.2`; stars stay on their cells; nothing else changes |
| Game.Game.CheckDoor | script.js:361-383 | the door ends open exactly when it was open or every star is collected. The result is a win exactly when the door was already open and the player touches it within `radius + cellSize * 0.25`; a win implies every star is collected |
| Game.Game.Tick | script.js:388-398 | one frame keeps the invariant. The player moves as in `updatePlayerMovement`, x then y, crossing only open walls. Each star ends collected exactly when it was or the player touches it at the new position, and stars stay on their cells. The door stays where it is and ends open exactly when it was open or every star is collected. The frame is won exactly when the door was open at its start and the player touches it; a win means every star is collected and the door is open |

## Left out

- The board sizing (script.js:5-42) picks random `rows` and `cols` in 10..20 and a `cellSize` fitted to the window. The model takes `rows`, `cols` and `cellSize` as parameters. `Game.Setup` requires `10 <= cellSize` (the sizing's lower bound) and `5 <= rows * cols`. The source's guarantee of at least 100 cells ensures the latter.
- Randomness (`Math.random` at script.js:18-20, 108, 286-287 and 320-321) becomes a nondeterministic choice. The backtracker picks any index into the neighbour list. Each rejection loop (script.js:285-289, 319-323) becomes a choice of any unused in-grid cell, which is every outcome the loop can end with.
- The square root at script.js:217-222 is not computed. The per-axis step comes in as a parameter `step`, constrained by `step * step * (dx * dx + dy * dy) == speed * speed`.
- `Math.hypot(...) < reach` (script.js:338, 341, 366, 368) is compared on squares, exactly. Positions and divisions are exact reals; JavaScript floating-point rounding is not modelled.
- The DOM, canvas and drawing are not part of this model: script.js:44-59, 349-356 and the renderer up to line 480, including the cosmetic `colorHue`. This includes `updateStarUI` and the win and door messages.
- The key handlers (script.js:182-201) and listener registration (script.js:500-502) are not modelled. A frame takes the held keys as a `Keys` value.
- Frame scheduling is not modelled: `requestAnimationFrame`, `cancelAnimationFrame`, `setTimeout` and `location.reload` (script.js:371-374, 399-400, 504-505). `Game.Game.CheckDoor` and `Game.Game.Tick` return the win as a result. In the source, `cancelAnimationFrame(animRequest)` at script.js:371 cancels the handle of the frame that is already running, that frame then requests the next one at script.js:400, and play goes on until the page reloads two seconds later. The model leaves the frames after a win to the caller.
- The generator's stack holds coordinates rather than `Cell` object references. Stars and the door are values whose fields the methods reassign. The `usedCells` sets of `"r-c"` string keys are sets of coordinates.
- `Game.Setup` does not restate the spanning-tree result. `Game.NewMaze`, which builds the maze it uses, states it.

