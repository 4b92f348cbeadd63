# Mineswiffer board engine, modelled in Dafny

This project models the engine of Mineswiffer, a Minesweeper variant with
radar tiles. The engine has two parts:

- `DFS` (`dfs.dfy`) holds the grid search. `getNeighbors` returns the
  in-bounds 8-neighbourhood of a cell. `dfs` and its wrapper `cave` do a
  recursive depth-first flood fill. It collects the 8-connected region of
  cells holding one value that contains a start cell.
- `Board` (`board_manager.dfy`) holds `BoardManager`. It keeps the grids
  `board` (0 empty, 1 bomb, 2 radar), `discovered`, `flags`, `bombHints`
  and `powerHints`, and it has these operations:
  - the constructor, which places tiles at random and computes hints;
  - `createHints`;
  - `randomFill`;
  - `stepOnTile`, which reveals a tile, game-over or a flood;
  - `flagTile`;
  - `gameOver`;
  - the getters `isDiscovered`, `getTile` and `getHint`.

The Java grids are rectangular `int[w][h]` arrays, so the model uses
`array2`. Each array field is allocated once and never reassigned, so each is
a `const` of the class. The methods that change a grid name it in `modifies`.

A hint is defined independently of the loops that compute it.
`HintAt(board, c, v)` is 0 when `c` holds `v`. Otherwise it is the number of
cells adjacent to `c` that hold `v`. The class invariant `Valid()` says:

- both hint grids equal `HintAt` at every cell;
- every tile is 0, 1 or 2, and the top-left tile is empty;
- every discovered cell with bomb hint 0 has all its neighbours discovered
  ("flood closure");
- either the whole board is discovered or no bomb is.

The constructor establishes `Valid()`, and every state-changing operation
preserves it.

src/BoardManager.java differs from what src/Game.java expects of it: Game.java
uses a five-argument constructor, rockets, flag and discovery counters,
`clickedYet` and `won`. The model follows BoardManager.java:

- the constructor takes only `(w, h)` and always places 40 bombs and then
  40 / 4 radars;
- radars may overwrite bombs, and the top-left tile is cleared after
  placement;
- tiles are placed in the constructor, not at the first click;
- `stepOnTile` does not consult flags;
- there are no rockets, win check or counters.

## Model

| member | source | states |
|---|---|---|
| DFS.Neighbors | src/DFS.java:76-87 | the neighbour list of a cell has at most 8 cells, all on the grid |
| DFS.NeighborsAreAdjacent | src/DFS.java:79-87 | the neighbour list has no repetition, and a cell is in it exactly when it is on the grid and adjacent to the centre (both directions) |
| DFS.CornerHasThreeNeighbors | src/DFS.java:61-76 | on a grid of at least 2 x 2, the corner (0, 0) has exactly the three neighbours (0, 1), (1, 0), (1, 1), in that order |
| DFS.InteriorHasEightNeighbors | src/DFS.java:76-87 | an interior cell has eight neighbours, the first (x-1, y-1) and the last (x+1, y+1) |
| DFS.GetNeighbors | src/DFS.java:76-95 | the nested offset loops produce exactly the neighbour list, which holds precisely the on-grid cells adjacent to (x, y) |
| DFS.DirectionTo | src/DFS.java:48-52 | every adjacent cell is reached by one of the eight direction offsets dfs recurses on |
| DFS.DirectionIsAdjacent | src/DFS.java:48-57 | each direction offset leads to an adjacent cell |
| DFS.Dfs | src/DFS.java:38-59 | dfs returns at once when the cell is off the grid, visited, or holds another value. Otherwise it appends the cell first. What it appends is exactly what it newly marks visited. Those cells held value, were unvisited, have no repetition, and each touches an earlier one. On return, every matching neighbour of an appended cell is visited |
| DFS.DfsNeighbor | src/DFS.java:54-58 | one turn of dfs's direction loop keeps those properties of the result so far, and leaves that direction's matching neighbour visited |
| DFS.GrownAppend | src/DFS.java:45-58 | a recursive call's appended cells, joined after the cell being visited, remain distinct, matching and linked |
| DFS.ClosedInAppend | src/DFS.java:54-58 | neighbour-closure of appended cells is kept when more cells are appended and the visited set grows |
| DFS.Cave | src/DFS.java:20-25 | cave returns the maximal 8-connected region of cells holding value that contains the start, starting with the start cell, without repetition; empty when the start is off the grid or holds another value |
| DFS.CaveIsLeast | src/DFS.java:20-25 | a cave lies inside every set that holds the matching start and is closed under matching neighbours |
| DFS.CaveIsUnique | src/DFS.java:20-25 | two caves from the same start hold the same cells |
| Board.CountIn | src/BoardManager.java:118-123 | counting the cells of a list that hold value gives at most the list's length |
| Board.CountInIsCardinality | src/BoardManager.java:118-123 | over a list without repetition, the count equals the size of the set of listed cells holding value |
| Board.CountingFindsAdjacent | src/BoardManager.java:117-123 | counting along getNeighbors' list gives the number of adjacent on-grid cells holding value |
| Board.HintAt | src/BoardManager.java:111-128 | a hint lies between 0 and 8 |
| Board.ZeroHintHasNoBombNeighbor | src/BoardManager.java:45-48 | a non-bomb cell with bomb hint 0 has no bomb among its neighbours |
| Board.CoveredZeroIsInCave | src/BoardManager.java:48-54 | a zero-hint cell that is in a cave or next to one belongs to that cave |
| Board.CaveIsSafe | src/BoardManager.java:47-54 | no cell that the zero branch of stepOnTile reveals (a cave cell or a neighbour of one) is a bomb |
| Board.CaveCellIsSafe | src/BoardManager.java:47-48 | every cell of a zero cave that starts at a non-bomb cell is a non-bomb cell |
| Board.NoneHolding | src/BoardManager.java:74-80 | on a board where no cell holds val, all w * h cells are free for randomFill to draw (through the helper lemma `RectSize`: a rows x cols grid has rows * cols cells) |
| Board.BoardManager.constructor | src/BoardManager.java:95-109 | the new engine is w x h, has bombCount 40 and fresh grids, has nothing discovered and no flag, and satisfies the engine invariant (hint grids match the board; tile values; empty top-left tile) |
| Board.BoardManager.NothingDiscoveredIsValid | src/BoardManager.java:95-109 | a well-formed board with nothing discovered satisfies the engine invariant |
| Board.BoardManager.PlaceTiles | src/BoardManager.java:100-104 | the board after the two fills and the clear is a fresh w x h grid of tile values 0, 1, 2 whose top-left tile is empty |
| Board.BoardManager.RandomFill | src/BoardManager.java:74-84 | randomFill puts val on exactly max(count, 0) further cells. No cell loses val, and every changed cell now holds val |
| Board.BoardManager.CreateHints | src/BoardManager.java:111-128 | createHints returns a fresh grid of the board's shape holding HintAt at every cell: 0 on cells holding value, else the number of adjacent cells holding it |
| Board.BoardManager.CountNeighbors | src/BoardManager.java:117-124 | the inner counting loop yields the number of adjacent cells holding value, which is the hint of a cell not holding value |
| Board.BoardManager.IsDiscovered | src/BoardManager.java:25-27 | a discovered bomb means the whole board is discovered. A discovered cell with bomb hint 0 has all its neighbours discovered |
| Board.BoardManager.GetTile | src/BoardManager.java:29-31 | a tile is 0, 1 or 2, and the top-left tile is empty |
| Board.BoardManager.GetHint | src/BoardManager.java:33-39 | getHint succeeds exactly for val 1 or 2, giving that cell's hint (0..8), and is an illegal argument otherwise |
| Board.BoardManager.GameOver | src/BoardManager.java:86-93 | gameOver discovers every cell and keeps the engine invariant |
| Board.BoardManager.StepOnTile | src/BoardManager.java:41-58 | keeps the invariant. A discovered cell changes nothing. Otherwise the cell becomes discovered and discovery only grows. A bomb reveals the whole board. A non-bomb with a nonzero hint reveals only itself, and no bomb is then discovered. A zero-hint cell reveals exactly its zero cave and the cave's neighbours |
| Board.BoardManager.FloodReveal | src/BoardManager.java:47-54 | the zero branch reveals exactly the cave and its neighbours, reveals no bomb, and restores flood closure |
| Board.BoardManager.RevealCave | src/BoardManager.java:49-54 | the loop over the cave discovers exactly the cells that are in the cave or next to a cave cell, and nothing else changes |
| Board.BoardManager.RevealAround | src/BoardManager.java:50-53 | one loop turn discovers exactly the cave cell and its neighbours |
| Board.BoardManager.FlagTile | src/BoardManager.java:60-72 | a discovered cell's flag is unchanged. Otherwise the flag toggles between 0 and 1. No other flag changes, and the invariant is kept |

## Left out

- `flags` is never allocated in the Java constructor. There, `flagTile` on an
  undiscovered cell fails with a null dereference. The model allocates a w x h
  grid of zeros so that `flagTile` has something to toggle.
- The `Math.random` draws in `randomFill` are a nondeterministic choice of any
  cell not holding val. Their distribution is not modelled. `randomFill`
  requires at least `count` such cells, since otherwise the Java retry loop
  never ends. The constructor therefore requires `w * h >= 40`.
- Board.BoardManager.constructor: does not state how many bombs and radars the
  finished board holds. A radar may overwrite a bomb and the top-left tile is
  cleared afterwards, so the counts are not simply 40 and 10. `RandomFill`
  states the count added by each fill.
- Board.BoardManager.PlaceTiles: does not state the tile counts either, for
  the same reason.
- `getNeighbors` builds an `ArrayList` and copies it into an `int[][]`. The
  model returns the list as a sequence of cells, so the copy loop is not
  modelled.
- Some loop bodies and branches are separate methods with their own contracts:
  - `DfsNeighbor` is one turn of dfs's direction loop;
  - `CountNeighbors` is createHints' counting loop;
  - `FloodReveal`, `RevealCave` and `RevealAround` are stepOnTile's zero branch;
  - `PlaceTiles` is the constructor's placement.
- Java lets grids be ragged or empty. The model's grids are rectangular, and
  `cave` and `createHints` require at least one row, as `hints[0]` and
  `board[0]` do.
- The layout fields of `BoardManager` (`boardX`, `boardW`, `boardY`,
  `boardH`, `gap`) and its image import are presentation data.
- src/Game.java and src/LeviSlider.java are not part of this model. They are
  the window, input and slider code. Game.java also calls engine members that
  src/BoardManager.java does not define:
  - a five-argument constructor;
  - rockets;
  - flag and discovery counters.
- The unused `board` parameter of `cave` and `dfs` is kept but never read,
  as in the source.
