# Sliding puzzle: a verified model of the game's puzzle logic

The game is a browser sliding-tile puzzle. A board of `w` by `h` cells holds
the numbers `1 .. w*h-1` and one empty cell. Clicking a tile next to the empty
cell slides it in. The player wins when the tiles read `1, 2, ...` in
row-major order and the empty cell is in the bottom-right corner.

The repository holds the same logic twice:

- `states/game.js` passes a `puzzle` object (a board of rows plus the
  coordinate of the empty tile) to every function.
- `game.js` keeps that object in one module-level variable.

This project models both files:

- `Coordinates` (`coordinates.dfy`): the pure coordinate helpers, that is,
  neighbour and equality tests and the four direction getters.
- `RandomDraws` (`random_draws.dfy`): the values `Math.random()` may return,
  as exact fractions in `[0, 1)`, and `Math.floor(r * n)` on them.
- `Boards` (`boards.dfy`): the board as a value (a sequence of rows) and the
  pure functions that specify what the puzzle does to it. These are the
  single-cell write, the swap, the numbered start board, the candidate
  search and the solved layout. The board's properties are proved here as
  lemmas.
- `Puzzles` (`puzzles.dfy`): the `puzzle` object of `states/game.js`, as a
  class `Puzzle` whose fields `board` and `emptyTile` are updated in place.
  It has the source's loops (the nested fill in `createPuzzle`, the
  candidate loop, the scramble loop, the win scan with an early exit), and
  every method is proved against the functions of `Boards`.
- `GlobalPuzzle` (`global_puzzle.dfy`): the module-level variable of
  `game.js`, as a class `Game` whose field `puzzle` is null until the first
  `createPuzzle` and is then replaced by a fresh puzzle. Its other
  operations act on that puzzle.

The main results:

- Every swap moves the empty tile to a neighbouring cell. That flips the
  colour (`x + y` even or odd) of the empty cell. The scramble always does an
  odd number of swaps, so the empty tile never ends where it started, the
  bottom-right corner. Together with the tile invariant, this means a freshly
  created puzzle is never already solved.
- From creation on, the cells other than the empty one hold each of
  `1 .. w*h-1` exactly once. After the first swap the empty cell holds 0, and
  the board holds each of `0 .. w*h-1` exactly once.
- The candidate search returns exactly the in-bounds neighbours of the empty
  tile, in the order left, right, top, bottom. There is one candidate for
  each side of the empty tile that is not on the border.
- The scramble's result is pinned: it is the layout reached by exactly the
  odd swap count's worth of random legal swaps, one per draw
  (`Boards.Scramble`).
- A swap changes exactly two cells. Swapping back restores the board once the
  empty cell holds 0, but not before the first swap.
- The win test succeeds iff every cell holds `row*w + col + 1`, except the
  last cell, which must hold 0.

Three details of the code are easy to get wrong. The model follows the
code:

- The freshly numbered board has `w*h` in the empty cell, not 0. So the
  "empty cell holds 0" invariant only holds after the first swap.
  `Boards.InitialNotSolved` records that the win test rejects the fresh board
  for that reason.
- On a board one cell wide, a corner has a single candidate, not two. The
  "two in a corner, three on an edge, four inside" count holds only on boards
  at least 2 by 2 (`Boards.CornerEdgeInterior`). The general count is
  `Boards.CandidateCount`.
- A move is never checked against the board's bounds. The only bounds test
  is the candidate search's.

## Model

| member | source | states |
|---|---|---|
| Coordinates.AreNeighbours | states/game.js:35-42 | true exactly when the Manhattan distance between the two coordinates is 1 |
| Coordinates.AreEqual | states/game.js:44-46 | the field-wise comparison is true exactly when the two coordinates are the same value |
| Coordinates.NeighboursSymmetric | game.js:37-44 | being neighbours does not depend on the order of the two coordinates |
| Coordinates.NeighboursIrreflexive | states/game.js:35-42 | no coordinate is its own neighbour |
| Coordinates.DiagonalsAreNotNeighbours | game.js:37-44 | a step of one unit on both axes never reaches a neighbour |
| Coordinates.NeighboursAreAdjacent | states/game.js:48-62 | the neighbours of a cell are exactly the four cells the direction getters return, and those four are pairwise distinct |
| Coordinates.OppositeDirectionsCancel | game.js:50-64 | left undoes right and top undoes bottom, in either order |
| Coordinates.NeighbourFlipsParity | states/game.js:146-148 | moving to a neighbour always changes whether x + y is even |
| RandomDraws.FloorTimes | states/game.js:160 | Math.floor(r * n) is the largest k with k <= r * n, and for n > 0 it is a valid index below n |
| Boards.HasIffInBounds | states/game.js:123-126 | on a w by h board, the bounds test holds exactly for the coordinates that name a cell |
| Boards.SetCells | states/game.js:110-112 | a cell write keeps the board's shape, changes the written cell to the new value and leaves every other cell unchanged |
| Boards.SwapCells | states/game.js:164-167 | after a swap, the moved tile's cell holds 0 and the old empty cell holds the moved tile. The shape is kept and no third cell changes |
| Boards.SwapRoundTrip | states/game.js:164-167 | when the empty cell holds 0, swapping with a tile and then swapping back restores the board |
| Boards.SwapBackClearsNonZeroGap | states/game.js:81-87 | when the empty cell does not hold 0 (the fresh board), swapping back does not restore the board |
| Boards.ValuesAfterSet | states/game.js:110-112 | a cell write replaces one occurrence of the old value by the new value in the board's multiset of values |
| Boards.ValuesAfterSwap | game.js:165-168 | a swap with another cell replaces the empty cell's old value by 0 in the board's multiset of values |
| Boards.SwapAfterFirstKeepsValues | game.js:165-168 | once the empty cell holds 0, a swap keeps the board's multiset of values |
| Boards.SwapKeepsTiles | states/game.js:164-167 | a swap with another cell keeps the multiset of tiles outside the empty cell, so no tile is created, lost or duplicated |
| Boards.NeighbourSwap | states/game.js:156-167 | a swap with a neighbour puts the 0 on the moved tile's cell, changes the empty cell's colour and keeps the tiles outside the empty cell |
| Boards.TilesWithZeroGap | game.js:84-95 | if the empty cell holds 0 and the other tiles are 1 .. n-1, the board holds each of 0 .. n-1 exactly once, and every other cell holds a value in 1 .. n-1 |
| Boards.GetAmongOthers | states/game.js:106-108 | the value of any cell other than the empty one is among the tiles outside the empty cell |
| Boards.GetInValues | states/game.js:106-108 | the value read at any cell is among the board's values |
| Boards.RowCells | states/game.js:80-83 | one filled row of width w starting at s has w cells, holds s + c at column c, and holds each of s .. s+w-1 once |
| Boards.InitialGridCells | states/game.js:76-84 | the fill loops build h rows of w cells with row*w + col + 1 at (col, row) |
| Boards.InitialValues | game.js:78-86 | the numbered board holds each of 1 .. w*h exactly once |
| Boards.InitialTiles | states/game.js:76-87 | on the numbered board, the bottom-right cell holds w*h and the other cells hold each of 1 .. w*h-1 exactly once |
| Boards.KeepInBoundsMembers | states/game.js:134-140 | the filter keeps exactly the in-bounds members of its input |
| Boards.CandidatesAreLegalMoves | game.js:129-142 | the candidates are exactly the in-bounds neighbours of the empty tile. None is out of bounds and no in-bounds neighbour is dropped |
| Boards.CandidateCount | states/game.js:128-141 | the number of candidates is one for each side of the empty tile that is not on the border |
| Boards.CornerEdgeInterior | states/game.js:128-141 | on a board at least 2 by 2, there are two candidates in a corner, three on an edge and four inside |
| Boards.CandidatesNonEmpty | states/game.js:157-161 | unless the board is a single cell, there is at least one candidate, so the random choice picks a real cell |
| Boards.ScrambleLast | states/game.js:156-162 | the last draw of a scramble moves a neighbour of the gap the earlier draws left into that gap, and the board is that swap of the earlier board |
| Boards.ScrambleKeepsTiles | states/game.js:150-152 | whatever the draws, a scramble keeps the tiles outside the gap, and after at least one swap the gap holds 0 |
| Boards.ScrambleColour | states/game.js:146-152 | after a scramble the gap's colour differs from the start's exactly when the number of swaps is odd |
| Boards.LastCellOnly | states/game.js:183-188 | inside the board, row*w + col + 1 equals w*h only at the bottom-right cell |
| Boards.SolvedLayout | states/game.js:178-200 | a board is solved exactly when its last cell is 0 and every other cell holds row*w + col + 1 |
| Boards.MisplacedGapNotSolved | states/game.js:146-148 | a board whose 0 sits anywhere but the bottom-right cell is not solved |
| Boards.InitialNotSolved | states/game.js:178-200 | the freshly numbered board is not solved, because its last cell holds w*h instead of 0 |
| Puzzles.SwapCount | states/game.js:144-148 | the number of scramble swaps is odd, at least 1, and at most 100*w*h |
| Puzzles.Puzzle.Height | states/game.js:97-99 | the height is the number of rows, and every cell's row index is below it |
| Puzzles.Puzzle.Width | states/game.js:101-103 | on a valid puzzle, every row has the width that row 0 has |
| Puzzles.Puzzle.ValueAt | states/game.js:106-108 | the value read at a cell is one of the board's values |
| Puzzles.Puzzle.constructor | states/game.js:73-92 | the fill loops give h rows of w cells holding row*w + col + 1, the empty tile at the bottom right, and the other cells holding 1 .. w*h-1 once each |
| Puzzles.Puzzle.SetValueAt | states/game.js:110-112 | the board becomes the old board with that one cell written. The empty tile and the shape are kept |
| Puzzles.Puzzle.SetEmptyCoord | states/game.js:114-117 | the cell is cleared to 0 and becomes the empty tile |
| Puzzles.Puzzle.IsSwappable | states/game.js:119-121 | true exactly when the clicked coordinate is one of the four cells next to the empty tile, in bounds or not |
| Puzzles.Puzzle.IsWithinBounds | states/game.js:123-126 | true exactly when the coordinate names a cell of the board |
| Puzzles.Puzzle.FindSwapCandidates | states/game.js:128-141 | returns the in-bounds cells among left, right, top and bottom, in that order. A cell is in the result iff it is in bounds and swappable, and the result is non-empty unless the board is one cell |
| Puzzles.Puzzle.SwapWithEmpty | states/game.js:164-167 | the empty cell receives the moved tile, the moved tile's cell becomes 0 and the empty tile, and every other cell stays unchanged |
| Puzzles.Puzzle.PerformRandomSwap | states/game.js:156-162 | the empty tile moves to the candidate the draw picks, which is a neighbour. The empty cell's colour flips, the new empty cell holds 0 and the other tiles are kept |
| Puzzles.Puzzle.ScramblePuzzle | states/game.js:143-154 | the new board and empty tile are those reached by exactly SwapCount(countDraw) random swaps, the k-th chosen by the k-th draw. So the empty cell has the other colour, holds 0, and the tiles outside it are unchanged |
| Puzzles.Puzzle.CreatePuzzle | states/game.js:73-95 | the new puzzle is the numbered board with the gap at the bottom right, scrambled by the given draws. It has the requested size and holds each of 0 .. w*h-1 once with 0 at the empty tile. The empty tile is off the bottom-right cell, and the board is not solved |
| Puzzles.Puzzle.TileClicked | states/game.js:170-176 | a click next to the empty tile swaps that tile in, and any other click changes nothing. The result is true iff the click moved a tile and the board is then solved |
| Puzzles.Puzzle.CheckGameWon | states/game.js:178-200 | the row-major scan with early exit returns true (gameWon is reached) exactly when the board is solved |
| GlobalPuzzle.Game.constructor | game.js:6 | the global puzzle is undefined (null) until the first createPuzzle |
| GlobalPuzzle.Game.CreatePuzzle | game.js:75-96 | the global is replaced by a fresh puzzle: the numbered board scrambled by the given draws, of the requested size, holding each of 0 .. w*h-1 once. Its 0 is off the bottom-right cell, and it is not solved |
| GlobalPuzzle.Game.Height | game.js:98-100 | the global puzzle's row count bounds every cell's row index |
| GlobalPuzzle.Game.Width | game.js:102-104 | every row of the global puzzle has this width |
| GlobalPuzzle.Game.ValueAt | game.js:107-109 | the value read at a cell is one of the global board's values |
| GlobalPuzzle.Game.SetValueAt | game.js:111-113 | the global board becomes the old board with that one cell written, and the empty tile is kept |
| GlobalPuzzle.Game.SetEmptyCoord | game.js:115-118 | the cell is cleared to 0 and becomes the global puzzle's empty tile |
| GlobalPuzzle.Game.IsSwappable | game.js:120-122 | true exactly when the clicked cell is at Manhattan distance 1 from the empty tile |
| GlobalPuzzle.Game.IsWithinBounds | game.js:124-127 | true exactly when the coordinate names a cell of the global board |
| GlobalPuzzle.Game.FindSwapCandidates | game.js:129-142 | returns exactly the in-bounds neighbours of the empty tile, in the order left, right, top, bottom |
| GlobalPuzzle.Game.SwapWithEmpty | game.js:165-168 | the global board is swapped as specified, and the tiles outside the empty cell are kept |
| GlobalPuzzle.Game.PerformRandomSwap | game.js:157-163 | the empty tile moves to the candidate the draw picks |
| GlobalPuzzle.Game.ScramblePuzzle | game.js:144-155 | the global board and empty tile become those reached by exactly SwapCount(countDraw) random swaps, one per draw in order. The empty cell has the other colour, holds 0, and the other tiles are unchanged |
| GlobalPuzzle.Game.TileClicked | game.js:171-177 | the click swaps iff the clicked cell neighbours the empty tile, and otherwise nothing changes. The result is true iff a tile moved and the board is solved |
| GlobalPuzzle.Game.CheckGameWon | game.js:179-201 | true exactly when the last cell is 0 and every other cell holds row*w + col + 1. Any differing cell gives false |

## Left out

- Browser wiring: `newGameHandler`, `pageLoadHandler`, `getElementById` and `addEventListener` are I/O.
- Rendering: `drawPuzzle`, `generateRowHtml`, `generateTileHtml`, `addCellListeners`, and the `alert` in `gameWon`. In game.js these only draw the board and change no puzzle state: each listener is a closure that runs `tileClickedHandler` on a later click (game.js:260-266).
- The listener at states/game.js:259-263 is different: it calls `tileClickedHandler` at once, for every cell, while the board is drawn. So in states/game.js every draw swaps the tile next to the gap into it (states/game.js:172) and redraws (states/game.js:173), re-entering `addCellListeners` with no bound. The model does not capture this draw-time mutation or the recursion.
- Puzzles.Puzzle.TileClicked and GlobalPuzzle.Game.TileClicked: they keep `tileClickedHandler`'s move and win logic without the `drawPuzzle` call. That is a choice of scope, not a claim that the redraw has no effect (see the line above).
- `Math.random()` and `Math.floor`: each random value is a parameter, an exact fraction in `[0, 1)`. Floating-point rounding and the distribution of the draws (uniformity, reachability of every board) are not modelled.
- In-place row arrays: the board is a sequence of rows in a field, reassigned on every write. Aliasing between rows, and the other references a caller may keep, are not modelled.
- Puzzles.Puzzle.constructor: the source has no error path for bad sizes and simply misbehaves. The model requires a width and a height of at least 1.
- Puzzles.Puzzle.ScramblePuzzle: the source picks `candidates[choice]` from an empty list on a 1 by 1 board. The model requires `w*h >= 2`, and enough draws for every swap. The same `w*h >= 2` requirement, for the same reason, applies to Puzzles.Puzzle.PerformRandomSwap, GlobalPuzzle.Game.PerformRandomSwap, GlobalPuzzle.Game.ScramblePuzzle and the reference function Boards.Scramble.
- Puzzles.Puzzle.CreatePuzzle and GlobalPuzzle.Game.CreatePuzzle: require `w*h >= 2`, for the same reason as the scramble.
- Puzzles.Puzzle.TileClicked and GlobalPuzzle.Game.TileClicked: `isSwappable` does not check bounds, and clicks come only from drawn cells. The model requires the clicked cell to be on the board.
- GlobalPuzzle.Game: every member other than the constructor and `CreatePuzzle` requires a created puzzle (`Valid()`). In game.js, calling them before `createPuzzle` throws a TypeError on the undefined `puzzle`, and the model does not capture that error.
- Puzzles.Puzzle.IsSwappable: the source compares the boolean result with `== 1`. The model treats that as a plain truth test.
- Puzzles.Puzzle.CheckGameWon: on a win the source calls `gameWon()` and returns `undefined`. The model returns true.
- GlobalPuzzle.Game.PerformRandomSwap: states the chosen candidate and the new board, and leaves the colour flip and the tile invariant to `Puzzles.Puzzle.PerformRandomSwap`, which proves them. `GlobalPuzzle.Game.ScramblePuzzle` gets them from `Boards.ScrambleKeepsTiles` and `Boards.ScrambleColour`.
- The direction getters (`getLeftCoordinate` and the other three) are plain constructors. Their properties are stated by `Coordinates.NeighboursAreAdjacent` and `Coordinates.OppositeDirectionsCancel`.
