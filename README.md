# Sliding puzzle engine

A model of the game state behind `script/main.js`, a browser sliding puzzle.
The board is 3x3. Eight picture tiles are labelled `1 2 4 5 6 7 8 9`, and the
label `3` marks the empty cell. A new game does three things:

- it shuffles the eight labels with Fisher–Yates;
- it lays them out row by row with the empty cell last, at (2, 2);
- it resets the move counter.

A click on a tile moves it only when the tile is next to the empty cell, meaning
at Manhattan distance 1. An accepted click swaps the tile and the empty cell,
counts the turn and checks the board against the solved arrangement.

The project has three modules:

- `Shuffle` (`shuffle.dfy`) holds the shuffle.
  - `FisherYates` is a reference function on sequences.
  - `ShuffleArray` is the in-place loop on an `array`, proved equal to that function and a permutation.
- `Board` (`board.dfy`) treats the board as a value (`Grid`, a 3x3 `seq<seq<string>>`).
  - It lays out the nine labels in row-major order.
  - It defines the board invariant `ValidGrid`: every label once and the empty tile once.
  - It has the row-major scan for the empty cell, `FindEmpty`.
  - It has the click transition `Click` on a `State` (the grid plus `turns`).
  - It holds the lemmas about these.
- `Game` (`game.dfy`) is the page's mutable state.
  - Class `Puzzle` has a 3x3 `array2<string>` field, `board`, and a `turns` field.
  - Its methods are `NewGame` (`createBoard`), `FindEmptyTile`, `CheckWin` and `TileClick`.
  - Each method works in place with loops.
  - Each is proved against the `Board` functions through the ghost view `Cells()`.

The random draws of `createBoard` are a parameter `js`. Draw `js[i]` stands for
`Math.floor(Math.random() * (i + 1))`, so any `js` with `js[i] <= i` is a
possible run.

`script/main.js` keeps no list of legal neighbour positions and signals no
illegal-move error: an illegal click just falls through the `if` at line 97. In
the model a rejected click returns `moved == false` and changes nothing.

## Model

| member | source | states |
|---|---|---|
| Shuffle.ValidChoices | script/main.js:12 | the draws a run of the loop can make: one draw j with 0 <= j <= i for each i from 1 to n - 1 (the range of `Math.floor(Math.random() * (i + 1))`); it is the precondition of FisherYates and ShuffleArray |
| Shuffle.Swap | script/main.js:13 | the destructuring swap exchanges entries i and j and leaves every other entry unchanged |
| Shuffle.FisherYates | script/main.js:10-16 | the result of the downward swap loop has the input's length |
| Shuffle.SwapPermutes | script/main.js:13 | one swap keeps the multiset of entries |
| Shuffle.FisherYatesPermutes | script/main.js:10-16 | the shuffle is a permutation of its input, for every sequence of draws |
| Shuffle.FisherYatesNoSwaps | script/main.js:11-14 | when every draw picks j == i, the shuffle returns its input unchanged |
| Shuffle.ShuffleArray | script/main.js:10-17 | the in-place loop leaves the array equal to the reference shuffle of its old contents, which is a permutation of them, and returns that same array |
| Board.Flatten | script/main.js:47-53 | has nine cells, with cell (r, c) at index r * COLS + c |
| Board.Layout | script/main.js:47-53 | gives a 3x3 grid whose cell (r, c) is tileNumbers[r * COLS + c] |
| Board.FlattenLayout | script/main.js:47-53 | reading a laid-out board back in row-major order gives the original list |
| Board.LayoutFlatten | script/main.js:47-53 | laying out a board's row-major list rebuilds the board |
| Board.TilesCount | script/main.js:38 | the tile list holds the empty tile once, and the labels do not hold it |
| Board.ValidGridHasOneEmpty | script/main.js:20-30 | on a valid board the scan finds an empty cell, and every empty cell is that one |
| Board.ValidGridLabels | script/main.js:38-42 | on a valid board the non-empty cells hold exactly the eight labels |
| Board.FindFrom | script/main.js:20-30 | a scan from (r, c) returns an empty cell at or after (r, c) with no empty cell between; if it returns None, no empty cell is at or after (r, c) |
| Board.FindEmpty | script/main.js:20-30 | returns the first empty cell in row-major order, or None exactly when no cell is empty |
| Board.Adjacent | script/main.js:94-97 | the test of the click handler on the absolute row and column differences; LegalIffManhattan proves it means Manhattan distance 1 |
| Board.Legal | script/main.js:91-97 | the handler's test applied to the empty cell that the scan finds |
| Board.Click | script/main.js:91-113 | the state transition of a click on (row, col): an accepted click swaps the clicked tile with the empty cell and adds one to turns, a rejected one returns the state unchanged; AcceptedClick and RejectedClick state its effect |
| Board.LegalIffManhattan | script/main.js:93-97 | a click moves a tile exactly when the tile is at Manhattan distance 1 from the empty cell, which also means it is a different cell in the same row or column |
| Board.AcceptedClick | script/main.js:108-113 | an accepted click moves the clicked label into the old empty cell, empties the clicked cell, keeps the other seven cells and adds one to turns |
| Board.RejectedClick | script/main.js:97-118 | a click on a cell that is not adjacent leaves board and turns unchanged |
| Board.FlattenSet | script/main.js:109-110 | setting one cell changes exactly its row-major entry |
| Board.ClickPreservesValid | script/main.js:108-110 | any click on a valid board leaves it valid: still every label once and one empty cell |
| Board.EmptyAfterClick | script/main.js:91-110 | after an accepted click the empty cell is the cell that was clicked |
| Board.ClickThenUndo | script/main.js:91-113 | clicking the tile that just moved is legal and puts the board back, with turns two higher |
| Board.NewBoardValid | script/main.js:38-53 | laying out a permutation of the eight labels plus the empty tile gives a valid board whose first eight cells are the permutation |
| Board.NewBoardEmptyCorner | script/main.js:38-53 | on such a board the empty cell is (2, 2), and the cells before it hold the labels in order |
| Board.ScenarioSlideLeft | script/main.js:85-119 | from a concrete board with the empty cell at (0, 0), clicking (0, 1) slides tile 2 left, counts one turn and does not solve the puzzle |
| Board.ScenarioSolve | script/main.js:85-143 | from a concrete board one move from solved, clicking (2, 2) reaches winState with turns one higher |
| Game.Puzzle.constructor | script/main.js:145-147 | page load builds a valid board from the shuffled labels, with turns 0 |
| Game.Puzzle.NewGame | script/main.js:33-82 | createBoard puts a fresh, valid board in place. It is the layout of the shuffled labels followed by the empty tile at (2, 2), and turns is 0 |
| Game.Puzzle.Install | script/main.js:42-53 | lays out a permutation of the labels plus the empty tile as a fresh valid board and resets turns |
| Game.Puzzle.LayOut | script/main.js:47-53 | the nested loop fills a fresh 3x3 board with cell (r, c) = tileNumbers[r * COLS + c] |
| Game.Puzzle.FindEmptyTile | script/main.js:20-30 | the nested loop returns the first empty cell in row-major order, or None when there is none |
| Game.Puzzle.CheckWin | script/main.js:122-143 | returns true exactly when every cell equals winState |
| Game.Puzzle.Put | script/main.js:109-110 | one cell assignment changes that cell only |
| Game.Puzzle.Slide | script/main.js:108-110 | the clicked label moves into the empty cell and the clicked cell becomes empty; no other cell changes |
| Game.Puzzle.TileClick | script/main.js:85-119 | a click moves exactly when it is a legal move, keeps the board valid, takes board and turns to the state Click computes, and reports a win exactly when it moved into winState |

## Left out

- DOM work is left out because it is presentation only: tile elements, images, class names, the `turns` text and event listener wiring.
- Element-to-cell lookup is left out. `event.target`, `parentElement`, `parseInt(tile.dataset.row)` and `querySelector` become the `row`/`col` parameters of `TileClick`, so a click on a cell outside the 3x3 board cannot be expressed.
- The label moved by a click is taken to be `boardState[row][col]`. The code reads it from the clicked image's `dataset.number`, which `createBoard` and earlier moves keep equal to it.
- `Math.random` is replaced by the draws `js`. Nothing is claimed about the shuffle's distribution.
- The `setTimeout`/`alert` congratulation in `checkWin` is left out, since it is timer and UI only. The ignored `checkWin` result is returned as `won`.
- Solvability is not modelled: whether a shuffled board can reach `winState` by moves, and the half of shuffles that cannot, is out of scope.
- `turns` is an unbounded `nat`. JavaScript's number precision limit at 2^53 is not modelled.
- `TileClick` requires a valid board. That makes the case where `findEmptyTile` returns `null` unreachable; in the code, `emptyPos.row` would throw in that case. `FindEmptyTile` and `FindEmpty` still model the `null` result as `None`.
