# Minesweeper game engine in Dafny

This project models the game engine of a browser Minesweeper: the
`Minesweeper` class in `script.js`. Its state is a `rows × cols` grid of
cells. Each cell records whether it is a mine, uncovered or flagged, and how
many mines surround it. Beside the grid sit a counter of uncovered cells, a
counter of flags, the lifecycle state (ready, playing, won, lost), the
first-click flag and the difficulty.

The model keeps that shape. `Game.Minesweeper` (minesweeper.dfy) is a class
with the same game-state fields (the board, its size and mine total, both
counters, the lifecycle state, the first-click flag and the difficulty), and
its methods update them in place. The source's difficulty table is a
function here, and its start time and timer handle are left out with the
timer. It has
nested loops where the source has them, and the flood fill is a recursive
method that terminates because the set of covered cells shrinks. The board
is a list of rows of `Cell` values (a field of type `seq<seq<Cell>>`, which
the methods reassign).

What each method promises is stated on values in three modules:

- `Minefield` (minefield.dfy): the cell record and the sets of positions on
  a board (mines, uncovered cells, flags, covered cells). It also holds the
  true neighbour count and the lemmas about counting, laying mines,
  recounting and exposing mines.
- `Cascade` (cascade.dfy): `RevealSpec`, the contract of one reveal. It
  says that only covered, unflagged cells are uncovered, that the counter
  grows by the number of cells uncovered, that a reveal of an uncovered or
  flagged cell changes nothing, and that a covered cell showing a nonzero
  number is uncovered alone. It bounds the flood from both sides: every
  zero cell this reveal uncovers has its whole neighbourhood uncovered or
  flagged, and every cell this reveal uncovers is reached from the start
  by a chain of neighbouring cells it uncovers, each but the last showing
  zero. A reveal from a safe cell uncovers no mine. The step lemmas of the
  cascade loop are here too.
- `Rules` (rules.dfy): the lifecycle, the difficulty table, the object
  invariant `GameValid`, and one lemma per kind of click showing that it
  keeps the invariant and has the documented outcome.

The object invariant (`Rules.GameValid`, used as `Game.Minesweeper.Valid`)
says the following:

- The board is `rows × cols`, and every cell knows its coordinates.
- Every safe cell shows the number of mines in its 3 × 3 window.
- `revealedCount` is the number of uncovered safe cells, and `flaggedCount`
  is the number of flags.
- `firstClick` holds exactly in the ready state, and a ready board has no
  mines and nothing uncovered.
- Once play has started, the board holds exactly `totalMines` mines.
- While playing, no mine is uncovered, and the win count has not yet been
  reached.
- In a finished game every mine is uncovered, and a won game has reached
  the win count.

## Model

| member | source | states |
|---|---|---|
| Rules.Preset | script.js:3-7 | The three difficulties give 9×9 with 10 mines, 16×16 with 40 and 16×30 with 99. In each, 0 < mines < rows·cols, so mine placement can always finish. |
| Game.Minesweeper.constructor | script.js:2-21 | A new game is on Easy, ready, waiting for its first click, with the Easy dimensions and a blank board; the invariant holds. |
| Game.Minesweeper.InitializeGame | script.js:63-68 | Starts a game on the current difficulty's preset. Afterwards: a blank board of that size, counters zero, ready, first click pending, invariant established. |
| Game.Minesweeper.CreateBoard | script.js:70-95 | Afterwards the board is exactly rows × cols. Every cell is `Blank(i, j)`: no mine, covered, unflagged, count 0, with its own coordinates. Both counters are 0, the state is ready, `firstClick` is set, and the invariant holds. |
| Game.Minesweeper.PlaceMines | script.js:97-116 | Exactly `totalMines` cells become mines, and the first-clicked cell is not one of them. Each cell changes at most in its mine bit and its number. The uncovered and flagged cells are as before, and every safe cell shows its true count. |
| Minefield.FreeCellExists | script.js:101-108 | While fewer than rows·cols − 1 mines are down, some cell other than the first-clicked one is still free. So the draw never gets stuck. |
| Minefield.LayMine | script.js:106-111 | Making a free cell other than the first-clicked one a mine raises the mine count by one, leaves every other field of every cell alone and keeps the first-clicked cell safe. |
| Minefield.MarkMine | script.js:110 | Setting the mine bit of a free cell adds exactly that position to the set of mines. |
| Minefield.LaidThenRecounted | script.js:97-116 | Laying k mines and then recounting gives k mines, not on the first-clicked cell. Only the mine bits and numbers differ from the board before. |
| Game.Minesweeper.CalculateNeighborMines | script.js:118-126 | Every safe cell then shows the number of mines in its window. Mine cells are left exactly as they were, no mine moves, and no other field changes. |
| Minefield.RecountDone | script.js:118-126 | A completed row-major recount yields a well-formed board with the same mines. It differs from the original only in the numbers of safe cells. |
| Minefield.RecountSet | script.js:121-122 | Writing the current window count into a safe cell moves the recount one cell on. The count is the same whether taken before or after earlier cells were renumbered. |
| Minefield.SameMinesSameCount | script.js:128-138 | Boards with the same mine bits cell by cell have the same mines and the same count around any position. |
| Game.Minesweeper.CountNeighborMines | script.js:128-138 | The result is the number of in-grid mines in the 3 × 3 window around (row, col), clipped at the edges. |
| Minefield.ScanStep | script.js:131-134 | One more window cell scanned: the set of mines scanned grows by that cell exactly when it is an in-grid mine. |
| Minefield.SafeCountAtMostEight | script.js:128-138 | Around a safe cell the mines of the window lie in the eight surrounding cells, so the count is at most 8. |
| Minefield.ZeroMeansNoMineNear | script.js:210-215 | A safe cell that correctly shows 0 has no mine anywhere in its window. |
| Minefield.NoMinesNoCounts | script.js:81-88 | On a board without mines every window count is 0, so a blank board's numbers are correct. |
| Minefield.BlankBoard | script.js:81-88 | A board made only of fresh cells (`Blank`) has no mine, nothing uncovered and no flag, and its zero numbers are the true counts. |
| Game.Minesweeper.HandleCellClick | script.js:162-184 | Keeps the invariant. A click in a finished game, or on an uncovered or flagged cell, changes nothing. The first accepted click lays the mines, clears `firstClick`, and is never lost or on a mine. The new board is stated exactly. On a mine: the board before the click with every mine shown. Otherwise: a board that a reveal from the cell makes of it (`RevealSpec`), with the mines shown if the click wins. After a first click, "before the click" means the board once the mines are laid, which differs from the old board only in mine bits and numbers. Later clicks do not move the mines, and no click changes the flags. An accepted click is lost exactly when the cell is a mine; otherwise the cell is uncovered, and the game is won exactly when every safe cell is uncovered. |
| Game.Minesweeper.OpenCell | script.js:176-181 | The part of an accepted click after mine placement. It keeps the invariant. On a mine the new board is the old one with every mine shown and the game is lost. On a safe cell the new board is a reveal of the old one from the cell, with the mines shown exactly when the game is won. Mines and flags stay where they were. |
| Rules.ClickGuard | script.js:163-166 | The left-click guard (`Accepts`) lets a click through exactly while the game is ready or playing and the cell is in neither the uncovered nor the flagged set. |
| Rules.RightClickGuard | script.js:187-190 | The right-click guard (`Terminal` and the uncovered test) lets a click through exactly while the game is ready or playing and the cell is not uncovered; a flagged cell passes. |
| Rules.StartPlay | script.js:169-174 | Laying the mines on a ready board and switching to playing keeps the invariant. Nothing is uncovered yet, and the win count is positive. |
| Rules.LossOutcome | script.js:176-177 | Stepping on a mine in play ends the game as lost, with every mine shown and the mines unchanged. The invariant holds, and the click's outcome is a loss at that cell. |
| Rules.RevealOutcome | script.js:179 | Revealing a covered, unflagged safe cell in play keeps the invariant in play. The cell is uncovered, and mines and flags stay where they were. The result is the effect a click is meant to have, both if play goes on and if the win check then shows the mines. |
| Rules.WinCheckOutcome | script.js:180 | The win check after a safe reveal keeps the invariant, won or still in play. Mines and flags stay, and the game is won exactly when every safe cell is uncovered. |
| Rules.SafeClickOutcome | script.js:178-181 | A reveal and then a win check from a safe cell: the invariant holds in the resulting state, the click has its intended effect, and the mines and flags are where they were. |
| Rules.KeepPlaying | script.js:179 | A reveal from a covered, unflagged safe cell in play keeps every part of the invariant except the win test. The cell ends up uncovered. |
| Game.Minesweeper.HandleRightClick | script.js:186-201 | Keeps the invariant. In a finished game or on an uncovered cell nothing changes. Otherwise the cell's flag flips, nothing else on the board changes, and `flaggedCount` moves by +1 when the flag was set and by −1 when it was cleared. |
| Rules.FlipFlag | script.js:192-198 | Flipping one flag and moving the flag counter in the same direction keeps the invariant. |
| Minefield.ToggleFlag | script.js:192-198 | The flags lose (r, c) when it was flagged and gain it when it was not. The mines, the uncovered cells and the mine bit of every cell stay as they were. |
| Minefield.ToggleFlagTwice | script.js:192-198 | Flipping the same flag twice gives back the original board. Together with the ±1 counter of HandleRightClick, two right clicks restore the board and the count. |
| Minefield.ToggleFlagWellFormed | script.js:192-198 | Flipping a flag keeps every cell's coordinates and every number correct. |
| Game.Minesweeper.RevealCell | script.js:203-220 | Terminates, since the set of covered cells strictly shrinks at each nested call. It uncovers only covered, unflagged cells and never covers or flags one. The counter grows by exactly the number of cells uncovered, and an uncovered or flagged start cell changes nothing. A covered, unflagged cell with a nonzero number is uncovered alone. Afterwards the start cell is uncovered or flagged. Every zero cell this reveal uncovers has its whole window uncovered or flagged, and every cell it uncovers is reached from the start through zero cells it uncovers. From a safe cell no mine is uncovered. |
| Cascade.Uncover | script.js:207-208 | Uncovering a covered cell adds exactly that position to the uncovered set, and mines and flags stay as they were. |
| Cascade.RevealSkipped | script.js:204-205 | A reveal of an uncovered or flagged cell meets the reveal contract with no change at all. The recursive call on the cell itself therefore does nothing. |
| Cascade.RevealSingle | script.js:207-211 | A covered, unflagged cell with a nonzero number is uncovered alone, and the counter grows by one. |
| Cascade.RevealNonzero | script.js:207-211 | Conversely, any reveal meeting the contract from such a cell yields exactly the board with that one cell uncovered, and the counter grows by one. |
| Cascade.UncoveredAlone | script.js:207 | If the only cell a reveal newly uncovers is the covered, unflagged start cell, the new board is the old one with that cell uncovered. |
| Cascade.UncoverFromStart | script.js:207 | Uncovering one covered cell uncovers nothing else, and that cell is reached from itself. |
| Cascade.PathKept | script.js:212-218 | A chain of uncovered cells stays a chain as further cells are uncovered. |
| Cascade.PathWidened | script.js:212-218 | A chain uncovered by a nested reveal is also a chain uncovered by the whole reveal that contains it. |
| Cascade.PathExtended | script.js:211-215 | Putting the uncovered zero start cell in front of a chain that begins next to it gives a chain of the whole reveal. |
| Cascade.ReachStep | script.js:214-215 | After a nested reveal next to the zero start cell, every cell uncovered so far is still reached from the start. |
| Cascade.CascadeStart | script.js:207-211 | Uncovering a zero cell starts the cascade. If the cell is safe, its window holds no mine. |
| Cascade.CascadeShrinks | script.js:212-215 | During the cascade the start cell is already uncovered, so each nested call starts with fewer covered cells. |
| Cascade.CascadeVisit | script.js:214-215 | A nested reveal of a window cell keeps the cascade state: only uncovering, the counter still equal to the cells uncovered, zero cells closed, every uncovered cell reached from the start, no mine uncovered. The visited cell is then settled. |
| Cascade.ClosedStep | script.js:212-218 | Cells closed before a nested reveal stay closed, and the window position visited becomes settled. |
| Cascade.CascadeDone | script.js:212-219 | Once the window is walked, the reveal meets its full contract. |
| Cascade.UncoversKeepsLayout | script.js:203-220 | Uncovering changes no mine, flag or number. Uncovered cells only grow, and covered ones only shrink. |
| Cascade.UncoversTrans | script.js:212-218 | Two rounds of uncovering make one round of uncovering. |
| Cascade.NoMineTrans | script.js:212-218 | Two rounds that uncover no mine together uncover no mine. |
| Cascade.UncoveredSafeCount | script.js:207-208 | When no mine is uncovered, the uncovered safe cells grow by exactly the cells uncovered. |
| Cascade.SafeReveal | script.js:203-220 | A reveal that uncovers no mine keeps the uncovered cells clear of mines and leaves mines and flags alone. The uncovered safe cells grow by the cells uncovered, so `revealedCount` keeps counting them. |
| Game.Minesweeper.CheckWinCondition | script.js:222-227 | When the counter equals rows·cols − totalMines, the game becomes won with every mine shown. Otherwise nothing changes. Flags play no part. |
| Minefield.WinIffAllSafeRevealed | script.js:222-227 | On a rows × cols board with the right number of mines, counting rows·cols − mines uncovered safe cells holds exactly when every safe cell is uncovered. This holds in both directions. |
| Rules.WonIffAllSafeRevealed | script.js:222-227 | In any started game that is not lost, the state is won exactly when every safe cell is uncovered. |
| Minefield.GridSize | script.js:223 | A rows × cols grid has rows·cols positions. |
| Minefield.ShapedPartition | script.js:223-224 | The mines and the safe cells split the grid. There are rows·cols − mines safe cells, and the uncovered safe cells are among them. |
| Game.Minesweeper.GameOver | script.js:229-240 | Sets won or lost and uncovers every mine. No other cell changes, and neither counter changes. |
| Minefield.ExposeMines | script.js:233-240 | Every mine is uncovered, and every other cell is exactly as before. |
| Minefield.Exposed | script.js:236-238 | One cell at game over: it ends up uncovered exactly when it was uncovered already or is a mine, and nothing but its uncovered bit changes. |
| Minefield.ExposeMinesKeeps | script.js:233-240 | Exposing the mines keeps the mines, the flags and the uncovered safe cells, and leaves every mine uncovered. |
| Minefield.ExposeMinesIdempotent | script.js:229-240 | Exposing the mines a second time changes nothing, so game over is idempotent on the board. |
| Minefield.ExposeMinesWellFormed | script.js:233-240 | Exposing the mines keeps the board well formed. |
| Minefield.ExposeDone | script.js:234-240 | The row-major pass of the game-over loop yields exactly `ExposeMines` of the board it started on. |
| Rules.EndPlay | script.js:229-240 | Ending a game in play, won only at the win count, gives a board whose invariant holds in the finished state. |
| Game.Minesweeper.ChangeDifficulty | script.js:336-349 | Choosing the current difficulty changes nothing. Any other difficulty becomes current, and a fresh ready game of its preset size starts with both counters at 0. |
| Game.Minesweeper.RestartGame | script.js:351-362 | Starts a fresh game of the current difficulty: a blank board of the preset size, counters 0, ready, first click pending. |

`OpenCell` has no counterpart name in `script.js`. It is the second half
of `handleCellClick`, which runs once the mines are down, split out so that
each method's proof stays small.

## Left out

- The DOM and presentation are not modelled: element lookup, event wiring, `renderBoard`, `updateUI`, `updateBoardDisplay`, `showModal`, `hideModal`, the difficulty-button classes and the restart animation (script.js:23-61, 140-160, 242-314, 339-345, 357-361). They only draw the state.
- The timer is not modelled: `startTimer`, `stopTimer`, `getElapsedTime`, `Date.now`, `setInterval` and `setTimeout` (script.js:14-15, 171, 231, 316-334, 352-353, 359-361). These are clock and scheduling side effects that no game rule reads.
- `Math.random` (script.js:102-103) becomes a free choice among the cells the source would accept: no mine yet, and not the first-clicked cell. The model says nothing about the distribution, and the draws the source rejects and retries are collapsed into that choice.
- The page-load bootstrap (script.js:366-368) is not modelled.
- Game.Minesweeper.PlaceMines: requires `totalMines < rows * cols`. The source never checks this, and its retry loop would never end without it. Every preset satisfies it.
- Game.Minesweeper.HandleCellClick: requires `totalMines < rows * cols` for the same reason, because its first click calls `placeMines`.
- Game.Minesweeper.ChangeDifficulty: a difficulty is one of three values. The source takes any string from a button's data attribute, and a name outside the table would break `initializeGame`.
- Aliasing: `handleCellClick` keeps a reference to the clicked cell object across `placeMines`, and reads its mine bit afterwards. The model rereads `board[row][col]` after placing the mines, which gives the same answer because `placeMines` changes the cell objects in place. Cell objects are never shared between positions, so the grid is modelled as values.
- The `config` lookup at script.js:99 is unused by the source and is left out.
- `createBoard` does not validate its arguments, and `CreateBoard` accepts any numbers.
- `placeMines` has no guard against a second call. Mines are laid once because `handleCellClick` calls it only while `firstClick` is set, and `HandleCellClick` proves that a later click does not move the mines.
- The cascade also calls `revealCell` on the start cell itself. `RevealSkipped` shows that this call does nothing.
