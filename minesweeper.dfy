/**
 * The Minesweeper game engine: one object holding the board, the counters
 * and the lifecycle state, updated in place by the player's clicks.
 */
module Game {
  import opened Minefield
  import opened Cascade
  import opened Rules

  class Minesweeper {
    var currentDifficulty: Difficulty
    var gameState: GameState
    var board: Board
    var revealedCount: int
    var flaggedCount: int
    var firstClick: bool
    var rows: nat
    var cols: nat
    var totalMines: nat

    /** The object invariant: the board, the counters and the lifecycle agree (see GameValid). */
    ghost predicate Valid()
      reads this
    {
      GameValid(board, rows, cols, totalMines, gameState, revealedCount, flaggedCount, firstClick)
    }

    /** A new game object on the Easy board, waiting for its first click. */
    constructor ()
      ensures Valid()
      ensures currentDifficulty == Easy && gameState == Ready && firstClick
      ensures rows == Preset(Easy).rows && cols == Preset(Easy).cols && totalMines == Preset(Easy).mines
      ensures forall i, j :: InGrid(board, i, j) ==> board[i][j] == Blank(i, j)
    {
      currentDifficulty := Easy;
      gameState := Ready;
      board := [];
      revealedCount := 0;
      flaggedCount := 0;
      firstClick := true;
      new;
      InitializeGame();
    }

    /** Starts a fresh game on the board of the current difficulty. */
    method InitializeGame()
      modifies this
      ensures Valid()
      ensures currentDifficulty == old(currentDifficulty)
      ensures (rows, cols, totalMines) == (Preset(currentDifficulty).rows, Preset(currentDifficulty).cols, Preset(currentDifficulty).mines)
      ensures totalMines < rows * cols
      ensures gameState == Ready && firstClick && revealedCount == 0 && flaggedCount == 0
      ensures forall i, j :: InGrid(board, i, j) ==> board[i][j] == Blank(i, j)
    {
      var config := Preset(currentDifficulty);
      CreateBoard(config.rows, config.cols, config.mines);
    }

    /** Builds an empty rows × cols board and resets the counters and the lifecycle. */
    method CreateBoard(rows: nat, cols: nat, mines: nat)
      modifies this
      ensures Valid()
      ensures this.rows == rows && this.cols == cols && totalMines == mines
      ensures gameState == Ready && firstClick && revealedCount == 0 && flaggedCount == 0
      ensures Shaped(board, rows, cols)
      ensures forall i, j :: InGrid(board, i, j) ==> board[i][j] == Blank(i, j)
      ensures currentDifficulty == old(currentDifficulty)
    {
      board := [];
      revealedCount := 0;
      flaggedCount := 0;
      gameState := Ready;
      firstClick := true;

      var r := 0;
      while r < rows
        modifies this`board
        invariant 0 <= r <= rows && |board| == r
        invariant forall i :: 0 <= i < r ==> |board[i]| == cols
        invariant forall i, j :: InGrid(board, i, j) ==> board[i][j] == Blank(i, j)
        invariant currentDifficulty == old(currentDifficulty)
      {
        board := board + [[]];
        var c := 0;
        while c < cols
          modifies this`board
          invariant 0 <= c <= cols && |board| == r + 1 && |board[r]| == c
          invariant forall i :: 0 <= i < r ==> |board[i]| == cols
          invariant forall i, j :: InGrid(board, i, j) ==> board[i][j] == Blank(i, j)
          invariant currentDifficulty == old(currentDifficulty)
        {
          board := board[r := board[r] + [Blank(r, c)]];
          c := c + 1;
        }
        r := r + 1;
      }

      this.rows := rows;
      this.cols := cols;
      totalMines := mines;

      BlankBoard(board);
    }

    /**
     * Lays totalMines mines on distinct cells of a mine-free board, never on
     * (firstClickRow, firstClickCol), then computes every safe cell's count.
     * The random draw is a free choice among the cells still eligible.
     */
    method PlaceMines(firstClickRow: int, firstClickCol: int)
      requires WellFormedBoard(board, rows, cols) && InGrid(board, firstClickRow, firstClickCol)
      requires Mines(board) == {} && totalMines < rows * cols
      modifies this`board
      ensures WellFormedBoard(board, rows, cols)
      ensures |Mines(board)| == totalMines
      ensures !board[firstClickRow][firstClickCol].isMine
      ensures forall i, j :: InGrid(board, i, j) ==>
                board[i][j] == old(board[i][j]).(isMine := board[i][j].isMine, neighborMines := board[i][j].neighborMines)
      ensures Revealed(board) == old(Revealed(board)) && Flagged(board) == old(Flagged(board))
    {
      ghost var b0 := board;
      LayStart(b0, rows, cols, firstClickRow, firstClickCol);
      var minesPlaced := 0;
      while minesPlaced < totalMines
        invariant 0 <= minesPlaced <= totalMines
        invariant LaidMines(b0, board, rows, cols, firstClickRow, firstClickCol, minesPlaced)
        decreases totalMines - minesPlaced
      {
        FreeCellExists(board, rows, cols, firstClickRow, firstClickCol);
        var row, col :| 0 <= row < rows && 0 <= col < cols && !(row == firstClickRow && col == firstClickCol) && !board[row][col].isMine;
        LayMine(b0, board, rows, cols, firstClickRow, firstClickCol, minesPlaced, row, col);
        board := board[row := board[row][col := board[row][col].(isMine := true)]];
        minesPlaced := minesPlaced + 1;
      }
      ghost var laid := board;
      CalculateNeighborMines();
      LaidThenRecounted(b0, laid, board, rows, cols, firstClickRow, firstClickCol, totalMines);
    }

    /** Writes into every safe cell the number of mines around it; mine cells are left untouched. */
    method CalculateNeighborMines()
      requires Shaped(board, rows, cols) && Labelled(board)
      modifies this`board
      ensures WellFormedBoard(board, rows, cols)
      ensures SameMines(old(board), board) && Mines(board) == old(Mines(board))
      ensures forall i, j :: InGrid(board, i, j) ==>
                board[i][j] == old(board[i][j]).(neighborMines := board[i][j].neighborMines)
      ensures forall i, j :: InGrid(board, i, j) && board[i][j].isMine ==> board[i][j] == old(board[i][j])
    {
      ghost var b0 := board;
      RecountStart(b0, rows, cols);
      var r := 0;
      while r < rows
        invariant 0 <= r <= rows
        invariant RecountedBefore(b0, board, rows, cols, r, 0)
      {
        var c := 0;
        while c < cols
          invariant 0 <= c <= cols
          invariant RecountedBefore(b0, board, rows, cols, r, c)
        {
          if board[r][c].isMine {
            RecountSkip(b0, board, rows, cols, r, c);
          } else {
            var count := CountNeighborMines(r, c);
            RecountSet(b0, board, rows, cols, r, c, count);
            board := board[r := board[r][c := board[r][c].(neighborMines := count)]];
          }
          c := c + 1;
        }
        RecountNextRow(b0, board, rows, cols, r);
        r := r + 1;
      }
      RecountDone(b0, board, rows, cols);
    }

    /** The number of mines in the 3 × 3 window around (row, col), clipped at the edges of the board. */
    method CountNeighborMines(row: int, col: int) returns (count: nat)
      requires Shaped(board, rows, cols)
      ensures count == MinesAround(board, row, col)
    {
      count := 0;
      var r := row - 1;
      ScanRows(board, row, col, r);
      while r <= row + 1
        invariant row - 1 <= r <= row + 2
        invariant count == |Scanned(board, row, col, r, col - 1)|
      {
        var c := col - 1;
        while c <= col + 1
          invariant col - 1 <= c <= col + 2
          invariant count == |Scanned(board, row, col, r, c)|
        {
          ScanStep(board, row, col, r, c);
          if r >= 0 && r < rows && c >= 0 && c < cols && board[r][c].isMine {
            count := count + 1;
          }
          c := c + 1;
        }
        ScanRows(board, row, col, r);
        r := r + 1;
      }
      ScanRows(board, row, col, r);
    }

    /**
     * Uncovers (row, col) unless it is already uncovered or flagged; from a
     * cell that shows zero the call repeats itself on every cell of the
     * 3 × 3 window, the cell itself included, which the early return makes
     * harmless.
     */
    method RevealCell(row: int, col: int)
      requires WellFormedBoard(board, rows, cols) && InGrid(board, row, col)
      modifies this`board, this`revealedCount
      decreases Covered(board)
      ensures WellFormedBoard(board, rows, cols)
      ensures RevealSpec(old(board), board, row, col, old(revealedCount), revealedCount)
    {
      if board[row][col].isRevealed || board[row][col].isFlagged {
        RevealSkipped(board, row, col, revealedCount);
        return;
      }
      ghost var b0, n0 := board, revealedCount;
      board := Uncover(board, row, col);
      revealedCount := revealedCount + 1;
      UncoversWellFormed(b0, board, rows, cols);

      if board[row][col].neighborMines == 0 {
        CascadeStart(b0, row, col, n0);
        var r := row - 1;
        while r <= row + 1
          invariant row - 1 <= r <= row + 2
          invariant WellFormedBoard(board, rows, cols) && CascadeInv(b0, board, row, col, r, col - 1, n0, revealedCount)
        {
          var c := col - 1;
          while c <= col + 1
            invariant col - 1 <= c <= col + 2
            invariant WellFormedBoard(board, rows, cols) && CascadeInv(b0, board, row, col, r, c, n0, revealedCount)
          {
            if r >= 0 && r < rows && c >= 0 && c < cols {
              ghost var bk, nk := board, revealedCount;
              CascadeShrinks(b0, board, row, col, r, c, n0, revealedCount);
              RevealCell(r, c);
              CascadeVisit(b0, bk, board, row, col, r, c, n0, nk, revealedCount);
            } else {
              CascadeOutside(b0, board, row, col, r, c, n0, revealedCount);
            }
            c := c + 1;
          }
          CascadeNextRow(b0, board, row, col, r, n0, revealedCount);
          r := r + 1;
        }
        CascadeDone(b0, board, row, col, n0, revealedCount);
      } else {
        RevealSingle(b0, row, col, n0);
      }
    }

    /**
     * A left click on (row, col). Ignored once the game is over and on an
     * uncovered or flagged cell. The first accepted click lays the mines
     * around it and starts play; then a mine ends the game, and any other
     * cell is revealed and the win is checked.
     */
    method HandleCellClick(row: int, col: int)
      requires Valid() && InGrid(board, row, col) && totalMines < rows * cols
      modifies this`board, this`revealedCount, this`gameState, this`firstClick
      ensures Valid()
      ensures !Accepts(old(gameState), old(board[row][col])) ==>
                board == old(board) && gameState == old(gameState) && revealedCount == old(revealedCount) && firstClick == old(firstClick)
      ensures Accepts(old(gameState), old(board[row][col])) && old(firstClick) ==>
                gameState != Lost && !firstClick && !board[row][col].isMine
      ensures Accepts(old(gameState), old(board[row][col])) && old(firstClick) ==>
                exists laid :: MinesLaid(old(board), laid, rows, cols, totalMines, row, col) &&
                               ClickEffect(laid, board, gameState, row, col, old(revealedCount), revealedCount)
      ensures Accepts(old(gameState), old(board[row][col])) && !old(firstClick) ==>
                Mines(board) == old(Mines(board)) && ClickEffect(old(board), board, gameState, row, col, old(revealedCount), revealedCount)
      ensures Accepts(old(gameState), old(board[row][col])) ==>
                ClickOutcome(board, gameState, row, col) && Flagged(board) == old(Flagged(board))
    {
      if gameState == Won || gameState == Lost {
        return;
      }
      if board[row][col].isRevealed || board[row][col].isFlagged {
        return;
      }
      ghost var b0, first0 := board, firstClick;
      if firstClick {
        PlaceMines(row, col);
        StartPlay(b0, board, rows, cols, totalMines, revealedCount, flaggedCount);
        gameState := Playing;
        firstClick := false;
      }
      ghost var laid := board;
      OpenCell(row, col);
      if first0 {
        assert MinesLaid(b0, laid, rows, cols, totalMines, row, col);
      }
    }

    /**
     * The second half of an accepted left click, once the game is in play:
     * a mine ends the game as lost; any other cell is revealed and the win
     * is checked.
     */
    method OpenCell(row: int, col: int)
      requires Valid() && gameState == Playing && InGrid(board, row, col)
      requires !board[row][col].isRevealed && !board[row][col].isFlagged
      modifies this`board, this`revealedCount, this`gameState
      ensures Valid() && ClickOutcome(board, gameState, row, col)
      ensures ClickEffect(old(board), board, gameState, row, col, old(revealedCount), revealedCount)
      ensures Mines(board) == old(Mines(board)) && Flagged(board) == old(Flagged(board))
      ensures board[row][col].isMine == old(board[row][col].isMine)
    {
      if board[row][col].isMine {
        ghost var b0, n0, f0, first0 := board, revealedCount, flaggedCount, firstClick;
        assert GameValid(b0, rows, cols, totalMines, Playing, n0, f0, first0);
        GameOver(false);
        LossOutcome(b0, board, rows, cols, totalMines, n0, f0, first0, row, col);
      } else {
        ghost var b0, n0, f0, first0 := board, revealedCount, flaggedCount, firstClick;
        assert GameValid(b0, rows, cols, totalMines, Playing, n0, f0, first0);
        RevealCell(row, col);
        ghost var b1, n1 := board, revealedCount;
        CheckWinCondition();
        assert revealedCount == n1 && flaggedCount == f0 && firstClick == first0;
        SafeClickOutcome(b0, b1, board, gameState, rows, cols, totalMines, row, col, n0, n1, f0, first0);
      }
    }

    /**
     * A right click on (row, col): ignored once the game is over and on an
     * uncovered cell; otherwise the flag is flipped and the flag counter follows.
     */
    method HandleRightClick(row: int, col: int)
      requires Valid() && InGrid(board, row, col)
      modifies this`board, this`flaggedCount
      ensures Valid()
      ensures Terminal(old(gameState)) || old(board[row][col].isRevealed) ==>
                board == old(board) && flaggedCount == old(flaggedCount)
      ensures !Terminal(old(gameState)) && !old(board[row][col].isRevealed) ==>
                && board == ToggleFlag(old(board), row, col)
                && board[row][col].isFlagged == !old(board[row][col].isFlagged)
                && flaggedCount == old(flaggedCount) + (if board[row][col].isFlagged then 1 else -1)
    {
      if gameState == Won || gameState == Lost {
        return;
      }
      if board[row][col].isRevealed {
        return;
      }
      ghost var b0, f0 := board, flaggedCount;
      if board[row][col].isFlagged {
        board := ToggleFlag(board, row, col);
        flaggedCount := flaggedCount - 1;
      } else {
        board := ToggleFlag(board, row, col);
        flaggedCount := flaggedCount + 1;
      }
      FlipFlag(b0, board, rows, cols, totalMines, gameState, revealedCount, f0, flaggedCount, firstClick, row, col);
    }

    /**
     * Ends a game in play as won once the counter shows every safe cell
     * uncovered; otherwise nothing changes. That this keeps the object
     * invariant is WinCheckOutcome.
     */
    method CheckWinCondition()
      requires WellFormedBoard(board, rows, cols) && gameState == Playing
      modifies this`board, this`gameState
      ensures WellFormedBoard(board, rows, cols)
      ensures revealedCount == rows * cols - totalMines ==> gameState == Won && board == ExposeMines(old(board))
      ensures revealedCount != rows * cols - totalMines ==> gameState == Playing && board == old(board)
    {
      var totalCells := rows * cols;
      if revealedCount == totalCells - totalMines {
        GameOver(true);
      }
    }

    /** Ends the game, won or lost, and uncovers every mine; the counters are left alone. */
    method GameOver(won: bool)
      requires WellFormedBoard(board, rows, cols)
      modifies this`board, this`gameState
      ensures WellFormedBoard(board, rows, cols)
      ensures gameState == (if won then Won else Lost)
      ensures board == ExposeMines(old(board))
    {
      gameState := if won then Won else Lost;
      ghost var b0 := board;
      ExposeStart(b0, rows, cols);
      var r := 0;
      while r < rows
        modifies this`board
        invariant 0 <= r <= rows
        invariant ExposedBefore(b0, board, rows, cols, r, 0)
      {
        var c := 0;
        while c < cols
          modifies this`board
          invariant 0 <= c <= cols
          invariant ExposedBefore(b0, board, rows, cols, r, c)
        {
          ExposeStep(b0, board, rows, cols, r, c);
          if board[r][c].isMine {
            board := board[r := board[r][c := board[r][c].(isRevealed := true)]];
          }
          c := c + 1;
        }
        ExposeNextRow(b0, board, rows, cols, r);
        r := r + 1;
      }
      ExposeDone(b0, board, rows, cols);
      ExposeMinesWellFormed(b0, rows, cols);
    }

    /** Switches to another difficulty and starts a fresh game on its board; choosing the current one does nothing. */
    method ChangeDifficulty(difficulty: Difficulty)
      requires Valid()
      modifies this
      ensures Valid()
      ensures difficulty == old(currentDifficulty) ==> unchanged(this)
      ensures difficulty != old(currentDifficulty) ==>
                && currentDifficulty == difficulty && gameState == Ready && firstClick
                && (rows, cols, totalMines) == (Preset(difficulty).rows, Preset(difficulty).cols, Preset(difficulty).mines)
                && revealedCount == 0 && flaggedCount == 0
    {
      if difficulty == currentDifficulty {
        return;
      }
      currentDifficulty := difficulty;
      RestartGame();
    }

    /** Throws the current game away and starts a fresh one at the same difficulty. */
    method RestartGame()
      modifies this
      ensures Valid()
      ensures currentDifficulty == old(currentDifficulty) && gameState == Ready && firstClick
      ensures (rows, cols, totalMines) == (Preset(currentDifficulty).rows, Preset(currentDifficulty).cols, Preset(currentDifficulty).mines)
      ensures revealedCount == 0 && flaggedCount == 0
      ensures forall i, j :: InGrid(board, i, j) ==> board[i][j] == Blank(i, j)
    {
      InitializeGame();
    }
  }
}
