/**
 * The rules of one game, stated on values: the lifecycle states, the
 * difficulty table, the invariant that holds between clicks, and what each
 * kind of click does to it.
 */
module Rules {
  import opened Minefield
  import opened Cascade

  /** The lifecycle of one game; Won and Lost are terminal. */
  datatype GameState = Ready | Playing | Won | Lost

  datatype Difficulty = Easy | Medium | Hard

  /** A board configuration: its size and how many mines it holds. */
  datatype Config = Config(rows: nat, cols: nat, mines: nat)

  /** The difficulty table; these are the only configurations a game is ever started with. */
  function Preset(d: Difficulty): (cfg: Config)
    ensures 0 < cfg.mines < cfg.rows * cfg.cols
    ensures 9 <= cfg.rows <= 16 && 9 <= cfg.cols <= 30
  {
    match d
    case Easy => Config(9, 9, 10)
    case Medium => Config(16, 16, 40)
    case Hard => Config(16, 30, 99)
  }

  /** A finished game: no click changes it any more. */
  predicate Terminal(s: GameState)
  {
    s == Won || s == Lost
  }

  /** Whether a left click is acted on: the game is not over and the cell is neither uncovered nor flagged. */
  predicate Accepts(s: GameState, cell: Cell)
  {
    !Terminal(s) && !cell.isRevealed && !cell.isFlagged
  }

  /** Every cell without a mine is uncovered. */
  ghost predicate AllSafeRevealed(b: Board)
  {
    forall i, j :: InGrid(b, i, j) && !b[i][j].isMine ==> b[i][j].isRevealed
  }

  /**
   * What holds of a game between clicks, except that a game in play is not
   * yet won: b is a well-formed rows × cols board with the given lifecycle
   * state s, revealed counts its uncovered safe cells and flagged its flags,
   * and first is set exactly until the first accepted click.
   */
  ghost predicate GameInv(b: Board, rows: nat, cols: nat, mines: nat, s: GameState, revealed: int, flagged: int, first: bool)
  {
    && WellFormedBoard(b, rows, cols)
    && revealed == |RevealedSafe(b)|
    && flagged == |Flagged(b)|
    && (first <==> s == Ready)
    && (s == Ready ==> Mines(b) == {} && Revealed(b) == {})
    && (s != Ready ==> |Mines(b)| == mines)
    && (s == Playing ==> Revealed(b) !! Mines(b))
    && (Terminal(s) ==> Mines(b) <= Revealed(b))
    && (s == Won ==> revealed == rows * cols - mines)
  }

  /** The object invariant on values: GameInv, and a game in play has not yet reached its win count. */
  ghost predicate GameValid(b: Board, rows: nat, cols: nat, mines: nat, s: GameState, revealed: int, flagged: int, first: bool)
  {
    GameInv(b, rows, cols, mines, s, revealed, flagged, first) && (s == Playing ==> revealed != rows * cols - mines)
  }

  /**
   * Once play has started, a game that is not lost is won exactly when every
   * safe cell is uncovered: the counter test decides the same thing as
   * looking at the board.
   */
  lemma WonIffAllSafeRevealed(b: Board, rows: nat, cols: nat, mines: nat, s: GameState, revealed: int, flagged: int, first: bool)
    requires GameInv(b, rows, cols, mines, s, revealed, flagged, first) && s != Ready
    requires s == Playing ==> revealed != rows * cols - mines
    ensures s != Lost ==> (s == Won <==> AllSafeRevealed(b))
  {
    WinIffAllSafeRevealed(b, rows, cols, mines);
  }

  /**
   * The left-click guard on (row, col) accepts exactly a click while the
   * game is not over on a cell outside both the uncovered and the flagged set.
   */
  lemma ClickGuard(b: Board, s: GameState, row: int, col: int)
    requires InGrid(b, row, col)
    ensures Accepts(s, b[row][col]) <==> (s == Ready || s == Playing) && (row, col) !in Revealed(b) && (row, col) !in Flagged(b)
  {
  }

  /**
   * The right-click guard on (row, col) lets a click through exactly while
   * the game is not over on a cell outside the uncovered set; a flagged cell
   * passes it.
   */
  lemma RightClickGuard(b: Board, s: GameState, row: int, col: int)
    requires InGrid(b, row, col)
    ensures !Terminal(s) && !b[row][col].isRevealed <==> (s == Ready || s == Playing) && (row, col) !in Revealed(b)
  {
  }

  /** Laying the mines on the first click starts play: the invariant moves from Ready to Playing. */
  lemma StartPlay(b0: Board, b: Board, rows: nat, cols: nat, mines: nat, revealed: int, flagged: int)
    requires GameInv(b0, rows, cols, mines, Ready, revealed, flagged, true) && mines < rows * cols
    requires WellFormedBoard(b, rows, cols) && |Mines(b)| == mines
    requires Revealed(b) == Revealed(b0) && Flagged(b) == Flagged(b0)
    ensures GameInv(b, rows, cols, mines, Playing, revealed, flagged, false)
    ensures revealed == 0 < rows * cols - mines
  {
    assert RevealedSafe(b) == {};
    assert RevealedSafe(b0) == {};
  }

  /** Uncovering every mine ends a game in play with the given outcome; won only when all safe cells are counted. */
  lemma EndPlay(b: Board, rows: nat, cols: nat, mines: nat, outcome: GameState, revealed: int, flagged: int)
    requires GameInv(b, rows, cols, mines, Playing, revealed, flagged, false) && Terminal(outcome)
    requires outcome == Won ==> revealed == rows * cols - mines
    ensures GameInv(ExposeMines(b), rows, cols, mines, outcome, revealed, flagged, false)
  {
    ExposeMinesKeeps(b);
    ExposeMinesWellFormed(b, rows, cols);
  }

  /** A reveal from a safe cell keeps a game in play consistent. */
  lemma KeepPlaying(b0: Board, b: Board, rows: nat, cols: nat, mines: nat, row: int, col: int, n0: int, n: int, flagged: int)
    requires GameInv(b0, rows, cols, mines, Playing, n0, flagged, false)
    requires RevealSpec(b0, b, row, col, n0, n) && WellFormedBoard(b, rows, cols)
    requires !b0[row][col].isMine && !b0[row][col].isFlagged
    ensures GameInv(b, rows, cols, mines, Playing, n, flagged, false)
    ensures Mines(b) == Mines(b0) && !b[row][col].isMine && b[row][col].isRevealed
  {
    SafeReveal(b0, b);
    assert b[row][col] == b0[row][col] || b[row][col] == b0[row][col].(isRevealed := true);
  }

  /** Stepping on a mine in play loses the game, with the mines shown where they were. */
  lemma LossOutcome(b0: Board, b: Board, rows: nat, cols: nat, mines: nat, n: int, flagged: int, first: bool, row: int, col: int)
    requires GameValid(b0, rows, cols, mines, Playing, n, flagged, first) && InGrid(b0, row, col) && b0[row][col].isMine
    requires b == ExposeMines(b0)
    ensures GameValid(b, rows, cols, mines, Lost, n, flagged, first) && ClickOutcome(b, Lost, row, col)
    ensures ClickEffect(b0, b, Lost, row, col, n, n)
    ensures Mines(b) == Mines(b0) && Flagged(b) == Flagged(b0) && b[row][col].isMine
  {
    EndPlay(b0, rows, cols, mines, Lost, n, flagged);
    ExposeMinesKeeps(b0);
  }

  /**
   * Revealing a safe, covered, unflagged cell in play takes b0 to b1. The
   * game is still consistent in play on b1 with the cell uncovered, the mines
   * and flags where they were; and whichever way the win check then goes,
   * staying in play on b1 or winning on b1 with the mines shown, the result
   * is the effect a click on (row, col) is meant to have.
   */
  lemma RevealOutcome(b0: Board, b1: Board, rows: nat, cols: nat, mines: nat, row: int, col: int, n0: int, n1: int, flagged: int, first: bool)
    requires GameValid(b0, rows, cols, mines, Playing, n0, flagged, first)
    requires RevealSpec(b0, b1, row, col, n0, n1) && !b0[row][col].isMine && !b0[row][col].isFlagged
    requires WellFormedBoard(b1, rows, cols)
    ensures GameInv(b1, rows, cols, mines, Playing, n1, flagged, first)
    ensures Mines(b1) == Mines(b0) && Flagged(b1) == Flagged(b0) && !b1[row][col].isMine && b1[row][col].isRevealed
    ensures ClickEffect(b0, b1, Playing, row, col, n0, n1) && ClickEffect(b0, ExposeMines(b1), Won, row, col, n0, n1)
  {
    KeepPlaying(b0, b1, rows, cols, mines, row, col, n0, n1, flagged);
    UncoversKeepsLayout(b0, b1);
  }

  /**
   * The win check after a safe reveal takes b1 to b in state s: won, with
   * the mines shown, exactly when the counter has reached the number of safe
   * cells, and otherwise still in play. Either way the invariant holds, the
   * cell stays uncovered, mines and flags are where they were, and a win
   * means every safe cell is uncovered.
   */
  lemma WinCheckOutcome(b1: Board, b: Board, s: GameState, rows: nat, cols: nat, mines: nat, row: int, col: int, n1: int, flagged: int, first: bool)
    requires GameInv(b1, rows, cols, mines, Playing, n1, flagged, first)
    requires InGrid(b1, row, col) && !b1[row][col].isMine && b1[row][col].isRevealed
    requires n1 == rows * cols - mines ==> b == ExposeMines(b1) && s == Won
    requires n1 != rows * cols - mines ==> b == b1 && s == Playing
    ensures GameValid(b, rows, cols, mines, s, n1, flagged, first) && ClickOutcome(b, s, row, col)
    ensures Mines(b) == Mines(b1) && Flagged(b) == Flagged(b1) && !b[row][col].isMine
  {
    WinIffAllSafeRevealed(b1, rows, cols, mines);
    if n1 == rows * cols - mines {
      EndPlay(b1, rows, cols, mines, Won, n1, flagged);
      ExposeMinesKeeps(b1);
      WinIffAllSafeRevealed(b, rows, cols, mines);
    }
  }

  /**
   * A click on a safe, covered, unflagged cell in play: the reveal takes b0
   * to b1 and the win check then takes b1 to b in state s. The game is
   * consistent in s, the click has the effect it is meant to have, and the
   * mines and flags are where they were.
   */
  lemma SafeClickOutcome(b0: Board, b1: Board, b: Board, s: GameState, rows: nat, cols: nat, mines: nat, row: int, col: int, n0: int, n1: int, flagged: int, first: bool)
    requires GameValid(b0, rows, cols, mines, Playing, n0, flagged, first)
    requires RevealSpec(b0, b1, row, col, n0, n1) && !b0[row][col].isMine && !b0[row][col].isFlagged
    requires WellFormedBoard(b1, rows, cols)
    requires n1 == rows * cols - mines ==> b == ExposeMines(b1) && s == Won
    requires n1 != rows * cols - mines ==> b == b1 && s == Playing
    ensures GameValid(b, rows, cols, mines, s, n1, flagged, first) && ClickOutcome(b, s, row, col)
    ensures ClickEffect(b0, b, s, row, col, n0, n1)
    ensures Mines(b) == Mines(b0) && Flagged(b) == Flagged(b0) && !b[row][col].isMine
  {
    RevealOutcome(b0, b1, rows, cols, mines, row, col, n0, n1, flagged, first);
    WinCheckOutcome(b1, b, s, rows, cols, mines, row, col, n1, flagged, first);
  }

  /**
   * Flipping the flag on (r, c) takes b to b', and moving the flag counter by
   * one in the same direction keeps the invariant.
   */
  lemma FlipFlag(b: Board, b': Board, rows: nat, cols: nat, mines: nat, s: GameState, revealed: int, flagged: int, flagged': int, first: bool, r: int, c: int)
    requires GameValid(b, rows, cols, mines, s, revealed, flagged, first) && InGrid(b, r, c)
    requires b' == ToggleFlag(b, r, c) && flagged' == flagged + (if b[r][c].isFlagged then -1 else 1)
    ensures GameValid(b', rows, cols, mines, s, revealed, flagged', first)
  {
    ToggleFlagWellFormed(b, rows, cols, r, c);
  }

  /**
   * What an accepted left click leads to, on board b in state s: play has
   * started; the game is lost exactly when (row, col) is a mine; otherwise
   * the cell is uncovered, and the game is won exactly when every safe cell
   * is uncovered.
   */
  ghost predicate ClickOutcome(b: Board, s: GameState, row: int, col: int)
  {
    && InGrid(b, row, col) && s != Ready
    && (s == Lost <==> b[row][col].isMine)
    && (s != Lost ==> b[row][col].isRevealed)
    && (s == Won <==> s != Lost && AllSafeRevealed(b))
  }

  /**
   * The board b and state s an accepted click on (row, col) in play leads to
   * from board b0 with counter n0 (n afterwards). On a mine the game is lost,
   * every mine is shown and the counter stays. On a safe cell the board is
   * what a reveal from (row, col) makes of b0, with the counter it leaves,
   * and the game is won, with the mines shown, or still in play.
   */
  ghost predicate ClickEffect(b0: Board, b: Board, s: GameState, row: int, col: int, n0: int, n: int)
  {
    && InGrid(b0, row, col)
    && (b0[row][col].isMine ==> s == Lost && b == ExposeMines(b0) && n == n0)
    && (!b0[row][col].isMine ==>
          && (s == Won || s == Playing)
          && exists b1 :: RevealSpec(b0, b1, row, col, n0, n) && b == (if s == Won then ExposeMines(b1) else b1))
  }

  /**
   * A board b that is b0 with mines laid for a first click on (row, col):
   * well formed, the same size, holding exactly `mines` mines, none on
   * (row, col), and every cell as in b0 but for its mine bit and number.
   */
  ghost predicate MinesLaid(b0: Board, b: Board, rows: nat, cols: nat, mines: nat, row: int, col: int)
  {
    && Shaped(b0, rows, cols) && WellFormedBoard(b, rows, cols)
    && |Mines(b)| == mines && InGrid(b, row, col) && !b[row][col].isMine
    && forall i, j :: InGrid(b, i, j) ==> b[i][j] == b0[i][j].(isMine := b[i][j].isMine, neighborMines := b[i][j].neighborMines)
  }
}
