/**
 * The Minesweeper grid as a value: the cell record, the sets of positions
 * that share a property (mines, uncovered cells, flags), the neighbour count
 * every number on the board is meant to show, and the facts about them that
 * the game class in minesweeper.dfy relies on.
 */
module Minefield {

  /** One square of the grid, with the fields of the game's cell record. */
  datatype Cell = Cell(isMine: bool, isRevealed: bool, isFlagged: bool, neighborMines: int, row: int, col: int)

  /** The grid: a list of rows, each a list of cells. */
  type Board = seq<seq<Cell>>

  /** A (row, column) coordinate. */
  type Pos = (int, int)

  /** The cell a new board starts with at (r, c). */
  function Blank(r: int, c: int): Cell
  {
    Cell(false, false, false, 0, r, c)
  }

  predicate InGrid(b: Board, i: int, j: int)
  {
    0 <= i < |b| && 0 <= j < |b[i]|
  }

  /** (i, j) lies within one row and one column of (row, col); (row, col) itself included. */
  predicate Near(row: int, col: int, i: int, j: int)
  {
    row - 1 <= i <= row + 1 && col - 1 <= j <= col + 1
  }

  /** b has rows rows of cols cells each. */
  ghost predicate Shaped(b: Board, rows: nat, cols: nat)
  {
    |b| == rows && forall i :: 0 <= i < |b| ==> |b[i]| == cols
  }

  /** Every cell records its own coordinates. */
  ghost predicate Labelled(b: Board)
  {
    forall i, j :: InGrid(b, i, j) ==> b[i][j].row == i && b[i][j].col == j
  }

  // ---------------------------------------------------------------------
  // Sets of positions
  // ---------------------------------------------------------------------

  /** All coordinates of a rows × cols grid. */
  ghost function Grid(rows: nat, cols: nat): set<Pos>
  {
    set i, j | 0 <= i < rows && 0 <= j < cols :: (i, j)
  }

  ghost function Mines(b: Board): set<Pos>
  {
    set i, j | 0 <= i < |b| && 0 <= j < |b[i]| && b[i][j].isMine :: (i, j)
  }

  ghost function Safe(b: Board): set<Pos>
  {
    set i, j | 0 <= i < |b| && 0 <= j < |b[i]| && !b[i][j].isMine :: (i, j)
  }

  ghost function Revealed(b: Board): set<Pos>
  {
    set i, j | 0 <= i < |b| && 0 <= j < |b[i]| && b[i][j].isRevealed :: (i, j)
  }

  /** The uncovered cells that are not mines: what the game's revealedCount counts. */
  ghost function RevealedSafe(b: Board): set<Pos>
  {
    set i, j | 0 <= i < |b| && 0 <= j < |b[i]| && b[i][j].isRevealed && !b[i][j].isMine :: (i, j)
  }

  ghost function Flagged(b: Board): set<Pos>
  {
    set i, j | 0 <= i < |b| && 0 <= j < |b[i]| && b[i][j].isFlagged :: (i, j)
  }

  /** The cells still covered; uncovering only ever shrinks this set. */
  ghost function Covered(b: Board): set<Pos>
  {
    set i, j | 0 <= i < |b| && 0 <= j < |b[i]| && !b[i][j].isRevealed :: (i, j)
  }

  /** The mines in the 3 × 3 window around (row, col), clipped at the edges of the grid. */
  ghost function MinesNear(b: Board, row: int, col: int): set<Pos>
  {
    set i, j | row - 1 <= i <= row + 1 && col - 1 <= j <= col + 1 && InGrid(b, i, j) && b[i][j].isMine :: (i, j)
  }

  /** The number a safe cell at (row, col) should show. */
  ghost function MinesAround(b: Board, row: int, col: int): nat
  {
    |MinesNear(b, row, col)|
  }

  /** Every safe cell shows the number of mines around it. */
  ghost predicate CountsCorrect(b: Board)
  {
    forall i, j {:trigger b[i][j].neighborMines} :: InGrid(b, i, j) && !b[i][j].isMine ==> b[i][j].neighborMines == MinesAround(b, i, j)
  }

  /** A rows × cols board whose cells know their coordinates and whose safe cells show their true counts. */
  ghost predicate WellFormedBoard(b: Board, rows: nat, cols: nat)
  {
    Shaped(b, rows, cols) && Labelled(b) && CountsCorrect(b)
  }

  // ---------------------------------------------------------------------
  // Relations between boards
  // ---------------------------------------------------------------------

  /** Same shape and the same mines, cell by cell. */
  ghost predicate SameMines(b0: Board, b1: Board)
  {
    && |b1| == |b0|
    && (forall i :: 0 <= i < |b0| ==> |b1[i]| == |b0[i]|)
    && forall i, j :: InGrid(b0, i, j) ==> b1[i][j].isMine == b0[i][j].isMine
  }

  // ---------------------------------------------------------------------
  // Single-step board updates
  // ---------------------------------------------------------------------

  /** The board with the flag at (r, c) flipped. */
  function ToggleFlag(b: Board, r: int, c: int): (b': Board)
    requires InGrid(b, r, c)
    ensures b[r][c].isFlagged ==> Flagged(b') == Flagged(b) - {(r, c)} && (r, c) in Flagged(b)
    ensures !b[r][c].isFlagged ==> Flagged(b') == Flagged(b) + {(r, c)} && (r, c) !in Flagged(b)
    ensures Mines(b') == Mines(b) && Revealed(b') == Revealed(b) && RevealedSafe(b') == RevealedSafe(b)
    ensures SameMines(b, b')
  {
    b[r := b[r][c := b[r][c].(isFlagged := !b[r][c].isFlagged)]]
  }

  /** The cell as it is shown once the game is over: a mine is uncovered, any other cell kept as it was. */
  function Exposed(cell: Cell): (e: Cell)
    ensures e.isRevealed == (cell.isRevealed || cell.isMine)
    ensures e.(isRevealed := cell.isRevealed) == cell
  {
    if cell.isMine then cell.(isRevealed := true) else cell
  }

  /** The board with every mine uncovered and every other cell left as it was. */
  function ExposeMines(b: Board): (b': Board)
    ensures |b'| == |b| && forall i :: 0 <= i < |b| ==> |b'[i]| == |b[i]|
    ensures forall i, j :: InGrid(b, i, j) && b[i][j].isMine ==> b'[i][j].isRevealed
    ensures forall i, j :: InGrid(b, i, j) && b[i][j].isMine ==> b'[i][j].(isRevealed := false) == b[i][j].(isRevealed := false)
    ensures forall i, j :: InGrid(b, i, j) && !b[i][j].isMine ==> b'[i][j] == b[i][j]
  {
    seq(|b|, i requires 0 <= i < |b| => seq(|b[i]|, j requires 0 <= j < |b[i]| => Exposed(b[i][j])))
  }

  // ---------------------------------------------------------------------
  // Cardinality facts
  // ---------------------------------------------------------------------

  lemma SubsetCard<T>(a: set<T>, b: set<T>)
    requires a <= b
    ensures |b - a| == |b| - |a|
    ensures |a| <= |b|
    ensures |a| == |b| ==> a == b
  {
    assert b == a + (b - a);
  }

  /** The coordinates of one row of cols cells. */
  ghost function RowCells(r: int, cols: nat): set<Pos>
  {
    set j | 0 <= j < cols :: (r, j)
  }

  lemma {:induction false} RowCellsSize(r: int, cols: nat)
    ensures |RowCells(r, cols)| == cols
  {
    if cols > 0 {
      RowCellsSize(r, cols - 1);
      assert RowCells(r, cols) == RowCells(r, cols - 1) + {(r, cols - 1)};
    } else {
      assert RowCells(r, cols) == {};
    }
  }

  /** The last row of a grid splits off from the rows above it. */
  lemma GridSplit(rows: nat, cols: nat)
    requires rows > 0
    ensures Grid(rows, cols) == Grid(rows - 1, cols) + RowCells(rows - 1, cols)
    ensures Grid(rows - 1, cols) !! RowCells(rows - 1, cols)
  {
  }

  /** A rows × cols grid has rows * cols cells. */
  lemma {:induction false} GridSize(rows: nat, cols: nat)
    ensures |Grid(rows, cols)| == rows * cols
  {
    if rows > 0 {
      GridSize(rows - 1, cols);
      RowCellsSize(rows - 1, cols);
      GridSplit(rows, cols);
      var above, last := Grid(rows - 1, cols), RowCells(rows - 1, cols);
      assert |above + last| == |above| + |last|;
      assert (rows - 1) * cols + cols == rows * cols;
    } else {
      assert Grid(rows, cols) == {};
    }
  }

  /** The mines and the safe cells of a rows × cols board split its grid. */
  lemma ShapedPartition(b: Board, rows: nat, cols: nat)
    requires Shaped(b, rows, cols)
    ensures Mines(b) + Safe(b) == Grid(rows, cols) && Mines(b) !! Safe(b)
    ensures |Safe(b)| == rows * cols - |Mines(b)|
    ensures RevealedSafe(b) <= Safe(b)
  {
    GridSize(rows, cols);
    assert Mines(b) + Safe(b) == Grid(rows, cols);
  }

  /**
   * The win test: with |Mines(b)| == mines, counting rows * cols - mines
   * uncovered safe cells is the same as every safe cell being uncovered.
   */
  lemma WinIffAllSafeRevealed(b: Board, rows: nat, cols: nat, mines: nat)
    requires Shaped(b, rows, cols) && |Mines(b)| == mines
    ensures |RevealedSafe(b)| == rows * cols - mines <==>
            forall i, j :: InGrid(b, i, j) && !b[i][j].isMine ==> b[i][j].isRevealed
  {
    ShapedPartition(b, rows, cols);
    SubsetCard(RevealedSafe(b), Safe(b));
    if forall i, j :: InGrid(b, i, j) && !b[i][j].isMine ==> b[i][j].isRevealed {
      assert RevealedSafe(b) == Safe(b);
    }
    if |RevealedSafe(b)| == rows * cols - mines {
      assert RevealedSafe(b) == Safe(b);
      forall i, j | InGrid(b, i, j) && !b[i][j].isMine
        ensures b[i][j].isRevealed
      {
        assert (i, j) in Safe(b);
      }
    }
  }

  /**
   * While fewer than rows * cols - 1 mines are down, some cell other than
   * (fr, fc) is still free: the placement loop can always make progress.
   */
  lemma FreeCellExists(b: Board, rows: nat, cols: nat, fr: int, fc: int)
    requires Shaped(b, rows, cols) && |Mines(b)| + 1 < rows * cols
    ensures exists r, c :: 0 <= r < rows && 0 <= c < cols && !(r == fr && c == fc) && !b[r][c].isMine
  {
    ShapedPartition(b, rows, cols);
    var taken := Mines(b) + {(fr, fc)};
    if Grid(rows, cols) <= taken {
      SubsetCard(Grid(rows, cols), taken);
      assert false;
    }
    var p :| p in Grid(rows, cols) && p !in taken;
    assert p in Safe(b);
  }

  // ---------------------------------------------------------------------
  // Laying mines
  // ---------------------------------------------------------------------

  /**
   * The state of the mine-laying loop over b0 after k mines: b differs from
   * b0 only in which cells are mines, there are k of them, and (fr, fc) is not
   * one.
   */
  ghost predicate LaidMines(b0: Board, b: Board, rows: nat, cols: nat, fr: int, fc: int, k: int)
  {
    && Shaped(b0, rows, cols) && Shaped(b, rows, cols) && Labelled(b)
    && |Mines(b)| == k
    && InGrid(b, fr, fc) && !b[fr][fc].isMine
    && forall i, j :: InGrid(b, i, j) ==> b[i][j] == b0[i][j].(isMine := b[i][j].isMine)
  }

  /** A labelled board without mines is the start of the mine laying. */
  lemma LayStart(b0: Board, rows: nat, cols: nat, fr: int, fc: int)
    requires Shaped(b0, rows, cols) && Labelled(b0) && InGrid(b0, fr, fc) && Mines(b0) == {}
    ensures LaidMines(b0, b0, rows, cols, fr, fc, 0)
  {
    assert b0[fr][fc].isMine ==> (fr, fc) in Mines(b0);
  }

  /** Turning a free cell into a mine adds exactly that cell to the mines. */
  lemma MarkMine(b: Board, row: int, col: int)
    requires InGrid(b, row, col) && !b[row][col].isMine
    ensures Mines(b[row := b[row][col := b[row][col].(isMine := true)]]) == Mines(b) + {(row, col)}
    ensures (row, col) !in Mines(b)
  {
    var b1 := b[row := b[row][col := b[row][col].(isMine := true)]];
    forall p | p in Mines(b1)
      ensures p in Mines(b) + {(row, col)}
    {
    }
  }

  /** Turning a free cell other than (fr, fc) into a mine lays one more mine. */
  lemma LayMine(b0: Board, b: Board, rows: nat, cols: nat, fr: int, fc: int, k: int, row: int, col: int)
    requires LaidMines(b0, b, rows, cols, fr, fc, k)
    requires 0 <= row < rows && 0 <= col < cols && !(row == fr && col == fc) && !b[row][col].isMine
    ensures LaidMines(b0, b[row := b[row][col := b[row][col].(isMine := true)]], rows, cols, fr, fc, k + 1)
  {
    MarkMine(b, row, col);
  }

  /**
   * Laying mines on b0 and then recounting the result changes only the mines
   * and the numbers: the uncovered and flagged cells are those of b0.
   */
  lemma LaidThenRecounted(b0: Board, laid: Board, b: Board, rows: nat, cols: nat, fr: int, fc: int, k: int)
    requires LaidMines(b0, laid, rows, cols, fr, fc, k)
    requires SameMines(laid, b) && Mines(b) == Mines(laid)
    requires forall i, j :: InGrid(b, i, j) ==> b[i][j] == laid[i][j].(neighborMines := b[i][j].neighborMines)
    ensures |Mines(b)| == k && !b[fr][fc].isMine
    ensures forall i, j :: InGrid(b, i, j) ==>
              b[i][j] == b0[i][j].(isMine := b[i][j].isMine, neighborMines := b[i][j].neighborMines)
    ensures Revealed(b) == Revealed(b0) && Flagged(b) == Flagged(b0)
  {
  }

  // ---------------------------------------------------------------------
  // Neighbour counts
  // ---------------------------------------------------------------------

  /** Changing anything but the mines leaves the mines around any position as they were. */
  lemma SameMinesSameCount(b0: Board, b1: Board, row: int, col: int)
    requires SameMines(b0, b1)
    ensures MinesNear(b1, row, col) == MinesNear(b0, row, col)
    ensures MinesAround(b1, row, col) == MinesAround(b0, row, col)
  {
    assert forall p :: p in MinesNear(b1, row, col) <==> p in MinesNear(b0, row, col);
  }

  /** Changing anything but the mines and the shown numbers keeps every shown number correct. */
  lemma SameMinesCountsCorrect(b0: Board, b1: Board)
    requires SameMines(b0, b1) && CountsCorrect(b0)
    requires forall i, j :: InGrid(b0, i, j) ==> b1[i][j].neighborMines == b0[i][j].neighborMines
    ensures CountsCorrect(b1) && Mines(b1) == Mines(b0)
  {
    forall i, j | InGrid(b1, i, j) && !b1[i][j].isMine
      ensures b1[i][j].neighborMines == MinesAround(b1, i, j)
    {
      SameMinesSameCount(b0, b1, i, j);
    }
  }

  /** The mines of the window around (row, col) that come before (r, c) in row-major order. */
  ghost function Scanned(b: Board, row: int, col: int, r: int, c: int): set<Pos>
  {
    set i, j | row - 1 <= i <= row + 1 && col - 1 <= j <= col + 1 && (i < r || (i == r && j < c)) && InGrid(b, i, j) && b[i][j].isMine :: (i, j)
  }

  /** One more cell of the window scanned: the set grows by that cell exactly when it is an in-grid mine. */
  lemma ScanStep(b: Board, row: int, col: int, r: int, c: int)
    requires row - 1 <= r <= row + 1 && col - 1 <= c <= col + 1
    ensures InGrid(b, r, c) && b[r][c].isMine ==> Scanned(b, row, col, r, c + 1) == Scanned(b, row, col, r, c) + {(r, c)}
    ensures !(InGrid(b, r, c) && b[r][c].isMine) ==> Scanned(b, row, col, r, c + 1) == Scanned(b, row, col, r, c)
    ensures (r, c) !in Scanned(b, row, col, r, c)
  {
  }

  /** The end of one window row is the start of the next, and past the last row the whole window is scanned. */
  lemma ScanRows(b: Board, row: int, col: int, r: int)
    ensures Scanned(b, row, col, r, col + 2) == Scanned(b, row, col, r + 1, col - 1)
    ensures Scanned(b, row, col, row - 1, col - 1) == {}
    ensures Scanned(b, row, col, row + 2, col - 1) == MinesNear(b, row, col)
  {
  }

  /** A safe cell that shows zero has no mine anywhere around it, so the cascade from it never steps on one. */
  lemma ZeroMeansNoMineNear(b: Board, row: int, col: int)
    requires CountsCorrect(b) && InGrid(b, row, col) && !b[row][col].isMine && b[row][col].neighborMines == 0
    ensures forall i, j :: Near(row, col, i, j) && InGrid(b, i, j) ==> !b[i][j].isMine
  {
    forall i, j | Near(row, col, i, j) && InGrid(b, i, j)
      ensures !b[i][j].isMine
    {
      assert b[i][j].isMine ==> (i, j) in MinesNear(b, row, col);
    }
  }

  /** The eight cells at Chebyshev distance exactly 1 from (row, col). */
  function Ring(row: int, col: int): set<Pos>
  {
    {(row - 1, col - 1), (row - 1, col), (row - 1, col + 1),
     (row, col - 1), (row, col + 1),
     (row + 1, col - 1), (row + 1, col), (row + 1, col + 1)}
  }

  /**
   * Around a safe cell the 3 × 3 window holds only neighbours proper, so the
   * number it shows lies in 0..8.
   */
  lemma SafeCountAtMostEight(b: Board, row: int, col: int)
    requires InGrid(b, row, col) && !b[row][col].isMine
    ensures MinesNear(b, row, col) <= Ring(row, col)
    ensures MinesAround(b, row, col) <= 8
  {
    var ring := Ring(row, col);
    assert |ring| <= 8;
    SubsetCard(MinesNear(b, row, col), ring);
  }

  /** No mines at all: every neighbour count is zero. */
  lemma NoMinesNoCounts(b: Board)
    requires Mines(b) == {}
    ensures forall row, col :: MinesAround(b, row, col) == 0
  {
    forall row, col ensures MinesNear(b, row, col) == {} {
      assert forall p :: p in MinesNear(b, row, col) ==> p in Mines(b);
    }
  }

  /**
   * A board made only of fresh cells has no mine, nothing uncovered and no
   * flag, and its zero counts are the true ones.
   */
  lemma BlankBoard(b: Board)
    requires forall i, j :: InGrid(b, i, j) ==> b[i][j] == Blank(i, j)
    ensures Mines(b) == {} && Revealed(b) == {} && Flagged(b) == {} && RevealedSafe(b) == {}
    ensures CountsCorrect(b)
  {
    assert forall p :: p !in Mines(b) && p !in Revealed(b) && p !in Flagged(b);
    NoMinesNoCounts(b);
  }

  // ---------------------------------------------------------------------
  // Recounting a whole board
  // ---------------------------------------------------------------------

  /**
   * The state of a row-major recount of b0 that has reached (r, c): b differs
   * from b0 only in the numbers of safe cells, and every safe cell before
   * (r, c) holds its true count.
   */
  ghost predicate RecountedBefore(b0: Board, b: Board, rows: nat, cols: nat, r: int, c: int)
  {
    && Shaped(b0, rows, cols) && SameMines(b0, b)
    && (forall i, j :: InGrid(b, i, j) ==> b[i][j] == b0[i][j].(neighborMines := b[i][j].neighborMines))
    && (forall i, j :: InGrid(b, i, j) && b[i][j].isMine ==> b[i][j] == b0[i][j])
    && (forall i, j :: InGrid(b, i, j) && !b[i][j].isMine && (i < r || (i == r && j < c)) ==>
          b[i][j].neighborMines == MinesAround(b0, i, j))
  }

  /** Nothing is recounted yet. */
  lemma RecountStart(b0: Board, rows: nat, cols: nat)
    requires Shaped(b0, rows, cols)
    ensures RecountedBefore(b0, b0, rows, cols, 0, 0)
  {
  }

  /** A mine cell keeps its record; the recount moves past it. */
  lemma RecountSkip(b0: Board, b: Board, rows: nat, cols: nat, r: int, c: int)
    requires RecountedBefore(b0, b, rows, cols, r, c) && 0 <= r < rows && 0 <= c < cols && b[r][c].isMine
    ensures RecountedBefore(b0, b, rows, cols, r, c + 1)
  {
  }

  /** A safe cell gets the number of mines around it on the current board; the recount moves past it. */
  lemma RecountSet(b0: Board, b: Board, rows: nat, cols: nat, r: int, c: int, n: int)
    requires RecountedBefore(b0, b, rows, cols, r, c) && 0 <= r < rows && 0 <= c < cols && !b[r][c].isMine
    requires n == MinesAround(b, r, c)
    ensures RecountedBefore(b0, b[r := b[r][c := b[r][c].(neighborMines := n)]], rows, cols, r, c + 1)
  {
    SameMinesSameCount(b0, b, r, c);
  }

  /** The end of one row is the start of the next. */
  lemma RecountNextRow(b0: Board, b: Board, rows: nat, cols: nat, r: int)
    requires RecountedBefore(b0, b, rows, cols, r, cols)
    ensures RecountedBefore(b0, b, rows, cols, r + 1, 0)
  {
  }

  /** A finished recount of a labelled board leaves it well formed, with the same mines and the same cells but for the numbers. */
  lemma RecountDone(b0: Board, b: Board, rows: nat, cols: nat)
    requires RecountedBefore(b0, b, rows, cols, rows, 0) && Labelled(b0)
    ensures WellFormedBoard(b, rows, cols) && SameMines(b0, b) && Mines(b) == Mines(b0)
    ensures forall i, j :: InGrid(b, i, j) ==> b[i][j] == b0[i][j].(neighborMines := b[i][j].neighborMines)
    ensures forall i, j :: InGrid(b, i, j) && b[i][j].isMine ==> b[i][j] == b0[i][j]
  {
    forall i, j | InGrid(b, i, j) && !b[i][j].isMine
      ensures b[i][j].neighborMines == MinesAround(b, i, j)
    {
      SameMinesSameCount(b0, b, i, j);
    }
  }

  // ---------------------------------------------------------------------
  // End of game and flags
  // ---------------------------------------------------------------------

  /** Uncovering the mines keeps the mines, the flags and the count of uncovered safe cells. */
  lemma ExposeMinesKeeps(b: Board)
    ensures Mines(ExposeMines(b)) == Mines(b)
    ensures Flagged(ExposeMines(b)) == Flagged(b)
    ensures RevealedSafe(ExposeMines(b)) == RevealedSafe(b)
    ensures Mines(b) <= Revealed(ExposeMines(b))
    ensures SameMines(b, ExposeMines(b))
  {
    var e := ExposeMines(b);
    forall p | p in Mines(b) ensures p in Revealed(e) {
      var (i, j) := p;
      assert InGrid(b, i, j) && b[i][j].isMine;
    }
  }

  /** Uncovering the mines a second time changes nothing. */
  lemma ExposeMinesIdempotent(b: Board)
    ensures ExposeMines(ExposeMines(b)) == ExposeMines(b)
  {
    var e := ExposeMines(b);
    var ee := ExposeMines(e);
    forall i | 0 <= i < |e| ensures ee[i] == e[i] {
      assert |ee[i]| == |e[i]|;
      forall j | 0 <= j < |e[i]| ensures ee[i][j] == e[i][j] {
        assert InGrid(e, i, j);
      }
    }
  }

  /** Flipping the same flag twice gives back the board. */
  lemma ToggleFlagTwice(b: Board, r: int, c: int)
    requires InGrid(b, r, c)
    ensures ToggleFlag(ToggleFlag(b, r, c), r, c) == b
  {
    var t := ToggleFlag(ToggleFlag(b, r, c), r, c);
    assert t[r] == b[r];
  }

  /** Uncovering the mines keeps a board well formed. */
  lemma ExposeMinesWellFormed(b: Board, rows: nat, cols: nat)
    requires WellFormedBoard(b, rows, cols)
    ensures WellFormedBoard(ExposeMines(b), rows, cols)
  {
    ExposeMinesKeeps(b);
    SameMinesCountsCorrect(b, ExposeMines(b));
  }

  /** Flipping a flag keeps a board well formed. */
  lemma ToggleFlagWellFormed(b: Board, rows: nat, cols: nat, r: int, c: int)
    requires WellFormedBoard(b, rows, cols) && InGrid(b, r, c)
    ensures WellFormedBoard(ToggleFlag(b, r, c), rows, cols)
  {
    SameMinesCountsCorrect(b, ToggleFlag(b, r, c));
  }

  /**
   * The state of the row-major pass that uncovers the mines of b0, once it
   * has reached (r, c): cells before (r, c) are exposed, the rest untouched.
   */
  ghost predicate ExposedBefore(b0: Board, b: Board, rows: nat, cols: nat, r: int, c: int)
  {
    && Shaped(b0, rows, cols) && Shaped(b, rows, cols)
    && forall i, j :: InGrid(b, i, j) ==>
         b[i][j] == if i < r || (i == r && j < c) then Exposed(b0[i][j]) else b0[i][j]
  }

  /** Nothing is exposed yet. */
  lemma ExposeStart(b0: Board, rows: nat, cols: nat)
    requires Shaped(b0, rows, cols)
    ensures ExposedBefore(b0, b0, rows, cols, 0, 0)
  {
  }

  /** Uncovering (r, c) when it is a mine, and leaving it otherwise, exposes it. */
  lemma ExposeStep(b0: Board, b: Board, rows: nat, cols: nat, r: int, c: int)
    requires ExposedBefore(b0, b, rows, cols, r, c) && 0 <= r < rows && 0 <= c < cols
    ensures b[r][c].isMine ==> ExposedBefore(b0, b[r := b[r][c := b[r][c].(isRevealed := true)]], rows, cols, r, c + 1)
    ensures !b[r][c].isMine ==> ExposedBefore(b0, b, rows, cols, r, c + 1)
  {
  }

  /** The end of one row is the start of the next. */
  lemma ExposeNextRow(b0: Board, b: Board, rows: nat, cols: nat, r: int)
    requires ExposedBefore(b0, b, rows, cols, r, cols)
    ensures ExposedBefore(b0, b, rows, cols, r + 1, 0)
  {
  }

  /** A finished pass has exposed every mine of b0 and nothing else. */
  lemma ExposeDone(b0: Board, b: Board, rows: nat, cols: nat)
    requires ExposedBefore(b0, b, rows, cols, rows, 0)
    ensures b == ExposeMines(b0)
  {
    var e := ExposeMines(b0);
    forall i | 0 <= i < rows ensures b[i] == e[i] {
      forall j | 0 <= j < cols ensures b[i][j] == e[i][j] {
        assert InGrid(b, i, j);
      }
    }
  }
}
