/**
 * The flood-fill reveal, stated on board values: what one reveal call may
 * do to the board and the revealed-cell counter, the state the cascade loop
 * keeps over the 3 × 3 window, and the lemmas that carry that state from one
 * window position to the next.
 */
module Cascade {
  import opened Minefield

  // ---------------------------------------------------------------------
  // What a reveal does
  // ---------------------------------------------------------------------

  /** Every in-grid cell around (i, j) is uncovered or flagged. */
  ghost predicate NeighboursSettled(b: Board, i: int, j: int)
  {
    forall x, y :: Near(i, j, x, y) && InGrid(b, x, y) ==> b[x][y].isRevealed || b[x][y].isFlagged
  }

  /** Same grid shape, and each cell of b1 is the cell of b0 or, for a covered unflagged cell, that cell uncovered. */
  ghost predicate Uncovers(b0: Board, b1: Board)
  {
    && |b1| == |b0|
    && (forall i :: 0 <= i < |b0| ==> |b1[i]| == |b0[i]|)
    && forall i, j :: InGrid(b0, i, j) ==>
         || b1[i][j] == b0[i][j]
         || (!b0[i][j].isRevealed && !b0[i][j].isFlagged && b1[i][j] == b0[i][j].(isRevealed := true))
  }

  /** No mine went from covered in b0 to uncovered in b1. */
  ghost predicate NoMineUncovered(b0: Board, b1: Board)
  {
    forall i, j :: InGrid(b0, i, j) && InGrid(b1, i, j) && b1[i][j].isRevealed && !b0[i][j].isRevealed ==> !b1[i][j].isMine
  }

  /** Every cell uncovered between b0 and b1 that shows zero has its whole neighbourhood uncovered or flagged. */
  ghost predicate CascadeClosed(b0: Board, b1: Board)
  {
    forall i, j :: InGrid(b0, i, j) && InGrid(b1, i, j) && b1[i][j].isRevealed && !b0[i][j].isRevealed && b1[i][j].neighborMines == 0 ==>
      NeighboursSettled(b1, i, j)
  }

  /** The cell at q was covered in b0 and is uncovered in b1. */
  ghost predicate NewlyUncovered(b0: Board, b1: Board, q: Pos)
  {
    InGrid(b0, q.0, q.1) && InGrid(b1, q.0, q.1) && b1[q.0][q.1].isRevealed && !b0[q.0][q.1].isRevealed
  }

  /**
   * A route the cascade can take between b0 and b1: a non-empty chain of
   * positions, each within one row and one column of the one before, all
   * uncovered between b0 and b1, and every one but the last showing zero.
   */
  ghost predicate FloodPath(b0: Board, b1: Board, p: seq<Pos>)
    decreases |p|
  {
    && |p| > 0
    && NewlyUncovered(b0, b1, p[0])
    && (|p| > 1 ==>
          && b0[p[0].0][p[0].1].neighborMines == 0
          && Near(p[0].0, p[0].1, p[1].0, p[1].1)
          && FloodPath(b0, b1, p[1..]))
  }

  /** Some route of the cascade leads from (row, col) to q. */
  ghost predicate Reaches(b0: Board, b1: Board, row: int, col: int, q: Pos)
  {
    exists p :: FloodPath(b0, b1, p) && p[0] == (row, col) && p[|p| - 1] == q
  }

  /** Every cell uncovered between b0 and b1 is reached from (row, col) through uncovered zero cells. */
  ghost predicate FromStart(b0: Board, b1: Board, row: int, col: int)
  {
    forall q :: NewlyUncovered(b0, b1, q) ==> Reaches(b0, b1, row, col, q)
  }

  /**
   * The contract of one reveal at (row, col), taking board b0 with counter n0
   * to board b1 with counter n1:
   *  - only covered, unflagged cells are uncovered and nothing else changes;
   *  - the counter grows by exactly the number of cells uncovered (the
   *    uncovered set only grows, so this is the growth of its size);
   *  - a cell already uncovered or flagged is left alone, with the board unchanged;
   *  - a covered, unflagged cell that shows a nonzero number is uncovered alone;
   *  - afterwards (row, col) is uncovered or flagged;
   *  - every zero cell this reveal uncovers has its neighbourhood uncovered or flagged;
   *  - every cell this reveal uncovers is reached from (row, col) through
   *    zero cells it uncovers, so nothing beyond the flood region is touched;
   *  - starting from a safe cell, no mine is uncovered.
   */
  ghost predicate RevealSpec(b0: Board, b1: Board, row: int, col: int, n0: int, n1: int)
  {
    && InGrid(b0, row, col)
    && Uncovers(b0, b1)
    && n1 + |Revealed(b0)| == n0 + |Revealed(b1)|
    && (b0[row][col].isRevealed || b0[row][col].isFlagged ==> b1 == b0)
    && (!b0[row][col].isRevealed && !b0[row][col].isFlagged && b0[row][col].neighborMines != 0 ==>
          forall q :: NewlyUncovered(b0, b1, q) ==> q == (row, col))
    && (b1[row][col].isRevealed || b1[row][col].isFlagged)
    && CascadeClosed(b0, b1)
    && FromStart(b0, b1, row, col)
    && (!b0[row][col].isMine ==> NoMineUncovered(b0, b1))
  }

  /** The board with the cell at (r, c) uncovered. */
  function Uncover(b: Board, r: int, c: int): (b': Board)
    requires InGrid(b, r, c)
    ensures !b[r][c].isRevealed ==> Revealed(b') == Revealed(b) + {(r, c)} && (r, c) !in Revealed(b)
    ensures !b[r][c].isRevealed && !b[r][c].isFlagged ==> Uncovers(b, b')
    ensures Mines(b') == Mines(b) && Flagged(b') == Flagged(b) && SameMines(b, b')
  {
    b[r := b[r][c := b[r][c].(isRevealed := true)]]
  }

  // ---------------------------------------------------------------------
  // Facts about uncovering
  // ---------------------------------------------------------------------

  /** Uncovering changes nothing but the covered state: not the mines, the flags or the numbers. */
  lemma UncoversKeepsLayout(b0: Board, b1: Board)
    requires Uncovers(b0, b1)
    ensures SameMines(b0, b1)
    ensures forall i, j :: InGrid(b0, i, j) ==> b1[i][j].neighborMines == b0[i][j].neighborMines
    ensures Mines(b1) == Mines(b0) && Flagged(b1) == Flagged(b0)
    ensures Revealed(b0) <= Revealed(b1) && Covered(b1) <= Covered(b0)
  {
  }

  /** Uncovering keeps a board well formed. */
  lemma UncoversWellFormed(b0: Board, b1: Board, rows: nat, cols: nat)
    requires Uncovers(b0, b1) && WellFormedBoard(b0, rows, cols)
    ensures WellFormedBoard(b1, rows, cols)
  {
    UncoversKeepsLayout(b0, b1);
    SameMinesCountsCorrect(b0, b1);
  }

  /** Uncovering in two steps is uncovering. */
  lemma UncoversTrans(b0: Board, b1: Board, b2: Board)
    requires Uncovers(b0, b1) && Uncovers(b1, b2)
    ensures Uncovers(b0, b2)
    ensures Revealed(b0) <= Revealed(b1) <= Revealed(b2)
  {
  }

  /** Uncovering safe cells adds them to the count of uncovered safe cells, one for one. */
  lemma UncoveredSafeCount(b0: Board, b1: Board)
    requires Uncovers(b0, b1) && NoMineUncovered(b0, b1)
    ensures Revealed(b0) <= Revealed(b1)
    ensures |RevealedSafe(b1)| + |Revealed(b0)| == |RevealedSafe(b0)| + |Revealed(b1)|
  {
    var added := Revealed(b1) - Revealed(b0);
    assert RevealedSafe(b1) == RevealedSafe(b0) + added;
    assert RevealedSafe(b0) !! added;
    assert Revealed(b1) == Revealed(b0) + added;
    assert Revealed(b0) !! added;
  }

  /** A reveal that uncovers no mine keeps the uncovered cells clear of mines and counts each new cell once. */
  lemma SafeReveal(b0: Board, b1: Board)
    requires Uncovers(b0, b1) && NoMineUncovered(b0, b1) && Revealed(b0) !! Mines(b0)
    ensures Revealed(b1) !! Mines(b1) && Mines(b1) == Mines(b0) && Flagged(b1) == Flagged(b0)
    ensures |RevealedSafe(b1)| + |Revealed(b0)| == |RevealedSafe(b0)| + |Revealed(b1)|
  {
    UncoversKeepsLayout(b0, b1);
    UncoveredSafeCount(b0, b1);
  }

  // ---------------------------------------------------------------------
  // Single-step reveals
  // ---------------------------------------------------------------------

  /** Revealing a cell that is already uncovered or flagged is a no-op. */
  lemma RevealSkipped(b: Board, row: int, col: int, n: int)
    requires InGrid(b, row, col) && (b[row][col].isRevealed || b[row][col].isFlagged)
    ensures RevealSpec(b, b, row, col, n, n)
  {
  }

  /** Uncovering a covered cell alone: the only cell uncovered is the start, reached by the one-cell route. */
  lemma UncoverFromStart(b0: Board, row: int, col: int)
    requires InGrid(b0, row, col) && !b0[row][col].isRevealed
    ensures forall q :: NewlyUncovered(b0, Uncover(b0, row, col), q) ==> q == (row, col)
    ensures FromStart(b0, Uncover(b0, row, col), row, col)
  {
    var b1 := Uncover(b0, row, col);
    forall q | NewlyUncovered(b0, b1, q)
      ensures q == (row, col) && Reaches(b0, b1, row, col, q)
    {
      assert q == (row, col);
      assert FloodPath(b0, b1, [(row, col)]);
    }
  }

  /**
   * A reveal whose only newly uncovered cell is (row, col), covered and
   * unflagged before, yields exactly the board with that one cell uncovered.
   */
  lemma UncoveredAlone(b0: Board, b1: Board, row: int, col: int)
    requires InGrid(b0, row, col) && !b0[row][col].isRevealed && !b0[row][col].isFlagged
    requires Uncovers(b0, b1) && b1[row][col].isRevealed
    requires forall q :: NewlyUncovered(b0, b1, q) ==> q == (row, col)
    ensures b1 == Uncover(b0, row, col)
  {
    var u := Uncover(b0, row, col);
    forall i | 0 <= i < |b0|
      ensures b1[i] == u[i]
    {
      forall j | 0 <= j < |b0[i]|
        ensures b1[i][j] == u[i][j]
      {
        if b1[i][j] != b0[i][j] {
          assert NewlyUncovered(b0, b1, (i, j));
        }
      }
    }
  }

  /** Revealing a covered, unflagged cell that shows a nonzero number uncovers that cell alone. */
  lemma RevealSingle(b0: Board, row: int, col: int, n0: int)
    requires InGrid(b0, row, col) && !b0[row][col].isRevealed && !b0[row][col].isFlagged
    requires b0[row][col].neighborMines != 0
    ensures RevealSpec(b0, Uncover(b0, row, col), row, col, n0, n0 + 1)
  {
    var b1 := Uncover(b0, row, col);
    assert |Revealed(b1)| == |Revealed(b0)| + 1;
    UncoverFromStart(b0, row, col);
  }

  /** A reveal from a covered, unflagged cell that shows a nonzero number leaves exactly that cell uncovered. */
  lemma RevealNonzero(b0: Board, b1: Board, row: int, col: int, n0: int, n1: int)
    requires RevealSpec(b0, b1, row, col, n0, n1)
    requires !b0[row][col].isRevealed && !b0[row][col].isFlagged && b0[row][col].neighborMines != 0
    ensures b1 == Uncover(b0, row, col) && n1 == n0 + 1
  {
    UncoveredAlone(b0, b1, row, col);
    assert |Revealed(b1)| == |Revealed(b0)| + 1;
  }

  // ---------------------------------------------------------------------
  // The cascade over the 3 × 3 window
  // ---------------------------------------------------------------------

  /** The 3 × 3 window around (row, col), up to (r, c) in row-major order, is uncovered or flagged wherever it is in the grid. */
  ghost predicate SettledBefore(b: Board, row: int, col: int, r: int, c: int)
  {
    forall x, y :: Near(row, col, x, y) && (x < r || (x == r && y < c)) && InGrid(b, x, y) ==>
      b[x][y].isRevealed || b[x][y].isFlagged
  }

  /** Every cell uncovered between b0 and b, other than (row, col), that shows zero has its neighbourhood settled. */
  ghost predicate ClosedExcept(b0: Board, b: Board, row: int, col: int)
  {
    forall i, j :: (InGrid(b0, i, j) && InGrid(b, i, j) && b[i][j].isRevealed && !b0[i][j].isRevealed &&
                    b[i][j].neighborMines == 0 && (i, j) != (row, col)) ==> NeighboursSettled(b, i, j)
  }

  /** No mine within the 3 × 3 window around (row, col). */
  ghost predicate NoMineNear(b: Board, row: int, col: int)
  {
    forall i, j :: Near(row, col, i, j) && InGrid(b, i, j) ==> !b[i][j].isMine
  }

  /**
   * The state of the cascade from (row, col) once the window has been walked
   * up to (r, c): b0 and n0 are the board and the counter at the start of the
   * reveal, b and n the current ones.
   */
  ghost predicate CascadeInv(b0: Board, b: Board, row: int, col: int, r: int, c: int, n0: int, n: int)
  {
    && InGrid(b0, row, col) && !b0[row][col].isRevealed && !b0[row][col].isFlagged && b0[row][col].neighborMines == 0
    && Uncovers(b0, b) && b[row][col].isRevealed
    && n + |Revealed(b0)| == n0 + |Revealed(b)|
    && SettledBefore(b, row, col, r, c)
    && ClosedExcept(b0, b, row, col)
    && FromStart(b0, b, row, col)
    && (!b0[row][col].isMine ==> NoMineNear(b0, row, col) && NoMineUncovered(b0, b))
  }

  /** Uncovering a zero cell starts the cascade: nothing of the window is visited yet. */
  lemma CascadeStart(b0: Board, row: int, col: int, n0: int)
    requires InGrid(b0, row, col) && !b0[row][col].isRevealed && !b0[row][col].isFlagged
    requires b0[row][col].neighborMines == 0 && CountsCorrect(b0)
    ensures CascadeInv(b0, Uncover(b0, row, col), row, col, row - 1, col - 1, n0, n0 + 1)
  {
    var b1 := Uncover(b0, row, col);
    assert |Revealed(b1)| == |Revealed(b0)| + 1;
    UncoverFromStart(b0, row, col);
    if !b0[row][col].isMine {
      ZeroMeansNoMineNear(b0, row, col);
    }
  }

  /** While the cascade runs, the start cell is uncovered, so fewer cells are covered than when it began. */
  lemma CascadeShrinks(b0: Board, b: Board, row: int, col: int, r: int, c: int, n0: int, n: int)
    requires CascadeInv(b0, b, row, col, r, c, n0, n)
    ensures Covered(b) < Covered(b0)
  {
    UncoversKeepsLayout(b0, b);
    assert (row, col) in Covered(b0) && (row, col) !in Covered(b);
  }

  /** A settled neighbourhood stays settled as further cells are uncovered. */
  lemma SettledPersists(b1: Board, b2: Board, i: int, j: int)
    requires Uncovers(b1, b2) && NeighboursSettled(b1, i, j)
    ensures NeighboursSettled(b2, i, j)
  {
  }

  /** Two steps that uncover no mine uncover no mine. */
  lemma NoMineTrans(b0: Board, b1: Board, b2: Board)
    requires Uncovers(b0, b1) && Uncovers(b1, b2)
    requires NoMineUncovered(b0, b1) && NoMineUncovered(b1, b2)
    ensures NoMineUncovered(b0, b2)
  {
  }

  /**
   * A nested reveal inside the cascade from (row, col): cells closed before it
   * stay closed, the cells it uncovers are closed by its own contract, and the
   * window position it visited is now settled.
   */
  lemma ClosedStep(b0: Board, bk: Board, b1: Board, row: int, col: int, r: int, c: int)
    requires Uncovers(b0, bk) && Uncovers(bk, b1)
    requires ClosedExcept(b0, bk, row, col) && CascadeClosed(bk, b1)
    requires SettledBefore(bk, row, col, r, c)
    requires InGrid(b1, r, c) ==> b1[r][c].isRevealed || b1[r][c].isFlagged
    ensures ClosedExcept(b0, b1, row, col)
    ensures SettledBefore(b1, row, col, r, c + 1)
  {
    forall i, j | InGrid(b0, i, j) && InGrid(b1, i, j) && b1[i][j].isRevealed && !b0[i][j].isRevealed &&
                  b1[i][j].neighborMines == 0 && (i, j) != (row, col)
      ensures NeighboursSettled(b1, i, j)
    {
      if bk[i][j].isRevealed {
        SettledPersists(bk, b1, i, j);
      }
    }
  }

  /** A route between b0 and bk stays a route between b0 and b1 once more cells are uncovered. */
  lemma {:induction false} PathKept(b0: Board, bk: Board, b1: Board, p: seq<Pos>)
    requires FloodPath(b0, bk, p) && Uncovers(bk, b1)
    ensures FloodPath(b0, b1, p)
    decreases |p|
  {
    if |p| > 1 {
      PathKept(b0, bk, b1, p[1..]);
    }
  }

  /** A route between bk and b1 is a route between b0 and b1 when b0 uncovers to bk. */
  lemma {:induction false} PathWidened(b0: Board, bk: Board, b1: Board, p: seq<Pos>)
    requires Uncovers(b0, bk) && FloodPath(bk, b1, p)
    ensures FloodPath(b0, b1, p)
    decreases |p|
  {
    UncoversKeepsLayout(b0, bk);
    if |p| > 1 {
      PathWidened(b0, bk, b1, p[1..]);
    }
  }

  /** A route of a nested reveal, with the uncovered zero cell (row, col) next to its start put in front, is a route of the whole cascade. */
  lemma PathExtended(b0: Board, bk: Board, b1: Board, row: int, col: int, p: seq<Pos>)
    requires Uncovers(b0, bk) && FloodPath(bk, b1, p)
    requires NewlyUncovered(b0, b1, (row, col)) && b0[row][col].neighborMines == 0
    requires Near(row, col, p[0].0, p[0].1)
    ensures FloodPath(b0, b1, [(row, col)] + p)
  {
    PathWidened(b0, bk, b1, p);
    assert ([(row, col)] + p)[1..] == p;
  }

  /**
   * After a nested reveal at (r, c), next to the uncovered zero cell (row, col),
   * every cell uncovered since b0 is still reached from (row, col): the earlier
   * ones by their old routes, the new ones through (r, c).
   */
  lemma ReachStep(b0: Board, bk: Board, b1: Board, row: int, col: int, r: int, c: int)
    requires Uncovers(b0, bk) && Uncovers(bk, b1)
    requires FromStart(b0, bk, row, col) && FromStart(bk, b1, r, c)
    requires InGrid(b0, row, col) && !b0[row][col].isRevealed && bk[row][col].isRevealed && b0[row][col].neighborMines == 0
    requires Near(row, col, r, c)
    ensures FromStart(b0, b1, row, col)
  {
    UncoversKeepsLayout(b0, bk);
    forall t | NewlyUncovered(b0, b1, t)
      ensures Reaches(b0, b1, row, col, t)
    {
      if bk[t.0][t.1].isRevealed {
        assert NewlyUncovered(b0, bk, t);
        var p :| FloodPath(b0, bk, p) && p[0] == (row, col) && p[|p| - 1] == t;
        PathKept(b0, bk, b1, p);
      } else {
        assert NewlyUncovered(bk, b1, t);
        var p :| FloodPath(bk, b1, p) && p[0] == (r, c) && p[|p| - 1] == t;
        PathExtended(b0, bk, b1, row, col, p);
        var q := [(row, col)] + p;
        assert q[0] == (row, col) && q[|q| - 1] == t;
      }
    }
  }

  /** A window cell inside the grid is revealed by a nested call; the cascade state moves past it. */
  lemma CascadeVisit(b0: Board, bk: Board, b1: Board, row: int, col: int, r: int, c: int, n0: int, nk: int, n1: int)
    requires CascadeInv(b0, bk, row, col, r, c, n0, nk) && Near(row, col, r, c)
    requires RevealSpec(bk, b1, r, c, nk, n1)
    ensures CascadeInv(b0, b1, row, col, r, c + 1, n0, n1)
  {
    UncoversTrans(b0, bk, b1);
    ClosedStep(b0, bk, b1, row, col, r, c);
    ReachStep(b0, bk, b1, row, col, r, c);
    if !b0[row][col].isMine {
      UncoversKeepsLayout(b0, bk);
      assert !bk[r][c].isMine;
      NoMineTrans(b0, bk, b1);
    }
  }

  /** A window position outside the grid is passed over. */
  lemma CascadeOutside(b0: Board, b: Board, row: int, col: int, r: int, c: int, n0: int, n: int)
    requires CascadeInv(b0, b, row, col, r, c, n0, n) && !InGrid(b, r, c)
    ensures CascadeInv(b0, b, row, col, r, c + 1, n0, n)
  {
  }

  /** The end of one window row is the start of the next. */
  lemma CascadeNextRow(b0: Board, b: Board, row: int, col: int, r: int, n0: int, n: int)
    requires CascadeInv(b0, b, row, col, r, col + 2, n0, n)
    ensures CascadeInv(b0, b, row, col, r + 1, col - 1, n0, n)
  {
  }

  /** Once the whole window is walked, the reveal has met its contract. */
  lemma CascadeDone(b0: Board, b: Board, row: int, col: int, n0: int, n: int)
    requires CascadeInv(b0, b, row, col, row + 2, col - 1, n0, n)
    ensures RevealSpec(b0, b, row, col, n0, n)
  {
    assert NeighboursSettled(b, row, col);
  }
}
