/**
 * Whole-grid behaviour of the generation step on small boards: a still life,
 * a period-2 oscillator, and the wrap-around read at the top edge.
 */
module Scenarios {
  import opened Grid
  import opened Life

  /** A fresh, running state whose active buffer 0 is `g`, with buffer 1 cleared. */
  function Board(g: Grid, rows: int, cols: int): State
    requires rows >= 1 && cols >= 1
  {
    State([g, CreateGrid(rows, cols)], 0, rows, cols, false, false)
  }

  /** A 2 x 2 block at rows 1-2, columns 1-2 of a 5 x 5 board, dead all around. */
  const BlockGrid: Grid := [
    [0, 0, 0, 0, 0],
    [0, 1, 1, 0, 0],
    [0, 1, 1, 0, 0],
    [0, 0, 0, 0, 0],
    [0, 0, 0, 0, 0]]

  /** A horizontal blinker in row 2 of a 5 x 5 board. */
  const BlinkerH: Grid := [
    [0, 0, 0, 0, 0],
    [0, 0, 0, 0, 0],
    [0, 1, 1, 1, 0],
    [0, 0, 0, 0, 0],
    [0, 0, 0, 0, 0]]

  /** The same blinker turned vertical, in column 2. */
  const BlinkerV: Grid := [
    [0, 0, 0, 0, 0],
    [0, 0, 1, 0, 0],
    [0, 0, 1, 0, 0],
    [0, 0, 1, 0, 0],
    [0, 0, 0, 0, 0]]

  /** A 4 x 4 board whose only live cells are three in the last row. */
  const BottomRow: Grid := [
    [0, 0, 0, 0],
    [0, 0, 0, 0],
    [0, 0, 0, 0],
    [1, 1, 1, 0]]

  /** The generation after `BottomRow`: births above the middle cell on both sides of the last row. */
  const BottomRowNext: Grid := [
    [0, 1, 0, 0],
    [0, 0, 0, 0],
    [0, 1, 0, 0],
    [0, 0, 0, 0]]

  /** The next state of each evaluated cell of the block board is its current state. */
  lemma BlockCellsSurvive(r: int, c: int)
    requires Evaluated(5, 5, r, c)
    ensures Rule(BlockGrid[r][c], WrappedSum(BlockGrid, 5, 5, r, c)) == BlockGrid[r][c]
  {
    assert r == 0 || r == 1 || r == 2 || r == 3;
    assert c == 0 || c == 1 || c == 2 || c == 3;
  }

  /** A block away from the edges survives a step unchanged, bit for bit. */
  lemma BlockIsStillLife()
    ensures WellFormed(Board(BlockGrid, 5, 5))
    ensures ActiveGrid(Step(Board(BlockGrid, 5, 5))) == BlockGrid
  {
    forall r, c | Evaluated(5, 5, r, c)
      ensures Rule(BlockGrid[r][c], WrappedSum(BlockGrid, 5, 5, r, c)) == BlockGrid[r][c]
    {
      BlockCellsSurvive(r, c);
    }
    LastRowAndColumnDead(BlockGrid);
    StepYields(Board(BlockGrid, 5, 5), BlockGrid);
  }

  /** A 5 x 5 board whose last row and last column are dead. */
  lemma LastRowAndColumnDead(g: Grid)
    requires Shaped(g, 5, 5)
    requires g[4] == [0, 0, 0, 0, 0]
    requires g[0][4] == 0 && g[1][4] == 0 && g[2][4] == 0 && g[3][4] == 0
    ensures forall r, c :: 0 <= r < 5 && 0 <= c < 5 && !Evaluated(5, 5, r, c) ==> g[r][c] == 0
  {
  }

  /** The rule turns each evaluated cell of the horizontal blinker into the vertical one. */
  lemma BlinkerTurnsVertical(r: int, c: int)
    requires Evaluated(5, 5, r, c)
    ensures Rule(BlinkerH[r][c], WrappedSum(BlinkerH, 5, 5, r, c)) == BlinkerV[r][c]
  {
    assert r == 0 || r == 1 || r == 2 || r == 3;
    assert c == 0 || c == 1 || c == 2 || c == 3;
  }

  /** The rule turns each evaluated cell of the vertical blinker into the horizontal one. */
  lemma BlinkerTurnsHorizontal(r: int, c: int)
    requires Evaluated(5, 5, r, c)
    ensures Rule(BlinkerV[r][c], WrappedSum(BlinkerV, 5, 5, r, c)) == BlinkerH[r][c]
  {
    assert r == 0 || r == 1 || r == 2 || r == 3;
    assert c == 0 || c == 1 || c == 2 || c == 3;
  }

  /** A step from a horizontal blinker yields the vertical one. */
  lemma BlinkerTurnsToVertical(s: State)
    requires WellFormed(s) && s.numRows == 5 && s.numCols == 5 && ActiveGrid(s) == BlinkerH
    ensures ActiveGrid(Step(s)) == BlinkerV
  {
    forall r, c | Evaluated(5, 5, r, c)
      ensures Rule(BlinkerH[r][c], WrappedSum(BlinkerH, 5, 5, r, c)) == BlinkerV[r][c]
    {
      BlinkerTurnsVertical(r, c);
    }
    LastRowAndColumnDead(BlinkerV);
    StepYields(s, BlinkerV);
  }

  /** A step from a vertical blinker yields the horizontal one. */
  lemma BlinkerTurnsToHorizontal(s: State)
    requires WellFormed(s) && s.numRows == 5 && s.numCols == 5 && ActiveGrid(s) == BlinkerV
    ensures ActiveGrid(Step(s)) == BlinkerH
  {
    forall r, c | Evaluated(5, 5, r, c)
      ensures Rule(BlinkerV[r][c], WrappedSum(BlinkerV, 5, 5, r, c)) == BlinkerH[r][c]
    {
      BlinkerTurnsHorizontal(r, c);
    }
    LastRowAndColumnDead(BlinkerH);
    StepYields(s, BlinkerH);
  }

  /** A horizontal blinker turns vertical after one step and back after two: period 2. */
  lemma BlinkerOscillates()
    ensures WellFormed(Board(BlinkerH, 5, 5))
    ensures ActiveGrid(Step(Board(BlinkerH, 5, 5))) == BlinkerV
    ensures ActiveGrid(Step(Step(Board(BlinkerH, 5, 5)))) == BlinkerH
  {
    var s := Board(BlinkerH, 5, 5);
    BlinkerTurnsToVertical(s);
    BlinkerTurnsToHorizontal(Step(s));
  }

  /** The next state of each evaluated cell of the bottom-row board. */
  lemma BottomRowCells(r: int, c: int)
    requires Evaluated(4, 4, r, c)
    ensures Rule(BottomRow[r][c], WrappedSum(BottomRow, 4, 4, r, c)) == BottomRowNext[r][c]
  {
    assert r == 0 || r == 1 || r == 2;
    assert c == 0 || c == 1 || c == 2;
  }

  /** The cell in row 0 above the middle of the last row's three live cells counts all three as neighbours. */
  lemma TopCellCountsLastRow()
    ensures NeighborSum(BottomRow, 0, 1) == 3
  {
    NeighborSumWrapped(BottomRow, 4, 4, 0, 1);
  }

  /**
   * Reads at row -1 reach the last row, so the edge is not dead space: three
   * live cells in the last row give birth to a cell in row 0 as well as in
   * row 2, while the last row itself, never evaluated, is cleared.
   */
  lemma TopRowSeesLastRow()
    ensures WellFormed(Board(BottomRow, 4, 4))
    ensures ActiveGrid(Step(Board(BottomRow, 4, 4))) == BottomRowNext
  {
    forall r, c | Evaluated(4, 4, r, c)
      ensures Rule(BottomRow[r][c], WrappedSum(BottomRow, 4, 4, r, c)) == BottomRowNext[r][c]
    {
      BottomRowCells(r, c);
    }
    assert BottomRowNext[3] == [0, 0, 0, 0];
    assert forall r :: 0 <= r < 4 ==> BottomRowNext[r][3] == 0;
    StepYields(Board(BottomRow, 4, 4), BottomRowNext);
  }
}
