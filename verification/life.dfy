/**
 * The generation engine of `GameOfLife`: the double-buffered state, buffer
 * allocation and filling, the Life rule on one cell, and the generation step.
 */
module Life {
  import opened Grid

  /**
   * The game's state: two buffers, the index of the active one, the grid
   * size, and the two flags the keyboard sets.
   */
  datatype State = State(
    grids: seq<Grid>,
    active: Bit,
    numRows: int,
    numCols: int,
    paused: bool,
    gameOver: bool)

  /** Two buffers, both `numRows` x `numCols`, with at least one row and column. */
  predicate WellFormed(s: State) {
    && s.numRows >= 1
    && s.numCols >= 1
    && |s.grids| == 2
    && forall i :: 0 <= i < |s.grids| ==> Shaped(s.grids[i], s.numRows, s.numCols)
  }

  /** A well-formed state whose buffers hold only dead and alive cells. */
  predicate Valid(s: State) {
    WellFormed(s) && forall i :: 0 <= i < |s.grids| ==> IsBinary(s.grids[i])
  }

  /** What `random.randint(0, 1)` can fill a `rows` x `cols` buffer with. */
  predicate RandomFill(rand: Grid, rows: int, cols: int) {
    Shaped(rand, rows, cols) && IsBinary(rand)
  }

  /** `inactive_grid()`: the index of the buffer that is not active. */
  function Inactive(a: Bit): (b: Bit)
    ensures b != a
    ensures a + b == 1
  {
    (a + 1) % 2
  }

  /** The buffer `get_cell` and `check_cell_neighbors` read. */
  function ActiveGrid(s: State): Grid
    requires |s.grids| == 2
  {
    s.grids[s.active]
  }

  /** `create_grid()` inside `init_grids`: `rows` rows of `cols` zeros; `range` of a negative count is empty. */
  function CreateGrid(rows: int, cols: int): (g: Grid)
    ensures Shaped(g, if rows < 0 then 0 else rows, if cols < 0 then 0 else cols)
    ensures Filled(g, 0)
  {
    var n := if rows < 0 then 0 else rows;
    var m := if cols < 0 then 0 else cols;
    seq(n, _ => seq(m, _ => 0))
  }

  /** `init_grids()`: exactly two buffers, each `rows` x `cols`, all dead. */
  function InitGrids(rows: int, cols: int): (gs: seq<Grid>)
    requires rows >= 1 && cols >= 1
    ensures |gs| == 2
    ensures forall i :: 0 <= i < |gs| ==> Shaped(gs[i], rows, cols) && Filled(gs[i], 0)
  {
    [CreateGrid(rows, cols), CreateGrid(rows, cols)]
  }

  /**
   * The constructor: two fresh buffers, then `set_grid()` fills buffer 0 at
   * random (`rand`), running and not over. The pixel-to-cell division that
   * yields `rows` and `cols` is not modelled; they are taken as given.
   */
  function Init(rows: int, cols: int, rand: Grid): (s: State)
    requires rows >= 1 && cols >= 1
    requires RandomFill(rand, rows, cols)
    ensures Valid(s)
    ensures s.numRows == rows && s.numCols == cols
    ensures s.active == 0 && !s.paused && !s.gameOver
    ensures s.grids[0] == rand && Filled(s.grids[1], 0)
  {
    var s0 := State(InitGrids(rows, cols), 0, rows, cols, false, false);
    SetGrid(s0, None, 0, rand)
  }

  /**
   * `set_grid(value, grid)`: every cell of buffer `idx` becomes `value`, or,
   * when `value` is `None`, the random choice `rand` made for that cell.
   */
  function SetGrid(s: State, value: Option<int>, idx: Bit, rand: Grid): (t: State)
    requires WellFormed(s)
    requires value.None? ==> RandomFill(rand, s.numRows, s.numCols)
    ensures WellFormed(t)
    ensures t.grids[Inactive(idx)] == s.grids[Inactive(idx)]
    ensures t.active == s.active && t.numRows == s.numRows && t.numCols == s.numCols
    ensures t.paused == s.paused && t.gameOver == s.gameOver
    ensures value.Some? ==> Filled(t.grids[idx], value.value)
    ensures value.None? ==> t.grids[idx] == rand && IsBinary(t.grids[idx])
    ensures value.None? || IsBit(value.value) ==> (Valid(s) ==> Valid(t))
  {
    var g := seq(s.numRows, r requires 0 <= r < s.numRows =>
      seq(s.numCols, c requires 0 <= c < s.numCols =>
        match value
        case None => rand[r][c]
        case Some(v) => v));
    assert value.None? ==> g == rand by {
      if value.None? {
        assert forall r | 0 <= r < s.numRows :: g[r] == rand[r];
      }
    }
    s.(grids := s.grids[idx := g])
  }

  /** The eight neighbour offsets `check_cell_neighbors` visits, in its order. */
  const Offsets: seq<(int, int)> :=
    [(-1, -1), (-1, 0), (-1, 1), (0, -1), (0, 1), (1, -1), (1, 0), (1, 1)]

  /** The neighbour count of `check_cell_neighbors`: eight `get_cell` reads added up. */
  function NeighborSum(g: Grid, r: int, c: int): (n: int)
    ensures IsBinary(g) ==> 0 <= n <= 8
  {
    GetCell(g, r - 1, c - 1) + GetCell(g, r - 1, c) + GetCell(g, r - 1, c + 1)
    + GetCell(g, r, c - 1) + GetCell(g, r, c + 1)
    + GetCell(g, r + 1, c - 1) + GetCell(g, r + 1, c) + GetCell(g, r + 1, c + 1)
  }

  /** The cells around `(r, c)` as `get_cell` reads them, by offset. */
  function Around(g: Grid, r: int, c: int): ((int, int)) -> int {
    (d: (int, int)) => GetCell(g, r + d.0, c + d.1)
  }

  /** The offsets among `ds` whose cell is alive. */
  function LiveSet(cell: ((int, int)) -> int, ds: seq<(int, int)>): set<(int, int)> {
    set d | d in ds && cell(d) == 1
  }

  /** The offsets of the live neighbours of `(r, c)`. */
  function LiveNeighbors(g: Grid, r: int, c: int): set<(int, int)> {
    LiveSet(Around(g, r, c), Offsets)
  }

  /** The cell values at offsets `ds`, added up. */
  function SumOver(cell: ((int, int)) -> int, ds: seq<(int, int)>): int {
    if |ds| == 0 then 0 else cell(ds[0]) + SumOver(cell, ds[1..])
  }

  /** No offset occurs twice in `ds`. */
  predicate Distinct(ds: seq<(int, int)>) {
    forall i, j :: 0 <= i < j < |ds| ==> ds[i] != ds[j]
  }

  /** When every cell visited is 0 or 1 and none twice, the sum counts the live ones. */
  lemma {:induction false} SumCountsLive(cell: ((int, int)) -> int, ds: seq<(int, int)>)
    requires Distinct(ds)
    requires forall d :: d in ds ==> IsBit(cell(d))
    ensures SumOver(cell, ds) == |LiveSet(cell, ds)|
  {
    if |ds| > 0 {
      var d := ds[0];
      var rest := ds[1..];
      SumCountsLive(cell, rest);
      assert d !in rest;
      var head := if cell(d) == 1 then {d} else {};
      assert LiveSet(cell, ds) == head + LiveSet(cell, rest) by {
        assert ds == [d] + rest;
      }
      assert |head| == cell(d);
    }
  }

  /** The eight offsets are pairwise different. */
  lemma OffsetsDistinct()
    ensures Distinct(Offsets)
  {
  }

  /** Summing over `Offsets` adds the eight cells in `check_cell_neighbors`' order. */
  lemma SumOverOffsets(cell: ((int, int)) -> int)
    ensures SumOver(cell, Offsets) ==
      cell((-1, -1)) + cell((-1, 0)) + cell((-1, 1)) + cell((0, -1)) + cell((0, 1))
      + cell((1, -1)) + cell((1, 0)) + cell((1, 1))
  {
    assert SumOver(cell, Offsets[8..]) == 0;
    assert SumOver(cell, Offsets[7..]) == cell((1, 1));
    assert SumOver(cell, Offsets[6..]) == cell((1, 0)) + SumOver(cell, Offsets[7..]);
    assert SumOver(cell, Offsets[5..]) == cell((1, -1)) + SumOver(cell, Offsets[6..]);
    assert SumOver(cell, Offsets[4..]) == cell((0, 1)) + SumOver(cell, Offsets[5..]);
    assert SumOver(cell, Offsets[3..]) == cell((0, -1)) + SumOver(cell, Offsets[4..]);
    assert SumOver(cell, Offsets[2..]) == cell((-1, 1)) + SumOver(cell, Offsets[3..]);
    assert SumOver(cell, Offsets[1..]) == cell((-1, 0)) + SumOver(cell, Offsets[2..]);
  }

  /** The neighbour sum is the sum over `Offsets` of the cells around. */
  lemma NeighborSumOverOffsets(g: Grid, r: int, c: int)
    ensures NeighborSum(g, r, c) == SumOver(Around(g, r, c), Offsets)
  {
    var cell := Around(g, r, c);
    SumOverOffsets(cell);
    assert cell((-1, -1)) == GetCell(g, r - 1, c - 1);
    assert cell((-1, 0)) == GetCell(g, r - 1, c);
    assert cell((-1, 1)) == GetCell(g, r - 1, c + 1);
    assert cell((0, -1)) == GetCell(g, r, c - 1);
    assert cell((0, 1)) == GetCell(g, r, c + 1);
    assert cell((1, -1)) == GetCell(g, r + 1, c - 1);
    assert cell((1, 0)) == GetCell(g, r + 1, c);
    assert cell((1, 1)) == GetCell(g, r + 1, c + 1);
  }

  /** On a binary buffer every cell around any position reads as 0 or 1. */
  lemma AroundIsBinary(g: Grid, r: int, c: int)
    requires IsBinary(g)
    ensures forall d :: IsBit(Around(g, r, c)(d))
  {
    forall d: (int, int)
      ensures IsBit(Around(g, r, c)(d))
    {
      assert IsBit(GetCell(g, r + d.0, c + d.1));
    }
  }

  /**
   * On a binary buffer the neighbour sum is the number of live neighbours:
   * adding up cell values is counting, and no offset is visited twice. (On a
   * board with two rows or two columns, up to four offsets can read the same
   * cell, which is then counted once per offset.)
   */
  lemma NeighborSumCountsLive(g: Grid, r: int, c: int)
    requires IsBinary(g)
    ensures NeighborSum(g, r, c) == |LiveNeighbors(g, r, c)|
  {
    AroundIsBinary(g, r, c);
    OffsetsDistinct();
    SumCountsLive(Around(g, r, c), Offsets);
    NeighborSumOverOffsets(g, r, c);
  }

  /**
   * The neighbour sum of an evaluated cell by index arithmetic: the eight
   * cells around it, where row or column -1 means the last one.
   */
  function WrappedSum(g: Grid, rows: int, cols: int, r: int, c: int): int
    requires Shaped(g, rows, cols) && Evaluated(rows, cols, r, c)
  {
    var up, left := (r - 1 + rows) % rows, (c - 1 + cols) % cols;
    g[up][left] + g[up][c] + g[up][c + 1]
    + g[r][left] + g[r][c + 1]
    + g[r + 1][left] + g[r + 1][c] + g[r + 1][c + 1]
  }

  /**
   * For a cell `update_generation` evaluates, all eight neighbour reads fall
   * inside the buffer or wrap around once, from row or column -1 to the last.
   */
  lemma NeighborSumWrapped(g: Grid, rows: int, cols: int, r: int, c: int)
    requires Shaped(g, rows, cols) && Evaluated(rows, cols, r, c)
    ensures NeighborSum(g, r, c) == WrappedSum(g, rows, cols, r, c)
  {
    GetCellOnShaped(g, rows, cols, r - 1, c - 1);
    GetCellOnShaped(g, rows, cols, r - 1, c);
    GetCellOnShaped(g, rows, cols, r - 1, c + 1);
    GetCellOnShaped(g, rows, cols, r, c - 1);
    GetCellOnShaped(g, rows, cols, r + 1, c - 1);
    ModOfShift(r, rows);
    ModOfShift(c, cols);
    ModOfShift(c + 1, cols);
    ModOfShift(r + 1, rows);
  }

  /** Conway's rule: a live cell survives with 2 or 3 live neighbours, a dead one is born with exactly 3. */
  predicate LifeRule(alive: bool, n: int) {
    if alive then n == 2 || n == 3 else n == 3
  }

  /**
   * The decision at the end of `check_cell_neighbors`: a live cell dies
   * above 3 or below 2 neighbours and lives on otherwise, a dead cell with
   * exactly 3 comes alive, and any other cell value is returned as it is.
   */
  function Rule(cell: int, n: int): int {
    if cell == 1 then
      if n > 3 then 0
      else if n < 2 then 0
      else 1
    else if cell == 0 && n == 3 then 1
    else cell
  }

  /** `check_cell_neighbors(r, c)` on buffer `g`: the rule applied to the cell and its neighbour sum. */
  function NextState(g: Grid, r: int, c: int): (v: int)
    requires 0 <= r < |g| && 0 <= c < |g[r]|
    ensures IsBit(g[r][c]) ==> IsBit(v) && (v == 1 <==> LifeRule(g[r][c] == 1, NeighborSum(g, r, c)))
    ensures !IsBit(g[r][c]) ==> v == g[r][c]
  {
    Rule(g[r][c], NeighborSum(g, r, c))
  }

  /** The 3 x 3 neighbourhood of `(r, c)` as `get_cell` sees it, row by row. */
  function Window(g: Grid, r: int, c: int): seq<int> {
    [GetCell(g, r - 1, c - 1), GetCell(g, r - 1, c), GetCell(g, r - 1, c + 1),
     GetCell(g, r, c - 1), GetCell(g, r, c), GetCell(g, r, c + 1),
     GetCell(g, r + 1, c - 1), GetCell(g, r + 1, c), GetCell(g, r + 1, c + 1)]
  }

  /** The next state of a cell is a function of its 3 x 3 neighbourhood alone. */
  lemma NextStateIsLocal(g: Grid, h: Grid, r: int, c: int)
    requires 0 <= r < |g| && 0 <= c < |g[r]|
    requires 0 <= r < |h| && 0 <= c < |h[r]|
    requires Window(g, r, c) == Window(h, r, c)
    ensures NextState(g, r, c) == NextState(h, r, c)
  {
  }

  /** Whether `update_generation` evaluates cell `(r, c)`: it skips the last row and the last column. */
  predicate Evaluated(rows: int, cols: int, r: int, c: int) {
    0 <= r < rows - 1 && 0 <= c < cols - 1
  }

  /** The buffer `update_generation` writes: the rule on evaluated cells, 0 on the rest. */
  function NextGeneration(g: Grid, rows: int, cols: int): Grid
    requires Shaped(g, rows, cols) && cols >= 0
  {
    seq(rows, r requires 0 <= r < rows =>
      seq(cols, c requires 0 <= c < cols =>
        if Evaluated(rows, cols, r, c) then NextState(g, r, c) else 0))
  }

  /**
   * `update_generation()`: fill the inactive buffer with zeros, write the
   * next state of every evaluated cell into it, and make it active.
   */
  function Step(s: State): (t: State)
    requires WellFormed(s)
    ensures t.numRows == s.numRows && t.numCols == s.numCols
    ensures WellFormed(t)
    ensures t.active == Inactive(s.active)
    ensures t.grids[s.active] == s.grids[s.active]
    ensures forall r, c :: Evaluated(s.numRows, s.numCols, r, c) ==>
      t.grids[t.active][r][c] == NextState(s.grids[s.active], r, c)
    ensures forall r, c :: 0 <= r < s.numRows && 0 <= c < s.numCols && !Evaluated(s.numRows, s.numCols, r, c) ==>
      t.grids[t.active][r][c] == 0
    ensures Valid(s) ==> Valid(t)
    ensures t.paused == s.paused && t.gameOver == s.gameOver
  {
    var next := NextGeneration(ActiveGrid(s), s.numRows, s.numCols);
    s.(grids := s.grids[Inactive(s.active) := next], active := Inactive(s.active))
  }

  /** `n` generations in a row: what `n` unpaused, event-less frames of `run` do. */
  function Steps(s: State, n: nat): (t: State)
    requires WellFormed(s)
    ensures WellFormed(t) && t.numRows == s.numRows && t.numCols == s.numCols
    ensures t.paused == s.paused && t.gameOver == s.gameOver
    ensures Valid(s) ==> Valid(t)
    ensures t.active == (s.active + n) % 2
    decreases n
  {
    if n == 0 then s else Steps(Step(s), n - 1)
  }

  /**
   * A step yields `to` exactly when `to` has the rule's value, computed with
   * wrap-around neighbour sums, on every evaluated cell and is dead on the
   * last row and column.
   */
  lemma StepYields(s: State, to: Grid)
    requires WellFormed(s) && Shaped(to, s.numRows, s.numCols)
    ensures ActiveGrid(Step(s)) == to <==>
      && (forall r, c :: Evaluated(s.numRows, s.numCols, r, c) ==>
            to[r][c] == Rule(ActiveGrid(s)[r][c], WrappedSum(ActiveGrid(s), s.numRows, s.numCols, r, c)))
      && (forall r, c :: 0 <= r < s.numRows && 0 <= c < s.numCols && !Evaluated(s.numRows, s.numCols, r, c) ==>
            to[r][c] == 0)
  {
    var g, next := ActiveGrid(s), ActiveGrid(Step(s));
    forall r, c | Evaluated(s.numRows, s.numCols, r, c)
      ensures next[r][c] == Rule(g[r][c], WrappedSum(g, s.numRows, s.numCols, r, c))
    {
      NeighborSumWrapped(g, s.numRows, s.numCols, r, c);
    }
    if (forall r, c :: Evaluated(s.numRows, s.numCols, r, c) ==>
          to[r][c] == Rule(g[r][c], WrappedSum(g, s.numRows, s.numCols, r, c)))
       && (forall r, c :: 0 <= r < s.numRows && 0 <= c < s.numCols && !Evaluated(s.numRows, s.numCols, r, c) ==>
          to[r][c] == 0)
    {
      assert forall r :: 0 <= r < s.numRows ==> next[r] == to[r];
    }
  }

  /**
   * `update_generation()` as the game runs it: `set_grid(0, inactive)`, then
   * the row and column loops writing one cell at a time, then the flip.
   */
  method UpdateGeneration(s: State) returns (t: State)
    requires WellFormed(s)
    ensures t == Step(s)
  {
    var inactive := Inactive(s.active);
    t := SetGrid(s, Some(0), inactive, []);
    var g := ActiveGrid(s);
    var rows, cols := s.numRows, s.numCols;
    var next := NextGeneration(g, rows, cols);
    var r := 0;
    while r < rows - 1
      invariant 0 <= r <= rows - 1
      invariant WellFormed(t) && t.active == s.active && t.grids[s.active] == g
      invariant t.numRows == rows && t.numCols == cols
      invariant t.paused == s.paused && t.gameOver == s.gameOver
      invariant forall i, j :: 0 <= i < rows && 0 <= j < cols ==>
        t.grids[inactive][i][j] == if i < r then next[i][j] else 0
    {
      var c := 0;
      while c < cols - 1
        invariant 0 <= c <= cols - 1
        invariant WellFormed(t) && t.active == s.active && t.grids[s.active] == g
        invariant t.numRows == rows && t.numCols == cols
        invariant t.paused == s.paused && t.gameOver == s.gameOver
        invariant forall i, j :: 0 <= i < rows && 0 <= j < cols ==>
          t.grids[inactive][i][j] == if i < r || (i == r && j < c) then next[i][j] else 0
      {
        var v := NextState(ActiveGrid(t), r, c);
        var buf := t.grids[inactive];
        buf := buf[r := buf[r][c := v]];
        t := t.(grids := t.grids[inactive := buf]);
        c := c + 1;
      }
      r := r + 1;
    }
    t := t.(active := inactive);
    assert t.grids[inactive] == next by {
      forall i | 0 <= i < rows
        ensures t.grids[inactive][i] == next[i]
      {
      }
    }
    assert t.grids == Step(s).grids;
  }
}
