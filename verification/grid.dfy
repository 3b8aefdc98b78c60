/**
 * Cell buffers of the Game of Life and the bounds-tolerant read `get_cell`.
 *
 * A buffer is a list of rows, each a list of cell values: 0 is dead and
 * 1 is alive. Reads follow Python's list indexing, which is what the game's
 * `try`/`except` around `grids[active][row][col]` actually observes: a
 * negative index counts from the end of the list, and only an index past
 * either end raises `IndexError`, which the game turns into a dead cell.
 */
module Grid {

  /** One buffer, row-major: `g[r][c]` is the cell in row `r`, column `c`. */
  type Grid = seq<seq<int>>

  /** A buffer index: the game keeps exactly two buffers, 0 and 1. */
  type Bit = i: int | 0 <= i < 2

  datatype Option<T> = None | Some(value: T)

  /** A legal cell value: dead (0) or alive (1). */
  predicate IsBit(v: int) {
    v == 0 || v == 1
  }

  /** `g` has `rows` rows of `cols` cells each. */
  predicate Shaped(g: Grid, rows: int, cols: int) {
    |g| == rows && forall r :: 0 <= r < |g| ==> |g[r]| == cols
  }

  /** Every cell of `g` is dead or alive. */
  predicate IsBinary(g: Grid) {
    forall r, c :: 0 <= r < |g| && 0 <= c < |g[r]| ==> IsBit(g[r][c])
  }

  /** Every cell of `g` holds `v`. */
  predicate Filled(g: Grid, v: int) {
    forall r, c :: 0 <= r < |g| && 0 <= c < |g[r]| ==> g[r][c] == v
  }

  /** Python's `xs[i]`: `None` stands for the `IndexError` it raises. */
  function PyIndex<T>(xs: seq<T>, i: int): Option<T> {
    if 0 <= i < |xs| then Some(xs[i])
    else if -|xs| <= i < 0 then Some(xs[|xs| + i])
    else None
  }

  /**
   * `get_cell(row, col)` on buffer `g`: the cell Python's indexing reaches,
   * or 0 when either index raises. It is total: it never fails.
   */
  function GetCell(g: Grid, r: int, c: int): (v: int)
    ensures 0 <= r < |g| && 0 <= c < |g[r]| ==> v == g[r][c]
    ensures r >= |g| || r < -|g| ==> v == 0
    ensures 0 <= r < |g| && (c >= |g[r]| || c < -|g[r]|) ==> v == 0
    ensures -|g| <= r < 0 && (c >= |g[|g| + r]| || c < -|g[|g| + r]|) ==> v == 0
    ensures r == -1 && 0 < |g| && 0 <= c < |g[|g| - 1]| ==> v == g[|g| - 1][c]
    ensures c == -1 && 0 <= r < |g| && 0 < |g[r]| ==> v == g[r][|g[r]| - 1]
    ensures IsBinary(g) ==> IsBit(v)
  {
    match PyIndex(g, r)
    case None => 0
    case Some(row) =>
      match PyIndex(row, c)
      case None => 0
      case Some(x) => x
  }

  /**
   * On a `rows` x `cols` buffer, `GetCell` is a wrap-around read for indices
   * in `[-rows, rows) x [-cols, cols)` and a dead cell everywhere else.
   */
  lemma GetCellOnShaped(g: Grid, rows: int, cols: int, r: int, c: int)
    requires Shaped(g, rows, cols)
    ensures GetCell(g, r, c) ==
      if -rows <= r < rows && -cols <= c < cols
      then g[(r + rows) % rows][(c + cols) % cols]
      else 0
  {
    if -rows <= r < rows && -cols <= c < cols {
      var rr := if r < 0 then r + rows else r;
      var cc := if c < 0 then c + cols else c;
      assert (r + rows) % rows == rr by { ModOfShift(r, rows); }
      assert (c + cols) % cols == cc by { ModOfShift(c, cols); }
    }
  }

  /** Adding one period to an index in `[-n, n)` and reducing yields its non-negative form. */
  lemma ModOfShift(i: int, n: int)
    requires -n <= i < n
    ensures (i + n) % n == if i < 0 then i + n else i
  {
    if i >= 0 {
      assert i + n == 1 * n + i;
    }
  }
}
