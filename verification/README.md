# Game of Life generation engine, in Dafny

This project models the core of `GameOfLife` (`evolutiongame/GameOfLife.py`)
and proves properties about it. That core is Conway's Game of Life on a fixed
`num_rows` x `num_cols` board, kept in two buffers ("double buffering")
with an `active_grid` index that says which one is current. Each generation
reads the active buffer, writes the next generation into the inactive one,
and flips the index. Three keys control the game: `'s'` toggles the pause,
`'r'` reseeds the board at random and `'q'` ends the game. The `run` loop
handles the events of a frame and then, unless the game is paused, steps
one generation.

The model is functional. A `State` value holds the two buffers, the active
index, the board size and the `paused` and `game_over` flags. Every
operation is a pure function from states to states.

| file | module | contents |
|---|---|---|
| `grid.dfy` | `Grid` | buffers as `seq<seq<int>>`, Python list indexing, `get_cell` |
| `life.dfy` | `Life` | the state, `init_grids`, `set_grid`, `inactive_grid`, the neighbour count and Life rule, `update_generation` (functional and as nested loops) |
| `controls.dfy` | `Controls` | the key branches of `handle_events`, event batches, one iteration of `run`, a bounded run |
| `scenarios.dfy` | `Scenarios` | whole-board behaviour: a still life, a period-2 oscillator, and the wrap-around read at the top edge |

## Where the code departs from textbook Life

Textbook Life has an open boundary: every cell outside the board counts as
dead. The code does not quite do that, and the model follows the code in
each of these cases:

- **Boundary.** `get_cell` wraps the buffer read in a bare `except:` and
  returns 0 when it raises. The only exception that indexing can raise is
  `IndexError`, and it is raised only for an index past the end or below
  `-len`. Indices from -1 down to `-len` do not raise. Only -1 ever occurs
  here, and it reads the last row or column. `Grid.GetCell` states this,
  `Grid.GetCellOnShaped` gives it as a wrap-around formula, and
  `Scenarios.TopRowSeesLastRow` shows a birth in row 0 caused by cells in the
  last row. A live cell is counted once for each offset that reads it. That
  is twice on a board with two rows or two columns, where the offsets -1 and
  +1 read the same row or column. For the far corner of a 2 x 2 board it is
  four times.
- **Last row and column.** `update_generation` never evaluates the last row or
  the last column. Those cells are always dead in the new generation.
- **Board size.** The code never validates the size and has no configuration
  error. The model requires at least one row and one column.
- **`'r'` key.** `'r'` first forces `active_grid = 0`. It then randomises buffer 0
  and clears buffer 1. It does not randomise whichever buffer happened to be
  active.
- **`'q'` key.** `'q'` only sets `game_over`. `run` checks that flag at the top
  of its next iteration, so the iteration in which `'q'` arrives still steps one
  generation when the game is not paused.

## Model

| member | source | states |
|---|---|---|
| `Grid.GetCell` | evolutiongame/GameOfLife.py:74-80 | total read: the buffer's cell for in-range indices; 0 for a row past the end or before `-len`, and 0 for a column past the end or before `-len` of the row it indexes; row or column -1 reads the last row or column; always 0 or 1 on a binary buffer |
| `Grid.GetCellOnShaped` | evolutiongame/GameOfLife.py:74-80 | on an `R` x `C` buffer, `get_cell(r, c)` is the cell at `((r+R) mod R, (c+C) mod C)` for `r` in `[-R, R)` and `c` in `[-C, C)`, and 0 everywhere else |
| `Life.Inactive` | evolutiongame/GameOfLife.py:116-118 | the inactive index is the other buffer: it differs from the active one and the two add up to 1 |
| `Life.CreateGrid` | evolutiongame/GameOfLife.py:35-40 | `create_grid` yields `num_rows` rows of `num_cols` cells, all dead (no rows or cells for a negative count) |
| `Life.InitGrids` | evolutiongame/GameOfLife.py:32-42 | `init_grids` yields exactly two buffers, each `num_rows` x `num_cols` and all dead |
| `Life.Init` | evolutiongame/GameOfLife.py:23-30 | a new game has buffer 0 active and filled at random, buffer 1 dead, is neither paused nor over, and holds only 0/1 cells |
| `Life.SetGrid` | evolutiongame/GameOfLife.py:44-53 | with a value, every cell of the chosen buffer holds it; without one, the buffer is the random choice and holds only 0/1 cells; the other buffer, the index and the flags are unchanged |
| `Life.NeighborSum` | evolutiongame/GameOfLife.py:85-93 | on a binary buffer the neighbour sum lies in 0..8 |
| `Life.NeighborSumCountsLive` | evolutiongame/GameOfLife.py:85-93 | on a binary buffer the neighbour sum equals the number of distinct live neighbour offsets |
| `Life.NeighborSumWrapped` | evolutiongame/GameOfLife.py:86-93 | for every cell the step evaluates, all eight reads hit the board directly or wrap once from -1 to the last row or column |
| `Life.NextState` | evolutiongame/GameOfLife.py:82-105 | on a 0/1 cell the result is 0 or 1, and it is 1 exactly when a live cell has 2 or 3 live neighbours or a dead cell has exactly 3; any other cell value is returned unchanged |
| `Life.NextStateIsLocal` | evolutiongame/GameOfLife.py:82-105 | two buffers with the same 3 x 3 neighbourhood around a cell give that cell the same next state |
| `Life.Step` | evolutiongame/GameOfLife.py:107-114 | the active index flips; the old active buffer is untouched; each evaluated cell of the new active buffer is the old buffer's next state; every cell of the last row and column is dead; the size, the flags and the 0/1 invariant are kept |
| `Life.StepYields` | evolutiongame/GameOfLife.py:107-114 | the new active buffer is a given board exactly when that board has the rule's value, with wrap-around neighbour sums, on every evaluated cell and is dead elsewhere |
| `Life.UpdateGeneration` | evolutiongame/GameOfLife.py:107-114 | the zero fill, the row and column loops that write one cell at a time, and the flip compute exactly `Step` |
| `Controls.HandleKey` | evolutiongame/GameOfLife.py:123-139 | `'s'` toggles only the pause; `'q'` sets only game-over; `'r'` makes buffer 0 active with the random board, clears buffer 1 and keeps both flags; any other key changes nothing |
| `Controls.PauseToggleTwice` | evolutiongame/GameOfLife.py:125-130 | pressing `'s'` twice restores the state |
| `Controls.HandleEvent` | evolutiongame/GameOfLife.py:121-140 | one event: a quit event exits; `'s'` toggles the pause and nothing else does; `'q'` sets game-over; `'r'` leaves buffer 0 active with the random board and buffer 1 dead; no other event touches the buffers or the index |
| `Controls.HandleEvents` | evolutiongame/GameOfLife.py:120-141 | a batch exits the process exactly when it holds a quit event; otherwise buffers and index change only when an `'r'` arrives, the pause changes only when an `'s'` arrives, and the game is over exactly when it was over already or a `'q'` arrives |
| `Controls.PauseFollowsPresses` | evolutiongame/GameOfLife.py:121-130 | after a batch without a quit event the pause is the old one toggled once per `'s'`, that is, flipped exactly when the number of `'s'` presses is odd |
| `Controls.LastReseedWins` | evolutiongame/GameOfLife.py:121-135 | after a batch without a quit event that holds an `'r'`, buffer 0 is active and holds the random board of the last `'r'`, and buffer 1 is dead |
| `Controls.RunTick` | evolutiongame/GameOfLife.py:143-155 | a game already over returns without handling events or stepping; otherwise the iteration exits exactly when a quit event arrives and ends a frame otherwise; the game is over afterwards exactly when a `'q'` arrived; a frame that ends paused leaves the state as the events left it, and one that ends unpaused is the step of the state the events left, so its active index flips; a frame without `'s'`, `'r'` or quit events steps exactly when the game is not paused; with no events, a paused game is unchanged and a running one steps once |
| `Controls.QuitStepsOnceThenReturns` | evolutiongame/GameOfLife.py:143-155 | a running game that gets `'q'` still steps once in that iteration, and the next iteration returns whatever events arrive |
| `Controls.Run` | evolutiongame/GameOfLife.py:143-155 | the loop returns only with the game over, keeps the board well formed and 0/1, exits only if some frame holds a quit event, and returns at once if the game is already over |
| `Controls.RunningRunSteps` | evolutiongame/GameOfLife.py:146-155 | `n` event-less frames of a running game advance it exactly `n` generations and leave it still running |
| `Controls.PausedRunIsIdle` | evolutiongame/GameOfLife.py:146-155 | any number of event-less frames leave a paused game exactly as it was |
| `Scenarios.BlockIsStillLife` | evolutiongame/GameOfLife.py:107-114 | a 2 x 2 block surrounded by dead cells is unchanged, bit for bit, by a step |
| `Scenarios.BlinkerOscillates` | evolutiongame/GameOfLife.py:107-114 | a horizontal blinker turns vertical after one step and horizontal again after two |
| `Scenarios.TopCellCountsLastRow` | evolutiongame/GameOfLife.py:76-80 | a row-0 cell counts three live cells of the last row among its neighbours |
| `Scenarios.TopRowSeesLastRow` | evolutiongame/GameOfLife.py:107-114 | three live cells in the last row cause a birth in row 0 as well as in the row above them, and the last row is cleared |

## Left out

- Rendering is not modelled: `draw_grid`, `clear_screen`, the `pygame.display` calls and the circle pixel arithmetic (lines 55-72 and 18-21). It goes through a foreign drawing library and uses float coordinates. So is the redraw that `'r'` asks for.
- `pygame.init`, event polling, the `print` logging and `clock.tick` frame pacing are I/O and timing. Each frame's events arrive as a list instead.
- `sys.exit()` on a quit event is modelled as the `Exit` outcome that ends the run. It does not terminate anything.
- `random.randint(0, 1)` is modelled by its outcome only: each `'r'` press, and the constructor, take a board parameter whose cells are all 0 or 1.
- The pixel-to-cell sizing `int(width / cell_size)` (lines 24-25) uses float division. Board size is a parameter with at least one row and column. The colours, `max_fps` and the screen size are not part of the state.
- Controls.Run: it runs over a finite list of frames, while the source loops for ever. When the frames run out while the game is still going, the result is `Pending`. `Run`'s own contract does not say how the board evolves. `RunTick` says it for one frame, and `RunningRunSteps` and `PausedRunIsIdle` say it for runs of event-less frames.
- Life.NextState: the centre cell must have non-negative, in-range indices. Python would also accept negative ones, but `update_generation` never passes them.
- Life.SetGrid: the random case requires the random board to have the buffer's size. `set_grid` writes exactly `num_rows` x `num_cols` cells, so the two coincide.
