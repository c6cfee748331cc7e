# Game of Life engine in Dafny

This project models the simulation engine of a small Game of Life program (`game_of_life.py`). The engine has:

- a binary matrix `mat` of shape `(num_cols, num_rows)`;
- a generation counter `steps`;
- construction from a list of initial positions;
- the score (number of active cells);
- the bounded eight-neighbour lookup, in `MOVES` order and with no wrap-around;
- the synchronous step, which returns the cells that changed in row-major order;
- `activate`, `deactivate`, `toggle` and `restart`;
- the `size` shape;
- the `{size, step, active_cells}` payload written by `save`, and `load`, which rebuilds a game from it.

Both variants are covered:

- `GameOfLife` follows Conway's B3/S23.
- `GameOfLifeHighLife` follows B36/S23. It differs only in its step, so it is modelled by the `rule` field of the one class.

Files:

- `positions.dfy` (module `Positions`): cell coordinates and the row-major scan order of the step's two loops. It also defines `Where`, an order-preserving selection that models "append when the test holds" loops.
- `grids.dfy` (module `Grids`): the board as a value (`Grid`), which is the specification of the engine. It holds:
  - the neighbourhood, the rules and the next generation (`NextGrid`);
  - the list of changed cells (`Changed`);
  - the score and the active cells;
  - single-cell updates (`Set`, `Flip`);
  - the board built from a list of initial entries (`Initial`, `Build`).
- `snapshots.dfy` (module `Snapshots`): the save payload (`Record`, `Save`) and the load that rebuilds a board from it. The load is modelled twice: as written (`Restore`) and with its axes in order (`RestoreFixed`).
- `engine.dfy` (module `Engine`): class `GameOfLife`, modelled imperatively:
  - the matrix is an `array2<Bit>` that the methods update in place or replace;
  - a ghost field `board` records the `Grid` the matrix holds, and `Valid()` ties the two cell by cell;
  - the methods are proved against the `Grids` and `Snapshots` functions.

## Model

| member | source | states |
|---|---|---|
| Positions.ScanMembers | game_of_life.py:51-52 | The nested loops over `i` in `[0, num_cols)` and `j` in `[0, num_rows)` visit exactly the positions of the board. |
| Positions.ScanAscending | game_of_life.py:51-52 | They visit them in strictly increasing row-major order, so each exactly once. |
| Positions.WhereMembers | game_of_life.py:72-80 | An append-when-kept loop's result holds x exactly when x is in the input and is kept. |
| Positions.WhereAscending | game_of_life.py:49-65 | Such a result keeps the input's order. |
| Positions.WhereDistinct | game_of_life.py:49-65 | Such a result has no repetition when the input has none. |
| Grids.MovesOffsets | game_of_life.py:6 | `MOVES` holds eight offsets, with no repetition. An offset is in `MOVES` iff it is non-zero and each of its components is -1, 0 or 1. |
| Grids.AroundIs | game_of_life.py:6 | The positions tried around p are p plus each `MOVES` offset, in the order of `MOVES`. |
| Grids.Neighbors | game_of_life.py:72-80 | Every listed neighbour of p is p plus a `MOVES` offset, lies on the board and is active. |
| Grids.NeighborsMembers | game_of_life.py:70-80 | q is an active neighbour of p iff q is p plus some `MOVES` offset, lies in `[0,num_cols)x[0,num_rows)` and holds 1. No neighbour is listed twice. |
| Grids.NeighborsBound | game_of_life.py:70-80 | A cell has at most 8 active neighbours. |
| Grids.NeighborsOnEdge | game_of_life.py:70-80 | A cell on an edge of the board has at most 5 active neighbours, since there is no wrap-around. |
| Grids.NeighborsInCorner | game_of_life.py:70-80 | A cell in a corner has at most 3 active neighbours. |
| Grids.NeighborsWithin | game_of_life.py:77-79 | Every active neighbour is an on-board position around p, so the count is bounded by any set holding those positions. |
| Grids.NextCell | game_of_life.py:54-65 | The next value is 1 iff the cell is 1 with 2 or 3 active neighbours, or is 0 with 3. Under HighLife (game_of_life.py:155), a 0 with 6 active neighbours also becomes 1. |
| Grids.NextGrid | game_of_life.py:50-66 | The new matrix has the shape of the old one. `NextGridCell` and `NextGridAt` give its cells. |
| Grids.NextGridCell | game_of_life.py:53-65 | Each cell of the next generation is decided from its value and its neighbour count on the pre-step board, which makes the step synchronous. |
| Grids.NextGridAt | game_of_life.py:54-65 | Under Conway's rules, a cell is 1 after the step iff it is on the board and either was 1 with 2 or 3 active neighbours, or was 0 with exactly 3. HighLife adds: or was 0 with exactly 6. |
| Grids.HighLifeDiffers | game_of_life.py:143-162 | The HighLife step differs from the standard step exactly at inactive cells with 6 active neighbours, and there it gives 1. |
| Grids.ChangedMembers | game_of_life.py:49-65 | The change list holds exactly the cells whose value differs, each once, in row-major order. |
| Grids.StepChanges | game_of_life.py:53-65 | A cell is in the step's change list iff it is 1 and does not survive, or is 0 and is born. |
| Grids.FlipsChanged | game_of_life.py:53-65 | Cells appended when the rule flips them are the cells where the board and the next generation differ. |
| Grids.ScanFlips | game_of_life.py:49-65 | Over the whole scan, the appended cells are the change list of board versus next generation. |
| Grids.SumCountsActive | game_of_life.py:35 | The sum of the cell values over a list of positions is the number of active positions among them. |
| Grids.ScoreCountsActive | game_of_life.py:32-35 | The sum of the matrix equals the number of cells holding 1, which is also the length of the active-cell list. |
| Grids.ActiveCellsMembers | game_of_life.py:103 | The active-cell list holds exactly the on-board cells equal to 1, once each, in row-major order. |
| Grids.ZeroHasNoActiveCells | game_of_life.py:91-92 | A zeroed board has no active cell. |
| Grids.SetChanges | game_of_life.py:82-86 | Setting one cell changes only that cell. The change list is [p] when the value differs, else empty. |
| Grids.FlipTwice | game_of_life.py:88-89 | Toggling a cell twice restores the board, and one toggle changes exactly that cell. |
| Grids.InitialSnoc | game_of_life.py:26-30 | Activating the cell of one more well-formed entry gives the board of the longer list. |
| Grids.FirstMalformed | game_of_life.py:26-28 | Returns the index of the first entry whose length is not 2: every entry before it is a pair. |
| Grids.Build | game_of_life.py:19-30 | Fails iff some entry is not a pair, reporting the first such entry. Otherwise it gives a `num_cols x num_rows` board whose cells are 1 exactly at the listed positions. |
| Snapshots.Save | game_of_life.py:100-104 | The payload's size is the shape (num_cols, num_rows) and its step is the counter. Every entry is a pair, and the entries name exactly the active cells. |
| Snapshots.Restore | game_of_life.py:117-121 | Load as written fails iff some saved entry is not a pair. Otherwise the board has `size[1]` columns and `size[0]` rows, with the axes swapped, and its active cells are exactly the listed on-board positions. |
| Snapshots.RestoreFixed | game_of_life.py:117-121 | Load with the axes in order fails iff some saved entry is not a pair. Otherwise the board has `size[0]` columns and `size[1]` rows, and its active cells are exactly the listed on-board positions. |
| Snapshots.SavedEntries | game_of_life.py:100-104 | The saved entries are pairs, are indexable on the saved shape, and name exactly the active cells. |
| Snapshots.ZeroSavesNoCells | game_of_life.py:98-104 | An empty board saves its shape, its counter and no cells. |
| Snapshots.SaveRestoreFixed | game_of_life.py:115-123 | Saving and then loading with the axes in order gives back the board and the counter. |
| Snapshots.SaveRestoreAsWritten | game_of_life.py:117-121 | Saving and then loading as written gives back the board iff the board is square. |
| Snapshots.NonSquareCounterexample | game_of_life.py:117-121 | A 1x2 empty board loads back as written with shape 2x1, which is a different board. |
| Engine.GameOfLife.Blank | game_of_life.py:23-24 | A fresh all-zero matrix of shape (num_cols, num_rows), with the counter at 0. |
| Engine.GameOfLife.Create | game_of_life.py:19-30 | Fails iff some entry is not a pair, with the error naming the first such entry. Otherwise: a fresh valid game of that shape and rule, whose board is 1 exactly at the listed positions, with the counter at 0. |
| Engine.GameOfLife.Score | game_of_life.py:32-35 | The sum of the matrix is the number of active cells. |
| Engine.GameOfLife.Size | game_of_life.py:94-96 | The shape of the matrix is (num_cols, num_rows). |
| Engine.GameOfLife.ActiveNeighbors | game_of_life.py:70-80 | The loop over `MOVES` returns exactly `Neighbors(board, p)`. |
| Engine.GameOfLife.NextValue | game_of_life.py:53-65 | The branches of the step give the rule's next value of the cell, and report a change iff that value differs from the current one. |
| Engine.GameOfLife.WriteNext | game_of_life.py:53-65 | Writes the cell's next value into the new matrix and leaves every other entry as it was. |
| Engine.GameOfLife.NextColumn | game_of_life.py:52-65 | The inner loop fills column i of the new matrix with next values. It extends the change list by the changing cells of column i, in order of j. |
| Engine.GameOfLife.Successor | game_of_life.py:49-65 | The two loops give a fresh matrix holding every cell's next value, and the change list over the whole scan. |
| Engine.GameOfLife.HoldsNext | game_of_life.py:66 | A matrix holding every cell's next value holds the next generation. |
| Engine.GameOfLife.Step | game_of_life.py:49-68 | Afterwards the board is the next generation of the old one and the shape is kept. The result is exactly the old-versus-new change list, and the counter has gone up by exactly 1. |
| Engine.GameOfLife.Activate | game_of_life.py:82-83 | The board is the old board with p set to 1. The matrix object and the counter are unchanged. |
| Engine.GameOfLife.Deactivate | game_of_life.py:85-86 | The board is the old board with p set to 0. The matrix object and the counter are unchanged. |
| Engine.GameOfLife.Toggle | game_of_life.py:88-89 | The board is the old board with p flipped. The matrix object and the counter are unchanged. |
| Engine.GameOfLife.Restart | game_of_life.py:91-92 | The board is the zero board of the same shape whatever it was before, so a second restart changes nothing. The counter is kept. |
| Engine.GameOfLife.SavePayload | game_of_life.py:98-104 | The payload is `Save` of the board and the counter: size = the matrix shape and step = the counter. Its entries name exactly the active cells, and loading it with the axes in order gives the board back. |
| Engine.GameOfLife.Load | game_of_life.py:115-123 | Load as written succeeds iff `Restore` does, and fails with `Restore`'s error. On success the game and its matrix are fresh, the board is `Restore`'s board with axes swapped, and the counter is the saved step. |
| Engine.GameOfLife.LoadFixed | game_of_life.py:115-123 | Load with the axes in order succeeds iff `RestoreFixed` does, and fails with `RestoreFixed`'s error. On success the game and its matrix are fresh, the board is `RestoreFixed`'s board, and the counter is the saved step. |

## Left out

- Engine.GameOfLife.Create: requires every entry before the first malformed one to lie on the board. The source indexes a numpy array with each entry: a negative index wraps around to the other end and an index too large raises `IndexError`. Neither is modelled.
- Engine.GameOfLife.Activate, Engine.GameOfLife.Deactivate, Engine.GameOfLife.Toggle: require p on the board, for the same numpy indexing reason.
- Engine.GameOfLife.Load, Engine.GameOfLife.LoadFixed: require the saved cells to be indexable on the board they build, for the same reason. Looking up a missing key in the JSON object is not modelled either.
- Grids.Build, Snapshots.Restore, Snapshots.RestoreFixed: require the same indexability of the entries, for the same numpy indexing reason.
- Engine.GameOfLife.Create, Engine.GameOfLife.Load, Engine.GameOfLife.LoadFixed: the dimensions are `nat`. For a negative dimension, `np.zeros` raises `ValueError` (game_of_life.py:23); `load` reaches that through a negative saved size. This error is not modelled.
- `initial_active=None` is not modelled; an empty list stands for it.
- Entries that are not integers are not modelled: each entry is a sequence of integers.
- Cells are the integers 0 and 1 (`Bit`), not `uint8`. No operation of the engine writes any other value.
- The score is an unbounded integer; numpy's result type is not modelled.
- The file write in `save` and its `np.int64` JSON hook are I/O and are left out. Only the payload record is modelled.
- `load` does not check sizes, bounds or duplicate cells, and the model adds none.
- The step is one method that branches on `Born(rule, n)` rather than two copies of the loop. Its loop body is split into `NextValue`, `WriteNext` and `NextColumn`, and its two loops form `Successor`. The order of the writes and appends is the source's.
- `app.py`, `ui.py` and `util.py` are not part of this model: they are the pygame window, the rendering and an unused helper.

## Findings

| source | as written | input that shows it | evidently intended | confidence | as-written member | corrected member |
|---|---|---|---|---|---|---|
| game_of_life.py:117-121 | `load` passes `size[0]` as `num_rows` and `size[1]` as `num_cols`. `size` is `mat.shape = (num_cols, num_rows)`, so the axes are swapped. | A saved 1-column, 2-row board loads as 2 columns and 1 row. On a saved non-square board, an active cell that is off the swapped board makes the load raise `IndexError`. | `size[0]` is `num_cols` and `size[1]` is `num_rows`, so that save then load gives back the board for every shape. | not executed | Snapshots.SaveRestoreAsWritten | Snapshots.SaveRestoreFixed |
