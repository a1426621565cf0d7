# Game of Life engine in Dafny

A verified model of the simulation state of a pygame implementation of
Conway's Game of Life (`game.py`, class `Game`, with the constants of
`constants.py`). The model is imperative, like the source: `GameModel.Game`
is a class whose fields are the live-cell set, the history stack of
snapshots, the generation counter, the frame rate and the pause and
step-request flags, and its methods change those fields as the source's
methods do. The methods are proved against specification functions, and the
lemmas about those functions state what the game promises.

The files are:

- `constants.dfy` (module `Constants`): window and tile sizes, frame-rate
  limits, the history bound, and the viewport they define. The viewport is
  45 rows by 80 columns.
- `cells.dfy` (module `Cells`): cells as integer pairs, pixel-to-cell
  conversion, single-cell edits, row-major positions, and the viewport-wide
  fill, invert and random seed.
- `rules.dfy` (module `Rules`): the neighbour count, one visit of the
  sweep, and the in-place row-major sweep `Sweep(s, k)`. It also holds the
  lemmas that pin down what the sweep computes.
- `history.dfy` (module `History`): the bounded push onto the history stack.
- `game.dfy` (module `GameModel`): the `Game` class and its invariants, the
  key handlers, the per-frame update, and a reachable run on which the
  counter falls below the history's length.

The model follows the code in three places where a textbook Game of Life
would differ:

- **The sweep is in place.** `produce_new_generation` adds and removes cells
  of the live set while later cells of the same sweep are still counting
  their neighbours in it. `Rules.Sweep` models exactly that: it visits the
  viewport row by row and updates the set after each cell. The result is
  not the rule applied to a snapshot. `Rules.InPlaceSweepSeesEarlierBirths`
  exhibits a cell that is born only because a neighbour was born earlier in
  the same sweep.
- **The first pattern is never stored.** The history starts empty, and only
  the update stores snapshots.
- **Stepping back is lossy.** The snapshot installed by a step back is
  removed from the stack. So a forward step followed by a step back does not
  restore the stack.

Two invariants of the game are stated on the class.

- `Valid()` is kept by every key command and by the per-frame update.
  `StoreOldGeneration` and `ProduceOldGeneration` are steps inside them and
  do not promise it on their own. Its conjuncts are:
  - the frame rate lies within [1, 100];
  - at most 1000 snapshots are stored;
  - the counter is at least the number of snapshots minus one;
  - the counter equals the number of snapshots minus one only when at
    least two are stored;
  - while a step back is pending, the counter is at least the number of
    snapshots.

  Together they imply that the counter is never negative.
- `DepthTracked()` is the stronger "counter ≥ number of snapshots", with a
  pending step back unable to take it below that. Every key command keeps
  it, and so does every per-frame update except one that finds both step
  flags set. `StoreOldGeneration` on its own does not keep it.
  `GameModel.SimultaneousStepKeys` shows that holding N and P in the same
  key event does break it.

## Model

| member | source | states |
|---|---|---|
| Cells.GetCell | game.py:82-87 | the cell containing a pixel position: each coordinate r satisfies r·TILE_SIZE ≤ p < r·TILE_SIZE + TILE_SIZE (floor division) |
| Cells.Activated | game.py:89-94 | after activating c, c is live, every other cell keeps its state, and activating a live cell changes nothing |
| Cells.Deactivated | game.py:96-102 | after deactivating c, c is dead, every other cell keeps its state, and deactivating a dead cell changes nothing |
| Cells.Toggled | game.py:104-112 | toggling flips c and only c |
| Cells.ToggleInvolution | game.py:104-112 | toggling the same cell twice restores the original set |
| Cells.ActivateThenDeactivate | game.py:89-102 | activate then deactivate leaves c dead whatever its prior state, and removes only c |
| Cells.Index | game.py:196-197 | a viewport cell's row-major position lies in 0 .. ROWS·COLS − 1 |
| Cells.IndexOfCellAt | game.py:196-197 | every row-major position names a viewport cell whose position is that number |
| Cells.CellAtOfIndex | game.py:196-197 | a viewport cell is recovered from its row-major position, so the sweep visits each viewport cell once |
| Cells.RowMajorPosition | game.py:196-197 | column j of row i is at position i·COLS + j, which lies inside the viewport and is the row-major index of cell (j, i) |
| Cells.Viewport | game.py:131-132 | the filled set holds exactly the cells with 0 ≤ x < COLS and 0 ≤ y < ROWS |
| Cells.Inverted | game.py:135-141 | the inverted set holds exactly the viewport cells that were not live, so live cells outside the viewport are dropped |
| Cells.InvertTwice | game.py:135-141 | inverting twice keeps exactly the live cells inside the viewport |
| Cells.Randomized | game.py:124-130 | a cell is live in the random seed iff it is in the viewport and its coin (in row-major order) came up 1 |
| Rules.LiveInColumn | game.py:184-187 | the inner loop's count over the first m offsets is at most m, and below m in the centre column, which skips the cell itself |
| Rules.LiveAmong | game.py:183-187 | the outer loop's count over the first n columns is at most 3n, and below 3n once the centre column is included |
| Rules.NeighborCount | game.py:175-189 | the count is between 0 and 8 |
| Rules.NeighborCountIsLiveNeighbors | game.py:180-189 | the loop's count equals the number of live cells at Chebyshev distance 1 from the cell, the cell itself excluded |
| Rules.NeighborCountLocal | game.py:180-189 | the count depends only on the eight neighbouring cells |
| Rules.NeighborCountIgnoresSelf | game.py:180-189 | whether the cell itself is live does not change its count |
| Rules.NeighborCountEmpty | game.py:180-189 | every count in the empty set is 0 |
| Rules.NextAlive | game.py:199-204 | the rule: a cell is live afterwards iff it has exactly 3 live neighbours, or it was live and has 2; so a dead cell with 3 is born and a live cell with 2 or 3 survives |
| Rules.Sweep | game.py:196-204 | definition: the live set after the first k visits of the row-major loop, each visit applied to the set the previous visits left (in place) |
| Rules.NextGeneration | game.py:191-204 | definition: the whole in-place sweep over the viewport, Sweep(s, ROWS·COLS); its properties are SweepVisitsOnce, CellFate, NextGenerationKeepsOutside and SweepEmpty |
| Rules.Visit | game.py:198-204 | after one visit the cell is live iff the rule holds for its state and its count in the current set: a live cell survives with 2 or 3, a dead cell is born with 3 |
| Rules.VisitFrame | game.py:198-204 | a visit changes no cell but the visited one |
| Rules.SweepFrame | game.py:196-204 | the first k visits leave every cell they have not reached as it was |
| Rules.SweepStep | game.py:196-204 | the visit at row-major position k is the visit of the cell at that position |
| Rules.NextGenerationKeepsOutside | game.py:196-204 | the sweep never changes a cell outside the viewport |
| Rules.SweepVisitsOnce | game.py:196-204 | a viewport cell changes only at its own visit: before it, it has its original state; after it, the state its visit gave it |
| Rules.SweepIsMixed | game.py:196-204 | partway through the sweep, the set is the final generation on the visited cells and the original set on the others |
| Rules.CellFate | game.py:196-204 | each viewport cell ends up live iff the rule holds for its original state and its count over the already-updated cells before it and the original cells after it |
| Rules.SweepEmpty | game.py:196-204 | the sweep of the empty set is empty: nothing is born from nothing |
| Rules.CountFromNeighbors | game.py:180-189 | when the live neighbours of a cell are exactly a given set, the count is that set's size |
| Rules.InPlaceSweepSeesEarlierBirths | game.py:196-204 | for the horizontal blinker on row 1, cell (2, 0) is born in the next generation although it has only two live neighbours in the original set |
| History.Stored | game.py:206-214 | the pushed stack ends with the snapshot; it keeps the newest entries of the old stack in order; it grows by one unless the bound is exceeded, when it keeps its length; it never outgrows a bound it respected |
| History.StoredEvictsOldest | game.py:213-214 | when the bound is exceeded, exactly the oldest entry (index 0) is dropped |
| History.StoredUnbounded | game.py:211-213 | with the bound -1, a push only appends |
| GameModel.Game.Valid | game.py:20-29 | the invariant every key command and update keeps: frame rate within [1, 100], at most 1000 snapshots, counter ≥ snapshots − 1 (with equality only when at least two are stored), counter ≥ snapshots while a step back is pending; it implies the counter is never negative |
| GameModel.Game.DepthTracked | game.py:231-240 | counter ≥ number of snapshots, and a pending step back will not take it below that; it implies the counter is never negative |
| GameModel.Game.constructor | game.py:16-29 | the initial state: frame rate 20, counter 0, paused, no flags, no live cells, empty history; both invariants hold |
| GameModel.Game.Activate | game.py:89-94 | the live set becomes Activated(old set, c) |
| GameModel.Game.Deactivate | game.py:96-102 | the live set becomes Deactivated(old set, c) |
| GameModel.Game.Toggle | game.py:104-112 | the live set becomes Toggled(old set, c), through the same deactivate or activate call |
| GameModel.Game.Neighbors | game.py:175-189 | the nested loop over the offsets returns NeighborCount of the current live set |
| GameModel.Game.ProduceNewGeneration | game.py:191-204 | the nested row-major loop leaves the live set equal to NextGeneration of the old set, the whole in-place sweep |
| GameModel.Game.StoreOldGeneration | game.py:206-214 | the history becomes Stored(old history, live set, 1000) |
| GameModel.Game.ProduceOldGeneration | game.py:216-223 | with at most one snapshot nothing changes; otherwise the top two snapshots leave the stack and the second one becomes the live set |
| GameModel.Game.UpdateGameScreen | game.py:225-245 | a pending step forward counts up and stores the live set; else a pending step back counts down only if more than one snapshot is left; else a running game produces, counts and stores a generation; Valid is kept, and so is DepthTracked unless both flags were set |
| GameModel.Game.TogglePause | game.py:122-123 | Space flips the pause state |
| GameModel.Game.Randomize | game.py:124-130 | the row-major loop builds exactly Randomized(bits) and installs it |
| GameModel.Game.Fill | game.py:131-132 | the live set becomes the whole viewport |
| GameModel.Game.Clear | game.py:133-134 | the live set becomes empty |
| GameModel.Game.Invert | game.py:135-141 | the row-major loop builds exactly Inverted(old set) and installs it |
| GameModel.Game.RequestNextGeneration | game.py:143-145 | N produces NextGeneration of the live set and sets the step-forward flag |
| GameModel.Game.RequestPreviousGeneration | game.py:146-148 | P steps back as ProduceOldGeneration does and sets the step-back flag; Valid and DepthTracked are kept |
| GameModel.Game.IncreaseFrameRate | game.py:150-151 | + raises the frame rate by one, clamped at the maximum; Valid is kept |
| GameModel.Game.DecreaseFrameRate | game.py:152-153 | − lowers the frame rate by one, clamped at the minimum; Valid is kept |
| GameModel.Game.EditKeys | game.py:121-141 | Space flips the pause state, and R, E, K and T edit the live set in that order, giving Edited(keys, bits, old set) |
| GameModel.Game.StepKeys | game.py:142-153 | while paused N then P act on the set, the history and the flags; while running + then − act on the frame rate, giving Adjusted(keys, old rate) |
| GameModel.Game.KeyDown | game.py:121-153 | one key event: the edits first, then the stepping or speed keys chosen by the pause state after Space; Valid is kept, and so is DepthTracked |
| GameModel.Edited | game.py:124-141 | the live set after R, E, K and T in that order: any of them leaves only viewport cells, K without T leaves none, and with none of them the set is unchanged |
| GameModel.Adjusted | game.py:150-153 | the frame rate after + then −: from a rate within the limits it moves by at most one, and with neither key it is unchanged |
| GameModel.ClearThenInvertFills | game.py:133-141 | holding K and T in one event fills the viewport, because the clear runs before the invert |
| GameModel.AdjustedWithinLimits | game.py:150-153 | the speed keys keep the frame rate within its limits; holding both at the maximum lowers it by one |
| GameModel.OneStepForward | game.py:143-145 | from a fresh game with one clicked cell, N and one update give counter 1 and one stored snapshot |
| GameModel.StepKeysTogether | game.py:143-148 | from that state, N and P held together and two updates give counter 1 with two stored snapshots |
| GameModel.SimultaneousStepKeys | game.py:231-240 | a reachable run ends with the counter below the history's length |

## Left out

- Rendering is not modelled: `draw_grid`, `draw_states`, `render_game_screen` and the display updates inside `update_game_screen` only draw on a pygame surface.
- The `play` loop, the clock tick, the window caption and process exit are not modelled. They are frame pacing and process plumbing; the model exposes one key event (`KeyDown`) and one update (`UpdateGameScreen`) as separate operations.
- Event polling through pygame is not modelled. The keys held in one key-down event are a `Keys` value passed to `KeyDown`.
- The mouse handlers are not modelled as such. A click while paused activates (left button) or toggles (right button) `GetCell(mouse position)` and sets a drag flag, `is_left_click_pressed` or `is_right_click_pressed`. Any later event other than a key, a click or quit then activates or toggles the cell under the mouse while its flag is set, and that drag branch does not check the pause state. So a drag begun while paused goes on editing cells after Space resumes the game, until the button is released. `Activate`, `Toggle` and `GetCell` model what each of these edits does to the live set; the flags and the event sequence are not modelled.
- Quit is not modelled. It only sets the exit and pause flags for the loop.
- The random generator `randint` is not modelled. Its per-cell results are the `bits` parameter of `Randomize` and `KeyDown`, one per viewport cell in row-major order.
- The colours in `constants.py` are not modelled; they are cosmetic.
- GameModel.Game.UpdateGameScreen: it does not promise counter ≥ history length after every update. An update that finds both step flags set can break it, as `SimultaneousStepKeys` shows. The contract promises it for every other update, and promises the weaker `Valid` bound always.
- GameModel.Game.ProduceNewGeneration: it is proved equal to the in-place sweep `NextGeneration`, not to the textbook simultaneous rule, because the code updates the set in place. The textbook oscillation and still-life results are not claimed.
