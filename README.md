# Deep Minesweeper, modelled in Dafny

This project models the game logic of Deep Minesweeper, a Minesweeper game that a
person or a learning agent plays. Hidden cells sit on a rectangular grid. Some of them
hold mines. Every other cell shows its proximity: how many of its eight neighbours
hold a mine. A player selects a cell to open it, toggles a flag on a cell it thinks is
a mine, chords an open cell, or superchords the whole board. A chord opens the
neighbours of a cell whose flags already account for its proximity; a superchord
repeats that over every such cell until nothing changes.

The repository holds three generations of the game, and all three are modelled:

- **The board package** (`minesweeper/board.py`, `minesweeper/boards.py`,
  `minesweeper/seeders.py`).
  - `Board` models the helpers. `adjacents` lists a cell's in-grid neighbours.
    `neighbors` computes the proximity matrix by convolution. `HiddenBoardState` is
    the snapshot an agent sees.
  - `Boards` models `SquareGrid` and `SquareBoard` as classes over `array2` masks:
    open, flagged and mined.
    - `select` is modelled with its breadth-first flood fill. Its contract says which
      cells open: the flood region of the cell.
    - `chord`, `superchord` and `first_select` are modelled in full, with their
      safety properties.
    - The statistics (`flags`, `mines`, `open_cells`, `completed`, `failed`, …) are
      modelled as functions.
  - `Flood` and `Moves` hold the value-level theory these contracts are stated in.
  - `Seeders` models the `number_mines` and `percent_mines` seeders, with
    `random.shuffle` as a Fisher–Yates shuffle of an array whose draws are a
    parameter.
- **The cell-object game.**
  - `CellGame` models `minesweeper/game.py`. Its `Grid` holds one `Cell` object per
    position, modelled as an `array2` of cell states.
  - `PixelGame` models the older `game.py`. It is the same grid, addressed by pixel
    coordinates.
- **The legacy text grid** (`game/`).
  - `LegacyCell` models the cell enumeration.
  - `LegacyGrid` models the grid with its bounds checks and its text rendering.
  - `MineSeeders` models the base, random and checkerboard seeders.
- **Around the game.**
  - `Actions` models the action values and their `repr`.
  - `Utils` models `minesweeper/utils.py`: the time moving average, the frame delayer
    and the tick repeater.
  - `TopUtils` models the older top-level `utils.py`.
  - `Registry` models the agent registry of `minesweeper/__init__.py`.
  - `Agents` and `BaselineAgents` model the two random agents.

Some things come from outside the program, and the model takes each as a parameter:

- clock readings (`tickTime`, `elapsed`, `clockReading`);
- the indices `random.shuffle` draws (`picks`);
- the agents' choice of cell, with `:|`;
- the random seeder's draws: only the draws that hit a blank cell are modelled.

Python integers are unbounded, so the model uses Dafny's `int` throughout. Floats are
modelled as `real`.

## Model

| member | source | states |
|---|---|---|
| `Board.Adjacents` | minesweeper/board.py:10-20 | The result holds exactly the in-grid cells touching `p`: never `p`, at most 8, each once. |
| `Board.KeepInBounds` | minesweeper/board.py:12 | The `filter` keeps exactly the listed positions inside the grid, never more of them, and keeps distinct entries distinct. |
| `Board.OffsetsTouching` | minesweeper/board.py:13-20 | The eight listed offsets are exactly the cells touching `p`. |
| `Board.AdjacentsInterior` | minesweeper/board.py:10-20 | Away from the border nothing is filtered: the neighbours come in the source's order E, SE, S, SW, W, NW, N, NE. |
| `Board.AdjacencySymmetric` | minesweeper/board.py:10-20 | `q` is a neighbour of `p` exactly when `p` is a neighbour of `q`. |
| `Board.CountAtZero` | minesweeper/boards.py:221-224 | A count of marked neighbours is 0 exactly when none of the listed cells is marked. |
| `Board.CountAtMonotone` | minesweeper/boards.py:221-224 | Counting under a smaller mask gives a smaller count. Equal counts under nested masks mean the masks agree on the listed cells. |
| `Board.Neighbors` | minesweeper/board.py:23-31 | The proximity matrix has the grid's shape: -1 on every mine, a value in 0..8 elsewhere. |
| `Board.ConvolvedCountsAdjacentMines` | minesweeper/board.py:26-29 | The zero-padded convolution at a cell equals the number of mines among its `adjacents`. |
| `Board.NeighborsCountAdjacentMines` | minesweeper/board.py:23-31 | The proximity of a non-mine is the number of mines among its in-grid neighbours, with no wrap-around. The proximity of a mine is -1. |
| `Board.ZeroProximityIsSafe` | minesweeper/board.py:23-31 | A cell of proximity 0 holds no mine, and neither does any of its neighbours. |
| `Board.HiddenBoardState.Size` | minesweeper/board.py:202-204 | `size` is the shape of the proximity matrix. |
| `Board.HiddenBoardState.Open` | minesweeper/board.py:206-208 | `open` has the board's shape and marks exactly the cells that are neither openable nor flagged. |
| `Board.OpenableMask` | minesweeper/board.py:190-191 | The openable mask marks exactly the cells that are neither open nor flagged. |
| `Board.SnapshotOpenRecoversBoard` | minesweeper/board.py:188-208 | A snapshot of a board with no cell both open and flagged is well shaped, and its `open` gives back the board's open mask. |
| `Boards.SquareGrid.constructor` | minesweeper/boards.py:112-115 | The state arrays `resize` allocates: every cell closed and unflagged, the proximity all 0. |
| `Boards.SquareGrid.Select` | minesweeper/boards.py:70-72 | The cell opens exactly when it is not flagged. Every other cell keeps its openness, and the grid stays valid. |
| `Boards.SquareGrid.ToggleFlag` | minesweeper/boards.py:74-76 | The cell's flag becomes "closed and not flagged before". Nothing else changes, so no cell is ever both open and flagged. |
| `Boards.SquareGrid.Refill` | minesweeper/boards.py:123-134 | A proximity of the wrong shape fails the assertion and changes nothing. Otherwise the proximity is installed and every flag cleared. Exactly the cells of the layout are opened (none without a layout), and a layout of the wrong shape fails after the clearing. |
| `Boards.SquareGrid.Size` | minesweeper/boards.py:143-145 | The size is the shape of both masks. |
| `Boards.SquareGrid.IsOpen` | minesweeper/boards.py:153-154 | An open cell is never flagged. |
| `Boards.SquareGrid.IsFlagged` | minesweeper/boards.py:150-151 | A flagged cell is never open. |
| `Boards.SquareBoard.constructor` | minesweeper/boards.py:179-187 | The board keeps the seeder's layout and its proximity, and refills the grid: no flag, and only the cells of `open_layout` open when it has the grid's shape, none otherwise. |
| `Boards.SquareBoard.New` | minesweeper/boards.py:179-187 | Fails with `IndexError` exactly when `open_layout` does not have the grid's shape. Either way the grid holds the layout's proximity and no flag. On success the board keeps the layout and only the cells of `open_layout` are open; on failure none is. |
| `Boards.SquareBoard.Select` | minesweeper/boards.py:199-212 | The cells it selects form the least region containing `pos` that is closed under expanding closed zero cells. The new open mask opens the unflagged cells of that region and nothing else. A cell that does not expand selects only itself. No newly opened cell other than `pos` holds a mine. |
| `Boards.SquareBoard.SelectCells` | minesweeper/boards.py:199-212 | The optional flood fill and then `pos`: the cells selected are closed under expansion, with a tree of first visits, and exactly their unflagged cells open. |
| `Boards.SquareBoard.FloodFill` | minesweeper/boards.py:201-210 | The queue loop ends. The set it enqueued is closed under expansion and has a tree of first visits, and the open mask gains exactly its unflagged cells. |
| `Boards.SquareBoard.FloodTurn` | minesweeper/boards.py:204-210 | One pop, the optional append of the neighbours, and one select keep the loop invariant and decrease the termination measure. |
| `Boards.SquareBoard.ToggleFlag` | minesweeper/boards.py:214-215 | The flag toggle is forwarded to the grid: only that cell's flag changes, and only when the cell is closed. |
| `Boards.SquareBoard.KnownAmong` | minesweeper/boards.py:221-224 | The counting loop counts the listed cells that are flagged, or open and mined. |
| `Boards.SquareBoard.Chord` | minesweeper/boards.py:217-228 | On an open cell whose count of known mines equals its proximity, each neighbour is selected in turn. Otherwise nothing changes. When every flag marks a mine, no newly opened cell holds a mine. |
| `Boards.SquareBoard.SelectEach` | minesweeper/boards.py:227-228 | Selecting each listed cell in turn gives `SelectSeq`, the open mask of those selects in order. |
| `Boards.SquareBoard.SelectTurn` | minesweeper/boards.py:228 | One more select extends `SelectSeq` by one cell and leaves the flags alone. |
| `Boards.SquareBoard.FirstSelect` | minesweeper/boards.py:189-197 | The first cell and its neighbours lose their mines and every flag is cleared. The select then opens the first cell, all of its neighbours, and no mine. |
| `Boards.SquareBoard.ClearMines` | minesweeper/boards.py:190-192 | The new layout is `ClearedAround`: no mine on `pos` or its neighbours, every other cell as it was. |
| `Boards.SquareBoard.ClearEach` | minesweeper/boards.py:191-192 | Every listed cell holds no mine afterwards, and the unlisted cells keep their layout. |
| `Boards.SquareBoard.ClearCell` | minesweeper/boards.py:192 | `mines[pos] = False`: that cell loses its mine and every other cell keeps its layout. |
| `Boards.SquareBoard.Redeal` | minesweeper/boards.py:194-195 | The recomputed proximity is installed with nothing open or flagged, and the layout is unchanged. |
| `Boards.SquareBoard.OpenFirst` | minesweeper/boards.py:197 | The select on the redealt board opens the first cell and its neighbours and no mine. |
| `Boards.SquareBoard.ProximityMatrix` | minesweeper/boards.py:261-263 | On every cell: -1 on a mine, otherwise the number of mines around it. |
| `Boards.SquareBoard.HiddenLayout` | minesweeper/boards.py:273-275 | The complement of the open mask; it marks every flagged cell. |
| `Boards.SquareBoard.FlagCount` | minesweeper/boards.py:285-287 | The flags and the open cells together never exceed the number of cells. |
| `Boards.SquareBoard.MineCount` | minesweeper/boards.py:289-291 | At most the number of cells, and 0 exactly when no cell holds a mine. |
| `Boards.SquareBoard.CellCount` | minesweeper/boards.py:293-295 | The number of cells of the grid. |
| `Boards.SquareBoard.OpenMines` | minesweeper/boards.py:297-299 | At most the mines and at most the open cells, and 0 exactly when no open cell holds a mine. |
| `Boards.SquareBoard.OpenCells` | minesweeper/boards.py:301-303 | At most the number of cells. It is 0 exactly when nothing is open, and all cells exactly when everything is open. |
| `Boards.SquareBoard.Completed` | minesweeper/boards.py:305-310 | True exactly when every cell is a mine or open, or the flags are exactly the mines (both directions). |
| `Boards.SquareBoard.Failed` | minesweeper/boards.py:312-314 | A negative forgiveness fails at once. Otherwise a failed game has an open mine, and with no open mine the game fails only when the forgiveness is negative. |
| `Boards.SquareBoard.Superchord` | minesweeper/boards.py:230-255 | The passes repeat until the number of open cells stays the same, giving `Superchorded`. When every flag marks a mine and no mine was open, none is open afterwards. |
| `Boards.SquareBoard.SuperchordPass` | minesweeper/boards.py:235-255 | One pass selects the openable cells in row-major order. It reports "same count" exactly when the mask did not change, and otherwise the count grew. |
| `Flood.Cells` | minesweeper/boards.py:316-317 | The set of all positions of the grid. |
| `Flood.Opened` | minesweeper/boards.py:70-72 | Selecting a set of cells opens exactly its unflagged cells and keeps every open cell open. |
| `Flood.OpenedSelect` | minesweeper/boards.py:210 | Selecting one more cell adds it to the selected set. |
| `Flood.SingleRegion` | minesweeper/boards.py:212 | A cell that does not expand is a closed region on its own, with a one-node tree. |
| `Flood.ParentTreeIsLeast` | minesweeper/boards.py:201-210 | A set with a tree of first visits lies inside every closed region of `pos`. |
| `Flood.ClosedZeroStep` | minesweeper/boards.py:206-210 | A select never enlarges the set of closed unflagged zero cells, and opening one of them shrinks it. |
| `Flood.FlaggedZeroWeight` | minesweeper/boards.py:206-208 | Expanding a flagged zero cell lowers the weighted queue length, given no two touching flagged zero cells. |
| `Flood.ParentTreeExtend` | minesweeper/boards.py:206-208 | Appending an expanding cell's neighbours extends the tree of first visits. |
| `Flood.ParentTreeSafe` | minesweeper/boards.py:200-208 | Every cell of a tree but its root touches a zero cell, so it holds no mine. |
| `Flood.AppendAll` | minesweeper/boards.py:207-208 | The append loop puts the neighbours at the back of the queue, in order. |
| `Flood.QueueStep` | minesweeper/boards.py:204-208 | Popping the head and appending cells keeps "queued cells are enqueued, enqueued cells are visited or queued". |
| `Flood.ClosureStep` | minesweeper/boards.py:206-208 | Visiting a cell keeps "every neighbour of a visited expanding cell is enqueued". |
| `Flood.FloodStep` | minesweeper/boards.py:203-210 | One turn keeps the full loop invariant. The measure drops: fewer closed zero cells, or as many and a lighter queue. |
| `Flood.FloodStateDone` | minesweeper/boards.py:203 | With the queue empty, the enqueued set is closed under expansion, has a tree of first visits, and is exactly what opened. |
| `Flood.Reach` | minesweeper/boards.py:199-212 | The reference region of a select: the cells every closed region of `pos` holds. `Flood.ReachIsClosed` proves it is itself a closed region, so it holds `pos` and lies in the grid, and `Flood.FloodRegionIsReach` proves it is the region the loop reaches. |
| `Flood.FloodRegionIsReach` | minesweeper/boards.py:199-212 | The flood region of a cell is unique. |
| `Flood.FloodRegionOfPlainCell` | minesweeper/boards.py:200 | Without propagation, or on a non-zero or open cell, `select` touches only `pos`. |
| `Flood.SelectOpen` | minesweeper/boards.py:199-212 | The open mask after `select`: everything open stays open, and no flagged closed cell opens. |
| `Flood.ReachIsClosed` | minesweeper/boards.py:199-212 | The intersection of all closed regions is itself closed. |
| `Flood.ReachHasParent` | minesweeper/boards.py:206-208 | Every reached cell but `pos` is a neighbour of a reached expanding cell. |
| `Flood.SelectOpenSafe` | minesweeper/board.py:23-31 | On the proximity of a layout, no cell `select` opens besides `pos` holds a mine. |
| `Flood.SelectOutcome` | minesweeper/boards.py:199-212 | A set selected with a tree of first visits is the flood region, and its unflagged cells are exactly `SelectOpen`. It opens no mine besides `pos`. |
| `Moves.Or` | minesweeper/boards.py:238 | The entrywise or of two masks. |
| `Moves.And` | minesweeper/boards.py:244 | The entrywise and of two masks. |
| `Moves.Same` | minesweeper/boards.py:310 | The entrywise equality of two masks. |
| `Moves.Finished` | minesweeper/boards.py:305-310 | `np.all(mines \| open) or np.all(mines == flags)` is true exactly when every cell is a mine or open, or the flags are the mines. |
| `Moves.OpenMineCount` | minesweeper/boards.py:297-299 | The open mines number at most the mines and the open cells, with 0 exactly when no mine is open. |
| `Moves.KnownMines` | minesweeper/boards.py:238 | The cells known to hold a mine: the flagged cells and the open mines, of the grid's shape. |
| `Moves.ChordFires` | minesweeper/boards.py:217-226 | The test of `chord`: `pos` is open and its known-mine neighbours number its proximity. A firing chord has a proximity between 0 and its number of neighbours. |
| `Moves.OpenMineNeverChords` | minesweeper/boards.py:226 | An opened mine never passes the chord test, because its proximity is -1. |
| `Moves.ChordFindsEveryMine` | minesweeper/boards.py:217-228 | When every flag marks a mine and the chord test passes, `pos` is no mine. Every mine around it is flagged or open. |
| `Moves.Complete` | minesweeper/boards.py:241-244 | The open cells whose known-mine neighbour count equals their proximity, of the grid's shape. |
| `Moves.Openable` | minesweeper/boards.py:247 | The cells touching a complete cell, `add_neighbors(complete) > 0`, of the grid's shape. |
| `Moves.OpenableTouchesComplete` | minesweeper/boards.py:244-247 | A cell is openable exactly when it is not complete and touches a complete cell. |
| `Moves.OpenMineExposesNeighbours` | minesweeper/boards.py:238-247 | An opened mine counts as complete, so each of its neighbours that is not complete is openable. |
| `Moves.OpenableIsSafe` | minesweeper/boards.py:238-251 | With every flag on a mine and no mine open, an openable mine is flagged, so selecting it opens nothing. |
| `Moves.OpenableAreSafeTargets` | minesweeper/boards.py:250-251 | With every flag on a mine and no mine open, every cell a pass selects is a safe target: a mine among them is flagged. |
| `Moves.RowWhere` | minesweeper/boards.py:250 | The true cells of one row, left to right. |
| `Moves.ArgWhere` | minesweeper/boards.py:250 | `np.argwhere`: exactly the true cells, each once, in row-major order. |
| `Moves.RowMajorDistinct` | minesweeper/boards.py:250 | Cells listed in row-major order are pairwise distinct. |
| `Moves.SelectSeq` | minesweeper/boards.py:227-228 | Selects in order keep every open cell open and never open a flagged closed cell. |
| `Moves.SelectSeqSafe` | minesweeper/boards.py:227-228 | When every mine among the targets is flagged or open, the selects open no mine. |
| `Moves.SelectStepSafe` | minesweeper/boards.py:228 | One more select of a target whose mine is flagged or open keeps "no new mine opened". |
| `Moves.NoNewMineStep` | minesweeper/boards.py:226-228 | "No new mine opened" survives a select that opens no mine but its target, when the target is covered. |
| `Moves.Pass` | minesweeper/boards.py:235-251 | One superchord pass has the grid's shape. |
| `Moves.Superchorded` | minesweeper/boards.py:230-255 | The fixpoint is reached. It only opens cells, never a flagged closed one, and a further pass changes nothing. |
| `Moves.SuperchordAtFixedPoint` | minesweeper/boards.py:253-255 | A pass that changes nothing ends the loop at once. |
| `Moves.SuperchordIdempotent` | minesweeper/boards.py:230-255 | A second superchord straight after the first changes nothing. |
| `Moves.ClearedAround` | minesweeper/boards.py:190-192 | The cleared layout: no mine on `pos` or any cell touching it, the rest as before, and never more mines. |
| `Moves.ClearedStartIsZero` | minesweeper/boards.py:189-194 | After the clearing, the first cell has proximity 0. |
| `Moves.FirstSelectOpens` | minesweeper/boards.py:189-197 | The final select opens the first cell and all its neighbours, and no mine. |
| `Seeders.Repeat` | minesweeper/seeders.py:21 | `[x] * n`: `max(0, n)` copies of `x`. |
| `Seeders.Indices` | minesweeper/seeders.py:19-21 | For `n >= 0` the list has one entry per cell and `min(n, sites)` mines. For a negative `n` it is longer than the grid. |
| `Seeders.Shuffle` | minesweeper/seeders.py:22 | The shuffle permutes the array: the multiset of entries is unchanged. |
| `Seeders.Rows` | minesweeper/seeders.py:24 | The rows of the flat list have the grid's shape. |
| `Seeders.RowsCount` | minesweeper/seeders.py:24 | Splitting into rows keeps every count. |
| `Seeders.Reshape` | minesweeper/seeders.py:24 | The reshape succeeds exactly when the list has one entry per cell, and then keeps the multiset of values. |
| `Seeders.NumberMines` | minesweeper/seeders.py:17-26 | It succeeds exactly when `n >= 0`, giving a layout of the grid's shape with exactly `min(n, sites)` mines. |
| `Seeders.PercentMines` | minesweeper/seeders.py:29-34 | A fraction outside `[0, 1]` is refused. The seeder asks for `int(p * p)` mines: 1 at `p = 1`, otherwise 0. |
| `Seeders.SquareBelowOne` | minesweeper/seeders.py:34 | The square of a fraction below 1 is below 1, so `int` truncates it to 0. |
| `Seeders.PercentSeed` | minesweeper/seeders.py:29-36 | The seeded layout has no mine for `p < 1` and `min(1, sites)` mines for `p = 1`, and it fails outside `[0, 1]`. |
| `CellGame.Selected` | minesweeper/game.py:77-80 | A selected cell is never hidden. A flag protects its cell, and an open cell stays open. |
| `CellGame.Toggled` | minesweeper/game.py:82-86 | Hidden and flagged swap and open stays open. |
| `CellGame.ToggleAndSelectRepeat` | minesweeper/game.py:77-86 | Toggling twice restores the state, and a second select changes nothing. |
| `CellGame.Center` | minesweeper/game.py:108-114 | The center lies inside the cell's own rectangle. |
| `CellGame.Cell.constructor` | minesweeper/game.py:63-71 | The cell keeps its position, proximity and corner. It starts hidden by default, open otherwise. |
| `CellGame.Cell.Select` | minesweeper/game.py:77-80 | The state becomes `Selected` of the old one. The answer is "mine" exactly when the proximity is -1, whatever the state. |
| `CellGame.Cell.ToggleFlag` | minesweeper/game.py:82-86 | The state becomes `Toggled` of the old one. |
| `CellGame.Cell.CenterPixel` | minesweeper/game.py:112-114 | The cell's center lies inside its rectangle. |
| `CellGame.Layout` | minesweeper/game.py:247-263 | The mask of the cells in one state holds as many ones as there are such cells. |
| `CellGame.LayoutsPartition` | minesweeper/game.py:247-263 | The hidden, flagged and open layouts split the grid: their counts add up to the number of cells. |
| `CellGame.GrowsTransitive` | minesweeper/game.py:184-199 | "Cells only go from hidden to open" composes over successive selects. |
| `CellGame.SelectOne` | minesweeper/game.py:199 | A single cell select opens only that cell. On a non-zero cell it leaves no work for the flood fill. |
| `CellGame.AfterSelect` | minesweeper/game.py:183-198 | The reference select: every cell of the flood region of `pos` selected, every other cell kept, with the grid's shape (its properties are the four lemmas below). |
| `CellGame.AfterSelectGrows` | minesweeper/game.py:184-199 | On the reference select (the flood region of `pos` selected, nothing else), cells only go from hidden to open and `pos` is selected. Every changed cell lies in every region that holds `pos` and the neighbours of each of its hidden zero cells. |
| `CellGame.AfterSelectSafe` | minesweeper/game.py:187-199 | On the reference select, no opened cell other than `pos` holds a mine: each neighbours a cell of proximity 0. |
| `CellGame.AfterSelectZeroClosed` | minesweeper/game.py:187-197 | On the reference select with propagation, no opened cell of proximity 0 keeps a hidden neighbour. |
| `CellGame.AfterSelectPlain` | minesweeper/game.py:186-198 | Without propagation, or on a cell of proximity other than 0, the reference select changes that cell alone. |
| `CellGame.HiddenZero` | minesweeper/game.py:193 | The hidden cells of proximity 0, the measure the flood fill reduces. |
| `CellGame.FillStart` | minesweeper/game.py:188 | The queue `deque([pos])`, nothing popped and nothing selected yet, establishes the fill invariant: cells are the start with exactly the popped cells selected, queue bookkeeping, closure and tree of first visits. |
| `CellGame.FillStep` | minesweeper/game.py:190-197 | One turn keeps the invariant and decreases the measure: fewer hidden zero cells, or as many and a shorter queue. |
| `CellGame.FillCells` | minesweeper/game.py:197 | Selecting the popped cell keeps the cells equal to the start with exactly the popped ones selected. |
| `CellGame.FillTree` | minesweeper/game.py:193-195 | A popped cell that expands was hidden at the start and never popped before. Its neighbours extend the tree of first visits. |
| `CellGame.FillMeasure` | minesweeper/game.py:193-197 | The hidden zero cells lose one exactly when the popped cell expands. |
| `CellGame.FillDone` | minesweeper/game.py:190-197 | An empty queue ends the fill with the cells equal to the reference select with propagation: exactly the flood region of `pos` selected. |
| `CellGame.SelectStep` | minesweeper/game.py:215-216 | One select among the chord's keeps "no mine opened" when every mine among the targets was covered. |
| `CellGame.ReachShrinks` | minesweeper/game.py:192-216 | Once cells only grew, the flood region of a cell can only shrink: a later select of the chord floods within the region it had at the start. |
| `CellGame.SelectsStep` | minesweeper/game.py:215-216 | Selecting the first `k + 1` targets is selecting the first `k`, then target `k`. |
| `CellGame.SelectsSnoc` | minesweeper/game.py:215-216 | Selecting the targets `ts` and then `t` is selecting `ts + [t]`. |
| `CellGame.SelectsWithin` | minesweeper/game.py:215-216 | Selecting several targets in turn only opens cells, and only cells of the flood region, at the start, of one of the targets. |
| `CellGame.SelectsShown` | minesweeper/game.py:215-216 | After selecting several targets in turn none of them is hidden. |
| `CellGame.SelectsSafe` | minesweeper/game.py:215-216 | Selecting several targets in turn opens no mine when every mine among them was flagged or open at the start. |
| `CellGame.FloorDivRange` | game.py:222-223 | A pixel offset lies within `n` cells exactly when its floor quotient by the cell size lies in `0..n-1`. |
| `CellGame.Grid.constructor` | minesweeper/game.py:167-174 | Every cell is hidden and carries the proximity of the layout. |
| `CellGame.Grid.Select` | minesweeper/game.py:184-199 | The cells become the reference select: the flood region of `pos` (hidden zero cells expand) selected, nothing else. Hence cells only open, `pos` is selected, no mine opens besides `pos`, with propagation no opened zero cell keeps a hidden neighbour, and without a flood only `pos` changes. |
| `CellGame.Grid.FloodFill` | minesweeper/game.py:188-197 | The loop ends, and the cells become the reference select with propagation: exactly the flood region of `pos` selected. |
| `CellGame.Grid.FloodTurn` | minesweeper/game.py:191-197 | One turn keeps the fill invariant and decreases the measure. |
| `CellGame.Grid.SelectCell` | minesweeper/game.py:197 | Only the one cell changes, to `Selected` of itself. |
| `CellGame.Grid.Enqueue` | minesweeper/game.py:194-195 | The neighbours join the back of the queue in order. |
| `CellGame.Grid.ToggleFlag` | minesweeper/game.py:201-202 | Only the one cell changes, to `Toggled` of itself. |
| `CellGame.Grid.KnownAmong` | minesweeper/game.py:208-212 | The count of flagged cells, or open cells of proximity -1, among the listed ones. |
| `CellGame.Grid.SelectEach` | minesweeper/game.py:215-216 | The cells become the reference of selecting each target in turn. Only cells of the targets' flood regions change, and cells only open. Every target ends flagged or open, and no mine opens when every mine among the targets was flagged or open beforehand. |
| `CellGame.Grid.SelectTurn` | minesweeper/game.py:216 | One more select extends the reference by the next target. |
| `CellGame.Grid.Chord` | minesweeper/game.py:204-216 | When the test fails nothing changes. When it passes the cells become the reference of selecting each neighbour in turn, and no neighbour stays hidden. Only cells of the neighbours' flood regions change, cells only open, and with every flag on a mine no mine opens. |
| `CellGame.Grid.Superchord` | minesweeper/game.py:218-219 | Nothing changes. |
| `CellGame.Grid.CellPos` | minesweeper/game.py:232-233 | The pixel lies in the rectangle of the cell `get_cell_pos` names. |
| `CellGame.Grid.Collides` | game.py:286-288 | The pixel hits the grid's rectangle exactly when the cell it names lies in the grid. |
| `CellGame.Grid.CenterRoundTrip` | game.py:205-206 | On a grid drawn from (0, 0), a cell's center hits the grid and names that cell again. |
| `CellGame.Grid.ProximityMatrix` | minesweeper/game.py:239-241 | -1 on a mine, and the number of adjacent mines elsewhere. |
| `CellGame.Grid.FlagLayout` | minesweeper/game.py:247-251 | Marks exactly the flagged cells. |
| `CellGame.Grid.HiddenLayout` | minesweeper/game.py:253-257 | Marks exactly the hidden cells, so no flagged one. |
| `CellGame.Grid.OpenLayout` | minesweeper/game.py:259-263 | Marks exactly the open cells. |
| `CellGame.Grid.FlagCount` | minesweeper/game.py:269-271 | The number of flagged cells. |
| `CellGame.Grid.OpenCells` | minesweeper/game.py:281-283 | The number of open cells. With the flags and the hidden cells they make up the grid. |
| `CellGame.Grid.MineCount` | minesweeper/game.py:273-275 | At most the number of cells, and 0 exactly when there is no mine. |
| `CellGame.Grid.OpenMines` | minesweeper/game.py:277-279 | At most the mines and the open cells, and 0 exactly when no mine is open. |
| `CellGame.Grid.Completed` | minesweeper/game.py:285-290 | True exactly when every non-mine is open, or the flags mark exactly the mines. |
| `CellGame.Grid.NumberMines` | minesweeper/game.py:331-338 | Fails exactly for a negative count. Otherwise the grid has exactly `min(n, sites)` mines, every cell hidden. |
| `CellGame.Grid.PercentMines` | minesweeper/game.py:324-329 | Refuses a fraction outside `[0, 1]`. Otherwise the grid has `min(1, sites)` mines at 1, and none below. |
| `PixelGame.PixelGrid.constructor` | game.py:147-154 | A cell grid with every cell hidden, drawn from `blit_ref`. |
| `PixelGame.PixelGrid.Select` | game.py:164-183 | A pixel off the grid changes nothing. Otherwise the cells become the reference select of the cell the pixel falls in: cells only open, no mine opens besides it, and zero cells get closed around. |
| `PixelGame.PixelGrid.ToggleFlag` | game.py:185-187 | A pixel off the grid changes nothing. Otherwise only the flag of the cell it names toggles. |
| `PixelGame.PixelGrid.CenterTargets` | game.py:205-206 | The cells the centers hit all lie in the grid, and there are at most as many as centers. |
| `PixelGame.PixelGrid.CenterTargetsAtOrigin` | game.py:205-206 | On a grid drawn from (0, 0) the centers hit exactly the cells they were taken from. |
| `PixelGame.PixelGrid.CenterTargetsStep` | game.py:205-206 | The cells hit for `k + 1` centers are those hit for `k`, then the one the next center hits, if any. |
| `PixelGame.PixelGrid.Chord` | game.py:189-206 | Off the grid, or when the test fails, nothing changes. Otherwise the cells become the reference of selecting, in turn, the cells the neighbours' centers hit, and only their flood regions change. On a grid drawn from (0, 0) those are the neighbours: every neighbour ends shown, and with every flag on a mine no mine opens. |
| `PixelGame.PixelGrid.ChordAround` | minesweeper/game.py:213-215 | Once the cell passed the chord test: the cells become `Selects` over the cells the neighbours' centers hit, and only their flood regions change. From (0, 0) those are the neighbours: none stays hidden, and with every flag on a mine no mine opens. |
| `PixelGame.PixelGrid.SelectCenters` | game.py:205-206 | The cells become the reference of selecting, in turn, the cells the centers hit, and only their flood regions change. From (0, 0) the cells hit are the targets: they all end shown, and no uncovered mine opens. |
| `PixelGame.PixelGrid.CenterTurn` | game.py:206 | One select at a center extends the reference by the cell that center hits, if any. |
| `PixelGame.PixelGrid.Superchord` | game.py:208-209 | Nothing changes. |
| `LegacyCell.CanBeOpened` | game/cell.py:24-26 | Exactly the hidden cells, blank or mine, can be opened. |
| `LegacyCell.Show` | game/cell.py:12-22 | One character per cell. |
| `LegacyCell.OpenableIffHash` | game/cell.py:12-26 | A cell can be opened exactly when it prints `#`. |
| `LegacyCell.ShowHidesOnlyMines` | game/cell.py:12-22 | Two cells print alike exactly when they are equal or both hidden. |
| `LegacyGrid.Symbol` | game/minesweeper.py:15-25 | As `game/cell.py`, except that a visible mine prints `!`, distinct from every other symbol. |
| `LegacyGrid.Extent` | game/minesweeper.py:59 | `range(n)` and `[x] * n` have `n` elements, none for a negative `n`. |
| `LegacyGrid.Opened` | game/minesweeper.py:43-48 | A hidden cell becomes visible and keeps what it holds. Any other cell is left alone. |
| `LegacyGrid.OpenReply` | game/minesweeper.py:43-48 | `None` exactly on a cell that cannot be opened. Otherwise `True` exactly on a blank. |
| `LegacyGrid.Closed` | game/minesweeper.py:53-56 | A visible cell is hidden again and keeps what it holds. Any other cell is left alone. |
| `LegacyGrid.CloseAfterOpen` | game/minesweeper.py:40-56 | Closing an opened hidden cell restores it. |
| `LegacyGrid.OpenAfterClose` | game/minesweeper.py:40-56 | Opening a closed visible cell restores it. |
| `LegacyGrid.Validate` | game/minesweeper.py:61-65 | An error exactly off the grid: the row error first, then the column error. |
| `LegacyGrid.Text` | game/minesweeper.py:67-75 | `Grid.__str__`: empty exactly for a grid with no rows, and ending in a newline otherwise. |
| `LegacyGrid.TextLength` | game/minesweeper.py:67-75 | The text of a grid has `2 * cols + 1` characters per row. |
| `LegacyGrid.TextAt` | game/minesweeper.py:67-75 | The symbol of cell `(i, j)` stands at its offset, followed by a space. |
| `LegacyGrid.NewlineAt` | game/minesweeper.py:67-75 | Each row of text ends with a newline. |
| `LegacyGrid.Grid.constructor` | game/minesweeper.py:29-33 | With the default seeder, the cleared grid: hidden blanks of the grid's extent. |
| `LegacyGrid.Grid.ClearGrid` | game/minesweeper.py:58-59 | `shape[0]` rows of `shape[1]` hidden blank cells. |
| `LegacyGrid.Grid.GetState` | game/minesweeper.py:35-38 | The addressed cell on the grid, and the bounds error elsewhere. |
| `LegacyGrid.Grid.Open` | game/minesweeper.py:40-48 | Off the grid, the error and nothing changes. On it, only that cell becomes `Opened`, and the reply is `OpenReply`. |
| `LegacyGrid.Grid.Close` | game/minesweeper.py:50-56 | Off the grid, the error and nothing changes. On it, only that cell becomes `Closed`. |
| `LegacyGrid.Grid.Render` | game/minesweeper.py:67-75 | The rendering loop builds `Text`: each symbol and a space, a newline after each row. |
| `LegacyGrid.OpenCloseRestores` | game/minesweeper.py:40-56 | Opening then closing a hidden cell leaves the whole grid as it was. |
| `MineSeeders.NewRandomSeeder` | game/mineseeders.py:24-37 | The assertion passes exactly when mines and blocked sites together lie between 0 and the number of sites, and the counts are the ratios of the sites. |
| `MineSeeders.RandomSeederRatios` | game/mineseeders.py:32-37 | On a grid with sites, that is exactly when the two ratios add up to a fraction in `[0, 1]`. |
| `MineSeeders.Needed` | game/mineseeders.py:46-62 | A `while converted < x` loop converts the least whole number not below `x`. |
| `MineSeeders.BaseLoad` | game/mineseeders.py:9-14 | The base seeder leaves the grid alone. |
| `MineSeeders.RandomLoad` | game/mineseeders.py:41-62 | Exactly `Needed(numBlocked)` blocked sites and `Needed(numMines)` hidden mines. Every other cell is a hidden blank. |
| `MineSeeders.ClearedCounts` | game/mineseeders.py:42 | The cleared grid holds only hidden blanks. |
| `MineSeeders.Convert` | game/mineseeders.py:47-52 | One successful draw turns one hidden blank into `v`, and changes no other count. |
| `MineSeeders.CheckerCell` | game/mineseeders.py:69 | The expression as written: blank only on the first row at even columns, a mine elsewhere. |
| `MineSeeders.IntendedCheckerCell` | game/mineseeders.py:65-69 | Blank exactly where row plus column is even, a mine elsewhere. |
| `MineSeeders.IntendedCheckerAlternates` | game/mineseeders.py:65-69 | The intended pattern differs between neighbours along a row and along a column. |
| `MineSeeders.CheckerboardAsWrittenDoesNotAlternate` | game/mineseeders.py:69 | Cells (1, 0) and (1, 1) are both mines as written, and they differ in the intended pattern. |
| `MineSeeders.CheckerboardLoad` | game/mineseeders.py:66-69 | Every cell is overwritten with the pattern as written, `row + col % 2 == 0`: blank at the even columns of the first row, a mine elsewhere. |
| `MineSeeders.SeederAcceptsUnfillable` | game/mineseeders.py:37-62 | The assertion accepts ratios of one half on a grid of three cells, and then the loops can never finish. |
| `MineSeeders.NewFillableSeeder` | game/mineseeders.py:37 | The intended check accepts exactly the seeders the assertion accepts whose loops finish. |
| `MineSeeders.NewGrid` | game/minesweeper.py:29-33 | The grid is cleared and loaded as each seeder says: all blank for the base seeder, the rounded-up counts of blocked sites and hidden mines for the random one, and the pattern as written for the checkerboard. |
| `Actions.TypeRepr` | minesweeper/actions.py:16-30 | The text of each action type, at least nine characters: `Select cell at`, `Flag cell at`, `Chord starting with cell at`, `Superchord starting with cell at`, `Surrender`. |
| `Actions.TypeReprShape` | minesweeper/actions.py:16-30 | The text of a type with a position ends in `cell at`. The surrender reads `Surrender`. |
| `Actions.TypeReprThird` | minesweeper/actions.py:16-30 | Different types print differently. |
| `Actions.NewAction` | minesweeper/actions.py:43-48 | A `ValueError` exactly when the type needs a position and gets the default `(-1, -1)`. Otherwise the type and position are kept. |
| `Actions.SelectAt` | minesweeper/actions.py:54-56 | A select of the position, refused only at `(-1, -1)`. |
| `Actions.FlagAt` | minesweeper/actions.py:58-60 | A flag of the position, refused only at `(-1, -1)`. |
| `Actions.ChordAt` | minesweeper/actions.py:62-64 | A chord of the position, refused only at `(-1, -1)`. |
| `Actions.SuperchordAt` | minesweeper/actions.py:66-68 | A superchord of the position, refused only at `(-1, -1)`. |
| `Actions.SurrenderNow` | minesweeper/actions.py:70-72 | Never fails, and carries the default position. |
| `Actions.DigitsRoundTrip` | minesweeper/actions.py:51 | Reading the printed digits of a natural number gives it back. |
| `Actions.IntText` | minesweeper/actions.py:51 | `str(n)` contains no comma or parenthesis, and starts with `-` exactly for negatives. |
| `Actions.IntTextInjective` | minesweeper/actions.py:51 | Two integers print alike only when they are equal. |
| `Actions.PosText` | minesweeper/actions.py:50-51 | `str(pos)` of a pair: an opening parenthesis, the first coordinate, the comma right after it, the second coordinate and a closing parenthesis, with four characters besides the two numbers. |
| `Actions.PosTextInjective` | minesweeper/actions.py:51 | Two positions print alike only when they are equal. |
| `Actions.Repr` | minesweeper/actions.py:50-52 | The type's text, followed by a space and the position exactly when the type has one. |
| `Actions.ReprInjective` | minesweeper/actions.py:50-52 | Two actions print alike exactly when they have the same type and, for a type with a position, the same position. |
| `Utils.Evict` | minesweeper/utils.py:92-97 | The eviction loop of `add_next`: never lengthens the queue. |
| `Utils.EvictKeeps` | minesweeper/utils.py:92-97 | The eviction keeps a suffix of the queue that is empty or fits the window. |
| `Utils.EvictMinimal` | minesweeper/utils.py:51-52 | Nothing leaves that did not have to: every longer suffix was over the window. |
| `Utils.EvictStep` | minesweeper/utils.py:93-97 | A queue over the window loses its oldest entry and is evicted further. |
| `Utils.EvictFits` | minesweeper/utils.py:93 | A queue that fits the window loses nothing. |
| `Utils.WeightedMean` | minesweeper/utils.py:113-114 | The weighted average: times the total time it gives back the sum of time times value. |
| `Utils.EqualTimesAgree` | tests/test_utils.py:44-55 | With every entry of the same positive time, the weighted and unweighted averages agree. |
| `Utils.TimeMovingAverage.constructor` | minesweeper/utils.py:59-72 | An empty, unsaturated average with the method and window given. |
| `Utils.TimeMovingAverage.AddNext` | minesweeper/utils.py:74-97 | The timeline becomes `Evict` of the old one plus the entry, and the sums stay exact. It saturates once the stored time reaches the window, and stays saturated. |
| `Utils.TimeMovingAverage.PopOldest` | minesweeper/utils.py:94-97 | The oldest entry leaves the queue and all three running sums. |
| `Utils.TimeMovingAverage.Average` | minesweeper/utils.py:108-116 | The weighted method gives `Σ t·v / Σ t`. Any other method gives the plain mean. An empty sum gives 0. |
| `Utils.SaturationWithUnits` | tests/test_utils.py:32-42 | Adding `1 .. w-1` with unit times leaves the average unsaturated, and adding `w` saturates it. |
| `Utils.DocsExample` | tests/test_utils.py:57-79 | The worked example with a window of 15 gives 0.6 weighted and 0.5 unweighted. With a window of 12 it gives 0.4 and 1/3. |
| `Utils.DocsWindow15` | minesweeper/utils.py:43-48 | A window of 15 keeps all four entries, with weighted mean 3/5 and plain mean 1/2. |
| `Utils.DocsWindow12` | minesweeper/utils.py:43-49 | A window of 12 drops the oldest entry, leaving weighted mean 2/5 and plain mean 1/3. |
| `Utils.KeepAll` | minesweeper/utils.py:93 | An entry that still fits removes nothing. |
| `Utils.DropOldest` | minesweeper/utils.py:93-97 | Over the window, but fitting without the oldest entry: exactly that entry leaves. |
| `Utils.FloorDiv` | minesweeper/utils.py:147 | Python's `//` rounds the quotient down, for either sign of the divisor. |
| `Utils.Delay` | minesweeper/utils.py:146-147 | Never negative, and 1 at a rate of 0. Otherwise it is 0 exactly when the tick used the whole frame budget, and the rest of the budget when it did not. |
| `Utils.LagFlag` | minesweeper/utils.py:149 | 1 exactly when there is no time left to wait, 0 otherwise. |
| `Utils.LagSum` | minesweeper/utils.py:159-165 | Over lag entries the value sum counts the lagging ticks. |
| `Utils.LagEntriesAppend` | minesweeper/utils.py:149 | A tick recorded with its lag flag keeps a queue of lag entries. |
| `Utils.LagEntriesEvict` | minesweeper/utils.py:92-97 | Eviction keeps a queue of lag entries. |
| `Utils.Delayer.constructor` | minesweeper/utils.py:129-132 | The default average: an empty, unweighted 20-second window. |
| `Utils.Delayer.TickDelay` | minesweeper/utils.py:138-157 | Returns `Delay(fps, tickTime)` and records that delay with its lag flag in the average. |
| `Utils.Delayer.LagRatio` | minesweeper/utils.py:159-165 | The share of the remembered ticks that lagged, a proportion between 0 and 1. |
| `Utils.AtLeastOne` | minesweeper/utils.py:198-216 | A tick count that is at least 1, the count itself when positive. A counting repeater first fires on tick `initial_delay`, or on the first tick, and then every `repeat` ticks, or on every tick. |
| `Utils.FiresOn` | minesweeper/utils.py:206-218 | Tick `k` fires only for `k >= 1`. With positive delays, the first firing is on tick `initial_delay` and the next every `repeat` ticks. |
| `Utils.WaitAfter` | minesweeper/utils.py:206-218 | The wait counter after `k` ticks: `initial_delay - k` before the first firing, reloaded to `repeat` on each firing, and never above `repeat` after the first. |
| `Utils.TickRepeater.constructor` | minesweeper/utils.py:191-204 | The counter starts at `initial_delay` and counts ticks unless time based. |
| `Utils.TickRepeater.Tick` | minesweeper/utils.py:206-218 | The counter drops by the step. At 0 or below it is reloaded with `repeat` and fires. Counting ticks, it fires exactly on the ticks of the schedule. |
| `TopUtils.ValuePerTime` | utils.py:38-40 | The weighted average of `utils.py`: times the total time it gives back the sum of the values, not of time times value. |
| `TopUtils.TimeMovingAverage.constructor` | utils.py:16-25 | An empty average with the method and window given. |
| `TopUtils.NewTimeMovingAverage` | utils.py:16-25 | A `ValueError` exactly when the method is neither `weighted` nor `unweighted`, and otherwise an empty average. |
| `TopUtils.TimeMovingAverage.AddNext` | utils.py:27-35 | The timeline becomes `Evict` of the old one plus the entry, and the sums stay exact. |
| `TopUtils.TimeMovingAverage.PopOldest` | utils.py:32-35 | The oldest entry leaves the queue and both sums. |
| `TopUtils.TimeMovingAverage.Average` | utils.py:37-42 | The weighted method gives `Σ v / Σ t`. Any other method gives the plain mean. An empty sum gives 0. |
| `TopUtils.SingleItemWeighted` | tests/test_utils.py:23-27 | One entry of value 5 over 20 ms averages to 1/4 here, where the test expects 5. |
| `TopUtils.DocsExampleWeighted` | tests/test_utils.py:57-67 | On the worked example with a window of 15 this file gives 2/15, where 3/5 is documented. |
| `TopUtils.LagPerTime` | utils.py:71-73 | Over lag entries the weighted average is the lagging ticks per millisecond of delay. |
| `TopUtils.LagRatioAboveOne` | utils.py:59-73 | Two lagging ticks and one tick of 1 ms give a lag ratio of 2, which is no proportion. |
| `TopUtils.Delayer.constructor` | utils.py:51-54 | The default average here is weighted, with a 20-second window. |
| `TopUtils.Delayer.TickDelay` | utils.py:59-69 | A rate of 0 fails with the division by zero before anything is recorded. Otherwise the delay is recorded with its lag flag. |
| `TopUtils.Delayer.LagRatio` | utils.py:71-73 | With the weighted average: the lagging ticks over the total delay time. |
| `Registry.Register` | minesweeper/__init__.py:13-19 | A duplicate name is refused first, then a class that does not extend `Agent`. Otherwise exactly one entry is added and the old entries are untouched. |
| `Registry.RegisterOnce` | minesweeper/__init__.py:14-15 | Once registered, a name can never be registered again, whatever the class. |
| `Registry.AgentRegistry.constructor` | minesweeper/__init__.py:7 | The registry starts empty. |
| `Registry.AgentRegistry.RegisterAgent` | minesweeper/__init__.py:10-21 | The decorator returns the class unchanged on success and changes the dictionary only as `Register` says. A refusal leaves the dictionary as it was. |
| `Agents.Openable` | agents.py:37 | Exactly the openable cells. |
| `Agents.PickOne` | agents.py:39-41 | One select of an openable cell. |
| `Agents.RandomAgent.constructor` | agents.py:31 | No ticker before `start`. |
| `Agents.RandomAgent.Start` | agents.py:33-34 | A fresh counting ticker, every 200 ticks after the 60th. |
| `Agents.RandomAgent.Act` | agents.py:36-43 | With no openable cell: no action, and the ticker untouched. Otherwise the ticker ticks, and one openable cell is selected exactly when it fires. |
| `Agents.RandomAgent.React` | agents.py:45-46 | Nothing changes. |
| `Agents.RandomAgentSchedule` | agents.py:34-39 | The first select comes on the 60th call with an openable cell, the next on the 260th, and none in between. |
| `BaselineAgents.BaselineRandomAgent.constructor` | minesweeper/agents/baseline_agents.py:18-23 | No ticker before `start`. |
| `BaselineAgents.BaselineRandomAgent.Start` | minesweeper/agents/baseline_agents.py:25-26 | A fresh time-based ticker: 2000 ms, then every 1000 ms. |
| `BaselineAgents.BaselineRandomAgent.Act` | minesweeper/agents/baseline_agents.py:28-35 | With no openable cell: no action, and the ticker untouched. Otherwise one openable cell is selected exactly when the waiting time runs out, and the ticker reloads to 1000. |
| `BaselineAgents.BaselineRandomAgent.React` | minesweeper/agents/baseline_agents.py:37-38 | Nothing changes. |
| `BaselineAgents.BaselineRegisters` | minesweeper/agents/baseline_agents.py:17 | The agent registers under its name into a registry that does not have it yet. |

## Left out

- Rendering is not modelled: images, fonts, surfaces, `redraw`, `draw_on`, `get_drawable`, `realign` and the `_changelist` of redrawn cells. Those only draw. `resize` is modelled only through the state arrays it allocates (`SquareGrid.constructor`).
- Clocks, `pygame.time.delay`, the event loop, `GameWindow`, `play.py` and the game logs are I/O. A clock reading is a parameter; the delay, the loop and the logs are absent.
- The `print` of a lagging tick in both `Delayer`s is not modelled, because it is output.
- `uniform_random`, both in `minesweeper/seeders.py` and as `Grid.uniform_random`, is not modelled. It draws floats from numpy's generator, and nothing stated here depends on where the mines are.
- Randomness is not modelled as a distribution. The draws of `random.shuffle` are the `picks` parameter. The agents' choice is any openable cell.
- MineSeeders.RandomLoad: its draws are modelled as the ones that hit a blank cell. A missed draw changes nothing and is drawn again. The method requires that the grid has enough blank cells, since otherwise the source loops forever (see Findings).
- The unseeded `np.random.rand(random_state)` call of `RandomSeeder` is not modelled. It draws numbers and throws them away, so it does not seed anything.
- `RandomFoursSeeder` is not modelled: its `load_mines` does nothing, and its constructor is the random seeder's.
- `Minesweeper` of `game/minesweeper.py` is not modelled. Its constructor calls `Grid()` without the required shape, so it always fails, and its other methods do nothing. The module-level demo `print(grid)` is not modelled either.
- The `?` fallback of both `Cell.__str__` and the `Unknown action` fallback of `ActionType.__repr__` are not modelled. They cannot be reached, because the enumerations have no other members.
- CellGame.Grid.Select, CellGame.Grid.FloodFill, CellGame.Grid.ToggleFlag and CellGame.Grid.Chord require `InBounds(pos)`. The source checks no bound: a position at or past the last row or column makes `self.proximity[pos]` or `self.grid[pos]` raise IndexError, and a negative coordinate wraps around to the other end of the numpy array. The model captures neither. The caller that can pass such a position is the `GameWindow` event loop, which is not modelled (minesweeper/game.py:388-395, 409-413). `get_cell_pos` floor-divides the click, and `resize` sizes the grid as `screen_size // cell_size`, so a click in the strip right of or below the last whole cell names a position one past the grid.
- Boards.SquareGrid.Select and Boards.SquareGrid.ToggleFlag require `InBounds(pos)` for the same reason. The IndexError of a position past the grid, and the wrap-around of a negative one, are not modelled.
- Boards.SquareBoard.Select, Boards.SquareBoard.ToggleFlag, Boards.SquareBoard.Chord, Boards.SquareBoard.FirstSelect, Boards.SquareBoard.OpenFirst, Boards.SquareBoard.ClearMines, Boards.SquareBoard.SelectCells and Boards.SquareBoard.FloodFill require `InBounds(pos)` likewise. Their off-grid IndexError and negative-index wrap-around are not modelled.
- Boards.SquareBoard.Select: with propagation on it requires `NoFlaggedZeroPair`, a condition on the whole board: no two touching cells are both flagged and of proximity 0. The source only needs that where its queue reaches such a pair (minesweeper/boards.py:206): each of the two cells, never opened, puts the other back on the queue, and the loop never ends. The precondition therefore also excludes boards whose only such pair lies outside the flood of `pos`, on which the source ends normally. With propagation off nothing is required. The members that always select with propagation inherit the same board-wide condition: `Boards.SquareBoard.Chord`, `Boards.SquareBoard.SelectEach`, `Boards.SquareBoard.SelectTurn`, `Boards.SquareBoard.Superchord`, `Boards.SquareBoard.SuperchordPass` and `Boards.SquareBoard.FloodFill`. `Boards.SquareBoard.SelectCells` requires it only with propagation on.
- The cell objects of `minesweeper/game.py` are modelled as an `array2` of their states. Their position and proximity are fixed at construction, and the class `CellGame.Cell` models one cell on its own.
- LegacyGrid and MineSeeders: both read the two cell enumerations of `game/` as one, `LegacyCell`. In the source, `game/minesweeper.py` declares its own `Cell` after importing the one of `game/cell.py` that the seeders use. `clear_grid` therefore fills the grid with cells of the first class and the seeders compare against cells of the second, and members of two enumeration classes never compare equal. As written, `RandomSeeder.load_mines` never finds a blank cell, so it never ends whenever it must place a mine or a blocked site. `Grid.open` and `Grid.close` likewise never match a cell a seeder wrote, and leave it unchanged. The model does not capture these effects of the clash.
- `HiddenBoardState.last_state_stored`, a class-level global that `__post_init__` sets, is not modelled. The snapshot is a value.
- `CompleteBoardState`, the abstract classes `OnScreen`, `Grid` and `Board`, `register_board`, `pos_of`, `shift`, the `config` module and the learning agents (`rl/`, `multilayer_agents.py`, `model.py`, `rules_agents.py`) are not part of this model.
- `Transient` and `CountDown` of `minesweeper/utils.py` are not modelled. They only read clocks, and `Transient.transience` compares a method object with a number, so it never runs.
- `agents.py` imports `TickRepeater` from the top-level `utils.py`, which does not define one. The model gives the agent the repeater of `minesweeper/utils.py`.
- TopUtils.Delayer.TickDelay: it returns the delay so that the contract can state it. The source's `tick_delay` returns nothing.
- Python floats are modelled as exact `real`s. The approximate comparisons of the tests (`approx(1/3)`) are exact equalities here.
- PixelGame.PixelGrid.Chord: its contract states that targets are shown, and the chord is safe, only for a grid drawn from (0, 0). A grid drawn from any other corner selects through centers computed from (0, 0), so its targets are not always its neighbours.

## Findings

| source | as written | input that shows it | evidently intended | confidence | as-written member | corrected member |
|---|---|---|---|---|---|---|
| game/mineseeders.py:69 | `row + col % 2 == 0` parses as `row + (col % 2) == 0`: blank only at even columns of row 0 | cells (1, 0) and (1, 1) are both mines | `(row + col) % 2 == 0`, a checkerboard | high; not executed | `MineSeeders.CheckerboardAsWrittenDoesNotAlternate` | `MineSeeders.IntendedCheckerAlternates` |
| game/mineseeders.py:37 | the assertion bounds the real blank count, but the loops place whole numbers of blocked sites and mines, rounding up | shape (1, 3) with ratios 0.5 and 0.5: the assertion passes, then 2 blocked sites and 2 mines are needed on 3 cells, so the loop never ends | accept only counts whose rounded-up total fits on the grid | medium, under the model's reading of the two `Cell` classes of `game/` as one (as written, the loops never end once a count is positive; see Left out); not executed | `MineSeeders.SeederAcceptsUnfillable` | `MineSeeders.NewFillableSeeder` |
| utils.py:37-42 | the weighted average is `Σ v / Σ t`, a value per millisecond | `add_next(20, 5)` averages to 0.25; the worked example with a window of 15 gives 2/15 | `Σ t·v / Σ t` as in `minesweeper/utils.py` and its tests: 5 and 3/5 | high; not executed | `TopUtils.DocsExampleWeighted` | `Utils.DocsWindow15` |

The tests in `tests/test_utils.py` import `TimeMovingAverage` from the top-level
`utils.py`. They also read its `saturated` property, which only the version in
`minesweeper/utils.py` has. The model therefore treats the tests as written against
that version: `Utils` meets their expectations, and `TopUtils` shows where the older
file does not.
