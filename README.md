# Minesweeper game state, in Dafny

A model of the game logic of a 16 x 16 minesweeper written in C on raylib
(`src/source.c`). The C program keeps its state in globals: the player's
`board`, the mine map `bombs`, the neighbour `counts`, the counters
`bombCount` and `numOpened`, and the flags `gameOver`, `pause` and `win`. The
model covers how that state is built and changed:

- `dfs` places mines by a random walk.
- `InitGame` resets the arrays, walks from random roots until `MAX_BOMBS`
  mines are placed, and then computes every count with `Count`.
- `Open` is a recursive four-way flood fill.
- `IsWinner` is the win test.
- `UpdateGame` applies one frame's keys and clicks.

The project has five modules:

- `Board`: the constants, the grid type (a 16 x 16 `seq<seq<int>>`) and
  counting the cells of a grid.
- `Mines`: `dfs` as the function `Walk`, the placement loop as
  `PlaceMines`, and the neighbour count as `CellCount`/`CountsFor`. It also
  models `Count` as written, with unchecked reads.
- `FloodFill`: `Open` as the function `Flood`, with what it changes, what it
  counts, and which cells it reaches.
- `Rules`: the globals as a `Model` value, a frame's input as `Frame`,
  `IsWinner`, the click handlers, `InitGame` (`Init`) and `UpdateGame`
  (`Update`). It also holds the invariant `Inv` that every frame keeps.
- `Minesweeper`: the class `Game`, whose fields are the globals and whose
  three `array2<int>` fields are the C arrays. Its methods follow the C
  functions statement by statement. Each carries a ghost copy of its arrays
  as grids, and each is proved to leave exactly the state the matching
  function of `Rules`, `Mines` or `FloodFill` gives.

Randomness is a parameter. The C library's `rand()` becomes a stream
`rand: nat -> nat` read from a position `k`. Every operation that draws
returns the position of the next draw.

## Model

| member | source | states |
|---|---|---|
| Mines.Step | src/source.c:108-109 | A random step `rand() % 3 - 1` is -1, 0 or 1. |
| Mines.Root | src/source.c:153-154 | A random root `rand() % n + 1` lies in 1 .. n, so it can be one past the last row or column. |
| Mines.Walk | src/source.c:99-112 | A walk never decreases the mine count and never takes it past MAX_BOMBS. |
| Mines.WalkStops | src/source.c:99-112 | A walk places nothing, and leaves the map and the draw position as they were, exactly when the count is full, the cell is off the grid, or the cell is already a mine. Every mine it places uses two draws. |
| Mines.WalkTally | src/source.c:99-112 | The mines a walk adds to the map are exactly the amount it adds to `bombCount`. |
| Mines.WalkOnlyAdds | src/source.c:103-105 | A walk only turns cells into mines and changes no other cell. |
| Mines.PlaceMines | src/source.c:149-157 | The placement loop keeps the count within MAX_BOMBS. When it ends short of MAX_BOMBS, it has drawn for every one of its rounds. |
| Mines.PlaceTally | src/source.c:137-157 | After the loop, the number of mines added equals the amount added to `bombCount`. |
| Mines.PlaceOnlyAdds | src/source.c:149-157 | The placement loop only adds mines. |
| Mines.PlaceEnough | src/source.c:150 | Once MAX_BOMBS mines are placed, more rounds change nothing: the loop exits exactly at the count. |
| Mines.RootOffGrid | src/source.c:153-156 | A root drawn as row 16 (`rand() % ROWS + 1 == ROWS`) lies off the grid: that round places nothing and only uses its two draws. |
| Mines.MinesAroundBySum | src/source.c:119-127 | The eight bounds-checked neighbour reads, in `Count`'s order, add up to the number of mines adjacent to the cell, which is at most 8. |
| Mines.CellCountMeaning | src/source.c:114-128 | Starting from zero, a cell with a mine keeps count 0. Any other cell gets the number of mines among its in-grid neighbours, at most 8. |
| Mines.CountsFor | src/source.c:159-164 | In the counts `InitGame` computes, a mine has count 0 and every other cell the number of mines among its in-grid neighbours, at most 8. |
| Mines.RawReadInGrid | src/source.c:119-127 | In C's row-major layout, an unchecked read of an in-grid index pair reads that cell. |
| Mines.CountAsWritten | src/source.c:114-128 | `Count` with unchecked reads still gives a mine count 0 and no cell more than 8. Away from the border it gives the correct count. |
| Mines.EdgeCountWraps | src/source.c:119-127 | Counterexample: with one mine at (2, 0), `Count` as written gives cell (1, 15) a count of 1, although no mine is adjacent to it. |
| FloodFill.Flood | src/source.c:175-189 | `Open` takes away from the cells still to open exactly as many as it opens. It opens nothing exactly when the cell is off the grid, a mine or already open, and then it leaves the board unchanged. |
| FloodFill.FloodAll | src/source.c:183-188 | The four recursive calls together take away from the cells still to open exactly as many as they open. |
| FloodFill.FloodOnlyOpens | src/source.c:175-189 | `Open` only changes cells to OPENED, never on a mine (it opens over a FLAG). Afterwards `Open` on the same cell is blocked. |
| FloodFill.FloodAllOnlyOpens | src/source.c:183-188 | The recursive calls only open mine-free cells, and afterwards each called cell is blocked. |
| FloodFill.FloodTally | src/source.c:180-181 | The board's count of open cells grows by exactly the number `Open` adds to `numOpened`. |
| FloodFill.FloodAllTally | src/source.c:183-188 | The same for the four recursive calls. |
| FloodFill.FloodNoNewGaps | src/source.c:183-188 | `Open` leaves no open cell with count 0 next to a cell that could still be opened, unless that situation existed before. |
| FloodFill.FloodAllNoNewGaps | src/source.c:183-188 | The same for the four recursive calls. |
| FloodFill.FloodKeepsNoGaps | src/source.c:175-189 | If no open zero-count cell borders an openable cell before `Open`, none does after. |
| FloodFill.FloodReaches | src/source.c:183-188 | Every cell `Open(x, y)` opens is reached from (x, y) by a path of newly opened orthogonal neighbours. Every cell on the path except the last has count 0: recursion happens only through zero cells. |
| FloodFill.FloodAllReaches | src/source.c:183-188 | Every cell the recursive calls open is reached by such a path from one of the called cells. |
| Rules.ClickCell | src/source.c:167-173 | The cell index is the pixel coordinate divided by SQUARE_SIZE, rounded down. Pixels inside the 512-pixel window give an index in 0 .. 15. |
| Rules.ToggleFlag | src/source.c:226-227 | A right click changes no other cell and never changes whether a cell is open. |
| Rules.CellPartition | src/source.c:93-97 | With no mine open, the open cells, the mines and the cells still to open together make up all 256 cells. |
| Rules.RemainingZero | src/source.c:93-97 | Nothing is left to open exactly when every mine-free cell is open. |
| Rules.WinCondition | src/source.c:93-97 | Under the invariant, `IsWinner` holds exactly when every mine-free cell is open, in both directions. |
| Rules.ToggleFlagTwice | src/source.c:226-227 | Two right clicks on the same cell give back the board. |
| Rules.ToggleFlagCounts | src/source.c:219-228 | A right click turns UNOPENED into FLAG and FLAG into UNOPENED. It changes neither the number of open cells nor the number still to open. |
| Rules.RightClickInv | src/source.c:219-228 | A right click keeps the invariant. |
| Rules.LeftClick | src/source.c:204-217 | A left click on a mine sets `gameOver` and opens nothing. A left click only opens mine-free cells. It leaves the mines, the counts, `bombCount`, `win` and `pause` alone, and it keeps the invariant. |
| Rules.SafeClickOpens | src/source.c:210-216 | A left click on a mine-free cell leaves `gameOver` as it was and leaves the cell open, a flagged cell included. If the cell was not open before, `numOpened` grows. |
| Rules.ClickOffGrid | src/source.c:204-228 | A click whose cell lies off the grid changes nothing in the model. |
| Rules.ClickOutsideWindow | src/source.c:167-173 | A press of either button with the mouse outside the 512 x 512 window does the same as no press. |
| Rules.Play | src/source.c:193-229 | A frame of a running game keeps the invariant and never moves a mine. It records a win exactly when every mine-free cell was open at the frame's start, and a win ends the game. |
| Rules.Init | src/source.c:130-165 | After `InitGame` every cell is unopened, `numOpened` and `framesCounter` are 0, and `gameOver`, `pause` and `win` are false. Every mine-free cell is still to open. The invariant holds: the counters match the grids and the counts match the mine map. A placement that stops short of MAX_BOMBS has used the draws of all its rounds. |
| Rules.BlankInv | src/source.c:28-40 | The zero state of the globals before the first `InitGame` (no mines, no counts, nothing open, every flag false) already satisfies the invariant. |
| Rules.InitEnough | src/source.c:150-157 | Once the loop has placed MAX_BOMBS mines, the result no longer depends on the round bound. The map then holds exactly MAX_BOMBS mines. |
| Rules.Update | src/source.c:191-234 | Every frame keeps the invariant. In a running game it records a win exactly when every mine-free cell was open at the frame's start. |
| Rules.PauseIsCosmetic | src/source.c:199-202 | Pausing blocks nothing. A frame from a paused state does the same as from an unpaused one; only the P key toggles the flag. |
| Rules.LeftClickKeepsPause | src/source.c:204-217 | A left click does not touch `pause`. |
| Rules.GameOverWaits | src/source.c:230-233 | Once the game is over, a frame without Enter changes nothing. Enter starts a fresh game with nothing open and every flag false. |
| Rules.CellTransitions | src/source.c:193-229 | Within a frame an open cell stays open, and a flag only appears on a cell that was unopened or flagged. |
| Minesweeper.Game.constructor | src/source.c:28-40 | The initial globals: zeroed arrays, zero counters, every flag false. |
| Minesweeper.Game.Dfs | src/source.c:99-112 | `dfs` on the arrays leaves the mine map, the count and the next draw position that `Walk` gives. |
| Minesweeper.Game.Probe | src/source.c:119-127 | One neighbour read: 1 exactly when the cell is in the grid and holds a mine. |
| Minesweeper.Game.Count | src/source.c:114-128 | `Count` adds the cell's neighbour mines to that cell's count only, and does nothing off the grid or on a mine. |
| Minesweeper.Game.ResetCells | src/source.c:140-147 | The reset loop leaves all three arrays UNOPENED. |
| Minesweeper.Game.PlaceRound | src/source.c:153-156 | One round (a root draw and a walk) moves the state one round further along `PlaceMines`. |
| Minesweeper.Game.PlaceAll | src/source.c:149-157 | The placement loop leaves the mine map, the count and the next draw position that `PlaceMines` gives. |
| Minesweeper.Game.CountAll | src/source.c:159-164 | The count loop, from all-zero counts, leaves `CountsFor` of the mine map. |
| Minesweeper.Game.InitGame | src/source.c:130-165 | `InitGame` leaves the state, and the next draw position, that `Rules.Init` gives. |
| Minesweeper.Game.Open | src/source.c:175-189 | `Open` on the arrays leaves the board `Flood` gives and adds `Flood`'s number of openings to `numOpened`. |
| Minesweeper.Game.OpenSides | src/source.c:183-188 | The four recursive calls leave the board and count that `FloodAll` gives. |
| Minesweeper.Game.LeftClick | src/source.c:204-217 | The left-button branch leaves the state that `Rules.LeftClick` gives. |
| Minesweeper.Game.RightClick | src/source.c:219-228 | The right-button branch leaves the board that `ToggleFlag` gives. |
| Minesweeper.Game.Play | src/source.c:193-229 | The branch for a running game leaves the state that `Rules.Play` gives. |
| Minesweeper.Game.UpdateGame | src/source.c:191-234 | `UpdateGame` leaves the state, and the next draw position, that `Rules.Update` gives, and it keeps the invariant. |

## Left out

- `main`, `UpdateDrawFrame`, `UnloadGame` and the frame loop (src/source.c:60-91, 288-298): window handling and scheduling. One frame is `UpdateGame` with a `Frame` value as input.
- `DrawGame` (src/source.c:236-286): rendering only. The same goes for `offset`, `screenWidth` and `screenHeight`, which only window setup and drawing use.
- `srand(time(NULL))` and `rand()`: the clock seed is not modelled. The random values are the stream parameter `rand`.
- `printf` calls in `UpdateGame`: console output only.
- `IsKeyPressed` and `IsMouseButtonPressed`: these raylib queries become the flags of `Frame`, and the mouse position its pixel coordinates.
- `GetMouseClickX`/`GetMouseClickY`: the float division and `floor` become integer division rounding down (`ClickCell`). That is the same value for every integer pixel.
- Minesweeper.Game.InitGame: the C placement loop ends only when it reaches MAX_BOMBS, which happens with probability 1 but with no bound. Here the loop runs at most `rounds` walks. `Rules.InitEnough` shows that once the count is reached, extra rounds change nothing.
- Rules.Init: the same bound on the number of placement rounds. A too-small bound can leave fewer than MAX_BOMBS mines.
- Minesweeper.Game.PlaceAll: the same bound on the number of placement rounds.
- Mines.PlaceMines: at most `rounds` walks run, where the C loop runs until the count reaches MAX_BOMBS. A bound that is too small ends short of MAX_BOMBS, and the contract then promises only that every round drew. `Mines.PlaceEnough` shows that once the count is reached, more rounds change nothing.
- Unchecked neighbour reads in `Count` (src/source.c:119-127): the model reads bounds-checked, as the game evidently intends. The code as written is `Mines.CountAsWritten`; see Findings.
- `Count` increments `counts[x][y]` once per read. The model adds all eight reads and stores once, which gives the same value because no read looks at `counts`.
- Range guards: `Count` and `Open` test `x == ROWS` and `y == COLS` where the model tests `x >= ROWS` and `y >= COLS`. The two agree on every call `InitGame` and `Open`'s recursion make: `InitGame` passes 0 .. 15, and the recursion never goes past -1 or 16. They also agree on the click handler's `Open(x, y)` for every click inside the window; for other clicks, see the next line.
- Clicks whose cell lies off the grid make C read and write out of bounds, which is undefined behaviour. The model treats such a click as doing nothing. With the mouse inside the 512 x 512 window this does not arise. In C:
  - A left click on cell (x, 16) reads `bombs[x][16]`, which is `bombs[x+1][0]`, and that read alone can set `gameOver`.
  - For an index of 16, `Open`'s `== ROWS` / `== COLS` guard stops the call. For 17 or more it lets the call through: `Open` writes `board[x][y] = OPENED`, increments `numOpened` and may recurse.
  - A right click reads and stores into `board[x][y]`, which for cell (x, 16) is `board[x+1][0]`.
- `framesCounter` is only reset to 0 by `InitGame`; nothing in the program advances it.
- The root `source.c` is an earlier skeleton of the same program and is not part of this model.

## Findings

| source | as written | input that shows it | evidently intended | confidence | as-written member | corrected member |
|---|---|---|---|---|---|---|
| src/source.c:119-127 | `Count` reads the eight neighbours without range checks. On the border, `bombs[x][y+1]` at y = 15 reads the first cell of the next row, and `bombs[x+1][y]` at x = 15 reads past the array. | A single mine at (2, 0): cell (1, 15) gets count 1, although none of its in-grid neighbours holds a mine. | Count only the mines among the neighbours that lie in the grid. | not executed | Mines.EdgeCountWraps | Mines.CellCountMeaning |
