/** The game's state and its per-frame rules (`InitGame`, `IsWinner`,
    `UpdateGame` and the mouse-to-cell mapping), as functions on values,
    with the invariant every frame keeps. */
module Rules {
  import opened Board
  import opened Mines
  import opened FloodFill

  /** The globals of the game: the player's board, the mine map, the
      neighbour counts, the two counters and the three flags. */
  datatype Model = Model(
    board: Grid, bombs: Grid, counts: Grid,
    bombCount: int, numOpened: int, framesCounter: int,
    gameOver: bool, pause: bool, win: bool)

  /** The input of one frame: which keys and buttons were pressed, and the
      mouse position in pixels. */
  datatype Frame = Frame(
    pausePressed: bool, enterPressed: bool,
    leftPressed: bool, rightPressed: bool,
    mouseX: int, mouseY: int)

  /** The cell under a mouse coordinate: the coordinate divided by the cell
      size, rounded down. */
  function ClickCell(px: int): (c: int)
    ensures c * SQUARE_SIZE <= px < (c + 1) * SQUARE_SIZE
    ensures 0 <= px < ROWS * SQUARE_SIZE ==> 0 <= c < ROWS
  {
    px / SQUARE_SIZE
  }

  /** The win test: as many cells are open as there are cells without a mine. */
  function IsWinner(numOpened: int, bombCount: int): bool {
    numOpened == ROWS * COLS - bombCount
  }

  /** A right click: an unopened cell gets a flag and a flag is taken off;
      an open cell, and a click off the grid, change nothing. */
  function ToggleFlag(board: Grid, x: int, y: int): (r: Grid)
    ensures forall i, j :: InRange(i, j) && (i != x || j != y) ==> r[i][j] == board[i][j]
    ensures forall i, j :: InRange(i, j) ==> (r[i][j] == OPENED <==> board[i][j] == OPENED)
  {
    if !InRange(x, y) then board
    else if board[x][y] == UNOPENED then Set(board, x, y, FLAG)
    else if board[x][y] == FLAG then Set(board, x, y, UNOPENED)
    else board
  }

  /** A left click on (x, y): a mine there ends the game, then `Open` runs
      on the cell and the cells it opens are added to the opened count. */
  function LeftClick(m: Model, x: int, y: int): (r: Model)
    ensures InRange(x, y) && m.bombs[x][y] == BOMB ==>
      r.gameOver && r.board == m.board && r.numOpened == m.numOpened
    ensures OnlyOpens(m.board, r.board, m.bombs)
    ensures r.bombs == m.bombs && r.counts == m.counts && r.bombCount == m.bombCount
    ensures r.win == m.win && r.pause == m.pause
    ensures Inv(m) ==> Inv(r)
  {
    var f := Flood(m.board, m.bombs, m.counts, x, y);
    FloodTally(m.board, m.bombs, m.counts, x, y);
    FloodOnlyOpens(m.board, m.bombs, m.counts, x, y);
    FloodNoNewGaps(m.board, m.bombs, m.counts, x, y);
    m.(board := f.board, numOpened := m.numOpened + f.opens,
       gameOver := m.gameOver || (InRange(x, y) && m.bombs[x][y] == BOMB))
  }

  /** One frame of a game in progress, in the order `UpdateGame` takes its
      steps: the win test, the pause key, the left button, the right button.
      The mines stay where they are, the invariant is kept, and the frame
      records a win exactly when every cell without a mine was open at its
      start. */
  function Play(m: Model, f: Frame): (r: Model)
    ensures r.bombs == m.bombs && r.counts == m.counts && r.bombCount == m.bombCount
    ensures Inv(m) ==> Inv(r) && (r.win <==> AllSafeOpen(m.board, m.bombs))
  {
    WinCondition(m);
    var m1 := if IsWinner(m.numOpened, m.bombCount) then m.(gameOver := true, win := true) else m;
    var m2 := if f.pausePressed then m1.(pause := !m1.pause) else m1;
    var x := ClickCell(f.mouseX);
    var y := ClickCell(f.mouseY);
    var m3 := if f.leftPressed then LeftClick(m2, x, y) else m2;
    RightClickInv(m3, x, y);
    if f.rightPressed then m3.(board := ToggleFlag(m3.board, x, y)) else m3
  }

  /** `InitGame`: every cell unopened and mine-free, at most `rounds` random
      walks to place the mines, then the neighbour counts. The result holds
      the new state and the position of the next random value. The new game
      is running, nothing is open, every cell without a mine is still to
      open, and the invariant holds. A placement that stops short of
      MAX_BOMBS has used the draws of all its rounds. */
  function Init(rand: nat -> nat, k: nat, rounds: nat): (r: (Model, nat))
    ensures Inv(r.0) && r.0.board == Filled(UNOPENED) && r.0.numOpened == 0
    ensures !r.0.gameOver && !r.0.win && !r.0.pause && r.0.framesCounter == 0
    ensures Remaining(r.0.board, r.0.bombs) == ROWS * COLS - r.0.bombCount
    ensures r.0.bombCount < MAX_BOMBS ==> r.1 >= k + 2 * rounds
  {
    var p := PlaceMines(Filled(UNOPENED), 0, rand, k, rounds);
    PlaceTally(Filled(UNOPENED), 0, rand, k, rounds);
    PlaceOnlyAdds(Filled(UNOPENED), 0, rand, k, rounds);
    TallyFilled(UNOPENED, BOMB);
    TallyFilled(UNOPENED, OPENED);
    var m := Model(Filled(UNOPENED), p.mines, CountsFor(p.mines), p.count, 0, 0, false, false, false);
    assert SafeOpen(m.board, m.bombs);
    CellPartition(m.board, m.bombs);
    (m, p.next)
  }

  /** `UpdateGame`: a frame of play while the game runs; once it is over,
      only Enter does anything, and it starts a new game. Every frame keeps
      the invariant. */
  function Update(m: Model, f: Frame, rand: nat -> nat, k: nat, rounds: nat): (r: (Model, nat))
    ensures Inv(m) ==> Inv(r.0)
    ensures Inv(m) && !m.gameOver ==> (r.0.win <==> AllSafeOpen(m.board, m.bombs))
  {
    if !m.gameOver then (Play(m, f), k)
    else if f.enterPressed then Init(rand, k, rounds)
    else (m, k)
  }

  // ---------------------------------------------------------------------
  // The invariant

  /** The player's board holds only the codes for unopened, open and flagged cells. */
  ghost predicate BoardCodes(board: Grid) {
    forall i, j :: InRange(i, j) ==> board[i][j] in {UNOPENED, OPENED, FLAG}
  }

  /** The mine map holds only the codes for no mine and a mine. */
  ghost predicate MineCodes(bombs: Grid) {
    forall i, j :: InRange(i, j) ==> bombs[i][j] in {UNOPENED, BOMB}
  }

  /** No mine is open. */
  ghost predicate SafeOpen(board: Grid, bombs: Grid) {
    forall i, j :: InRange(i, j) && board[i][j] == OPENED ==> bombs[i][j] != BOMB
  }

  /** Every cell without a mine is open. */
  ghost predicate AllSafeOpen(board: Grid, bombs: Grid) {
    forall i, j :: InRange(i, j) && bombs[i][j] != BOMB ==> board[i][j] == OPENED
  }

  /** What holds of the globals between frames: the counters count what they
      name, the codes are the game's own, no mine is open, the counts fit
      the mine map, no opened empty cell borders a cell still to open, and a
      win means every safe cell is open. */
  ghost predicate Inv(m: Model) {
    0 <= m.bombCount <= MAX_BOMBS &&
    m.bombCount == Tally(m.bombs, BOMB) &&
    m.numOpened == Tally(m.board, OPENED) &&
    BoardCodes(m.board) && MineCodes(m.bombs) && SafeOpen(m.board, m.bombs) &&
    m.counts == CountsFor(m.bombs) &&
    NoGaps(m.board, m.bombs, m.counts) &&
    (m.win ==> m.gameOver && Remaining(m.board, m.bombs) == 0)
  }

  // ---------------------------------------------------------------------
  // Winning

  /** Every cell, and every cell not open: the sets `CellPartition` counts. */
  const Anything: (int, int) -> bool := (a: int, b: int) => true

  const NotOpen: (int, int) -> bool := (a: int, b: int) => a != OPENED

  /** With no mine open, every cell is open, a mine, or still to open. */
  lemma CellPartition(board: Grid, bombs: Grid)
    requires SafeOpen(board, bombs)
    ensures Tally(board, OPENED) + Tally(bombs, BOMB) + Remaining(board, bombs) == ROWS * COLS
  {
    TallyCells(board, OPENED);
    TallyCells(bombs, BOMB);
    MatchesCells(board, bombs, Closed);
    var all := Cells(board, bombs, Anything);
    var shut := Cells(board, bombs, NotOpen);
    CountFull(all);
    CountSum(all, Holds(board, OPENED), shut);
    CountSum(shut, Holds(bombs, BOMB), Cells(board, bombs, Closed));
  }

  /** Nothing remains to open exactly when every safe cell is open. */
  lemma RemainingZero(board: Grid, bombs: Grid)
    ensures Remaining(board, bombs) == 0 <==> AllSafeOpen(board, bombs)
  {
    MatchesCells(board, bombs, Closed);
    CountZero(Cells(board, bombs, Closed));
  }

  /** Under the invariant, `IsWinner` holds exactly when every cell without
      a mine is open. */
  lemma WinCondition(m: Model)
    ensures Inv(m) ==> (IsWinner(m.numOpened, m.bombCount) <==> Remaining(m.board, m.bombs) == 0)
    ensures Inv(m) ==> (IsWinner(m.numOpened, m.bombCount) <==> AllSafeOpen(m.board, m.bombs))
  {
    if Inv(m) {
      CellPartition(m.board, m.bombs);
      RemainingZero(m.board, m.bombs);
    }
  }

  // ---------------------------------------------------------------------
  // Right clicks

  /** Flagging twice gives back the board. */
  lemma ToggleFlagTwice(board: Grid, x: int, y: int)
    ensures ToggleFlag(ToggleFlag(board, x, y), x, y) == board
  {
    if InRange(x, y) {
      GridExt(ToggleFlag(ToggleFlag(board, x, y), x, y), board);
    }
  }

  /** A right click moves a cell between unopened and flagged, and changes
      neither the opened count nor what remains to open. */
  lemma ToggleFlagCounts(board: Grid, bombs: Grid, x: int, y: int)
    ensures var r := ToggleFlag(board, x, y);
      Tally(r, OPENED) == Tally(board, OPENED) && Remaining(r, bombs) == Remaining(board, bombs)
    ensures InRange(x, y) && board[x][y] == UNOPENED ==> ToggleFlag(board, x, y)[x][y] == FLAG
    ensures InRange(x, y) && board[x][y] == FLAG ==> ToggleFlag(board, x, y)[x][y] == UNOPENED
  {
    if InRange(x, y) && board[x][y] in {UNOPENED, FLAG} {
      var v := if board[x][y] == UNOPENED then FLAG else UNOPENED;
      TallySet(board, x, y, v, OPENED);
      MatchesSet(board, bombs, Closed, x, y, v);
    }
  }

  /** Boards that agree on which cells are open have the same gaps. */
  lemma NoGapsByOpenness(board: Grid, other: Grid, bombs: Grid, counts: Grid)
    requires forall i, j :: InRange(i, j) ==> (other[i][j] == OPENED <==> board[i][j] == OPENED)
    requires NoGaps(board, bombs, counts)
    ensures NoGaps(other, bombs, counts)
  {
    forall i, j, a, b | Orth(i, j, a, b)
      ensures !Gap(other, bombs, counts, i, j, a, b)
    {
      assert !Gap(board, bombs, counts, i, j, a, b);
    }
  }

  /** A right click keeps the invariant. */
  lemma RightClickInv(m: Model, x: int, y: int)
    ensures Inv(m) ==> Inv(m.(board := ToggleFlag(m.board, x, y)))
  {
    if Inv(m) {
      ToggleFlagCounts(m.board, m.bombs, x, y);
      NoGapsByOpenness(m.board, ToggleFlag(m.board, x, y), m.bombs, m.counts);
    }
  }

  // ---------------------------------------------------------------------
  // Left clicks

  /** Clicking a cell without a mine leaves the game running and that cell
      open afterwards, a flagged one included; if it was not open, the
      opened count grows. */
  lemma SafeClickOpens(m: Model, x: int, y: int)
    requires InRange(x, y) && m.bombs[x][y] != BOMB
    ensures var r := LeftClick(m, x, y);
      r.gameOver == m.gameOver && r.board[x][y] == OPENED &&
      (m.board[x][y] != OPENED ==> r.numOpened > m.numOpened)
  {
    FloodOnlyOpens(m.board, m.bombs, m.counts, x, y);
  }

  /** A click whose cell lies off the grid changes nothing (the C code reads
      out of bounds there). */
  lemma ClickOffGrid(m: Model, x: int, y: int)
    requires !InRange(x, y)
    ensures LeftClick(m, x, y) == m && ToggleFlag(m.board, x, y) == m.board
  {
  }

  /** A press of either button with the mouse outside the window does the
      same as no press: its cell lies off the grid. */
  lemma ClickOutsideWindow(m: Model, f: Frame)
    requires !(0 <= f.mouseX < ROWS * SQUARE_SIZE && 0 <= f.mouseY < COLS * SQUARE_SIZE)
    ensures Play(m, f) == Play(m, f.(leftPressed := false, rightPressed := false))
  {
    var m1 := if IsWinner(m.numOpened, m.bombCount) then m.(gameOver := true, win := true) else m;
    var m2 := if f.pausePressed then m1.(pause := !m1.pause) else m1;
    ClickOffGrid(m2, ClickCell(f.mouseX), ClickCell(f.mouseY));
  }

  // ---------------------------------------------------------------------
  // Frames

  /** The globals before the first `InitGame`, all zero, already satisfy the
      invariant: no mines, no counts, nothing open. */
  lemma BlankInv()
    ensures Inv(Model(Filled(UNOPENED), Filled(UNOPENED), Filled(UNOPENED), 0, 0, 0, false, false, false))
  {
    var z := Filled(UNOPENED);
    TallyFilled(UNOPENED, BOMB);
    TallyFilled(UNOPENED, OPENED);
    forall i, j | InRange(i, j)
      ensures CountsFor(z)[i][j] == z[i][j]
    {
      CountZero(MinesNear(z, i, j));
    }
    GridExt(CountsFor(z), z);
  }

  /** Once the mine count is reached, further rounds of placement change
      nothing: the bound on rounds only cuts off what the C loop would not
      have done. */
  lemma InitEnough(rand: nat -> nat, k: nat, rounds: nat, more: nat)
    requires rounds <= more && Init(rand, k, rounds).0.bombCount == MAX_BOMBS
    ensures Init(rand, k, more) == Init(rand, k, rounds)
    ensures Tally(Init(rand, k, rounds).0.bombs, BOMB) == MAX_BOMBS
  {
    PlaceEnough(Filled(UNOPENED), 0, rand, k, rounds, more);
  }

  /** The pause flag is only toggled by its key and affects nothing else:
      clicks are handled the same whether or not the game is paused. */
  lemma PauseIsCosmetic(m: Model, f: Frame, p: bool)
    ensures Play(m.(pause := p), f) == Play(m, f).(pause := if f.pausePressed then !p else p)
  {
    var q := if f.pausePressed then !p else p;
    var m1 := if IsWinner(m.numOpened, m.bombCount) then m.(gameOver := true, win := true) else m;
    var m2 := if f.pausePressed then m1.(pause := !m1.pause) else m1;
    var x := ClickCell(f.mouseX);
    var y := ClickCell(f.mouseY);
    LeftClickKeepsPause(m2, x, y, q);
  }

  lemma LeftClickKeepsPause(m: Model, x: int, y: int, p: bool)
    ensures LeftClick(m.(pause := p), x, y) == LeftClick(m, x, y).(pause := p)
  {
  }

  /** Once the game is over, a frame without Enter changes nothing, and
      Enter starts a fresh game. */
  lemma GameOverWaits(m: Model, f: Frame, rand: nat -> nat, k: nat, rounds: nat)
    requires m.gameOver
    ensures !f.enterPressed ==> Update(m, f, rand, k, rounds) == (m, k)
    ensures f.enterPressed ==> var r := Update(m, f, rand, k, rounds).0;
      !r.gameOver && !r.win && !r.pause && r.numOpened == 0 && r.board == Filled(UNOPENED)
  {
  }

  /** Within a frame of play an open cell stays open, and a flag only
      appears on a cell that was unopened or flagged. */
  lemma CellTransitions(m: Model, f: Frame, i: int, j: int)
    requires InRange(i, j)
    ensures m.board[i][j] == OPENED ==> Play(m, f).board[i][j] == OPENED
    ensures Play(m, f).board[i][j] == FLAG ==> m.board[i][j] in {UNOPENED, FLAG}
  {
    var m1 := if IsWinner(m.numOpened, m.bombCount) then m.(gameOver := true, win := true) else m;
    var m2 := if f.pausePressed then m1.(pause := !m1.pause) else m1;
    var x := ClickCell(f.mouseX);
    var y := ClickCell(f.mouseY);
    FloodOnlyOpens(m2.board, m2.bombs, m2.counts, x, y);
  }
}
