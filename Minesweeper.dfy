/** The game as the C program keeps it: global arrays changed in place by
    `dfs`, `Count`, `InitGame`, `Open` and `UpdateGame`. Each method is
    proved to leave the state its counterpart in `Rules`, `Mines` or
    `FloodFill` describes. */
module Minesweeper {
  import opened Board
  import opened Mines
  import opened FloodFill
  import opened Rules

  /** The array holds the grid's values, cell by cell. */
  ghost predicate Mirrors(a: array2<int>, g: Grid)
    reads a
  {
    a.Length0 == ROWS && a.Length1 == COLS &&
    forall i, j {:trigger a[i, j]} :: InRange(i, j) ==> a[i, j] == g[i][j]
  }

  /** Writes v into cell (x, y) of the array; returns the grid the array
      then mirrors. */
  method Store(a: array2<int>, ghost g: Grid, x: int, y: int, v: int) returns (ghost h: Grid)
    requires Mirrors(a, g) && InRange(x, y)
    modifies a
    ensures Mirrors(a, h) && h == Set(g, x, y, v)
  {
    a[x, y] := v;
    h := Set(g, x, y, v);
  }

  /** The state `InitGame` leaves, described piece by piece. */
  lemma IsInit(m: Model, next: nat, rand: nat -> nat, k: nat, rounds: nat)
    requires m.board == Filled(UNOPENED) && m.counts == CountsFor(m.bombs)
    requires Placement(m.bombs, m.bombCount, next) == PlaceMines(Filled(UNOPENED), 0, rand, k, rounds)
    requires m.numOpened == 0 && m.framesCounter == 0 && !m.gameOver && !m.pause && !m.win
    ensures (m, next) == Init(rand, k, rounds)
  {
  }

  class Game {
    var board: array2<int>
    var bombs: array2<int>
    var counts: array2<int>
    var bombCount: int
    var numOpened: int
    var framesCounter: int
    var gameOver: bool
    var pause: bool
    var win: bool

    /** The contents of the three arrays, as grids. */
    ghost var boardCells: Grid
    ghost var mineCells: Grid
    ghost var countCells: Grid

    /** Three distinct arrays, each holding its grid. */
    ghost predicate Valid()
      reads this, board, bombs, counts
    {
      board != bombs && board != counts && bombs != counts &&
      Mirrors(board, boardCells) && Mirrors(bombs, mineCells) && Mirrors(counts, countCells)
    }

    /** The state as a value. */
    ghost function Abs(): Model
      reads this
    {
      Model(boardCells, mineCells, countCells, bombCount, numOpened, framesCounter, gameOver, pause, win)
    }

    /** The globals before the first `InitGame`: zeroed arrays, zero
        counters, every flag false. `Rules.BlankInv` shows that this state
        already satisfies the invariant. */
    constructor ()
      ensures Valid() && fresh(board) && fresh(bombs) && fresh(counts)
      ensures Abs() == Model(Filled(UNOPENED), Filled(UNOPENED), Filled(UNOPENED), 0, 0, 0, false, false, false)
    {
      board := new int[ROWS, COLS]((i, j) => UNOPENED);
      bombs := new int[ROWS, COLS]((i, j) => UNOPENED);
      counts := new int[ROWS, COLS]((i, j) => UNOPENED);
      boardCells, mineCells, countCells := Filled(UNOPENED), Filled(UNOPENED), Filled(UNOPENED);
      bombCount, numOpened, framesCounter := 0, 0, 0;
      gameOver, pause, win := false, false, false;
    }

    /** `dfs(x, y)`: one random walk placing mines, drawing its steps from
        `rand` at `k` on; returns where the next draw is. */
    method Dfs(x: int, y: int, rand: nat -> nat, k: nat) returns (next: nat)
      requires Mirrors(bombs, mineCells) && bombCount <= MAX_BOMBS
      modifies bombs, this`bombCount, this`mineCells
      ensures Mirrors(bombs, mineCells)
      ensures Placement(mineCells, bombCount, next) == Walk(old(mineCells), old(bombCount), x, y, rand, k)
      decreases MAX_BOMBS - bombCount
    {
      if bombCount == MAX_BOMBS {
        return k;
      }
      if x < 0 || x > ROWS - 1 || y < 0 || y > COLS - 1 {
        return k;
      }
      if bombs[x, y] == BOMB {
        return k;
      }
      mineCells := Store(bombs, mineCells, x, y, BOMB);
      bombCount := bombCount + 1;
      var dx := Step(Draw(rand, k));
      var dy := Step(Draw(rand, k + 1));
      next := Dfs(x + dx, y + dy, rand, k + 2);
    }

    /** One neighbour read of `Count`: 1 when (i, j) lies in the grid and
        holds a mine, else 0. */
    method Probe(i: int, j: int) returns (m: nat)
      requires Mirrors(bombs, mineCells)
      ensures m == MineAt(mineCells, i, j)
    {
      m := if InRange(i, j) && bombs[i, j] == BOMB then 1 else 0;
    }

    /** `Count(x, y)`: adds to the cell's count one for each mine among its
        eight neighbours that lie in the grid; a mine keeps its count. */
    method Count(x: int, y: int)
      requires Valid()
      modifies counts, this`countCells
      ensures Valid()
      ensures InRange(x, y) && mineCells[x][y] != BOMB ==>
        countCells == Set(old(countCells), x, y, old(countCells)[x][y] + NeighbourMines(mineCells, x, y))
      ensures !(InRange(x, y) && mineCells[x][y] != BOMB) ==> countCells == old(countCells)
    {
      if x < 0 || x >= ROWS || y < 0 || y >= COLS {
        return;
      }
      if bombs[x, y] == BOMB {
        return;
      }
      var c := counts[x, y];
      var m1 := Probe(x + 1, y);
      var m2 := Probe(x - 1, y);
      var m3 := Probe(x, y + 1);
      var m4 := Probe(x, y - 1);
      var m5 := Probe(x + 1, y + 1);
      var m6 := Probe(x - 1, y - 1);
      var m7 := Probe(x - 1, y + 1);
      var m8 := Probe(x + 1, y - 1);
      c := c + m1 + m2 + m3 + m4 + m5 + m6 + m7 + m8;
      countCells := Store(counts, countCells, x, y, c);
    }

    /** The reset loop of `InitGame`: every cell of the three arrays unopened. */
    method ResetCells()
      requires Valid()
      modifies board, bombs, counts, this`boardCells, this`mineCells, this`countCells
      ensures Valid()
      ensures boardCells == Filled(UNOPENED) && mineCells == Filled(UNOPENED) && countCells == Filled(UNOPENED)
    {
      for i := 0 to ROWS
        invariant forall a, b :: 0 <= a < i && 0 <= b < COLS ==>
          board[a, b] == UNOPENED && bombs[a, b] == UNOPENED && counts[a, b] == UNOPENED
      {
        for j := 0 to COLS
          invariant forall a, b :: 0 <= a < i && 0 <= b < COLS ==>
            board[a, b] == UNOPENED && bombs[a, b] == UNOPENED && counts[a, b] == UNOPENED
          invariant forall b :: 0 <= b < j ==>
            board[i, b] == UNOPENED && bombs[i, b] == UNOPENED && counts[i, b] == UNOPENED
        {
          board[i, j] := UNOPENED;
          bombs[i, j] := UNOPENED;
          counts[i, j] := UNOPENED;
        }
      }
      boardCells, mineCells, countCells := Filled(UNOPENED), Filled(UNOPENED), Filled(UNOPENED);
    }

    /** One round of the placement loop: a random root in 1 .. ROWS and
        1 .. COLS, and a walk from it. */
    method PlaceRound(rand: nat -> nat, k: nat, ghost left: nat, ghost goal: Placement) returns (next: nat)
      requires Mirrors(bombs, mineCells) && bombCount < MAX_BOMBS
      requires PlaceMines(mineCells, bombCount, rand, k, left + 1) == goal
      modifies bombs, this`bombCount, this`mineCells
      ensures Mirrors(bombs, mineCells) && bombCount <= MAX_BOMBS
      ensures PlaceMines(mineCells, bombCount, rand, next, left) == goal
    {
      var xRoot := Root(Draw(rand, k), ROWS);
      var yRoot := Root(Draw(rand, k + 1), COLS);
      next := Dfs(xRoot, yRoot, rand, k + 2);
    }

    /** The placement loop of `InitGame`, run for at most `rounds` rounds. */
    method PlaceAll(rand: nat -> nat, k: nat, rounds: nat) returns (next: nat)
      requires Mirrors(bombs, mineCells) && bombCount <= MAX_BOMBS
      modifies bombs, this`bombCount, this`mineCells
      ensures Mirrors(bombs, mineCells)
      ensures Placement(mineCells, bombCount, next) == PlaceMines(old(mineCells), old(bombCount), rand, k, rounds)
    {
      ghost var goal := PlaceMines(mineCells, bombCount, rand, k, rounds);
      ghost var left := rounds;
      var round := 0;
      next := k;
      while bombCount != MAX_BOMBS && round < rounds
        invariant Mirrors(bombs, mineCells) && bombCount <= MAX_BOMBS
        invariant 0 <= round <= rounds && left == rounds - round
        invariant PlaceMines(mineCells, bombCount, rand, next, left) == goal
        decreases rounds - round
      {
        left := left - 1;
        next := PlaceRound(rand, next, left, goal);
        round := round + 1;
      }
    }

    /** The count loop of `InitGame`: with every count at zero beforehand,
        each count afterwards is `CellCount` of the mine map. */
    method CountAll()
      requires Valid() && countCells == Filled(UNOPENED)
      modifies counts, this`countCells
      ensures Valid()
      ensures countCells == CountsFor(mineCells)
    {
      for i := 0 to ROWS
        invariant Valid()
        invariant forall a, c :: InRange(a, c) ==>
          countCells[a][c] == if a < i then CellCount(mineCells, a, c) else UNOPENED
      {
        for j := 0 to COLS
          invariant Valid()
          invariant forall a, c :: InRange(a, c) ==>
            countCells[a][c] == if a < i || (a == i && c < j) then CellCount(mineCells, a, c) else UNOPENED
        {
          Count(i, j);
        }
      }
      GridExt(countCells, CountsFor(mineCells));
    }

    /** `InitGame`: resets the flags and counters and the three arrays,
        places the mines, then counts the neighbours of every cell. */
    method InitGame(rand: nat -> nat, k: nat, rounds: nat) returns (next: nat)
      requires Valid()
      modifies board, bombs, counts, this`boardCells, this`mineCells, this`countCells
      modifies this`bombCount, this`numOpened, this`framesCounter, this`gameOver, this`pause, this`win
      ensures Valid()
      ensures (Abs(), next) == Init(rand, k, rounds)
    {
      framesCounter := 0;
      gameOver := false;
      pause := false;
      win := false;
      bombCount := 0;
      numOpened := 0;
      ResetCells();
      next := PlaceAll(rand, k, rounds);
      CountAll();
      IsInit(Abs(), next, rand, k, rounds);
    }

    /** `Open(x, y)`: unless the cell is off the grid, a mine or open, opens
        it, counts it, and when no mine lies around it opens its four
        neighbours in turn. */
    method Open(x: int, y: int)
      requires Valid()
      modifies board, this`numOpened, this`boardCells
      ensures Valid()
      ensures var r := Flood(old(boardCells), mineCells, countCells, x, y);
        boardCells == r.board && numOpened == old(numOpened) + r.opens
      decreases Remaining(boardCells, mineCells), 0
    {
      if x < 0 || x >= ROWS || y < 0 || y >= COLS {
        return;
      }
      if bombs[x, y] == BOMB || board[x, y] == OPENED {
        return;
      }
      MatchesSet(boardCells, mineCells, Closed, x, y, OPENED);
      boardCells := Store(board, boardCells, x, y, OPENED);
      numOpened := numOpened + 1;
      if counts[x, y] == 0 {
        OpenSides(x, y);
      }
    }

    /** The four calls `Open` makes on the neighbours of (x, y). */
    method OpenSides(x: int, y: int)
      requires Valid()
      modifies board, this`numOpened, this`boardCells
      ensures Valid()
      ensures var r := FloodAll(old(boardCells), mineCells, countCells, Sides(x, y));
        boardCells == r.board && numOpened == old(numOpened) + r.opens
      decreases Remaining(boardCells, mineCells), 1
    {
      ghost var b1, b2, b3;
      Open(x - 1, y);
      b1 := boardCells;
      Open(x + 1, y);
      b2 := boardCells;
      Open(x, y - 1);
      b3 := boardCells;
      Open(x, y + 1);
      var s := Sides(x, y);
      assert FloodAll(b3, mineCells, countCells, s[3..]).board == boardCells;
      assert FloodAll(b2, mineCells, countCells, s[2..]).board == boardCells;
      assert FloodAll(b1, mineCells, countCells, s[1..]).board == boardCells;
    }

    /** The left-button branch of `UpdateGame`: a mine under the cursor ends
        the game, then `Open` runs on the cell. */
    method LeftClick(x: int, y: int)
      requires Valid()
      modifies board, this`numOpened, this`boardCells, this`gameOver
      ensures Valid()
      ensures Abs() == Rules.LeftClick(old(Abs()), x, y)
    {
      if InRange(x, y) && bombs[x, y] == BOMB {
        gameOver := true;
      }
      Open(x, y);
    }

    /** The right-button branch of `UpdateGame`: an unopened cell gets a
        flag, a flag is taken off. */
    method RightClick(x: int, y: int)
      requires Valid()
      modifies board, this`boardCells
      ensures Valid()
      ensures boardCells == ToggleFlag(old(boardCells), x, y)
    {
      if InRange(x, y) {
        if board[x, y] == UNOPENED {
          boardCells := Store(board, boardCells, x, y, FLAG);
        } else if board[x, y] == FLAG {
          boardCells := Store(board, boardCells, x, y, UNOPENED);
        }
      }
    }

    /** The branch of `UpdateGame` for a game in progress: the win test,
        the pause key, the left button and the right button, in that order. */
    method Play(f: Frame)
      requires Valid()
      modifies board, this`numOpened, this`boardCells, this`gameOver, this`win, this`pause
      ensures Valid()
      ensures Abs() == Rules.Play(old(Abs()), f)
    {
      if IsWinner(numOpened, bombCount) {
        gameOver := true;
        win := true;
      }
      if f.pausePressed {
        pause := !pause;
      }
      if f.leftPressed {
        LeftClick(ClickCell(f.mouseX), ClickCell(f.mouseY));
      }
      if f.rightPressed {
        RightClick(ClickCell(f.mouseX), ClickCell(f.mouseY));
      }
    }

    /** `UpdateGame`: one frame, with `rand` from `k` on for a restart;
        returns where the next draw is. */
    method UpdateGame(f: Frame, rand: nat -> nat, k: nat, rounds: nat) returns (next: nat)
      requires Valid()
      modifies board, bombs, counts, this`boardCells, this`mineCells, this`countCells
      modifies this`bombCount, this`numOpened, this`framesCounter, this`gameOver, this`pause, this`win
      ensures Valid()
      ensures (Abs(), next) == Update(old(Abs()), f, rand, k, rounds)
      ensures old(Inv(Abs())) ==> Inv(Abs())
    {
      next := k;
      if !gameOver {
        Play(f);
      } else if f.enterPressed {
        next := InitGame(rand, k, rounds);
      }
    }
  }
}
