/** Opening cells (`Open`): a recursive four-way flood fill over the board
    that opens the clicked cell and, when no mine lies around it, its
    orthogonal neighbours in turn. */
module FloodFill {
  import opened Board

  /** What a flood leaves behind: the new board and how many cells it opened. */
  datatype Reveal = Reveal(board: Grid, opens: nat)

  /** The test "a cell that is not open and holds no mine", on a board code
      and a mine-map code. */
  const Closed: (int, int) -> bool := (a: int, b: int) => a != OPENED && b != BOMB

  /** The number of cells that are neither open nor mines: what is left to open. */
  function Remaining(board: Grid, bombs: Grid): nat {
    Matches(board, bombs, Closed)
  }

  /** The guard of `Open`: the cell is off the grid, a mine, or already open. */
  predicate Blocked(board: Grid, bombs: Grid, x: int, y: int) {
    !InRange(x, y) || bombs[x][y] == BOMB || board[x][y] == OPENED
  }

  /** The four neighbours `Open` recurses into, in its order: the cell
      before and after in the row index, then before and after in the
      column index. */
  function Sides(x: int, y: int): seq<(int, int)> {
    [(x - 1, y), (x + 1, y), (x, y - 1), (x, y + 1)]
  }

  /** (a, b) is one of the four neighbours of (i, j). */
  predicate Orth(i: int, j: int, a: int, b: int) {
    (a == i - 1 && b == j) || (a == i + 1 && b == j) || (a == i && b == j - 1) || (a == i && b == j + 1)
  }

  /** `Open(x, y)`: unless blocked, open the cell and, if its count is zero,
      open its four neighbours in turn. */
  function Flood(board: Grid, bombs: Grid, counts: Grid, x: int, y: int): (r: Reveal)
    ensures Remaining(r.board, bombs) + r.opens == Remaining(board, bombs)
    ensures r.opens == 0 <==> Blocked(board, bombs, x, y)
    ensures r.opens == 0 ==> r.board == board
    decreases Remaining(board, bombs), 0
  {
    if Blocked(board, bombs, x, y) then
      Reveal(board, 0)
    else
      var b0 := Set(board, x, y, OPENED);
      MatchesSet(board, bombs, Closed, x, y, OPENED);
      if counts[x][y] != 0 then
        Reveal(b0, 1)
      else
        var r := FloodAll(b0, bombs, counts, Sides(x, y));
        Reveal(r.board, r.opens + 1)
  }

  /** The calls of `Open` on the listed cells, one after the other. */
  function FloodAll(board: Grid, bombs: Grid, counts: Grid, cells: seq<(int, int)>): (r: Reveal)
    ensures Remaining(r.board, bombs) + r.opens == Remaining(board, bombs)
    decreases Remaining(board, bombs), |cells| + 1
  {
    if cells == [] then
      Reveal(board, 0)
    else
      var r := Flood(board, bombs, counts, cells[0].0, cells[0].1);
      var s := FloodAll(r.board, bombs, counts, cells[1..]);
      Reveal(s.board, r.opens + s.opens)
  }

  // ---------------------------------------------------------------------
  // What a flood changes

  /** Each cell of `after` is as in `before` or has been opened, and no
      mine has been opened. */
  ghost predicate OnlyOpens(before: Grid, after: Grid, bombs: Grid) {
    forall i, j :: InRange(i, j) ==>
      after[i][j] == before[i][j] || (after[i][j] == OPENED && bombs[i][j] != BOMB)
  }

  lemma OnlyOpensTrans(a: Grid, b: Grid, c: Grid, bombs: Grid)
    requires OnlyOpens(a, b, bombs) && OnlyOpens(b, c, bombs)
    ensures OnlyOpens(a, c, bombs)
  {
  }

  /** A blocked cell stays blocked while cells are only opened. */
  lemma BlockedStays(before: Grid, after: Grid, bombs: Grid, x: int, y: int)
    requires OnlyOpens(before, after, bombs) && Blocked(before, bombs, x, y)
    ensures Blocked(after, bombs, x, y)
  {
  }

  /** A flood only opens cells that hold no mine (a flag is opened over),
      and afterwards `Open` at the same cell is blocked. */
  lemma {:induction false} FloodOnlyOpens(board: Grid, bombs: Grid, counts: Grid, x: int, y: int)
    ensures var r := Flood(board, bombs, counts, x, y);
      OnlyOpens(board, r.board, bombs) && Blocked(r.board, bombs, x, y)
    decreases Remaining(board, bombs), 0
  {
    if !Blocked(board, bombs, x, y) {
      var b0 := Set(board, x, y, OPENED);
      MatchesSet(board, bombs, Closed, x, y, OPENED);
      if counts[x][y] == 0 {
        var s := FloodAll(b0, bombs, counts, Sides(x, y));
        FloodAllOnlyOpens(b0, bombs, counts, Sides(x, y));
        assert OnlyOpens(board, b0, bombs);
        OnlyOpensTrans(board, b0, s.board, bombs);
        BlockedStays(b0, s.board, bombs, x, y);
      }
    }
  }

  /** Flooding a list of cells only opens mine-free cells, and afterwards
      every listed cell is blocked. */
  lemma {:induction false} FloodAllOnlyOpens(board: Grid, bombs: Grid, counts: Grid, cells: seq<(int, int)>)
    ensures var r := FloodAll(board, bombs, counts, cells);
      OnlyOpens(board, r.board, bombs) &&
      forall k | 0 <= k < |cells| :: Blocked(r.board, bombs, cells[k].0, cells[k].1)
    decreases Remaining(board, bombs), |cells| + 1
  {
    if cells != [] {
      var r := Flood(board, bombs, counts, cells[0].0, cells[0].1);
      var s := FloodAll(r.board, bombs, counts, cells[1..]);
      FloodOnlyOpens(board, bombs, counts, cells[0].0, cells[0].1);
      FloodAllOnlyOpens(r.board, bombs, counts, cells[1..]);
      OnlyOpensTrans(board, r.board, s.board, bombs);
      BlockedStays(r.board, s.board, bombs, cells[0].0, cells[0].1);
      forall k | 1 <= k < |cells|
        ensures Blocked(s.board, bombs, cells[k].0, cells[k].1)
      {
        assert cells[k] == cells[1..][k - 1];
      }
    }
  }

  /** A flood adds exactly its count of opened cells to the board's open cells. */
  lemma {:induction false} FloodTally(board: Grid, bombs: Grid, counts: Grid, x: int, y: int)
    ensures var r := Flood(board, bombs, counts, x, y);
      Tally(r.board, OPENED) == Tally(board, OPENED) + r.opens
    decreases Remaining(board, bombs), 0
  {
    if !Blocked(board, bombs, x, y) {
      var b0 := Set(board, x, y, OPENED);
      MatchesSet(board, bombs, Closed, x, y, OPENED);
      TallySet(board, x, y, OPENED, OPENED);
      if counts[x][y] == 0 {
        FloodAllTally(b0, bombs, counts, Sides(x, y));
      }
    }
  }

  lemma {:induction false} FloodAllTally(board: Grid, bombs: Grid, counts: Grid, cells: seq<(int, int)>)
    ensures var r := FloodAll(board, bombs, counts, cells);
      Tally(r.board, OPENED) == Tally(board, OPENED) + r.opens
    decreases Remaining(board, bombs), |cells| + 1
  {
    if cells != [] {
      var r := Flood(board, bombs, counts, cells[0].0, cells[0].1);
      FloodTally(board, bombs, counts, cells[0].0, cells[0].1);
      FloodAllTally(r.board, bombs, counts, cells[1..]);
    }
  }

  // ---------------------------------------------------------------------
  // Completeness: opened zero cells leave no neighbour to open

  /** (i, j) is open with no mine around it, yet its neighbour (a, b) could still be opened. */
  ghost predicate Gap(board: Grid, bombs: Grid, counts: Grid, i: int, j: int, a: int, b: int) {
    InRange(i, j) && board[i][j] == OPENED && counts[i][j] == 0 && !Blocked(board, bombs, a, b)
  }

  /** Every open cell with count zero has all its orthogonal neighbours open
      or mined. */
  ghost predicate NoGaps(board: Grid, bombs: Grid, counts: Grid) {
    forall i, j, a, b :: Orth(i, j, a, b) ==> !Gap(board, bombs, counts, i, j, a, b)
  }

  /** Every gap of `after` was already a gap of `before`. */
  ghost predicate NoNewGaps(before: Grid, after: Grid, bombs: Grid, counts: Grid) {
    forall i, j, a, b :: Orth(i, j, a, b) && Gap(after, bombs, counts, i, j, a, b) ==>
      Gap(before, bombs, counts, i, j, a, b)
  }

  /** Opening (x, y) adds no gap when its count is not zero, or when the
      later board has all its neighbours blocked. */
  lemma OpenStepNoNewGaps(board: Grid, after: Grid, bombs: Grid, counts: Grid, x: int, y: int)
    requires InRange(x, y) && bombs[x][y] != BOMB
    requires NoNewGaps(Set(board, x, y, OPENED), after, bombs, counts)
    requires counts[x][y] != 0 ||
      (Blocked(after, bombs, x - 1, y) && Blocked(after, bombs, x + 1, y) &&
       Blocked(after, bombs, x, y - 1) && Blocked(after, bombs, x, y + 1))
    ensures NoNewGaps(board, after, bombs, counts)
  {
    var b0 := Set(board, x, y, OPENED);
    assert OnlyOpens(board, b0, bombs);
    forall i, j, a, b | Orth(i, j, a, b) && Gap(after, bombs, counts, i, j, a, b)
      ensures Gap(board, bombs, counts, i, j, a, b)
    {
      assert Gap(b0, bombs, counts, i, j, a, b);
    }
  }

  lemma SidesBlocked(board: Grid, bombs: Grid, x: int, y: int)
    requires forall k | 0 <= k < |Sides(x, y)| :: Blocked(board, bombs, Sides(x, y)[k].0, Sides(x, y)[k].1)
    ensures Blocked(board, bombs, x - 1, y) && Blocked(board, bombs, x + 1, y)
    ensures Blocked(board, bombs, x, y - 1) && Blocked(board, bombs, x, y + 1)
  {
    var c := Sides(x, y);
    assert c[0] == (x - 1, y) && c[1] == (x + 1, y) && c[2] == (x, y - 1) && c[3] == (x, y + 1);
  }

  /** A flood leaves no gap it did not find: each zero cell it opens has all
      its neighbours opened or mined. */
  lemma {:induction false} FloodNoNewGaps(board: Grid, bombs: Grid, counts: Grid, x: int, y: int)
    ensures NoNewGaps(board, Flood(board, bombs, counts, x, y).board, bombs, counts)
    decreases Remaining(board, bombs), 0
  {
    if !Blocked(board, bombs, x, y) {
      var b0 := Set(board, x, y, OPENED);
      MatchesSet(board, bombs, Closed, x, y, OPENED);
      if counts[x][y] == 0 {
        FloodAllNoNewGaps(b0, bombs, counts, Sides(x, y));
        FloodAllOnlyOpens(b0, bombs, counts, Sides(x, y));
        SidesBlocked(FloodAll(b0, bombs, counts, Sides(x, y)).board, bombs, x, y);
        OpenStepNoNewGaps(board, FloodAll(b0, bombs, counts, Sides(x, y)).board, bombs, counts, x, y);
      } else {
        OpenStepNoNewGaps(board, b0, bombs, counts, x, y);
      }
    }
  }

  lemma {:induction false} FloodAllNoNewGaps(board: Grid, bombs: Grid, counts: Grid, cells: seq<(int, int)>)
    ensures NoNewGaps(board, FloodAll(board, bombs, counts, cells).board, bombs, counts)
    decreases Remaining(board, bombs), |cells| + 1
  {
    if cells != [] {
      var r := Flood(board, bombs, counts, cells[0].0, cells[0].1);
      FloodNoNewGaps(board, bombs, counts, cells[0].0, cells[0].1);
      FloodAllNoNewGaps(r.board, bombs, counts, cells[1..]);
    }
  }

  /** `Open` keeps the board free of gaps. */
  lemma FloodKeepsNoGaps(board: Grid, bombs: Grid, counts: Grid, x: int, y: int)
    requires NoGaps(board, bombs, counts)
    ensures NoGaps(Flood(board, bombs, counts, x, y).board, bombs, counts)
  {
    FloodNoNewGaps(board, bombs, counts, x, y);
  }

  // ---------------------------------------------------------------------
  // Soundness: every cell a flood opens is reached through zero cells

  /** c has been opened between `before` and `after`. */
  ghost predicate NewlyOpened(before: Grid, after: Grid, c: (int, int)) {
    InRange(c.0, c.1) && before[c.0][c.1] != OPENED && after[c.0][c.1] == OPENED
  }

  /** A path of newly opened cells, each an orthogonal neighbour of the one
      before, where every cell but the last has count zero. */
  ghost predicate Trail(before: Grid, after: Grid, counts: Grid, path: seq<(int, int)>) {
    |path| > 0 &&
    (forall k | 0 <= k < |path| :: NewlyOpened(before, after, path[k])) &&
    (forall k | 0 <= k < |path| - 1 ::
      InRange(path[k].0, path[k].1) && counts[path[k].0][path[k].1] == 0 &&
      Orth(path[k].0, path[k].1, path[k + 1].0, path[k + 1].1))
  }

  /** A trail stays a trail across boards that only open cells before and after it. */
  lemma TrailWiden(a: Grid, b: Grid, c: Grid, d: Grid, bombs: Grid, counts: Grid, path: seq<(int, int)>)
    requires OnlyOpens(a, b, bombs) && Trail(b, c, counts, path) && OnlyOpens(c, d, bombs)
    ensures Trail(a, d, counts, path)
  {
    forall k | 0 <= k < |path|
      ensures NewlyOpened(a, d, path[k])
    {
      assert NewlyOpened(b, c, path[k]);
    }
  }

  /** A trail from a neighbour of a zero cell opened first extends back to that cell. */
  lemma TrailPrepend(board: Grid, after: Grid, bombs: Grid, counts: Grid, x: int, y: int, path: seq<(int, int)>)
    requires InRange(x, y) && bombs[x][y] != BOMB && board[x][y] != OPENED && counts[x][y] == 0
    requires OnlyOpens(Set(board, x, y, OPENED), after, bombs)
    requires Trail(Set(board, x, y, OPENED), after, counts, path) && path[0] in Sides(x, y)
    ensures Trail(board, after, counts, [(x, y)] + path)
  {
    var b0 := Set(board, x, y, OPENED);
    assert OnlyOpens(board, b0, bombs);
    TrailWiden(board, b0, after, after, bombs, counts, path);
    var full := [(x, y)] + path;
    forall k | 0 <= k < |full| - 1
      ensures InRange(full[k].0, full[k].1) && counts[full[k].0][full[k].1] == 0 &&
        Orth(full[k].0, full[k].1, full[k + 1].0, full[k + 1].1)
    {
      if k > 0 {
        assert full[k] == path[k - 1] && full[k + 1] == path[k];
      }
    }
    forall k | 0 <= k < |full|
      ensures NewlyOpened(board, after, full[k])
    {
      if k > 0 {
        assert full[k] == path[k - 1];
      }
    }
  }

  /** Every cell a flood from (x, y) opens is reached from (x, y) along a
      trail; the lemma names the trail. */
  lemma {:induction false} FloodReaches(board: Grid, bombs: Grid, counts: Grid, x: int, y: int, i: int, j: int)
    returns (path: seq<(int, int)>)
    requires NewlyOpened(board, Flood(board, bombs, counts, x, y).board, (i, j))
    ensures Trail(board, Flood(board, bombs, counts, x, y).board, counts, path)
    ensures path[0] == (x, y) && path[|path| - 1] == (i, j)
    decreases Remaining(board, bombs), 0
  {
    var r := Flood(board, bombs, counts, x, y);
    var b0 := Set(board, x, y, OPENED);
    MatchesSet(board, bombs, Closed, x, y, OPENED);
    if i == x && j == y {
      path := [(x, y)];
      assert Trail(board, r.board, counts, path);
    } else {
      var s := FloodAll(b0, bombs, counts, Sides(x, y));
      assert r.board == s.board;
      var tail := FloodAllReaches(b0, bombs, counts, Sides(x, y), i, j);
      FloodAllOnlyOpens(b0, bombs, counts, Sides(x, y));
      TrailPrepend(board, s.board, bombs, counts, x, y, tail);
      path := [(x, y)] + tail;
      assert path[|path| - 1] == tail[|tail| - 1];
    }
  }

  /** Every cell flooding a list opens is reached along a trail from one of
      the listed cells. */
  lemma {:induction false} FloodAllReaches(board: Grid, bombs: Grid, counts: Grid, cells: seq<(int, int)>, i: int, j: int)
    returns (path: seq<(int, int)>)
    requires NewlyOpened(board, FloodAll(board, bombs, counts, cells).board, (i, j))
    ensures Trail(board, FloodAll(board, bombs, counts, cells).board, counts, path)
    ensures path[0] in cells && path[|path| - 1] == (i, j)
    decreases Remaining(board, bombs), |cells| + 1
  {
    var r := Flood(board, bombs, counts, cells[0].0, cells[0].1);
    var s := FloodAll(r.board, bombs, counts, cells[1..]);
    FloodOnlyOpens(board, bombs, counts, cells[0].0, cells[0].1);
    FloodAllOnlyOpens(r.board, bombs, counts, cells[1..]);
    if r.board[i][j] == OPENED {
      path := FloodReaches(board, bombs, counts, cells[0].0, cells[0].1, i, j);
      TrailWiden(board, board, r.board, s.board, bombs, counts, path);
    } else {
      path := FloodAllReaches(r.board, bombs, counts, cells[1..], i, j);
      TrailWiden(board, r.board, s.board, s.board, bombs, counts, path);
    }
  }
}
