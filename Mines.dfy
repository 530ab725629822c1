/** Mine placement by random walks (`dfs` and the placement loop of
    `InitGame`) and the neighbour-mine count of a cell (`Count`). The C
    library's `rand()` is a stream `rand` of non-negative integers read from
    position `k` on. */
module Mines {
  import opened Board

  /** What placing mines leaves behind: the mine map, the number of mines
      placed, and the position of the next value to draw from the stream. */
  datatype Placement = Placement(mines: Grid, count: int, next: nat)

  /** The draw at position `k` of the stream. The methods and the functions
      both draw through this function rather than applying `rand` directly, so
      that a draw is the same term in every heap state and the verifier can
      match a method's draws to its specification's without reasoning about
      the heap. */
  function Draw(rand: nat -> nat, k: nat): nat {
    rand(k)
  }

  /** A random step `rand() % 3 - 1`, one of -1, 0 and 1. */
  function Step(r: nat): (d: int)
    ensures -1 <= d <= 1
  {
    r % (1 + 1 - (-1)) + (-1)
  }

  /** A random root coordinate `rand() % n + 1`, one of 1 .. n. */
  function Root(r: nat, n: int): (c: int)
    requires n > 0
    ensures 1 <= c <= n
  {
    r % n + 1
  }

  /** Every cell of `after` is as in `before` or a mine. */
  ghost predicate OnlyAddsMines(before: Grid, after: Grid) {
    forall i, j :: InRange(i, j) ==> after[i][j] == before[i][j] || after[i][j] == BOMB
  }

  /** One random walk `dfs(x, y)`: it stops once MAX_BOMBS mines are placed,
      when it leaves the grid, or when it reaches a mine; otherwise it puts a
      mine on (x, y), draws a step for each coordinate and goes on from the
      neighbour or the cell itself. */
  function Walk(mines: Grid, count: int, x: int, y: int, rand: nat -> nat, k: nat): (r: Placement)
    requires count <= MAX_BOMBS
    ensures count <= r.count <= MAX_BOMBS
    decreases MAX_BOMBS - count
  {
    if count == MAX_BOMBS || !InRange(x, y) || mines[x][y] == BOMB then
      Placement(mines, count, k)
    else
      Walk(Set(mines, x, y, BOMB), count + 1, x + Step(Draw(rand, k)), y + Step(Draw(rand, k + 1)), rand, k + 2)
  }

  /** A walk stops without placing anything exactly when the count is full,
      the cell is off the grid or already a mine; each mine it places costs
      two draws. */
  lemma {:induction false} WalkStops(mines: Grid, count: int, x: int, y: int, rand: nat -> nat, k: nat)
    requires count <= MAX_BOMBS
    ensures var r := Walk(mines, count, x, y, rand, k);
      (r.count == count <==> (count == MAX_BOMBS || !InRange(x, y) || mines[x][y] == BOMB)) &&
      (r.count == count ==> r.mines == mines && r.next == k) &&
      r.next == k + 2 * (r.count - count)
    decreases MAX_BOMBS - count
  {
    if !(count == MAX_BOMBS || !InRange(x, y) || mines[x][y] == BOMB) {
      WalkStops(Set(mines, x, y, BOMB), count + 1, x + Step(Draw(rand, k)), y + Step(Draw(rand, k + 1)), rand, k + 2);
    }
  }

  /** A walk places exactly as many new mines as it adds to the count. */
  lemma {:induction false} WalkTally(mines: Grid, count: int, x: int, y: int, rand: nat -> nat, k: nat)
    requires count <= MAX_BOMBS
    ensures var r := Walk(mines, count, x, y, rand, k);
      Tally(r.mines, BOMB) == Tally(mines, BOMB) + (r.count - count)
    decreases MAX_BOMBS - count
  {
    if !(count == MAX_BOMBS || !InRange(x, y) || mines[x][y] == BOMB) {
      TallySet(mines, x, y, BOMB, BOMB);
      WalkTally(Set(mines, x, y, BOMB), count + 1, x + Step(Draw(rand, k)), y + Step(Draw(rand, k + 1)), rand, k + 2);
    }
  }

  /** A walk only ever turns cells into mines. */
  lemma {:induction false} WalkOnlyAdds(mines: Grid, count: int, x: int, y: int, rand: nat -> nat, k: nat)
    requires count <= MAX_BOMBS
    ensures OnlyAddsMines(mines, Walk(mines, count, x, y, rand, k).mines)
    decreases MAX_BOMBS - count
  {
    if !(count == MAX_BOMBS || !InRange(x, y) || mines[x][y] == BOMB) {
      WalkOnlyAdds(Set(mines, x, y, BOMB), count + 1, x + Step(Draw(rand, k)), y + Step(Draw(rand, k + 1)), rand, k + 2);
    }
  }

  /** The placement loop of `InitGame`: while fewer than MAX_BOMBS mines are
      placed, draw a root in 1 .. ROWS and 1 .. COLS and walk from it. The C
      loop runs until the count is reached; here at most `rounds` walks run. */
  function PlaceMines(mines: Grid, count: int, rand: nat -> nat, k: nat, rounds: nat): (r: Placement)
    requires count <= MAX_BOMBS
    ensures count <= r.count <= MAX_BOMBS
    ensures r.count < MAX_BOMBS ==> r.next >= k + 2 * rounds
    decreases rounds
  {
    if count == MAX_BOMBS || rounds == 0 then
      Placement(mines, count, k)
    else
      var w := Walk(mines, count, Root(Draw(rand, k), ROWS), Root(Draw(rand, k + 1), COLS), rand, k + 2);
      WalkStops(mines, count, Root(Draw(rand, k), ROWS), Root(Draw(rand, k + 1), COLS), rand, k + 2);
      PlaceMines(w.mines, w.count, rand, w.next, rounds - 1)
  }

  /** The placement loop keeps the count equal to the mines it added. */
  lemma {:induction false} PlaceTally(mines: Grid, count: int, rand: nat -> nat, k: nat, rounds: nat)
    requires count <= MAX_BOMBS
    ensures var r := PlaceMines(mines, count, rand, k, rounds);
      Tally(r.mines, BOMB) == Tally(mines, BOMB) + (r.count - count)
    decreases rounds
  {
    if !(count == MAX_BOMBS || rounds == 0) {
      var x, y := Root(Draw(rand, k), ROWS), Root(Draw(rand, k + 1), COLS);
      var w := Walk(mines, count, x, y, rand, k + 2);
      WalkTally(mines, count, x, y, rand, k + 2);
      PlaceTally(w.mines, w.count, rand, w.next, rounds - 1);
    }
  }

  /** The placement loop only adds mines. */
  lemma {:induction false} PlaceOnlyAdds(mines: Grid, count: int, rand: nat -> nat, k: nat, rounds: nat)
    requires count <= MAX_BOMBS
    ensures OnlyAddsMines(mines, PlaceMines(mines, count, rand, k, rounds).mines)
    decreases rounds
  {
    if !(count == MAX_BOMBS || rounds == 0) {
      var x, y := Root(Draw(rand, k), ROWS), Root(Draw(rand, k + 1), COLS);
      var w := Walk(mines, count, x, y, rand, k + 2);
      WalkOnlyAdds(mines, count, x, y, rand, k + 2);
      PlaceOnlyAdds(w.mines, w.count, rand, w.next, rounds - 1);
    }
  }

  /** Once the loop has placed MAX_BOMBS mines, more rounds change nothing:
      the bound on rounds only cuts off runs the C loop would go on with. */
  lemma {:induction false} PlaceEnough(mines: Grid, count: int, rand: nat -> nat, k: nat, rounds: nat, more: nat)
    requires count <= MAX_BOMBS && rounds <= more
    requires PlaceMines(mines, count, rand, k, rounds).count == MAX_BOMBS
    ensures PlaceMines(mines, count, rand, k, more) == PlaceMines(mines, count, rand, k, rounds)
    decreases rounds
  {
    if count != MAX_BOMBS {
      var w := Walk(mines, count, Root(Draw(rand, k), ROWS), Root(Draw(rand, k + 1), COLS), rand, k + 2);
      PlaceEnough(w.mines, w.count, rand, w.next, rounds - 1, more - 1);
    }
  }

  /** A root drawn in row ROWS (the C draws rows from 1 .. ROWS) lies off the
      grid: that round places nothing and only uses up its two draws. */
  lemma RootOffGrid(mines: Grid, count: int, rand: nat -> nat, k: nat, rounds: nat)
    requires count < MAX_BOMBS && rounds > 0
    requires Draw(rand, k) % ROWS == ROWS - 1
    ensures PlaceMines(mines, count, rand, k, rounds) == PlaceMines(mines, count, rand, k + 2, rounds - 1)
  {
    assert !InRange(Root(Draw(rand, k), ROWS), Root(Draw(rand, k + 1), COLS));
  }

  // ---------------------------------------------------------------------
  // Neighbour counts

  /** (i, j) is one of the 8 cells around (x, y). */
  predicate Adjacent(x: int, y: int, i: int, j: int) {
    -1 <= i - x <= 1 && -1 <= j - y <= 1 && (i != x || j != y)
  }

  /** The cells of the grid around (x, y) that hold a mine. */
  function MinesNear(b: Grid, x: int, y: int): (int, int) -> bool {
    (i: int, j: int) => InRange(i, j) && Adjacent(x, y, i, j) && b[i][j] == BOMB
  }

  /** The number of mines among the neighbours of (x, y) that lie in the grid. */
  function MinesAround(b: Grid, x: int, y: int): nat {
    CountCells(MinesNear(b, x, y))
  }

  /** A bounds-checked read of one neighbour: 1 if (i, j) is in the grid and holds a mine. */
  function MineAt(b: Grid, i: int, j: int): nat {
    if InRange(i, j) && b[i][j] == BOMB then 1 else 0
  }

  /** The eight neighbours in the order `Count` reads them. */
  function Neighbours(x: int, y: int): seq<(int, int)> {
    [(x + 1, y), (x - 1, y), (x, y + 1), (x, y - 1),
     (x + 1, y + 1), (x - 1, y - 1), (x - 1, y + 1), (x + 1, y - 1)]
  }

  lemma NeighboursDistinct(x: int, y: int)
    ensures forall a, b | 0 <= a < b < 8 :: Neighbours(x, y)[a] != Neighbours(x, y)[b]
  {
  }

  lemma NeighboursCover(b: Grid, x: int, y: int)
    ensures forall i, j :: MinesNear(b, x, y)(i, j) ==> InRange(i, j) && (i, j) in Neighbours(x, y)
  {
    forall i, j | MinesNear(b, x, y)(i, j)
      ensures (i, j) in Neighbours(x, y)
    {
      var c := Neighbours(x, y);
      if i == x + 1 && j == y { assert c[0] == (i, j); }
      else if i == x - 1 && j == y { assert c[1] == (i, j); }
      else if i == x && j == y + 1 { assert c[2] == (i, j); }
      else if i == x && j == y - 1 { assert c[3] == (i, j); }
      else if i == x + 1 && j == y + 1 { assert c[4] == (i, j); }
      else if i == x - 1 && j == y - 1 { assert c[5] == (i, j); }
      else if i == x - 1 && j == y + 1 { assert c[6] == (i, j); }
      else { assert c[7] == (i, j); }
    }
  }

  lemma SumNeighbours(b: Grid, x: int, y: int)
    ensures SumAt(MinesNear(b, x, y), Neighbours(x, y)) ==
      MineAt(b, x + 1, y) + MineAt(b, x - 1, y) + MineAt(b, x, y + 1) + MineAt(b, x, y - 1) +
      MineAt(b, x + 1, y + 1) + MineAt(b, x - 1, y - 1) + MineAt(b, x - 1, y + 1) + MineAt(b, x + 1, y - 1)
  {
    var p := MinesNear(b, x, y);
    var c := Neighbours(x, y);
    assert SumAt(p, c[8..]) == 0;
    assert SumAt(p, c[7..]) == MineAt(b, x + 1, y - 1) + SumAt(p, c[8..]);
    assert SumAt(p, c[6..]) == MineAt(b, x - 1, y + 1) + SumAt(p, c[7..]);
    assert SumAt(p, c[5..]) == MineAt(b, x - 1, y - 1) + SumAt(p, c[6..]);
    assert SumAt(p, c[4..]) == MineAt(b, x + 1, y + 1) + SumAt(p, c[5..]);
    assert SumAt(p, c[3..]) == MineAt(b, x, y - 1) + SumAt(p, c[4..]);
    assert SumAt(p, c[2..]) == MineAt(b, x, y + 1) + SumAt(p, c[3..]);
    assert SumAt(p, c[1..]) == MineAt(b, x - 1, y) + SumAt(p, c[2..]);
    assert SumAt(p, c) == MineAt(b, x + 1, y) + SumAt(p, c[1..]);
  }

  /** The eight reads of `Count`, in its order, each bounds-checked. */
  function NeighbourMines(b: Grid, x: int, y: int): nat {
    MineAt(b, x + 1, y) + MineAt(b, x - 1, y) + MineAt(b, x, y + 1) + MineAt(b, x, y - 1) +
    MineAt(b, x + 1, y + 1) + MineAt(b, x - 1, y - 1) + MineAt(b, x - 1, y + 1) + MineAt(b, x + 1, y - 1)
  }

  /** The eight reads of `Count` add up to the number of mines around the
      cell, which is at most 8. */
  lemma MinesAroundBySum(b: Grid, x: int, y: int)
    ensures MinesAround(b, x, y) == NeighbourMines(b, x, y)
    ensures MinesAround(b, x, y) <= 8
  {
    NeighboursDistinct(x, y);
    NeighboursCover(b, x, y);
    CountByCells(MinesNear(b, x, y), Neighbours(x, y));
    SumNeighbours(b, x, y);
  }

  /** What `Count` leaves in a cell's count, starting from zero: nothing for
      a mine, one for each read that finds a mine otherwise. That is the
      number of mines among the neighbours that lie in the grid, at most 8. */
  function CellCount(b: Grid, x: int, y: int): nat
    requires InRange(x, y)
  {
    if b[x][y] == BOMB then 0 else NeighbourMines(b, x, y)
  }

  /** A mine's count is zero; any other cell's count is the number of mines
      among the neighbours that lie in the grid, at most 8. */
  lemma CellCountMeaning(b: Grid, x: int, y: int)
    requires InRange(x, y)
    ensures CellCount(b, x, y) == if b[x][y] == BOMB then 0 else MinesAround(b, x, y)
    ensures CellCount(b, x, y) <= 8
  {
    MinesAroundBySum(b, x, y);
  }

  lemma CountsMeaning(b: Grid)
    ensures forall i, j :: InRange(i, j) ==>
      CellCount(b, i, j) == (if b[i][j] == BOMB then 0 else MinesAround(b, i, j)) && CellCount(b, i, j) <= 8
  {
    forall i, j | InRange(i, j)
      ensures CellCount(b, i, j) == (if b[i][j] == BOMB then 0 else MinesAround(b, i, j)) && CellCount(b, i, j) <= 8
    {
      CellCountMeaning(b, i, j);
    }
  }

  /** The neighbour counts `InitGame` computes from a mine map: every mine
      has count 0, every other cell the number of mines around it. */
  function CountsFor(b: Grid): (c: Grid)
    ensures forall i, j :: InRange(i, j) ==>
      c[i][j] == (if b[i][j] == BOMB then 0 else MinesAround(b, i, j)) && c[i][j] <= 8
  {
    CountsMeaning(b);
    seq(ROWS, i requires 0 <= i < ROWS => seq(COLS, j requires 0 <= j < COLS => CellCount(b, i, j)))
  }

  // ---------------------------------------------------------------------
  // `Count` as written: unchecked neighbour reads

  /** What C's `bombs[i][j]` reads. The array is stored row after row, so an
      index pair names the cell at flat offset i * COLS + j as long as that
      offset lies inside the array; `beyond` stands for whatever memory lies
      outside it. */
  function RawRead(b: Grid, beyond: int -> int, i: int, j: int): int {
    var f := i * COLS + j;
    if 0 <= f < ROWS * COLS then b[f / COLS][f % COLS] else beyond(f)
  }

  function RawMineAt(b: Grid, beyond: int -> int, i: int, j: int): nat {
    Ind(RawRead(b, beyond, i, j) == BOMB)
  }

  /** The count `Count` leaves in an in-grid cell when its eight neighbour
      reads are not range-checked. A mine still gets 0 and no cell more than
      8, and away from the border the count is the right one. */
  function CountAsWritten(b: Grid, beyond: int -> int, x: int, y: int): (c: nat)
    requires InRange(x, y)
    ensures b[x][y] == BOMB ==> c == 0
    ensures c <= 8
    ensures 1 <= x < ROWS - 1 && 1 <= y < COLS - 1 ==> c == CellCount(b, x, y)
  {
    InteriorReads(b, beyond, x, y);
    if b[x][y] == BOMB then 0 else
      RawMineAt(b, beyond, x + 1, y) + RawMineAt(b, beyond, x - 1, y) +
      RawMineAt(b, beyond, x, y + 1) + RawMineAt(b, beyond, x, y - 1) +
      RawMineAt(b, beyond, x + 1, y + 1) + RawMineAt(b, beyond, x - 1, y - 1) +
      RawMineAt(b, beyond, x - 1, y + 1) + RawMineAt(b, beyond, x + 1, y - 1)
  }

  /** Inside the array an unchecked read of a grid cell reads that cell. */
  lemma RawReadInGrid(b: Grid, beyond: int -> int, i: int, j: int)
    requires InRange(i, j)
    ensures RawRead(b, beyond, i, j) == b[i][j]
  {
    var f := i * COLS + j;
    assert f / COLS == i && f % COLS == j;
  }

  /** Away from the border every unchecked neighbour read reads the cell it names. */
  lemma InteriorReads(b: Grid, beyond: int -> int, x: int, y: int)
    ensures 1 <= x < ROWS - 1 && 1 <= y < COLS - 1 ==>
      forall i, j :: -1 <= i - x <= 1 && -1 <= j - y <= 1 ==> RawMineAt(b, beyond, i, j) == MineAt(b, i, j)
  {
    if 1 <= x < ROWS - 1 && 1 <= y < COLS - 1 {
      forall i, j | -1 <= i - x <= 1 && -1 <= j - y <= 1
        ensures RawMineAt(b, beyond, i, j) == MineAt(b, i, j)
      {
        RawReadInGrid(b, beyond, i, j);
      }
    }
  }

  /** On the right edge the read one column past the end lands on the first
      cell of the next row: with a single mine at (2, 0), cell (1, 15) has no
      mine around it, yet the unchecked reads count one. */
  lemma EdgeCountWraps(beyond: int -> int)
    ensures var b := Set(Filled(UNOPENED), 2, 0, BOMB);
      CountAsWritten(b, beyond, 1, 15) == 1 && CellCount(b, 1, 15) == 0 && MinesAround(b, 1, 15) == 0
  {
    var b := Set(Filled(UNOPENED), 2, 0, BOMB);
    assert RawRead(b, beyond, 2, 16) == b[3][0];
    assert RawRead(b, beyond, 1, 16) == b[2][0];
    assert RawRead(b, beyond, 0, 16) == b[1][0];
    RawReadInGrid(b, beyond, 2, 15);
    RawReadInGrid(b, beyond, 0, 15);
    RawReadInGrid(b, beyond, 1, 14);
    RawReadInGrid(b, beyond, 2, 14);
    RawReadInGrid(b, beyond, 0, 14);
    MinesAroundBySum(b, 1, 15);
  }
}
