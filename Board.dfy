/** The 16x16 board of the game: its constants, grids of cell codes, and
    counting the cells of a grid that satisfy a predicate. */
module Board {

  const SQUARE_SIZE: int := 32
  const ROWS: int := 16
  const COLS: int := 16
  const MAX_BOMBS: int := 20

  // Cell codes. `board` holds UNOPENED, OPENED or FLAG; the mine map holds
  // UNOPENED or BOMB; the neighbour counts start at UNOPENED (zero).
  const UNOPENED: int := 0
  const OPENED: int := 1
  const FLAG: int := 69
  const BOMB: int := 420

  /** One of the game's ROWS x COLS integer arrays, as a value. */
  type Grid = g: seq<seq<int>> | |g| == ROWS && forall i | 0 <= i < |g| :: |g[i]| == COLS
    witness seq(16, i => seq(16, j => 0))

  predicate InRange(x: int, y: int) {
    0 <= x < ROWS && 0 <= y < COLS
  }

  /** The grid with cell (x, y) replaced by v. */
  function Set(g: Grid, x: int, y: int, v: int): (r: Grid)
    requires InRange(x, y)
    ensures r[x][y] == v
    ensures forall i, j {:trigger r[i][j]} :: InRange(i, j) && (i != x || j != y) ==> r[i][j] == g[i][j]
  {
    g[x := g[x][y := v]]
  }

  /** The grid whose every cell holds v. */
  function Filled(v: int): (r: Grid)
    ensures forall i, j :: InRange(i, j) ==> r[i][j] == v
  {
    seq(ROWS, i => seq(COLS, j => v))
  }

  /** Two grids that agree on every cell are equal. */
  lemma GridExt(g: Grid, h: Grid)
    requires forall i, j :: InRange(i, j) ==> g[i][j] == h[i][j]
    ensures g == h
  {
    forall i | 0 <= i < ROWS
      ensures g[i] == h[i]
    {
      assert forall j | 0 <= j < COLS :: g[i][j] == h[i][j];
    }
  }

  function Ind(b: bool): nat {
    if b then 1 else 0
  }

  // ---------------------------------------------------------------------
  // Counting cells

  /** The grid of truth values of p, one per cell. */
  function Marks(p: (int, int) -> bool): (s: seq<seq<bool>>)
    ensures |s| == ROWS && forall i | 0 <= i < ROWS :: |s[i]| == COLS
    ensures forall i, j :: InRange(i, j) ==> s[i][j] == p(i, j)
  {
    seq(ROWS, i => MarkRow(p, i))
  }

  /** Row i of Marks(p). */
  function MarkRow(p: (int, int) -> bool, i: int): (s: seq<bool>)
    ensures |s| == COLS && forall j | 0 <= j < COLS :: s[j] == p(i, j)
  {
    seq(COLS, j => p(i, j))
  }

  /** The number of true entries of a row. */
  function Trues(row: seq<bool>): nat {
    if row == [] then 0 else Trues(row[..|row| - 1]) + Ind(row[|row| - 1])
  }

  /** The number of true entries of a grid of truth values. */
  function Total(rows: seq<seq<bool>>): nat {
    if rows == [] then 0 else Total(rows[..|rows| - 1]) + Trues(rows[|rows| - 1])
  }

  /** The number of cells of the grid for which p holds. */
  function CountCells(p: (int, int) -> bool): nat {
    Total(Marks(p))
  }

  /** Predicates that agree on the grid count the same cells. */
  lemma CountAgree(p: (int, int) -> bool, q: (int, int) -> bool)
    requires forall i, j :: InRange(i, j) ==> p(i, j) == q(i, j)
    ensures CountCells(p) == CountCells(q)
  {
    forall i | 0 <= i < ROWS
      ensures Marks(p)[i] == Marks(q)[i]
    {
      assert forall j | 0 <= j < COLS :: Marks(p)[i][j] == Marks(q)[i][j];
    }
    assert Marks(p) == Marks(q);
  }

  lemma {:induction false} TruesUpdate(row: seq<bool>, y: int, b: bool)
    requires 0 <= y < |row|
    ensures Trues(row[y := b]) + Ind(row[y]) == Trues(row) + Ind(b)
    decreases |row|
  {
    var n := |row| - 1;
    assert row[y := b][..n] == if y == n then row[..n] else row[..n][y := b];
    if y < n {
      TruesUpdate(row[..n], y, b);
    }
  }

  lemma {:induction false} TotalUpdate(rows: seq<seq<bool>>, x: int, y: int, b: bool)
    requires 0 <= x < |rows| && 0 <= y < |rows[x]|
    ensures Total(rows[x := rows[x][y := b]]) + Ind(rows[x][y]) == Total(rows) + Ind(b)
    decreases |rows|
  {
    var n := |rows| - 1;
    var updated := rows[x := rows[x][y := b]];
    if x == n {
      assert updated[..n] == rows[..n];
      TruesUpdate(rows[x], y, b);
    } else {
      assert updated[..n] == rows[..n][x := rows[..n][x][y := b]];
      TotalUpdate(rows[..n], x, y, b);
    }
  }

  /** Changing whether one cell satisfies the predicate changes the count by exactly that cell. */
  lemma CountPointChange(p: (int, int) -> bool, q: (int, int) -> bool, x: int, y: int)
    requires InRange(x, y)
    requires forall i, j :: InRange(i, j) && (i != x || j != y) ==> p(i, j) == q(i, j)
    ensures CountCells(p) + Ind(q(x, y)) == CountCells(q) + Ind(p(x, y))
  {
    var m := Marks(p);
    var updated := m[x := m[x][y := q(x, y)]];
    forall i | 0 <= i < ROWS
      ensures updated[i] == Marks(q)[i]
    {
      assert forall j | 0 <= j < COLS :: updated[i][j] == Marks(q)[i][j];
    }
    assert updated == Marks(q);
    TotalUpdate(m, x, y, q(x, y));
  }

  lemma {:induction false} TruesSum(r: seq<bool>, s: seq<bool>, t: seq<bool>)
    requires |r| == |s| == |t|
    requires forall j | 0 <= j < |r| :: Ind(r[j]) == Ind(s[j]) + Ind(t[j])
    ensures Trues(r) == Trues(s) + Trues(t)
    decreases |r|
  {
    if r != [] {
      var n := |r| - 1;
      TruesSum(r[..n], s[..n], t[..n]);
    }
  }

  lemma {:induction false} TotalSum(r: seq<seq<bool>>, s: seq<seq<bool>>, t: seq<seq<bool>>)
    requires |r| == |s| == |t|
    requires forall i | 0 <= i < |r| :: |r[i]| == |s[i]| == |t[i]|
    requires forall i, j | 0 <= i < |r| && 0 <= j < |r[i]| :: Ind(r[i][j]) == Ind(s[i][j]) + Ind(t[i][j])
    ensures Total(r) == Total(s) + Total(t)
    decreases |r|
  {
    if r != [] {
      var n := |r| - 1;
      TotalSum(r[..n], s[..n], t[..n]);
      TruesSum(r[n], s[n], t[n]);
    }
  }

  /** If p holds exactly where one of two disjoint predicates holds, its count is their sum. */
  lemma CountSum(p: (int, int) -> bool, q: (int, int) -> bool, r: (int, int) -> bool)
    requires forall i, j :: InRange(i, j) ==> Ind(p(i, j)) == Ind(q(i, j)) + Ind(r(i, j))
    ensures CountCells(p) == CountCells(q) + CountCells(r)
  {
    TotalSum(Marks(p), Marks(q), Marks(r));
  }

  lemma {:induction false} TruesFull(row: seq<bool>)
    requires forall j | 0 <= j < |row| :: row[j]
    ensures Trues(row) == |row|
    decreases |row|
  {
    if row != [] {
      TruesFull(row[..|row| - 1]);
    }
  }

  lemma {:induction false} TotalFull(rows: seq<seq<bool>>)
    requires forall i | 0 <= i < |rows| :: |rows[i]| == COLS
    requires forall i, j | 0 <= i < |rows| && 0 <= j < |rows[i]| :: rows[i][j]
    ensures Total(rows) == |rows| * COLS
    decreases |rows|
  {
    if rows != [] {
      var n := |rows| - 1;
      TotalFull(rows[..n]);
      TruesFull(rows[n]);
    }
  }

  /** A predicate that holds on the whole grid counts all ROWS * COLS cells. */
  lemma CountFull(p: (int, int) -> bool)
    requires forall i, j :: InRange(i, j) ==> p(i, j)
    ensures CountCells(p) == ROWS * COLS
  {
    TotalFull(Marks(p));
  }

  /** The count is zero exactly when the predicate holds nowhere on the grid. */
  lemma CountZero(p: (int, int) -> bool)
    ensures CountCells(p) == 0 <==> forall i, j :: InRange(i, j) ==> !p(i, j)
  {
    if forall i, j :: InRange(i, j) ==> !p(i, j) {
      // p counts as much as itself twice over
      CountSum(p, p, p);
    } else {
      var x, y :| InRange(x, y) && p(x, y);
      CountPointChange(p, Without(p, x, y), x, y);
    }
  }

  /** p with the cell (a, b) taken out. */
  function Without(p: (int, int) -> bool, a: int, b: int): (int, int) -> bool {
    (i: int, j: int) => p(i, j) && (i != a || j != b)
  }

  /** Taking one cell out of a predicate takes it out of the count. */
  lemma CountWithout(p: (int, int) -> bool, a: int, b: int)
    ensures CountCells(p) == CountCells(Without(p, a, b)) + Ind(InRange(a, b) && p(a, b))
  {
    if InRange(a, b) {
      CountPointChange(p, Without(p, a, b), a, b);
    } else {
      CountAgree(p, Without(p, a, b));
    }
  }

  /** The number of the listed cells for which p holds. */
  function SumAt(p: (int, int) -> bool, cells: seq<(int, int)>): nat {
    if cells == [] then 0 else Ind(p(cells[0].0, cells[0].1)) + SumAt(p, cells[1..])
  }

  lemma {:induction false} SumAtAgree(p: (int, int) -> bool, q: (int, int) -> bool, cells: seq<(int, int)>)
    requires forall k | 0 <= k < |cells| :: p(cells[k].0, cells[k].1) == q(cells[k].0, cells[k].1)
    ensures SumAt(p, cells) == SumAt(q, cells)
    decreases |cells|
  {
    if cells != [] {
      SumAtAgree(p, q, cells[1..]);
    }
  }

  /** A predicate that can only hold at distinct listed cells of the grid counts as the list says. */
  lemma {:induction false} CountByCells(p: (int, int) -> bool, cells: seq<(int, int)>)
    requires forall i, j :: p(i, j) ==> InRange(i, j) && (i, j) in cells
    requires forall a, b | 0 <= a < b < |cells| :: cells[a] != cells[b]
    ensures CountCells(p) == SumAt(p, cells)
    decreases |cells|
  {
    if cells == [] {
      CountZero(p);
    } else {
      var c := cells[0];
      var q := Without(p, c.0, c.1);
      CountWithout(p, c.0, c.1);
      assert forall i, j :: q(i, j) ==> (i, j) in cells[1..] by {
        forall i, j | q(i, j)
          ensures (i, j) in cells[1..]
        {
          var k :| 0 <= k < |cells| && cells[k] == (i, j);
          assert k != 0;
          assert cells[1..][k - 1] == (i, j);
        }
      }
      CountByCells(q, cells[1..]);
      forall k | 0 <= k < |cells[1..]|
        ensures q(cells[1..][k].0, cells[1..][k].1) == p(cells[1..][k].0, cells[1..][k].1)
      {
        assert cells[1..][k] == cells[k + 1] != cells[0];
      }
      SumAtAgree(q, p, cells[1..]);
    }
  }

  // ---------------------------------------------------------------------
  // Counting cells by their contents

  /** The number of positions j at which f holds of r[j] and s[j]. */
  function RowMatches(r: seq<int>, s: seq<int>, f: (int, int) -> bool): nat
    requires |r| == |s|
  {
    if r == [] then 0 else RowMatches(r[..|r| - 1], s[..|s| - 1], f) + Ind(f(r[|r| - 1], s[|s| - 1]))
  }

  /** The number of cells (i, j) at which f holds of g[i][j] and h[i][j]. */
  function Matches(g: seq<seq<int>>, h: seq<seq<int>>, f: (int, int) -> bool): nat
    requires |g| == |h| && forall i | 0 <= i < |g| :: |g[i]| == |h[i]|
  {
    if g == [] then 0 else Matches(g[..|g| - 1], h[..|h| - 1], f) + RowMatches(g[|g| - 1], h[|h| - 1], f)
  }

  lemma {:induction false} RowMatchesUpdate(r: seq<int>, s: seq<int>, f: (int, int) -> bool, y: int, a: int, b: int)
    requires |r| == |s| && 0 <= y < |r|
    ensures RowMatches(r[y := a], s[y := b], f) + Ind(f(r[y], s[y])) == RowMatches(r, s, f) + Ind(f(a, b))
    decreases |r|
  {
    var n := |r| - 1;
    if y < n {
      assert r[y := a][..n] == r[..n][y := a];
      assert s[y := b][..n] == s[..n][y := b];
      RowMatchesUpdate(r[..n], s[..n], f, y, a, b);
    } else {
      assert r[y := a][..n] == r[..n];
      assert s[y := b][..n] == s[..n];
    }
  }

  lemma {:induction false} MatchesUpdate(g: seq<seq<int>>, h: seq<seq<int>>, f: (int, int) -> bool, x: int, y: int, a: int, b: int)
    requires |g| == |h| && forall i | 0 <= i < |g| :: |g[i]| == |h[i]|
    requires 0 <= x < |g| && 0 <= y < |g[x]|
    ensures Matches(g[x := g[x][y := a]], h[x := h[x][y := b]], f) + Ind(f(g[x][y], h[x][y]))
         == Matches(g, h, f) + Ind(f(a, b))
    decreases |g|
  {
    var n := |g| - 1;
    var g1, h1 := g[x := g[x][y := a]], h[x := h[x][y := b]];
    if x < n {
      assert g1[..n] == g[..n][x := g[..n][x][y := a]];
      assert h1[..n] == h[..n][x := h[..n][x][y := b]];
      MatchesUpdate(g[..n], h[..n], f, x, y, a, b);
    } else {
      assert g1[..n] == g[..n];
      assert h1[..n] == h[..n];
      RowMatchesUpdate(g[x], h[x], f, y, a, b);
    }
  }

  /** Writing one cell of g changes the number of matches by that cell alone. */
  lemma MatchesSet(g: Grid, h: Grid, f: (int, int) -> bool, x: int, y: int, v: int)
    requires InRange(x, y)
    ensures Matches(Set(g, x, y, v), h, f) + Ind(f(g[x][y], h[x][y])) == Matches(g, h, f) + Ind(f(v, h[x][y]))
  {
    assert h[x][y := h[x][y]] == h[x];
    assert h[x := h[x][y := h[x][y]]] == h;
    MatchesUpdate(g, h, f, x, y, v, h[x][y]);
  }

  /** The cells of the grid at which f holds of the contents of g and h. */
  function Cells(g: Grid, h: Grid, f: (int, int) -> bool): (int, int) -> bool {
    (i: int, j: int) => InRange(i, j) && f(g[i][j], h[i][j])
  }

  lemma {:induction false} RowMatchesTrues(bs: seq<bool>, r: seq<int>, s: seq<int>, f: (int, int) -> bool)
    requires |bs| == |r| == |s|
    requires forall j | 0 <= j < |bs| :: bs[j] == f(r[j], s[j])
    ensures Trues(bs) == RowMatches(r, s, f)
    decreases |bs|
  {
    if bs != [] {
      var n := |bs| - 1;
      RowMatchesTrues(bs[..n], r[..n], s[..n], f);
    }
  }

  lemma {:induction false} MatchesTotal(m: seq<seq<bool>>, g: seq<seq<int>>, h: seq<seq<int>>, f: (int, int) -> bool)
    requires |m| == |g| == |h| && forall i | 0 <= i < |g| :: |m[i]| == |g[i]| == |h[i]|
    requires forall i, j | 0 <= i < |m| && 0 <= j < |m[i]| :: m[i][j] == f(g[i][j], h[i][j])
    ensures Total(m) == Matches(g, h, f)
    decreases |m|
  {
    if m != [] {
      var n := |m| - 1;
      MatchesTotal(m[..n], g[..n], h[..n], f);
      RowMatchesTrues(m[n], g[n], h[n], f);
    }
  }

  /** Counting matches by contents agrees with counting the matching cells. */
  lemma MatchesCells(g: Grid, h: Grid, f: (int, int) -> bool)
    ensures Matches(g, h, f) == CountCells(Cells(g, h, f))
  {
    MatchesTotal(Marks(Cells(g, h, f)), g, h, f);
  }

  // ---------------------------------------------------------------------
  // Cells holding a given code

  /** The test "the first value is v". */
  function Is(v: int): (int, int) -> bool {
    (a: int, b: int) => a == v
  }

  /** The number of cells of g that hold v. */
  function Tally(g: Grid, v: int): nat {
    Matches(g, g, Is(v))
  }

  /** The cells of g that hold v. */
  function Holds(g: Grid, v: int): (int, int) -> bool {
    Cells(g, g, Is(v))
  }

  /** The tally of v is the number of cells holding v. */
  lemma TallyCells(g: Grid, v: int)
    ensures Tally(g, v) == CountCells(Holds(g, v))
  {
    MatchesCells(g, g, Is(v));
  }

  /** Writing one cell moves the tally of a code by that cell alone. */
  lemma TallySet(g: Grid, x: int, y: int, v: int, w: int)
    requires InRange(x, y)
    ensures Tally(Set(g, x, y, v), w) + Ind(g[x][y] == w) == Tally(g, w) + Ind(v == w)
  {
    MatchesUpdate(g, g, Is(w), x, y, v, v);
  }

  /** A grid filled with v holds v in all ROWS * COLS cells and nothing else. */
  lemma TallyFilled(v: int, w: int)
    ensures Tally(Filled(v), w) == if v == w then ROWS * COLS else 0
  {
    TallyCells(Filled(v), w);
    if v == w {
      CountFull(Holds(Filled(v), w));
    } else {
      CountZero(Holds(Filled(v), w));
    }
  }
}
