/**
 * The 3x3 board of the sliding puzzle as a value: the labels, the goal, the
 * row-major scan for the empty cell and the effect of a click on a tile.
 */
module Board {

  import opened Shuffle

  const Rows: nat := 3
  const Cols: nat := 3

  /** The label of the empty cell. */
  const EmptyTile: string := "3"

  /** The eight labels of the movable tiles, in the order the board lists them. */
  const Labels: seq<string> := ["1", "2", "4", "5", "6", "7", "8", "9"]

  /** The full list of tile numbers: the eight labels, then the empty tile. */
  const Tiles: seq<string> := Labels + [EmptyTile]

  /** The solved arrangement (`winState`). */
  const Goal: seq<seq<string>> := [["1", "2", "4"], ["5", "6", "7"], ["8", "9", EmptyTile]]

  /** `boardState`: rows of cells, each cell holding a label. */
  type Grid = seq<seq<string>>

  datatype Pos = Pos(row: nat, col: nat)

  datatype Option<T> = None | Some(value: T)

  predicate InRange(row: int, col: int) {
    0 <= row < Rows && 0 <= col < Cols
  }

  predicate WellShaped(g: Grid) {
    |g| == Rows && forall r :: 0 <= r < |g| ==> |g[r]| == Cols
  }

  /** Position (r, c) comes strictly before (r', c') in row-major order. */
  predicate Before(r: int, c: int, r': int, c': int) {
    r < r' || (r == r' && c < c')
  }

  predicate EmptyAt(g: Grid, r: int, c: int) {
    InRange(r, c) && r < |g| && c < |g[r]| && g[r][c] == EmptyTile
  }

  /** `p` is the first empty cell of `g` in row-major order. */
  ghost predicate FirstEmpty(g: Grid, p: Pos) {
    EmptyAt(g, p.row, p.col) &&
    forall r, c :: EmptyAt(g, r, c) ==> !Before(r, c, p.row, p.col)
  }

  // ---------------------------------------------------------------------------
  // Row-major layout

  /** The row-major index of cell (r, c). */
  function Index(r: int, c: int): int {
    r * Cols + c
  }

  /** The cells of `g` in row-major order. */
  function Flatten(g: Grid): (s: seq<string>)
    requires WellShaped(g)
    ensures |s| == Rows * Cols
    ensures forall r, c :: InRange(r, c) ==> s[Index(r, c)] == g[r][c]
  {
    g[0] + g[1] + g[2]
  }

  /** Lays out nine labels row-major: cell (r, c) gets `t[r * Cols + c]`. */
  function Layout(t: seq<string>): (g: Grid)
    requires |t| == Rows * Cols
    ensures WellShaped(g)
    ensures forall r, c :: InRange(r, c) ==> g[r][c] == t[Index(r, c)]
  {
    [t[0..3], t[3..6], t[6..9]]
  }

  lemma FlattenLayout(t: seq<string>)
    requires |t| == Rows * Cols
    ensures Flatten(Layout(t)) == t
  {
    assert t == t[0..3] + t[3..6] + t[6..9];
  }

  lemma LayoutFlatten(g: Grid)
    requires WellShaped(g)
    ensures Layout(Flatten(g)) == g
  {
    var t := Flatten(g);
    assert t[0..3] == g[0] && t[3..6] == g[1] && t[6..9] == g[2];
  }

  // ---------------------------------------------------------------------------
  // The board invariant

  /**
   * The board invariant: a 3x3 grid whose cells hold the eight labels once
   * each and the empty tile once (each value occurs as often as in `Tiles`).
   */
  ghost predicate ValidGrid(g: Grid) {
    WellShaped(g) && forall x :: multiset(Flatten(g))[x] == multiset(Tiles)[x]
  }

  /** A value at two distinct indices of `s` occurs at least twice in it. */
  lemma TwoOccurrences(s: seq<string>, i: int, j: int)
    requires 0 <= i < j < |s| && s[i] == s[j]
    ensures multiset(s)[s[i]] >= 2
  {
    assert s == s[..j] + s[j..];
    assert s[..j][i] == s[i];
    assert s[j..][0] == s[i];
  }

  /** A value that occurs at most once in `s` sits at one index only. */
  lemma AtMostOnce(s: seq<string>, x: string, i: int, j: int)
    requires multiset(s)[x] <= 1
    requires 0 <= i < |s| && 0 <= j < |s| && s[i] == x && s[j] == x
    ensures i == j
  {
    if i < j {
      TwoOccurrences(s, i, j);
    } else if j < i {
      TwoOccurrences(s, j, i);
    }
  }

  /** Two first empty cells are the same cell. */
  lemma FirstEmptyUnique(g: Grid, p: Pos, q: Pos)
    requires FirstEmpty(g, p) && FirstEmpty(g, q)
    ensures p == q
  {
  }

  /** The cell whose row-major index is `k`. */
  function CellOf(k: int): (p: Pos)
    requires 0 <= k < Rows * Cols
    ensures InRange(p.row, p.col) && Index(p.row, p.col) == k
  {
    if k < 3 then Pos(0, k) else if k < 6 then Pos(1, k - 3) else Pos(2, k - 6)
  }

  /** Distinct cells have distinct row-major indices. */
  lemma IndexInjective(r: int, c: int, r': int, c': int)
    requires InRange(r, c) && InRange(r', c') && Index(r, c) == Index(r', c')
    ensures r == r' && c == c'
  {
  }

  /** How often the empty tile and the labels occur among the tiles. */
  lemma TilesCount()
    ensures multiset(Tiles)[EmptyTile] == 1
    ensures EmptyTile !in multiset(Labels)
    ensures multiset(Tiles) == multiset(Labels) + multiset{EmptyTile}
  {
  }

  /** On a valid board the scan finds an empty cell, and it is the only one. */
  lemma ValidGridHasOneEmpty(g: Grid)
    requires ValidGrid(g)
    ensures FindEmpty(g).Some?
    ensures forall r, c :: EmptyAt(g, r, c) ==> Pos(r, c) == FindEmpty(g).value
  {
    var s := Flatten(g);
    TilesCount();
    assert EmptyTile in multiset(s);
    var k :| 0 <= k < |s| && s[k] == EmptyTile;
    var p := CellOf(k);
    assert EmptyAt(g, p.row, p.col);
    var e := FindEmpty(g).value;
    forall r, c | EmptyAt(g, r, c)
      ensures Pos(r, c) == e
    {
      AtMostOnce(s, EmptyTile, Index(r, c), Index(e.row, e.col));
      IndexInjective(r, c, e.row, e.col);
    }
  }

  /** The cells of a valid board other than the empty one hold the eight labels once each. */
  lemma ValidGridLabels(g: Grid)
    requires ValidGrid(g)
    ensures multiset(Flatten(g)) - multiset{EmptyTile} == multiset(Labels)
  {
    TilesCount();
    assert multiset(Flatten(g)) == multiset(Tiles);
  }

  // ---------------------------------------------------------------------------
  // Finding the empty cell

  /** The scan of `findEmptyTile`, resumed at cell (r, c). */
  function FindFrom(g: Grid, r: nat, c: nat): (p: Option<Pos>)
    requires WellShaped(g) && r <= Rows && c <= Cols
    ensures p.Some? ==>
      EmptyAt(g, p.value.row, p.value.col) && !Before(p.value.row, p.value.col, r, c) &&
      forall r', c' :: EmptyAt(g, r', c') && !Before(r', c', r, c) ==> !Before(r', c', p.value.row, p.value.col)
    ensures p.None? ==> forall r', c' :: EmptyAt(g, r', c') ==> Before(r', c', r, c)
    decreases Rows - r, Cols - c
  {
    if r == Rows then None
    else if c == Cols then FindFrom(g, r + 1, 0)
    else if g[r][c] == EmptyTile then Some(Pos(r, c))
    else FindFrom(g, r, c + 1)
  }

  /**
   * `findEmptyTile`: the first empty cell in row-major order, or `None` when
   * no cell is empty.
   */
  function FindEmpty(g: Grid): (p: Option<Pos>)
    requires WellShaped(g)
    ensures p.Some? ==> FirstEmpty(g, p.value)
    ensures p.None? ==> forall r, c :: !EmptyAt(g, r, c)
  {
    FindFrom(g, 0, 0)
  }

  // ---------------------------------------------------------------------------
  // Moves

  function Abs(x: int): nat {
    if x < 0 then -x else x
  }

  function Manhattan(r: nat, c: nat, r': nat, c': nat): nat {
    Abs(r - r') + Abs(c - c')
  }

  /** The test of `tileClickHandler` on the row and column differences. */
  predicate Adjacent(row: nat, col: nat, er: nat, ec: nat) {
    var rowDiff := Abs(row - er);
    var colDiff := Abs(col - ec);
    (rowDiff == 1 && colDiff == 0) || (rowDiff == 0 && colDiff == 1)
  }

  /** A click on (row, col) moves a tile. */
  predicate Legal(g: Grid, row: nat, col: nat)
    requires WellShaped(g) && FindEmpty(g).Some?
  {
    Adjacent(row, col, FindEmpty(g).value.row, FindEmpty(g).value.col)
  }

  /** `g` with cell (r, c) set to `v`. */
  function Set(g: Grid, r: nat, c: nat, v: string): Grid
    requires WellShaped(g) && InRange(r, c)
  {
    g[r := g[r][c := v]]
  }

  /** The game state: the board and the move counter `turns`. */
  datatype State = State(grid: Grid, turns: nat)

  /**
   * A click on the tile at (row, col): when it is next to the empty cell, its
   * label goes to the empty cell, (row, col) becomes empty and `turns` goes up
   * by one; otherwise nothing changes.
   */
  function Click(s: State, row: nat, col: nat): State
    requires WellShaped(s.grid) && InRange(row, col) && FindEmpty(s.grid).Some?
  {
    var e := FindEmpty(s.grid).value;
    if Adjacent(row, col, e.row, e.col) then
      var g := Set(s.grid, e.row, e.col, s.grid[row][col]);
      State(Set(g, row, col, EmptyTile), s.turns + 1)
    else
      s
  }

  /** A click is legal exactly when the tile is at Manhattan distance 1 from the empty cell. */
  lemma LegalIffManhattan(g: Grid, row: nat, col: nat)
    requires WellShaped(g) && FindEmpty(g).Some?
    ensures var e := FindEmpty(g).value;
      Legal(g, row, col) <==> Manhattan(row, col, e.row, e.col) == 1
    ensures var e := FindEmpty(g).value;
      Legal(g, row, col) ==> (row, col) != (e.row, e.col) && (row == e.row || col == e.col)
  {
  }

  /** An accepted click: the two cells trade places, nothing else changes, `turns` goes up by one. */
  lemma AcceptedClick(s: State, row: nat, col: nat)
    requires WellShaped(s.grid) && InRange(row, col) && FindEmpty(s.grid).Some?
    requires Legal(s.grid, row, col)
    ensures var e := FindEmpty(s.grid).value; var t := Click(s, row, col);
      WellShaped(t.grid) && t.turns == s.turns + 1 &&
      t.grid[e.row][e.col] == s.grid[row][col] && t.grid[row][col] == EmptyTile &&
      forall r, c :: InRange(r, c) && Pos(r, c) != e && Pos(r, c) != Pos(row, col) ==> t.grid[r][c] == s.grid[r][c]
  {
  }

  /** A rejected click changes neither the board nor `turns`. */
  lemma RejectedClick(s: State, row: nat, col: nat)
    requires WellShaped(s.grid) && InRange(row, col) && FindEmpty(s.grid).Some?
    requires !Legal(s.grid, row, col)
    ensures Click(s, row, col) == s
  {
  }

  lemma FlattenSet(g: Grid, r: nat, c: nat, v: string)
    requires WellShaped(g) && InRange(r, c)
    ensures WellShaped(Set(g, r, c, v))
    ensures Flatten(Set(g, r, c, v)) == Flatten(g)[Index(r, c) := v]
  {
  }

  /** A click on a valid board leaves it valid. */
  lemma ClickPreservesValid(s: State, row: nat, col: nat)
    requires ValidGrid(s.grid) && InRange(row, col)
    ensures FindEmpty(s.grid).Some?
    ensures ValidGrid(Click(s, row, col).grid)
  {
    ValidGridHasOneEmpty(s.grid);
    var e := FindEmpty(s.grid).value;
    if Adjacent(row, col, e.row, e.col) {
      var f := Flatten(s.grid);
      var i, j := Index(e.row, e.col), Index(row, col);
      var g := Set(s.grid, e.row, e.col, s.grid[row][col]);
      FlattenSet(s.grid, e.row, e.col, s.grid[row][col]);
      FlattenSet(g, row, col, EmptyTile);
      assert f[i] == EmptyTile && f[j] == s.grid[row][col];
      assert Flatten(Click(s, row, col).grid) == f[i := f[j]][j := f[i]];
      SwapPermutes(f, i, j);
    }
  }

  /** Two 3x3 grids that agree on every cell are equal. */
  lemma GridExtensionality(g: Grid, h: Grid)
    requires WellShaped(g) && WellShaped(h)
    requires forall r, c :: InRange(r, c) ==> g[r][c] == h[r][c]
    ensures g == h
  {
    forall r | 0 <= r < Rows
      ensures g[r] == h[r]
    {
      assert forall c :: 0 <= c < Cols ==> g[r][c] == h[r][c];
    }
  }

  /**
   * Clicking the tile that just moved, now in the cell the empty tile left,
   * puts it back: the board is as before and `turns` has gone up by two.
   */
  lemma ClickThenUndo(s: State, row: nat, col: nat)
    requires ValidGrid(s.grid) && FindEmpty(s.grid).Some? && InRange(row, col)
    requires Legal(s.grid, row, col)
    ensures var e := FindEmpty(s.grid).value; var t := Click(s, row, col);
      WellShaped(t.grid) && FindEmpty(t.grid) == Some(Pos(row, col)) &&
      Legal(t.grid, e.row, e.col) && Click(t, e.row, e.col) == State(s.grid, s.turns + 2)
  {
    var e := FindEmpty(s.grid).value;
    var t := Click(s, row, col);
    AcceptedClick(s, row, col);
    EmptyAfterClick(s, row, col);
    var u := Click(t, e.row, e.col);
    AcceptedClick(t, e.row, e.col);
    forall r, c | InRange(r, c)
      ensures u.grid[r][c] == s.grid[r][c]
    {
    }
    GridExtensionality(u.grid, s.grid);
  }

  /** After an accepted click, the scan finds the empty tile where the clicked tile was. */
  lemma EmptyAfterClick(s: State, row: nat, col: nat)
    requires ValidGrid(s.grid) && FindEmpty(s.grid).Some? && InRange(row, col)
    requires Legal(s.grid, row, col)
    ensures ValidGrid(Click(s, row, col).grid)
    ensures FindEmpty(Click(s, row, col).grid) == Some(Pos(row, col))
  {
    var t := Click(s, row, col);
    AcceptedClick(s, row, col);
    ClickPreservesValid(s, row, col);
    ValidGridHasOneEmpty(t.grid);
    assert EmptyAt(t.grid, row, col);
  }

  /**
   * Laying out a permutation of the eight labels followed by the empty tile
   * gives a valid board whose first eight cells, row-major, hold the
   * permutation.
   */
  lemma NewBoardValid(p: seq<string>)
    requires multiset(p) == multiset(Labels)
    ensures |p| == |Labels| && EmptyTile !in p
    ensures var g := Layout(p + [EmptyTile]);
      ValidGrid(g) && Flatten(g)[..8] == p
  {
    assert |multiset(p)| == |p|;
    var t := p + [EmptyTile];
    FlattenLayout(t);
    TilesCount();
    assert multiset(t) == multiset(Tiles);
    assert Flatten(Layout(t))[..8] == p;
  }

  /**
   * Laying out eight non-empty labels followed by the empty tile puts the
   * empty cell at (2, 2), the other cells holding the labels in row-major
   * order.
   */
  lemma NewBoardEmptyCorner(p: seq<string>)
    requires |p| == |Labels| && EmptyTile !in p
    ensures var g := Layout(p + [EmptyTile]);
      FindEmpty(g) == Some(Pos(2, 2)) &&
      forall r, c :: InRange(r, c) && Before(r, c, 2, 2) ==> g[r][c] == p[Index(r, c)]
  {
    var g := Layout(p + [EmptyTile]);
    forall r, c | InRange(r, c) && Before(r, c, 2, 2)
      ensures g[r][c] == p[Index(r, c)] && g[r][c] != EmptyTile
    {
      assert p[Index(r, c)] in p;
    }
    assert FirstEmpty(g, Pos(2, 2));
    FirstEmptyUnique(g, FindEmpty(g).value, Pos(2, 2));
  }

  /** From empty at (0, 0), clicking (0, 1) slides tile 2 left; the board is not solved. */
  lemma ScenarioSlideLeft()
    ensures var s := State([[EmptyTile, "2", "4"], ["1", "5", "7"], ["8", "9", "6"]], 0);
      FindEmpty(s.grid) == Some(Pos(0, 0)) &&
      Click(s, 0, 1) == State([["2", EmptyTile, "4"], ["1", "5", "7"], ["8", "9", "6"]], 1) &&
      Click(s, 0, 1).grid != Goal
  {
    var s := State([[EmptyTile, "2", "4"], ["1", "5", "7"], ["8", "9", "6"]], 0);
    var t := Click(s, 0, 1);
    AcceptedClick(s, 0, 1);
    GridExtensionality(t.grid, [["2", EmptyTile, "4"], ["1", "5", "7"], ["8", "9", "6"]]);
  }

  /** From empty at (2, 1), clicking (2, 2) solves the puzzle. */
  lemma ScenarioSolve()
    ensures var s := State([["1", "2", "4"], ["5", "6", "7"], ["8", EmptyTile, "9"]], 5);
      FindEmpty(s.grid) == Some(Pos(2, 1)) &&
      Click(s, 2, 2) == State(Goal, 6)
  {
    var s := State([["1", "2", "4"], ["5", "6", "7"], ["8", EmptyTile, "9"]], 5);
    var t := Click(s, 2, 2);
    AcceptedClick(s, 2, 2);
    GridExtensionality(t.grid, Goal);
  }
}
