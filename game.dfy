/**
 * The puzzle engine as the page keeps it: a 3x3 board array and the `turns`
 * counter, rebuilt by `createBoard` and updated in place by clicks.
 */
module Game {

  import opened Shuffle
  import opened Board

  class Puzzle {
    /** `boardState`, cell (r, c) at `board[r, c]`. */
    var board: array2<string>
    /** The number of accepted moves since the last new game. */
    var turns: nat

    ghost predicate Shaped()
      reads this
    {
      board.Length0 == Rows && board.Length1 == Cols
    }

    /** The board as a grid value. */
    ghost function Cells(): (g: Grid)
      reads this, board
      requires Shaped()
      ensures WellShaped(g)
      ensures forall r, c :: InRange(r, c) ==> g[r][c] == board[r, c]
    {
      [[board[0, 0], board[0, 1], board[0, 2]],
       [board[1, 0], board[1, 1], board[1, 2]],
       [board[2, 0], board[2, 1], board[2, 2]]]
    }

    /** The board invariant: one empty cell, the eight labels once each. */
    ghost predicate Valid()
      reads this, board
    {
      Shaped() && ValidGrid(Cells())
    }

    /** Page load: the first `createBoard`. */
    constructor (js: seq<nat>)
      requires ValidChoices(js, |Labels|)
      ensures Valid() && turns == 0
      ensures Cells() == Layout(FisherYates(Labels, js, |Labels| - 1) + [EmptyTile])
    {
      board := new string[Rows, Cols];
      turns := 0;
      new;
      NewGame(js);
    }

    /**
     * `createBoard`: shuffles the eight labels with the draws `js`, appends
     * the empty tile, lays the result out row-major on a new board and resets
     * `turns`.
     */
    method NewGame(js: seq<nat>)
      requires ValidChoices(js, |Labels|)
      modifies this
      ensures fresh(board) && Valid() && turns == 0
      ensures Cells() == Layout(FisherYates(Labels, js, |Labels| - 1) + [EmptyTile])
      ensures FindEmpty(Cells()) == Some(Pos(2, 2))
    {
      var shuffled := new string[|Labels|](i requires 0 <= i < |Labels| => Tiles[i]);
      assert shuffled[..] == Labels;
      shuffled := ShuffleArray(shuffled, js);
      FisherYatesPermutes(Labels, js, |Labels| - 1);
      Install(shuffled[..]);
    }

    method Install(t: seq<string>)
      requires multiset(t) == multiset(Labels)
      modifies this
      ensures fresh(board) && Valid() && turns == 0
      ensures Cells() == Layout(t + [EmptyTile])
      ensures FindEmpty(Cells()) == Some(Pos(2, 2))
    {
      NewBoardValid(t);
      NewBoardEmptyCorner(t);
      LayOut(t + [EmptyTile]);
      turns := 0;
    }

    /** The nested loop of `createBoard`: a new board with `t[Index(r, c)]` at (r, c). */
    method LayOut(t: seq<string>)
      requires |t| == Rows * Cols
      modifies this`board
      ensures fresh(board) && Shaped() && Cells() == Layout(t)
    {
      var b := new string[Rows, Cols];
      for r := 0 to Rows
        invariant forall r', c' :: 0 <= r' < r && 0 <= c' < Cols ==> b[r', c'] == t[Index(r', c')]
      {
        for c := 0 to Cols
          invariant forall r', c' :: InRange(r', c') && Before(r', c', r, c) ==> b[r', c'] == t[Index(r', c')]
        {
          b[r, c] := t[Index(r, c)];
        }
      }
      board := b;
      GridExtensionality(Cells(), Layout(t));
    }

    /** `findEmptyTile`: the row-major scan for the empty cell. */
    method FindEmptyTile() returns (p: Option<Pos>)
      requires Shaped()
      ensures p == FindEmpty(Cells())
    {
      for r := 0 to Rows
        invariant forall r', c' :: EmptyAt(Cells(), r', c') ==> !Before(r', c', r, 0)
      {
        for c := 0 to Cols
          invariant forall r', c' :: EmptyAt(Cells(), r', c') ==> !Before(r', c', r, c)
        {
          if board[r, c] == EmptyTile {
            assert FirstEmpty(Cells(), Pos(r, c));
            FirstEmptyUnique(Cells(), Pos(r, c), FindEmpty(Cells()).value);
            return Some(Pos(r, c));
          }
        }
      }
      return None;
    }

    /**
     * `checkWin`: compares the board with the goal cell by cell and reports
     * whether they agree everywhere.
     */
    method CheckWin() returns (won: bool)
      requires Shaped()
      ensures won <==> Cells() == Goal
      ensures won <==> forall r, c :: InRange(r, c) ==> board[r, c] == Goal[r][c]
    {
      for r := 0 to Rows
        invariant forall r', c' :: 0 <= r' < r && 0 <= c' < Cols ==> board[r', c'] == Goal[r'][c']
      {
        for c := 0 to Cols
          invariant forall r', c' :: InRange(r', c') && Before(r', c', r, c) ==> board[r', c'] == Goal[r'][c']
        {
          if board[r, c] != Goal[r][c] {
            return false;
          }
        }
      }
      GridExtensionality(Cells(), Goal);
      return true;
    }

    /**
     * The board update of `tileClickHandler`: the label at (row, col) goes to
     * (er, ec) and (row, col) becomes empty.
     */
    method Slide(er: nat, ec: nat, row: nat, col: nat)
      requires Shaped() && InRange(er, ec) && InRange(row, col)
      modifies board
      ensures Cells() == Set(Set(old(Cells()), er, ec, old(board[row, col])), row, col, EmptyTile)
    {
      Put(er, ec, board[row, col]);
      Put(row, col, EmptyTile);
    }

    /** One cell assignment `boardState[r][c] = v`. */
    method Put(r: nat, c: nat, v: string)
      requires Shaped() && InRange(r, c)
      modifies board
      ensures Cells() == Set(old(Cells()), r, c, v)
    {
      ghost var after := Set(Cells(), r, c, v);
      board[r, c] := v;
      GridExtensionality(Cells(), after);
    }

    /**
     * `tileClickHandler` for the tile at (row, col): when it is next to the
     * empty cell, moves it there, counts the turn and checks for a win.
     */
    method TileClick(row: nat, col: nat) returns (moved: bool, won: bool)
      requires Valid() && InRange(row, col)
      modifies this`turns, board
      ensures Valid()
      ensures FindEmpty(old(Cells())).Some?
      ensures moved == Legal(old(Cells()), row, col)
      ensures State(Cells(), turns) == Click(State(old(Cells()), old(turns)), row, col)
      ensures won <==> moved && Cells() == Goal
    {
      ghost var s := State(Cells(), turns);
      var emptyPos := FindEmptyTile();
      assert emptyPos.Some? by {
        ValidGridHasOneEmpty(s.grid);
      }
      var e := emptyPos.value;
      if Adjacent(row, col, e.row, e.col) {
        assert s.grid[row][col] == board[row, col];
        Slide(e.row, e.col, row, col);
        turns := turns + 1;
        assert State(Cells(), turns) == Click(s, row, col);
        assert ValidGrid(Cells()) by {
          ClickPreservesValid(s, row, col);
        }
        moved := true;
        won := CheckWin();
      } else {
        moved, won := false, false;
      }
    }
  }
}
