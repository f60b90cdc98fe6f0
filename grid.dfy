/**
 * The value-level picture of a 9x9 Sudoku grid and the rules of the puzzle.
 *
 * A board is a sequence of 9 rows of 9 integers; 0 marks a blank cell and
 * 1..9 a placed digit.  Rows and columns are numbered 0..8, and the box of a
 * cell is found by integer division of both coordinates by 3.  The solver
 * itself works on a mutable `array2<int>`; `View` turns its current contents
 * into a board so that contracts can speak about whole grids.
 */
module Grid {

  type Board = seq<seq<int>>

  /** A board of 9 rows, each of 9 cells. */
  predicate IsGrid(b: Board)
  {
    |b| == 9 && forall x :: 0 <= x < 9 ==> |b[x]| == 9
  }

  /** (x, y) is a cell of the 9x9 grid. */
  predicate IsCell(x: int, y: int)
  {
    0 <= x < 9 && 0 <= y < 9
  }

  /** Every cell holds 0 (blank) or a digit 1..9: the input the solver expects. */
  ghost predicate InRange(b: Board)
    requires IsGrid(b)
  {
    forall x, y :: IsCell(x, y) ==> 0 <= b[x][y] <= 9
  }

  /** No cell is blank. */
  ghost predicate NoBlank(b: Board)
    requires IsGrid(b)
  {
    forall x, y :: IsCell(x, y) ==> b[x][y] != 0
  }

  /** Every cell holds a digit 1..9. */
  ghost predicate Complete(b: Board)
    requires IsGrid(b)
  {
    forall x, y :: IsCell(x, y) ==> 1 <= b[x][y] <= 9
  }

  /** The set of blank cells; it shrinks by one with every placement. */
  function Blanks(b: Board): (s: set<(int, int)>)
    requires IsGrid(b)
  {
    set x, y | 0 <= x < 9 && 0 <= y < 9 && b[x][y] == 0 :: (x, y)
  }

  /** Two cells lie in one row, one column or one 3x3 box (a cell shares all three with itself). */
  predicate SameUnit(x1: int, y1: int, x2: int, y2: int)
  {
    x1 == x2 || y1 == y2 || (x1 / 3 == x2 / 3 && y1 / 3 == y2 / 3)
  }

  /** Two different cells of one unit hold the same digit. */
  ghost predicate Clash(b: Board, x1: int, y1: int, x2: int, y2: int)
    requires IsGrid(b) && IsCell(x1, y1) && IsCell(x2, y2)
  {
    (x1 != x2 || y1 != y2) && SameUnit(x1, y1, x2, y2) && b[x1][y1] != 0 && b[x1][y1] == b[x2][y2]
  }

  /**
   * The rules of Sudoku on a possibly partial board: no row, column or box
   * holds the same non-blank value twice.
   */
  ghost predicate Consistent(b: Board)
    requires IsGrid(b)
  {
    forall x1, y1, x2, y2 :: IsCell(x1, y1) && IsCell(x2, y2) ==> !Clash(b, x1, y1, x2, y2)
  }

  /** c is b with every blank replaced by a digit 1..9 and every other cell kept. */
  ghost predicate Fills(b: Board, c: Board)
    requires IsGrid(b)
  {
    && IsGrid(c)
    && forall x, y :: IsCell(x, y) ==>
         if b[x][y] == 0 then 1 <= c[x][y] <= 9 else c[x][y] == b[x][y]
  }

  /** Some filling of b's blanks obeys the rules of Sudoku. */
  ghost predicate Solvable(b: Board)
    requires IsGrid(b)
  {
    exists c :: Fills(b, c) && Consistent(c)
  }

  /** b with the single cell (i, j) set to v. */
  function Place(b: Board, i: int, j: int, v: int): (r: Board)
    requires IsGrid(b) && IsCell(i, j)
    ensures IsGrid(r)
    ensures forall x, y :: IsCell(x, y) ==> r[x][y] == if x == i && y == j then v else b[x][y]
  {
    b[i := b[i][j := v]]
  }

  /** Row x of the array, from column y on. */
  function RowFrom(g: array2<int>, x: int, y: int): (r: seq<int>)
    reads g
    requires g.Length0 == 9 && g.Length1 == 9 && 0 <= x < 9 && 0 <= y <= 9
    ensures |r| == 9 - y
    ensures forall k :: 0 <= k < 9 - y ==> r[k] == g[x, y + k]
    decreases 9 - y
  {
    if y == 9 then [] else [g[x, y]] + RowFrom(g, x, y + 1)
  }

  /** Rows x and below of the array. */
  function RowsFrom(g: array2<int>, x: int): (b: Board)
    reads g
    requires g.Length0 == 9 && g.Length1 == 9 && 0 <= x <= 9
    ensures |b| == 9 - x
    ensures forall k :: 0 <= k < 9 - x ==> |b[k]| == 9
    ensures forall k, y :: 0 <= k < 9 - x && 0 <= y < 9 ==> b[k][y] == g[x + k, y]
    decreases 9 - x
  {
    if x == 9 then [] else [RowFrom(g, x, 0)] + RowsFrom(g, x + 1)
  }

  /** The current contents of a 9x9 array as a board. */
  function View(g: array2<int>): (b: Board)
    reads g
    requires g.Length0 == 9 && g.Length1 == 9
    ensures IsGrid(b)
    ensures forall x, y :: IsCell(x, y) ==> b[x][y] == g[x, y]
  {
    RowsFrom(g, 0)
  }

  /** An array that agrees with board b except for holding v at (i, j) has b with v placed as its view. */
  lemma ViewOfWrite(g: array2<int>, b: Board, i: int, j: int, v: int)
    requires g.Length0 == 9 && g.Length1 == 9 && IsGrid(b) && IsCell(i, j)
    requires g[i, j] == v
    requires forall x, y :: IsCell(x, y) && (x != i || y != j) ==> g[x, y] == b[x][y]
    ensures View(g) == Place(b, i, j, v)
  {
    BoardsEqual(View(g), Place(b, i, j, v));
  }

  /** Putting a cell's old value back undoes a placement. */
  lemma UndoPlace(b: Board, i: int, j: int, v: int)
    requires IsGrid(b) && IsCell(i, j)
    ensures Place(Place(b, i, j, v), i, j, b[i][j]) == b
  {
    BoardsEqual(Place(Place(b, i, j, v), i, j, b[i][j]), b);
  }

  /** Boards are equal when they agree cell by cell. */
  lemma BoardsEqual(b: Board, c: Board)
    requires IsGrid(b) && IsGrid(c)
    requires forall x, y :: IsCell(x, y) ==> b[x][y] == c[x][y]
    ensures b == c
  {
    forall x | 0 <= x < 9
      ensures b[x] == c[x]
    {
      assert forall y :: 0 <= y < 9 ==> b[x][y] == c[x][y];
    }
  }

  /** A filling of a well-formed puzzle holds a digit in every cell. */
  lemma FillsAreComplete(b: Board, c: Board)
    requires IsGrid(b) && InRange(b) && Fills(b, c)
    ensures Complete(c) && NoBlank(c)
  {
  }

  /** A board without blanks is its own only filling. */
  lemma FullBoardFillsItself(b: Board)
    requires IsGrid(b) && NoBlank(b)
    ensures Blanks(b) == {}
    ensures forall c :: Fills(b, c) <==> c == b
  {
    forall c | Fills(b, c)
      ensures c == b
    {
      BoardsEqual(b, c);
    }
  }

  /**
   * Writing a value into a blank cell of b and then filling the rest is a
   * filling of b, and conversely every filling of b that puts v at (i, j)
   * fills the board with v placed there.
   */
  lemma FillsAfterPlace(b: Board, i: int, j: int, v: int, c: Board)
    requires IsGrid(b) && IsCell(i, j) && b[i][j] == 0 && 1 <= v <= 9
    ensures Fills(Place(b, i, j, v), c) <==> Fills(b, c) && c[i][j] == v
  {
  }

  /** Placing a non-zero value into a blank cell removes exactly that cell from the blanks. */
  lemma PlaceShrinksBlanks(b: Board, i: int, j: int, v: int)
    requires IsGrid(b) && IsCell(i, j) && b[i][j] == 0 && v != 0
    ensures Blanks(Place(b, i, j, v)) == Blanks(b) - {(i, j)}
    ensures Blanks(Place(b, i, j, v)) < Blanks(b)
  {
    var r := Place(b, i, j, v);
    assert (i, j) in Blanks(b);
    forall p | p in Blanks(r)
      ensures p in Blanks(b) - {(i, j)}
    {
      var x, y :| 0 <= x < 9 && 0 <= y < 9 && r[x][y] == 0 && p == (x, y);
    }
    forall p | p in Blanks(b) - {(i, j)}
      ensures p in Blanks(r)
    {
      var x, y :| 0 <= x < 9 && 0 <= y < 9 && b[x][y] == 0 && p == (x, y);
      assert r[x][y] == 0;
    }
  }
}
