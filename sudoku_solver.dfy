/**
 * The backtracking Sudoku solver: one member per function of the solver
 * script, over a 9x9 `array2<int>` it owns for the duration of a solve.
 *
 * The search finds the first blank cell in row-major order, tries the digits
 * 1..9 in ascending order, keeps a digit only if no row, column or box peer
 * already holds it, recurses, and resets the cell to 0 when the recursion
 * fails.  The entry point `SudokuSolve` marks every blank with -1 when no
 * solution exists.
 */
module SudokuSolver {
  import opened Grid

  datatype Option<T> = None | Some(value: T)

  // ---------------------------------------------------------------------------
  // Boxes

  /**
   * The first row (or column) of the 3x3 box that holds row (or column) x:
   * 0 below 3, 3 below 6, 6 otherwise.
   */
  function BoxOrigin(x: int): (r: int)
    ensures r == 0 || r == 3 || r == 6
    ensures 0 <= x < 9 ==> r <= x < r + 3
  {
    if x < 6 then
      if x < 3 then 0 else 3
    else
      6
  }

  /** The box origin is the coordinate rounded down to a multiple of 3. */
  lemma BoxOriginIsFloor(x: int)
    requires 0 <= x < 9
    ensures BoxOrigin(x) == x / 3 * 3
    ensures BoxOrigin(x) % 3 == 0
  {
  }

  /** Two coordinates share a box origin exactly when they lie in the same third of the grid. */
  lemma SameOriginIffSameThird(x1: int, x2: int)
    requires 0 <= x1 < 9 && 0 <= x2 < 9
    ensures BoxOrigin(x1) == BoxOrigin(x2) <==> x1 / 3 == x2 / 3
  {
  }

  // ---------------------------------------------------------------------------
  // Peer groups as values

  /** The 9 values of row i, left to right. */
  function Row(b: Board, i: int): (r: seq<int>)
    requires IsGrid(b) && 0 <= i < 9
    ensures |r| == 9 && forall y :: 0 <= y < 9 ==> r[y] == b[i][y]
  {
    b[i]
  }

  /** The 9 values of column j, top to bottom. */
  function Column(b: Board, j: int): (r: seq<int>)
    requires IsGrid(b) && 0 <= j < 9
    ensures |r| == 9 && forall x :: 0 <= x < 9 ==> r[x] == b[x][j]
  {
    seq(9, x requires 0 <= x < 9 => b[x][j])
  }

  /** The 9 values of the box holding (i, j), row by row from its origin. */
  function Square(b: Board, i: int, j: int): (r: seq<int>)
    requires IsGrid(b) && IsCell(i, j)
    ensures |r| == 9
    ensures forall k :: 0 <= k < 9 ==> r[k] == b[BoxOrigin(i) + k / 3][BoxOrigin(j) + k % 3]
  {
    seq(9, k requires 0 <= k < 9 => b[BoxOrigin(i) + k / 3][BoxOrigin(j) + k % 3])
  }

  /** Position k of a box's sequence names the cell (origin + k / 3, origin + k % 3), and back. */
  lemma SquareIndex(bi: int, bj: int, x: int, y: int)
    requires bi == BoxOrigin(x) && bj == BoxOrigin(y) && IsCell(x, y)
    ensures var k := (x - bi) * 3 + (y - bj);
      0 <= k < 9 && bi + k / 3 == x && bj + k % 3 == y
  {
  }

  /** A value is in the box of (i, j) exactly when some cell of that box holds it. */
  lemma SquareMembers(b: Board, i: int, j: int, v: int)
    requires IsGrid(b) && IsCell(i, j)
    ensures v in Square(b, i, j) <==>
      exists x, y :: IsCell(x, y) && x / 3 == i / 3 && y / 3 == j / 3 && b[x][y] == v
  {
    var s := Square(b, i, j);
    var bi, bj := BoxOrigin(i), BoxOrigin(j);
    if v in s {
      var k :| 0 <= k < 9 && s[k] == v;
      var x, y := bi + k / 3, bj + k % 3;
      SameOriginIffSameThird(x, i);
      SameOriginIffSameThird(y, j);
      assert IsCell(x, y) && x / 3 == i / 3 && y / 3 == j / 3 && b[x][y] == v;
    }
    if exists x, y :: IsCell(x, y) && x / 3 == i / 3 && y / 3 == j / 3 && b[x][y] == v {
      var x, y :| IsCell(x, y) && x / 3 == i / 3 && y / 3 == j / 3 && b[x][y] == v;
      SameOriginIffSameThird(x, i);
      SameOriginIffSameThird(y, j);
      SquareIndex(bi, bj, x, y);
      var k := (x - bi) * 3 + (y - bj);
      assert s[k] == v;
    }
  }

  /** No non-blank value occurs twice in s. */
  ghost predicate NoRepeatedDigit(s: seq<int>)
  {
    forall p, q :: 0 <= p < q < |s| && s[p] != 0 ==> s[p] != s[q]
  }

  /** Every row, every column and every box holds each non-blank value at most once. */
  ghost predicate UnitsLegal(b: Board)
    requires IsGrid(b)
  {
    && (forall k :: 0 <= k < 9 ==> NoRepeatedDigit(Row(b, k)) && NoRepeatedDigit(Column(b, k)))
    && (forall i, j :: IsCell(i, j) ==> NoRepeatedDigit(Square(b, i, j)))
  }

  /** The rules stated on peer groups agree with the rules stated on pairs of cells. */
  lemma UnitsLegalIffConsistent(b: Board)
    requires IsGrid(b)
    ensures UnitsLegal(b) <==> Consistent(b)
  {
    if Consistent(b) {
      ConsistentHasLegalUnits(b);
    }
    if UnitsLegal(b) {
      LegalUnitsAreConsistent(b);
    }
  }

  /** A consistent board repeats no value in any row, column or box. */
  lemma ConsistentHasLegalUnits(b: Board)
    requires IsGrid(b) && Consistent(b)
    ensures UnitsLegal(b)
  {
    forall k | 0 <= k < 9
      ensures NoRepeatedDigit(Row(b, k)) && NoRepeatedDigit(Column(b, k))
    {
      forall p, q | 0 <= p < q < 9 && b[k][p] != 0
        ensures b[k][p] != b[k][q]
      {
        assert !Clash(b, k, p, k, q);
      }
      forall p, q | 0 <= p < q < 9 && b[p][k] != 0
        ensures b[p][k] != b[q][k]
      {
        assert !Clash(b, p, k, q, k);
      }
    }
    forall i, j | IsCell(i, j)
      ensures NoRepeatedDigit(Square(b, i, j))
    {
      var s := Square(b, i, j);
      var bi, bj := BoxOrigin(i), BoxOrigin(j);
      forall p, q | 0 <= p < q < 9 && s[p] != 0
        ensures s[p] != s[q]
      {
        var x1, y1, x2, y2 := bi + p / 3, bj + p % 3, bi + q / 3, bj + q % 3;
        SameOriginIffSameThird(x1, x2);
        SameOriginIffSameThird(y1, y2);
        assert !Clash(b, x1, y1, x2, y2);
      }
    }
  }

  /** A board that repeats no value in any row, column or box is consistent. */
  lemma LegalUnitsAreConsistent(b: Board)
    requires IsGrid(b) && UnitsLegal(b)
    ensures Consistent(b)
  {
    forall x1, y1, x2, y2 | IsCell(x1, y1) && IsCell(x2, y2)
      ensures !Clash(b, x1, y1, x2, y2)
    {
      if x1 == x2 {
        RowRulesOutClash(b, x1, y1, y2);
      } else if y1 == y2 {
        ColumnRulesOutClash(b, x1, x2, y1);
      } else if x1 / 3 == x2 / 3 && y1 / 3 == y2 / 3 {
        BoxRulesOutClash(b, x1, y1, x2, y2);
      }
    }
  }

  /** Two cells of a row without repeats never clash. */
  lemma RowRulesOutClash(b: Board, x: int, y1: int, y2: int)
    requires IsGrid(b) && IsCell(x, y1) && IsCell(x, y2)
    requires NoRepeatedDigit(Row(b, x))
    ensures !Clash(b, x, y1, x, y2)
  {
    var r := Row(b, x);
    if y1 < y2 {
      assert r[y1] != 0 ==> r[y1] != r[y2];
    } else if y2 < y1 {
      assert r[y2] != 0 ==> r[y2] != r[y1];
    }
  }

  /** Two cells of a column without repeats never clash. */
  lemma ColumnRulesOutClash(b: Board, x1: int, x2: int, y: int)
    requires IsGrid(b) && IsCell(x1, y) && IsCell(x2, y)
    requires NoRepeatedDigit(Column(b, y))
    ensures !Clash(b, x1, y, x2, y)
  {
    var c := Column(b, y);
    if x1 < x2 {
      assert c[x1] != 0 ==> c[x1] != c[x2];
    } else if x2 < x1 {
      assert c[x2] != 0 ==> c[x2] != c[x1];
    }
  }

  /** Two cells of a box without repeats never clash. */
  lemma BoxRulesOutClash(b: Board, x1: int, y1: int, x2: int, y2: int)
    requires IsGrid(b) && IsCell(x1, y1) && IsCell(x2, y2)
    requires x1 / 3 == x2 / 3 && y1 / 3 == y2 / 3
    requires NoRepeatedDigit(Square(b, x1, y1))
    ensures !Clash(b, x1, y1, x2, y2)
  {
    var bi, bj := BoxOrigin(x1), BoxOrigin(y1);
    SameOriginIffSameThird(x1, x2);
    SameOriginIffSameThird(y1, y2);
    SquareIndex(bi, bj, x1, y1);
    SquareIndex(bi, bj, x2, y2);
    var s := Square(b, x1, y1);
    var k1, k2 := (x1 - bi) * 3 + (y1 - bj), (x2 - bi) * 3 + (y2 - bj);
    if k1 < k2 {
      assert s[k1] != 0 ==> s[k1] != s[k2];
    } else if k2 < k1 {
      assert s[k2] != 0 ==> s[k2] != s[k1];
    }
  }

  /** The values at positions 0..n-1 of s, when they are pairwise different, are n distinct values. */
  lemma {:induction false} DistinctPrefixValues(s: seq<int>, n: nat)
    requires n <= |s|
    requires forall p, q :: 0 <= p < q < n ==> s[p] != s[q]
    ensures |set p | 0 <= p < n :: s[p]| == n
    decreases n
  {
    if n > 0 {
      DistinctPrefixValues(s, n - 1);
      var before := set p | 0 <= p < n - 1 :: s[p];
      assert (set p | 0 <= p < n :: s[p]) == before + {s[n - 1]};
      assert s[n - 1] !in before;
    }
  }

  /** Nine digits 1..9 with none repeated are all nine digits. */
  lemma EveryDigitPresent(s: seq<int>)
    requires |s| == 9 && (forall p :: 0 <= p < 9 ==> 1 <= s[p] <= 9) && NoRepeatedDigit(s)
    ensures forall d :: 1 <= d <= 9 ==> d in s
  {
    var values := set p | 0 <= p < 9 :: s[p];
    DistinctPrefixValues(s, 9);
    var ascending := seq(9, p => p + 1);
    var digits := set p | 0 <= p < 9 :: ascending[p];
    DistinctPrefixValues(ascending, 9);
    forall p | 0 <= p < 9
      ensures s[p] in digits
    {
      assert ascending[s[p] - 1] == s[p];
    }
    assert values <= digits;
    assert values * digits == values && values + digits == digits;
    assert |digits - values| == 0;
    forall d | 1 <= d <= 9
      ensures d in s
    {
      assert ascending[d - 1] == d;
      assert d !in digits - values;
    }
  }

  /**
   * A completely filled grid that obeys the rules holds each digit 1..9
   * exactly once in every row, every column and every box: every digit
   * occurs, and no value occurs twice.
   */
  lemma CompleteConsistentHasEachDigitOnce(c: Board)
    requires IsGrid(c) && Complete(c) && Consistent(c)
    ensures UnitsLegal(c)
    ensures forall k, d :: 0 <= k < 9 && 1 <= d <= 9 ==> d in Row(c, k) && d in Column(c, k)
    ensures forall i, j, d :: IsCell(i, j) && 1 <= d <= 9 ==> d in Square(c, i, j)
  {
    UnitsLegalIffConsistent(c);
    forall k | 0 <= k < 9
      ensures forall d :: 1 <= d <= 9 ==> d in Row(c, k) && d in Column(c, k)
    {
      EveryDigitPresent(Row(c, k));
      EveryDigitPresent(Column(c, k));
    }
    forall i, j | IsCell(i, j)
      ensures forall d :: 1 <= d <= 9 ==> d in Square(c, i, j)
    {
      EveryDigitPresent(Square(c, i, j));
    }
  }

  // ---------------------------------------------------------------------------
  // Peer groups gathered from the array

  /** Collects the 9 values of row i by appending them one at a time. */
  method GetRowUnit(g: array2<int>, i: int) returns (row: seq<int>)
    requires g.Length0 == 9 && g.Length1 == 9 && 0 <= i < 9
    ensures |row| == 9 && forall y :: 0 <= y < 9 ==> row[y] == g[i, y]
    ensures row == Row(View(g), i)
  {
    row := [];
    for y := 0 to 9
      invariant |row| == y
      invariant forall k :: 0 <= k < y ==> row[k] == g[i, k]
    {
      row := row + [g[i, y]];
    }
  }

  /** Collects the 9 values of column j by appending them one at a time. */
  method GetColumnUnit(g: array2<int>, j: int) returns (column: seq<int>)
    requires g.Length0 == 9 && g.Length1 == 9 && 0 <= j < 9
    ensures |column| == 9 && forall x :: 0 <= x < 9 ==> column[x] == g[x, j]
    ensures column == Column(View(g), j)
  {
    column := [];
    for x := 0 to 9
      invariant |column| == x
      invariant forall k :: 0 <= k < x ==> column[k] == g[k, j]
    {
      column := column + [g[x, j]];
    }
  }

  /** Collects the 9 values of the box holding (i, j), row by row, by appending them. */
  method GetSquareUnit(g: array2<int>, i: int, j: int) returns (square: seq<int>)
    requires g.Length0 == 9 && g.Length1 == 9 && IsCell(i, j)
    ensures |square| == 9
    ensures forall k :: 0 <= k < 9 ==> square[k] == g[BoxOrigin(i) + k / 3, BoxOrigin(j) + k % 3]
    ensures square == Square(View(g), i, j)
  {
    square := [];
    var bi := BoxOrigin(i);
    var bj := BoxOrigin(j);
    for x := bi to bi + 3
      invariant |square| == (x - bi) * 3
      invariant forall k :: 0 <= k < |square| ==> square[k] == g[bi + k / 3, bj + k % 3]
    {
      for y := bj to bj + 3
        invariant |square| == (x - bi) * 3 + (y - bj)
        invariant forall k :: 0 <= k < |square| ==> square[k] == g[bi + k / 3, bj + k % 3]
      {
        SquareIndex(bi, bj, x, y);
        square := square + [g[x, y]];
      }
    }
  }

  // ---------------------------------------------------------------------------
  // Blank-cell scan and legality test

  /** Cell (x1, y1) comes before cell (x2, y2) in row-major order. */
  predicate Before(x1: int, y1: int, x2: int, y2: int)
  {
    x1 < x2 || (x1 == x2 && y1 < y2)
  }

  /** The first blank cell at or after (x, y) in row-major order, if any. */
  function FirstBlankFrom(b: Board, x: int, y: int): (r: Option<(int, int)>)
    requires IsGrid(b) && 0 <= x <= 9 && 0 <= y <= 9
    ensures r.None? ==> forall p, q :: IsCell(p, q) && !Before(p, q, x, y) ==> b[p][q] != 0
    ensures r.Some? ==> var (i, j) := r.value;
      && IsCell(i, j) && b[i][j] == 0 && !Before(i, j, x, y)
      && forall p, q :: IsCell(p, q) && !Before(p, q, x, y) && Before(p, q, i, j) ==> b[p][q] != 0
    decreases 9 - x, 9 - y
  {
    if x == 9 then None
    else if y == 9 then FirstBlankFrom(b, x + 1, 0)
    else if b[x][y] == 0 then Some((x, y))
    else FirstBlankFrom(b, x, y + 1)
  }

  /** The first blank cell of the whole board in row-major order, if any. */
  function FirstBlank(b: Board): (r: Option<(int, int)>)
    requires IsGrid(b)
    ensures r.None? <==> NoBlank(b)
    ensures r.Some? ==> var (i, j) := r.value;
      && IsCell(i, j) && b[i][j] == 0
      && forall p, q :: IsCell(p, q) && Before(p, q, i, j) ==> b[p][q] != 0
  {
    FirstBlankFrom(b, 0, 0)
  }

  /**
   * Scans row by row, and within a row column by column, for a cell holding 0.
   * On success it reports the first such cell; otherwise it hands back the
   * cell it was given, untouched.  The grid is only read.
   */
  method FindBlankCell(g: array2<int>, blank: (int, int)) returns (found: bool, cell: (int, int))
    requires g.Length0 == 9 && g.Length1 == 9
    ensures found <==> exists x, y :: IsCell(x, y) && g[x, y] == 0
    ensures found ==> IsCell(cell.0, cell.1) && g[cell.0, cell.1] == 0
    ensures found ==> forall x, y :: IsCell(x, y) && (Before(x, y, cell.0, cell.1)) ==> g[x, y] != 0
    ensures !found ==> cell == blank
    ensures found == FirstBlank(View(g)).Some? && (found ==> cell == FirstBlank(View(g)).value)
  {
    for i := 0 to 9
      invariant forall x, y :: 0 <= x < i && 0 <= y < 9 ==> g[x, y] != 0
    {
      for j := 0 to 9
        invariant forall x, y :: 0 <= x < i && 0 <= y < 9 ==> g[x, y] != 0
        invariant forall y :: 0 <= y < j ==> g[i, y] != 0
      {
        if g[i, j] == 0 {
          ghost var first := FirstBlank(View(g));
          assert first.Some? && !Before(first.value.0, first.value.1, i, j);
          return true, (i, j);
        }
      }
    }
    return false, blank;
  }

  /**
   * A digit may go to (i, j) when it occurs neither in row i, nor in column j,
   * nor in the box of (i, j).  The cell itself belongs to all three groups.
   */
  function ValidateMove(b: Board, i: int, j: int, num: int): (ok: bool)
    requires IsGrid(b) && IsCell(i, j)
    ensures ok <==> forall x, y :: IsCell(x, y) && SameUnit(i, j, x, y) ==> b[x][y] != num
  {
    SquareMembers(b, i, j, num);
    if num in Row(b, i) || num in Column(b, j) || num in Square(b, i, j) then
      false
    else
      true
  }

  /**
   * The legality test on the array: gathers the row, the column and the box
   * of (i, j) with the three collectors and rejects num if any of them holds
   * it.  The grid is only read.
   */
  method ValidateMoveOnGrid(g: array2<int>, i: int, j: int, num: int) returns (ok: bool)
    requires g.Length0 == 9 && g.Length1 == 9 && IsCell(i, j)
    ensures ok <==> forall x, y :: IsCell(x, y) && SameUnit(i, j, x, y) ==> g[x, y] != num
    ensures ok == ValidateMove(View(g), i, j, num)
  {
    var rowPeers := GetRowUnit(g, i);
    var columnPeers := GetColumnUnit(g, j);
    var squarePeers := GetSquareUnit(g, i, j);
    if num in rowPeers || num in columnPeers || num in squarePeers {
      ok := false;
    } else {
      ok := true;
    }
    assert ok == ValidateMove(View(g), i, j, num);
  }

  // ---------------------------------------------------------------------------
  // Search

  /** A rejected digit cannot stand at (i, j) in any rule-abiding filling. */
  lemma RejectedMoveHasNoSolution(b: Board, i: int, j: int, num: int, c: Board)
    requires IsGrid(b) && IsCell(i, j) && b[i][j] == 0 && 1 <= num <= 9
    requires !ValidateMove(b, i, j, num)
    requires Fills(b, c) && c[i][j] == num
    ensures !Consistent(c)
  {
    var x, y :| IsCell(x, y) && SameUnit(i, j, x, y) && b[x][y] == num;
    assert c[x][y] == num;
    assert Clash(c, i, j, x, y);
  }

  /** An accepted digit placed into a blank keeps a consistent board consistent. */
  lemma AcceptedMoveKeepsConsistent(b: Board, i: int, j: int, num: int)
    requires IsGrid(b) && IsCell(i, j) && b[i][j] == 0
    requires Consistent(b) && ValidateMove(b, i, j, num)
    ensures Consistent(Place(b, i, j, num))
  {
    var r := Place(b, i, j, num);
    forall x1, y1, x2, y2 | IsCell(x1, y1) && IsCell(x2, y2)
      ensures !Clash(r, x1, y1, x2, y2)
    {
      if x1 == i && y1 == j {
        assert SameUnit(x1, y1, x2, y2) && (x2 != i || y2 != j) ==> b[x2][y2] != num;
      } else if x2 == i && y2 == j {
        assert SameUnit(i, j, x1, y1) ==> b[x1][y1] != num;
      } else {
        assert !Clash(b, x1, y1, x2, y2);
      }
    }
  }

  /**
   * The search as a value: the grid the depth-first search ends with, or None
   * when it gives up.  It fills the first blank in row-major order with the
   * first digit 1..9 that passes the legality test and whose recursive search
   * succeeds.  A grid it returns keeps every clue and has a digit in every
   * cell that was blank.
   */
  function Search(b: Board): (r: Option<Board>)
    requires IsGrid(b)
    ensures r.Some? ==> Fills(b, r.value)
    decreases Blanks(b), 10
  {
    match FirstBlank(b)
    case None => Some(b)
    case Some(cell) => TryDigits(b, cell.0, cell.1, 1)
  }

  /**
   * The candidate loop at blank (i, j), from digit num on: the result of the
   * first digit that passes the legality test and whose search succeeds, or
   * None when every digit up to 9 fails.  A grid it returns holds a digit
   * num or above at (i, j).
   */
  function TryDigits(b: Board, i: int, j: int, num: int): (r: Option<Board>)
    requires IsGrid(b) && IsCell(i, j) && b[i][j] == 0 && 1 <= num <= 10
    ensures r.Some? ==> Fills(b, r.value) && r.value[i][j] >= num
    decreases Blanks(b), 10 - num
  {
    if num == 10 then
      None
    else if ValidateMove(b, i, j, num) then
      PlaceShrinksBlanks(b, i, j, num);
      match Search(Place(b, i, j, num))
      case Some(c) =>
        FillsAfterPlace(b, i, j, num, c);
        Some(c)
      case None => TryDigits(b, i, j, num + 1)
    else
      TryDigits(b, i, j, num + 1)
  }

  /** A grid without blanks is its own search result, whatever its clues. */
  lemma SearchOfFullGrid(b: Board)
    requires IsGrid(b) && NoBlank(b)
    ensures Search(b) == Some(b)
  {
  }

  /**
   * Soundness: a search result fills the blanks of its input with digits and
   * keeps every clue (the contract of `Search`); if the input obeys the
   * rules, so does the result.
   */
  lemma {:induction false} SearchSound(b: Board)
    requires IsGrid(b)
    ensures var r := Search(b);
      r.Some? && Consistent(b) ==> IsGrid(r.value) && Consistent(r.value)
    decreases Blanks(b), 10
  {
    match FirstBlank(b)
    case None =>
    case Some(cell) =>
      TryDigitsSound(b, cell.0, cell.1, 1);
  }

  /** Soundness of the candidate loop: a result from a rule-abiding grid obeys the rules. */
  lemma {:induction false} TryDigitsSound(b: Board, i: int, j: int, num: int)
    requires IsGrid(b) && IsCell(i, j) && b[i][j] == 0 && 1 <= num <= 10
    ensures var r := TryDigits(b, i, j, num);
      r.Some? && Consistent(b) ==> IsGrid(r.value) && Consistent(r.value)
    decreases Blanks(b), 10 - num
  {
    if num < 10 && Consistent(b) {
      TryDigitsStep(b, i, j, num);
      if ValidateMove(b, i, j, num) {
        var b1 := Place(b, i, j, num);
        PlaceShrinksBlanks(b, i, j, num);
        AcceptedMoveKeepsConsistent(b, i, j, num);
        SearchSound(b1);
      }
      TryDigitsSound(b, i, j, num + 1);
    }
  }

  /** Completeness: when the search gives up, no filling of its input obeys the rules. */
  lemma {:induction false} SearchComplete(b: Board)
    requires IsGrid(b)
    ensures Search(b).None? ==> !Solvable(b)
    decreases Blanks(b), 10
  {
    match FirstBlank(b)
    case None =>
    case Some(cell) =>
      TryDigitsComplete(b, cell.0, cell.1, 1);
  }

  /** Completeness of the candidate loop: no rule-abiding filling puts a digit num or above at (i, j). */
  lemma {:induction false} TryDigitsComplete(b: Board, i: int, j: int, num: int)
    requires IsGrid(b) && IsCell(i, j) && b[i][j] == 0 && 1 <= num <= 10
    ensures TryDigits(b, i, j, num).None? ==>
      forall c :: Fills(b, c) && c[i][j] >= num ==> !Consistent(c)
    decreases Blanks(b), 10 - num
  {
    if num < 10 && TryDigits(b, i, j, num).None? {
      TryDigitsComplete(b, i, j, num + 1);
      if ValidateMove(b, i, j, num) {
        var b1 := Place(b, i, j, num);
        PlaceShrinksBlanks(b, i, j, num);
        SearchComplete(b1);
        forall c | Fills(b, c) && c[i][j] == num
          ensures !Consistent(c)
        {
          FillsAfterPlace(b, i, j, num, c);
        }
      } else {
        forall c | Fills(b, c) && c[i][j] == num
          ensures !Consistent(c)
        {
          RejectedMoveHasNoSolution(b, i, j, num, c);
        }
      }
    }
  }

  /** Two clues that clash can never be part of a solution. */
  lemma ClashingCluesAreUnsolvable(b: Board, x1: int, y1: int, x2: int, y2: int)
    requires IsGrid(b) && IsCell(x1, y1) && IsCell(x2, y2) && Clash(b, x1, y1, x2, y2)
    ensures !Solvable(b)
  {
    forall c | Fills(b, c)
      ensures !Consistent(c)
    {
      assert Clash(c, x1, y1, x2, y2);
    }
  }

  /** The grid whose every cell holds 1. */
  function AllOnes(): (b: Board)
    ensures IsGrid(b) && NoBlank(b)
  {
    seq(9, x => seq(9, y => 1))
  }

  /**
   * The search does not check the clues it is given: a full grid whose clues
   * clash is reported as solved, unchanged.
   */
  lemma SearchAcceptsFullClashingGrid()
    ensures !Consistent(AllOnes()) && !Solvable(AllOnes())
    ensures Search(AllOnes()) == Some(AllOnes())
  {
    var b := AllOnes();
    assert Clash(b, 0, 0, 0, 1);
    ClashingCluesAreUnsolvable(b, 0, 0, 0, 1);
    SearchOfFullGrid(b);
  }

  /** On a rule-abiding input the search succeeds exactly when a solution exists. */
  lemma SearchDecides(b: Board)
    requires IsGrid(b) && Consistent(b)
    ensures Search(b).Some? <==> Solvable(b)
  {
    SearchSound(b);
    SearchComplete(b);
  }

  /** One round of the candidate loop: an accepted digit is kept if its search succeeds. */
  lemma TryDigitsStep(b: Board, i: int, j: int, num: int)
    requires IsGrid(b) && IsCell(i, j) && b[i][j] == 0 && 1 <= num < 10
    ensures ValidateMove(b, i, j, num) && Search(Place(b, i, j, num)).Some? ==>
      TryDigits(b, i, j, num) == Search(Place(b, i, j, num))
    ensures !(ValidateMove(b, i, j, num) && Search(Place(b, i, j, num)).Some?) ==>
      TryDigits(b, i, j, num) == TryDigits(b, i, j, num + 1)
  {
  }

  /**
   * The depth-first search on the array.  It ends with exactly the grid that
   * `Search` describes, or reports failure with the grid as it was at entry.
   * Hence: on success no cell is blank and the grid fills the entry grid,
   * obeying the rules whenever the entry grid did; on failure no filling of
   * the entry grid obeys the rules.  A grid without blanks succeeds at once,
   * unchanged, whether or not its clues obey the rules.
   */
  method RunAlgorithm(g: array2<int>) returns (ok: bool)
    requires g.Length0 == 9 && g.Length1 == 9
    modifies g
    ensures ok == Search(old(View(g))).Some?
    ensures ok ==> View(g) == Search(old(View(g))).value
    ensures !ok ==> View(g) == old(View(g))
    ensures NoBlank(old(View(g))) ==> ok && View(g) == old(View(g))
    ensures ok ==> Fills(old(View(g)), View(g)) && NoBlank(View(g))
    ensures ok && Consistent(old(View(g))) ==> Consistent(View(g))
    ensures !ok ==> !Solvable(old(View(g)))
    decreases Blanks(View(g))
  {
    ghost var b0 := View(g);
    SearchSound(b0);
    SearchComplete(b0);
    var found, cell := FindBlankCell(g, (0, 0));
    if !found {
      assert Search(b0) == Some(b0);
      return true;
    }
    var i, j := cell.0, cell.1;
    assert Search(b0) == TryDigits(b0, i, j, 1);
    for num := 1 to 10
      invariant View(g) == b0
      invariant TryDigits(b0, i, j, num) == Search(b0)
    {
      if ValidateMove(View(g), i, j, num) {
        g[i, j] := num;
        ViewOfWrite(g, b0, i, j, num);
        PlaceShrinksBlanks(b0, i, j, num);
        ok := RunAlgorithm(g);
        TryDigitsStep(b0, i, j, num);
        if ok {
          return;
        }
        ghost var back := View(g);
        g[i, j] := 0;
        ViewOfWrite(g, back, i, j, 0);
        UndoPlace(b0, i, j, num);
      } else {
        TryDigitsStep(b0, i, j, num);
      }
    }
    ok := false;
  }

  // ---------------------------------------------------------------------------
  // Entry point

  /** The sentinel grid: every blank becomes -1, every other cell is kept. */
  function MarkUnsolved(b: Board): (r: Board)
    requires IsGrid(b)
    ensures IsGrid(r) && NoBlank(r)
    ensures forall x, y :: IsCell(x, y) && b[x][y] != 0 ==> r[x][y] == b[x][y]
    ensures forall x, y :: IsCell(x, y) ==> (r[x][y] == -1 <==> b[x][y] == 0 || b[x][y] == -1)
  {
    seq(9, x requires 0 <= x < 9 => seq(9, y requires 0 <= y < 9 => if b[x][y] == 0 then -1 else b[x][y]))
  }

  /** On a well-formed puzzle the sentinel -1 stands exactly where the blanks were. */
  lemma SentinelMarksExactlyTheBlanks(b: Board)
    requires IsGrid(b) && InRange(b)
    ensures forall x, y :: IsCell(x, y) ==> (MarkUnsolved(b)[x][y] == -1 <==> b[x][y] == 0)
  {
  }

  /**
   * Runs the search once on the caller's grid and returns that same grid.
   * If the search succeeds the grid is its result: a filling of the input in
   * which every cell holds a digit, obeying the rules whenever the input did.
   * Otherwise no filling of the input obeys the rules, and the grid is the
   * input with -1 in every blank and every clue unchanged.
   */
  method SudokuSolve(g: array2<int>) returns (r: array2<int>)
    requires g.Length0 == 9 && g.Length1 == 9
    modifies g
    ensures r == g
    ensures Search(old(View(g))).Some? ==> View(r) == Search(old(View(g))).value
    ensures Search(old(View(g))).None? ==> View(r) == MarkUnsolved(old(View(g)))
    ensures
      || (Fills(old(View(g)), View(r)) && (Consistent(old(View(g))) ==> Consistent(View(r))))
      || (View(r) == MarkUnsolved(old(View(g))) && !Solvable(old(View(g))))
    ensures InRange(old(View(g))) && Consistent(old(View(g))) && Solvable(old(View(g))) ==>
      Complete(View(r)) && Consistent(View(r)) && Fills(old(View(g)), View(r))
  {
    ghost var b0 := View(g);
    var solved := RunAlgorithm(g);
    if !solved {
      for i := 0 to 9
        invariant forall x, y :: IsCell(x, y) ==> g[x, y] == if x < i then MarkUnsolved(b0)[x][y] else b0[x][y]
      {
        for j := 0 to 9
          invariant forall x, y :: IsCell(x, y) ==>
            g[x, y] == if x < i || (x == i && y < j) then MarkUnsolved(b0)[x][y] else b0[x][y]
        {
          if g[i, j] == 0 {
            g[i, j] := -1;
          }
        }
      }
      BoardsEqual(View(g), MarkUnsolved(b0));
    } else if InRange(b0) {
      FillsAreComplete(b0, View(g));
    }
    return g;
  }
}
