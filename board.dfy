/**
 * The 9x9 Sudoku board and the constraint check `isSafe`.
 *
 * The board is an `array2<int>` that the solvers change in place; `Grid`
 * is its value, a sequence of nine rows of nine entries, where 0 marks an
 * empty cell. Entries are not restricted to 0..9: the program never checks
 * them.
 */
module Board {
  type Grid = seq<seq<int>>

  /** Nine rows of nine entries. */
  ghost predicate IsGrid(g: Grid) {
    |g| == 9 && forall r :: 0 <= r < 9 ==> |g[r]| == 9
  }

  /** A row or column index of the board. */
  predicate InRange(x: int) {
    0 <= x < 9
  }

  /**
   * The first row (or column) of the 3x3 box holding row (or column) `x`:
   * `x - x % 3`, the multiple of three at or below `x`. For a board index
   * the whole box `b..b+2` is on the board.
   */
  function BoxStart(x: int): (b: int)
    ensures InRange(x) ==> b % 3 == 0 && 0 <= b <= x < b + 3 <= 9
  {
    x - x % 3
  }

  /** The contents of the board as a value. */
  ghost function Cells(board: array2<int>): (g: Grid)
    requires board.Length0 == 9 && board.Length1 == 9
    reads board
    ensures IsGrid(g)
    ensures forall r, c :: InRange(r) && InRange(c) ==> g[r][c] == board[r, c]
  {
    seq(9, r requires 0 <= r < 9 reads board =>
      seq(9, c requires 0 <= c < 9 reads board => board[r, c]))
  }

  /** `num` occurs in row `row`. */
  ghost predicate InRow(g: Grid, row: int, num: int)
    requires IsGrid(g) && InRange(row)
  {
    exists i :: 0 <= i < 9 && g[row][i] == num
  }

  /** `num` occurs in column `col`. */
  ghost predicate InCol(g: Grid, col: int, num: int)
    requires IsGrid(g) && InRange(col)
  {
    exists i :: 0 <= i < 9 && g[i][col] == num
  }

  /** The entry at offset `(i, j)` in the 3x3 box holding the cell `(row, col)`. */
  ghost function BoxCell(g: Grid, row: int, col: int, i: int, j: int): int
    requires IsGrid(g) && InRange(row) && InRange(col) && 0 <= i < 3 && 0 <= j < 3
  {
    g[BoxStart(row) + i][BoxStart(col) + j]
  }

  /** `num` occurs in the 3x3 box holding the cell `(row, col)`. */
  ghost predicate InBox(g: Grid, row: int, col: int, num: int)
    requires IsGrid(g) && InRange(row) && InRange(col)
  {
    exists i, j :: 0 <= i < 3 && 0 <= j < 3 && BoxCell(g, row, col, i, j) == num
  }

  /** `num` may go in the cell `(row, col)`: it is not yet in its row, its column or its box. */
  ghost predicate Safe(g: Grid, row: int, col: int, num: int)
    requires IsGrid(g) && InRange(row) && InRange(col)
  {
    !InRow(g, row, num) && !InCol(g, col, num) && !InBox(g, row, col, num)
  }

  /**
   * `isSafe`: scans the row and the column together, then the box, and
   * answers false at the first occurrence of `num`. It only reads the board.
   */
  method IsSafe(board: array2<int>, row: int, col: int, num: int) returns (safe: bool)
    requires board.Length0 == 9 && board.Length1 == 9 && InRange(row) && InRange(col)
    ensures safe == Safe(Cells(board), row, col, num)
  {
    ghost var g := Cells(board);
    for i := 0 to 9
      invariant forall k :: 0 <= k < i ==> g[row][k] != num && g[k][col] != num
    {
      if board[row, i] == num || board[i, col] == num {
        assert g[row][i] == num || g[i][col] == num;
        return false;
      }
    }
    var startRow, startCol := row - row % 3, col - col % 3;
    assert startRow == BoxStart(row) && startCol == BoxStart(col);
    for i := 0 to 3
      invariant forall p, q :: 0 <= p < i && 0 <= q < 3 ==> BoxCell(g, row, col, p, q) != num
    {
      for j := 0 to 3
        invariant forall p, q :: 0 <= p < i && 0 <= q < 3 ==> BoxCell(g, row, col, p, q) != num
        invariant forall q :: 0 <= q < j ==> BoxCell(g, row, col, i, q) != num
      {
        if board[startRow + i, startCol + j] == num {
          assert BoxCell(g, row, col, i, j) == num;
          return false;
        }
      }
    }
    return true;
  }

  /**
   * Two cells are peers when they share a row, a column or a box (a cell is
   * its own peer).
   */
  predicate SameUnit(r1: int, c1: int, r2: int, c2: int) {
    r1 == r2 || c1 == c2 || (BoxStart(r1) == BoxStart(r2) && BoxStart(c1) == BoxStart(c2))
  }

  /** The box of `x` is the run of three indices from its start. */
  lemma SameBox(x: int, y: int)
    requires InRange(x) && InRange(y)
    ensures BoxStart(x) == BoxStart(y) <==> BoxStart(x) <= y < BoxStart(x) + 3
  {
  }

  /**
   * The reference reading of `isSafe`: `num` may go in `(row, col)` exactly
   * when no peer of the cell holds `num`.
   */
  lemma SafeIffNoPeerHolds(g: Grid, row: int, col: int, num: int)
    requires IsGrid(g) && InRange(row) && InRange(col)
    ensures Safe(g, row, col, num) <==>
              forall r, c :: InRange(r) && InRange(c) && SameUnit(row, col, r, c) ==> g[r][c] != num
  {
    if !Safe(g, row, col, num) {
      var r, c := UnsafeWitness(g, row, col, num);
    }
    forall r, c | InRange(r) && InRange(c) && SameUnit(row, col, r, c) && g[r][c] == num
      ensures !Safe(g, row, col, num)
    {
      PeerHoldsUnsafe(g, row, col, num, r, c);
    }
  }

  /** When `isSafe` says no, some peer of the cell holds `num`. */
  lemma UnsafeWitness(g: Grid, row: int, col: int, num: int) returns (r: int, c: int)
    requires IsGrid(g) && InRange(row) && InRange(col) && !Safe(g, row, col, num)
    ensures InRange(r) && InRange(c) && SameUnit(row, col, r, c) && g[r][c] == num
  {
    if InRow(g, row, num) {
      var i :| 0 <= i < 9 && g[row][i] == num;
      r, c := row, i;
    } else if InCol(g, col, num) {
      var i :| 0 <= i < 9 && g[i][col] == num;
      r, c := i, col;
    } else {
      var i, j :| 0 <= i < 3 && 0 <= j < 3 && BoxCell(g, row, col, i, j) == num;
      r, c := BoxStart(row) + i, BoxStart(col) + j;
      SameBox(row, r);
      SameBox(col, c);
    }
  }

  /** A peer holding `num` makes `isSafe` say no. */
  lemma PeerHoldsUnsafe(g: Grid, row: int, col: int, num: int, r: int, c: int)
    requires IsGrid(g) && InRange(row) && InRange(col) && InRange(r) && InRange(c)
    requires SameUnit(row, col, r, c) && g[r][c] == num
    ensures !Safe(g, row, col, num)
  {
    if r == row {
      assert InRow(g, row, num);
    } else if c == col {
      assert InCol(g, col, num);
    } else {
      var br, bc := BoxStart(row), BoxStart(col);
      SameBox(row, r);
      SameBox(col, c);
      assert BoxCell(g, row, col, r - br, c - bc) == num;
    }
  }

  /** Grids are equal when their entries are. */
  lemma GridEq(g: Grid, h: Grid)
    requires IsGrid(g) && IsGrid(h)
    requires forall r, c :: InRange(r) && InRange(c) ==> g[r][c] == h[r][c]
    ensures g == h
  {
    forall r | 0 <= r < 9 ensures g[r] == h[r] {
      assert |g[r]| == 9 == |h[r]|;
      forall c | 0 <= c < 9 ensures g[r][c] == h[r][c] {
        assert InRange(r) && InRange(c);
      }
    }
  }

  /** No cell is empty. */
  ghost predicate Complete(g: Grid)
    requires IsGrid(g)
  {
    forall r, c :: InRange(r) && InRange(c) ==> g[r][c] != 0
  }

  /** `s` keeps every filled cell of `g`. */
  ghost predicate Extends(g: Grid, s: Grid)
    requires IsGrid(g) && IsGrid(s)
  {
    forall r, c :: InRange(r) && InRange(c) && g[r][c] != 0 ==> s[r][c] == g[r][c]
  }

  /** `g` with `d` written in the cell `(row, col)`. */
  ghost function Place(g: Grid, row: int, col: int, d: int): (h: Grid)
    requires IsGrid(g) && InRange(row) && InRange(col)
    ensures IsGrid(h) && h[row][col] == d
    ensures forall r, c :: InRange(r) && InRange(c) && (r != row || c != col) ==> h[r][c] == g[r][c]
  {
    g[row := g[row][col := d]]
  }

  /** Writing `d` into the cell `(row, col)` of the board in place. */
  method Write(board: array2<int>, row: int, col: int, d: int)
    requires board.Length0 == 9 && board.Length1 == 9 && InRange(row) && InRange(col)
    modifies board
    ensures Cells(board) == Place(old(Cells(board)), row, col, d)
  {
    ghost var g := Cells(board);
    board[row, col] := d;
    GridEq(Cells(board), Place(g, row, col, d));
  }

  /** Resetting a cell that was empty to 0 gives back the board it was placed on. */
  lemma PlaceErase(g: Grid, row: int, col: int, d: int)
    requires IsGrid(g) && InRange(row) && InRange(col) && g[row][col] == 0
    ensures Place(Place(g, row, col, d), row, col, 0) == g
  {
    GridEq(Place(Place(g, row, col, d), row, col, 0), g);
  }

  /**
   * Every cell filled since `g0` holds a digit `1..9` that no peer holding
   * a value shares: what placing only digits that pass `isSafe` keeps.
   */
  ghost predicate PlacedFine(g0: Grid, g: Grid)
    requires IsGrid(g0) && IsGrid(g)
  {
    forall r, c :: InRange(r) && InRange(c) && g0[r][c] == 0 && g[r][c] != 0 ==>
      1 <= g[r][c] <= 9 && PeersDiffer(g, r, c)
  }

  /** Every other peer of `(row, col)` holds a different value. */
  ghost predicate PeersDiffer(g: Grid, row: int, col: int)
    requires IsGrid(g) && InRange(row) && InRange(col)
  {
    forall r, c :: InRange(r) && InRange(c) && SameUnit(row, col, r, c) && (r != row || c != col) ==>
      g[r][c] != g[row][col]
  }

  /** Placing a digit that passes `isSafe` in an empty cell keeps `PlacedFine`. */
  lemma PlaceKeepsFine(g0: Grid, g: Grid, row: int, col: int, d: int)
    requires IsGrid(g0) && IsGrid(g) && InRange(row) && InRange(col)
    requires PlacedFine(g0, g) && g[row][col] == 0 && 1 <= d <= 9 && Safe(g, row, col, d)
    ensures PlacedFine(g0, Place(g, row, col, d))
  {
    var h := Place(g, row, col, d);
    SafeIffNoPeerHolds(g, row, col, d);
    forall r, c | InRange(r) && InRange(c) && g0[r][c] == 0 && h[r][c] != 0
      ensures 1 <= h[r][c] <= 9 && PeersDiffer(h, r, c)
    {
      if r == row && c == col {
        assert PeersDiffer(h, r, c);
      } else {
        assert PeersDiffer(g, r, c);
        forall r2, c2 | InRange(r2) && InRange(c2) && SameUnit(r, c, r2, c2) && (r2 != r || c2 != c)
          ensures h[r2][c2] != h[r][c]
        {
          if r2 == row && c2 == col {
            assert SameUnit(row, col, r, c);
          }
        }
      }
    }
  }

  /**
   * No two peers hold the same value, empty cells aside: the givens of a
   * well-posed puzzle, and a finished solution together with `Complete`.
   */
  ghost predicate Consistent(g: Grid)
    requires IsGrid(g)
  {
    forall r, c :: InRange(r) && InRange(c) && g[r][c] != 0 ==> PeersDiffer(g, r, c)
  }

  /**
   * A completed board whose filled-in cells were all placed fine is a valid
   * solution when the puzzle's givens were consistent.
   */
  lemma FineCompletionIsConsistent(g0: Grid, s: Grid)
    requires IsGrid(g0) && IsGrid(s) && Consistent(g0) && Extends(g0, s) && PlacedFine(g0, s)
    ensures Consistent(s)
  {
    forall r, c | InRange(r) && InRange(c) && s[r][c] != 0 ensures PeersDiffer(s, r, c) {
      if g0[r][c] != 0 {
        forall r2, c2 | InRange(r2) && InRange(c2) && SameUnit(r, c, r2, c2) && (r2 != r || c2 != c)
          ensures s[r2][c2] != s[r][c]
        {
          assert PeersDiffer(g0, r, c);
          if g0[r2][c2] == 0 && s[r2][c2] != 0 {
            assert PeersDiffer(s, r2, c2);
            assert SameUnit(r2, c2, r, c);
          }
        }
      }
    }
  }
}
