/**
 * The backtracking search that all four solvers perform, as a function of
 * the board's contents: take the first empty cell in row-major order, list
 * the digits 1..9 that pass `isSafe` there in ascending order, and try them
 * in turn, keeping the first that leads to a filled board.
 */
module Backtracking {
  import opened Board

  datatype Option<T> = None | Some(value: T)

  /** The number of zeros in a row. */
  ghost function ZerosIn(s: seq<int>): nat {
    if s == [] then 0 else (if s[0] == 0 then 1 else 0) + ZerosIn(s[1..])
  }

  /** The number of empty cells in the rows `rows`. */
  ghost function ZerosInRows(rows: seq<seq<int>>): nat {
    if rows == [] then 0 else ZerosIn(rows[0]) + ZerosInRows(rows[1..])
  }

  /** The number of empty cells: what each recursive call of a solver has one fewer of. */
  ghost function ZeroCount(g: Grid): nat {
    ZerosInRows(g)
  }

  /** Filling a zero of a row with a non-zero value removes one zero. */
  lemma {:induction false} ZerosInFill(s: seq<int>, i: int, d: int)
    requires 0 <= i < |s| && s[i] == 0 && d != 0
    ensures ZerosIn(s[i := d]) + 1 == ZerosIn(s)
  {
    if i > 0 {
      assert s[i := d][1..] == s[1..][i - 1 := d];
      ZerosInFill(s[1..], i - 1, d);
    }
  }

  /** Replacing a row by one with a zero fewer removes one empty cell. */
  lemma {:induction false} ZerosInRowsFill(rows: seq<seq<int>>, r: int, row: seq<int>)
    requires 0 <= r < |rows| && ZerosIn(row) + 1 == ZerosIn(rows[r])
    ensures ZerosInRows(rows[r := row]) + 1 == ZerosInRows(rows)
  {
    if r > 0 {
      assert rows[r := row][1..] == rows[1..][r - 1 := row];
      ZerosInRowsFill(rows[1..], r - 1, row);
    }
  }

  /** Placing a non-zero value in an empty cell leaves one empty cell fewer. */
  lemma PlaceCountsDown(g: Grid, row: int, col: int, d: int)
    requires IsGrid(g) && InRange(row) && InRange(col) && g[row][col] == 0 && d != 0
    ensures ZeroCount(Place(g, row, col, d)) + 1 == ZeroCount(g)
  {
    ZerosInFill(g[row], col, d);
    ZerosInRowsFill(g, row, g[row][col := d]);
  }

  /**
   * Every cell at a row-major position in `lo..hi-1` is filled; the cell at
   * row `r`, column `c` has position `9 * r + c`.
   */
  ghost predicate FilledBetween(g: Grid, lo: int, hi: int)
    requires IsGrid(g)
  {
    forall r, c :: InRange(r) && InRange(c) && lo <= 9 * r + c < hi ==> g[r][c] != 0
  }

  /** Two cells with the same position are the same cell. */
  lemma SamePosition(r1: int, c1: int, r2: int, c2: int)
    requires InRange(r1) && InRange(c1) && InRange(r2) && InRange(c2) && 9 * r1 + c1 == 9 * r2 + c2
    ensures r1 == r2 && c1 == c2
  {
  }

  /** A filled cell at position `lo` extends a filled run that starts right after it. */
  lemma FilledStep(g: Grid, row: int, col: int, hi: int)
    requires IsGrid(g) && InRange(row) && InRange(col) && g[row][col] != 0
    requires FilledBetween(g, 9 * row + col + 1, hi)
    ensures FilledBetween(g, 9 * row + col, hi)
  {
    forall r, c | InRange(r) && InRange(c) && 9 * row + col <= 9 * r + c < hi ensures g[r][c] != 0 {
      if 9 * r + c == 9 * row + col {
        SamePosition(r, c, row, col);
      }
    }
  }

  /** A filled run that reaches a filled cell extends past it. */
  lemma FilledExtend(g: Grid, lo: int, row: int, col: int)
    requires IsGrid(g) && InRange(row) && InRange(col) && g[row][col] != 0
    requires FilledBetween(g, lo, 9 * row + col)
    ensures FilledBetween(g, lo, 9 * row + col + 1)
  {
    forall r, c | InRange(r) && InRange(c) && lo <= 9 * r + c < 9 * row + col + 1 ensures g[r][c] != 0 {
      if 9 * r + c == 9 * row + col {
        SamePosition(r, c, row, col);
      }
    }
  }

  /**
   * The first empty cell at or after `(row, col)` in row-major order, where
   * `(row, 9)` stands for `(row + 1, 0)`.
   */
  ghost function FirstEmptyFrom(g: Grid, row: int, col: int): (cell: Option<(int, int)>)
    requires IsGrid(g) && 0 <= row <= 9 && 0 <= col <= 9
    ensures cell.None? <==> FilledBetween(g, 9 * row + col, 81)
    ensures cell.Some? ==>
              InRange(cell.value.0) && InRange(cell.value.1) &&
              9 * row + col <= 9 * cell.value.0 + cell.value.1 &&
              g[cell.value.0][cell.value.1] == 0 &&
              FilledBetween(g, 9 * row + col, 9 * cell.value.0 + cell.value.1)
    decreases 9 - row, 9 - col
  {
    if row == 9 then None
    else if col == 9 then FirstEmptyFrom(g, row + 1, 0)
    else if g[row][col] == 0 then
      assert !FilledBetween(g, 9 * row + col, 81) by {
        assert InRange(row) && InRange(col) && 9 * row + col < 81 && g[row][col] == 0;
      }
      Some((row, col))
    else
      var cell := FirstEmptyFrom(g, row, col + 1);
      if cell.None? then
        FilledStep(g, row, col, 81);
        cell
      else
        FilledStep(g, row, col, 9 * cell.value.0 + cell.value.1);
        cell
  }

  /** The cell the solvers fill next: the first zero scanning rows top to bottom, each left to right. */
  ghost function FirstEmpty(g: Grid): Option<(int, int)>
    requires IsGrid(g)
  {
    FirstEmptyFrom(g, 0, 0)
  }

  /** There is no first empty cell exactly when the board is complete. */
  lemma FirstEmptyNoneIffComplete(g: Grid)
    requires IsGrid(g)
    ensures FirstEmpty(g).None? <==> Complete(g)
  {
  }

  /**
   * The first empty cell is pinned down by being empty with every cell
   * before it filled.
   */
  lemma FirstEmptyIsTheFirst(g: Grid, row: int, col: int)
    requires IsGrid(g) && InRange(row) && InRange(col) && g[row][col] == 0
    requires FilledBetween(g, 0, 9 * row + col)
    ensures FirstEmpty(g) == Some((row, col))
  {
    var cell := FirstEmpty(g);
    assert cell.Some?;
    var (r0, c0) := cell.value;
    assert 9 * r0 + c0 == 9 * row + col;
    SamePosition(r0, c0, row, col);
  }

  /** Every entry is above the one before it. */
  ghost predicate StrictlyAscending(s: seq<int>) {
    forall p, q :: 0 <= p < q < |s| ==> s[p] < s[q]
  }

  /** The digits 1..9 in the order the candidate loop tries them. */
  function Digits(): (ds: seq<int>)
    ensures |ds| == 9 && forall i :: 0 <= i < 9 ==> ds[i] == i + 1
  {
    seq(9, i => i + 1)
  }

  /** The entries of `ds` that pass `isSafe` at `(row, col)`, in the order of `ds`. */
  ghost function CandidatesIn(g: Grid, row: int, col: int, ds: seq<int>): (cands: seq<int>)
    requires IsGrid(g) && InRange(row) && InRange(col)
    ensures forall i :: 0 <= i < |cands| ==> cands[i] in ds
  {
    if ds == [] then []
    else (if Safe(g, row, col, ds[0]) then [ds[0]] else []) + CandidatesIn(g, row, col, ds[1..])
  }

  /** The candidate list a solver builds for the cell `(row, col)`. */
  ghost function Candidates(g: Grid, row: int, col: int): seq<int>
    requires IsGrid(g) && InRange(row) && InRange(col)
  {
    CandidatesIn(g, row, col, Digits())
  }

  /** Keeping some entries of a strictly ascending list keeps it strictly ascending. */
  lemma {:induction false} CandidatesInAscending(g: Grid, row: int, col: int, ds: seq<int>)
    requires IsGrid(g) && InRange(row) && InRange(col) && StrictlyAscending(ds)
    ensures StrictlyAscending(CandidatesIn(g, row, col, ds))
  {
    if ds != [] {
      var rest := CandidatesIn(g, row, col, ds[1..]);
      CandidatesInAscending(g, row, col, ds[1..]);
      forall i | 0 <= i < |rest| ensures ds[0] < rest[i] {
        var j :| 0 <= j < |ds[1..]| && ds[1..][j] == rest[i];
        assert ds[j + 1] == rest[i];
      }
    }
  }

  /** The candidates are digits `1..9`, in strictly ascending order. */
  lemma CandidatesAscending(g: Grid, row: int, col: int)
    requires IsGrid(g) && InRange(row) && InRange(col)
    ensures StrictlyAscending(Candidates(g, row, col))
    ensures forall i :: 0 <= i < |Candidates(g, row, col)| ==> 1 <= Candidates(g, row, col)[i] <= 9
  {
    CandidatesInAscending(g, row, col, Digits());
    var cands := Candidates(g, row, col);
    forall i | 0 <= i < |cands| ensures 1 <= cands[i] <= 9 {
      var j :| 0 <= j < 9 && Digits()[j] == cands[i];
    }
  }

  /** Every candidate passes `isSafe`. */
  lemma {:induction false} CandidatesAreSafe(g: Grid, row: int, col: int, ds: seq<int>)
    requires IsGrid(g) && InRange(row) && InRange(col)
    ensures forall i :: 0 <= i < |CandidatesIn(g, row, col, ds)| ==>
              Safe(g, row, col, CandidatesIn(g, row, col, ds)[i])
  {
    if ds != [] {
      CandidatesAreSafe(g, row, col, ds[1..]);
    }
  }

  /** Every entry of `ds` that passes `isSafe` is among the candidates. */
  lemma {:induction false} SafeDigitIsCandidate(g: Grid, row: int, col: int, ds: seq<int>, d: int)
    requires IsGrid(g) && InRange(row) && InRange(col) && d in ds && Safe(g, row, col, d)
    ensures d in CandidatesIn(g, row, col, ds)
  {
    if ds[0] != d {
      SafeDigitIsCandidate(g, row, col, ds[1..], d);
    }
  }

  /** The candidates are exactly the digits that pass `isSafe`. */
  lemma CandidateIffSafe(g: Grid, row: int, col: int, d: int)
    requires IsGrid(g) && InRange(row) && InRange(col)
    ensures d in Candidates(g, row, col) <==> 1 <= d <= 9 && Safe(g, row, col, d)
  {
    CandidatesAscending(g, row, col);
    CandidatesAreSafe(g, row, col, Digits());
    if 1 <= d <= 9 && Safe(g, row, col, d) {
      assert Digits()[d - 1] == d;
      SafeDigitIsCandidate(g, row, col, Digits(), d);
    }
  }

  /** One step of building the candidate list: the next digit is pushed when it passes `isSafe`. */
  lemma CandidatesPush(g: Grid, row: int, col: int, ds: seq<int>, cands: seq<int>, all: seq<int>)
    requires IsGrid(g) && InRange(row) && InRange(col) && ds != []
    requires cands + CandidatesIn(g, row, col, ds) == all
    ensures (if Safe(g, row, col, ds[0]) then cands + [ds[0]] else cands) + CandidatesIn(g, row, col, ds[1..]) == all
  {
    var ok := Safe(g, row, col, ds[0]);
    var rest := CandidatesIn(g, row, col, ds[1..]);
    assert CandidatesIn(g, row, col, ds) == (if ok then [ds[0]] else []) + rest;
    PushStep(ds[0], ok, cands, rest, all);
  }

  /** The list algebra of one push: `cands + (head + rest) == (cands + head) + rest`. */
  lemma PushStep(d: int, ok: bool, cands: seq<int>, rest: seq<int>, all: seq<int>)
    requires cands + ((if ok then [d] else []) + rest) == all
    ensures (if ok then cands + [d] else cands) + rest == all
  {
    if ok {
      assert cands + ([d] + rest) == (cands + [d]) + rest;
    } else {
      assert [] + rest == rest;
    }
  }

  /**
   * The search: `Some` of the board it fills in, or `None` when every
   * candidate for the first empty cell fails.
   */
  ghost function Search(g: Grid): Option<Grid>
    requires IsGrid(g)
    decreases ZeroCount(g), 1, 0
  {
    match FirstEmpty(g)
    case None => Some(g)
    case Some((row, col)) =>
      CandidatesAscending(g, row, col);
      TryAll(g, row, col, Candidates(g, row, col))
  }

  /** Try `cands` in order in the empty cell `(row, col)` and search on from each. */
  ghost function TryAll(g: Grid, row: int, col: int, cands: seq<int>): Option<Grid>
    requires IsGrid(g) && InRange(row) && InRange(col) && g[row][col] == 0
    requires forall i :: 0 <= i < |cands| ==> cands[i] != 0
    decreases ZeroCount(g), 0, |cands|
  {
    if cands == [] then None
    else
      PlaceCountsDown(g, row, col, cands[0]);
      match Search(Place(g, row, col, cands[0]))
      case Some(s) => Some(s)
      case None => TryAll(g, row, col, cands[1..])
  }

  /** Trying from candidate `k` on: either candidate `k` leads to a board, or the rest is tried. */
  lemma TryFrom(g: Grid, row: int, col: int, cands: seq<int>, k: int)
    requires IsGrid(g) && InRange(row) && InRange(col) && g[row][col] == 0
    requires forall i :: 0 <= i < |cands| ==> cands[i] != 0
    requires 0 <= k < |cands|
    ensures ZeroCount(Place(g, row, col, cands[k])) < ZeroCount(g)
    ensures TryAll(g, row, col, cands[k..]) ==
              if Search(Place(g, row, col, cands[k])).Some? then Search(Place(g, row, col, cands[k]))
              else TryAll(g, row, col, cands[k + 1..])
  {
    PlaceCountsDown(g, row, col, cands[k]);
    assert cands[k..][0] == cands[k] && cands[k..][1..] == cands[k + 1..];
  }

  /**
   * Trying the entries of `ds` as the unsorted solver does: an entry that
   * fails `isSafe` is skipped, one that passes is placed and searched on
   * from, and the rest is tried only if that fails.
   */
  lemma TryNext(g: Grid, row: int, col: int, ds: seq<int>)
    requires IsGrid(g) && InRange(row) && InRange(col) && g[row][col] == 0
    requires ds != [] && 0 !in ds
    ensures ZeroCount(Place(g, row, col, ds[0])) < ZeroCount(g)
    ensures TryAll(g, row, col, CandidatesIn(g, row, col, ds)) ==
              if !Safe(g, row, col, ds[0]) then TryAll(g, row, col, CandidatesIn(g, row, col, ds[1..]))
              else if Search(Place(g, row, col, ds[0])).Some? then Search(Place(g, row, col, ds[0]))
              else TryAll(g, row, col, CandidatesIn(g, row, col, ds[1..]))
  {
    PlaceCountsDown(g, row, col, ds[0]);
    var cands, rest := CandidatesIn(g, row, col, ds), CandidatesIn(g, row, col, ds[1..]);
    if Safe(g, row, col, ds[0]) {
      assert cands == [ds[0]] + rest;
      assert cands[0] == ds[0] && cands[1..] == rest;
    } else {
      assert cands == rest;
    }
  }

  /** A filled board is its own result: a solver given one answers true and writes nothing. */
  lemma SearchOnComplete(g: Grid)
    requires IsGrid(g) && Complete(g)
    ensures Search(g) == Some(g)
  {
    FirstEmptyNoneIffComplete(g);
  }

  /** `Extends` is transitive. */
  lemma ExtendsTrans(g: Grid, h: Grid, s: Grid)
    requires IsGrid(g) && IsGrid(h) && IsGrid(s) && Extends(g, h) && Extends(h, s)
    ensures Extends(g, s)
  {
  }

  /**
   * What the search finds is a filled board that keeps every filled cell it
   * started from, and in which every cell filled since `g0` was placed fine
   * (a digit `1..9` that no peer shares).
   */
  lemma {:induction false} SearchSound(g0: Grid, g: Grid)
    requires IsGrid(g0) && IsGrid(g) && Extends(g0, g) && PlacedFine(g0, g)
    requires Search(g).Some?
    ensures IsGrid(Search(g).value) && Complete(Search(g).value)
    ensures Extends(g, Search(g).value) && PlacedFine(g0, Search(g).value)
    decreases ZeroCount(g), 1, 0
  {
    match FirstEmpty(g)
    case None =>
      FirstEmptyNoneIffComplete(g);
    case Some((row, col)) =>
      CandidatesAscending(g, row, col);
      CandidatesAreSafe(g, row, col, Digits());
      TryAllSound(g0, g, row, col, Candidates(g, row, col));
  }

  /** `SearchSound` for the trying of the candidates of one cell. */
  lemma {:induction false} TryAllSound(g0: Grid, g: Grid, row: int, col: int, cands: seq<int>)
    requires IsGrid(g0) && IsGrid(g) && Extends(g0, g) && PlacedFine(g0, g)
    requires InRange(row) && InRange(col) && g[row][col] == 0
    requires forall i :: 0 <= i < |cands| ==> 1 <= cands[i] <= 9 && Safe(g, row, col, cands[i])
    requires TryAll(g, row, col, cands).Some?
    ensures IsGrid(TryAll(g, row, col, cands).value) && Complete(TryAll(g, row, col, cands).value)
    ensures Extends(g, TryAll(g, row, col, cands).value)
    ensures PlacedFine(g0, TryAll(g, row, col, cands).value)
    decreases ZeroCount(g), 0, |cands|
  {
    var h := Place(g, row, col, cands[0]);
    PlaceCountsDown(g, row, col, cands[0]);
    if Search(h).Some? {
      PlaceKeepsFine(g0, g, row, col, cands[0]);
      SearchSound(g0, h);
      ExtendsTrans(g, h, Search(h).value);
    } else {
      TryAllSound(g0, g, row, col, cands[1..]);
    }
  }

  /** `s` is a solution of `g`: filled in, keeping the givens, with every filled-in cell placed fine. */
  ghost predicate Solves(g: Grid, s: Grid)
    requires IsGrid(g) && IsGrid(s)
  {
    Complete(s) && Extends(g, s) && PlacedFine(g, s)
  }

  /** What a solution places in an empty cell passes `isSafe` on the unfinished board. */
  lemma SolutionDigitIsSafe(g: Grid, s: Grid, row: int, col: int)
    requires IsGrid(g) && IsGrid(s) && Solves(g, s) && InRange(row) && InRange(col) && g[row][col] == 0
    ensures 1 <= s[row][col] <= 9 && Safe(g, row, col, s[row][col])
  {
    var d := s[row][col];
    assert PeersDiffer(s, row, col);
    forall r, c | InRange(r) && InRange(c) && SameUnit(row, col, r, c) ensures g[r][c] != d {
    }
    SafeIffNoPeerHolds(g, row, col, d);
  }

  /** A solution of `g` is one of the board with its value placed in one more cell. */
  lemma SolutionAfterPlace(g: Grid, s: Grid, row: int, col: int)
    requires IsGrid(g) && IsGrid(s) && Solves(g, s) && InRange(row) && InRange(col)
    ensures Solves(Place(g, row, col, s[row][col]), s)
  {
  }

  /**
   * The search is complete: whenever the board has a solution, the search
   * finds one (not necessarily that one).
   */
  lemma {:induction false} SearchComplete(g: Grid, s: Grid)
    requires IsGrid(g) && IsGrid(s) && Solves(g, s)
    ensures Search(g).Some?
    decreases ZeroCount(g), 1, 0
  {
    match FirstEmpty(g)
    case None =>
    case Some((row, col)) =>
      SolutionDigitIsSafe(g, s, row, col);
      CandidateIffSafe(g, row, col, s[row][col]);
      CandidatesAscending(g, row, col);
      TryAllComplete(g, s, row, col, Candidates(g, row, col));
  }

  /** `SearchComplete` for the trying of a list that holds the solution's digit. */
  lemma {:induction false} TryAllComplete(g: Grid, s: Grid, row: int, col: int, cands: seq<int>)
    requires IsGrid(g) && IsGrid(s) && Solves(g, s) && InRange(row) && InRange(col) && g[row][col] == 0
    requires forall i :: 0 <= i < |cands| ==> cands[i] != 0
    requires s[row][col] in cands
    ensures TryAll(g, row, col, cands).Some?
    decreases ZeroCount(g), 0, |cands|
  {
    PlaceCountsDown(g, row, col, cands[0]);
    if cands[0] == s[row][col] {
      SolutionAfterPlace(g, s, row, col);
      SearchComplete(Place(g, row, col, cands[0]), s);
    } else if Search(Place(g, row, col, cands[0])).None? {
      TryAllComplete(g, s, row, col, cands[1..]);
    }
  }

  /** The search succeeds exactly when the board has a solution. */
  lemma SearchSucceedsIffSolvable(g: Grid)
    requires IsGrid(g)
    ensures Search(g).Some? <==> exists s :: IsGrid(s) && Solves(g, s)
  {
    if Search(g).Some? {
      SearchSound(g, g);
      assert Solves(g, Search(g).value);
    }
    if s :| IsGrid(s) && Solves(g, s) {
      SearchComplete(g, s);
    }
  }

  /**
   * What the search finds is a solution; when the givens are consistent it
   * is a valid filled Sudoku.
   */
  lemma SearchSolves(g: Grid)
    requires IsGrid(g) && Search(g).Some?
    ensures IsGrid(Search(g).value) && Solves(g, Search(g).value)
    ensures Consistent(g) ==> Consistent(Search(g).value)
  {
    SearchSound(g, g);
    if Consistent(g) {
      FineCompletionIsConsistent(g, Search(g).value);
    }
  }
}
