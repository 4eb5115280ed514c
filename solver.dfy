/**
 * The four solvers. Each finds the first empty cell, gathers the digits
 * that pass `isSafe` there, and tries them in turn, recursing on the board
 * it changes in place and resetting the cell to 0 when a digit fails.
 * Three of them sort the candidate list first (quicksort, insertion sort,
 * merge sort); the fourth checks `isSafe` while trying.
 *
 * Every solver is proved to do exactly what `Backtracking.Search` describes, so
 * all four leave the same board and give the same answer.
 */
module Solver {
  import opened Board
  import opened Backtracking
  import Sorting

  /**
   * The scan at the head of each solver: rows top to bottom, each left to
   * right, stopping at the first 0.
   */
  method FirstEmptyCell(board: array2<int>) returns (found: bool, row: int, col: int)
    requires board.Length0 == 9 && board.Length1 == 9
    ensures found <==> FirstEmpty(Cells(board)).Some?
    ensures found ==> FirstEmpty(Cells(board)) == Some((row, col))
  {
    ghost var g := Cells(board);
    for i := 0 to 9
      invariant FilledBetween(g, 0, 9 * i)
    {
      for j := 0 to 9
        invariant FilledBetween(g, 0, 9 * i + j)
      {
        if board[i, j] == 0 {
          FirstEmptyIsTheFirst(g, i, j);
          return true, i, j;
        }
        FilledExtend(g, 0, i, j);
      }
    }
    return false, 0, 0;
  }

  /** The candidate list: the digits 1..9 that pass `isSafe`, pushed in ascending order. */
  method CollectCandidates(board: array2<int>, row: int, col: int) returns (cands: seq<int>)
    requires board.Length0 == 9 && board.Length1 == 9 && InRange(row) && InRange(col)
    ensures cands == Candidates(Cells(board), row, col)
  {
    ghost var g := Cells(board);
    cands := [];
    for num := 1 to 10
      invariant cands + CandidatesIn(g, row, col, Digits()[num - 1..]) == Candidates(g, row, col)
    {
      var safe := IsSafe(board, row, col, num);
      ghost var ds := Digits()[num - 1..];
      assert ds[0] == num && ds[1..] == Digits()[num..];
      CandidatesPush(g, row, col, ds, cands, Candidates(g, row, col));
      if safe {
        cands := cands + [num];
      }
    }
    assert Digits()[9..] == [];
  }

  /**
   * Sorting the candidate list changes nothing: it is already in strictly
   * ascending order, and a sorted list is determined by its values.
   */
  lemma SortingCandidatesChangesNothing(g: Grid, row: int, col: int, x: seq<int>)
    requires IsGrid(g) && InRange(row) && InRange(col)
    requires Sorting.Sorted(x) && multiset(x) == multiset(Candidates(g, row, col))
    ensures x == Candidates(g, row, col)
  {
    CandidatesAscending(g, row, col);
    Sorting.SortedUnique(x, Candidates(g, row, col));
  }

  /** The sort a solver applies to its candidate list. */
  datatype Sorter = QuickSorter | InsertionSorter | MergeSorter

  /** A fresh array holding `s`: the candidate vector as the sorts see it. */
  method ToArray(s: seq<int>) returns (a: array<int>)
    ensures fresh(a) && a[..] == s
  {
    a := new int[|s|];
    for i := 0 to |s|
      invariant a[..i] == s[..i]
    {
      a[i] := s[i];
    }
    assert a[..] == a[..|s|];
  }

  /**
   * Sorts the candidate array with the chosen sort; on an empty list the
   * upper index `size() - 1` is -1.
   */
  method SortWith(nums: array<int>, sorter: Sorter)
    modifies nums
    ensures Sorting.Sorted(nums[..]) && multiset(nums[..]) == old(multiset(nums[..]))
  {
    ghost var before := nums[..];
    match sorter
    case QuickSorter =>
      Sorting.QuickSort(nums, 0, nums.Length - 1);
      Sorting.SortsWhole(before, nums[..]);
    case InsertionSorter =>
      Sorting.InsertionSort(nums);
    case MergeSorter =>
      Sorting.MergeSort(nums, 0, nums.Length - 1);
      Sorting.SortsWhole(before, nums[..]);
  }

  /**
   * The solver that sorts its candidates with `sorter`. It answers whether
   * the search succeeds; on success the board holds what the search finds,
   * on failure it is exactly as it was.
   */
  method SolveSorted(board: array2<int>, sorter: Sorter) returns (solved: bool)
    requires board.Length0 == 9 && board.Length1 == 9
    modifies board
    ensures solved == Search(old(Cells(board))).Some?
    ensures solved ==> Cells(board) == Search(old(Cells(board))).value
    ensures !solved ==> Cells(board) == old(Cells(board))
    decreases ZeroCount(Cells(board)), 1
  {
    ghost var g := Cells(board);
    var found, row, col := FirstEmptyCell(board);
    if !found {
      return true;
    }
    var cands := CollectCandidates(board, row, col);
    CandidatesAscending(g, row, col);
    var nums := ToArray(cands);
    SortWith(nums, sorter);
    SortingCandidatesChangesNothing(g, row, col, nums[..]);
    solved := TryCandidates(board, row, col, nums, sorter);
  }

  /**
   * The loop over the sorted candidates of the empty cell `(row, col)`:
   * each is written in, the solver recurses, and the cell is reset to 0
   * when that fails.
   */
  method TryCandidates(board: array2<int>, row: int, col: int, nums: array<int>, sorter: Sorter)
    returns (solved: bool)
    requires board.Length0 == 9 && board.Length1 == 9 && InRange(row) && InRange(col)
    requires board[row, col] == 0
    requires forall i :: 0 <= i < nums.Length ==> nums[i] != 0
    modifies board
    ensures solved == TryAll(old(Cells(board)), row, col, nums[..]).Some?
    ensures solved ==> Cells(board) == TryAll(old(Cells(board)), row, col, nums[..]).value
    ensures !solved ==> Cells(board) == old(Cells(board))
    decreases ZeroCount(Cells(board)), 0
  {
    ghost var g := Cells(board);
    ghost var cands := nums[..];
    for k := 0 to nums.Length
      invariant Cells(board) == g
      invariant TryAll(g, row, col, cands) == TryAll(g, row, col, cands[k..])
    {
      var num := nums[k];
      Write(board, row, col, num);
      TryFrom(g, row, col, cands, k);
      solved := SolveSorted(board, sorter);
      if solved {
        return;
      }
      Write(board, row, col, 0);
      PlaceErase(g, row, col, num);
    }
    assert cands[nums.Length..] == [];
    return false;
  }

  /** `solveSudokuWithQuickSort`. */
  method SolveWithQuickSort(board: array2<int>) returns (solved: bool)
    requires board.Length0 == 9 && board.Length1 == 9
    modifies board
    ensures solved == Search(old(Cells(board))).Some?
    ensures solved ==> Cells(board) == Search(old(Cells(board))).value
    ensures !solved ==> Cells(board) == old(Cells(board))
  {
    solved := SolveSorted(board, QuickSorter);
  }

  /** `solveSudokuWithInsertion`. */
  method SolveWithInsertion(board: array2<int>) returns (solved: bool)
    requires board.Length0 == 9 && board.Length1 == 9
    modifies board
    ensures solved == Search(old(Cells(board))).Some?
    ensures solved ==> Cells(board) == Search(old(Cells(board))).value
    ensures !solved ==> Cells(board) == old(Cells(board))
  {
    solved := SolveSorted(board, InsertionSorter);
  }

  /** `solveSudokuWithMergeSort`. */
  method SolveWithMergeSort(board: array2<int>) returns (solved: bool)
    requires board.Length0 == 9 && board.Length1 == 9
    modifies board
    ensures solved == Search(old(Cells(board))).Some?
    ensures solved ==> Cells(board) == Search(old(Cells(board))).value
    ensures !solved ==> Cells(board) == old(Cells(board))
  {
    solved := SolveSorted(board, MergeSorter);
  }

  /**
   * `solveSudokuBasic`: no candidate list; each digit 1..9 is checked with
   * `isSafe` just before it is tried.
   */
  method SolveBasic(board: array2<int>) returns (solved: bool)
    requires board.Length0 == 9 && board.Length1 == 9
    modifies board
    ensures solved == Search(old(Cells(board))).Some?
    ensures solved ==> Cells(board) == Search(old(Cells(board))).value
    ensures !solved ==> Cells(board) == old(Cells(board))
    decreases ZeroCount(Cells(board))
  {
    ghost var g := Cells(board);
    var found, row, col := FirstEmptyCell(board);
    if !found {
      return true;
    }
    for num := 1 to 10
      invariant Cells(board) == g
      invariant TryAll(g, row, col, Candidates(g, row, col)) ==
                  TryAll(g, row, col, CandidatesIn(g, row, col, Digits()[num - 1..]))
    {
      var safe := IsSafe(board, row, col, num);
      ghost var ds := Digits()[num - 1..];
      assert ds[0] == num && ds[1..] == Digits()[num..];
      TryNext(g, row, col, ds);
      if safe {
        Write(board, row, col, num);
        solved := SolveBasic(board);
        if solved {
          return;
        }
        Write(board, row, col, 0);
        PlaceErase(g, row, col, num);
      }
    }
    assert Digits()[9..] == [];
    return false;
  }
}
