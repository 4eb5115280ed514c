# Backtracking Sudoku solver with three in-place sorts

`proyecto_f.cpp` solves a 9×9 Sudoku by backtracking, in four variants. Each
variant finds the first empty cell (a 0) in row-major order. It collects the
digits 1..9 that `isSafe` allows there and tries them one after another. It
recurses on the same board, which it changes in place, and resets the cell to
0 when a digit fails. Three variants first sort the candidate list: with
quicksort (Lomuto partition on the last element), with insertion sort, or with
top-down merge sort using two temporary buffers. The fourth checks `isSafe`
while trying.

This project models that program in Dafny:

- `board.dfy` (module `Board`): the board as a 9×9 `array2<int>`.
  - `Cells` is its value as a grid.
  - `IsSafe` is the row, column and box scan, proved equal to the predicate `Safe`.
  - `Safe` in turn is proved equal to "no peer holds the digit".
  - `Write` is the in-place cell assignment.
  - `PlacedFine` and `Consistent` say what a correct filling is.
- `sorting.dfy` (module `Sorting`): the three sorts on `array<int>`, with their loops.
  - Each is proved to sort its index range into a permutation of its old contents and to leave the rest of the array unchanged.
  - `QuickSort` and `MergeSort` do nothing when the upper index is not above the lower one, including -1.
- `search.dfy` (module `Backtracking`): the search as a ghost function, `Search`.
  - It takes the first empty cell and the candidates in ascending order, and tries them in turn.
  - It is proved sound: what it returns is a complete board that keeps every given and in which every filled-in digit differs from its peers.
  - It is proved complete: it succeeds exactly when the board has such a solution.
- `solver.dfy` (module `Solver`): the four solvers as recursive methods on the board.
  - Each is proved to answer `Search(old board).Some?`.
  - On success each leaves exactly the board the search describes. On failure each leaves the board exactly as it was.
  - The candidate list is already strictly ascending, so every sort leaves it as it is. The four solvers therefore make the same assignments and end with the same board.

## Model

| member | source | states |
|---|---|---|
| Board.BoxStart | proyecto_f.cpp:32 | for a row or column in 0..8, `x - x % 3` is a multiple of 3 with `b <= x < b + 3 <= 9`, so the box lies on the board |
| Board.SameBox | proyecto_f.cpp:32-35 | two indices share a box start exactly when the second lies in the three indices from the first's box start |
| Board.IsSafe | proyecto_f.cpp:26-40 | the scan answers true exactly when `num` is not in the row, not in the column and not in the 3×3 box of the cell; it only reads the board |
| Board.SafeIffNoPeerHolds | proyecto_f.cpp:26-40 | `isSafe` holds exactly when no cell sharing a row, column or box with the cell holds `num` |
| Board.Write | proyecto_f.cpp:113 | writing a cell in place gives the old grid with that one cell changed |
| Board.PlaceErase | proyecto_f.cpp:117 | resetting to 0 a cell that was empty gives back the board the digit was placed on |
| Board.PlaceKeepsFine | proyecto_f.cpp:106-113 | placing a digit 1..9 that passes `isSafe` in an empty cell keeps every filled-in cell different from its peers |
| Board.FineCompletionIsConsistent | proyecto_f.cpp:100-124 | a completed board whose filled-in cells all differ from their peers has no two equal peers when the givens had none |
| Sorting.InsertionSort | proyecto_f.cpp:42-52 | the array ends sorted in non-decreasing order, with the same multiset of elements |
| Sorting.MergedPermutation | proyecto_f.cpp:63-70 | the merge of two runs holds exactly the elements of both |
| Sorting.MergedSorted | proyecto_f.cpp:63-70 | merging two sorted runs, taking from the left run on ties, gives a sorted run |
| Sorting.Merge | proyecto_f.cpp:54-71 | `nums[left..right]` becomes the merge of the old halves `[left..mid]` and `[mid+1..right]`; it is sorted when both halves were, holds the same multiset, and nothing outside `[left, right]` changes |
| Sorting.CopyRun | proyecto_f.cpp:58-61 | the temporary buffer is a fresh array equal to the run `nums[from .. from + n)` it copies |
| Sorting.MergeBoth | proyecto_f.cpp:64-67 | the two-buffer loop stops when one buffer is used up; the steps written so far are the first steps of the merge, tracked by `Cursor`/`Written`, with nothing outside the range changed |
| Sorting.DrainLeft | proyecto_f.cpp:69 | draining the rest of `L` continues the merge steps (`Cursor`/`Written`) until `L` is used up, with nothing outside the range changed |
| Sorting.DrainRight | proyecto_f.cpp:70 | draining the rest of `R` completes the merge steps (`Written`) for the whole range, with nothing outside the range changed |
| Sorting.MergeBuffers | proyecto_f.cpp:63-70 | the three loops leave `a[left .. left + L.Length + R.Length)` equal to `Merged(L, R)`, with nothing outside that range changed |
| Sorting.MergeSort | proyecto_f.cpp:73-80 | for `left < right` the range ends sorted, holds the same multiset and nothing outside it changes; otherwise, `right = -1` included, the array is unchanged |
| Sorting.Swap | proyecto_f.cpp:89 | the two entries are exchanged and nothing else changes |
| Sorting.Partition | proyecto_f.cpp:84-93 | `nums[pi]` is the old pivot `nums[high]`, everything in `[low, pi)` is at most it, everything in `(pi, high]` is above it, the range keeps its multiset and nothing outside it changes |
| Sorting.QuickSort | proyecto_f.cpp:82-98 | for `low < high` the range ends sorted, holds the same multiset and nothing outside it changes; otherwise, `high = -1` included, the array is unchanged |
| Sorting.SortsWhole | proyecto_f.cpp:110 | sorting the index range `0 .. size() - 1` sorts the whole vector and keeps its elements |
| Sorting.SortedUnique | proyecto_f.cpp:110 | two sorted sequences with the same elements are equal, so a sort leaves a sorted list as it is |
| Backtracking.PlaceCountsDown | proyecto_f.cpp:113-114 | filling an empty cell with a nonzero digit leaves exactly one zero fewer, which bounds the recursion |
| Backtracking.FirstEmptyFrom | proyecto_f.cpp:101-103 | the scan from a position finds nothing exactly when every later cell is filled; what it finds is an empty cell, and every cell before it is filled |
| Backtracking.FirstEmptyNoneIffComplete | proyecto_f.cpp:101-123 | the scan finds no empty cell exactly when the board is complete |
| Backtracking.FirstEmptyIsTheFirst | proyecto_f.cpp:101-103 | an empty cell with every earlier cell (row-major) filled is the one the scan finds |
| Backtracking.CandidatesAscending | proyecto_f.cpp:104-109 | the candidate list consists of digits 1..9 in strictly ascending order |
| Backtracking.CandidatesAreSafe | proyecto_f.cpp:105-107 | every candidate passes `isSafe` |
| Backtracking.SafeDigitIsCandidate | proyecto_f.cpp:105-107 | every tried digit that passes `isSafe` is pushed |
| Backtracking.CandidateIffSafe | proyecto_f.cpp:104-109 | a value is a candidate exactly when it is a digit 1..9 that passes `isSafe` |
| Backtracking.CandidatesPush | proyecto_f.cpp:105-108 | one turn of the candidate loop pushes the digit exactly when it passes `isSafe`, and the list built so far together with the rest's candidates still gives the whole list |
| Backtracking.TryFrom | proyecto_f.cpp:112-118 | trying from candidate `k` gives what candidate `k` leads to when that succeeds, and otherwise what the candidates after it give |
| Backtracking.TryNext | proyecto_f.cpp:182-190 | the unsorted solver's loop turn skips a digit that fails `isSafe`, returns what a passing digit leads to when that succeeds, and otherwise goes on with the next digit |
| Backtracking.SearchOnComplete | proyecto_f.cpp:123 | a board with no empty cell is its own result: the solver answers true and writes nothing |
| Backtracking.SearchSound | proyecto_f.cpp:100-124 | what the search returns has no empty cell, keeps every filled cell of its input, and every digit filled in since the start differs from all its peers |
| Backtracking.SearchComplete | proyecto_f.cpp:100-124 | when the board has a solution, the search succeeds |
| Backtracking.SearchSucceedsIffSolvable | proyecto_f.cpp:100-124 | the search succeeds exactly when the board has a solution |
| Backtracking.SearchSolves | proyecto_f.cpp:100-124 | what the search returns is a solution of its input, and a valid filled Sudoku when the givens are consistent |
| Solver.FirstEmptyCell | proyecto_f.cpp:101-103 | the nested scan finds a cell exactly when the board has an empty one, and the cell it finds is the first empty cell in row-major order |
| Solver.CollectCandidates | proyecto_f.cpp:104-109 | the pushed list is exactly the candidate list: the digits 1..9 that pass `isSafe`, in ascending order |
| Solver.ToArray | proyecto_f.cpp:104 | the candidate vector as a fresh array holding the list |
| Solver.SortingCandidatesChangesNothing | proyecto_f.cpp:110 | any sorted permutation of the candidate list is the list itself |
| Solver.SortWith | proyecto_f.cpp:110 | each of the three sorts, called as the solvers call it (quicksort and merge sort on `0 .. size() - 1`), leaves the candidates sorted with the same elements |
| Solver.SolveSorted | proyecto_f.cpp:100-124 | the answer is whether the search succeeds; on success the board holds what the search returns, on failure it is exactly the input |
| Solver.TryCandidates | proyecto_f.cpp:112-119 | trying the sorted candidates in turn answers as the search's trying does; each failed digit is reset, so on failure the board is exactly as before |
| Solver.SolveWithQuickSort | proyecto_f.cpp:100-124 | as `SolveSorted`, sorting with quicksort |
| Solver.SolveWithInsertion | proyecto_f.cpp:126-150 | as `SolveSorted`, sorting with insertion sort |
| Solver.SolveWithMergeSort | proyecto_f.cpp:152-176 | as `SolveSorted`, sorting with merge sort |
| Solver.SolveBasic | proyecto_f.cpp:178-196 | checking `isSafe` inside the trying loop gives the same answer and board as the search: success gives its result, failure leaves the input |

## Left out

- `printSudoku`: console output only.
- `main`: it times the four solvers with a wall clock, ranks the times as floating-point numbers and prints them. All of that is left out, and so is the hard-coded puzzle. The model proves properties for every board instead of solving that one.
- The board's entries are not restricted to 0..9. The program does not restrict them either, and every property above holds for any integer entries.
- Integer width: every index stays within -1..9 (`low - 1` in the partition, `j` in insertion sort, `pi - 1`, `size() - 1` as `int`) and every digit `num` within 1..9; board entries are only compared, so 32-bit `int` arithmetic cannot overflow (the unsigned wrap of `size() - 1` is the next line's case). Integers are unbounded here.
- `candidates.size() - 1`: the unsigned subtraction wraps on an empty vector, and the conversion to `int` yields -1. The model passes `Length - 1`, which is -1 on an empty array.
- The candidate `vector` is built with `push_back` as a sequence and copied into a fresh array for the in-place sort. The buffers `L` and `R` of `merge` are fresh arrays.
- Several blocks are their own methods here, with the same loops and branches. No behaviour changes:
  - the scan for the first empty cell, the candidate loop and the trying loop of the solvers
  - the partition loop and `swap` of `quickSort`
  - the copying, merging and draining loops of `merge`
  - the cell assignment
- The three sorting solvers share one method, `SolveSorted`, parameterised by the sort.
- `SolveBasic` is its own method, because it has no candidate list.
- Properties about a cell the solver placed are stated in terms of the final board: every filled-in digit differs from all its peers. "It passed `isSafe` when it was placed" is not stated as such. `PlaceKeepsFine` is the step that links the two.
- The solvers' cost and the comparison of the sorts' speed are not modelled.
