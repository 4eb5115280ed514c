/**
 * The three in-place integer sorts the solver uses to order its candidate
 * digits: insertion sort, top-down merge sort with two temporary buffers,
 * and quicksort with a Lomuto partition on the last element.
 *
 * Index parameters are `int`, as in the source: a call on an empty
 * candidate list passes `right`/`high` equal to -1, and both recursive
 * sorts are then no-ops.
 */
module Sorting {

  // ---------------------------------------------------------------------
  // Orders and the specification of a range sort
  // ---------------------------------------------------------------------

  /** Non-decreasing order. */
  ghost predicate Sorted(s: seq<int>) {
    forall p, q :: 0 <= p < q < |s| ==> s[p] <= s[q]
  }

  /** Every element is at most `x`. */
  ghost predicate AllAtMost(s: seq<int>, x: int) {
    forall k :: 0 <= k < |s| ==> s[k] <= x
  }

  /** Every element is greater than `x`. */
  ghost predicate AllAbove(s: seq<int>, x: int) {
    forall k :: 0 <= k < |s| ==> x < s[k]
  }

  /** `after` agrees with `before` everywhere outside positions `lo..hi` (inclusive). */
  ghost predicate SameOutside(before: seq<int>, after: seq<int>, lo: int, hi: int) {
    |after| == |before| && forall p :: 0 <= p < |before| && !(lo <= p <= hi) ==> after[p] == before[p]
  }

  /**
   * What the two recursive sorts promise about the array before and after a
   * call on `lo..hi` (inclusive): when the range has two or more entries it
   * lies within the array and comes out sorted with the same values, and
   * nothing outside it changes; otherwise nothing changes at all.
   */
  ghost predicate SortsRange(before: seq<int>, after: seq<int>, lo: int, hi: int) {
    if lo < hi then
      0 <= lo && hi < |before| && SameOutside(before, after, lo, hi) &&
      Sorted(after[lo..hi + 1]) && multiset(after[lo..hi + 1]) == multiset(before[lo..hi + 1])
    else after == before
  }

  /** Sorting the whole of a sequence by index range sorts it and keeps its values. */
  lemma SortsWhole(before: seq<int>, after: seq<int>)
    requires SortsRange(before, after, 0, |before| - 1)
    ensures Sorted(after) && multiset(after) == multiset(before)
  {
    if 0 < |before| - 1 {
      assert after[0..|before|] == after && before[0..|before|] == before;
    }
  }

  /** A sort of `lo..hi` changes nothing outside any wider range `lo2..hi2`. */
  lemma SortsRangeOutside(before: seq<int>, after: seq<int>, lo: int, hi: int, lo2: int, hi2: int)
    requires SortsRange(before, after, lo, hi) && lo2 <= lo && hi <= hi2
    ensures SameOutside(before, after, lo2, hi2)
  {
  }

  /** Two changes inside `lo..hi` make one change inside `lo..hi`. */
  lemma SameOutsideTrans(x: seq<int>, y: seq<int>, z: seq<int>, lo: int, hi: int)
    requires SameOutside(x, y, lo, hi) && SameOutside(y, z, lo, hi)
    ensures SameOutside(x, z, lo, hi)
  {
  }

  /**
   * A sorted sequence is determined by its multiset of elements: any two
   * sorted orderings of the same values are equal. So all three sorts give
   * the same output, and sorting an already sorted sequence changes nothing.
   */
  lemma {:induction false} SortedUnique(s: seq<int>, t: seq<int>)
    requires Sorted(s) && Sorted(t)
    requires multiset(s) == multiset(t)
    ensures s == t
  {
    assert |s| == |multiset(s)| == |multiset(t)| == |t|;
    if s != [] {
      assert s[0] == t[0] by {
        assert s[0] in multiset(t) && t[0] in multiset(s);
        SortedHeadIsLeast(t, s[0]);
        SortedHeadIsLeast(s, t[0]);
      }
      assert multiset(s[1..]) == multiset(t[1..]) by {
        assert s == [s[0]] + s[1..] && t == [t[0]] + t[1..];
        assert multiset(s) == multiset{s[0]} + multiset(s[1..]);
        assert multiset(t) == multiset{s[0]} + multiset(t[1..]);
        assert multiset(s[1..]) == multiset(s) - multiset{s[0]};
      }
      SortedTail(s);
      SortedTail(t);
      SortedUnique(s[1..], t[1..]);
    }
  }

  /** The head of a sorted sequence is its least element. */
  lemma SortedHeadIsLeast(s: seq<int>, x: int)
    requires Sorted(s) && x in s
    ensures s[0] <= x
  {
    var i :| 0 <= i < |s| && s[i] == x;
  }

  lemma SortedTail(s: seq<int>)
    requires Sorted(s) && s != []
    ensures Sorted(s[1..])
  {
    forall p, q | 0 <= p < q < |s| - 1 ensures s[1..][p] <= s[1..][q] {
      assert s[1..][p] == s[p + 1] && s[1..][q] == s[q + 1];
    }
  }

  /** Values bounded by `x` stay bounded under any permutation. */
  lemma PermutationKeepsBounds(s: seq<int>, t: seq<int>, x: int)
    requires multiset(s) == multiset(t)
    ensures AllAtMost(s, x) ==> AllAtMost(t, x)
    ensures AllAbove(s, x) ==> AllAbove(t, x)
  {
    forall k | 0 <= k < |t|
      ensures exists m :: 0 <= m < |s| && s[m] == t[k]
    {
      assert t[k] in multiset(t);
      assert t[k] in s;
    }
  }

  // ---------------------------------------------------------------------
  // Ranges, frames and multisets: facts the three sorts share
  // ---------------------------------------------------------------------

  /** Exchanging two entries keeps the multiset. */
  lemma SwapKeepsValues(s: seq<int>, i: int, j: int)
    requires 0 <= i < |s| && 0 <= j < |s|
    ensures multiset(s[i := s[j]][j := s[i]]) == multiset(s)
  {
    if i != j {
      var t := s[i := s[j]];
      assert multiset(t) == multiset(s) - multiset{s[i]} + multiset{s[j]};
    }
  }

  /** With nothing outside `lo..hi` changed, the values inside are kept if all values are. */
  lemma RangeMultiset(x: seq<int>, y: seq<int>, lo: int, hi: int)
    requires 0 <= lo <= hi < |x|
    requires SameOutside(x, y, lo, hi) && multiset(y) == multiset(x)
    ensures multiset(y[lo..hi + 1]) == multiset(x[lo..hi + 1])
  {
    SliceUnchanged(x, y, 0, lo, lo, hi);
    SliceUnchanged(x, y, hi + 1, |x|, lo, hi);
    MiddleMultiset(x, y, lo, hi + 1);
  }

  /** Two sequences with the same values and the same outer parts have the same middle values. */
  lemma MiddleMultiset(x: seq<int>, y: seq<int>, lo: int, hi: int)
    requires 0 <= lo <= hi <= |x| == |y|
    requires y[..lo] == x[..lo] && y[hi..] == x[hi..] && multiset(y) == multiset(x)
    ensures multiset(y[lo..hi]) == multiset(x[lo..hi])
  {
    MultisetThirds(x, lo, hi);
    MultisetThirds(y, lo, hi);
    MultisetCancel(multiset(x[..lo]), multiset(y[lo..hi]), multiset(x[lo..hi]), multiset(x[hi..]));
  }

  /** Equal totals with equal outer parts have equal middle parts. */
  lemma MultisetCancel(a: multiset<int>, m: multiset<int>, n: multiset<int>, b: multiset<int>)
    requires a + m + b == a + n + b
    ensures m == n
  {
    forall v ensures m[v] == n[v] {
      assert (a + m + b)[v] == (a + n + b)[v];
    }
  }

  /** The values of a sequence are those of its three parts around `lo..hi`. */
  lemma MultisetThirds(x: seq<int>, lo: int, hi: int)
    requires 0 <= lo <= hi <= |x|
    ensures multiset(x) == multiset(x[..lo]) + multiset(x[lo..hi]) + multiset(x[hi..])
  {
    assert x == x[..lo] + x[lo..hi] + x[hi..];
  }

  /** A range splits into the part before position `m`, its entry, and the part after. */
  lemma SplitAround(s: seq<int>, lo: int, m: int, hi: int)
    requires 0 <= lo <= m < hi <= |s|
    ensures s[lo..hi] == s[lo..m] + [s[m]] + s[m + 1..hi]
  {
  }

  /** Entries outside the positions `from..to` (inclusive) are the same in `x` and `y`. */
  lemma SliceUnchanged(x: seq<int>, y: seq<int>, lo: int, hi: int, from: int, to: int)
    requires SameOutside(x, y, from, to) && 0 <= lo <= hi <= |x|
    requires hi <= from || to < lo
    ensures y[lo..hi] == x[lo..hi]
  {
    forall p | lo <= p < hi ensures y[p] == x[p] {
    }
  }

  // ---------------------------------------------------------------------
  // Insertion sort
  // ---------------------------------------------------------------------

  /** Sorts all of `a` by shifting each key left past the larger elements. */
  method InsertionSort(a: array<int>)
    modifies a
    ensures Sorted(a[..])
    ensures multiset(a[..]) == old(multiset(a[..]))
  {
    var i := 1;
    while i < a.Length
      invariant 1 <= i && (a.Length == 0 || i <= a.Length)
      invariant a.Length == 0 || Sorted(a[..i])
      invariant multiset(a[..]) == old(multiset(a[..]))
    {
      ghost var before := a[..];
      var key := a[i];
      var j := i - 1;
      while j >= 0 && a[j] > key
        invariant Shifting(before, a[..], i, j)
        decreases j
      {
        ghost var s := a[..];
        a[j + 1] := a[j];
        ShiftStep(before, s, i, j);
        j := j - 1;
      }
      ghost var s := a[..];
      a[j + 1] := key;
      InsertStep(before, s, i, j);
      i := i + 1;
    }
    assert a.Length == 0 || a[..] == a[..i];
  }

  /**
   * The state of the inner loop of insertion sort, shifting the key
   * `before[i]` left: the entries up to `j` are untouched, those after
   * `j + 1` up to `i` hold the ones before them, the rest are untouched,
   * and every entry passed over is larger than the key. Position `j + 1`
   * is the hole the key goes into.
   */
  ghost predicate Shifting(before: seq<int>, s: seq<int>, i: int, j: int) {
    1 <= i < |before| == |s| && -1 <= j < i &&
    (forall k :: 0 <= k <= j ==> s[k] == before[k]) &&
    (forall k :: j + 2 <= k <= i ==> s[k] == before[k - 1]) &&
    (forall k :: i < k < |s| ==> s[k] == before[k]) &&
    (forall k :: j + 1 <= k < i ==> before[i] < before[k])
  }

  /** One pass of the inner loop: `a[j + 1] = a[j]` past an entry larger than the key. */
  lemma ShiftStep(before: seq<int>, s: seq<int>, i: int, j: int)
    requires Shifting(before, s, i, j) && 0 <= j && s[j] > before[i]
    ensures Shifting(before, s[j + 1 := s[j]], i, j - 1)
  {
  }

  /**
   * Dropping the key into the hole once the inner loop stops gives a sorted
   * prefix one longer, and the same values as before the pass.
   */
  lemma InsertStep(before: seq<int>, s: seq<int>, i: int, j: int)
    requires Shifting(before, s, i, j) && Sorted(before[..i])
    requires j < 0 || s[j] <= before[i]
    ensures Sorted(s[j + 1 := before[i]][..i + 1])
    ensures multiset(s[j + 1 := before[i]]) == multiset(before)
  {
    var after := s[j + 1 := before[i]];
    assert MovedDown(before, after, i, j + 1);
    InsertedSorted(before, after, i, j + 1);
    InsertedPermutation(before, after, i, j + 1);
  }

  /**
   * `after` is `before` with its element at `i` moved down to position `m`
   * and the elements `before[m..i)` shifted up by one.
   */
  ghost predicate MovedDown(before: seq<int>, after: seq<int>, i: int, m: int) {
    0 <= m <= i < |before| == |after| &&
    (forall k :: 0 <= k < m ==> after[k] == before[k]) &&
    after[m] == before[i] &&
    (forall k :: m < k <= i ==> after[k] == before[k - 1]) &&
    (forall k :: i < k < |after| ==> after[k] == before[k])
  }

  /** Inserting the key at the place the shifting loop stops keeps the prefix sorted. */
  lemma InsertedSorted(before: seq<int>, after: seq<int>, i: int, m: int)
    requires MovedDown(before, after, i, m)
    requires Sorted(before[..i])
    requires m > 0 ==> before[m - 1] <= before[i]
    requires forall k :: m <= k < i ==> before[i] < before[k]
    ensures Sorted(after[..i + 1])
  {
    forall p, q | 0 <= p < q <= i ensures after[p] <= after[q] {
      assert before[..i][p] == before[p];
      if 0 < m && q <= m && p < m - 1 {
        assert before[..i][m - 1] == before[m - 1];
      }
      if q > m {
        assert before[..i][q - 1] == before[q - 1];
      }
      if p < m && q > m {
        assert before[..i][m - 1] == before[m - 1];
      }
    }
  }

  /** Moving one element changes no multiplicity. */
  lemma InsertedPermutation(before: seq<int>, after: seq<int>, i: int, m: int)
    requires MovedDown(before, after, i, m)
    ensures multiset(after) == multiset(before)
  {
    var p, x, q, r := before[..m], before[i], before[m..i], before[i + 1..];
    assert after == p + [x] + q + r by {
      MovedDownShape(before, after, i, m);
    }
    assert before == p + q + [x] + r;
    MoveKeepsValues(p, x, q, r);
  }

  /** Where the entries of `after` come from, as a sequence equation. */
  lemma MovedDownShape(before: seq<int>, after: seq<int>, i: int, m: int)
    requires MovedDown(before, after, i, m)
    ensures after == before[..m] + [before[i]] + before[m..i] + before[i + 1..]
  {
  }

  /** Moving one value within a sequence keeps its multiset. */
  lemma MoveKeepsValues(p: seq<int>, x: int, q: seq<int>, r: seq<int>)
    ensures multiset(p + [x] + q + r) == multiset(p + q + [x] + r)
  {
  }

  // ---------------------------------------------------------------------
  // Merge sort
  // ---------------------------------------------------------------------

  /**
   * The merge of two sequences as the merge loop produces it: the smaller
   * head first, and the head of `xs` (the left buffer) on a tie.
   */
  function Merged(xs: seq<int>, ys: seq<int>): seq<int>
    decreases |xs| + |ys|
  {
    if xs == [] then ys
    else if ys == [] then xs
    else if xs[0] <= ys[0] then [xs[0]] + Merged(xs[1..], ys)
    else [ys[0]] + Merged(xs, ys[1..])
  }

  /** Merging loses and duplicates nothing. */
  lemma {:induction false} MergedPermutation(xs: seq<int>, ys: seq<int>)
    ensures multiset(Merged(xs, ys)) == multiset(xs) + multiset(ys)
    decreases |xs| + |ys|
  {
    if xs != [] && ys != [] {
      if xs[0] <= ys[0] {
        var m := Merged(xs[1..], ys);
        MergedPermutation(xs[1..], ys);
        assert Merged(xs, ys) == [xs[0]] + m;
        assert multiset([xs[0]] + m) == multiset{xs[0]} + multiset(m);
        assert xs == [xs[0]] + xs[1..];
        assert multiset(xs) == multiset{xs[0]} + multiset(xs[1..]);
      } else {
        var m := Merged(xs, ys[1..]);
        MergedPermutation(xs, ys[1..]);
        assert Merged(xs, ys) == [ys[0]] + m;
        assert multiset([ys[0]] + m) == multiset{ys[0]} + multiset(m);
        assert ys == [ys[0]] + ys[1..];
        assert multiset(ys) == multiset{ys[0]} + multiset(ys[1..]);
      }
    }
  }

  /** Merging keeps the total length. */
  lemma {:induction false} MergedLength(xs: seq<int>, ys: seq<int>)
    ensures |Merged(xs, ys)| == |xs| + |ys|
    decreases |xs| + |ys|
  {
    if xs != [] && ys != [] {
      if xs[0] <= ys[0] {
        MergedLength(xs[1..], ys);
      } else {
        MergedLength(xs, ys[1..]);
      }
    }
  }

  /** Merging two sorted sequences gives a sorted sequence. */
  lemma {:induction false} MergedSorted(xs: seq<int>, ys: seq<int>)
    requires Sorted(xs) && Sorted(ys)
    ensures Sorted(Merged(xs, ys))
    decreases |xs| + |ys|
  {
    if xs != [] && ys != [] {
      if xs[0] <= ys[0] {
        SortedTail(xs);
        MergedSorted(xs[1..], ys);
        MergedHeadAtLeast(xs[0], xs[1..], ys);
        SortedCons(xs[0], Merged(xs[1..], ys));
      } else {
        SortedTail(ys);
        MergedSorted(xs, ys[1..]);
        MergedHeadAtLeast(ys[0], xs, ys[1..]);
        SortedCons(ys[0], Merged(xs, ys[1..]));
      }
    }
  }

  /** A bound on both heads bounds the head of the merge. */
  lemma MergedHeadAtLeast(h: int, xs: seq<int>, ys: seq<int>)
    requires xs != [] ==> h <= xs[0]
    requires ys != [] ==> h <= ys[0]
    ensures Merged(xs, ys) != [] ==> h <= Merged(xs, ys)[0]
  {
  }

  /** Prepending a value no larger than the head keeps a sequence sorted. */
  lemma SortedCons(h: int, m: seq<int>)
    requires Sorted(m) && (m != [] ==> h <= m[0])
    ensures Sorted([h] + m)
  {
    forall p, q | 0 <= p < q < |m| + 1 ensures ([h] + m)[p] <= ([h] + m)[q] {
      if p == 0 {
        assert ([h] + m)[q] == m[q - 1];
      } else {
        assert ([h] + m)[p] == m[p - 1] && ([h] + m)[q] == m[q - 1];
      }
    }
  }

  /**
   * Merges the adjacent runs `a[left..mid]` and `a[mid+1..right]` (both
   * inclusive) through the temporary buffers `L` and `R`.
   */
  method Merge(a: array<int>, left: int, mid: int, right: int)
    requires 0 <= left <= mid + 1 <= right + 1 <= a.Length
    modifies a
    ensures a[left..right + 1] == Merged(old(a[left..mid + 1]), old(a[mid + 1..right + 1]))
    ensures Sorted(old(a[left..mid + 1])) && Sorted(old(a[mid + 1..right + 1])) ==>
              Sorted(a[left..right + 1])
    ensures multiset(a[left..right + 1]) == old(multiset(a[left..right + 1]))
    ensures SameOutside(old(a[..]), a[..], left, right)
  {
    var n1 := mid - left + 1;
    var n2 := right - mid;
    var L := CopyRun(a, left, n1);
    var R := CopyRun(a, mid + 1, n2);
    ghost var ls, rs := L[..], R[..];
    assert ls == old(a[left..mid + 1]) && rs == old(a[mid + 1..right + 1]);
    assert old(a[left..right + 1]) == ls + rs;
    MergeBuffers(a, L, R, left);
    ghost var out := a[left..right + 1];
    assert out == Merged(ls, rs);
    MergedPermutation(ls, rs);
    assert multiset(out) == multiset(ls + rs) by {
      assert multiset(ls + rs) == multiset(ls) + multiset(rs);
    }
    if Sorted(ls) && Sorted(rs) {
      MergedSorted(ls, rs);
    }
  }

  /** A fresh buffer holding a copy of `a[from..from + n]`. */
  method CopyRun(a: array<int>, from: int, n: int) returns (b: array<int>)
    requires 0 <= from && 0 <= n && from + n <= a.Length
    ensures fresh(b) && b[..] == a[from..from + n]
  {
    b := new int[n];
    for i := 0 to n
      invariant b[..i] == a[from..from + i]
    {
      b[i] := a[from + i];
    }
    assert b[..] == b[..n];
  }

  /**
   * The loops of the merge: write the merge of the buffers `L` and `R` into
   * `a`, starting at `left`, and nothing else. The first loop runs while both
   * buffers have items left.
   */
  method MergeBuffers(a: array<int>, L: array<int>, R: array<int>, left: int)
    requires L != a && R != a
    requires 0 <= left && left + L.Length + R.Length <= a.Length
    modifies a
    ensures a[left..left + L.Length + R.Length] == Merged(L[..], R[..])
    ensures SameOutside(old(a[..]), a[..], left, left + L.Length + R.Length - 1)
  {
    ghost var a0 := a[..];
    var i, j := MergeBoth(a, L, R, left, a0);
    DrainLeft(a, L, R, left, i, j, a0);
    DrainRight(a, L, R, left, j, a0);
    WrittenAll(a0, a[..], L[..], R[..], left);
  }

  /**
   * The first loop of the merge: while both buffers have items left, write
   * the smaller head (the left one on a tie). `a0` is the array before it.
   */
  method MergeBoth(a: array<int>, L: array<int>, R: array<int>, left: int, ghost a0: seq<int>)
      returns (i: int, j: int)
    requires L != a && R != a
    requires 0 <= left && left + L.Length + R.Length <= a.Length && a0 == a[..]
    modifies a
    ensures 0 <= i <= L.Length && 0 <= j <= R.Length && (i == L.Length || j == R.Length)
    ensures Cursor(L[..], R[..], i + j) == (i, j)
    ensures Written(a0, a[..], L[..], R[..], left, left + i + j)
  {
    var n1, n2 := L.Length, R.Length;
    ghost var ls, rs := L[..], R[..];
    var k;
    i, j, k := 0, 0, left;
    while i < n1 && j < n2
      invariant 0 <= i <= n1 && 0 <= j <= n2 && k == left + i + j
      invariant Cursor(ls, rs, k - left) == (i, j)
      invariant Written(a0, a[..], ls, rs, left, k)
    {
      ghost var s := a[..];
      if L[i] <= R[j] {
        TakeLeft(ls, rs, k - left, i, j);
        a[k] := L[i];
        i := i + 1;
      } else {
        TakeRight(ls, rs, k - left, i, j);
        a[k] := R[j];
        j := j + 1;
      }
      WrittenStep(a0, s, ls, rs, left, k);
      k := k + 1;
    }
  }

  /**
   * The second loop of the merge: once the right buffer is used up, copy
   * what is left of the left one. `a0` is the array before the merge loops.
   */
  method DrainLeft(a: array<int>, L: array<int>, R: array<int>, left: int, i0: int, j0: int, ghost a0: seq<int>)
    requires L != a && R != a
    requires 0 <= i0 <= L.Length && 0 <= j0 <= R.Length && (i0 == L.Length || j0 == R.Length)
    requires Cursor(L[..], R[..], i0 + j0) == (i0, j0)
    requires Written(a0, a[..], L[..], R[..], left, left + i0 + j0)
    modifies a
    ensures Cursor(L[..], R[..], L.Length + j0) == (L.Length, j0)
    ensures Written(a0, a[..], L[..], R[..], left, left + L.Length + j0)
  {
    var n1 := L.Length;
    ghost var ls, rs := L[..], R[..];
    var i, k := i0, left + i0 + j0;
    while i < n1
      invariant i0 <= i <= n1 && k == left + i + j0
      invariant Cursor(ls, rs, k - left) == (i, j0)
      invariant Written(a0, a[..], ls, rs, left, k)
    {
      ghost var s := a[..];
      TakeLeft(ls, rs, k - left, i, j0);
      a[k] := L[i];
      WrittenStep(a0, s, ls, rs, left, k);
      i := i + 1;
      k := k + 1;
    }
  }

  /**
   * The third loop of the merge: once the left buffer is used up, copy what
   * is left of the right one. `a0` is the array before the merge loops.
   */
  method DrainRight(a: array<int>, L: array<int>, R: array<int>, left: int, j0: int, ghost a0: seq<int>)
    requires L != a && R != a
    requires 0 <= j0 <= R.Length
    requires Cursor(L[..], R[..], L.Length + j0) == (L.Length, j0)
    requires Written(a0, a[..], L[..], R[..], left, left + L.Length + j0)
    modifies a
    ensures Written(a0, a[..], L[..], R[..], left, left + L.Length + R.Length)
  {
    var n1, n2 := L.Length, R.Length;
    ghost var ls, rs := L[..], R[..];
    var j, k := j0, left + n1 + j0;
    while j < n2
      invariant j0 <= j <= n2 && k == left + n1 + j
      invariant Cursor(ls, rs, k - left) == (n1, j)
      invariant Written(a0, a[..], ls, rs, left, k)
    {
      ghost var s := a[..];
      TakeRight(ls, rs, k - left, n1, j);
      a[k] := R[j];
      WrittenStep(a0, s, ls, rs, left, k);
      j := j + 1;
      k := k + 1;
    }
  }

  /**
   * The merge loops' progress: `s` is `a0` with steps `0..k-left` of the
   * merge of `ls` and `rs` written from `left` on, and nothing else changed.
   */
  ghost predicate Written(a0: seq<int>, s: seq<int>, ls: seq<int>, rs: seq<int>, left: int, k: int) {
    WrittenFrame(a0, s, ls, rs, left, k) && WrittenSteps(s, ls, rs, left, k)
  }

  /** The bounds and the unchanged outside of the merged range. */
  ghost predicate WrittenFrame(a0: seq<int>, s: seq<int>, ls: seq<int>, rs: seq<int>, left: int, k: int) {
    0 <= left <= k <= left + |ls| + |rs| <= |a0| &&
    SameOutside(a0, s, left, left + |ls| + |rs| - 1)
  }

  /** The steps written so far. */
  ghost predicate WrittenSteps(s: seq<int>, ls: seq<int>, rs: seq<int>, left: int, k: int)
    requires 0 <= left <= k <= |s|
  {
    forall p :: left <= p < k ==> s[p] == Step(ls, rs, p - left)
  }

  /** Writing step `k - left` at `k` extends the progress by one. */
  lemma WrittenStep(a0: seq<int>, s: seq<int>, ls: seq<int>, rs: seq<int>, left: int, k: int)
    requires Written(a0, s, ls, rs, left, k) && k < left + |ls| + |rs|
    ensures Written(a0, s[k := Step(ls, rs, k - left)], ls, rs, left, k + 1)
  {
  }

  /** Once every step is written, the range holds the merge. */
  lemma WrittenAll(a0: seq<int>, s: seq<int>, ls: seq<int>, rs: seq<int>, left: int)
    requires Written(a0, s, ls, rs, left, left + |ls| + |rs|)
    ensures s[left..left + |ls| + |rs|] == Merged(ls, rs)
    ensures SameOutside(a0, s, left, left + |ls| + |rs| - 1)
  {
    var out := s[left..left + |ls| + |rs|];
    forall n | 0 <= n < |out| ensures out[n] == Step(ls, rs, n) {
      assert out[n] == s[left + n];
    }
    StepsAreMerged(ls, rs, out);
  }

  /**
   * Whether the merge loops, having used `i` items of the left buffer and
   * `j` of the right one, take the next item from the left: when the right
   * buffer is used up, or its head is not smaller (a tie goes left).
   */
  ghost predicate TakesLeft(ls: seq<int>, rs: seq<int>, i: int, j: int) {
    0 <= i < |ls| && (j >= |rs| || (0 <= j && ls[i] <= rs[j]))
  }

  /** How many items of each buffer the merge loops have used after `n` steps. */
  ghost function Cursor(ls: seq<int>, rs: seq<int>, n: nat): (int, int) {
    if n == 0 then (0, 0)
    else
      var (i, j) := Cursor(ls, rs, n - 1);
      if TakesLeft(ls, rs, i, j) then (i + 1, j) else (i, j + 1)
  }

  /** The item the merge loops write at step `n`. */
  ghost function Step(ls: seq<int>, rs: seq<int>, n: nat): int {
    var (i, j) := Cursor(ls, rs, n);
    if TakesLeft(ls, rs, i, j) then ls[i] else if 0 <= j < |rs| then rs[j] else 0
  }

  /** A step that takes from the left buffer. */
  lemma TakeLeft(ls: seq<int>, rs: seq<int>, n: nat, i: int, j: int)
    requires Cursor(ls, rs, n) == (i, j) && TakesLeft(ls, rs, i, j)
    ensures Cursor(ls, rs, n + 1) == (i + 1, j) && Step(ls, rs, n) == ls[i]
  {
  }

  /** A step that takes from the right buffer. */
  lemma TakeRight(ls: seq<int>, rs: seq<int>, n: nat, i: int, j: int)
    requires Cursor(ls, rs, n) == (i, j) && !TakesLeft(ls, rs, i, j) && 0 <= j < |rs|
    ensures Cursor(ls, rs, n + 1) == (i, j + 1) && Step(ls, rs, n) == rs[j]
  {
  }

  /** After `n` steps, what is left in the buffers merges to the rest of the output. */
  lemma {:induction false} CursorTracksMerged(ls: seq<int>, rs: seq<int>, n: nat)
    requires n <= |ls| + |rs|
    ensures var (i, j) := Cursor(ls, rs, n);
      0 <= i <= |ls| && 0 <= j <= |rs| && i + j == n && |Merged(ls, rs)| == |ls| + |rs| &&
      Merged(ls[i..], rs[j..]) == Merged(ls, rs)[n..]
  {
    if n == 0 {
      assert ls[0..] == ls && rs[0..] == rs;
      MergedLength(ls, rs);
    } else {
      CursorTracksMerged(ls, rs, n - 1);
      var (i, j) := Cursor(ls, rs, n - 1);
      var m := Merged(ls, rs);
      MergedLength(ls[i..], rs[j..]);
      assert ls[i..] != [] || rs[j..] != [];
      if TakesLeft(ls, rs, i, j) {
        assert ls[i..][1..] == ls[i + 1..];
        assert Merged(ls[i..], rs[j..]) == [ls[i]] + Merged(ls[i + 1..], rs[j..]);
      } else {
        assert rs[j..][1..] == rs[j + 1..];
        assert Merged(ls[i..], rs[j..]) == [rs[j]] + Merged(ls[i..], rs[j + 1..]);
      }
      assert m[n - 1..][1..] == m[n..];
    }
  }

  /** Step `n` of the merge loops writes item `n` of the merge. */
  lemma MergedAt(ls: seq<int>, rs: seq<int>, n: nat)
    requires n < |ls| + |rs|
    ensures |Merged(ls, rs)| == |ls| + |rs| && Merged(ls, rs)[n] == Step(ls, rs, n)
  {
    CursorTracksMerged(ls, rs, n);
    var (i, j) := Cursor(ls, rs, n);
    var m := Merged(ls, rs);
    assert m[n..][0] == m[n];
    if TakesLeft(ls, rs, i, j) {
      assert Merged(ls[i..], rs[j..])[0] == ls[i];
    } else {
      assert Merged(ls[i..], rs[j..])[0] == rs[j];
    }
  }

  /** What the merge loops write, step by step, is the merge of the two buffers. */
  lemma StepsAreMerged(ls: seq<int>, rs: seq<int>, s: seq<int>)
    requires |s| == |ls| + |rs|
    requires forall n :: 0 <= n < |s| ==> s[n] == Step(ls, rs, n)
    ensures s == Merged(ls, rs)
  {
    MergedLength(ls, rs);
    forall n | 0 <= n < |s| ensures s[n] == Merged(ls, rs)[n] {
      MergedAt(ls, rs, n);
    }
  }

  /**
   * Sorts `a[left..right]` (inclusive). When `left >= right`, including
   * `right == -1` for an empty list, nothing is read or written.
   */
  method MergeSort(a: array<int>, left: int, right: int)
    requires left < right ==> 0 <= left && right < a.Length
    modifies a
    ensures SortsRange(old(a[..]), a[..], left, right)
    decreases right - left
  {
    if left < right {
      // right - left > 0, so C++'s truncating division agrees with Dafny's
      var mid := left + (right - left) / 2;
      ghost var a0 := a[..];
      MergeSort(a, left, mid);
      ghost var a1 := a[..];
      MergeSort(a, mid + 1, right);
      ghost var a2 := a[..];
      Merge(a, left, mid, right);
      MergeSortStep(a0, a1, a2, a[..], left, mid, right);
    }
  }

  /**
   * The two recursive calls and the merge together sort the range: each
   * half comes out sorted with its own values, and merging two sorted runs
   * gives a sorted run of their values.
   */
  lemma MergeSortStep(a0: seq<int>, a1: seq<int>, a2: seq<int>, a3: seq<int>, left: int, mid: int, right: int)
    requires 0 <= left <= mid < right < |a0|
    requires SortsRange(a0, a1, left, mid) && SortsRange(a1, a2, mid + 1, right)
    requires SameOutside(a2, a3, left, right)
    requires Sorted(a2[left..mid + 1]) && Sorted(a2[mid + 1..right + 1]) ==> Sorted(a3[left..right + 1])
    requires multiset(a3[left..right + 1]) == multiset(a2[left..right + 1])
    ensures SortsRange(a0, a3, left, right)
  {
    MergeSortFrame(a0, a1, a2, a3, left, mid, right);
    MergeSortHalves(a0, a1, a2, left, mid, right);
    HalvesKeepValues(a0, a2, left, mid + 1, right + 1);
  }

  /** The two recursive calls and the merge change nothing outside `left..right`. */
  lemma MergeSortFrame(a0: seq<int>, a1: seq<int>, a2: seq<int>, a3: seq<int>, left: int, mid: int, right: int)
    requires left <= mid < right
    requires SortsRange(a0, a1, left, mid) && SortsRange(a1, a2, mid + 1, right)
    requires SameOutside(a2, a3, left, right)
    ensures SameOutside(a0, a3, left, right)
  {
    SortsRangeOutside(a0, a1, left, mid, left, right);
    SortsRangeOutside(a1, a2, mid + 1, right, left, right);
    SameOutsideTrans(a0, a1, a2, left, right);
    SameOutsideTrans(a0, a2, a3, left, right);
  }

  /** After the two recursive calls each half is sorted and holds its original values. */
  lemma MergeSortHalves(a0: seq<int>, a1: seq<int>, a2: seq<int>, left: int, mid: int, right: int)
    requires 0 <= left <= mid < right < |a0|
    requires SortsRange(a0, a1, left, mid) && SortsRange(a1, a2, mid + 1, right)
    ensures Sorted(a2[left..mid + 1]) && multiset(a2[left..mid + 1]) == multiset(a0[left..mid + 1])
    ensures Sorted(a2[mid + 1..right + 1]) && multiset(a2[mid + 1..right + 1]) == multiset(a0[mid + 1..right + 1])
  {
    SortsRangeOutside(a0, a1, left, mid, left, mid);
    SortsRangeOutside(a1, a2, mid + 1, right, mid + 1, right);
    SliceUnchanged(a1, a2, left, mid + 1, mid + 1, right);
    SliceUnchanged(a0, a1, mid + 1, right + 1, left, mid);
    SortedPart(a0[left..mid + 1], a1[left..mid + 1]);
    SortedPart(a1[mid + 1..right + 1], a2[mid + 1..right + 1]);
  }

  /** A range whose two halves keep their values keeps its values. */
  lemma HalvesKeepValues(x: seq<int>, y: seq<int>, lo: int, m: int, hi: int)
    requires 0 <= lo <= m <= hi <= |x| && hi <= |y|
    requires multiset(y[lo..m]) == multiset(x[lo..m]) && multiset(y[m..hi]) == multiset(x[m..hi])
    ensures multiset(y[lo..hi]) == multiset(x[lo..hi])
  {
    MultisetHalves(x, lo, m, hi);
    MultisetHalves(y, lo, m, hi);
  }

  /** The values of a range are those of its two halves. */
  lemma MultisetHalves(s: seq<int>, lo: int, m: int, hi: int)
    requires 0 <= lo <= m <= hi <= |s|
    ensures multiset(s[lo..hi]) == multiset(s[lo..m]) + multiset(s[m..hi])
  {
    assert s[lo..hi] == s[lo..m] + s[m..hi];
  }

  // ---------------------------------------------------------------------
  // Quicksort
  // ---------------------------------------------------------------------

  /**
   * The Lomuto partition of `a[low..high]` (the inline loop at the head of
   * quicksort) around the pivot `a[high]`: afterwards the pivot sits at
   * `pi`, everything before it in the range is at most the pivot and
   * everything after it is greater.
   */
  method Partition(a: array<int>, low: int, high: int) returns (pi: int)
    requires 0 <= low < high < a.Length
    modifies a
    ensures Partitioned(old(a[..]), a[..], low, high, pi)
  {
    ghost var a0 := a[..];
    var pivot := a[high];
    var i := low - 1;
    for j := low to high
      invariant Lomuto(a0, a[..], low, high, i, j)
    {
      if a[j] <= pivot {
        ghost var s := a[..];
        i := i + 1;
        Swap(a, i, j);
        LomutoSwap(a0, s, low, high, i - 1, j);
      } else {
        LomutoSkip(a0, a[..], low, high, i, j);
      }
    }
    ghost var s := a[..];
    Swap(a, i + 1, high);
    pi := i + 1;
    LomutoDone(a0, s, low, high, i);
  }

  /** Exchanges `a[i]` and `a[j]`. */
  method Swap(a: array<int>, i: int, j: int)
    requires 0 <= i < a.Length && 0 <= j < a.Length
    modifies a
    ensures a[..] == old(a[..])[i := old(a[j])][j := old(a[i])]
  {
    a[i], a[j] := a[j], a[i];
  }

  /**
   * The state the partition leaves: the pivot `before[high]` at `pi`,
   * smaller-or-equal values before it and larger ones after it within the
   * range, the range's values kept, and nothing outside the range changed.
   */
  ghost predicate Partitioned(before: seq<int>, after: seq<int>, low: int, high: int, pi: int) {
    PartitionKeeps(before, after, low, high, pi) && PartitionSplits(before, after, low, high, pi)
  }

  /** The bounds, the unchanged outside and the values of the range. */
  ghost predicate PartitionKeeps(before: seq<int>, after: seq<int>, low: int, high: int, pi: int) {
    0 <= low <= pi <= high < |before| && SameOutside(before, after, low, high) &&
    multiset(after[low..high + 1]) == multiset(before[low..high + 1])
  }

  /** The pivot at `pi` with the smaller-or-equal values before it and the larger ones after it. */
  ghost predicate PartitionSplits(before: seq<int>, after: seq<int>, low: int, high: int, pi: int)
    requires PartitionKeeps(before, after, low, high, pi)
  {
    after[pi] == before[high] &&
    AllAtMost(after[low..pi], after[pi]) && AllAbove(after[pi + 1..high + 1], after[pi])
  }

  /**
   * The state of the partition loop over `j` with the pivot `a0[high]`:
   * `low..i` holds values at most the pivot, `i+1..j-1` values above it,
   * the pivot is still at `high`, the values are those of `a0`, and nothing
   * outside `low..high` has changed.
   */
  ghost predicate Lomuto(a0: seq<int>, s: seq<int>, low: int, high: int, i: int, j: int) {
    LomutoFrame(a0, s, low, high, i, j) && LomutoParts(a0, s, low, high, i, j)
  }

  /** The bounds, the unchanged outside, the values and the pivot's place. */
  ghost predicate LomutoFrame(a0: seq<int>, s: seq<int>, low: int, high: int, i: int, j: int) {
    0 <= low <= j <= high < |a0| && low - 1 <= i < j &&
    SameOutside(a0, s, low, high) && multiset(s) == multiset(a0) && s[high] == a0[high]
  }

  /** The two parts already scanned. */
  ghost predicate LomutoParts(a0: seq<int>, s: seq<int>, low: int, high: int, i: int, j: int)
    requires LomutoFrame(a0, s, low, high, i, j)
  {
    (forall k :: low <= k <= i ==> s[k] <= a0[high]) &&
    (forall k :: i < k < j ==> s[k] > a0[high])
  }

  /** A value at most the pivot is swapped to the end of the low part. */
  lemma LomutoSwap(a0: seq<int>, s: seq<int>, low: int, high: int, i: int, j: int)
    requires Lomuto(a0, s, low, high, i, j) && j < high && s[j] <= a0[high]
    ensures Lomuto(a0, s[i + 1 := s[j]][j := s[i + 1]], low, high, i + 1, j + 1)
  {
    SwapKeepsValues(s, i + 1, j);
  }

  /** A value above the pivot stays where it is. */
  lemma LomutoSkip(a0: seq<int>, s: seq<int>, low: int, high: int, i: int, j: int)
    requires Lomuto(a0, s, low, high, i, j) && j < high && s[j] > a0[high]
    ensures Lomuto(a0, s, low, high, i, j + 1)
  {
  }

  /** The final swap puts the pivot between the two parts. */
  lemma LomutoDone(a0: seq<int>, s: seq<int>, low: int, high: int, i: int)
    requires Lomuto(a0, s, low, high, i, high)
    ensures Partitioned(a0, s[i + 1 := s[high]][high := s[i + 1]], low, high, i + 1)
  {
    var t := s[i + 1 := s[high]][high := s[i + 1]];
    SwapKeepsValues(s, i + 1, high);
    assert SameOutside(a0, t, low, high);
    RangeMultiset(a0, t, low, high);
    LomutoLowPart(a0, s, low, high, i);
    LomutoHighPart(a0, s, low, high, i);
  }

  /** After the final swap, the values before the pivot are at most the pivot. */
  lemma LomutoLowPart(a0: seq<int>, s: seq<int>, low: int, high: int, i: int)
    requires Lomuto(a0, s, low, high, i, high)
    ensures AllAtMost(s[i + 1 := s[high]][high := s[i + 1]][low..i + 1], s[high])
  {
    var l := s[i + 1 := s[high]][high := s[i + 1]][low..i + 1];
    forall k | 0 <= k < |l| ensures l[k] <= s[high] {
      assert l[k] == s[low + k];
    }
  }

  /** After the final swap, the values after the pivot are above the pivot. */
  lemma LomutoHighPart(a0: seq<int>, s: seq<int>, low: int, high: int, i: int)
    requires Lomuto(a0, s, low, high, i, high)
    ensures AllAbove(s[i + 1 := s[high]][high := s[i + 1]][i + 2..high + 1], s[high])
  {
    var t := s[i + 1 := s[high]][high := s[i + 1]];
    var r := t[i + 2..high + 1];
    forall k | 0 <= k < |r| ensures s[high] < r[k] {
      assert r[k] == t[i + 2 + k];
    }
  }

  /**
   * Sorts `a[low..high]` (inclusive). When `low >= high`, including
   * `high == -1` for an empty list, nothing is read or written.
   */
  method QuickSort(a: array<int>, low: int, high: int)
    requires low < high ==> 0 <= low && high < a.Length
    modifies a
    ensures SortsRange(old(a[..]), a[..], low, high)
    decreases high - low
  {
    if low < high {
      ghost var a0 := a[..];
      var pi := Partition(a, low, high);
      ghost var a1 := a[..];
      QuickSort(a, low, pi - 1);
      ghost var a2 := a[..];
      QuickSort(a, pi + 1, high);
      QuickSortStep(a0, a1, a2, a[..], low, pi, high);
    }
  }

  /**
   * The partition and the two recursive calls together sort the range: the
   * pivot stays put, and each side comes out sorted with its own values.
   */
  lemma QuickSortStep(a0: seq<int>, a1: seq<int>, a2: seq<int>, a3: seq<int>, low: int, pi: int, high: int)
    requires low < high && Partitioned(a0, a1, low, high, pi)
    requires SortsRange(a1, a2, low, pi - 1) && SortsRange(a2, a3, pi + 1, high)
    ensures SortsRange(a0, a3, low, high)
  {
    QuickSortFrame(a0, a1, a2, a3, low, pi, high);
    QuickSortPieces(a1, a2, a3, low, pi, high);
    QuickSortJoin(a1[low..pi], a2[low..pi], a1[pi], a1[pi + 1..high + 1], a3[pi + 1..high + 1]);
  }

  /** The three steps of quicksort change nothing outside `low..high`. */
  lemma QuickSortFrame(a0: seq<int>, a1: seq<int>, a2: seq<int>, a3: seq<int>, low: int, pi: int, high: int)
    requires low <= pi <= high && SameOutside(a0, a1, low, high)
    requires SortsRange(a1, a2, low, pi - 1) && SortsRange(a2, a3, pi + 1, high)
    ensures SameOutside(a0, a3, low, high)
  {
    SortsRangeOutside(a1, a2, low, pi - 1, low, high);
    SortsRangeOutside(a2, a3, pi + 1, high, low, high);
    SameOutsideTrans(a0, a1, a2, low, high);
    SameOutsideTrans(a0, a2, a3, low, high);
  }

  /**
   * After the two recursive calls the range is the sorted left part, the
   * pivot where the partition left it, and the sorted right part; the left
   * call left the right part as the partition did.
   */
  lemma QuickSortPieces(a1: seq<int>, a2: seq<int>, a3: seq<int>, low: int, pi: int, high: int)
    requires 0 <= low <= pi <= high < |a1|
    requires SortsRange(a1, a2, low, pi - 1) && SortsRange(a2, a3, pi + 1, high)
    ensures a1[low..high + 1] == a1[low..pi] + [a1[pi]] + a1[pi + 1..high + 1]
    ensures a3[low..high + 1] == a2[low..pi] + [a1[pi]] + a3[pi + 1..high + 1]
    ensures a2[pi + 1..high + 1] == a1[pi + 1..high + 1]
  {
    SortsRangeOutside(a1, a2, low, pi - 1, low, pi - 1);
    SortsRangeOutside(a2, a3, pi + 1, high, pi + 1, high);
    SliceUnchanged(a2, a3, low, pi, pi + 1, high);
    SliceUnchanged(a1, a2, pi + 1, high + 1, low, pi - 1);
    SplitAround(a1, low, pi, high + 1);
    SplitAround(a3, low, pi, high + 1);
  }

  /**
   * What the two recursive calls leave behind: with `l1` (at most the pivot)
   * and `r1` (above it) on either side of the pivot, sorting each part (to
   * `l2` and `r2`) sorts the whole range and keeps its values.
   */
  lemma QuickSortJoin(l1: seq<int>, l2: seq<int>, pivot: int, r1: seq<int>, r2: seq<int>)
    requires AllAtMost(l1, pivot) && AllAbove(r1, pivot)
    requires |l1| > 1 ==> Sorted(l2) && multiset(l2) == multiset(l1)
    requires |l1| <= 1 ==> l2 == l1
    requires |r1| > 1 ==> Sorted(r2) && multiset(r2) == multiset(r1)
    requires |r1| <= 1 ==> r2 == r1
    ensures Sorted(l2 + [pivot] + r2)
    ensures multiset(l2 + [pivot] + r2) == multiset(l1 + [pivot] + r1)
  {
    SortedPart(l1, l2);
    SortedPart(r1, r2);
    PermutationKeepsBounds(l1, l2, pivot);
    PermutationKeepsBounds(r1, r2, pivot);
    SortedAroundPivot(l2, pivot, r2);
  }

  /**
   * The result of one recursive call on its part: sorted with the same
   * values when the part has more than one element, untouched otherwise.
   */
  lemma SortedPart(before: seq<int>, after: seq<int>)
    requires |before| > 1 ==> Sorted(after) && multiset(after) == multiset(before)
    requires |before| <= 1 ==> after == before
    ensures Sorted(after) && multiset(after) == multiset(before)
  {
  }

  /** A pivot with a sorted, smaller-or-equal left and a sorted, larger right. */
  lemma SortedAroundPivot(l: seq<int>, x: int, r: seq<int>)
    requires Sorted(l) && AllAtMost(l, x)
    requires Sorted(r) && AllAbove(r, x)
    ensures Sorted(l + [x] + r)
  {
    var s := l + [x] + r;
    forall p, q | 0 <= p < q < |s| ensures s[p] <= s[q] {
      if q < |l| {
        assert s[p] == l[p] && s[q] == l[q];
      } else if q == |l| {
        assert s[p] == l[p];
      } else if p > |l| {
        assert s[p] == r[p - |l| - 1] && s[q] == r[q - |l| - 1];
      } else if p == |l| {
        assert s[q] == r[q - |l| - 1];
      } else {
        assert s[p] == l[p] && s[q] == r[q - |l| - 1];
      }
    }
  }
}
