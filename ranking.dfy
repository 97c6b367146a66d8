/**
 * The in-place quicksort both `getTopUsers` and `getTrending` rank with: Hoare-style
 * scans from both ends around the middle element's count, descending order, then
 * recursion on the two parts. `count` is the number the array is ranked by
 * (`getNumberOfFollowers`, `getTimesMentioned`).
 */
module Ranking {

  /** Counts never increase between positions `lo` and `hi` (inclusive). */
  ghost predicate SortedDescBetween<T>(s: seq<T>, lo: int, hi: int, count: T -> int)
  {
    forall k1, k2 :: 0 <= lo <= k1 < k2 <= hi < |s| ==> count(s[k1]) >= count(s[k2])
  }

  ghost predicate SortedDesc<T>(s: seq<T>, count: T -> int)
  {
    forall k1, k2 :: 0 <= k1 < k2 < |s| ==> count(s[k1]) >= count(s[k2])
  }

  /** `s1` is a rearrangement of `s0` that only moved cells between `lo` and `hi`. */
  ghost predicate PermutedWithin<T>(s0: seq<T>, s1: seq<T>, lo: int, hi: int)
  {
    |s0| == |s1| && multiset(s0) == multiset(s1) &&
    forall k :: 0 <= k < |s0| && !(lo <= k <= hi) ==> s0[k] == s1[k]
  }

  /** The partition loop of `quickSort` (its outer `while (i <= j)` with the two scans
      and the swap). The cells before `i` rank at least the pivot's count `p`, the
      cells after `j` at most `p`, and both parts are strictly smaller than the range. */
  method Partition<T>(a: array<T>, low: int, high: int, count: T -> int) returns (i: int, j: int, ghost p: int)
    requires 0 <= low <= high < a.Length
    modifies a
    ensures low < i <= high + 1 && low - 1 <= j < high && j < i
    ensures forall k :: low <= k < i ==> count(a[k]) >= p
    ensures forall k :: j < k <= high ==> count(a[k]) <= p
    ensures PermutedWithin(old(a[..]), a[..], low, high)
  {
    ghost var a0 := a[..];
    var middle := low + (high - low) / 2;
    var pivot := a[middle];
    p := count(pivot);
    i, j := low, high;
    ghost var si, sj := middle, middle;
    while i <= j
      invariant Partitioning(a[..], a0, low, high, i, j, si, sj, middle, p, count)
      decreases j - i
    {
      i, j, si, sj := PartitionStep(a, low, high, i, j, si, sj, middle, pivot, count, a0);
    }
  }

  /** The state of the partition loop over `s`, which started as `s0`: cells before `i`
      rank at least `p` and cells after `j` at most `p`; while `i <= j`, `si` and `sj`
      are the cells at which the two scans will stop at the latest; either nothing has
      been scanned yet or both ends have moved; only cells `low..high` were moved. */
  ghost predicate Partitioning<T>(s: seq<T>, s0: seq<T>, low: int, high: int, i: int, j: int, si: int, sj: int,
                                  middle: int, p: int, count: T -> int)
  {
    0 <= low <= i <= high + 1 && low - 1 <= j <= high && high < |s| &&
    (forall k :: low <= k < i ==> count(s[k]) >= p) &&
    (forall k :: j < k <= high ==> count(s[k]) <= p) &&
    (i <= j ==> i <= si <= high && count(s[si]) <= p && low <= sj <= j && count(s[sj]) >= p) &&
    ((i == low && j == high && si == middle && sj == middle) || (low < i && j < high)) &&
    PermutedWithin(s0, s, low, high)
  }

  /** One round of the partition loop: the two scans, then the swap when they have not
      crossed. The loop state is kept and the unscanned range shrinks. */
  method PartitionStep<T>(a: array<T>, low: int, high: int, i: int, j: int, ghost si: int, ghost sj: int,
                          ghost middle: int, pivot: T, count: T -> int, ghost a0: seq<T>)
      returns (i': int, j': int, ghost si': int, ghost sj': int)
    requires 0 <= low && high < a.Length && i <= j
    requires Partitioning(a[..], a0, low, high, i, j, si, sj, middle, count(pivot), count)
    modifies a
    ensures Partitioning(a[..], a0, low, high, i', j', si', sj', middle, count(pivot), count)
    ensures j' - i' < j - i
  {
    i' := ScanUp(a, i, si, pivot, count);
    j' := ScanDown(a, j, sj, pivot, count);
    si', sj' := si, sj;
    if i' <= j' {
      Swap(a, i', j');
      si', sj' := j', i';
      i' := i' + 1;
      j' := j' - 1;
    }
  }

  /** `while (array[i].count > pivot.count) i++`: it stops at the latest at `si`, a
      cell whose count is at most the pivot's. */
  method ScanUp<T>(a: array<T>, i: int, ghost si: int, pivot: T, count: T -> int) returns (i': int)
    requires 0 <= i <= si < a.Length && count(a[si]) <= count(pivot)
    ensures i <= i' <= si && count(a[i']) <= count(pivot)
    ensures forall k :: i <= k < i' ==> count(a[k]) > count(pivot)
  {
    i' := i;
    while count(a[i']) > count(pivot)
      invariant i <= i' <= si
      invariant forall k :: i <= k < i' ==> count(a[k]) > count(pivot)
      decreases si - i'
    {
      i' := i' + 1;
    }
  }

  /** `while (array[j].count < pivot.count) j--`: it stops at the latest at `sj`, a
      cell whose count is at least the pivot's. */
  method ScanDown<T>(a: array<T>, j: int, ghost sj: int, pivot: T, count: T -> int) returns (j': int)
    requires 0 <= sj <= j < a.Length && count(a[sj]) >= count(pivot)
    ensures sj <= j' <= j && count(a[j']) >= count(pivot)
    ensures forall k :: j' < k <= j ==> count(a[k]) < count(pivot)
  {
    j' := j;
    while count(a[j']) < count(pivot)
      invariant sj <= j' <= j
      invariant forall k :: j' < k <= j ==> count(a[k]) < count(pivot)
      decreases j' - sj
    {
      j' := j' - 1;
    }
  }

  /** `quickSort(array, low, high)`: the cells `low..high` end up in non-increasing
      count order, as a permutation of what they held; no other cell changes. */
  method QuickSort<T>(a: array<T>, low: int, high: int, count: T -> int)
    requires 0 <= low <= high < a.Length
    modifies a
    ensures SortedDescBetween(a[..], low, high, count)
    ensures PermutedWithin(old(a[..]), a[..], low, high)
    decreases high - low
  {
    ghost var p;
    var i, j;
    i, j, p := Partition(a, low, high, count);
    ghost var a1 := a[..];
    if low < j {
      QuickSort(a, low, j, count);
    }
    ghost var a2 := a[..];
    if high > i {
      QuickSort(a, i, high, count);
    }
    SortedParts(a1, a2, a[..], low, j, i, high, count, p);
  }

  /** After the partition of `a1`, sorting the left part (giving `a2`) and then the
      right part (giving `a3`) leaves the whole range sorted and rearranged. */
  lemma SortedParts<T>(a1: seq<T>, a2: seq<T>, a3: seq<T>, low: int, j: int, i: int, high: int, count: T -> int, p: int)
    requires 0 <= low && low - 1 <= j < i <= high + 1 && high < |a1| && low <= high
    requires forall k :: low <= k < i ==> count(a1[k]) >= p
    requires forall k :: j < k <= high ==> count(a1[k]) <= p
    requires PermutedWithin(a1, a2, low, j) && SortedDescBetween(a2, low, j, count)
    requires PermutedWithin(a2, a3, i, high) && SortedDescBetween(a3, i, high, count)
    ensures SortedDescBetween(a3, low, high, count)
    ensures PermutedWithin(a1, a3, low, high)
  {
    if low <= j {
      PermutedBound(a1, a2, low, j, count, (c: int) => c >= p);
    }
    if i <= high {
      PermutedBound(a2, a3, i, high, count, (c: int) => c <= p);
    }
    SortedJoin(a3, low, j, i, high, count, p);
  }

  /** The three-assignment exchange through `temp`. */
  method Swap<T>(a: array<T>, i: int, j: int)
    requires 0 <= i < a.Length && 0 <= j < a.Length
    modifies a
    ensures a[i] == old(a[j]) && a[j] == old(a[i])
    ensures forall k :: 0 <= k < a.Length && k != i && k != j ==> a[k] == old(a[k])
    ensures multiset(a[..]) == multiset(old(a[..]))
  {
    var temp := a[i];
    a[i] := a[j];
    a[j] := temp;
    assert a[..] == old(a[..])[i := old(a[j])][j := old(a[i])];
  }

  /** A rearrangement within a segment rearranges the segment itself. */
  lemma SegmentMultiset<T>(s0: seq<T>, s1: seq<T>, lo: int, hi: int)
    requires 0 <= lo <= hi < |s0|
    requires PermutedWithin(s0, s1, lo, hi)
    ensures multiset(s0[lo..hi + 1]) == multiset(s1[lo..hi + 1])
  {
    assert s0[..lo] == s1[..lo];
    assert s0[hi + 1..] == s1[hi + 1..];
    ThreeParts(s0, lo, hi);
    ThreeParts(s1, lo, hi);
    var m0, m1 := multiset(s0[lo..hi + 1]), multiset(s1[lo..hi + 1]);
    forall x ensures m0[x] == m1[x] {
      assert multiset(s0)[x] == multiset(s1)[x];
    }
  }

  /** The multiset of a sequence is that of its three parts around a segment. */
  lemma ThreeParts<T>(s: seq<T>, lo: int, hi: int)
    requires 0 <= lo <= hi < |s|
    ensures multiset(s) == multiset(s[..lo]) + multiset(s[lo..hi + 1]) + multiset(s[hi + 1..])
  {
    assert s == s[..lo] + s[lo..hi + 1] + s[hi + 1..];
  }

  /** A bound every cell of a segment meets survives any rearrangement of that segment. */
  lemma PermutedBound<T>(s0: seq<T>, s1: seq<T>, lo: int, hi: int, count: T -> int, bound: int -> bool)
    requires 0 <= lo <= hi < |s0|
    requires PermutedWithin(s0, s1, lo, hi)
    requires forall k :: lo <= k <= hi ==> bound(count(s0[k]))
    ensures forall k :: lo <= k <= hi ==> bound(count(s1[k]))
  {
    var m0, m1 := s0[lo..hi + 1], s1[lo..hi + 1];
    SegmentMultiset(s0, s1, lo, hi);
    forall k | lo <= k <= hi ensures bound(count(s1[k])) {
      assert m1[k - lo] == s1[k];
      assert s1[k] in multiset(m1);
      var t :| 0 <= t < |m0| && m0[t] == s1[k];
      assert m0[t] == s0[lo + t];
    }
  }

  /** Two sorted parts around a run of cells equal to the pivot count, the left part
      at least and the right part at most that count, form one sorted range. */
  lemma SortedJoin<T>(s: seq<T>, low: int, j: int, i: int, high: int, count: T -> int, p: int)
    requires 0 <= low && low - 1 <= j < i <= high + 1 && high < |s|
    requires SortedDescBetween(s, low, j, count) && SortedDescBetween(s, i, high, count)
    requires forall k :: low <= k < i ==> count(s[k]) >= p
    requires forall k :: j < k <= high ==> count(s[k]) <= p
    ensures SortedDescBetween(s, low, high, count)
  {
  }

  /** Cells with no value twice put at most one copy of any value in the multiset. */
  lemma {:induction false} DistinctCount<T>(s: seq<T>, x: T)
    requires forall i, j :: 0 <= i < j < |s| ==> s[i] != s[j]
    ensures multiset(s)[x] <= 1
  {
    if s != [] {
      DistinctCount(s[1..], x);
      assert s == [s[0]] + s[1..];
      if s[0] == x {
        assert x !in s[1..];
      }
    }
  }

  /** Two equal cells put at least two copies in the multiset. */
  lemma TwoCopies<T>(s: seq<T>, i: int, j: int)
    requires 0 <= i < j < |s| && s[i] == s[j]
    ensures multiset(s)[s[i]] >= 2
  {
    assert s == s[..j] + s[j..];
    assert s[i] in s[..j] && s[j] in s[j..];
  }

  /** A rearrangement of cells with distinct keys holds the same cells, and their keys
      are still distinct. */
  lemma PermutedKeys<T, K>(cells: seq<T>, sorted: seq<T>, key: T -> K)
    requires multiset(cells) == multiset(sorted)
    requires forall i, j :: 0 <= i < j < |cells| ==> key(cells[i]) != key(cells[j])
    ensures forall x :: x in sorted <==> x in cells
    ensures forall i, j :: 0 <= i < j < |sorted| ==> key(sorted[i]) != key(sorted[j])
  {
    assert forall x :: x in sorted <==> x in multiset(cells);
    forall i, j | 0 <= i < j < |sorted| ensures key(sorted[i]) != key(sorted[j]) {
      if key(sorted[i]) == key(sorted[j]) {
        assert sorted[i] in multiset(cells) && sorted[j] in multiset(cells);
        var t1 :| 0 <= t1 < |cells| && cells[t1] == sorted[i];
        var t2 :| 0 <= t2 < |cells| && cells[t2] == sorted[j];
        assert t1 == t2;
        TwoCopies(sorted, i, j);
        DistinctCount(cells, sorted[i]);
        assert false;
      }
    }
  }
}
