/** `quick_sort`: the in-place quicksort with the Lomuto partition scheme. The
    Python list that is mutated in place is modelled as a sequence value passed in
    and returned in its new state; every write `quick_sort` makes is a swap of two cells. */
module InPlaceQuickSort {
  import opened Order
  import opened Comparators
  import opened MergeSort

  /** The tuple assignment `xs[a], xs[b] = xs[b], xs[a]`. */
  function Swap(s: seq<int>, a: int, b: int): (r: seq<int>)
    requires 0 <= a < |s| && 0 <= b < |s|
    ensures |r| == |s| && r[a] == s[b] && r[b] == s[a]
    ensures forall k :: 0 <= k < |s| && k != a && k != b ==> r[k] == s[k]
    ensures multiset(r) == multiset(s)
  {
    s[a := s[b]][b := s[a]]
  }

  /** `ys` differs from `xs` at most inside the half-open window `[a, b)`. */
  ghost predicate SameOutside(xs: seq<int>, ys: seq<int>, a: int, b: int) {
    |ys| == |xs| && forall k :: 0 <= k < |xs| && !(a <= k < b) ==> ys[k] == xs[k]
  }

  /** Every pair in the window `[a, b)` is in order. */
  ghost predicate SortedWithin(cmp: Comparator, s: seq<int>, a: int, b: int) {
    forall i, j :: a <= i < j < b && 0 <= i && j < |s| ==> Le(cmp, s[i], s[j])
  }

  /** Cutting a sequence around a window splits its multiset in three. */
  lemma SplitAround(s: seq<int>, a: int, b: int)
    requires 0 <= a <= b <= |s|
    ensures multiset(s) == multiset(s[..a]) + multiset(s[a..b]) + multiset(s[b..])
  {
    assert s == s[..a] + s[a..b] + s[b..];
  }

  /** When only the window can differ, the whole sequences are permutations of
      each other exactly when the windows are. */
  lemma PermutedWithin(xs: seq<int>, ys: seq<int>, a: int, b: int)
    requires 0 <= a <= b <= |xs| && SameOutside(xs, ys, a, b)
    ensures multiset(ys) == multiset(xs) <==> multiset(ys[a..b]) == multiset(xs[a..b])
  {
    assert ys[..a] == xs[..a] && ys[b..] == xs[b..];
    SplitAround(xs, a, b);
    SplitAround(ys, a, b);
    if multiset(ys) == multiset(xs) {
      var outside := multiset(xs[..a]) + multiset(xs[b..]);
      forall v
        ensures multiset(ys[a..b])[v] == multiset(xs[a..b])[v]
      {
        assert multiset(ys)[v] == multiset(ys[a..b])[v] + outside[v];
      }
      assert multiset(ys[a..b]) == multiset(xs[a..b]);
    }
  }

  /** A property every element of a window has holds for any permutation of it. */
  lemma WindowAll(P: int -> bool, xs: seq<int>, ys: seq<int>, a: int, b: int)
    requires 0 <= a <= b <= |xs| == |ys|
    requires multiset(ys[a..b]) == multiset(xs[a..b])
    requires forall k :: a <= k < b ==> P(xs[k])
    ensures forall k :: a <= k < b ==> P(ys[k])
  {
    forall k | a <= k < b
      ensures P(ys[k])
    {
      assert ys[k] == ys[a..b][k - a];
      assert ys[k] in multiset(xs[a..b]);
      var m :| 0 <= m < b - a && xs[a..b][m] == ys[k];
      assert xs[a + m] == ys[k];
    }
  }

  /** One step of the partition loop: swapping an element that compares -1 against
      the pivot to the boundary `i` moves the boundary one cell on. */
  lemma SwapKeepsSplit(cmp: Comparator, pivot: int, s: seq<int>, lo: int, i: int, j: int)
    requires 0 <= lo <= i <= j < |s| && cmp(s[j], pivot) == -1
    requires forall k :: lo <= k < i ==> cmp(s[k], pivot) == -1
    requires forall k :: i <= k < j ==> cmp(s[k], pivot) != -1
    ensures forall k :: lo <= k < i + 1 ==> cmp(Swap(s, i, j)[k], pivot) == -1
    ensures forall k :: i + 1 <= k < j + 1 ==> cmp(Swap(s, i, j)[k], pivot) != -1
  {
  }

  /** The nested `partition`: with `pivot = xs[hi]`, every element of `[lo, hi)`
      that compares -1 against the pivot is swapped to the front, and then the
      pivot is swapped into the cell after them, whose index is returned. */
  method Partition(xs: seq<int>, cmp: Comparator, lo: int, hi: int) returns (ys: seq<int>, i: int)
    requires 0 <= lo <= hi < |xs|
    ensures SameOutside(xs, ys, lo, hi + 1)
    ensures lo <= i <= hi && ys[i] == xs[hi]
    ensures multiset(ys) == multiset(xs)
    ensures forall k :: lo <= k < i ==> cmp(ys[k], ys[i]) == -1
    ensures forall k :: i < k <= hi ==> cmp(ys[k], ys[i]) != -1
  {
    var pivot := xs[hi];
    ys := xs;
    i := lo;
    for j := lo to hi
      invariant lo <= i <= j
      invariant SameOutside(xs, ys, lo, j) && multiset(ys) == multiset(xs)
      invariant forall k :: lo <= k < i ==> cmp(ys[k], pivot) == -1
      invariant forall k :: i <= k < j ==> cmp(ys[k], pivot) != -1
    {
      if cmp(ys[j], pivot) == -1 {
        SwapKeepsSplit(cmp, pivot, ys, lo, i, j);
        ys := Swap(ys, i, j);
        i := i + 1;
      }
    }
    ys := Swap(ys, i, hi);
  }

  /** After the partition, sorting the two sides in place leaves the pivot where
      it is and keeps every element on its side of it. */
  lemma PivotStaysPut(cmp: Comparator, zs: seq<int>, us: seq<int>, ys: seq<int>, lo: int, p: int, hi: int)
    requires 0 <= lo <= p <= hi < |zs|
    requires SameOutside(zs, us, lo, p) && SameOutside(us, ys, p + 1, hi + 1)
    requires multiset(us[lo..p]) == multiset(zs[lo..p])
    requires multiset(ys[p + 1..hi + 1]) == multiset(us[p + 1..hi + 1])
    requires forall k :: lo <= k < p ==> cmp(zs[k], zs[p]) == -1
    requires forall k :: p < k <= hi ==> cmp(zs[k], zs[p]) != -1
    ensures ys[p] == zs[p]
    ensures forall k :: lo <= k < p ==> cmp(ys[k], ys[p]) == -1
    ensures forall k :: p < k <= hi ==> cmp(ys[k], ys[p]) != -1
    ensures SortedWithin(cmp, us, lo, p) ==> SortedWithin(cmp, ys, lo, p)
  {
    var pivot := zs[p];
    WindowAll(x => cmp(x, pivot) == -1, zs, us, lo, p);
    assert forall k :: p + 1 <= k < hi + 1 ==> us[k] == zs[k];
    WindowAll(x => cmp(x, pivot) != -1, us, ys, p + 1, hi + 1);
  }

  /** Assembling the sorted window: a sorted part whose elements all compare -1
      against the pivot, then the pivot, then a sorted part of elements that do
      not compare -1 against it. */
  lemma JoinAroundPivot(cmp: Comparator, s: seq<int>, lo: int, p: int, hi: int)
    requires Valid(cmp) && 0 <= lo <= p <= hi < |s|
    requires SortedWithin(cmp, s, lo, p) && SortedWithin(cmp, s, p + 1, hi + 1)
    requires forall k :: lo <= k < p ==> cmp(s[k], s[p]) == -1
    requires forall k :: p < k <= hi ==> cmp(s[k], s[p]) != -1
    ensures SortedWithin(cmp, s, lo, hi + 1)
  {
    forall i, j | lo <= i < j < hi + 1
      ensures Le(cmp, s[i], s[j])
    {
      if j == p {
      } else if i == p {
        Total(cmp, s[j], s[p]);
      } else if i < p < j {
        Total(cmp, s[j], s[p]);
        assert Le(cmp, s[i], s[p]) && Le(cmp, s[p], s[j]);
      }
    }
  }

  /** `quick_sort(xs, cmp, lo, hi)`: nothing happens unless `lo < hi`; otherwise
      partition, then sort the cells before and after the pivot's final place. Only
      the window `[lo, hi]` changes, it is permuted, and under a valid comparator it
      ends up sorted. When `lo >= hi` any bounds are accepted, as in Python, where
      such a call touches no cell. */
  method QuickSort(xs: seq<int>, cmp: Comparator, lo: int, hi: int) returns (ys: seq<int>)
    requires lo < hi ==> 0 <= lo && hi < |xs|
    ensures lo >= hi ==> ys == xs
    ensures SameOutside(xs, ys, lo, hi + 1)
    ensures multiset(ys) == multiset(xs)
    ensures 0 <= lo <= hi + 1 <= |xs| ==> multiset(ys[lo..hi + 1]) == multiset(xs[lo..hi + 1])
    ensures Valid(cmp) ==> SortedWithin(cmp, ys, lo, hi + 1)
    decreases hi - lo
  {
    if lo < hi {
      assert 0 <= lo < hi < |xs|;
      var zs, p := Partition(xs, cmp, lo, hi);
      var us := QuickSort(zs, cmp, lo, p - 1);
      ys := QuickSort(us, cmp, p + 1, hi);
      PivotStaysPut(cmp, zs, us, ys, lo, p, hi);
      PermutedWithin(xs, ys, lo, hi + 1);
      if Valid(cmp) {
        JoinAroundPivot(cmp, ys, lo, p, hi);
      }
    } else {
      ys := xs;
    }
  }

  /** The call with the default `hi = len(xs) - 1`: the whole sequence is
      permuted, sorted under a valid comparator, and for a comparator without
      ties it is the same arrangement merge sort produces, so an already sorted
      input is left as it is. */
  method QuickSortAll(xs: seq<int>, cmp: Comparator) returns (ys: seq<int>)
    ensures multiset(ys) == multiset(xs)
    ensures Valid(cmp) ==> Sorted(cmp, ys)
    ensures Valid(cmp) && Strict(cmp) ==> ys == MergeSorted(xs, cmp)
    ensures Valid(cmp) && Strict(cmp) && Sorted(cmp, xs) ==> ys == xs
  {
    ys := QuickSort(xs, cmp, 0, |xs| - 1);
    if Valid(cmp) {
      assert Sorted(cmp, ys);
      if Strict(cmp) {
        MergeSortedUnique(xs, ys, cmp);
        if Sorted(cmp, xs) {
          MergeSortedIdempotent(xs, cmp);
        }
      }
    }
  }

  /** The end-to-end example with the default comparator. */
  method QuickSortExample() returns (r: seq<int>)
    ensures r == [1, 2, 3, 4, 5]
  {
    r := QuickSortAll([5, 3, 1, 4, 2], CmpStandard);
    StandardValid();
    ExampleAscending();
    SortedUnique(CmpStandard, r, [1, 2, 3, 4, 5]);
  }
}
