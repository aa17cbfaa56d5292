/** `merge_sorted`: split at half the length, sort both halves, merge them. */
module MergeSort {
  import opened Order
  import opened Comparators
  import opened Merging

  /** `merge_sorted` returns sequences of length 0 or 1 as they are; otherwise the
      left half gets the first `|xs| / 2` elements. The input is a value, so it is
      never modified. */
  function MergeSorted(xs: seq<int>, cmp: Comparator): (r: seq<int>)
    ensures |xs| <= 1 ==> r == xs
    ensures multiset(r) == multiset(xs)
    decreases |xs|
  {
    if |xs| <= 1 then xs
    else
      var mid := |xs| / 2;
      var left := MergeSorted(xs[..mid], cmp);
      var right := MergeSorted(xs[mid..], cmp);
      SplitMultiset(xs, mid);
      MergedPermutation(left, right, cmp);
      Merged(left, right, cmp)
  }

  /** Under a valid comparator the result is sorted. */
  lemma {:induction false} MergeSortedIsSorted(xs: seq<int>, cmp: Comparator)
    requires Valid(cmp)
    ensures Sorted(cmp, MergeSorted(xs, cmp))
    decreases |xs|
  {
    if |xs| > 1 {
      var mid := |xs| / 2;
      MergeSortedIsSorted(xs[..mid], cmp);
      MergeSortedIsSorted(xs[mid..], cmp);
      MergedSorted(MergeSorted(xs[..mid], cmp), MergeSorted(xs[mid..], cmp), cmp);
    }
  }

  /** Under a valid comparator that only calls identical values equal, the result
      is the one sorted arrangement of the input. */
  lemma MergeSortedUnique(xs: seq<int>, t: seq<int>, cmp: Comparator)
    requires Valid(cmp) && Strict(cmp)
    requires Sorted(cmp, t) && multiset(t) == multiset(xs)
    ensures MergeSorted(xs, cmp) == t
  {
    MergeSortedIsSorted(xs, cmp);
    SortedUnique(cmp, MergeSorted(xs, cmp), t);
  }

  /** Under a valid comparator that only calls identical values equal, sorting a
      sorted sequence gives it back unchanged. */
  lemma MergeSortedIdempotent(xs: seq<int>, cmp: Comparator)
    requires Valid(cmp) && Strict(cmp) && Sorted(cmp, xs)
    ensures MergeSorted(xs, cmp) == xs
  {
    MergeSortedUnique(xs, xs, cmp);
  }

  /** Under a preorder the tie step of the merge reorders equal elements, so a
      sequence already sorted by last digit does not come back unchanged. */
  lemma MergeSortedReordersTies()
    ensures Sorted(CmpLastDigit, [1, 11, 21, 31])
    ensures MergeSorted([1, 11, 21, 31], CmpLastDigit) == [1, 21, 11, 31]
  {
    LastDigitValid();
    SortedFromNeighbours(CmpLastDigit, [1, 11, 21, 31]);
    assert MergeSorted([1, 11], CmpLastDigit) == [1, 11] by {
      assert [1, 11][..1] == [1] && [1, 11][1..] == [11];
      assert Merged([1], [11], CmpLastDigit) == [1, 11];
    }
    assert MergeSorted([21, 31], CmpLastDigit) == [21, 31] by {
      assert [21, 31][..1] == [21] && [21, 31][1..] == [31];
      assert Merged([21], [31], CmpLastDigit) == [21, 31];
    }
    assert Merged([1, 11], [21, 31], CmpLastDigit) == [1, 21, 11, 31] by {
      assert Merged([11], [31], CmpLastDigit) == [11, 31];
      assert [1, 11][1..] == [11] && [21, 31][1..] == [31];
    }
    var xs := [1, 11, 21, 31];
    assert xs[..2] == [1, 11] && xs[2..] == [21, 31];
  }

  /** `[5, 4, 3, 2, 1]` is the descending arrangement of the end-to-end examples' input. */
  lemma ExampleDescending()
    ensures Sorted(CmpReverse, [5, 4, 3, 2, 1])
    ensures multiset([5, 3, 1, 4, 2]) == multiset([5, 4, 3, 2, 1])
  {
    var desc := [5, 4, 3, 2, 1];
    assert forall i :: 0 <= i < |desc| ==> desc[i] == 5 - i;
    assert multiset([5, 3, 1, 4, 2]) == multiset{5, 3, 1, 4, 2};
    assert multiset(desc) == multiset{5, 4, 3, 2, 1};
  }

  /** `[1, 2, 3, 4, 5]` is the ascending arrangement of the end-to-end examples' input. */
  lemma ExampleAscending()
    ensures Sorted(CmpStandard, [1, 2, 3, 4, 5])
    ensures multiset([5, 3, 1, 4, 2]) == multiset([1, 2, 3, 4, 5])
  {
    var asc := [1, 2, 3, 4, 5];
    assert forall i :: 0 <= i < |asc| ==> asc[i] == i + 1;
    assert multiset([5, 3, 1, 4, 2]) == multiset{5, 3, 1, 4, 2};
    assert multiset(asc) == multiset{1, 2, 3, 4, 5};
  }

  /** The end-to-end example: sorting ascending. */
  lemma MergeSortedExample()
    ensures MergeSorted([5, 3, 1, 4, 2], CmpStandard) == [1, 2, 3, 4, 5]
  {
    StandardValid();
    ExampleAscending();
    MergeSortedUnique([5, 3, 1, 4, 2], [1, 2, 3, 4, 5], CmpStandard);
  }

  /** The end-to-end example: sorting descending. */
  lemma MergeSortedReverseExample()
    ensures MergeSorted([5, 3, 1, 4, 2], CmpReverse) == [5, 4, 3, 2, 1]
  {
    ReverseValid();
    ExampleDescending();
    MergeSortedUnique([5, 3, 1, 4, 2], [5, 4, 3, 2, 1], CmpReverse);
  }
}
