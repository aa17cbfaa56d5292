/** `quick_sorted`: pick a pivot value, split the input by the natural integer
    order into the elements equal to, below and above it, sort the outer groups,
    and join the three with two merges that use the comparator. */
module CopyingQuickSort {
  import opened Order
  import opened Comparators
  import opened Merging
  import opened MergeSort

  /** Which of the three groups an element joins, by the natural `==`, `<`, `>`. */
  datatype Side = Level | Below | Above

  predicate OnSide(x: int, p: int, side: Side) {
    match side
    case Level => x == p
    case Below => x < p
    case Above => x > p
  }

  /** The list comprehension `[x for x in xs if ...]`: the elements on `side` of
      `p`, in their original order. Each value is kept exactly as often as it occurs,
      or not at all. */
  function Group(xs: seq<int>, p: int, side: Side): (g: seq<int>)
    ensures forall v :: multiset(g)[v] == if OnSide(v, p, side) then multiset(xs)[v] else 0
    ensures |g| <= |xs|
  {
    if |xs| == 0 then []
    else
      assert xs == [xs[0]] + xs[1..];
      (if OnSide(xs[0], p, side) then [xs[0]] else []) + Group(xs[1..], p, side)
  }

  /** The three groups split the input as a multiset. */
  lemma GroupsPartition(xs: seq<int>, p: int)
    ensures multiset(Group(xs, p, Below)) + multiset(Group(xs, p, Level))
            + multiset(Group(xs, p, Above)) == multiset(xs)
  {
    var m := multiset(Group(xs, p, Below)) + multiset(Group(xs, p, Level))
             + multiset(Group(xs, p, Above));
    forall v
      ensures m[v] == multiset(xs)[v]
    {
    }
    assert m == multiset(xs);
  }

  /** When the pivot occurs in the input, the outer groups are strictly shorter:
      the pivot itself is in neither. */
  lemma OuterGroupsShrink(xs: seq<int>, p: int)
    requires p in xs
    ensures |Group(xs, p, Below)| < |xs| && |Group(xs, p, Above)| < |xs|
  {
    GroupsPartition(xs, p);
    assert p in multiset(xs);
    assert multiset(Group(xs, p, Level))[p] == multiset(xs)[p] > 0;
    assert |multiset(Group(xs, p, Level))| > 0;
  }

  /** Every element of the equal group is the pivot. */
  lemma LevelGroupIsConstant(xs: seq<int>, p: int)
    ensures forall i :: 0 <= i < |Group(xs, p, Level)| ==> Group(xs, p, Level)[i] == p
  {
    var g := Group(xs, p, Level);
    forall i | 0 <= i < |g|
      ensures g[i] == p
    {
      assert g[i] in multiset(g);
    }
  }

  /** `quick_sorted` picks its pivot with Python's `random.choice(xs)`; here the choice is a parameter
      `choose`, and the pivot is the element at index `choose(xs) % |xs|`, so every
      element of the input can be the pivot. Sequences of length 0 or 1 are returned
      as they are. */
  function QuickSorted(xs: seq<int>, cmp: Comparator, choose: seq<int> -> nat): (r: seq<int>)
    ensures |xs| <= 1 ==> r == xs
    ensures multiset(r) == multiset(xs)
    decreases |xs|
  {
    if |xs| <= 1 then xs
    else
      var p := xs[choose(xs) % |xs|];
      var same := Group(xs, p, Level);
      var less := Group(xs, p, Below);
      var greater := Group(xs, p, Above);
      OuterGroupsShrink(xs, p);
      var lessSorted := QuickSorted(less, cmp, choose);
      var greaterSorted := QuickSorted(greater, cmp, choose);
      var merge1 := Merged(lessSorted, same, cmp);
      GroupsPartition(xs, p);
      MergedPermutation(lessSorted, same, cmp);
      MergedPermutation(merge1, greaterSorted, cmp);
      Merged(merge1, greaterSorted, cmp)
  }

  /** Whatever pivots are chosen, the result is sorted under any valid comparator,
      even though the groups were formed by the natural order: the merges that
      join them are genuine merges. */
  lemma {:induction false} QuickSortedIsSorted(xs: seq<int>, cmp: Comparator, choose: seq<int> -> nat)
    requires Valid(cmp)
    ensures Sorted(cmp, QuickSorted(xs, cmp, choose))
    decreases |xs|
  {
    if |xs| > 1 {
      var p := xs[choose(xs) % |xs|];
      OuterGroupsShrink(xs, p);
      var lessSorted := QuickSorted(Group(xs, p, Below), cmp, choose);
      var greaterSorted := QuickSorted(Group(xs, p, Above), cmp, choose);
      var same := Group(xs, p, Level);
      QuickSortedIsSorted(Group(xs, p, Below), cmp, choose);
      QuickSortedIsSorted(Group(xs, p, Above), cmp, choose);
      LevelGroupIsConstant(xs, p);
      ConstantSorted(cmp, p, same);
      MergedSorted(lessSorted, same, cmp);
      MergedSorted(Merged(lessSorted, same, cmp), greaterSorted, cmp);
    }
  }

  /** Under a valid comparator that only calls identical values equal, the result
      is the one sorted arrangement of the input, whatever pivots are chosen. */
  lemma QuickSortedUnique(xs: seq<int>, t: seq<int>, cmp: Comparator, choose: seq<int> -> nat)
    requires Valid(cmp) && Strict(cmp)
    requires Sorted(cmp, t) && multiset(t) == multiset(xs)
    ensures QuickSorted(xs, cmp, choose) == t
  {
    QuickSortedIsSorted(xs, cmp, choose);
    SortedUnique(cmp, QuickSorted(xs, cmp, choose), t);
  }

  /** Under such a comparator, sorting a sorted sequence gives it back unchanged. */
  lemma QuickSortedIdempotent(xs: seq<int>, cmp: Comparator, choose: seq<int> -> nat)
    requires Valid(cmp) && Strict(cmp) && Sorted(cmp, xs)
    ensures QuickSorted(xs, cmp, choose) == xs
  {
    QuickSortedUnique(xs, xs, cmp, choose);
  }

  /** Under such a comparator, quicksort and merge sort produce the same sequence. */
  lemma QuickSortedAgreesWithMergeSorted(xs: seq<int>, cmp: Comparator, choose: seq<int> -> nat)
    requires Valid(cmp) && Strict(cmp)
    ensures QuickSorted(xs, cmp, choose) == MergeSorted(xs, cmp)
  {
    MergeSortedIsSorted(xs, cmp);
    QuickSortedUnique(xs, MergeSorted(xs, cmp), cmp, choose);
  }

  /** The end-to-end example, for every pivot choice. */
  lemma QuickSortedExample(choose: seq<int> -> nat)
    ensures QuickSorted([5, 3, 1, 4, 2], CmpStandard, choose) == [1, 2, 3, 4, 5]
  {
    StandardValid();
    ExampleAscending();
    QuickSortedUnique([5, 3, 1, 4, 2], [1, 2, 3, 4, 5], CmpStandard, choose);
  }
}
