# sorting.py in Dafny

A model of `sorting.py`, a small module of sorting algorithms over integers. Every
algorithm is parameterised by a three-way comparator `cmp(a, b)` that answers -1, 0
or 1. The model covers:

- the three comparators the module ships (`cmp_standard`, `cmp_reverse`,
  `cmp_last_digit`);
- the linear merge `_merged`, with its two cursors, its emit-both-heads tie branch
  and its remainder copy;
- the recursive `merge_sorted`;
- the copying quicksort `quick_sorted`, which groups by the natural integer order
  and joins the groups with `_merged`;
- the in-place quicksort `quick_sort` with its nested Lomuto `partition`.

Modules:

- `Order` holds the comparator laws. `Valid` is a total preorder whose results
  are -1, 0 or 1. `Strict` says only identical values compare 0. The module also
  defines sortedness under a comparator and proves that a multiset has one sorted
  arrangement under a strict comparator.
- `Comparators` holds the three comparators.
- `Merging` holds `_merged`. `Merged` is a recursive reference definition of the
  merge. `MergedImpl` is the loop program, proved to compute exactly `Merged`.
- `MergeSort`, `CopyingQuickSort` and `InPlaceQuickSort` hold the three sorts.

Python lists become `seq<int>`. The list `quick_sort` mutates in place is passed in
as a sequence and returned in its new state. Every write `sorting.py` makes is a
sequence update or a swap.

What the proofs establish:

- All three sorts return a permutation of their input.
- Under any valid comparator, all three return a sorted sequence.
- For a comparator without ties, all three produce the same sequence.
- `_merged`'s tie branch writes `result[result_ind + 1]`. The model proves this
  slot always exists: both cursors are unexhausted there, so at least two slots
  remain (`Merging.EmitBoth`).
- The emit-both policy keeps the merge sorted for every valid comparator, ties
  included (`Merging.MergedSorted`).
- For a comparator without ties, each of the three sorts gives an already sorted
  sequence back unchanged (`MergeSort.MergeSortedIdempotent`,
  `CopyingQuickSort.QuickSortedIdempotent`, `InPlaceQuickSort.QuickSortAll`).
  With ties, some sorted sequences come back reordered. Under `cmp_last_digit`,
  `[1, 11, 21, 31]` is sorted, yet `merge_sorted` returns `[1, 21, 11, 31]`,
  because the tie branch interleaves equal runs
  (`MergeSort.MergeSortedReordersTies`). Other sorted inputs, such as `[1, 11]`,
  do come back unchanged. The module promises no stability, so the idempotence
  statements are made for comparators without ties only.

## Model

| member | source | states |
|---|---|---|
| `Comparators.CmpStandard` | sorting.py:24-37 | -1 exactly when `a < b`, 1 exactly when `b < a`, 0 exactly when they are equal |
| `Comparators.CmpReverse` | sorting.py:40-53 | is the negation of the ascending comparator, so -1 exactly when `b < a` |
| `Comparators.CmpLastDigit` | sorting.py:56-65 | orders by the non-negative residue mod 10: -1, 0, 1 exactly as the last digits compare |
| `Comparators.StandardValid` | sorting.py:24-37 | the ascending comparator is a valid comparator and has no ties between distinct values |
| `Comparators.ReverseValid` | sorting.py:40-53 | the descending comparator is a valid comparator and has no ties between distinct values |
| `Comparators.LastDigitValid` | sorting.py:56-65 | the last-digit comparator is a valid preorder but reports distinct values (1 and 11) as equal |
| `Comparators.ComparatorExamples` | sorting.py:24-65 | the documented results for (125, 322) and (523, 322) of all three comparators |
| `Merging.Merged` | sorting.py:68-118 | the merge has exactly `len(xs) + len(ys)` elements |
| `Merging.MergedPermutation` | sorting.py:89-118 | the merge holds every element of both inputs, as a multiset union |
| `Merging.MergedSorted` | sorting.py:68-118 | two sorted inputs under a valid comparator merge into a sorted result, tie branch included |
| `Merging.MergedExample` | sorting.py:86-87 | merging `[1, 3, 5]` and `[2, 4, 6]` gives `[1, 2, 3, 4, 5, 6]` |
| `Merging.MergedStep` | sorting.py:93-107 | each comparison outcome emits the left head, both heads, or the right head, and the rest is the merge of the advanced remainders |
| `Merging.MergedExhausted` | sorting.py:108-117 | once one input is exhausted, what remains is the other input's remainder copied in order |
| `Merging.EmitBoth` | sorting.py:98-103 | on a tie the second write at `result_ind + 1` is in bounds and the buffer stays a prefix of the merge |
| `Merging.EmitLeft` | sorting.py:94-97 | emitting the left head keeps the buffer a prefix of the merge |
| `Merging.EmitRight` | sorting.py:104-107 | emitting the right head keeps the buffer a prefix of the merge |
| `Merging.MergeHeads` | sorting.py:92-107 | the inner loop ends with one input exhausted and the buffer a prefix of the merge |
| `Merging.CopyRemainder` | sorting.py:108-117 | copying the remaining input fills every slot, and the buffer then equals the merge |
| `Merging.MergedImpl` | sorting.py:89-118 | the loop program terminates with every slot written, and returns exactly the reference merge, of the summed length and multiset |
| `MergeSort.MergeSorted` | sorting.py:121-144 | inputs of length 0 or 1 come back unchanged; otherwise the result is a permutation of the input |
| `MergeSort.MergeSortedIsSorted` | sorting.py:121-144 | under a valid comparator the result is sorted |
| `MergeSort.MergeSortedUnique` | sorting.py:134-135 | under a strict valid comparator the result is the unique sorted permutation of the input |
| `MergeSort.MergeSortedIdempotent` | sorting.py:121-144 | under a strict valid comparator an already sorted input comes back unchanged |
| `MergeSort.MergeSortedReordersTies` | sorting.py:98-103 | under the last-digit comparator the sorted input `[1, 11, 21, 31]` comes back as `[1, 21, 11, 31]` |
| `MergeSort.MergeSortedExample` | sorting.py:121-144 | sorting `[5, 3, 1, 4, 2]` with the default comparator gives `[1, 2, 3, 4, 5]` |
| `MergeSort.MergeSortedReverseExample` | sorting.py:40-53 | sorting `[5, 3, 1, 4, 2]` with the descending comparator gives `[5, 4, 3, 2, 1]` |
| `CopyingQuickSort.Group` | sorting.py:175-177 | a group keeps each value as often as it occurs in the input when it is on the pivot's side, and drops it otherwise |
| `CopyingQuickSort.GroupsPartition` | sorting.py:175-177 | the equal, less and greater groups together are the input, as a multiset |
| `CopyingQuickSort.OuterGroupsShrink` | sorting.py:174-179 | for a pivot taken from the input, the less and greater groups are strictly shorter than the input |
| `CopyingQuickSort.LevelGroupIsConstant` | sorting.py:175 | every element of the equal group is the pivot |
| `CopyingQuickSort.QuickSorted` | sorting.py:171-181 | inputs of length 0 or 1 come back unchanged; otherwise the result is a permutation of the input, whatever the pivot |
| `CopyingQuickSort.QuickSortedIsSorted` | sorting.py:171-181 | under a valid comparator the result is sorted for every pivot choice, though the groups are formed by the natural order |
| `CopyingQuickSort.QuickSortedUnique` | sorting.py:168-169 | under a strict valid comparator the result is the unique sorted permutation of the input |
| `CopyingQuickSort.QuickSortedIdempotent` | sorting.py:171-181 | under a strict valid comparator an already sorted input comes back unchanged |
| `CopyingQuickSort.QuickSortedAgreesWithMergeSorted` | sorting.py:171-181 | under a strict valid comparator quicksort and merge sort produce the same sequence |
| `CopyingQuickSort.QuickSortedExample` | sorting.py:171-181 | sorting `[5, 3, 1, 4, 2]` ascending gives `[1, 2, 3, 4, 5]` for every pivot choice |
| `InPlaceQuickSort.Swap` | sorting.py:212 | swapping two cells exchanges them, leaves the rest alone and keeps the multiset |
| `InPlaceQuickSort.PermutedWithin` | sorting.py:217-220 | when only a window changes, the whole sequence is permuted exactly when the window is |
| `InPlaceQuickSort.SwapKeepsSplit` | sorting.py:210-213 | swapping an element that compares -1 against the pivot to the boundary moves the boundary one cell on and keeps both sides' properties |
| `InPlaceQuickSort.Partition` | sorting.py:207-215 | returns `i` in `[lo, hi]` holding the old `xs[hi]`; cells in `[lo, i)` compare -1 against it, cells in `(i, hi]` do not; cells outside `[lo, hi]` are unchanged; the multiset is kept |
| `InPlaceQuickSort.PivotStaysPut` | sorting.py:218-220 | sorting the two sides leaves the pivot in place and every element on its side |
| `InPlaceQuickSort.JoinAroundPivot` | sorting.py:217-220 | two sorted sides separated by the pivot make a sorted window |
| `InPlaceQuickSort.QuickSort` | sorting.py:217-222 | nothing changes unless `lo < hi`, for any bounds; otherwise only `[lo, hi]` changes, it is permuted, and under a valid comparator it ends sorted |
| `InPlaceQuickSort.QuickSortAll` | sorting.py:204-205 | with the default bounds the whole sequence is permuted, sorted under a valid comparator, equal to merge sort's result when the comparator has no ties, and then an already sorted input is left unchanged |
| `InPlaceQuickSort.QuickSortExample` | sorting.py:184-222 | sorting `[5, 3, 1, 4, 2]` in place ascending gives `[1, 2, 3, 4, 5]` |

## Left out

- `random.choice` (sorting.py:174) is replaced by a caller-supplied `choose`. The pivot is the element at index `choose(xs) % |xs|`, so any element of the input can be chosen. Every result about `quick_sorted` holds for every `choose`. Randomness and expected running time are not modelled.
- Python object identity is not modelled. The base cases return the very same list object. `quick_sort` returns `None` when it recurses and the list otherwise. The model's sequences are values, so "the input is not modified" holds by construction for the copying sorts.
- The complexity claims in the docstrings (linear time, Θ(n log n), Θ(1) extra memory) are not modelled; only termination is proved.
- Comparators that are not valid total preorders are not covered. Permutation results hold for any comparator; sortedness is claimed only under `Valid`.
- The merge-conflict markers in the module docstring (sorting.py:6-18) are documentation text and carry no behaviour.
- The bitwise `&` between booleans (sorting.py:92, 108, 113) is modelled as logical conjunction; on booleans the two agree.
- The preallocated list `[0] * (len(xs) + len(ys))` and the list `quick_sort` mutates are modelled as sequence values updated slot by slot, not as shared mutable storage.
- Default arguments (`cmp=cmp_standard`, `lo=0`, `hi=None`) are explicit parameters. `QuickSortAll` is the call with the default bounds.
- InPlaceQuickSort.QuickSort: when `lo < hi`, requires `0 <= lo` and `hi < len(xs)`. Calls with `lo >= hi` are accepted for any bounds and change nothing, as in Python. The excluded calls are those with `lo < hi` and either a negative `lo`, which Python would resolve by negative-index wrap-around, or `hi >= len(xs)`, where Python raises `IndexError` at `pivot = xs[hi]`. The module's own calls never make such a call.
- MergeSort.MergeSortedIdempotent: stated only for comparators without ties. Under a comparator with ties, such as `cmp_last_digit`, an already sorted input can come back reordered (`MergeSort.MergeSortedReordersTies`).
- CopyingQuickSort.QuickSortedIdempotent: stated only for comparators without ties, for the same reason.
- InPlaceQuickSort.QuickSortAll: its idempotence clause is stated only for comparators without ties, for the same reason.
