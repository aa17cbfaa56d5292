/** The three comparators the module ships: ascending, descending, and ascending
    by last decimal digit. */
module Comparators {
  import opened Order

  /** Ascending order by the natural order on integers. */
  function CmpStandard(a: int, b: int): (r: int)
    ensures r == -1 <==> a < b
    ensures r == 1 <==> b < a
    ensures r == 0 <==> a == b
  {
    if a < b then -1
    else if b < a then 1
    else 0
  }

  /** Descending order: written out independently in `sorting.py`, and exactly the
      negation of the ascending comparator. */
  function CmpReverse(a: int, b: int): (r: int)
    ensures r == -CmpStandard(a, b)
    ensures r == -1 <==> b < a
  {
    if a < b then 1
    else if b < a then -1
    else 0
  }

  /** Ascending order by last decimal digit. `cmp_last_digit`'s `%` with divisor 10 is
      Python's floored remainder, which for a positive divisor is the same
      non-negative residue as Dafny's Euclidean `%`. */
  function CmpLastDigit(a: int, b: int): (r: int)
    ensures r == -1 <==> a % 10 < b % 10
    ensures r == 0 <==> a % 10 == b % 10
    ensures r == 1 <==> b % 10 < a % 10
  {
    CmpStandard(a % 10, b % 10)
  }

  lemma StandardValid()
    ensures Valid(CmpStandard) && Strict(CmpStandard)
  {
  }

  lemma ReverseValid()
    ensures Valid(CmpReverse) && Strict(CmpReverse)
  {
  }

  /** The last-digit comparator is a valid total preorder but not a total order:
      distinct values with the same last digit compare "equal". */
  lemma LastDigitValid()
    ensures Valid(CmpLastDigit)
    ensures !Strict(CmpLastDigit)
  {
    assert CmpLastDigit(1, 11) == 0;
  }

  /** The documented examples of the three comparators. */
  lemma ComparatorExamples()
    ensures CmpStandard(125, 322) == -1 && CmpStandard(523, 322) == 1 && CmpStandard(5, 5) == 0
    ensures CmpReverse(125, 322) == 1 && CmpReverse(523, 322) == -1
    ensures CmpLastDigit(125, 322) == 1 && CmpLastDigit(523, 322) == 1
  {
  }
}
