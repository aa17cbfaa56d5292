/** Three-way comparators over integers, the laws a comparator must obey for the
    sorting routines to be correct, and what it means for a sequence to be sorted
    under a comparator. */
module Order {

  /** A comparator answers -1 ("less"), 0 ("equal") or 1 ("greater"). */
  type Comparator = (int, int) -> int

  /** The non-strict order induced by a comparator: `a` does not come after `b`. */
  predicate Le(cmp: Comparator, a: int, b: int) {
    cmp(a, b) != 1
  }

  /** The laws the sorting routines rely on: a three-valued result, reflexivity,
      sign antisymmetry and a transitive non-strict relation (a total preorder). */
  ghost predicate Valid(cmp: Comparator) {
    && (forall a, b :: cmp(a, b) == -1 || cmp(a, b) == 0 || cmp(a, b) == 1)
    && (forall a :: cmp(a, a) == 0)
    && (forall a, b :: cmp(a, b) == -1 <==> cmp(b, a) == 1)
    && (forall a, b, c :: Le(cmp, a, b) && Le(cmp, b, c) ==> Le(cmp, a, c))
  }

  /** A comparator that only reports "equal" for identical values (a total order,
      not merely a preorder). */
  ghost predicate Strict(cmp: Comparator) {
    forall a, b :: cmp(a, b) == 0 ==> a == b
  }

  /** Every element precedes every later one under `cmp`. */
  ghost predicate Sorted(cmp: Comparator, s: seq<int>) {
    forall i, j :: 0 <= i < j < |s| ==> Le(cmp, s[i], s[j])
  }

  /** `h` precedes every element of `s` under `cmp`. */
  ghost predicate LowerBound(cmp: Comparator, h: int, s: seq<int>) {
    forall i :: 0 <= i < |s| ==> Le(cmp, h, s[i])
  }

  /** Under a valid comparator any two values are related one way or the other,
      and "not less" is the same as "the other is not greater". */
  lemma Total(cmp: Comparator, a: int, b: int)
    requires Valid(cmp)
    ensures Le(cmp, a, b) || Le(cmp, b, a)
    ensures cmp(a, b) != -1 <==> Le(cmp, b, a)
    ensures cmp(a, b) == 0 <==> cmp(b, a) == 0
  {
  }

  lemma LowerBoundTrans(cmp: Comparator, a: int, b: int, s: seq<int>)
    requires Valid(cmp)
    requires Le(cmp, a, b) && LowerBound(cmp, b, s)
    ensures LowerBound(cmp, a, s)
  {
  }

  /** The head of a sorted sequence bounds its tail. */
  lemma SortedHead(cmp: Comparator, s: seq<int>)
    requires Sorted(cmp, s) && |s| > 0
    ensures LowerBound(cmp, s[0], s[1..]) && Sorted(cmp, s[1..])
  {
    forall i | 0 <= i < |s[1..]|
      ensures Le(cmp, s[0], s[1..][i])
    {
      assert s[1..][i] == s[i + 1];
    }
  }

  /** Prepending a lower bound keeps a sequence sorted. */
  lemma SortedCons(cmp: Comparator, h: int, s: seq<int>)
    requires LowerBound(cmp, h, s) && Sorted(cmp, s)
    ensures Sorted(cmp, [h] + s)
  {
    var t := [h] + s;
    forall i, j | 0 <= i < j < |t|
      ensures Le(cmp, t[i], t[j])
    {
      if i == 0 {
        assert t[j] == s[j - 1];
      } else {
        assert t[i] == s[i - 1] && t[j] == s[j - 1];
      }
    }
  }

  /** Under a valid comparator, ordered neighbours make a sorted sequence. */
  lemma {:induction false} SortedFromNeighbours(cmp: Comparator, s: seq<int>)
    requires Valid(cmp)
    requires forall i :: 0 <= i < |s| - 1 ==> Le(cmp, s[i], s[i + 1])
    ensures Sorted(cmp, s)
    decreases |s|
  {
    if |s| > 1 {
      var t := s[1..];
      assert forall i :: 0 <= i < |t| - 1 ==> Le(cmp, t[i], t[i + 1]) by {
        forall i | 0 <= i < |t| - 1
          ensures Le(cmp, t[i], t[i + 1])
        {
          assert t[i] == s[i + 1] && t[i + 1] == s[i + 2];
        }
      }
      SortedFromNeighbours(cmp, t);
      assert LowerBound(cmp, t[0], t) by { assert cmp(t[0], t[0]) == 0; }
      LowerBoundTrans(cmp, s[0], t[0], t);
      SortedCons(cmp, s[0], t);
      assert s == [s[0]] + t;
    }
  }

  /** A sequence whose elements all equal `p` is sorted under any valid comparator. */
  lemma ConstantSorted(cmp: Comparator, p: int, s: seq<int>)
    requires Valid(cmp)
    requires forall i :: 0 <= i < |s| ==> s[i] == p
    ensures Sorted(cmp, s)
  {
    forall i, j | 0 <= i < j < |s|
      ensures Le(cmp, s[i], s[j])
    {
      assert cmp(p, p) == 0;
    }
  }

  /** A lower bound of two multisets' worth of elements bounds any permutation of them. */
  lemma LowerBoundOfPermutation(cmp: Comparator, h: int, xs: seq<int>, ys: seq<int>, r: seq<int>)
    requires LowerBound(cmp, h, xs) && LowerBound(cmp, h, ys)
    requires multiset(r) == multiset(xs) + multiset(ys)
    ensures LowerBound(cmp, h, r)
  {
    forall i | 0 <= i < |r|
      ensures Le(cmp, h, r[i])
    {
      assert r[i] in multiset(r);
      if r[i] in multiset(xs) {
        var k :| 0 <= k < |xs| && xs[k] == r[i];
      } else {
        assert r[i] in multiset(ys);
        var k :| 0 <= k < |ys| && ys[k] == r[i];
      }
    }
  }

  /** Cutting a sequence in two splits its multiset. */
  lemma SplitMultiset(s: seq<int>, m: int)
    requires 0 <= m <= |s|
    ensures multiset(s) == multiset(s[..m]) + multiset(s[m..])
  {
    assert s == s[..m] + s[m..];
  }

  /** An element of a sorted sequence is bounded below by its head. */
  lemma HeadBelowMember(cmp: Comparator, s: seq<int>, v: int)
    requires Valid(cmp) && Sorted(cmp, s) && v in multiset(s)
    ensures Le(cmp, s[0], v)
  {
    var j :| 0 <= j < |s| && s[j] == v;
    if j == 0 { assert cmp(v, v) == 0; }
  }

  /** Under a strict valid comparator a multiset has exactly one sorted arrangement:
      two sorted permutations of each other are equal. */
  lemma {:induction false} SortedUnique(cmp: Comparator, s: seq<int>, t: seq<int>)
    requires Valid(cmp) && Strict(cmp)
    requires Sorted(cmp, s) && Sorted(cmp, t)
    requires multiset(s) == multiset(t)
    ensures s == t
    decreases |s|
  {
    if |s| == 0 {
      assert |multiset(t)| == 0;
    } else {
      assert |t| == |multiset(t)| == |multiset(s)| == |s|;
      assert s[0] in multiset(s) && t[0] in multiset(t);
      HeadBelowMember(cmp, t, s[0]);
      HeadBelowMember(cmp, s, t[0]);
      assert s[0] == t[0] by {
        Total(cmp, s[0], t[0]);
      }
      assert multiset(s[1..]) == multiset(t[1..]) by {
        assert s == [s[0]] + s[1..] && t == [t[0]] + t[1..];
        assert multiset(s[1..]) == multiset(s) - multiset{s[0]};
        assert multiset(t[1..]) == multiset(t) - multiset{t[0]};
      }
      SortedHead(cmp, s);
      SortedHead(cmp, t);
      SortedUnique(cmp, s[1..], t[1..]);
      assert s == [s[0]] + s[1..] && t == [t[0]] + t[1..];
    }
  }
}
