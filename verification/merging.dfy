/** The merge primitive `_merged`: a two-cursor linear merge that, on a tie,
    emits both heads (left first) and advances both cursors. */
module Merging {
  import opened Order
  import opened Comparators

  /** Reference definition of the merge, one emitted head (or pair of heads) at a time.
      Any comparator answer other than -1 or 0 takes the right head, as `sorting.py`'s
      final `else` does. */
  function Merged(xs: seq<int>, ys: seq<int>, cmp: Comparator): (r: seq<int>)
    ensures |r| == |xs| + |ys|
    decreases |xs| + |ys|
  {
    if |xs| == 0 then ys
    else if |ys| == 0 then xs
    else
      var c := cmp(xs[0], ys[0]);
      if c == -1 then [xs[0]] + Merged(xs[1..], ys, cmp)
      else if c == 0 then [xs[0], ys[0]] + Merged(xs[1..], ys[1..], cmp)
      else [ys[0]] + Merged(xs, ys[1..], cmp)
  }

  /** The merge emits every element of both inputs exactly once. */
  lemma {:induction false} MergedPermutation(xs: seq<int>, ys: seq<int>, cmp: Comparator)
    ensures multiset(Merged(xs, ys, cmp)) == multiset(xs) + multiset(ys)
    decreases |xs| + |ys|
  {
    if |xs| == 0 || |ys| == 0 {
      return;
    }
    assert multiset(xs) == multiset{xs[0]} + multiset(xs[1..]) by {
      assert xs == [xs[0]] + xs[1..];
    }
    assert multiset(ys) == multiset{ys[0]} + multiset(ys[1..]) by {
      assert ys == [ys[0]] + ys[1..];
    }
    var c := cmp(xs[0], ys[0]);
    if c == -1 {
      MergedPermutation(xs[1..], ys, cmp);
    } else if c == 0 {
      MergedPermutation(xs[1..], ys[1..], cmp);
      assert [xs[0], ys[0]] == [xs[0]] + [ys[0]];
    } else {
      MergedPermutation(xs, ys[1..], cmp);
    }
  }

  /** Merging two sequences sorted under a valid comparator yields a sorted
      sequence, including through the emit-both-on-tie step. */
  lemma {:induction false} MergedSorted(xs: seq<int>, ys: seq<int>, cmp: Comparator)
    requires Valid(cmp)
    requires Sorted(cmp, xs) && Sorted(cmp, ys)
    ensures Sorted(cmp, Merged(xs, ys, cmp))
    decreases |xs| + |ys|
  {
    if |xs| == 0 || |ys| == 0 {
      return;
    }
    var x, y := xs[0], ys[0];
    var c := cmp(x, y);
    SortedHead(cmp, xs);
    SortedHead(cmp, ys);
    if c == -1 {
      var rest := Merged(xs[1..], ys, cmp);
      MergedSorted(xs[1..], ys, cmp);
      assert LowerBound(cmp, y, ys) by { assert cmp(y, y) == 0; }
      LowerBoundTrans(cmp, x, y, ys);
      MergedPermutation(xs[1..], ys, cmp);
      LowerBoundOfPermutation(cmp, x, xs[1..], ys, rest);
      SortedCons(cmp, x, rest);
    } else if c == 0 {
      var rest := Merged(xs[1..], ys[1..], cmp);
      MergedSorted(xs[1..], ys[1..], cmp);
      Total(cmp, x, y);
      LowerBoundTrans(cmp, y, x, xs[1..]);
      MergedPermutation(xs[1..], ys[1..], cmp);
      LowerBoundOfPermutation(cmp, y, xs[1..], ys[1..], rest);
      SortedCons(cmp, y, rest);
      LowerBoundTrans(cmp, x, y, ys[1..]);
      LowerBoundOfPermutation(cmp, x, xs[1..], ys[1..], rest);
      assert LowerBound(cmp, x, [y] + rest);
      SortedCons(cmp, x, [y] + rest);
      assert [x, y] + rest == [x] + ([y] + rest);
    } else {
      var rest := Merged(xs, ys[1..], cmp);
      MergedSorted(xs, ys[1..], cmp);
      Total(cmp, x, y);
      assert LowerBound(cmp, x, xs) by { assert cmp(x, x) == 0; }
      LowerBoundTrans(cmp, y, x, xs);
      MergedPermutation(xs, ys[1..], cmp);
      LowerBoundOfPermutation(cmp, y, xs, ys[1..], rest);
      SortedCons(cmp, y, rest);
    }
  }

  /** The documented example of the merge. */
  lemma MergedExample()
    ensures Merged([1, 3, 5], [2, 4, 6], CmpStandard) == [1, 2, 3, 4, 5, 6]
  {
  }

  /** One step of the merge at cursors `x` and `y`, both unexhausted: if the
      merge of the remainders is `rest`, the step emits the head(s) of `rest`
      and the merge of the new remainders is what follows them. */
  lemma MergedStep(xs: seq<int>, ys: seq<int>, x: nat, y: nat, cmp: Comparator, rest: seq<int>)
    requires x < |xs| && y < |ys|
    requires rest == Merged(xs[x..], ys[y..], cmp)
    ensures cmp(xs[x], ys[y]) == -1 ==>
      rest[0] == xs[x] && rest[1..] == Merged(xs[x + 1..], ys[y..], cmp)
    ensures cmp(xs[x], ys[y]) == 0 ==>
      rest[0] == xs[x] && rest[1] == ys[y] && rest[2..] == Merged(xs[x + 1..], ys[y + 1..], cmp)
    ensures cmp(xs[x], ys[y]) != -1 && cmp(xs[x], ys[y]) != 0 ==>
      rest[0] == ys[y] && rest[1..] == Merged(xs[x..], ys[y + 1..], cmp)
  {
    assert xs[x..][0] == xs[x] && xs[x..][1..] == xs[x + 1..];
    assert ys[y..][0] == ys[y] && ys[y..][1..] == ys[y + 1..];
  }

  /** Once one cursor is exhausted the merge is the other input's remainder. */
  lemma MergedExhausted(xs: seq<int>, ys: seq<int>, x: nat, y: nat, cmp: Comparator)
    requires x <= |xs| && y <= |ys| && (x == |xs| || y == |ys|)
    ensures Merged(xs[x..], ys[y..], cmp) == xs[x..] + ys[y..]
  {
  }

  /** Writing the next slot of a buffer whose first `k` slots agree with `w`
      extends the agreement by one slot. */
  lemma WritePrefix(a: seq<int>, w: seq<int>, k: nat, v: int)
    requires k < |a| == |w| && a[..k] == w[..k] && w[k] == v
    ensures |a[k := v]| == |w| && a[k := v][..k + 1] == w[..k + 1]
  {
    assert a[k := v][..k + 1] == a[..k] + [v];
    assert w[..k + 1] == w[..k] + [w[k]];
  }

  /** The cursor state of `_merged`'s loops: the first `k` slots of `result`
      hold the first `k` elements of the reference merge `whole`, and what is
      still to be written is the merge of the two inputs' remainders. */
  ghost predicate Progress(xs: seq<int>, ys: seq<int>, cmp: Comparator, whole: seq<int>,
                           result: seq<int>, x: int, y: int, k: int)
  {
    && 0 <= x <= |xs| && 0 <= y <= |ys| && k == x + y
    && |result| == |whole| == |xs| + |ys|
    && result[..k] == whole[..k]
    && whole[k..] == Merged(xs[x..], ys[y..], cmp)
  }

  /** Emitting the left head advances the left cursor and keeps the merge state. */
  lemma EmitLeft(xs: seq<int>, ys: seq<int>, cmp: Comparator, whole: seq<int>,
                 result: seq<int>, x: int, y: int, k: int)
    requires Progress(xs, ys, cmp, whole, result, x, y, k)
    requires x < |xs| && y < |ys| && cmp(xs[x], ys[y]) == -1
    ensures Progress(xs, ys, cmp, whole, result[k := xs[x]], x + 1, y, k + 1)
  {
    MergedStep(xs, ys, x, y, cmp, whole[k..]);
    assert whole[k..][0] == whole[k];
    WritePrefix(result, whole, k, xs[x]);
    assert whole[k + 1..] == whole[k..][1..];
  }

  /** Emitting both heads on a tie advances both cursors and keeps the merge state;
      the second slot written, `k + 1`, exists. */
  lemma EmitBoth(xs: seq<int>, ys: seq<int>, cmp: Comparator, whole: seq<int>,
                 result: seq<int>, x: int, y: int, k: int)
    requires Progress(xs, ys, cmp, whole, result, x, y, k)
    requires x < |xs| && y < |ys| && cmp(xs[x], ys[y]) == 0
    ensures k + 1 < |result|
    ensures Progress(xs, ys, cmp, whole, result[k := xs[x]][k + 1 := ys[y]], x + 1, y + 1, k + 2)
  {
    MergedStep(xs, ys, x, y, cmp, whole[k..]);
    assert whole[k..][0] == whole[k] && whole[k..][1] == whole[k + 1];
    WritePrefix(result, whole, k, xs[x]);
    WritePrefix(result[k := xs[x]], whole, k + 1, ys[y]);
    assert whole[k + 2..] == whole[k..][2..];
  }

  /** Emitting the right head advances the right cursor and keeps the merge state. */
  lemma EmitRight(xs: seq<int>, ys: seq<int>, cmp: Comparator, whole: seq<int>,
                  result: seq<int>, x: int, y: int, k: int)
    requires Progress(xs, ys, cmp, whole, result, x, y, k)
    requires x < |xs| && y < |ys| && cmp(xs[x], ys[y]) != -1 && cmp(xs[x], ys[y]) != 0
    ensures Progress(xs, ys, cmp, whole, result[k := ys[y]], x, y + 1, k + 1)
  {
    MergedStep(xs, ys, x, y, cmp, whole[k..]);
    assert whole[k..][0] == whole[k];
    WritePrefix(result, whole, k, ys[y]);
    assert whole[k + 1..] == whole[k..][1..];
  }

  /** The inner loop of `_merged`: while both inputs have elements left, compare
      the heads and emit the smaller or, on a tie, both (left first). Every slot
      write is bounds-checked, so in particular the tie branch's second write at
      `k + 1` is in bounds: both cursors are unexhausted there, so at least two
      slots remain. */
  method MergeHeads(xs: seq<int>, ys: seq<int>, cmp: Comparator, ghost whole: seq<int>,
                    result0: seq<int>, x0: int, y0: int, k0: int)
    returns (result: seq<int>, x: int, y: int, k: int)
    requires Progress(xs, ys, cmp, whole, result0, x0, y0, k0)
    ensures Progress(xs, ys, cmp, whole, result, x, y, k)
    ensures x == |xs| || y == |ys|
  {
    result, x, y, k := result0, x0, y0, k0;
    while x != |xs| && y != |ys|
      invariant Progress(xs, ys, cmp, whole, result, x, y, k)
      decreases |xs| - x + |ys| - y
    {
      var comp := cmp(xs[x], ys[y]);
      if comp == -1 {
        EmitLeft(xs, ys, cmp, whole, result, x, y, k);
        result := result[k := xs[x]];
        k, x := k + 1, x + 1;
      } else if comp == 0 {
        EmitBoth(xs, ys, cmp, whole, result, x, y, k);
        result := result[k := xs[x]];
        result := result[k + 1 := ys[y]];
        k, x, y := k + 2, x + 1, y + 1;
      } else {
        EmitRight(xs, ys, cmp, whole, result, x, y, k);
        result := result[k := ys[y]];
        k, y := k + 1, y + 1;
      }
    }
  }

  /** One of the two remainder loops of `_merged`: copy `src[i..]` into the
      buffer from slot `k` on, where the reference merge continues with exactly
      that remainder; afterwards every slot is written. */
  method CopyRemainder(src: seq<int>, ghost whole: seq<int>, result0: seq<int>, i0: int, k0: int)
    returns (result: seq<int>, k: int)
    requires 0 <= i0 <= |src| && 0 <= k0 <= |whole| == |result0|
    requires result0[..k0] == whole[..k0] && whole[k0..] == src[i0..]
    ensures k == |whole| && result == whole
  {
    result, k := result0, k0;
    var i := i0;
    while i != |src|
      invariant i0 <= i <= |src| && k0 <= k <= |whole| && k - k0 == i - i0
      invariant |result| == |whole| && result[..k] == whole[..k] && whole[k..] == src[i..]
      decreases |src| - i
    {
      assert whole[k] == src[i] && whole[k + 1..] == src[i + 1..] by {
        assert whole[k..][0] == whole[k] && whole[k..][1..] == whole[k + 1..];
      }
      WritePrefix(result, whole, k, src[i]);
      result := result[k := src[i]];
      k, i := k + 1, i + 1;
    }
    assert result == result[..k];
  }

  /** `sorting.py`'s `_merged`: a buffer of `|xs| + |ys|` slots (a list local to the
      call, modelled as a sequence updated slot by slot), an outer loop that runs
      until every slot is written, the head-comparing inner loop, and the copy of
      whichever input still has elements. The buffer ends holding exactly the
      reference merge. */
  method MergedImpl(xs: seq<int>, ys: seq<int>, cmp: Comparator) returns (r: seq<int>)
    ensures r == Merged(xs, ys, cmp)
    ensures |r| == |xs| + |ys|
    ensures multiset(r) == multiset(xs) + multiset(ys)
  {
    ghost var whole := Merged(xs, ys, cmp);
    var result := seq(|xs| + |ys|, _ => 0);
    var x, y, k := 0, 0, 0;
    while k != |result|
      invariant Progress(xs, ys, cmp, whole, result, x, y, k)
      decreases |result| - k
    {
      result, x, y, k := MergeHeads(xs, ys, cmp, whole, result, x, y, k);
      MergedExhausted(xs, ys, x, y, cmp);
      if x == |xs| && y != |ys| {
        result, k := CopyRemainder(ys, whole, result, y, k);
        y := |ys|;
      } else if x != |xs| && y == |ys| {
        result, k := CopyRemainder(xs, whole, result, x, k);
        x := |xs|;
      }
    }
    assert result == result[..k];
    r := result;
    MergedPermutation(xs, ys, cmp);
  }
}
