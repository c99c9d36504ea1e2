/**
 * sum_array of lab00/sum_analysis.py: a running total over a list of
 * integers. The list is read and never changed, so it is a sequence value
 * here; Python's integers do not overflow and neither do Dafny's.
 */
module SumAnalysis {

  /** The mathematical sum of the elements, first element first. */
  function Sum(s: seq<int>): int
  {
    if s == [] then 0 else s[0] + Sum(s[1..])
  }

  /** Adding one element at the end adds it to the sum. */
  lemma {:induction false} SumAppend(xs: seq<int>, x: int)
    ensures Sum(xs + [x]) == Sum(xs) + x
  {
    if xs != [] {
      assert (xs + [x])[1..] == xs[1..] + [x];
      SumAppend(xs[1..], x);
    }
  }

  /** The sum of a concatenation is the sum of the sums. */
  lemma {:induction false} SumConcat(xs: seq<int>, ys: seq<int>)
    ensures Sum(xs + ys) == Sum(xs) + Sum(ys)
  {
    if xs != [] {
      assert (xs + ys)[1..] == xs[1..] + ys;
      SumConcat(xs[1..], ys);
    } else {
      assert xs + ys == ys;
    }
  }

  /** sum_array(arr): total starts at 0 and each element is added in turn. */
  method SumArray(arr: seq<int>) returns (total: int)
    ensures total == Sum(arr)
    ensures arr == [] ==> total == 0
  {
    total := 0;
    for i := 0 to |arr|
      invariant total == Sum(arr[..i])
    {
      assert arr[..i + 1] == arr[..i] + [arr[i]];
      SumAppend(arr[..i], arr[i]);
      total := total + arr[i];
    }
    assert arr[..|arr|] == arr;
  }
}
