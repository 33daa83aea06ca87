/** Divide-and-conquer minimum and maximum of a slice of an int array. */
module MinMaxRecursive {

  /** The pair that both min-max programs return. */
  datatype MinMax = MinMax(min: int, max: int)

  /** `m` is the least of `s[lo..hi]`: it occurs there and nothing there is smaller. */
  ghost predicate IsMinIn(s: seq<int>, lo: int, hi: int, m: int)
    requires 0 <= lo <= hi <= |s|
  {
    (exists k :: lo <= k < hi && s[k] == m) && forall k :: lo <= k < hi ==> m <= s[k]
  }

  /** `m` is the greatest of `s[lo..hi]`: it occurs there and nothing there is larger. */
  ghost predicate IsMaxIn(s: seq<int>, lo: int, hi: int, m: int)
    requires 0 <= lo <= hi <= |s|
  {
    (exists k :: lo <= k < hi && s[k] == m) && forall k :: lo <= k < hi ==> s[k] <= m
  }

  /** The least and greatest elements are unique, so any two results that both satisfy
      the min-max specification are the same pair. */
  lemma MinMaxUnique(s: seq<int>, lo: int, hi: int, a: MinMax, b: MinMax)
    requires 0 <= lo <= hi <= |s|
    requires IsMinIn(s, lo, hi, a.min) && IsMaxIn(s, lo, hi, a.max)
    requires IsMinIn(s, lo, hi, b.min) && IsMaxIn(s, lo, hi, b.max)
    ensures a == b
  {
  }

  /** `findMinMax(arr, low, high)`: the minimum and maximum of `arr[low..high]`
      (both ends included). One element is its own min and max, two are compared
      directly, and a longer slice is split at `mid = low + (high - low) / 2`; since
      `low <= mid < high` both halves are non-empty and `high - low` shrinks. */
  function FindMinMax(arr: seq<int>, low: int, high: int): (r: MinMax)
    requires 0 <= low <= high < |arr|
    ensures IsMinIn(arr, low, high + 1, r.min)
    ensures IsMaxIn(arr, low, high + 1, r.max)
    decreases high - low
  {
    if low == high then
      MinMax(arr[low], arr[low])
    else if high == low + 1 then
      if arr[low] < arr[high] then MinMax(arr[low], arr[high])
      else MinMax(arr[high], arr[low])
    else
      var mid := low + (high - low) / 2;
      var left := FindMinMax(arr, low, mid);
      var right := FindMinMax(arr, mid + 1, high);
      MinMax(if left.min <= right.min then left.min else right.min,
             if left.max >= right.max then left.max else right.max)
  }

  /** The base cases: one element gives `(arr[low], arr[low])`; two elements come back
      ordered, and on a tie the pair `(arr[high], arr[low])` holds two equal values. */
  lemma FindMinMaxBaseCases(arr: seq<int>, low: int, high: int)
    requires 0 <= low <= high < |arr| && high <= low + 1
    ensures low == high ==> FindMinMax(arr, low, high) == MinMax(arr[low], arr[low])
    ensures high == low + 1 ==> FindMinMax(arr, low, high).min <= FindMinMax(arr, low, high).max
    ensures high == low + 1 && arr[low] == arr[high] ==>
              FindMinMax(arr, low, high) == MinMax(arr[high], arr[low])
  {
  }

  /** Values from the program's tests: a mixed array, one element, two elements and
      all negative numbers. */
  lemma ExampleMixed()
    ensures FindMinMax([5, -2, 8, 1, -10, 3], 0, 5) == MinMax(-10, 8)
  {
    var a := [5, -2, 8, 1, -10, 3];
    assert a[4] == -10 && a[2] == 8;
    MinMaxUnique(a, 0, 6, FindMinMax(a, 0, 5), MinMax(-10, 8));
  }

  lemma ExampleShort()
    ensures FindMinMax([42], 0, 0) == MinMax(42, 42)
    ensures FindMinMax([100, -50], 0, 1) == MinMax(-50, 100)
  {
  }

  lemma ExampleNegative()
    ensures FindMinMax([-5, -2, -8, -1], 0, 3) == MinMax(-8, -1)
  {
    var a := [-5, -2, -8, -1];
    assert a[2] == -8 && a[3] == -1;
    MinMaxUnique(a, 0, 4, FindMinMax(a, 0, 3), MinMax(-8, -1));
  }
}
