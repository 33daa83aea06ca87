/** Minimum and maximum of an int array by the pair-wise method: elements are taken two
    at a time and compared with each other first, so each pair costs three comparisons. */
module MinMaxIterative {
  import opened Outcomes
  import opened MinMaxRecursive

  /** The number of comparisons `findMinMax` makes on an array of `n >= 1` elements:
      three per pair after the first element, and two for a leftover last element. */
  function Comparisons(n: int): (c: int)
    requires n >= 1
    ensures 2 * c <= 3 * n
    ensures n % 2 == 1 ==> 2 * c == 3 * (n - 1)
  {
    3 * ((n - 1) / 2) + 2 * ((n - 1) % 2)
  }

  /** With `pairs` pairs after the first element and `tail` (0 or 1) elements left over
      the total is three comparisons per pair and two for the leftover. */
  lemma ComparisonsCount(pairs: nat, leftover: int)
    requires leftover == 0 || leftover == 1
    ensures Comparisons(1 + 2 * pairs + leftover) == 3 * pairs + 2 * leftover
  {
  }

  /** `findMinMax(arr)`: a null or empty array is rejected with an
      IllegalArgumentException; otherwise the result holds the least and the greatest
      element. The array is only read. `comparisons` counts the element comparisons made. */
  method FindMinMax(arr: array?<int>) returns (result: Result<MinMax>, ghost comparisons: int)
    ensures result.Failure? <==> arr == null || arr.Length == 0
    ensures result.Success? ==>
              IsMinIn(arr[..], 0, arr.Length, result.value.min) &&
              IsMaxIn(arr[..], 0, arr.Length, result.value.max)
    ensures result.Success? ==> comparisons == Comparisons(arr.Length)
  {
    if arr == null || arr.Length == 0 {
      return Failure(IllegalArgument("Array cannot be null or empty")), 0;
    }
    // the two fields of the Java `result` object
    var min, max := arr[0], arr[0];
    ghost var lo, hi := 0, 0;   // where min and max were found
    ghost var pairs, leftover := 0, 0;
    comparisons := 0;
    var i := 1;
    while i < arr.Length - 1
      invariant 1 <= i <= arr.Length && i == 1 + 2 * pairs
      invariant 0 <= lo < i && arr[lo] == min && 0 <= hi < i && arr[hi] == max
      invariant forall k :: 0 <= k < i ==> min <= arr[k]
      invariant forall k :: 0 <= k < i ==> arr[k] <= max
      invariant comparisons == 3 * pairs
    {
      var first := arr[i];
      var second := arr[i + 1];
      if first > second {
        if first > max {
          max, hi := first, i;
        }
        if second < min {
          min, lo := second, i + 1;
        }
      } else {
        if second > max {
          max, hi := second, i + 1;
        }
        if first < min {
          min, lo := first, i;
        }
      }
      comparisons, pairs := comparisons + 3, pairs + 1;
      i := i + 2;
    }
    // at most one element is left over when the length is even
    if i < arr.Length {
      var last := arr[i];
      if last > max {
        max, hi := last, i;
      }
      if last < min {
        min, lo := last, i;
      }
      comparisons, leftover := comparisons + 2, 1;
      i := i + 1;
    }
    ComparisonsCount(pairs, leftover);
    assert arr[..][lo] == min && arr[..][hi] == max;
    result := Success(MinMax(min, max));
  }

  /** What `findMinMax` promises pins its result down, so on every non-empty array the
      iterative result equals the divide-and-conquer result for the whole array. */
  lemma AgreesWithRecursive(s: seq<int>, r: MinMax)
    requires |s| > 0
    requires IsMinIn(s, 0, |s|, r.min) && IsMaxIn(s, 0, |s|, r.max)
    ensures r == MinMaxRecursive.FindMinMax(s, 0, |s| - 1)
  {
    MinMaxUnique(s, 0, |s|, r, MinMaxRecursive.FindMinMax(s, 0, |s| - 1));
  }

  /** The computed pairs for the program's test arrays. */
  method ExampleMixed()
  {
    var a := new int[] [5, -2, 8, 1, -10, 3];
    ghost var c;
    var r;
    r, c := FindMinMax(a);
    assert a[..][4] == -10 && a[..][2] == 8;
    MinMaxUnique(a[..], 0, 6, r.value, MinMax(-10, 8));
    assert r == Success(MinMax(-10, 8));
  }

  method ExampleShort()
  {
    var a := new int[] [42];
    ghost var c;
    var r;
    r, c := FindMinMax(a);
    assert r == Success(MinMax(42, 42));
    var b := new int[] [100, -50];
    r, c := FindMinMax(b);
    assert b[..][0] == 100 && b[..][1] == -50;
    MinMaxUnique(b[..], 0, 2, r.value, MinMax(-50, 100));
    assert r == Success(MinMax(-50, 100));
  }

  method ExampleEqual()
  {
    var a := new int[] [3, 3, 3, 3];
    ghost var c;
    var r;
    r, c := FindMinMax(a);
    assert a[..][0] == 3;
    MinMaxUnique(a[..], 0, 4, r.value, MinMax(3, 3));
    assert r == Success(MinMax(3, 3));
    r, c := FindMinMax(null);
    assert r.Failure?;
  }
}
