/** Jump search on an ascending int array: probe the last element of blocks of
    `floor(sqrt(n))` elements until one is not below the key, then scan that block. */
module JumpSearch {

  /** The integer square root, `floor(sqrt(n))`; for every Java int it is exactly what
      `(int) Math.floor(Math.sqrt(n))` yields. */
  function Isqrt(n: nat): (r: nat)
    ensures r * r <= n < (r + 1) * (r + 1)
    ensures n >= 1 ==> r >= 1
  {
    if n == 0 then 0
    else
      var r := Isqrt(n - 1);
      if (r + 1) * (r + 1) <= n then r + 1 else r
  }

  function Min(a: int, b: int): int
  {
    if a <= b then a else b
  }

  /** Ascending order, which the program asks of its callers. */
  ghost predicate Sorted(s: seq<int>)
  {
    forall i, j :: 0 <= i <= j < |s| ==> s[i] <= s[j]
  }

  /** `jumpSearch(arr, x)`: the first index holding `x`, or -1 when `x` does not occur.
      The array must be non-empty (for `n = 0` the program reads `arr[-1]`). */
  method JumpSearch(arr: array<int>, x: int) returns (index: int)
    requires arr.Length > 0
    requires Sorted(arr[..])
    ensures index == -1 <==> forall k :: 0 <= k < arr.Length ==> arr[k] != x
    ensures index != -1 ==> 0 <= index < arr.Length && arr[index] == x
    ensures index != -1 ==> forall k :: 0 <= k < index ==> arr[k] != x
  {
    var n := arr.Length;
    var step := Isqrt(n);
    var prev := 0;
    // find the block in which x would be
    while arr[Min(step, n) - 1] < x
      invariant 0 <= prev < n && step == prev + Isqrt(n)
      invariant forall k :: 0 <= k < prev ==> arr[k] < x
      decreases n - prev
    {
      prev := step;
      step := step + Isqrt(n);
      if prev >= n {
        return -1;
      }
    }
    // x <= arr[min(step, n) - 1] and every element before prev is below x
    while arr[prev] < x
      invariant 0 <= prev < Min(step, n)
      invariant x <= arr[Min(step, n) - 1]
      invariant forall k :: 0 <= k < prev ==> arr[k] < x
      decreases Min(step, n) - prev
    {
      prev := prev + 1;
      if prev == Min(step, n) {
        // cannot happen: the block's last element is not below x
        assert false;
        return -1;
      }
    }
    if arr[prev] == x {
      return prev;
    }
    return -1;
  }

  /** The program's own demonstration on the first Fibonacci numbers. */
  method Example()
  {
    var a := new int[] [0, 1, 1, 2, 3, 5, 8, 13, 21, 34, 55, 89, 144, 233, 377, 610];
    assert Sorted(a[..]);
    var i := JumpSearch(a, 55);
    assert a[10] == 55;
    assert i == 10;
    i := JumpSearch(a, 7);
    assert i == -1;
  }
}
