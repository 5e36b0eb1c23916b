/**
  Binary search over a sorted list that reports how many halving steps it
  took together with `x` itself when present, and otherwise the smallest
  element above `x` (or nothing when every element is below `x`).
 */
module BinarySearch {
  import opened Wrappers

  predicate Sorted(a: seq<int>)
  {
    forall p, q :: 0 <= p < q < |a| ==> a[p] <= a[q]
  }

  /** The first index whose element is at least `x`, or `|a|` when there is none. */
  function LowerBound(a: seq<int>, x: int): (k: nat)
    ensures k <= |a|
    ensures forall j :: 0 <= j < k ==> a[j] < x
    ensures k < |a| ==> a[k] >= x
  {
    if a == [] || a[0] >= x then 0
    else
      var k := LowerBound(a[1..], x);
      assert forall j :: 0 < j <= k ==> a[j] == a[1..][j - 1];
      1 + k
  }

  /** Any index with only smaller elements before it and an element at least `x` at it (or at the end) is `LowerBound`. */
  lemma {:induction false} LowerBoundIsFirst(a: seq<int>, x: int, k: nat)
    requires k <= |a|
    requires forall j :: 0 <= j < k ==> a[j] < x
    requires k < |a| ==> a[k] >= x
    ensures LowerBound(a, x) == k
  {
    if k > 0 {
      assert forall j :: 0 <= j < k - 1 ==> a[1..][j] == a[j + 1];
      LowerBoundIsFirst(a[1..], x, k - 1);
    }
  }

  /** The element at `LowerBound`, if any: the reference answer of the search. */
  function Ceiling(a: seq<int>, x: int): Option<int>
  {
    var k := LowerBound(a, x);
    if k < |a| then Some(a[k]) else None
  }

  /**
    What the reference answer means on a sorted list: `x` itself when it
    occurs, otherwise the least element above `x`, and nothing exactly when
    every element is below `x`.
   */
  lemma CeilingIsLeastAtLeast(a: seq<int>, x: int)
    requires Sorted(a)
    ensures x in a ==> Ceiling(a, x) == Some(x)
    ensures Ceiling(a, x).None? <==> forall k :: 0 <= k < |a| ==> a[k] < x
    ensures Ceiling(a, x).Some? ==>
      Ceiling(a, x).value in a && Ceiling(a, x).value >= x &&
      forall k :: 0 <= k < |a| && a[k] >= x ==> Ceiling(a, x).value <= a[k]
  {
    var lb := LowerBound(a, x);
    if x in a {
      var k :| 0 <= k < |a| && a[k] == x;
      assert lb <= k;
      assert a[lb] <= a[k];
    }
  }

  /**
    The search range `low..high` brackets where `x` belongs: every element
    left of it is below `x` and every element right of it is above `x`.
   */
  ghost predicate Brackets(a: seq<int>, x: int, low: int, high: int)
  {
    0 <= low <= high + 1 <= |a| &&
    (forall k :: 0 <= k < low ==> a[k] < x) &&
    (forall k :: high < k < |a| ==> a[k] > x)
  }

  /** On a sorted list, moving `low` past an element below `x` keeps the bracket. */
  lemma RaiseLow(a: seq<int>, x: int, low: int, high: int, mid: int)
    requires Sorted(a) && Brackets(a, x, low, high)
    requires low <= mid <= high && a[mid] < x
    ensures Brackets(a, x, mid + 1, high)
  {
    forall k | 0 <= k <= mid
      ensures a[k] < x
    {
      assert a[k] <= a[mid];
    }
  }

  /** On a sorted list, moving `high` below an element above `x` keeps the bracket. */
  lemma LowerHigh(a: seq<int>, x: int, low: int, high: int, mid: int)
    requires Sorted(a) && Brackets(a, x, low, high)
    requires low <= mid <= high && a[mid] > x
    ensures Brackets(a, x, low, mid - 1)
  {
    forall k | mid <= k < |a|
      ensures a[k] > x
    {
      assert a[mid] <= a[k];
    }
  }

  /** Once the bracket is empty, the reference answer is the element at its left end, if any. */
  lemma ClosedBracket(a: seq<int>, x: int, low: int, high: int)
    requires Brackets(a, x, low, high) && low == high + 1
    ensures LowerBound(a, x) == low
    ensures Ceiling(a, x) == if low < |a| then Some(a[low]) else None
  {
    LowerBoundIsFirst(a, x, low);
  }

  /** `floor(log2(n))` for `n >= 1`. */
  function Log2Floor(n: nat): nat
    requires n >= 1
  {
    if n == 1 then 0 else 1 + Log2Floor(n / 2)
  }

  lemma {:induction false} Log2FloorMonotonic(m: nat, n: nat)
    requires 1 <= m <= n
    ensures Log2Floor(m) <= Log2Floor(n)
  {
    if m > 1 {
      Log2FloorMonotonic(m / 2, n / 2);
    }
  }

  /**
    One pass of the loop: a non-empty range of size `s` leaves a range of at
    most `s / 2` elements, so the pass count plus the `Log2Floor` of what is
    left never exceeds `Log2Floor(n)`, and the count stays within
    `Log2Floor(n) + 1`.
   */
  lemma HalvingStep(n: nat, iterations: nat, low: int, high: int, low': int, high': int)
    requires 1 <= n && low <= high
    requires iterations + Log2Floor(high - low + 1) <= Log2Floor(n)
    requires var mid := (high + low) / 2;
      (low' == mid + 1 && high' == high) || (low' == low && high' == mid - 1)
    ensures low' <= high' ==> iterations + 1 + Log2Floor(high' - low' + 1) <= Log2Floor(n)
    ensures iterations + 1 <= Log2Floor(n) + 1
  {
    var s, s' := high - low + 1, high' - low' + 1;
    if 1 <= s' {
      assert s' <= s / 2;
      Log2FloorMonotonic(s', s / 2);
    }
  }

  /**
    `binary_search`, returning the pair it prints: the number of passes of
    the loop and the search's answer.
   */
  method BinarySearch(arr: seq<int>, x: int) returns (iterations: nat, result: Option<int>)
    requires |arr| >= 1 && Sorted(arr)
    ensures result == Ceiling(arr, x)
    ensures 1 <= iterations <= Log2Floor(|arr|) + 1
  {
    var low, high := 0, |arr| - 1;
    var mid := 0;
    iterations := 0;
    while low <= high
      invariant Brackets(arr, x, low, high)
      invariant 0 <= mid < |arr|
      invariant iterations == 0 ==> low == 0 && high == |arr| - 1
      invariant iterations > 0 ==> (low == mid + 1 && arr[mid] < x) || (high == mid - 1 && arr[mid] > x)
      invariant low <= high ==> iterations + Log2Floor(high - low + 1) <= Log2Floor(|arr|)
      invariant iterations <= Log2Floor(|arr|) + 1
      decreases high - low
    {
      iterations := iterations + 1;
      mid := (high + low) / 2;
      if arr[mid] < x {
        RaiseLow(arr, x, low, high, mid);
        HalvingStep(|arr|, iterations - 1, low, high, mid + 1, high);
        low := mid + 1;
      } else if arr[mid] > x {
        LowerHigh(arr, x, low, high, mid);
        HalvingStep(|arr|, iterations - 1, low, high, low, mid - 1);
        high := mid - 1;
      } else {
        CeilingIsLeastAtLeast(arr, x);
        return iterations, Some(arr[mid]);
      }
    }
    if arr[mid] < x {
      ClosedBracket(arr, x, low, high);
      result := if mid + 1 < |arr| then Some(arr[mid + 1]) else None;
    } else {
      ClosedBracket(arr, x, low, high);
      result := Some(arr[mid]);
    }
  }
}
