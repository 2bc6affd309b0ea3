/** `QuickSort`: median-of-three pivot selection, Lomuto partition, and
    recursion on both sides of the pivot. */
module QuickSort {
  import opened Common
  import opened SortBasics

  /** The middle index, `low + (high - low) / 2`. */
  function Mid(low: int, high: int): int
    requires low <= high
  {
    low + (high - low) / 2
  }

  /** `if (arr[b] < arr[a]) std::swap(arr[b], arr[a])`: afterwards the value
      at `a` is at most the value at `b`, nothing else has moved, and the
      elements are the same. */
  function CompareSwap(s: seq<int>, a: int, b: int): (r: seq<int>)
    requires 0 <= a < |s| && 0 <= b < |s|
    ensures |r| == |s| && (a != b ==> r[a] <= r[b])
    ensures forall k :: 0 <= k < |s| && k != a && k != b ==> r[k] == s[k]
    ensures multiset(r) == multiset(s)
  {
    if s[b] < s[a] then Swap(s, a, b) else s
  }

  /** The three compare-and-swaps of `median_of_three`. */
  function OrderThree(s: seq<int>, low: int, high: int): (r: seq<int>)
    requires 0 <= low < high < |s|
    ensures |r| == |s|
    ensures forall k :: 0 <= k < |s| && k != low && k != Mid(low, high) && k != high ==> r[k] == s[k]
    ensures r[low] <= r[high] && r[Mid(low, high)] <= r[high]
    ensures Mid(low, high) != low ==> r[low] <= r[Mid(low, high)]
    ensures multiset(r) == multiset(s)
  {
    var mid := Mid(low, high);
    var s1 := CompareSwap(s, low, mid);
    var s2 := CompareSwap(s1, low, high);
    assert s2[low] <= s2[mid] || mid == low;
    CompareSwap(s2, mid, high)
  }

  /** Ordering the three positions permutes the slice `[low, high]`. */
  lemma OrderThreeInSlice(s: seq<int>, low: int, high: int)
    requires 0 <= low < high < |s|
    ensures multiset(OrderThree(s, low, high)[low..high + 1]) == multiset(s[low..high + 1])
  {
    var t := OrderThree(s, low, high);
    assert SameOutside(s, t, low, high);
    PermOutside(s, t, low, high);
  }

  /** `median_of_three(arr, low, high)`: orders the values at low, mid and
      high, then swaps the median into `high` and returns it. Only those
      three positions change. When there are at least three elements the
      returned pivot lies between what is left at `low` and at `mid`; with
      two elements `mid` is `low` and the pivot is the smaller one. */
  function MedianOfThree(s: seq<int>, low: int, high: int): (r: (seq<int>, int))
    requires 0 <= low < high < |s|
    ensures |r.0| == |s| && r.1 == r.0[high]
    ensures forall k :: 0 <= k < |s| && k != low && k != Mid(low, high) && k != high ==> r.0[k] == s[k]
    ensures multiset(r.0) == multiset(s) && multiset(r.0[low..high + 1]) == multiset(s[low..high + 1])
    ensures Mid(low, high) != low ==> r.0[low] <= r.1 <= r.0[Mid(low, high)]
    ensures Mid(low, high) == low ==> r.1 <= r.0[low]
  {
    var t := OrderThree(s, low, high);
    var u := Swap(t, Mid(low, high), high);
    assert SameOutside(s, u, low, high);
    PermOutside(s, u, low, high);
    (u, u[high])
  }

  /** `partition(arr, low, high)`: every element left of the returned index
      is at most the pivot chosen by `median_of_three`, the pivot sits at
      the index, and every element right of it, up to `high`, is greater. */
  method Partition(s: seq<int>, low: int, high: int) returns (r: seq<int>, pi: int)
    requires 0 <= low < high < |s|
    ensures low <= pi <= high && SameOutside(s, r, low, high)
    ensures multiset(r[low..high + 1]) == multiset(s[low..high + 1])
    ensures r[pi] == MedianOfThree(s, low, high).1
    ensures forall k :: low <= k < pi ==> r[k] <= r[pi]
    ensures forall k :: pi < k <= high ==> r[k] > r[pi]
  {
    var m := MedianOfThree(s, low, high);
    var pivot := m.1;
    PartitionStart(s, low, high);
    var i;
    r, i := PartitionLoop(s, m.0, low, high, pivot);
    PivotPlaced(s, r, low, high, i, pivot);
    r := Swap(r, i, high);
    pi := i;
    PermOutside(s, r, low, high);
  }

  /** The loop of `partition`: scan `[low, high)` once, moving every element
      at most the pivot to the end of the small block. */
  method PartitionLoop(s: seq<int>, r0: seq<int>, low: int, high: int, pivot: int) returns (r: seq<int>, i: int)
    requires Partitioning(s, r0, low, high, low, low, pivot)
    ensures Partitioning(s, r, low, high, i, high, pivot)
  {
    r := r0;
    i := low;
    var j := low;
    while j < high
      invariant Partitioning(s, r, low, high, i, j, pivot)
      decreases high - j
    {
      if r[j] <= pivot {
        PartitionStep(s, r, low, high, i, j, pivot);
        r := Swap(r, j, i);
        i := i + 1;
      } else {
        SkipLarge(s, r, low, high, i, j, pivot);
      }
      j := j + 1;
    }
  }

  /** Right after `median_of_three` both blocks are empty and the pivot
      waits at `high`. */
  lemma PartitionStart(s: seq<int>, low: int, high: int)
    requires 0 <= low < high < |s|
    ensures Partitioning(s, MedianOfThree(s, low, high).0, low, high, low, low, MedianOfThree(s, low, high).1)
  {
    var r := MedianOfThree(s, low, high).0;
    assert SameOutside(s, r, low, high);
  }

  /** The state of the partition loop: `[low, i)` holds elements at most
      the pivot, `[i, j)` elements above it, the pivot waits at `high`, and
      the array is a rearrangement of `s` inside `[low, high]` only. */
  predicate Partitioning(s: seq<int>, r: seq<int>, low: int, high: int, i: int, j: int, pivot: int) {
    0 <= low <= i <= j <= high < |s|
    && SameOutside(s, r, low, high) && r[high] == pivot
    && multiset(r) == multiset(s)
    && (forall k :: low <= k < i ==> r[k] <= pivot)
    && (forall k :: i <= k < j ==> r[k] > pivot)
  }

  /** One step of the partition loop that moves a small element `r[j]` to
      the end of the small block at `i`. */
  lemma PartitionStep(s: seq<int>, r: seq<int>, low: int, high: int, i: int, j: int, pivot: int)
    requires Partitioning(s, r, low, high, i, j, pivot) && j < high && r[j] <= pivot
    ensures Partitioning(s, Swap(r, j, i), low, high, i + 1, j + 1, pivot)
  {
  }

  /** One step of the partition loop that leaves a large element `r[j]` where
      it is, growing the large block. */
  lemma SkipLarge(s: seq<int>, r: seq<int>, low: int, high: int, i: int, j: int, pivot: int)
    requires Partitioning(s, r, low, high, i, j, pivot) && j < high && r[j] > pivot
    ensures Partitioning(s, r, low, high, i, j + 1, pivot)
  {
  }

  /** The final swap of `partition` puts the pivot between the two blocks. */
  lemma PivotPlaced(s: seq<int>, r: seq<int>, low: int, high: int, i: int, pivot: int)
    requires Partitioning(s, r, low, high, i, high, pivot)
    ensures var t := Swap(r, i, high);
            SameOutside(s, t, low, high) && t[i] == pivot && multiset(t) == multiset(s) &&
            (forall k :: low <= k < i ==> t[k] <= pivot) &&
            (forall k :: i < k <= high ==> t[k] > pivot)
  {
  }

  /** `quicksort(arr, low, high)`: sorts `[low, high]` in place and leaves
      the rest alone; a range of fewer than two elements is left as it is. */
  method Quicksort(s: seq<int>, low: int, high: int) returns (r: seq<int>)
    requires low < high ==> 0 <= low && high < |s|
    ensures SameOutside(s, r, low, high)
    ensures low < high ==> Sorted(r[low..high + 1])
    ensures low < high ==> multiset(r[low..high + 1]) == multiset(s[low..high + 1])
    ensures low >= high ==> r == s
    decreases high - low
  {
    if low < high {
      var p, pi := Partition(s, low, high);
      var a := Quicksort(p, low, pi - 1);
      var b := Quicksort(a, pi + 1, high);
      r := b;
      Combine(s, p, a, b, low, pi, high);
    } else {
      r := s;
    }
  }

  /** Sorting both sides of a partition sorts the whole range. */
  lemma Combine(s: seq<int>, p: seq<int>, a: seq<int>, b: seq<int>, low: int, pi: int, high: int)
    requires 0 <= low <= pi <= high < |s|
    requires SameOutside(s, p, low, high) && multiset(p[low..high + 1]) == multiset(s[low..high + 1])
    requires forall k :: low <= k < pi ==> p[k] <= p[pi]
    requires forall k :: pi < k <= high ==> p[k] > p[pi]
    requires SameOutside(p, a, low, pi - 1)
    requires low < pi - 1 ==> Sorted(a[low..pi]) && multiset(a[low..pi]) == multiset(p[low..pi])
    requires low >= pi - 1 ==> a == p
    requires SameOutside(a, b, pi + 1, high)
    requires pi + 1 < high ==> Sorted(b[pi + 1..high + 1]) && multiset(b[pi + 1..high + 1]) == multiset(a[pi + 1..high + 1])
    requires pi + 1 >= high ==> b == a
    ensures SameOutside(s, b, low, high)
    ensures Sorted(b[low..high + 1]) && multiset(b[low..high + 1]) == multiset(s[low..high + 1])
  {
    LeftSide(p, a, low, pi);
    RightSide(p, a, b, pi, high);
    assert b[low..pi] == a[low..pi];
    JoinAround(p, b, low, pi, high);
  }

  /** Sorted blocks on both sides of the pivot, each a permutation of the
      block the partition left there, make a sorted permutation of the range. */
  lemma JoinAround(p: seq<int>, b: seq<int>, low: int, pi: int, high: int)
    requires 0 <= low <= pi <= high < |p| == |b| && b[pi] == p[pi]
    requires Sorted(b[low..pi]) && multiset(b[low..pi]) == multiset(p[low..pi])
    requires Sorted(b[pi + 1..high + 1]) && multiset(b[pi + 1..high + 1]) == multiset(p[pi + 1..high + 1])
    requires AllAtMost(b[low..pi], p[pi]) && AllAtLeast(b[pi + 1..high + 1], p[pi])
    ensures Sorted(b[low..high + 1]) && multiset(b[low..high + 1]) == multiset(p[low..high + 1])
  {
    var x := p[pi];
    var left := b[low..pi];
    var right := b[pi + 1..high + 1];
    SortedJoin(left, x, right);
    assert b[low..high + 1] == left + [x] + right;
    assert p[low..high + 1] == p[low..pi] + [x] + p[pi + 1..high + 1];
  }

  /** After sorting `[low, pi)`, it is a sorted permutation of what the
      partition left there, all at most the pivot. */
  lemma LeftSide(p: seq<int>, a: seq<int>, low: int, pi: int)
    requires 0 <= low <= pi < |p|
    requires forall k :: low <= k < pi ==> p[k] <= p[pi]
    requires SameOutside(p, a, low, pi - 1)
    requires low < pi - 1 ==> Sorted(a[low..pi]) && multiset(a[low..pi]) == multiset(p[low..pi])
    requires low >= pi - 1 ==> a == p
    ensures Sorted(a[low..pi]) && multiset(a[low..pi]) == multiset(p[low..pi])
    ensures AllAtMost(a[low..pi], p[pi])
  {
    var pl := p[low..pi];
    forall k | 0 <= k < |pl| ensures pl[k] <= p[pi] {
      assert pl[k] == p[low + k];
    }
    AtMostOfSub(a[low..pi], pl, p[pi]);
  }

  /** After sorting `(pi, high]`, it is a sorted permutation of what the
      partition left there, all greater than the pivot. */
  lemma RightSide(p: seq<int>, a: seq<int>, b: seq<int>, pi: int, high: int)
    requires 0 <= pi <= high < |p|
    requires forall k :: pi < k <= high ==> p[k] > p[pi]
    requires SameOutside(p, a, 0, pi - 1) && SameOutside(a, b, pi + 1, high)
    requires pi + 1 < high ==> Sorted(b[pi + 1..high + 1]) && multiset(b[pi + 1..high + 1]) == multiset(a[pi + 1..high + 1])
    requires pi + 1 >= high ==> b == a
    ensures b[pi] == p[pi]
    ensures Sorted(b[pi + 1..high + 1]) && multiset(b[pi + 1..high + 1]) == multiset(p[pi + 1..high + 1])
    ensures AllAtLeast(b[pi + 1..high + 1], p[pi])
  {
    var pr := p[pi + 1..high + 1];
    assert a[pi + 1..high + 1] == pr;
    forall k | 0 <= k < |pr| ensures p[pi] <= pr[k] {
      assert pr[k] == p[pi + 1 + k];
    }
    AtLeastOfSub(b[pi + 1..high + 1], pr, p[pi]);
  }

  /** `sort(arr, size)`: arrays of fewer than two elements are returned at
      once; otherwise the result is a sorted permutation of the input. */
  method Sort(s: seq<int>) returns (r: seq<int>)
    ensures Sorted(r) && multiset(r) == multiset(s)
    ensures |s| < 2 ==> r == s
  {
    if |s| < 2 {
      return s;
    }
    r := Quicksort(s, 0, |s| - 1);
    assert r[0..|s|] == r && s[0..|s|] == s;
  }
}
