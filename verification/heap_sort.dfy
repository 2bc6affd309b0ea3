/** `HeapSort`: a max-heap is built in place over the whole array, then the
    root is repeatedly swapped to the end of a shrinking heap prefix. */
module HeapSort {
  import opened Common
  import opened SortBasics

  /** The heap edges of parent `p` within a heap of size `n`: each child
      inside the heap is at most the parent. */
  predicate HeapAt(s: seq<int>, n: int, p: int)
    requires 0 <= p && n <= |s|
  {
    (2 * p + 1 < n ==> s[2 * p + 1] <= s[p]) &&
    (2 * p + 2 < n ==> s[2 * p + 2] <= s[p])
  }

  /** Every parent from `lo` on keeps its heap edges within size `n`. */
  predicate HeapFrom(s: seq<int>, n: int, lo: int)
    requires 0 <= lo && n <= |s|
  {
    forall p :: lo <= p < n ==> HeapAt(s, n, p)
  }

  /** `heapify(arr, n, i)`: sifts the value at `i` down. `lo` is the index
      the sift started from (a proof device): every parent from `lo` on
      keeps its edges except `i` itself, and when `i` is below `lo` its own
      parent is at least its children. Afterwards every parent from `lo` on
      keeps its edges; only positions from `i` on inside the heap move. */
  method Heapify(s: seq<int>, n: int, i: int, ghost lo: int) returns (r: seq<int>)
    requires 0 <= lo <= i <= n <= |s|
    requires forall p :: lo <= p < n && p != i ==> HeapAt(s, n, p)
    requires lo < i < n ==>
               HeapAt(s, n, (i - 1) / 2) &&
               (2 * i + 1 < n ==> s[2 * i + 1] <= s[(i - 1) / 2]) &&
               (2 * i + 2 < n ==> s[2 * i + 2] <= s[(i - 1) / 2])
    ensures |r| == |s| && HeapFrom(r, n, lo)
    ensures r[..i] == s[..i] && r[n..] == s[n..]
    ensures multiset(r) == multiset(s)
    ensures multiset(r[i..n]) == multiset(s[i..n])
    decreases n - i
  {
    var largest := i;
    var l := 2 * i + 1;
    var rt := 2 * i + 2;
    if l < n && s[l] > s[largest] {
      largest := l;
    }
    if rt < n && s[rt] > s[largest] {
      largest := rt;
    }
    if largest != i {
      var t := Swap(s, i, largest);
      SwapInSlice(s, i, largest, i, n);
      SwapDown(s, n, i, lo, largest);
      r := Heapify(t, n, largest, lo);
      SiftedSlices(s, t, r, n, i, largest);
    } else {
      assert HeapAt(s, n, i);
      r := s;
    }
  }

  /** What the recursive sift leaves unchanged, it leaves unchanged from the
      caller's point of view too. */
  lemma SiftedSlices(s: seq<int>, t: seq<int>, r: seq<int>, n: int, i: int, c: int)
    requires 0 <= i < c < n <= |s| == |t| == |r|
    requires t == Swap(s, i, c) && multiset(t[i..n]) == multiset(s[i..n])
    requires r[..c] == t[..c] && r[n..] == t[n..] && multiset(r[c..n]) == multiset(t[c..n])
    ensures r[..i] == s[..i] && r[n..] == s[n..]
    ensures multiset(r[i..n]) == multiset(s[i..n])
  {
    assert t[..i] == s[..i];
    assert r[..i] == r[..c][..i];
    assert t[n..] == s[n..];
    assert r[i..n] == r[i..c] + r[c..n];
    assert t[i..n] == t[i..c] + t[c..n];
    assert r[i..c] == t[i..c] by {
      assert r[..c] == t[..c];
    }
  }

  /** Swapping `i` with its larger child `c` repairs the edges of `i` and
      of its parent, and leaves only `c`'s edges to be repaired. */
  lemma SwapDown(s: seq<int>, n: int, i: int, lo: int, c: int)
    requires 0 <= lo <= i < c < n <= |s| && (c == 2 * i + 1 || c == 2 * i + 2)
    requires s[c] >= s[i]
    requires 2 * i + 1 < n ==> s[c] >= s[2 * i + 1]
    requires 2 * i + 2 < n ==> s[c] >= s[2 * i + 2]
    requires forall p :: lo <= p < n && p != i ==> HeapAt(s, n, p)
    requires lo < i ==>
               HeapAt(s, n, (i - 1) / 2) &&
               (2 * i + 1 < n ==> s[2 * i + 1] <= s[(i - 1) / 2]) &&
               (2 * i + 2 < n ==> s[2 * i + 2] <= s[(i - 1) / 2])
    ensures var t := Swap(s, i, c);
            (forall p :: lo <= p < n && p != c ==> HeapAt(t, n, p)) &&
            HeapAt(t, n, (c - 1) / 2) &&
            (2 * c + 1 < n ==> t[2 * c + 1] <= t[(c - 1) / 2]) &&
            (2 * c + 2 < n ==> t[2 * c + 2] <= t[(c - 1) / 2])
  {
    var t := Swap(s, i, c);
    assert (c - 1) / 2 == i;
    forall p | lo <= p < n && p != c ensures HeapAt(t, n, p) {
      if p == i {
        assert t[i] == s[c];
      } else if 2 * p + 1 == i || 2 * p + 2 == i {
        assert p == (i - 1) / 2 && lo < i;
        assert t[i] == s[c] <= s[p] == t[p];
      } else {
        assert HeapAt(s, n, p);
        assert t[p] == s[p];
        assert 2 * p + 1 < n ==> t[2 * p + 1] == s[2 * p + 1];
        assert 2 * p + 2 < n ==> t[2 * p + 2] == s[2 * p + 2];
      }
    }
    assert HeapAt(s, n, c);
  }

  /** In a heap, the root is at least every element of the heap. */
  lemma {:induction false} HeapRootMax(s: seq<int>, n: int, k: int)
    requires 0 <= k < n <= |s| && HeapFrom(s, n, 0)
    ensures s[k] <= s[0]
    decreases k
  {
    if k > 0 {
      var p := (k - 1) / 2;
      assert HeapAt(s, n, p);
      HeapRootMax(s, n, p);
    }
  }

  /** The first loop of `sort`: sifting down every parent from the last one
      (`size / 2 - 1`) back to the root makes the whole array a max-heap. */
  method BuildHeap(s: seq<int>) returns (r: seq<int>)
    ensures |r| == |s| && HeapFrom(r, |r|, 0)
    ensures multiset(r) == multiset(s)
  {
    r := s;
    var i := |s| / 2 - 1;
    while i >= 0
      invariant -1 <= i < |s| && |r| == |s|
      invariant multiset(r) == multiset(s)
      invariant HeapFrom(r, |r|, i + 1)
    {
      r := Heapify(r, |r|, i, i);
      i := i - 1;
    }
  }

  /** `sort(arr, size)`: a sorted permutation of the input. */
  method Sort(s: seq<int>) returns (r: seq<int>)
    ensures Sorted(r) && multiset(r) == multiset(s)
  {
    r := BuildHeap(s);
    var i := |s| - 1;
    while i >= 0
      invariant -1 <= i < |s| && |r| == |s|
      invariant multiset(r) == multiset(s)
      invariant HeapFrom(r, i + 1, 0)
      invariant Sorted(r[i + 1..])
      invariant forall a, b :: 0 <= a <= i < b < |r| ==> r[a] <= r[b]
    {
      ghost var heap := r;
      r := Swap(r, 0, i);
      ghost var swapped := r;
      forall p | 0 < p < i ensures HeapAt(swapped, i, p) {
        assert HeapAt(heap, i + 1, p);
      }
      r := Heapify(r, i, 0, 0);
      ExtractStep(heap, swapped, r, i);
      i := i - 1;
    }
    assert r[0..] == r;
  }

  /** One extraction step: the old root lands at `i`, above every element
      left in the heap and below every element of the sorted suffix. */
  lemma ExtractStep(heap: seq<int>, swapped: seq<int>, r: seq<int>, i: int)
    requires 0 <= i < |heap| == |swapped| == |r|
    requires HeapFrom(heap, i + 1, 0) && Sorted(heap[i + 1..])
    requires forall a, b :: 0 <= a <= i < b < |heap| ==> heap[a] <= heap[b]
    requires swapped == Swap(heap, 0, i)
    requires r[i..] == swapped[i..] && multiset(r[0..i]) == multiset(swapped[0..i])
    ensures Sorted(r[i..])
    ensures forall a, b :: 0 <= a <= i - 1 < b < |r| ==> r[a] <= r[b]
  {
    var root := heap[0];
    SuffixKept(heap, swapped, r, i);
    PrefixBelowRoot(heap, swapped, r, i);
    forall a, b | 0 <= a <= i - 1 < b < |r| ensures r[a] <= r[b] {
      assert r[a] == r[0..i][a];
      if b > i {
        assert root <= heap[b];
      }
    }
    forall a, b | i <= a < b < |r| ensures r[a] <= r[b] {
      if a == i {
        assert root <= heap[b];
      } else {
        assert r[a] == heap[i + 1..][a - i - 1] && r[b] == heap[i + 1..][b - i - 1];
      }
    }
  }

  /** After the swap with the root, position `i` holds the old root and the
      sorted suffix beyond it is untouched. */
  lemma SuffixKept(heap: seq<int>, swapped: seq<int>, r: seq<int>, i: int)
    requires 0 <= i < |heap| == |swapped| == |r|
    requires swapped == Swap(heap, 0, i) && r[i..] == swapped[i..]
    ensures r[i] == heap[0]
    ensures forall b :: i < b < |r| ==> r[b] == heap[b]
  {
    assert r[i] == r[i..][0];
    forall b | i < b < |r| ensures r[b] == heap[b] {
      assert r[b] == r[i..][b - i];
    }
  }

  /** Everything left in the heap after the swap is at most the old root. */
  lemma PrefixBelowRoot(heap: seq<int>, swapped: seq<int>, r: seq<int>, i: int)
    requires 0 <= i < |heap| == |swapped| == |r|
    requires HeapFrom(heap, i + 1, 0)
    requires swapped == Swap(heap, 0, i) && multiset(r[0..i]) == multiset(swapped[0..i])
    ensures AllAtMost(r[0..i], heap[0])
  {
    forall k | 0 <= k <= i ensures heap[k] <= heap[0] {
      HeapRootMax(heap, i + 1, k);
    }
    assert AllAtMost(heap[..i + 1], heap[0]);
    SwapInSlice(heap, 0, i, 0, i + 1);
    SliceGrows(swapped, 0, i);
    assert swapped[0..i + 1] == swapped[..i + 1] && heap[0..i + 1] == heap[..i + 1];
    AtMostOfSub(r[0..i], heap[..i + 1], heap[0]);
  }
}
