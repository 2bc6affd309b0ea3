/** `MergeSort`: top-down merge sort with a two-element base case and a merge
    through temporary copies of both runs. */
module MergeSort {
  import opened Common
  import opened SortBasics

  /** The reference merge of what is left of two runs once `i` elements of
      `l` and `j` of `r` have been taken: repeatedly take the smaller head,
      and the head of the left run when the two are equal. */
  function MergeFrom(l: seq<int>, r: seq<int>, i: nat, j: nat): seq<int>
    requires i <= |l| && j <= |r|
    decreases |l| - i + |r| - j
  {
    if i == |l| then r[j..]
    else if j == |r| then l[i..]
    else if l[i] <= r[j] then [l[i]] + MergeFrom(l, r, i + 1, j)
    else [r[j]] + MergeFrom(l, r, i, j + 1)
  }

  /** The reference merge of two runs. */
  function MergeSpec(l: seq<int>, r: seq<int>): seq<int> {
    MergeFrom(l, r, 0, 0)
  }

  /** Taking the head of the left run. */
  lemma TakeLeft(l: seq<int>, r: seq<int>, i: nat, j: nat)
    requires i < |l| && j <= |r| && (j == |r| || l[i] <= r[j])
    ensures MergeFrom(l, r, i, j) == [l[i]] + MergeFrom(l, r, i + 1, j)
  {
    if j == |r| {
      assert l[i..] == [l[i]] + l[i + 1..];
    }
  }

  /** Taking the head of the right run. */
  lemma TakeRight(l: seq<int>, r: seq<int>, i: nat, j: nat)
    requires i <= |l| && j < |r| && (i == |l| || l[i] > r[j])
    ensures MergeFrom(l, r, i, j) == [r[j]] + MergeFrom(l, r, i, j + 1)
  {
    if i == |l| {
      assert r[j..] == [r[j]] + r[j + 1..];
    }
  }

  /** The merge contains exactly the elements left in both runs. */
  lemma {:induction false} MergeFromPermutes(l: seq<int>, r: seq<int>, i: nat, j: nat)
    requires i <= |l| && j <= |r|
    ensures multiset(MergeFrom(l, r, i, j)) == multiset(l[i..]) + multiset(r[j..])
    decreases |l| - i + |r| - j
  {
    if i < |l| && j < |r| {
      if l[i] <= r[j] {
        TakeLeft(l, r, i, j);
        MergeFromPermutes(l, r, i + 1, j);
        SuffixSplit(l, i);
      } else {
        TakeRight(l, r, i, j);
        MergeFromPermutes(l, r, i, j + 1);
        SuffixSplit(r, j);
      }
    }
  }

  /** A non-empty suffix is its first element followed by the next suffix. */
  lemma SuffixSplit(l: seq<int>, i: nat)
    requires i < |l|
    ensures multiset(l[i..]) == multiset{l[i]} + multiset(l[i + 1..])
  {
    assert l[i..] == [l[i]] + l[i + 1..];
  }

  /** The merge of what is left of two sorted runs is sorted. */
  lemma {:induction false} MergeFromSorted(l: seq<int>, r: seq<int>, i: nat, j: nat)
    requires i <= |l| && j <= |r| && Sorted(l) && Sorted(r)
    ensures Sorted(MergeFrom(l, r, i, j))
    decreases |l| - i + |r| - j
  {
    if i == |l| {
      SortedSuffix(r, j);
    } else if j == |r| {
      SortedSuffix(l, i);
    } else if l[i] <= r[j] {
      MergeFromSorted(l, r, i + 1, j);
      HeadBelowRest(l, r, i + 1, j, l[i]);
      SortedCons(l[i], MergeFrom(l, r, i + 1, j));
    } else {
      MergeFromSorted(l, r, i, j + 1);
      HeadBelowRest(l, r, i, j + 1, r[j]);
      SortedCons(r[j], MergeFrom(l, r, i, j + 1));
    }
  }

  /** A value at most every remaining element of both sorted runs is at most
      every element of their merge. */
  lemma HeadBelowRest(l: seq<int>, r: seq<int>, i: nat, j: nat, x: int)
    requires i <= |l| && j <= |r| && Sorted(l) && Sorted(r)
    requires i < |l| ==> x <= l[i]
    requires j < |r| ==> x <= r[j]
    ensures AllAtLeast(MergeFrom(l, r, i, j), x)
  {
    MergeFromPermutes(l, r, i, j);
    SuffixAtLeast(l, i, x);
    SuffixAtLeast(r, j, x);
    AtLeastOfUnion(MergeFrom(l, r, i, j), l[i..], r[j..], x);
  }

  /** A value at most every element of `a` and of `b` is at most every
      element of any arrangement of both. */
  lemma AtLeastOfUnion(m: seq<int>, a: seq<int>, b: seq<int>, x: int)
    requires multiset(m) == multiset(a) + multiset(b) && AllAtLeast(a, x) && AllAtLeast(b, x)
    ensures AllAtLeast(m, x)
  {
    var u := a + b;
    forall k | |a| <= k < |u| ensures x <= u[k] {
      assert u[k] == b[k - |a|];
    }
    assert multiset(u) == multiset(a) + multiset(b);
    AtLeastOfSub(m, u, x);
  }

  /** A value at most the first element of a sorted suffix is at most all of it. */
  lemma SuffixAtLeast(s: seq<int>, i: nat, x: int)
    requires Sorted(s) && i <= |s| && (i < |s| ==> x <= s[i])
    ensures AllAtLeast(s[i..], x)
  {
    forall k | 0 <= k < |s| - i ensures x <= s[i..][k] {
      assert s[i..][k] == s[i + k];
    }
  }

  /** A suffix of a sorted sequence is sorted. */
  lemma SortedSuffix(s: seq<int>, i: nat)
    requires Sorted(s) && i <= |s|
    ensures Sorted(s[i..])
  {
    forall a, b | 0 <= a < b < |s| - i ensures s[i..][a] <= s[i..][b] {
      assert s[i..][a] == s[i + a] && s[i..][b] == s[i + b];
    }
  }

  /** A value at most every element of a sorted sequence can go in front. */
  lemma SortedCons(x: int, m: seq<int>)
    requires Sorted(m) && AllAtLeast(m, x)
    ensures Sorted([x] + m)
  {
    SortedJoin([], x, m);
    assert [] + [x] + m == [x] + m;
  }

  /** The reference merge of two sorted runs is a sorted permutation of them. */
  lemma MergeSpecCorrect(l: seq<int>, r: seq<int>)
    requires Sorted(l) && Sorted(r)
    ensures Sorted(MergeSpec(l, r)) && multiset(MergeSpec(l, r)) == multiset(l) + multiset(r)
  {
    MergeFromSorted(l, r, 0, 0);
    MergeFromPermutes(l, r, 0, 0);
    assert l[0..] == l && r[0..] == r;
  }

  /** Positions `[start, k)` of `r` hold the first `k - start` values of `m`. */
  predicate Written(r: seq<int>, start: int, k: int, m: seq<int>) {
    0 <= start <= k <= |r| && k - start <= |m| && forall t :: start <= t < k ==> r[t] == m[t - start]
  }

  /** `arr[k] = x` with `x` the next value of `m` extends the written prefix. */
  lemma WriteAt(r: seq<int>, start: int, k: int, m: seq<int>, x: int)
    requires Written(r, start, k, m) && k < |r| && k - start < |m| && m[k - start] == x
    ensures Written(r[k := x], start, k + 1, m)
  {
  }

  /** A write inside `[start, end]` changes nothing outside it. */
  lemma WriteInside(s: seq<int>, r: seq<int>, start: int, end: int, k: int, x: int)
    requires start <= k <= end && 0 <= k < |r| && SameOutside(s, r, start, end)
    ensures SameOutside(s, r[k := x], start, end)
  {
  }

  /** Taking the head `x` of the rest `m[n..]` leaves `m[n + 1..]`. */
  lemma TakeHead(m: seq<int>, n: int, x: int, rest: seq<int>)
    requires 0 <= n <= |m| && m[n..] == [x] + rest
    ensures n < |m| && m[n] == x && m[n + 1..] == rest
  {
    assert m[n..][0] == x;
    assert m[n + 1..] == m[n..][1..];
  }

  /** Once the rest is empty, the written prefix is the whole of `m`. */
  lemma WrittenAll(r: seq<int>, start: int, k: int, m: seq<int>)
    requires Written(r, start, k, m) && 0 <= k - start <= |m| && m[k - start..] == []
    ensures r[start..k] == m
  {
  }

  /** `merge(arr, start, mid, end)`: the runs `[start, mid]` and `(mid, end]`
      are copied to `L` and `R`, then `[start, end]` is overwritten with their
      reference merge; nothing outside it changes. */
  method Merge(s: seq<int>, start: int, mid: int, end: int) returns (r: seq<int>)
    requires 0 <= start <= mid <= end < |s|
    ensures SameOutside(s, r, start, end)
    ensures r[start..end + 1] == MergeSpec(s[start..mid + 1], s[mid + 1..end + 1])
  {
    var left := s[start..mid + 1];
    var right := s[mid + 1..end + 1];
    var m := MergeSpec(left, right);
    assert m[0..] == m;
    var i, j;
    r, i, j := MergeHeads(s, left, right, start, end, m);
    r, i := CopyLeftRest(s, r, left, right, start, end, i, j, m);
    r, j := CopyRightRest(s, r, left, right, start, end, i, j, m);
    WrittenAll(r, start, end + 1, m);
  }

  /** The state between passes of `merge`'s loops: `[start, start + i + j)`
      holds the start of `m`, the reference merge of both runs, whose
      remainder is the merge of what is left of them, and nothing outside
      `[start, end]` changed. */
  predicate Merging(s: seq<int>, r: seq<int>, left: seq<int>, right: seq<int>, start: int, end: int, i: int, j: int, m: seq<int>) {
    0 <= start && start + |left| + |right| == end + 1 <= |s|
    && 0 <= i <= |left| && 0 <= j <= |right|
    && SameOutside(s, r, start, end)
    && Written(r, start, start + i + j, m)
    && i + j <= |m| && m[i + j..] == MergeFrom(left, right, i, j)
  }

  /** Writing the value taken from one run keeps the loop state. */
  lemma WriteNext(s: seq<int>, r: seq<int>, left: seq<int>, right: seq<int>, start: int, end: int, i: int, j: int, i': int, j': int, x: int, m: seq<int>)
    requires Merging(s, r, left, right, start, end, i, j, m)
    requires i <= i' <= |left| && j <= j' <= |right| && i' + j' == i + j + 1
    requires MergeFrom(left, right, i, j) == [x] + MergeFrom(left, right, i', j')
    ensures Merging(s, r[start + i + j := x], left, right, start, end, i', j', m)
  {
    var k := start + i + j;
    TakeHead(m, i + j, x, MergeFrom(left, right, i', j'));
    WriteAt(r, start, k, m, x);
    WriteInside(s, r, start, end, k, x);
  }

  /** The first loop of `merge`: while both runs have elements left, write
      the smaller head, the left one on ties. What is written from `start`
      on, followed by the reference merge of what is left, is the reference
      merge of both runs. */
  method MergeHeads(s: seq<int>, left: seq<int>, right: seq<int>, start: int, end: int, m: seq<int>)
    returns (r: seq<int>, i: int, j: int)
    requires Merging(s, s, left, right, start, end, 0, 0, m)
    ensures i == |left| || j == |right|
    ensures Merging(s, r, left, right, start, end, i, j, m)
  {
    r := s;
    i := 0;
    j := 0;
    while i < |left| && j < |right|
      invariant Merging(s, r, left, right, start, end, i, j, m)
      decreases |left| - i + |right| - j
    {
      if left[i] <= right[j] {
        TakeLeft(left, right, i, j);
        WriteNext(s, r, left, right, start, end, i, j, i + 1, j, left[i], m);
        r := r[start + i + j := left[i]];
        i := i + 1;
      } else {
        TakeRight(left, right, i, j);
        WriteNext(s, r, left, right, start, end, i, j, i, j + 1, right[j], m);
        r := r[start + i + j := right[j]];
        j := j + 1;
      }
    }
  }

  /** The second loop of `merge`: copy what is left of the left run, which
      happens only when the right run is used up. */
  method CopyLeftRest(s: seq<int>, r0: seq<int>, left: seq<int>, right: seq<int>, start: int, end: int, i0: int, j: int, m: seq<int>)
    returns (r: seq<int>, i: int)
    requires i0 == |left| || j == |right|
    requires Merging(s, r0, left, right, start, end, i0, j, m)
    ensures i == |left|
    ensures Merging(s, r, left, right, start, end, i, j, m)
  {
    r, i := r0, i0;
    while i < |left|
      invariant i < |left| ==> j == |right|
      invariant Merging(s, r, left, right, start, end, i, j, m)
      decreases |left| - i
    {
      TakeLeft(left, right, i, j);
      WriteNext(s, r, left, right, start, end, i, j, i + 1, j, left[i], m);
      r := r[start + i + j := left[i]];
      i := i + 1;
    }
  }

  /** The third loop of `merge`: copy what is left of the right run, once
      the left run is used up. */
  method CopyRightRest(s: seq<int>, r0: seq<int>, left: seq<int>, right: seq<int>, start: int, end: int, i: int, j0: int, m: seq<int>)
    returns (r: seq<int>, j: int)
    requires i == |left|
    requires Merging(s, r0, left, right, start, end, i, j0, m)
    ensures j == |right|
    ensures Merging(s, r, left, right, start, end, i, j, m)
  {
    r, j := r0, j0;
    while j < |right|
      invariant Merging(s, r, left, right, start, end, i, j, m)
      decreases |right| - j
    {
      TakeRight(left, right, i, j);
      WriteNext(s, r, left, right, start, end, i, j, i, j + 1, right[j], m);
      r := r[start + i + j := right[j]];
      j := j + 1;
    }
  }

  /** `mergesort(arr, start, end)`: sorts `[start, end]` in place and leaves
      the rest alone. A range of fewer than two elements is left as it is; a
      two-element range is swapped exactly when it is out of order. */
  method Mergesort(s: seq<int>, start: int, end: int) returns (r: seq<int>)
    requires start < end ==> 0 <= start && end < |s|
    ensures SameOutside(s, r, start, end)
    ensures start < end ==> Sorted(r[start..end + 1])
    ensures start < end ==> multiset(r[start..end + 1]) == multiset(s[start..end + 1])
    ensures start >= end ==> r == s
    ensures end - start == 1 ==> r == if s[start] > s[end] then Swap(s, start, end) else s
    decreases end - start
  {
    if start >= end {
      return s;
    }
    if end - start == 1 {
      r := SortPair(s, start, end);
      return;
    }
    var mid := start + (end - start) / 2;
    var a := Mergesort(s, start, mid);
    var b := Mergesort(a, mid + 1, end);
    r := Merge(b, start, mid, end);
    MergeSorted(s, a, b, r, start, mid, end);
  }

  /** The two-element base case of `mergesort`: swap when out of order. */
  method SortPair(s: seq<int>, start: int, end: int) returns (r: seq<int>)
    requires 0 <= start && end == start + 1 && end < |s|
    ensures r == if s[start] > s[end] then Swap(s, start, end) else s
    ensures SameOutside(s, r, start, end)
    ensures Sorted(r[start..end + 1]) && multiset(r[start..end + 1]) == multiset(s[start..end + 1])
  {
    if s[start] > s[end] {
      r := Swap(s, start, end);
      SwappedPair(s, start, end);
    } else {
      r := s;
      assert r[start..end + 1] == [r[start], r[end]];
    }
  }

  /** Swapping an out-of-order adjacent pair sorts it and keeps its elements. */
  lemma SwappedPair(s: seq<int>, start: int, end: int)
    requires 0 <= start && end == start + 1 && end < |s| && s[start] > s[end]
    ensures SameOutside(s, Swap(s, start, end), start, end)
    ensures Sorted(Swap(s, start, end)[start..end + 1])
    ensures multiset(Swap(s, start, end)[start..end + 1]) == multiset(s[start..end + 1])
  {
    var r := Swap(s, start, end);
    SwapInSlice(s, start, end, start, end + 1);
    assert r[start..end + 1] == [r[start], r[end]];
  }

  /** Merging the two sorted halves sorts the whole range and keeps its elements. */
  lemma MergeSorted(s: seq<int>, a: seq<int>, b: seq<int>, r: seq<int>, start: int, mid: int, end: int)
    requires 0 <= start < mid < end < |s|
    requires SameOutside(s, a, start, mid)
    requires Sorted(a[start..mid + 1]) && multiset(a[start..mid + 1]) == multiset(s[start..mid + 1])
    requires SameOutside(a, b, mid + 1, end)
    requires Sorted(b[mid + 1..end + 1]) && multiset(b[mid + 1..end + 1]) == multiset(a[mid + 1..end + 1])
    requires SameOutside(b, r, start, end)
    requires r[start..end + 1] == MergeSpec(b[start..mid + 1], b[mid + 1..end + 1])
    ensures SameOutside(s, r, start, end)
    ensures Sorted(r[start..end + 1]) && multiset(r[start..end + 1]) == multiset(s[start..end + 1])
  {
    assert b[start..mid + 1] == a[start..mid + 1];
    assert a[mid + 1..end + 1] == s[mid + 1..end + 1];
    MergeSpecCorrect(b[start..mid + 1], b[mid + 1..end + 1]);
    assert s[start..end + 1] == s[start..mid + 1] + s[mid + 1..end + 1];
  }

  /** `sort(arr, size)`: `mergesort(arr, 0, size - 1)`, a sorted permutation
      of the input. For an empty array `size - 1` wraps to the largest
      `size_t`, which becomes -1 as an `int`, so nothing happens. */
  method Sort(s: seq<int>) returns (r: seq<int>)
    ensures Sorted(r) && multiset(r) == multiset(s)
  {
    r := Mergesort(s, 0, |s| - 1);
    if |s| >= 2 {
      assert r[0..|s|] == r && s[0..|s|] == s;
    }
  }
}
