/** What the four array sorts share: an array is a sequence of `int`, and
    `std::swap` of two positions is a function on it. */
module SortBasics {
  import opened Common

  /** `std::swap(arr[i], arr[j])`. */
  function Swap(s: seq<int>, i: int, j: int): (r: seq<int>)
    requires 0 <= i < |s| && 0 <= j < |s|
    ensures |r| == |s| && r[i] == s[j] && r[j] == s[i]
    ensures forall k :: 0 <= k < |s| && k != i && k != j ==> r[k] == s[k]
    ensures multiset(r) == multiset(s)
  {
    var r := s[i := s[j]][j := s[i]];
    SwapPermutes(s, i, j, r);
    r
  }

  lemma SwapPermutes(s: seq<int>, i: int, j: int, r: seq<int>)
    requires 0 <= i < |s| && 0 <= j < |s| && r == s[i := s[j]][j := s[i]]
    ensures multiset(r) == multiset(s)
  {
    if i != j {
      assert multiset(s[i := s[j]]) == multiset(s) - multiset{s[i]} + multiset{s[j]};
      assert multiset(r) == multiset(s[i := s[j]]) - multiset{s[j]} + multiset{s[i]};
    }
  }

  /** Positions outside `[low, high]` hold the same values in both sequences. */
  predicate SameOutside(s: seq<int>, r: seq<int>, low: int, high: int) {
    |r| == |s| && forall k :: 0 <= k < |s| && !(low <= k <= high) ==> r[k] == s[k]
  }

  /** A swap of two positions inside `[lo, hi)` permutes that slice. */
  lemma SwapInSlice(s: seq<int>, i: int, j: int, lo: int, hi: int)
    requires 0 <= lo <= i < hi <= |s| && lo <= j < hi
    ensures multiset(Swap(s, i, j)[lo..hi]) == multiset(s[lo..hi])
  {
    assert Swap(s, i, j)[lo..hi] == Swap(s[lo..hi], i - lo, j - lo);
  }

  /** A slice with one more element at its end has a larger multiset. */
  lemma SliceGrows(s: seq<int>, lo: int, hi: int)
    requires 0 <= lo <= hi < |s|
    ensures multiset(s[lo..hi]) <= multiset(s[lo..hi + 1])
  {
    assert s[lo..hi + 1] == s[lo..hi] + [s[hi]];
  }

  /** Sequences that agree everywhere but `[lo, hi)`, with the same multiset
      on that slice, have the same multiset. */
  lemma SliceToWhole(s: seq<int>, r: seq<int>, lo: int, hi: int)
    requires 0 <= lo <= hi <= |s| == |r|
    requires s[..lo] == r[..lo] && s[hi..] == r[hi..]
    requires multiset(r[lo..hi]) == multiset(s[lo..hi])
    ensures multiset(r) == multiset(s)
  {
    assert s == s[..lo] + s[lo..hi] + s[hi..];
    assert r == r[..lo] + r[lo..hi] + r[hi..];
  }

  /** Sequences that agree everywhere but `[lo, hi)`, with the same multiset,
      have the same multiset on that slice. */
  lemma WholeToSlice(s: seq<int>, r: seq<int>, lo: int, hi: int)
    requires 0 <= lo <= hi <= |s| == |r|
    requires s[..lo] == r[..lo] && s[hi..] == r[hi..]
    requires multiset(r) == multiset(s)
    ensures multiset(r[lo..hi]) == multiset(s[lo..hi])
  {
    var p, m, m', q := s[..lo], s[lo..hi], r[lo..hi], s[hi..];
    assert s == p + m + q;
    assert r == p + m' + q;
    assert multiset(s) == multiset(p) + multiset(m) + multiset(q);
    assert multiset(r) == multiset(p) + multiset(m') + multiset(q);
    forall x ensures multiset(m')[x] == multiset(m)[x] {
      assert multiset(s)[x] == multiset(p)[x] + multiset(m)[x] + multiset(q)[x];
      assert multiset(r)[x] == multiset(p)[x] + multiset(m')[x] + multiset(q)[x];
    }
  }

  /** A rearrangement that keeps everything outside `[lo, hi]` in place
      permutes that range. */
  lemma PermOutside(s: seq<int>, r: seq<int>, lo: int, hi: int)
    requires 0 <= lo <= hi < |s| && SameOutside(s, r, lo, hi) && multiset(r) == multiset(s)
    ensures multiset(r[lo..hi + 1]) == multiset(s[lo..hi + 1])
  {
    assert s[..lo] == r[..lo];
    assert s[hi + 1..] == r[hi + 1..];
    WholeToSlice(s, r, lo, hi + 1);
  }
}
