/** Definitions shared by the models of the four algorithm components. */
module Common {

  /** The outcome of an operation that can fail: the source's exceptions and
      undefined reads become an `Err` carrying what went wrong. */
  datatype Result<+T, +E> = Ok(value: T) | Err(error: E)

  /** Number of values of a 64-bit `size_t`. */
  const SizeModulus: int := 0x1_0000_0000_0000_0000

  /** The largest `size_t`, which `0 - 1` wraps to. */
  const SizeMax: int := SizeModulus - 1

  /** A 64-bit unsigned `size_t`. */
  type SizeT = n: int | 0 <= n < SizeModulus

  /** `n++` on a `size_t`. */
  function SizeInc(n: SizeT): (r: SizeT)
    ensures n < SizeMax ==> r == n + 1
    ensures n == SizeMax ==> r == 0
  {
    (n + 1) % SizeModulus
  }

  /** `n--` on a `size_t`: zero wraps around to the largest value. */
  function SizeDec(n: SizeT): (r: SizeT)
    ensures n > 0 ==> r == n - 1
    ensures n == 0 ==> r == SizeMax
  {
    (n - 1) % SizeModulus
  }

  /** Non-decreasing order, stated over every pair of positions. */
  predicate Sorted(s: seq<int>) {
    forall i, j :: 0 <= i < j < |s| ==> s[i] <= s[j]
  }

  /** Every element of `s` is at most `x`. */
  predicate AllAtMost(s: seq<int>, x: int) {
    forall k :: 0 <= k < |s| ==> s[k] <= x
  }

  /** Every element of `s` is at least `x`. */
  predicate AllAtLeast(s: seq<int>, x: int) {
    forall k :: 0 <= k < |s| ==> x <= s[k]
  }

  /** A sorted sequence splits into a sorted left part, a middle element and a
      sorted right part with left <= middle <= right, and conversely. */
  lemma SortedSplit(l: seq<int>, x: int, r: seq<int>)
    ensures Sorted(l + [x] + r) <==> Sorted(l) && Sorted(r) && AllAtMost(l, x) && AllAtLeast(r, x)
  {
    if Sorted(l + [x] + r) {
      SortedSplitParts(l, x, r);
    }
    if Sorted(l) && Sorted(r) && AllAtMost(l, x) && AllAtLeast(r, x) {
      SortedJoin(l, x, r);
    }
  }

  lemma SortedSplitParts(l: seq<int>, x: int, r: seq<int>)
    requires Sorted(l + [x] + r)
    ensures Sorted(l) && Sorted(r) && AllAtMost(l, x) && AllAtLeast(r, x)
  {
    var s := l + [x] + r;
    assert s[|l|] == x;
    forall i, j | 0 <= i < j < |l| ensures l[i] <= l[j] {
      assert l[i] == s[i] && l[j] == s[j];
    }
    forall i, j | 0 <= i < j < |r| ensures r[i] <= r[j] {
      assert r[i] == s[|l| + 1 + i] && r[j] == s[|l| + 1 + j];
    }
    forall k | 0 <= k < |l| ensures l[k] <= x {
      assert l[k] == s[k];
    }
    forall k | 0 <= k < |r| ensures x <= r[k] {
      assert r[k] == s[|l| + 1 + k];
    }
  }

  lemma SortedJoin(l: seq<int>, x: int, r: seq<int>)
    requires Sorted(l) && Sorted(r) && AllAtMost(l, x) && AllAtLeast(r, x)
    ensures Sorted(l + [x] + r)
  {
    var s := l + [x] + r;
    forall i, j | 0 <= i < j < |s|
      ensures s[i] <= s[j]
    {
      if j < |l| {
        assert s[i] == l[i] && s[j] == l[j];
      } else if j == |l| {
        assert s[i] == l[i];
      } else if i < |l| {
        assert s[i] == l[i] && s[j] == r[j - |l| - 1];
      } else if i == |l| {
        assert s[j] == r[j - |l| - 1];
      } else {
        assert s[i] == r[i - |l| - 1] && s[j] == r[j - |l| - 1];
      }
    }
  }

  /** A bound on every element carries over to a sub-multiset. */
  lemma AtMostOfSub(s: seq<int>, u: seq<int>, x: int)
    requires multiset(s) <= multiset(u) && AllAtMost(u, x)
    ensures AllAtMost(s, x)
  {
    forall k | 0 <= k < |s| ensures s[k] <= x {
      assert s[k] in multiset(u);
      var j :| 0 <= j < |u| && u[j] == s[k];
    }
  }

  /** A lower bound on every element carries over to a sub-multiset. */
  lemma AtLeastOfSub(s: seq<int>, u: seq<int>, x: int)
    requires multiset(s) <= multiset(u) && AllAtLeast(u, x)
    ensures AllAtLeast(s, x)
  {
    forall k | 0 <= k < |s| ensures x <= s[k] {
      assert s[k] in multiset(u);
      var j :| 0 <= j < |u| && u[j] == s[k];
    }
  }

  /** Removing `v` from the left part of `l + [x] + r` removes it from the
      whole when it occurs in neither the middle nor the right part. */
  lemma MultisetRemoveLeft(l: seq<int>, l': seq<int>, x: int, r: seq<int>, v: int)
    requires v != x && v !in r
    requires multiset(l') == multiset(l) - multiset{v}
    ensures multiset(l' + [x] + r) == multiset(l + [x] + r) - multiset{v}
  {
    assert multiset(r)[v] == 0;
  }

  /** Removing `v` from the right part of `l + [x] + r` removes it from the
      whole when it occurs in neither the left part nor the middle. */
  lemma MultisetRemoveRight(l: seq<int>, x: int, r: seq<int>, r': seq<int>, v: int)
    requires v != x && v !in l
    requires multiset(r') == multiset(r) - multiset{v}
    ensures multiset(l + [x] + r') == multiset(l + [x] + r) - multiset{v}
  {
    assert multiset(l)[v] == 0;
  }

  /** Replacing the middle `x` by an element `m` of the right part, and taking
      one `m` out of the right part, takes exactly `x` out of the whole. */
  lemma MultisetReplaceMiddle(l: seq<int>, x: int, r: seq<int>, m: int, r': seq<int>)
    requires m in r
    requires multiset(r') == multiset(r) - multiset{m}
    ensures multiset(l + [m] + r') == multiset(l + [x] + r) - multiset{x}
  {
    PutBack(r, m, r');
    assert multiset(l + [m] + r') == multiset(l) + multiset(r);
  }

  /** Taking out an element that is there and putting it back is the identity. */
  lemma PutBack(r: seq<int>, m: int, r': seq<int>)
    requires m in r && multiset(r') == multiset(r) - multiset{m}
    ensures multiset(r) == multiset(r') + multiset{m}
  {
  }

  /** A sorted sequence is determined by its multiset of elements. */
  lemma {:induction false} SortedUnique(a: seq<int>, b: seq<int>)
    requires Sorted(a) && Sorted(b) && multiset(a) == multiset(b)
    ensures a == b
  {
    assert |a| == |multiset(a)| == |multiset(b)| == |b|;
    if |a| > 0 {
      SortedHeadIsLeast(a, b[0]);
      SortedHeadIsLeast(b, a[0]);
      SortedTail(a);
      SortedTail(b);
      assert a == [a[0]] + a[1..] && b == [b[0]] + b[1..];
      assert a[0] == b[0];
      assert multiset(a) == multiset{a[0]} + multiset(a[1..]);
      assert multiset(b) == multiset{b[0]} + multiset(b[1..]);
      assert multiset(a[1..]) == multiset(a) - multiset{a[0]};
      assert multiset(b[1..]) == multiset(b) - multiset{b[0]};
      SortedUnique(a[1..], b[1..]);
    }
  }

  /** The first element of a sorted sequence is at most any of its elements. */
  lemma SortedHeadIsLeast(a: seq<int>, x: int)
    requires Sorted(a) && x in multiset(a)
    ensures a[0] <= x
  {
    var i :| 0 <= i < |a| && a[i] == x;
  }

  /** Dropping the first element keeps a sequence sorted. */
  lemma SortedTail(a: seq<int>)
    requires Sorted(a) && |a| > 0
    ensures Sorted(a[1..])
  {
    forall i, j | 0 <= i < j < |a| - 1 ensures a[1..][i] <= a[1..][j] {
      assert a[1..][i] == a[i + 1] && a[1..][j] == a[j + 1];
    }
  }
}
