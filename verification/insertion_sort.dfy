/** `InsertionSort::sort`. The source's inner index `j` is a `size_t`, so its
    guard `j >= 0` never fails: when the key is smaller than every element
    before it, `j` wraps from 0 to the largest `size_t` and the next read is
    out of bounds. `SortAsWritten` keeps that behaviour (the bad read is an
    `Err` carrying the index); `Sort` is the evidently intended algorithm
    with a signed index, proved to sort. */
module InsertionSort {
  import opened Common

  /** The inner loop as written, from index `j` with the saved `key`. The
      index is either in bounds with room for the shift, or already wrapped. */
  function ShiftAsWritten(s: seq<int>, j: SizeT, key: int): (r: Result<seq<int>, SizeT>)
    requires |s| <= SizeMax
    requires j + 1 < |s| || j == SizeMax
    ensures r.Err? ==> r.error == SizeMax
    ensures r.Ok? ==> |r.value| == |s|
    decreases if j < |s| then j + 1 else 0
  {
    if j >= |s| then Err(j)
    else if s[j] > key then ShiftAsWritten(s[j + 1 := s[j]], SizeDec(j), key)
    else Ok(s[j + 1 := key])
  }

  /** The outer loop as written, from index `i`. */
  function SortFromAsWritten(s: seq<int>, i: nat): (r: Result<seq<int>, SizeT>)
    requires |s| <= SizeMax && 1 <= i
    ensures r.Err? ==> r.error == SizeMax
    ensures r.Ok? ==> |r.value| == |s|
    decreases |s| - i
  {
    if i >= |s| then Ok(s)
    else
      match ShiftAsWritten(s, i - 1, s[i])
      case Err(e) => Err(e)
      case Ok(t) => SortFromAsWritten(t, i + 1)
  }

  /** `sort(arr, size)` as written. */
  function SortAsWritten(s: seq<int>): (r: Result<seq<int>, SizeT>)
    requires |s| <= SizeMax
    ensures r.Err? ==> r.error == SizeMax
  {
    SortFromAsWritten(s, 1)
  }

  /** When every element up to `j` exceeds the key, the shift runs past
      index 0 and reads the array at the largest `size_t`. */
  lemma {:induction false} ShiftWraps(s: seq<int>, j: SizeT, key: int)
    requires |s| <= SizeMax && j + 1 < |s|
    requires forall k :: 0 <= k <= j ==> s[k] > key
    ensures ShiftAsWritten(s, j, key) == Err(SizeMax)
    decreases j
  {
    if j > 0 {
      ShiftWraps(s[j + 1 := s[j]], j - 1, key);
    }
  }

  /** Any input whose second element is smaller than its first makes the
      source read out of bounds. */
  lemma FirstStepWraps(s: seq<int>)
    requires 2 <= |s| <= SizeMax && s[1] < s[0]
    ensures SortAsWritten(s) == Err(SizeMax)
  {
    ShiftWraps(s, 0, s[1]);
  }

  /** The demonstration data of the source and the smallest failing input. */
  lemma DemoDataWraps()
    ensures SortAsWritten([64, 34, 25, 12, 22, 11, 90]) == Err(SizeMax)
    ensures SortAsWritten([2, 1]) == Err(SizeMax)
  {
    FirstStepWraps([64, 34, 25, 12, 22, 11, 90]);
    FirstStepWraps([2, 1]);
  }

  /** On input that is already sorted the guard stops at once every time,
      so the source's loop never wraps and leaves the input as it is. */
  lemma {:induction false} SortedInputAsWritten(s: seq<int>, i: nat)
    requires |s| <= SizeMax && 1 <= i && Sorted(s)
    ensures SortFromAsWritten(s, i) == Ok(s)
    decreases |s| - i
  {
    if i < |s| {
      assert s[i - 1] <= s[i];
      assert s[i := s[i]] == s;
      SortedInputAsWritten(s, i + 1);
    }
  }

  /** `t` is `s` after the key has been inserted into the sorted prefix
      `[0, j]`: that part grew by one place and holds the prefix's elements
      and the key in order, and everything after it is untouched. */
  predicate InsertedAt(s: seq<int>, j: int, key: int, t: seq<int>) {
    0 <= j && j + 1 < |s| == |t|
    && t[j + 2..] == s[j + 2..]
    && Sorted(t[..j + 2])
    && multiset(t[..j + 2]) == multiset(s[..j + 1]) + multiset{key}
  }

  /** When the sorted prefix `[0, j]` starts at or below the key, the shift
      as written stops in bounds and inserts the key into the prefix. */
  lemma {:induction false} ShiftInserts(s: seq<int>, j: SizeT, key: int)
    requires |s| <= SizeMax && j + 1 < |s|
    requires Sorted(s[..j + 1]) && s[0] <= key
    ensures ShiftAsWritten(s, j, key).Ok?
    ensures InsertedAt(s, j, key, ShiftAsWritten(s, j, key).value)
    decreases j
  {
    if s[j] > key {
      var s' := s[j + 1 := s[j]];
      PrefixKept(s, j);
      ShiftInserts(s', j - 1, key);
      assert ShiftAsWritten(s, j, key) == ShiftAsWritten(s', j - 1, key);
      ShiftedOnce(s, j, key, ShiftAsWritten(s', j - 1, key).value);
    } else {
      KeyAtHole(s, j, key);
    }
  }

  /** Moving `s[j]` right keeps the prefix before it sorted and starting at `s[0]`. */
  lemma PrefixKept(s: seq<int>, j: int)
    requires 1 <= j && j + 1 < |s| && Sorted(s[..j + 1])
    ensures var s' := s[j + 1 := s[j]]; Sorted(s'[..j]) && s'[0] == s[0]
  {
    assert s[j + 1 := s[j]][..j] == s[..j + 1][..j];
  }

  /** The guard stops at `j`, so the key goes into the hole at `j + 1`. */
  lemma KeyAtHole(s: seq<int>, j: int, key: int)
    requires 0 <= j && j + 1 < |s| && Sorted(s[..j + 1]) && s[j] <= key
    ensures InsertedAt(s, j, key, s[j + 1 := key])
  {
    var t, p := s[j + 1 := key], s[..j + 1];
    assert t[..j + 2] == p + [key];
    forall k | 0 <= k < |p| ensures p[k] <= key {
      assert p[k] <= p[j];
    }
    SortedSnoc(p, key);
  }

  /** If the key was inserted into `[0, j - 1]` after `s[j]`, which exceeds
      it, had moved to `j + 1`, it was inserted into `[0, j]`. */
  lemma ShiftedOnce(s: seq<int>, j: int, key: int, t: seq<int>)
    requires 1 <= j && j + 1 < |s| && Sorted(s[..j + 1]) && s[j] > key
    requires InsertedAt(s[j + 1 := s[j]], j - 1, key, t)
    ensures InsertedAt(s, j, key, t)
  {
    var s' := s[j + 1 := s[j]];
    assert t[j + 1..] == s'[j + 1..];
    assert t[j + 1] == t[j + 1..][0];
    assert t[j + 2..] == t[j + 1..][1..] == s[j + 2..];
    assert t[..j + 2][..j + 1] == t[..j + 1];
    assert s[..j + 1][..j] == s'[..j];
    KeyBelowMoved(s[..j + 1], t[..j + 2], key);
  }

  /** One shift step seen from its end: `p` is the sorted prefix whose last
      element was moved right past the key, and `q` is the key inserted into
      `p`'s other elements followed by that moved element. */
  lemma KeyBelowMoved(p: seq<int>, q: seq<int>, key: int)
    requires 1 <= |p| && |q| == |p| + 1 && Sorted(p) && p[|p| - 1] > key
    requires Sorted(q[..|p|]) && q[|p|] == p[|p| - 1]
    requires multiset(q[..|p|]) == multiset(p[..|p| - 1]) + multiset{key}
    ensures Sorted(q) && multiset(q) == multiset(p) + multiset{key}
  {
    var n := |p|;
    assert q == q[..n] + [p[n - 1]];
    assert p == p[..n - 1] + [p[n - 1]];
    forall k | 0 <= k < n ensures q[..n][k] <= p[n - 1] {
      var x := q[..n][k];
      assert x in multiset(q[..n]);
      if x != key {
        assert x in p[..n - 1];
        var m :| 0 <= m < n - 1 && p[..n - 1][m] == x;
        assert p[m] <= p[n - 1];
      }
    }
    SortedSnoc(q[..n], p[n - 1]);
  }

  /** Appending an element at or above every element keeps a sequence sorted. */
  lemma SortedSnoc(s: seq<int>, x: int)
    requires Sorted(s) && forall k :: 0 <= k < |s| ==> s[k] <= x
    ensures Sorted(s + [x])
  {
  }

  /** What step `i` of the outer loop leaves behind once `s[i]` has been
      inserted into the sorted prefix: the same elements, a sorted prefix
      one longer, the rest untouched, and a first element no larger than
      `s[0]` (equal to it when `s[i]` is not below `s[0]`). */
  lemma InsertedFacts(s: seq<int>, i: int, t: seq<int>)
    requires 1 <= i < |s| && Sorted(s[..i]) && InsertedAt(s, i - 1, s[i], t)
    ensures multiset(t) == multiset(s) && Sorted(t[..i + 1])
    ensures forall k :: i + 1 <= k < |s| ==> t[k] == s[k]
    ensures t[0] <= s[0]
    ensures s[0] <= s[i] ==> t[0] == s[0]
  {
    assert s[..i + 1] == s[..i] + [s[i]];
    assert t == t[..i + 1] + t[i + 1..] && s == s[..i + 1] + s[i + 1..];
    forall k | i + 1 <= k < |s| ensures t[k] == s[k] {
      assert t[k] == t[i + 1..][k - i - 1];
    }
    assert t[..i + 1][0] == t[0];
    assert s[0] in multiset(t[..i + 1]);
    assert t[0] in multiset(s[..i + 1]);
    var m :| 0 <= m < i + 1 && s[..i + 1][m] == t[0];
    if m < i {
      assert s[..i][0] <= s[..i][m];
    }
  }

  /** From step `i` on, while no later element is below `s[0]`, the outer
      loop as written never wraps and ends with a sorted permutation. */
  lemma {:induction false} SortFromSorts(s: seq<int>, i: nat)
    requires |s| <= SizeMax && 1 <= i <= |s| && Sorted(s[..i])
    requires forall k :: i <= k < |s| ==> s[0] <= s[k]
    ensures SortFromAsWritten(s, i).Ok?
    ensures Sorted(SortFromAsWritten(s, i).value)
    ensures multiset(SortFromAsWritten(s, i).value) == multiset(s)
    decreases |s| - i
  {
    if i == |s| {
      assert s[..i] == s;
    } else {
      assert s[..i][0] == s[0];
      ShiftInserts(s, i - 1, s[i]);
      var t := ShiftAsWritten(s, i - 1, s[i]).value;
      InsertedFacts(s, i, t);
      SortFromSorts(t, i + 1);
    }
  }

  /** From step `i` on, if some later element is below `s[0]` (the least
      element of the sorted prefix), the outer loop as written wraps. */
  lemma {:induction false} SortFromWraps(s: seq<int>, i: nat, k: nat)
    requires |s| <= SizeMax && 1 <= i <= k < |s| && Sorted(s[..i])
    requires s[k] < s[0]
    ensures SortFromAsWritten(s, i) == Err(SizeMax)
    decreases |s| - i
  {
    if s[i] < s[0] {
      forall m | 0 <= m <= i - 1 ensures s[m] > s[i] {
        assert s[..i][0] <= s[..i][m];
      }
      ShiftWraps(s, i - 1, s[i]);
    } else {
      assert s[..i][0] == s[0];
      ShiftInserts(s, i - 1, s[i]);
      var t := ShiftAsWritten(s, i - 1, s[i]).value;
      InsertedFacts(s, i, t);
      SortFromWraps(t, i + 1, k);
    }
  }

  /** The source sorts exactly the inputs whose first element is a least
      element; on every other input it reads at the wrapped index. When it
      does finish, the result is a sorted permutation of the input. */
  lemma AsWrittenSortsExactly(s: seq<int>)
    requires |s| <= SizeMax
    ensures SortAsWritten(s).Ok? <==> forall k :: 0 <= k < |s| ==> s[0] <= s[k]
    ensures SortAsWritten(s).Ok? ==>
      Sorted(SortAsWritten(s).value) && multiset(SortAsWritten(s).value) == multiset(s)
  {
    if |s| > 0 {
      if forall k :: 0 <= k < |s| ==> s[0] <= s[k] {
        SortFromSorts(s, 1);
      } else {
        var k :| 0 <= k < |s| && s[k] < s[0];
        SortFromWraps(s, 1, k);
      }
    }
  }

  /** `sort(arr, size)` with the index made signed, so that `j >= 0` ends the
      shift before index 0 is passed: a sorted permutation of the input. */
  method Sort(s: seq<int>) returns (r: seq<int>)
    ensures Sorted(r) && multiset(r) == multiset(s)
  {
    r := s;
    if |r| < 2 {
      return;
    }
    var i := 1;
    while i < |r|
      invariant 1 <= i <= |r| == |s|
      invariant multiset(r) == multiset(s)
      invariant Sorted(r[..i])
    {
      var key := r[i];
      ghost var before := r;
      var j;
      r, j := Shift(r, i, key);
      InsertedSorted(before, r, i, j, key);
      r := r[j + 1 := key];
      i := i + 1;
    }
  }

  /** The inner loop with a signed index: every element of the sorted prefix
      `[0, i)` that exceeds `key` moves one place right, and `j + 1` is the
      hole left for the key. */
  method Shift(s: seq<int>, i: int, key: int) returns (r: seq<int>, j: int)
    requires 1 <= i < |s| && key == s[i]
    ensures Shifting(s, r, i, j, key)
    ensures j >= 0 ==> r[j] <= key
  {
    r := s;
    j := i - 1;
    assert r[j + 1 := key] == s;
    while j >= 0 && r[j] > key
      invariant Shifting(s, r, i, j, key)
      decreases j
    {
      ShiftStep(s, r, i, j, key);
      r := r[j + 1 := r[j]];
      j := j - 1;
    }
  }

  /** The state of the inner loop: `[0, j]` is untouched, `(j + 1, i]`
      holds the elements of `[j + 1, i)` that exceed the key, moved one
      place right, the rest is untouched, and putting the key in the hole
      at `j + 1` gives back the elements of `s`. */
  predicate Shifting(s: seq<int>, r: seq<int>, i: int, j: int, key: int) {
    1 <= i < |s| && key == s[i] && -1 <= j < i && |r| == |s|
    && (forall k :: 0 <= k <= j ==> r[k] == s[k])
    && (forall k :: j + 1 < k <= i ==> r[k] == s[k - 1] && r[k] > key)
    && (forall k :: i < k < |s| ==> r[k] == s[k])
    && multiset(r[j + 1 := key]) == multiset(s)
  }

  /** Moving `r[j]`, which exceeds the key, one place right keeps the state. */
  lemma ShiftStep(s: seq<int>, r: seq<int>, i: int, j: int, key: int)
    requires Shifting(s, r, i, j, key) && j >= 0 && r[j] > key
    ensures Shifting(s, r[j + 1 := r[j]], i, j - 1, key)
  {
    ShiftKeepsMultiset(r, j, key);
  }

  /** Shifting `s[j]` one place right and moving the hole left keeps the
      multiset of the array with the key in the hole. */
  lemma ShiftKeepsMultiset(s: seq<int>, j: int, key: int)
    requires 0 <= j && j + 1 < |s|
    ensures multiset(s[j + 1 := s[j]][j := key]) == multiset(s[j + 1 := key])
  {
    var p, q := s[..j], s[j + 2..];
    assert s[j + 1 := s[j]][j := key] == p + [key, s[j]] + q;
    assert s[j + 1 := key] == p + [s[j], key] + q;
    assert multiset([key, s[j]]) == multiset([s[j], key]);
  }

  /** Dropping the key into the hole left by the shift extends the sorted prefix. */
  lemma InsertedSorted(before: seq<int>, r: seq<int>, i: int, j: int, key: int)
    requires Shifting(before, r, i, j, key) && Sorted(before[..i])
    requires j >= 0 ==> r[j] <= key
    ensures Sorted(r[j + 1 := key][..i + 1])
  {
    var t := r[j + 1 := key];
    forall a, b | 0 <= a < b <= i ensures t[a] <= t[b] {
      if b <= j {
        assert t[a] == before[a] && t[b] == before[b];
        assert before[..i][a] <= before[..i][b];
      } else if b == j + 1 {
        assert t[a] == before[a] && a <= j;
        assert before[a] <= before[j];
      } else if a == j + 1 {
      } else if a <= j {
        assert t[a] == before[a] && t[b] == before[b - 1];
        assert before[a] <= before[j];
      } else {
        assert t[a] == before[a - 1] && t[b] == before[b - 1];
      }
    }
  }
}
