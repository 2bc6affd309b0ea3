/** The chained hash table: the two hash functions, bucket-prepend insertion,
    chain search, and the search wrapper whose table persists across calls.
    A table of elements of type `T` is parameterised by its hash function,
    as the source's `HashFunc` template parameter does. */
module Hash {
  import opened Common

  /** A C++ `int`. */
  type Int32 = x: int | -0x8000_0000 <= x < 0x8000_0000

  /** A `char` where `char` is signed (its value is `-128..127`). */
  type SChar = x: int | -0x80 <= x < 0x80

  /** A table size the hash functions can divide by. */
  type PosSize = n: int | 0 < n < SizeModulus witness 1

  /** `HashFunction<int>`: `value % size` with `size` a `size_t`, so `value`
      is first converted to `size_t`, which wraps a negative value to
      `2^64 + value`. */
  function HashInt(value: Int32, size: PosSize): (r: nat)
    ensures r < size
    ensures 0 <= value ==> r == value % size
    ensures value < 0 ==> r == (SizeModulus + value) % size
  {
    (value % SizeModulus) % size
  }

  /** A negative key does not hash like its absolute value: -1 lands in
      bucket 15 of 100, because `2^64 - 1` ends in 15. */
  lemma NegativeIntHash()
    ensures HashInt(-1, 100) == 15
    ensures HashInt(99, 100) == 99
  {
  }

  const PrimeBase: int := 31
  const PrimeMod: int := 1_000_000_009

  /** The character code of `'a'` (ASCII 97). */
  const LowerA: int := 97

  /** `c - 'a' + 1`: 'a' counts 1, 'z' 26; characters before 'a' count zero or less. */
  function Code(c: SChar): int {
    c - LowerA + 1
  }

  /** One iteration of the string hash loop in `unsigned long` arithmetic:
      the code is converted to `unsigned long` (wrapping when negative), and
      the product and the sum wrap modulo 2^64 before the reduction. Both
      running values stay below the prime. */
  function Step(h: int, pow: int, c: SChar): (r: (int, int))
    requires 0 <= h < PrimeMod && 0 <= pow < PrimeMod
    ensures 0 <= r.0 < PrimeMod && 0 <= r.1 < PrimeMod
    ensures 0 <= Code(c) ==> r.0 == (h + Code(c) * pow) % PrimeMod
    ensures r.1 == (pow * PrimeBase) % PrimeMod
  {
    var term := ((Code(c) % SizeModulus) * pow) % SizeModulus;
    NoWrap(h, Code(c), pow, term);
    (((h + term) % SizeModulus) % PrimeMod, (pow * PrimeBase) % PrimeMod)
  }

  /** A non-negative code times a power below the prime, plus a hash below
      the prime, fits in 64 bits. */
  lemma NoWrap(h: int, code: int, pow: int, term: int)
    requires 0 <= h < PrimeMod && code <= 31 && 0 <= pow < PrimeMod
    requires term == ((code % SizeModulus) * pow) % SizeModulus
    ensures 0 <= code ==> term == code * pow && (h + term) % SizeModulus == h + term
  {
    if 0 <= code {
      MulLeft(code, 31, pow);
      MulLeft(0, code, pow);
      var p := code * pow;
      assert 0 <= p <= 31 * pow;
      assert code % SizeModulus == code;
      assert p % SizeModulus == p;
    }
  }

  lemma MulLeft(a: int, b: int, c: int)
    requires a <= b && 0 <= c
    ensures a * c <= b * c
  {
  }

  /** The running hash and power after the characters of `s`, as the loop
      computes them from `(0, 1)`. */
  function Rolling(s: seq<SChar>): (r: (int, int))
    ensures 0 <= r.0 < PrimeMod && 0 <= r.1 < PrimeMod
    decreases |s|
  {
    if |s| == 0 then (0, 1)
    else
      var prev := Rolling(s[..|s| - 1]);
      Step(prev.0, prev.1, s[|s| - 1])
  }

  /** `HashFunction<std::string>`: the rolling hash reduced to a bucket. */
  function HashString(value: seq<SChar>, size: PosSize): (r: nat)
    ensures r < size
  {
    Rolling(value).0 % size
  }

  /** The loop of `HashFunction<std::string>`; after every iteration both
      running values are below the prime, and the result is a bucket. */
  method HashStringLoop(value: seq<SChar>, size: PosSize) returns (r: nat)
    ensures r < size && r == HashString(value, size)
  {
    var h := 0;
    var pow := 1;
    var i := 0;
    while i < |value|
      invariant 0 <= i <= |value|
      invariant 0 <= h < PrimeMod && 0 <= pow < PrimeMod
      invariant (h, pow) == Rolling(value[..i])
    {
      assert value[..i + 1][..i] == value[..i];
      var next := Step(h, pow, value[i]);
      h, pow := next.0, next.1;
      i := i + 1;
    }
    assert value[..i] == value;
    r := h % size;
  }

  /** `31^n`. */
  function Pow(n: nat): (r: nat)
    ensures r >= 1
  {
    if n == 0 then 1 else Pow(n - 1) * PrimeBase
  }

  /** The polynomial the rolling hash evaluates: the code of character `k`
      times `31^k`, summed. */
  function PolySum(s: seq<SChar>): int
    decreases |s|
  {
    if |s| == 0 then 0 else PolySum(s[..|s| - 1]) + Code(s[|s| - 1]) * Pow(|s| - 1)
  }

  /** On characters from 'a' - 1 on (lower-case letters among them), where
      no 64-bit wrap-around happens, the string hash is the polynomial
      hash: the sum of `code(c_k) * 31^k` modulo `1e9 + 9`. */
  lemma {:induction false} PolynomialHash(s: seq<SChar>)
    requires forall k :: 0 <= k < |s| ==> 0 <= Code(s[k])
    ensures Rolling(s).0 == PolySum(s) % PrimeMod
    ensures Rolling(s).1 == Pow(|s|) % PrimeMod
    decreases |s|
  {
    if |s| > 0 {
      var init := s[..|s| - 1];
      assert forall k :: 0 <= k < |init| ==> init[k] == s[k];
      PolynomialHash(init);
      var c := s[|s| - 1];
      var prev := Rolling(init);
      assert Rolling(s) == Step(prev.0, prev.1, c);
      StepIsPolynomial(PolySum(init), Pow(|init|), c, prev);
      assert PolySum(s) == PolySum(init) + Code(c) * Pow(|init|);
      assert Pow(|s|) == Pow(|init|) * PrimeBase;
    }
  }

  /** One loop step extends the reduced polynomial and power by one term. */
  lemma StepIsPolynomial(sum: int, pow: nat, c: SChar, prev: (int, int))
    requires 0 <= Code(c)
    requires 0 <= prev.0 < PrimeMod && 0 <= prev.1 < PrimeMod
    requires prev.0 == sum % PrimeMod && prev.1 == pow % PrimeMod
    ensures Step(prev.0, prev.1, c).0 == (sum + Code(c) * pow) % PrimeMod
    ensures Step(prev.0, prev.1, c).1 == (pow * PrimeBase) % PrimeMod
  {
    ModLinear(sum, Code(c), pow);
    ModLinear(0, PrimeBase, pow);
  }

  /** Reducing the summands first does not change a linear combination
      modulo the prime. */
  lemma ModLinear(x: int, c: int, y: int)
    ensures (x % PrimeMod + c * (y % PrimeMod)) % PrimeMod == (x + c * y) % PrimeMod
    ensures (y % PrimeMod * c) % PrimeMod == (y * c) % PrimeMod
  {
    var qx, qy, ry := x / PrimeMod, y / PrimeMod, y % PrimeMod;
    assert y == PrimeMod * qy + ry;
    var k := c * qy;
    assert c * y == c * ry + PrimeMod * k by {
      Distribute(c, PrimeMod * qy, ry);
      assert c * (PrimeMod * qy) == PrimeMod * k;
    }
    ModMultiple(x % PrimeMod + c * ry, qx + k);
    assert y * c == c * y;
    ModMultiple(ry * c, k);
  }

  lemma Distribute(c: int, a: int, b: int)
    ensures c * (a + b) == c * a + c * b
  {
  }

  /** Adding a multiple of the prime does not change the remainder. */
  lemma ModMultiple(x: int, k: int)
    ensures (x + PrimeMod * k) % PrimeMod == x % PrimeMod
  {
  }

  /** The chains of the table, one per bucket, each listed head first. */
  datatype Table<T> = Table(buckets: seq<seq<T>>)

  /** `HashTable(size)`: `size` empty chains. */
  function NewTable<T>(size: nat): (t: Table<T>)
    ensures |t.buckets| == size && Contents(t) == multiset{}
    ensures forall b :: 0 <= b < size ==> t.buckets[b] == []
  {
    var t := Table(seq(size, _ => []));
    EmptyContents(t.buckets);
    t
  }

  /** Every value in bucket `b` hashes to `b`. */
  predicate Hashed<T>(t: Table<T>, hash: T -> nat) {
    forall b, k :: 0 <= b < |t.buckets| && 0 <= k < |t.buckets[b]| ==> hash(t.buckets[b][k]) == b
  }

  /** Every value stored in the table, with its multiplicity. */
  function Contents<T>(t: Table<T>): multiset<T> {
    BucketContents(t.buckets)
  }

  function BucketContents<T>(bs: seq<seq<T>>): multiset<T>
    decreases |bs|
  {
    if |bs| == 0 then multiset{} else BucketContents(bs[..|bs| - 1]) + multiset(bs[|bs| - 1])
  }

  lemma {:induction false} EmptyContents<T>(bs: seq<seq<T>>)
    requires forall b :: 0 <= b < |bs| ==> bs[b] == []
    ensures BucketContents(bs) == multiset{}
    decreases |bs|
  {
    if |bs| > 0 {
      EmptyContents(bs[..|bs| - 1]);
    }
  }

  /** Replacing one chain changes the contents by exactly that chain's change. */
  lemma {:induction false} ReplaceChain<T>(bs: seq<seq<T>>, b: nat, chain: seq<T>)
    requires b < |bs|
    ensures BucketContents(bs[b := chain]) + multiset(bs[b]) == BucketContents(bs) + multiset(chain)
    decreases |bs|
  {
    var last := |bs| - 1;
    var bs' := bs[b := chain];
    var init, init' := bs[..last], bs'[..last];
    assert BucketContents(bs') == BucketContents(init') + multiset(bs'[last]);
    assert BucketContents(bs) == BucketContents(init) + multiset(bs[last]);
    if b < last {
      assert init' == init[b := chain];
      assert init[b] == bs[b];
      ReplaceChain(init, b, chain);
      Rearrange(BucketContents(init'), BucketContents(init), multiset(bs[last]), multiset(bs[b]), multiset(chain));
    } else {
      assert init' == init;
    }
  }

  /** Multiset bookkeeping: if `after` and `before` differ by swapping the
      `removed` part for the `added` one, they still do with `tail` added to both. */
  lemma Rearrange<T>(after: multiset<T>, before: multiset<T>, tail: multiset<T>, removed: multiset<T>, added: multiset<T>)
    requires after + removed == before + added
    ensures after + tail + removed == before + tail + added
  {
    assert after + tail + removed == (after + removed) + tail;
    assert before + tail + added == (before + added) + tail;
  }

  /** A value is in the table's contents exactly when some chain holds it. */
  lemma {:induction false} InContents<T>(bs: seq<seq<T>>, v: T)
    ensures v in BucketContents(bs) <==> exists b :: 0 <= b < |bs| && v in bs[b]
    decreases |bs|
  {
    if |bs| > 0 {
      var last := |bs| - 1;
      InContents(bs[..last], v);
      if v in bs[last] {
        assert 0 <= last < |bs| && v in bs[last];
      }
      if exists b :: 0 <= b < |bs| && v in bs[b] {
        var b :| 0 <= b < |bs| && v in bs[b];
        if b < last {
          assert bs[..last][b] == bs[b];
        }
      }
    }
  }

  /** `insert(value)`: a new node becomes the head of chain `hash(value)`.
      Duplicates are kept, every other chain is unchanged, and the bucket
      invariant is preserved. */
  function Insert<T>(t: Table<T>, hash: T -> nat, value: T): (r: Table<T>)
    requires hash(value) < |t.buckets|
    ensures |r.buckets| == |t.buckets|
    ensures r.buckets[hash(value)] == [value] + t.buckets[hash(value)]
    ensures forall b :: 0 <= b < |t.buckets| && b != hash(value) ==> r.buckets[b] == t.buckets[b]
    ensures Contents(r) == Contents(t) + multiset{value}
    ensures Hashed(t, hash) ==> Hashed(r, hash)
  {
    var b := hash(value);
    var r := Table(t.buckets[b := [value] + t.buckets[b]]);
    InsertContents(t.buckets, b, value);
    InsertHashed(t, hash, value, r);
    r
  }

  lemma InsertContents<T>(bs: seq<seq<T>>, b: nat, value: T)
    requires b < |bs|
    ensures BucketContents(bs[b := [value] + bs[b]]) == BucketContents(bs) + multiset{value}
  {
    ReplaceChain(bs, b, [value] + bs[b]);
    var after, before, prior := BucketContents(bs[b := [value] + bs[b]]), BucketContents(bs), multiset(bs[b]);
    assert multiset([value] + bs[b]) == multiset{value} + prior;
    assert after + prior == (before + multiset{value}) + prior;
    assert after == (after + prior) - prior;
    assert before + multiset{value} == ((before + multiset{value}) + prior) - prior;
    assert after == before + multiset{value};
  }

  lemma InsertHashed<T>(t: Table<T>, hash: T -> nat, value: T, r: Table<T>)
    requires hash(value) < |t.buckets|
    requires r.buckets == t.buckets[hash(value) := [value] + t.buckets[hash(value)]]
    ensures Hashed(t, hash) ==> Hashed(r, hash)
  {
    if Hashed(t, hash) {
      var b := hash(value);
      forall c, k | 0 <= c < |r.buckets| && 0 <= k < |r.buckets[c]| ensures hash(r.buckets[c][k]) == c {
        if c == b && k > 0 {
          assert r.buckets[c][k] == t.buckets[c][k - 1];
        }
      }
    }
  }

  /** `search(value)`: walks chain `hash(value)` from its head. */
  method Search<T(==)>(t: Table<T>, hash: T -> nat, value: T) returns (found: bool)
    requires hash(value) < |t.buckets|
    ensures found <==> value in t.buckets[hash(value)]
    ensures Hashed(t, hash) ==> (found <==> value in Contents(t))
  {
    InChain(t, hash, value);
    var chain := t.buckets[hash(value)];
    var k := 0;
    while k < |chain|
      invariant 0 <= k <= |chain| && value !in chain[..k]
    {
      if chain[k] == value {
        return true;
      }
      assert chain[..k + 1] == chain[..k] + [chain[k]];
      k := k + 1;
    }
    assert chain[..k] == chain;
    return false;
  }

  /** With the bucket invariant, a value is in its own chain exactly when it
      is anywhere in the table. */
  lemma InChain<T>(t: Table<T>, hash: T -> nat, value: T)
    requires hash(value) < |t.buckets|
    ensures Hashed(t, hash) ==> (value in t.buckets[hash(value)] <==> value in Contents(t))
  {
    InContents(t.buckets, value);
    if Hashed(t, hash) && value in Contents(t) {
      var b :| 0 <= b < |t.buckets| && value in t.buckets[b];
      var k :| 0 <= k < |t.buckets[b]| && t.buckets[b][k] == value;
    }
  }

  /** The size `HashSearch` uses when none is given. */
  const DefaultSize: PosSize := 100

  /** `HashSearch`: a search object owning a table that is never cleared. */
  datatype Searcher<T> = Searcher(table: Table<T>)

  /** `HashSearch(size)`. */
  function NewSearcher<T>(size: PosSize): (s: Searcher<T>)
    ensures |s.table.buckets| == size && Contents(s.table) == multiset{}
    ensures forall b :: 0 <= b < size ==> s.table.buckets[b] == []
  {
    Searcher(NewTable(size))
  }

  /** `HashSearch::search(arr, size, target)`: inserts every element of the
      array into the persistent table, then searches it. The answer is true
      exactly when the target is in this array or in one given to an
      earlier call. */
  method HashSearch<T(==)>(s: Searcher<T>, hash: T -> nat, arr: seq<T>, target: T) returns (s': Searcher<T>, found: bool)
    requires Hashed(s.table, hash) && hash(target) < |s.table.buckets|
    requires forall k :: 0 <= k < |arr| ==> hash(arr[k]) < |s.table.buckets|
    ensures Hashed(s'.table, hash) && |s'.table.buckets| == |s.table.buckets|
    ensures Contents(s'.table) == Contents(s.table) + multiset(arr)
    ensures found <==> target in Contents(s.table) || target in arr
  {
    var t := s.table;
    var i := 0;
    while i < |arr|
      invariant 0 <= i <= |arr| && |t.buckets| == |s.table.buckets|
      invariant Hashed(t, hash)
      invariant Contents(t) == Contents(s.table) + multiset(arr[..i])
    {
      assert arr[..i + 1] == arr[..i] + [arr[i]];
      t := Insert(t, hash, arr[i]);
      i := i + 1;
    }
    assert arr[..i] == arr;
    found := Search(t, hash, target);
    s' := Searcher(t);
  }

  /** The integer run of the demonstration program: one searcher, the same
      array given twice; 10 is found, and 7 is not although the table now
      holds every element twice. */
  method IntDemo() returns (first: bool, second: bool)
    ensures first && !second
  {
    var hash := IntHash(DefaultSize);
    var arr: seq<Int32> := [1, 5, 8, 10, 3, 2];
    IntHashFits(arr, DefaultSize);
    var s := NewSearcher<Int32>(DefaultSize);
    EmptyHashed(s.table, hash);
    assert 10 in arr && 7 !in arr;
    s, first := HashSearch(s, hash, arr, 10);
    s, second := HashSearch(s, hash, arr, 7);
  }

  /** A table with only empty buckets is laid out for any hash function. */
  lemma EmptyHashed<T>(t: Table<T>, hash: T -> nat)
    requires forall b :: 0 <= b < |t.buckets| ==> t.buckets[b] == []
    ensures Hashed(t, hash)
  {
  }

  /** The integer hash sends every element to a bucket of the table. */
  lemma IntHashFits(arr: seq<Int32>, size: PosSize)
    ensures forall k :: 0 <= k < |arr| ==> IntHash(size)(arr[k]) < size
  {
    forall k | 0 <= k < |arr| ensures IntHash(size)(arr[k]) < size {
      assert IntHash(size)(arr[k]) == HashInt(arr[k], size);
    }
  }

  /** The integer table's hash function. */
  function IntHash(size: PosSize): (hash: Int32 -> nat)
    ensures forall v :: hash(v) == HashInt(v, size)
  {
    v => HashInt(v, size)
  }

  /** The string table's hash function. */
  function StringHash(size: PosSize): (hash: seq<SChar> -> nat)
    ensures forall v :: hash(v) == HashString(v, size)
  {
    v => HashString(v, size)
  }
}
