/** The public face of the AVL tree: a root subtree plus the `size_t` element
    counter, with the counter's quirks kept as they are. */
module AvlTree {
  import opened Common
  import opened Avl

  /** The container: the root subtree and the element counter. */
  datatype Tree = Tree(root: Node, size: SizeT)

  /** What holds between public calls: balanced, correct heights, ordered. */
  predicate Valid(t: Tree) {
    AvlShape(t.root) && Ordered(t.root)
  }

  /** A freshly constructed tree. */
  function New(): (r: Tree)
    ensures Valid(r) && TreeInorder(r) == [] && Length(r) == 0
  {
    Tree(Nil, 0)
  }

  /** `height()`: -1 for an empty tree, otherwise the root's cached height,
      which on a valid tree is the height of its shape. */
  function TreeHeight(t: Tree): (h: int)
    ensures Valid(t) ==> h == ShapeHeight(t.root) && (h == -1 <==> t.root == Nil)
  {
    var h := if t.root.Nil? then -1 else t.root.height;
    if Valid(t) then
      CachedHeightIsShapeHeight(t.root);
      HeightLowerBound(t.root);
      h
    else h
  }

  /** `length()`: the counter, which is not the number of stored values. */
  function Length(t: Tree): SizeT {
    t.size
  }

  /** `inorder()`: the stored values, left to right. */
  function TreeInorder(t: Tree): (s: seq<int>)
    ensures |s| == 0 <==> t.root == Nil
    ensures Valid(t) ==> Sorted(s)
  {
    Inorder(t.root)
  }

  /** `insert(value)`: always adds the value and always bumps the counter. */
  function TreeInsert(t: Tree, v: int): (r: Tree)
    requires Valid(t)
    ensures Valid(r)
    ensures multiset(TreeInorder(r)) == multiset(TreeInorder(t)) + multiset{v}
    ensures Length(r) == SizeInc(Length(t))
  {
    InsertKeepsAvl(t.root, v);
    InsertKeepsOrder(t.root, v);
    Tree(Insert(t.root, v), SizeInc(t.size))
  }

  /** `remove(value)`: the root is moved into the recursive removal and
      replaced by its result; the counter drops only if that result is a
      node, so removing the last value keeps the counter, and removing an
      absent value from a non-empty tree still decrements it. */
  function TreeRemove(t: Tree, v: int): (r: Tree)
    requires Valid(t)
    ensures Valid(r)
    ensures multiset(TreeInorder(r)) == multiset(TreeInorder(t)) - multiset{v}
    ensures v !in TreeInorder(t) ==> r.root == t.root
    ensures r.root.Node? ==> Length(r) == SizeDec(Length(t))
    ensures r.root.Nil? ==> Length(r) == Length(t)
  {
    RemoveKeepsAvl(t.root, v);
    RemoveKeepsOrder(t.root, v);
    var res := Remove(t.root, v);
    var r := if res.Node? then Tree(res, SizeDec(t.size)) else Tree(res, t.size);
    if v in Inorder(t.root) then r else RemoveAbsent(t.root, v); r
  }

  /** `contains(value)`. */
  method TreeContains(t: Tree, v: int) returns (found: bool)
    ensures Valid(t) ==> (found <==> v in TreeInorder(t))
  {
    found := Contains(t.root, v);
  }

  /** `clear()`: drops every node but leaves the counter alone. */
  function Clear(t: Tree): (r: Tree)
    ensures Valid(r) && TreeInorder(r) == [] && TreeHeight(r) == -1
    ensures Length(r) == Length(t)
  {
    Tree(Nil, t.size)
  }

  /** Inserts the values one after another, as repeated `insert` calls do. */
  function InsertAll(t: Tree, xs: seq<int>): (r: Tree)
    requires Valid(t)
    ensures Valid(r)
    ensures multiset(TreeInorder(r)) == multiset(TreeInorder(t)) + multiset(xs)
    decreases |xs|
  {
    if |xs| == 0 then t
    else
      assert xs == [xs[0]] + xs[1..];
      InsertAll(TreeInsert(t, xs[0]), xs[1..])
  }

  /** The height `height()` reports is the height of the shape, and -1
      exactly for the empty tree. */
  lemma HeightIsShapeHeight(t: Tree)
    requires Valid(t)
    ensures TreeHeight(t) == ShapeHeight(t.root)
    ensures TreeHeight(t) == -1 <==> TreeInorder(t) == []
  {
  }

  /** After `insert(v)`, `contains(v)` holds. */
  lemma InsertThenContains(t: Tree, v: int)
    requires Valid(t)
    ensures v in TreeInorder(TreeInsert(t, v))
  {
    assert v in multiset(TreeInorder(TreeInsert(t, v)));
  }

  /** The position at which `v` enters a sorted sequence: after every element
      that is at most `v`. */
  function InsertionPoint(s: seq<int>, v: int): (i: nat)
    requires Sorted(s)
    ensures i <= |s| && AllAtMost(s[..i], v) && AllAtLeast(s[i..], v)
  {
    if |s| == 0 || s[0] > v then 0
    else
      SortedTail(s);
      var j := InsertionPoint(s[1..], v);
      ConsBounds(s, v, j);
      1 + j
  }

  /** Putting the head, which is at most `v`, in front of a split of the
      tail moves the split point one place right. */
  lemma ConsBounds(s: seq<int>, v: int, j: nat)
    requires 0 < |s| && s[0] <= v && j <= |s| - 1
    requires AllAtMost(s[1..][..j], v) && AllAtLeast(s[1..][j..], v)
    ensures AllAtMost(s[..j + 1], v) && AllAtLeast(s[j + 1..], v)
  {
    assert s[..j + 1] == [s[0]] + s[1..][..j];
    assert s[j + 1..] == s[1..][j..];
  }

  /** `insert(v)` puts `v` into the in-order sequence at its sorted position
      and changes nothing else. */
  lemma InsertedSequence(t: Tree, v: int)
    requires Valid(t)
    ensures var s := TreeInorder(t);
            var i := InsertionPoint(s, v);
            TreeInorder(TreeInsert(t, v)) == s[..i] + [v] + s[i..]
  {
    var s := TreeInorder(t);
    var i := InsertionPoint(s, v);
    assert s == s[..i] + s[i..];
    SortedWhole(s, i);
    SortedJoin(s[..i], v, s[i..]);
    assert multiset(s[..i] + [v] + s[i..]) == multiset(s) + multiset{v};
    SortedUnique(TreeInorder(TreeInsert(t, v)), s[..i] + [v] + s[i..]);
  }

  /** The two halves of a sorted sequence are sorted. */
  lemma SortedWhole(s: seq<int>, i: nat)
    requires Sorted(s) && i <= |s|
    ensures Sorted(s[..i]) && Sorted(s[i..])
  {
    forall a, b | 0 <= a < b < |s[i..]| ensures s[i..][a] <= s[i..][b] {
      assert s[i..][a] == s[i + a] && s[i..][b] == s[i + b];
    }
  }

  /** `remove(v)` of a stored value deletes exactly one occurrence of it from
      the in-order sequence. */
  lemma RemovedSequence(t: Tree, v: int, i: nat)
    requires Valid(t) && i < |TreeInorder(t)| && TreeInorder(t)[i] == v
    ensures var s := TreeInorder(t);
            TreeInorder(TreeRemove(t, v)) == s[..i] + s[i + 1..]
  {
    var s := TreeInorder(t);
    assert s == s[..i] + [v] + s[i + 1..];
    SortedSplitParts(s[..i], v, s[i + 1..]);
    SortedDrop(s[..i], v, s[i + 1..]);
    assert multiset(s[..i] + s[i + 1..]) == multiset(s) - multiset{v};
    SortedUnique(TreeInorder(TreeRemove(t, v)), s[..i] + s[i + 1..]);
  }

  /** Dropping the middle element of a sorted `l + [x] + r` keeps it sorted. */
  lemma SortedDrop(l: seq<int>, x: int, r: seq<int>)
    requires Sorted(l) && Sorted(r) && AllAtMost(l, x) && AllAtLeast(r, x)
    ensures Sorted(l + r)
  {
    var s := l + r;
    forall a, b | 0 <= a < b < |s| ensures s[a] <= s[b] {
      if b < |l| {
        assert s[a] == l[a] && s[b] == l[b];
      } else if a < |l| {
        assert s[a] == l[a] && s[b] == r[b - |l|];
      } else {
        assert s[a] == r[a - |l|] && s[b] == r[b - |l|];
      }
    }
  }

  /** Removing an absent value from a non-empty tree keeps every node but
      still decrements the counter. */
  lemma RemoveAbsentDecrements(t: Tree, v: int)
    requires Valid(t) && t.root.Node? && v !in TreeInorder(t)
    ensures TreeRemove(t, v) == Tree(t.root, SizeDec(t.size))
  {
  }

  /** Removing the only stored value empties the tree but keeps the counter. */
  lemma RemoveLastKeepsCount(t: Tree, v: int)
    requires Valid(t) && TreeInorder(t) == [v]
    ensures TreeRemove(t, v) == Tree(Nil, t.size)
  {
    var r := TreeRemove(t, v);
    assert multiset(TreeInorder(r)) == multiset{};
    assert |TreeInorder(r)| == 0;
  }

  /** With no removals, the counter is the number of `insert` calls. */
  lemma {:induction false} CountAfterInserts(t: Tree, xs: seq<int>)
    requires Valid(t) && Length(t) + |xs| < SizeModulus
    ensures Length(InsertAll(t, xs)) == Length(t) + |xs|
    decreases |xs|
  {
    if |xs| > 0 {
      CountAfterInserts(TreeInsert(t, xs[0]), xs[1..]);
    }
  }
}
