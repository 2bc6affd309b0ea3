/** The AVL tree's small cases, for any values in the right order: the four
    rotation cases on a third insertion, removal from a three-node tree, and
    the counter's drift. The unit tests' trees (values 1, 2, 3) are instances. */
module AvlScenarios {
  import opened Common
  import opened Avl
  import opened AvlTree

  /** A single node with no children, of height 0. */
  function Leaf(v: int): (r: Node)
    ensures r.Node? && r.value == v && r.left == Nil && r.right == Nil && r.height == 0
    ensures HeightsOk(r) && Height(r) == 0
  {
    Node(v, Nil, Nil, 0)
  }

  /** A root `b` with leaf children `a` and `c`. */
  function Trio(a: int, b: int, c: int, n: SizeT): Tree {
    Tree(Node(b, Leaf(a), Leaf(c), 1), n)
  }

  /** A single node is a valid subtree holding just its value. */
  lemma LeafValid(v: int)
    ensures AvlShape(Leaf(v)) && Inorder(Leaf(v)) == [v] && Ordered(Leaf(v))
  {
    assert Inorder(Leaf(v)) == [] + [v] + [];
  }

  /** A node with one leaf child on the left is valid when the child's value is at most the node's. */
  lemma LeftPairValid(a: int, b: int, n: SizeT)
    requires b <= a
    ensures Valid(Tree(Node(a, Leaf(b), Nil, 1), n))
  {
    LeafValid(b);
    assert Inorder(Node(a, Leaf(b), Nil, 1)) == [b] + [a] + [];
  }

  /** A node with one leaf child on the right is valid when the child's value is at least the node's. */
  lemma RightPairValid(a: int, b: int, n: SizeT)
    requires a <= b
    ensures Valid(Tree(Node(a, Nil, Leaf(b), 1), n))
  {
    LeafValid(b);
    assert Inorder(Node(a, Nil, Leaf(b), 1)) == [] + [a] + [b];
  }

  /** A node with two leaf children is valid when left <= node <= right. */
  lemma TrioValid(a: int, b: int, c: int, n: SizeT)
    requires a <= b <= c
    ensures Valid(Trio(a, b, c, n))
    ensures TreeInorder(Trio(a, b, c, n)) == [a, b, c]
  {
    LeafValid(a);
    LeafValid(c);
    assert Inorder(Trio(a, b, c, n).root) == [a] + [b] + [c];
  }

  /** Inserting into an empty tree makes a leaf. */
  lemma InsertIntoEmpty(v: int, n: SizeT)
    requires n < SizeMax
    ensures TreeInsert(Tree(Nil, n), v) == Tree(Leaf(v), n + 1)
  {
  }

  /** The second value goes left when at most the first, right otherwise. */
  lemma InsertIntoLeaf(v: int, w: int, n: SizeT)
    requires n < SizeMax
    ensures Valid(Tree(Leaf(v), n))
    ensures TreeInsert(Tree(Leaf(v), n), w) ==
            if w <= v then Tree(Node(v, Leaf(w), Nil, 1), n + 1)
            else Tree(Node(v, Nil, Leaf(w), 1), n + 1)
  {
    LeafValid(v);
    LeafInsert(v, w);
  }

  /** Left-left: a third value at most the left child's is fixed by one right rotation. */
  lemma LeftLeftCase(a: int, b: int, c: int, n: SizeT)
    requires c <= b <= a && n < SizeMax
    ensures Valid(Tree(Node(a, Leaf(b), Nil, 1), n))
    ensures TreeInsert(Tree(Node(a, Leaf(b), Nil, 1), n), c) == Trio(c, b, a, n + 1)
  {
    LeftPairValid(a, b, n);
    InsertLeftLeft(a, b, c);
  }

  lemma InsertLeftLeft(a: int, b: int, c: int)
    requires c <= b <= a
    ensures Insert(Node(a, Leaf(b), Nil, 1), c) == Node(b, Leaf(c), Leaf(a), 1)
  {
    InsertBelowLeft(a, b, c);
    LeafInsert(b, c);
    BalanceLeftLeft(a, b, c);
  }

  /** A left child leaning left is fixed by one right rotation of the root. */
  lemma BalanceLeftLeft(a: int, b: int, c: int)
    ensures Balance(Node(a, Node(b, Leaf(c), Nil, 1), Nil, 1)) == Node(b, Leaf(c), Leaf(a), 1)
  {
    var u := Node(a, Node(b, Leaf(c), Nil, 1), Nil, 1);
    assert Difference(u) == 2 && Difference(u.left) == 1;
    assert Balance(u) == RRotate(u);
    assert Reheight(Node(a, Nil, Nil, 1)) == Leaf(a);
  }

  /** Right-right: a third value above the right child's is fixed by one left rotation. */
  lemma RightRightCase(a: int, b: int, c: int, n: SizeT)
    requires a < b < c && n < SizeMax
    ensures Valid(Tree(Node(a, Nil, Leaf(b), 1), n))
    ensures TreeInsert(Tree(Node(a, Nil, Leaf(b), 1), n), c) == Trio(a, b, c, n + 1)
  {
    RightPairValid(a, b, n);
    InsertRightRight(a, b, c);
  }

  lemma InsertRightRight(a: int, b: int, c: int)
    requires a < b < c
    ensures Insert(Node(a, Nil, Leaf(b), 1), c) == Node(b, Leaf(a), Leaf(c), 1)
  {
    InsertBelowRight(a, b, c);
    LeafInsert(b, c);
    BalanceRightRight(a, b, c);
  }

  /** A right child leaning right is fixed by one left rotation of the root. */
  lemma BalanceRightRight(a: int, b: int, c: int)
    ensures Balance(Node(a, Nil, Node(b, Nil, Leaf(c), 1), 1)) == Node(b, Leaf(a), Leaf(c), 1)
  {
    var u := Node(a, Nil, Node(b, Nil, Leaf(c), 1), 1);
    assert Difference(u) == -2 && Difference(u.right) == -1;
    assert Balance(u) == LRotate(u);
    assert Reheight(Node(a, Nil, Nil, 1)) == Leaf(a);
  }

  /** Left-right: a third value between the left child and the root is fixed
      by a left rotation of the child and a right rotation of the root. */
  lemma LeftRightCase(a: int, b: int, c: int, n: SizeT)
    requires b < c <= a && n < SizeMax
    ensures Valid(Tree(Node(a, Leaf(b), Nil, 1), n))
    ensures TreeInsert(Tree(Node(a, Leaf(b), Nil, 1), n), c) == Trio(b, c, a, n + 1)
  {
    LeftPairValid(a, b, n);
    InsertLeftRight(a, b, c);
  }

  lemma InsertLeftRight(a: int, b: int, c: int)
    requires b < c <= a
    ensures Insert(Node(a, Leaf(b), Nil, 1), c) == Node(c, Leaf(b), Leaf(a), 1)
  {
    InsertBelowLeft(a, b, c);
    LeafInsert(b, c);
    BalanceLeftRight(a, b, c);
  }

  /** A left child leaning right is rotated left, then the root right. */
  lemma BalanceLeftRight(a: int, b: int, c: int)
    ensures Balance(Node(a, Node(b, Nil, Leaf(c), 1), Nil, 1)) == Node(c, Leaf(b), Leaf(a), 1)
  {
    var grown := Node(b, Nil, Leaf(c), 1);
    var u := Node(a, grown, Nil, 1);
    assert Difference(u) == 2 && Difference(grown) == -1;
    var rot := Node(c, Leaf(b), Nil, 1);
    assert LRotate(grown) == rot;
    assert Balance(u) == RRotate(Node(a, rot, Nil, 1));
  }

  /** The second value of a one-node tree becomes its left or right leaf. */
  lemma LeafInsert(b: int, c: int)
    ensures Insert(Leaf(b), c) == if c <= b then Node(b, Leaf(c), Nil, 1) else Node(b, Nil, Leaf(c), 1)
  {
    if c <= b {
      LeafInsertLeft(b, c);
    } else {
      LeafInsertRight(b, c);
    }
  }

  lemma LeafInsertLeft(b: int, c: int)
    requires c <= b
    ensures Insert(Leaf(b), c) == Node(b, Leaf(c), Nil, 1)
  {
    assert HeightsOk(Leaf(b));
    var n := Node(b, Leaf(c), Nil, 0);
    assert Insert(Leaf(b), c) == Balance(n);
    assert Difference(n) == 1;
    assert Balance(n) == Reheight(n);
  }

  lemma LeafInsertRight(b: int, c: int)
    requires b < c
    ensures Insert(Leaf(b), c) == Node(b, Nil, Leaf(c), 1)
  {
    assert HeightsOk(Leaf(b));
    var n := Node(b, Nil, Leaf(c), 0);
    assert Insert(Leaf(b), c) == Balance(n);
    assert Difference(n) == -1;
    assert Balance(n) == Reheight(n);
  }

  /** A value at most the root of a node with one left leaf goes into that leaf. */
  lemma InsertBelowLeft(a: int, b: int, c: int)
    requires c <= a
    ensures HeightsOk(Node(a, Leaf(b), Nil, 1))
    ensures Insert(Node(a, Leaf(b), Nil, 1), c) == Balance(Node(a, Insert(Leaf(b), c), Nil, 1))
  {
    assert HeightsOk(Leaf(b));
  }

  /** A value above the root of a node with one right leaf goes into that leaf. */
  lemma InsertBelowRight(a: int, b: int, c: int)
    requires a < c
    ensures HeightsOk(Node(a, Nil, Leaf(b), 1))
    ensures Insert(Node(a, Nil, Leaf(b), 1), c) == Balance(Node(a, Nil, Insert(Leaf(b), c), 1))
  {
    assert HeightsOk(Leaf(b));
  }

  /** Right-left: a third value between the root and the right child is fixed
      by a right rotation of the child and a left rotation of the root. */
  lemma RightLeftCase(a: int, b: int, c: int, n: SizeT)
    requires a < c <= b && n < SizeMax
    ensures Valid(Tree(Node(a, Nil, Leaf(b), 1), n))
    ensures TreeInsert(Tree(Node(a, Nil, Leaf(b), 1), n), c) == Trio(a, c, b, n + 1)
  {
    RightPairValid(a, b, n);
    InsertRightLeft(a, b, c);
  }

  lemma InsertRightLeft(a: int, b: int, c: int)
    requires a < c <= b
    ensures Insert(Node(a, Nil, Leaf(b), 1), c) == Node(c, Leaf(a), Leaf(b), 1)
  {
    InsertBelowRight(a, b, c);
    LeafInsert(b, c);
    BalanceRightLeft(a, b, c);
  }

  /** A right child leaning left is rotated right, then the root left. */
  lemma BalanceRightLeft(a: int, b: int, c: int)
    ensures Balance(Node(a, Nil, Node(b, Leaf(c), Nil, 1), 1)) == Node(c, Leaf(a), Leaf(b), 1)
  {
    var grown := Node(b, Leaf(c), Nil, 1);
    var u := Node(a, Nil, grown, 1);
    assert Difference(u) == -2 && Difference(grown) == 1;
    var rot := Node(c, Nil, Leaf(b), 1);
    assert RRotate(grown) == rot;
    assert Balance(u) == LRotate(Node(a, Nil, rot, 1));
  }

  /** Removing the right leaf of a three-node tree. */
  lemma RemoveRightOfTrio(a: int, b: int, c: int, n: SizeT)
    requires a < b < c && n > 0
    ensures Valid(Trio(a, b, c, n))
    ensures TreeRemove(Trio(a, b, c, n), c) == Tree(Node(b, Leaf(a), Nil, 1), n - 1)
  {
    TrioValid(a, b, c, n);
    RemoveRightLeaf(a, b, c);
    assert TreeInorder(Trio(a, b, c, n))[2] == c;
  }

  lemma RemoveRightLeaf(a: int, b: int, c: int)
    requires a < b < c
    ensures Remove(Node(b, Leaf(a), Leaf(c), 1), c) == Node(b, Leaf(a), Nil, 1)
  {
    assert Remove(Leaf(c), c) == Nil;
    assert Remove(Node(b, Leaf(a), Leaf(c), 1), c) == Balance(Node(b, Leaf(a), Nil, 1));
    assert Balance(Node(b, Leaf(a), Nil, 1)) == Reheight(Node(b, Leaf(a), Nil, 1));
  }

  /** Removing the left leaf of a three-node tree. */
  lemma RemoveLeftOfTrio(a: int, b: int, c: int, n: SizeT)
    requires a < b < c && n > 0
    ensures Valid(Trio(a, b, c, n))
    ensures TreeRemove(Trio(a, b, c, n), a) == Tree(Node(b, Nil, Leaf(c), 1), n - 1)
  {
    TrioValid(a, b, c, n);
    RemoveLeftLeaf(a, b, c);
    assert TreeInorder(Trio(a, b, c, n))[0] == a;
  }

  lemma RemoveLeftLeaf(a: int, b: int, c: int)
    requires a < b < c
    ensures Remove(Node(b, Leaf(a), Leaf(c), 1), a) == Node(b, Nil, Leaf(c), 1)
  {
    assert Remove(Leaf(a), a) == Nil;
    assert Remove(Node(b, Leaf(a), Leaf(c), 1), a) == Balance(Node(b, Nil, Leaf(c), 1));
    assert Balance(Node(b, Nil, Leaf(c), 1)) == Reheight(Node(b, Nil, Leaf(c), 1));
  }

  /** Removing the root of a three-node tree moves its successor up. */
  lemma RemoveRootOfTrio(a: int, b: int, c: int, n: SizeT)
    requires a < b < c && n > 0
    ensures Valid(Trio(a, b, c, n))
    ensures TreeRemove(Trio(a, b, c, n), b) == Tree(Node(c, Leaf(a), Nil, 1), n - 1)
  {
    TrioValid(a, b, c, n);
    RemoveRootNode(a, b, c);
    assert TreeInorder(Trio(a, b, c, n))[1] == b;
  }

  lemma RemoveRootNode(a: int, b: int, c: int)
    requires a < b < c
    ensures Remove(Node(b, Leaf(a), Leaf(c), 1), b) == Node(c, Leaf(a), Nil, 1)
  {
    assert Min(Leaf(c)) == Ok(c);
    assert Remove(Leaf(c), c) == Nil;
    assert Remove(Node(b, Leaf(a), Leaf(c), 1), b) == Balance(Node(c, Leaf(a), Nil, 1));
    assert Balance(Node(c, Leaf(a), Nil, 1)) == Reheight(Node(c, Leaf(a), Nil, 1));
  }

  /** Removing the only value empties the tree but keeps the counter;
      removing another value keeps the leaf but decrements the counter. */
  lemma RemoveFromLeaf(v: int, w: int, n: SizeT)
    ensures Valid(Tree(Leaf(v), n))
    ensures TreeRemove(Tree(Leaf(v), n), v) == Tree(Nil, n)
    ensures v != w ==> TreeRemove(Tree(Leaf(v), n), w) == Tree(Leaf(v), SizeDec(n))
  {
    LeafValid(v);
  }

  /** Inserting the same value three times: equal values are routed left,
      yet the rotation leaves a copy as the right child of the root, so the
      order can only be left <= node <= right. */
  lemma EqualValuesRotatedRight(v: int, n: SizeT)
    requires n < SizeMax
    ensures Valid(Tree(Node(v, Leaf(v), Nil, 1), n))
    ensures TreeInsert(Tree(Node(v, Leaf(v), Nil, 1), n), v) == Trio(v, v, v, n + 1)
    ensures Trio(v, v, v, n + 1).root.right.value == Trio(v, v, v, n + 1).root.value
  {
    LeftLeftCase(v, v, v, n);
  }

  /** The counter drifts from the number of stored values: after removing
      the only value it is unchanged, and removing an absent value from a
      one-element tree whose counter is already zero wraps it to the largest
      `size_t`. */
  lemma CounterDrifts(v: int, w: int)
    requires v != w
    ensures Valid(Tree(Leaf(v), 0)) && Valid(Tree(Leaf(v), 1))
    ensures TreeRemove(Tree(Leaf(v), 1), v) == Tree(Nil, 1)
    ensures TreeRemove(Tree(Leaf(v), 1), w) == Tree(Leaf(v), 0)
    ensures TreeRemove(Tree(Leaf(v), 0), w) == Tree(Leaf(v), SizeMax)
  {
    RemoveFromLeaf(v, v, 1);
    RemoveFromLeaf(v, w, 1);
    RemoveFromLeaf(v, w, 0);
  }
}
