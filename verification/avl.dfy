/** An AVL tree of integers with cached heights, modelled as an immutable
    datatype: every mutating operation of the source returns the restructured
    subtree instead of moving owned pointers around.

    The ordering invariant is the weak one, left <= node <= right: insertion
    routes equal values left, but a rotation can carry a value equal to a node
    into that node's right subtree. */
module Avl {
  import opened Common

  /** A subtree: absent (`Nil`) or a node with its value, children and cached height. */
  datatype Node = Nil | Node(value: int, left: Node, right: Node, height: int)

  /** Raised by `Min`/`Max` on an absent subtree. */
  datatype EmptyTreeError = EmptyTreeError

  function Larger(a: int, b: int): int {
    if a < b then b else a
  }

  /** The cached height of a subtree; an absent subtree has height -1. */
  function Height(t: Node): int {
    if t.Nil? then -1 else t.height
  }

  /** The height computed from the shape alone: the number of edges on the
      longest path down to a leaf. */
  function ShapeHeight(t: Node): int {
    match t
    case Nil => -1
    case Node(_, l, r, _) => 1 + Larger(ShapeHeight(l), ShapeHeight(r))
  }

  /** Every cached height equals one more than the larger child height. */
  predicate HeightsOk(t: Node) {
    match t
    case Nil => true
    case Node(_, l, r, h) => HeightsOk(l) && HeightsOk(r) && h == 1 + Larger(Height(l), Height(r))
  }

  /** Every node's balance factor is -1, 0 or 1. */
  predicate Balanced(t: Node) {
    match t
    case Nil => true
    case Node(_, l, r, _) => Balanced(l) && Balanced(r) && -1 <= Height(l) - Height(r) <= 1
  }

  /** The shape invariants that hold between public calls. */
  predicate AvlShape(t: Node) {
    HeightsOk(t) && Balanced(t)
  }

  /** The values of a subtree, left to right. */
  function Inorder(t: Node): seq<int> {
    match t
    case Nil => []
    case Node(v, l, r, _) => Inorder(l) + [v] + Inorder(r)
  }

  /** The ordering invariant: the in-order sequence is non-decreasing. */
  predicate Ordered(t: Node) {
    Sorted(Inorder(t))
  }

  /** The ordering invariant is the weak per-node condition: every value on
      the left is at most the node's value, every value on the right at least. */
  lemma OrderedNode(v: int, l: Node, r: Node, h: int)
    ensures Ordered(Node(v, l, r, h)) <==>
            Ordered(l) && Ordered(r) && AllAtMost(Inorder(l), v) && AllAtLeast(Inorder(r), v)
  {
    SortedSplit(Inorder(l), v, Inorder(r));
  }

  /** Correct cached heights are the heights of the shape. */
  lemma {:induction false} CachedHeightIsShapeHeight(t: Node)
    requires HeightsOk(t)
    ensures Height(t) == ShapeHeight(t)
  {
    if t.Node? {
      CachedHeightIsShapeHeight(t.left);
      CachedHeightIsShapeHeight(t.right);
    }
  }

  /** With correct cached heights, a present node has height at least 0. */
  lemma {:induction false} HeightLowerBound(t: Node)
    requires HeightsOk(t)
    ensures Height(t) >= -1
    ensures t.Node? ==> Height(t) >= 0
  {
    if t.Node? {
      HeightLowerBound(t.left);
      HeightLowerBound(t.right);
    }
  }

  /** The balance factor of a present node. */
  function Difference(t: Node): int
    requires t.Node?
  {
    Height(t.left) - Height(t.right)
  }

  /** Recomputes a node's cached height from its children's. */
  function Reheight(t: Node): (r: Node)
    requires t.Node?
    ensures r.Node? && r.value == t.value && r.left == t.left && r.right == t.right
    ensures r.height == 1 + Larger(Height(t.left), Height(t.right))
    ensures Inorder(r) == Inorder(t)
    ensures HeightsOk(t.left) && HeightsOk(t.right) ==> HeightsOk(r)
    ensures Balanced(t) ==> Balanced(r)
  {
    t.(height := 1 + Larger(Height(t.left), Height(t.right)))
  }

  /** The smallest value of a subtree, found by following left children. */
  function Min(t: Node): (r: Result<int, EmptyTreeError>)
    ensures r.Ok? <==> t.Node?
    ensures r.Ok? ==> |Inorder(t)| > 0 && r.value == Inorder(t)[0]
    ensures r.Ok? && Ordered(t) ==> AllAtLeast(Inorder(t), r.value)
  {
    match t
    case Nil => Err(EmptyTreeError)
    case Node(v, l, _, _) => if l.Node? then Min(l) else Ok(v)
  }

  /** The largest value of a subtree, found by following right children. */
  function Max(t: Node): (r: Result<int, EmptyTreeError>)
    ensures r.Ok? <==> t.Node?
    ensures r.Ok? ==> |Inorder(t)| > 0 && r.value == Inorder(t)[|Inorder(t)| - 1]
    ensures r.Ok? && Ordered(t) ==> AllAtMost(Inorder(t), r.value)
  {
    match t
    case Nil => Err(EmptyTreeError)
    case Node(v, _, r, _) => if r.Node? then Max(r) else Ok(v)
  }

  /** Right rotation: the left child becomes the root of the subtree. */
  function RRotate(t: Node): (r: Node)
    requires t.Node? && t.left.Node?
    ensures Inorder(r) == Inorder(t)
    ensures r.Node? && r.right.Node?
    ensures r.value == t.left.value && r.left == t.left.left
    ensures r.right.value == t.value && r.right.left == t.left.right && r.right.right == t.right
    ensures r.right.height == 1 + Larger(Height(r.right.left), Height(r.right.right))
    ensures r.height == 1 + Larger(Height(r.left), Height(r.right))
    ensures HeightsOk(t.left) && HeightsOk(t.right) ==> HeightsOk(r)
  {
    var root := t.left;
    var node := Reheight(Node(t.value, root.right, t.right, t.height));
    Reheight(Node(root.value, root.left, node, root.height))
  }

  /** Left rotation: the right child becomes the root of the subtree. */
  function LRotate(t: Node): (r: Node)
    requires t.Node? && t.right.Node?
    ensures Inorder(r) == Inorder(t)
    ensures r.Node? && r.left.Node?
    ensures r.value == t.right.value && r.right == t.right.right
    ensures r.left.value == t.value && r.left.left == t.left && r.left.right == t.right.left
    ensures r.left.height == 1 + Larger(Height(r.left.left), Height(r.left.right))
    ensures r.height == 1 + Larger(Height(r.left), Height(r.right))
    ensures HeightsOk(t.left) && HeightsOk(t.right) ==> HeightsOk(r)
  {
    var root := t.right;
    var node := Reheight(Node(t.value, t.left, root.left, t.height));
    Reheight(Node(root.value, node, root.right, root.height))
  }

  /** Repairs a node whose children may differ in height by two, rotating
      once (left-left, right-right) or twice (left-right, right-left). */
  function Balance(t: Node): (r: Node)
    requires t.Node? && HeightsOk(t.left) && HeightsOk(t.right)
    ensures r.Node? && Inorder(r) == Inorder(t)
    ensures HeightsOk(r)
  {
    HeightLowerBound(t.left);
    HeightLowerBound(t.right);
    if Difference(t) > 1 then
      HeightLowerBound(t.left.left);
      var t' := if Difference(t.left) < 0 then t.(left := LRotate(t.left)) else t;
      RRotate(t')
    else if Difference(t) < -1 then
      HeightLowerBound(t.right.right);
      var t' := if Difference(t.right) > 0 then t.(right := RRotate(t.right)) else t;
      LRotate(t')
    else
      Reheight(t)
  }

  /** Inserts `v`, routing values equal to a node into its left subtree. */
  function Insert(t: Node, v: int): (r: Node)
    requires HeightsOk(t)
    ensures r.Node? && HeightsOk(r)
    ensures multiset(Inorder(r)) == multiset(Inorder(t)) + multiset{v}
  {
    if t.Nil? then Node(v, Nil, Nil, 0)
    else if v <= t.value then
      var l := Insert(t.left, v);
      GrownMultiset(t.left, l, t.value, t.right, v);
      Balance(t.(left := l))
    else
      var r := Insert(t.right, v);
      GrownMultiset(t.right, r, t.value, t.left, v);
      Balance(t.(right := r))
  }

  /** Growing one child's multiset by `v` grows the node's by `v`. */
  lemma GrownMultiset(c: Node, c': Node, x: int, other: Node, v: int)
    requires multiset(Inorder(c')) == multiset(Inorder(c)) + multiset{v}
    ensures multiset(Inorder(c') + [x] + Inorder(other)) ==
            multiset(Inorder(c) + [x] + Inorder(other)) + multiset{v}
    ensures multiset(Inorder(other) + [x] + Inorder(c')) ==
            multiset(Inorder(other) + [x] + Inorder(c)) + multiset{v}
  {
    var m, m', o := multiset(Inorder(c)), multiset(Inorder(c')), multiset(Inorder(other));
    assert multiset(Inorder(c') + [x] + Inorder(other)) == m' + multiset{x} + o;
    assert multiset(Inorder(c) + [x] + Inorder(other)) == m + multiset{x} + o;
    assert multiset(Inorder(other) + [x] + Inorder(c')) == o + multiset{x} + m';
    assert multiset(Inorder(other) + [x] + Inorder(c)) == o + multiset{x} + m;
    GrowUnion(m, m', multiset{x}, o, v);
  }

  /** Growing one part of a union grows the union, on either side. */
  lemma GrowUnion(m: multiset<int>, m': multiset<int>, x: multiset<int>, o: multiset<int>, v: int)
    requires m' == m + multiset{v}
    ensures m' + x + o == m + x + o + multiset{v}
    ensures o + x + m' == o + x + m + multiset{v}
  {
  }

  /** Removes one node holding `v`, if the search path meets one. A node with
      two children takes the smallest value of its right subtree, which is
      then removed from that subtree. */
  function Remove(t: Node, v: int): (r: Node)
    requires HeightsOk(t)
    ensures HeightsOk(r)
  {
    if t.Nil? then Nil
    else if v < t.value then Balance(t.(left := Remove(t.left, v)))
    else if v > t.value then Balance(t.(right := Remove(t.right, v)))
    else if t.left.Nil? then t.right
    else if t.right.Nil? then t.left
    else
      var rmin := Min(t.right).value;
      Balance(t.(value := rmin, right := Remove(t.right, rmin)))
  }

  /** The repair step of `Balance`: given balanced children with correct
      heights whose heights differ by at most two, the result is balanced and
      its height is the larger child height, or one more; with no rotation
      needed it is exactly one more. */
  lemma BalanceRestores(t: Node)
    requires t.Node? && AvlShape(t.left) && AvlShape(t.right)
    requires -2 <= Difference(t) <= 2
    ensures AvlShape(Balance(t))
    ensures var m := Larger(Height(t.left), Height(t.right));
            m <= Height(Balance(t)) <= m + 1
    ensures -1 <= Difference(t) <= 1 ==>
            Height(Balance(t)) == 1 + Larger(Height(t.left), Height(t.right))
  {
    HeightLowerBound(t.left);
    HeightLowerBound(t.right);
    if Difference(t) > 1 {
      HeightLowerBound(t.left.left);
      HeightLowerBound(t.left.right);
      if Difference(t.left) < 0 {
        LeftRightCase(t);
      } else {
        LeftLeftCase(t);
      }
    } else if Difference(t) < -1 {
      HeightLowerBound(t.right.left);
      HeightLowerBound(t.right.right);
      if Difference(t.right) > 0 {
        RightLeftCase(t);
      } else {
        RightRightCase(t);
      }
    }
  }

  /** A left-heavy node whose left child is not right-heavy: one right rotation. */
  lemma LeftLeftCase(t: Node)
    requires t.Node? && AvlShape(t.left) && AvlShape(t.right) && Difference(t) == 2
    requires t.left.Node? && Difference(t.left) >= 0
    ensures AvlShape(RRotate(t))
    ensures Height(t.left) <= Height(RRotate(t)) <= Height(t.left) + 1
  {
    var l := t.left;
    HeightLowerBound(l.left);
    HeightLowerBound(l.right);
    assert Height(l.left) == Height(l) - 1;
    assert Height(l) - 2 <= Height(l.right) <= Height(l) - 1;
  }

  /** A left-heavy node whose left child is right-heavy: a left rotation of
      the child, then a right rotation of the node. */
  lemma LeftRightCase(t: Node)
    requires t.Node? && AvlShape(t.left) && AvlShape(t.right) && Difference(t) == 2
    requires t.left.Node? && t.left.right.Node? && Difference(t.left) < 0
    ensures AvlShape(RRotate(t.(left := LRotate(t.left))))
    ensures Height(RRotate(t.(left := LRotate(t.left)))) == Height(t.left)
  {
    var l := t.left;
    var b := l.right;
    HeightLowerBound(l.left);
    assert HeightsOk(b) && Balanced(b);
    HeightLowerBound(b.left);
    HeightLowerBound(b.right);
    assert Height(l.left) == Height(l) - 2 && Height(b) == Height(l) - 1;
    assert Height(t.right) == Height(l) - 2;
    assert Height(l) - 3 <= Height(b.left) <= Height(l) - 2;
    assert Height(l) - 3 <= Height(b.right) <= Height(l) - 2;
    var x := Reheight(Node(l.value, l.left, b.left, l.height));
    var y := Reheight(Node(t.value, b.right, t.right, t.height));
    assert Balanced(x) && Height(x) == Height(l) - 1;
    assert Balanced(y) && Height(y) == Height(l) - 1;
    assert RRotate(t.(left := LRotate(t.left))) == Reheight(Node(b.value, x, y, b.height));
  }

  /** A right-heavy node whose right child is not left-heavy: one left rotation. */
  lemma RightRightCase(t: Node)
    requires t.Node? && AvlShape(t.left) && AvlShape(t.right) && Difference(t) == -2
    requires t.right.Node? && Difference(t.right) <= 0
    ensures AvlShape(LRotate(t))
    ensures Height(t.right) <= Height(LRotate(t)) <= Height(t.right) + 1
  {
    var r := t.right;
    HeightLowerBound(r.left);
    HeightLowerBound(r.right);
    assert Height(r.right) == Height(r) - 1;
    assert Height(r) - 2 <= Height(r.left) <= Height(r) - 1;
  }

  /** A right-heavy node whose right child is left-heavy: a right rotation of
      the child, then a left rotation of the node. */
  lemma RightLeftCase(t: Node)
    requires t.Node? && AvlShape(t.left) && AvlShape(t.right) && Difference(t) == -2
    requires t.right.Node? && t.right.left.Node? && Difference(t.right) > 0
    ensures AvlShape(LRotate(t.(right := RRotate(t.right))))
    ensures Height(LRotate(t.(right := RRotate(t.right)))) == Height(t.right)
  {
    var r := t.right;
    var b := r.left;
    HeightLowerBound(r.right);
    assert HeightsOk(b) && Balanced(b);
    HeightLowerBound(b.left);
    HeightLowerBound(b.right);
    assert Height(r.right) == Height(r) - 2 && Height(b) == Height(r) - 1;
    assert Height(t.left) == Height(r) - 2;
    assert Height(r) - 3 <= Height(b.left) <= Height(r) - 2;
    assert Height(r) - 3 <= Height(b.right) <= Height(r) - 2;
    var x := Reheight(Node(t.value, t.left, b.left, t.height));
    var y := Reheight(Node(r.value, b.right, r.right, r.height));
    assert Balanced(x) && Height(x) == Height(r) - 1;
    assert Balanced(y) && Height(y) == Height(r) - 1;
    assert LRotate(t.(right := RRotate(t.right))) == Reheight(Node(b.value, x, y, b.height));
  }

  /** `Balance` leaves a node that already satisfies the invariants as it is. */
  lemma BalanceKeepsAvl(t: Node)
    requires t.Node? && AvlShape(t)
    ensures Balance(t) == t
  {
  }

  /** Insertion keeps the tree balanced, with correct heights, and grows its
      height by at most one. */
  lemma {:induction false} InsertKeepsAvl(t: Node, v: int)
    requires AvlShape(t)
    ensures AvlShape(Insert(t, v))
    ensures Height(t) <= Height(Insert(t, v)) <= Height(t) + 1
  {
    if t.Node? {
      if v <= t.value {
        InsertKeepsAvl(t.left, v);
        var n := t.(left := Insert(t.left, v));
        assert Insert(t, v) == Balance(n);
        GrownChildRebalanced(t, n);
      } else {
        InsertKeepsAvl(t.right, v);
        var n := t.(right := Insert(t.right, v));
        assert Insert(t, v) == Balance(n);
        GrownChildRebalanced(t, n);
      }
    }
  }

  /** One child of a balanced node replaced by a balanced subtree at most one
      level taller: rebalancing gives a balanced node at most one level taller. */
  lemma GrownChildRebalanced(t: Node, n: Node)
    requires t.Node? && n.Node? && AvlShape(t) && AvlShape(n.left) && AvlShape(n.right)
    requires (n.left == t.left && Height(t.right) <= Height(n.right) <= Height(t.right) + 1) ||
             (n.right == t.right && Height(t.left) <= Height(n.left) <= Height(t.left) + 1)
    ensures AvlShape(Balance(n))
    ensures Height(t) <= Height(Balance(n)) <= Height(t) + 1
  {
    BalanceRestores(n);
  }

  /** Insertion keeps the in-order sequence non-decreasing. */
  lemma {:induction false} InsertKeepsOrder(t: Node, v: int)
    requires HeightsOk(t) && Ordered(t)
    ensures Ordered(Insert(t, v))
  {
    if t.Node? {
      OrderedNode(t.value, t.left, t.right, t.height);
      if v <= t.value {
        InsertKeepsOrder(t.left, v);
        var n := t.(left := Insert(t.left, v));
        AddedOnLeftOrdered(t, n, v);
        assert Insert(t, v) == Balance(n);
      } else {
        InsertKeepsOrder(t.right, v);
        var n := t.(right := Insert(t.right, v));
        AddedOnRightOrdered(t, n, v);
        assert Insert(t, v) == Balance(n);
      }
    }
  }

  /** Adding a value no larger than the node to its left subtree keeps the order. */
  lemma AddedOnLeftOrdered(t: Node, n: Node, v: int)
    requires t.Node? && n.Node? && Ordered(t) && Ordered(n.left) && v <= t.value
    requires n.value == t.value && n.right == t.right
    requires multiset(Inorder(n.left)) == multiset(Inorder(t.left)) + multiset{v}
    ensures Ordered(n)
  {
    var u := Inorder(t.left) + [v];
    OrderedNode(t.value, t.left, t.right, t.height);
    assert AllAtMost(u, t.value) by {
      forall k | 0 <= k < |u| ensures u[k] <= t.value {
        if k < |u| - 1 {
          assert u[k] == Inorder(t.left)[k];
        }
      }
    }
    assert multiset(u) == multiset(Inorder(t.left)) + multiset{v};
    AtMostOfSub(Inorder(n.left), u, t.value);
    OrderedNode(n.value, n.left, n.right, n.height);
  }

  /** Adding a value larger than the node to its right subtree keeps the order. */
  lemma AddedOnRightOrdered(t: Node, n: Node, v: int)
    requires t.Node? && n.Node? && Ordered(t) && Ordered(n.right) && v >= t.value
    requires n.value == t.value && n.left == t.left
    requires multiset(Inorder(n.right)) == multiset(Inorder(t.right)) + multiset{v}
    ensures Ordered(n)
  {
    var u := Inorder(t.right) + [v];
    OrderedNode(t.value, t.left, t.right, t.height);
    assert AllAtLeast(u, t.value) by {
      forall k | 0 <= k < |u| ensures t.value <= u[k] {
        if k < |u| - 1 {
          assert u[k] == Inorder(t.right)[k];
        }
      }
    }
    assert multiset(u) == multiset(Inorder(t.right)) + multiset{v};
    AtLeastOfSub(Inorder(n.right), u, t.value);
    OrderedNode(n.value, n.left, n.right, n.height);
  }

  /** Removal keeps the tree balanced, with correct heights, and shrinks its
      height by at most one. */
  lemma {:induction false} RemoveKeepsAvl(t: Node, v: int)
    requires AvlShape(t)
    ensures AvlShape(Remove(t, v))
    ensures Height(t) - 1 <= Height(Remove(t, v)) <= Height(t)
  {
    if t.Node? {
      HeightLowerBound(t.left);
      HeightLowerBound(t.right);
      if v < t.value {
        RemoveKeepsAvl(t.left, v);
        var n := t.(left := Remove(t.left, v));
        assert Remove(t, v) == Balance(n);
        ShrunkChildRebalanced(t, n);
      } else if v > t.value {
        RemoveKeepsAvl(t.right, v);
        var n := t.(right := Remove(t.right, v));
        assert Remove(t, v) == Balance(n);
        ShrunkChildRebalanced(t, n);
      } else if t.left.Node? && t.right.Node? {
        var rmin := Min(t.right).value;
        RemoveKeepsAvl(t.right, rmin);
        var n := t.(value := rmin, right := Remove(t.right, rmin));
        assert Remove(t, v) == Balance(n);
        ShrunkChildRebalanced(t, n);
      }
    }
  }

  /** One child of a balanced node replaced by a balanced subtree at most one
      level shorter: rebalancing gives a balanced node at most one level shorter. */
  lemma ShrunkChildRebalanced(t: Node, n: Node)
    requires t.Node? && n.Node? && AvlShape(t) && AvlShape(n.left) && AvlShape(n.right)
    requires (n.left == t.left && Height(t.right) - 1 <= Height(n.right) <= Height(t.right)) ||
             (n.right == t.right && Height(t.left) - 1 <= Height(n.left) <= Height(t.left))
    ensures AvlShape(Balance(n))
    ensures Height(t) - 1 <= Height(Balance(n)) <= Height(t)
  {
    BalanceRestores(n);
  }

  /** Removal keeps the order and takes exactly one occurrence of `v` out of
      the in-order sequence when there is one; otherwise nothing changes. */
  lemma {:induction false} RemoveKeepsOrder(t: Node, v: int)
    requires HeightsOk(t) && Ordered(t)
    ensures Ordered(Remove(t, v))
    ensures multiset(Inorder(Remove(t, v))) == multiset(Inorder(t)) - multiset{v}
  {
    if t.Node? {
      OrderedNode(t.value, t.left, t.right, t.height);
      if v < t.value {
        RemoveKeepsOrder(t.left, v);
        var n := t.(left := Remove(t.left, v));
        RemovedOnLeft(t, n, v);
        assert Remove(t, v) == Balance(n);
      } else if v > t.value {
        RemoveKeepsOrder(t.right, v);
        var n := t.(right := Remove(t.right, v));
        RemovedOnRight(t, n, v);
        assert Remove(t, v) == Balance(n);
      } else if t.left.Node? && t.right.Node? {
        var rmin := Min(t.right).value;
        RemoveKeepsOrder(t.right, rmin);
        var n := t.(value := rmin, right := Remove(t.right, rmin));
        SuccessorMoved(t, n);
        assert Remove(t, v) == Balance(n);
      } else {
        SplicedOut(t);
      }
    }
  }

  /** A node with at most one child is replaced by that child, which is
      ordered and holds every value but the node's own. */
  lemma SplicedOut(t: Node)
    requires t.Node? && Ordered(t) && (t.left.Nil? || t.right.Nil?)
    ensures var c := if t.left.Nil? then t.right else t.left;
            Ordered(c) && multiset(Inorder(c)) == multiset(Inorder(t)) - multiset{t.value}
  {
    OrderedNode(t.value, t.left, t.right, t.height);
    if t.left.Nil? {
      assert Inorder(t) == [t.value] + Inorder(t.right);
    } else {
      assert Inorder(t) == Inorder(t.left) + [t.value];
    }
  }

  /** Removing `v < t.value` from the left subtree removes it from the node. */
  lemma RemovedOnLeft(t: Node, n: Node, v: int)
    requires t.Node? && n.Node? && Ordered(t) && Ordered(n.left) && v < t.value
    requires n.value == t.value && n.right == t.right
    requires multiset(Inorder(n.left)) == multiset(Inorder(t.left)) - multiset{v}
    ensures Ordered(n)
    ensures multiset(Inorder(n)) == multiset(Inorder(t)) - multiset{v}
  {
    DescendStep(t, v);
    OrderedNode(t.value, t.left, t.right, t.height);
    AtMostOfSub(Inorder(n.left), Inorder(t.left), t.value);
    OrderedNode(n.value, n.left, n.right, n.height);
    MultisetRemoveLeft(Inorder(t.left), Inorder(n.left), t.value, Inorder(t.right), v);
  }

  /** Removing `v > t.value` from the right subtree removes it from the node. */
  lemma RemovedOnRight(t: Node, n: Node, v: int)
    requires t.Node? && n.Node? && Ordered(t) && Ordered(n.right) && v > t.value
    requires n.value == t.value && n.left == t.left
    requires multiset(Inorder(n.right)) == multiset(Inorder(t.right)) - multiset{v}
    ensures Ordered(n)
    ensures multiset(Inorder(n)) == multiset(Inorder(t)) - multiset{v}
  {
    DescendStep(t, v);
    OrderedNode(t.value, t.left, t.right, t.height);
    AtLeastOfSub(Inorder(n.right), Inorder(t.right), t.value);
    OrderedNode(n.value, n.left, n.right, n.height);
    MultisetRemoveRight(Inorder(t.left), t.value, Inorder(t.right), Inorder(n.right), v);
  }

  /** A node with two children that takes the smallest value of its right
      subtree, with that value removed from the subtree, stays ordered and has
      lost exactly its own old value. */
  lemma SuccessorMoved(t: Node, n: Node)
    requires t.Node? && t.right.Node? && n.Node? && Ordered(t) && Ordered(n.right)
    requires n.left == t.left && n.value == Min(t.right).value
    requires multiset(Inorder(n.right)) == multiset(Inorder(t.right)) - multiset{n.value}
    ensures Ordered(n)
    ensures multiset(Inorder(n)) == multiset(Inorder(t)) - multiset{t.value}
  {
    OrderedNode(t.value, t.left, t.right, t.height);
    var rs := Inorder(t.right);
    assert n.value == rs[0] && n.value in rs;
    assert t.value <= n.value;
    forall k | 0 <= k < |Inorder(t.left)|
      ensures Inorder(t.left)[k] <= n.value
    {
      assert Inorder(t.left)[k] <= t.value;
    }
    AtLeastOfSub(Inorder(n.right), rs, n.value);
    OrderedNode(n.value, n.left, n.right, n.height);
    MultisetReplaceMiddle(Inorder(t.left), t.value, rs, n.value, Inorder(n.right));
  }

  /** Removing an absent value leaves a tree satisfying the invariants
      structurally unchanged: each `Balance` on the way back is a no-op. */
  lemma {:induction false} RemoveAbsent(t: Node, v: int)
    requires AvlShape(t) && Ordered(t) && v !in Inorder(t)
    ensures Remove(t, v) == t
  {
    if t.Node? {
      OrderedNode(t.value, t.left, t.right, t.height);
      if v < t.value {
        RemoveAbsent(t.left, v);
        BalanceKeepsAvl(t);
      } else if v > t.value {
        RemoveAbsent(t.right, v);
        BalanceKeepsAvl(t);
      }
    }
  }

  /** Under the weak ordering, a value different from a node's lies on the
      side the comparison picks, so one step of descent loses nothing. */
  lemma DescendStep(t: Node, v: int)
    requires t.Node? && Ordered(t) && v != t.value
    ensures Ordered(t.left) && Ordered(t.right)
    ensures v < t.value ==> (v in Inorder(t) <==> v in Inorder(t.left))
    ensures v > t.value ==> (v in Inorder(t) <==> v in Inorder(t.right))
  {
    OrderedNode(t.value, t.left, t.right, t.height);
    if v < t.value {
      forall k | 0 <= k < |Inorder(t.right)|
        ensures Inorder(t.right)[k] != v
      {
        assert t.value <= Inorder(t.right)[k];
      }
    } else {
      forall k | 0 <= k < |Inorder(t.left)|
        ensures Inorder(t.left)[k] != v
      {
        assert Inorder(t.left)[k] <= t.value;
      }
    }
  }

  /** The iterative membership test: descend until a node equals `v`. */
  method Contains(root: Node, v: int) returns (found: bool)
    ensures found ==> v in Inorder(root)
    ensures Ordered(root) ==> (found <==> v in Inorder(root))
  {
    var iter := root;
    while iter.Node?
      invariant v in Inorder(iter) ==> v in Inorder(root)
      invariant Ordered(root) ==> Ordered(iter) && (v in Inorder(root) <==> v in Inorder(iter))
      decreases iter
    {
      if v == iter.value {
        return true;
      }
      if Ordered(root) {
        DescendStep(iter, v);
      }
      if v <= iter.value {
        iter := iter.left;
      } else {
        iter := iter.right;
      }
    }
    return false;
  }
}
