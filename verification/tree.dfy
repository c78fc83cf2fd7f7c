/** The linked binary tree: nodes, the three recursive traversals, height and
    the search-tree order invariant. */
module Trees {
  import opened Sequences

  /** A node holds one item and owns at most one left and one right child;
      `Leaf` is the absent child. */
  datatype Tree = Leaf | Node(left: Tree, data: int, right: Tree)

  /** A node with no children. */
  function Single(x: int): Tree {
    Node(Leaf, x, Leaf)
  }

  /** Left subtree, node, right subtree. The length of this list is the node count. */
  function Inorder(t: Tree): seq<int> {
    match t
    case Leaf => []
    case Node(l, v, r) => Inorder(l) + [v] + Inorder(r)
  }

  /** Node, left subtree, right subtree: the root comes first. */
  function Preorder(t: Tree): (r: seq<int>)
    ensures r == [] <==> t.Leaf?
    ensures t.Node? ==> r[0] == t.data
  {
    match t
    case Leaf => []
    case Node(l, v, rt) => [v] + Preorder(l) + Preorder(rt)
  }

  /** Left subtree, right subtree, node: the root comes last. */
  function Postorder(t: Tree): (r: seq<int>)
    ensures r == [] <==> t.Leaf?
    ensures t.Node? ==> r[|r| - 1] == t.data
  {
    match t
    case Leaf => []
    case Node(l, v, rt) => Postorder(l) + Postorder(rt) + [v]
  }

  /** The preorder list holds the same items as the in-order list, so it is as long. */
  lemma {:induction false} PreorderPermutation(t: Tree)
    ensures multiset(Preorder(t)) == multiset(Inorder(t))
    ensures |Preorder(t)| == |Inorder(t)|
  {
    if t.Node? {
      PreorderPermutation(t.left);
      PreorderPermutation(t.right);
    }
  }

  /** The postorder list holds the same items as the in-order list, so it is as long. */
  lemma {:induction false} PostorderPermutation(t: Tree)
    ensures multiset(Postorder(t)) == multiset(Inorder(t))
    ensures |Postorder(t)| == |Inorder(t)|
  {
    if t.Node? {
      PostorderPermutation(t.left);
      PostorderPermutation(t.right);
    }
  }

  function Max(a: int, b: int): int {
    if a < b then b else a
  }

  /** The empty tree has height -1 and a node one more than its taller child,
      so a tree's height is -1 exactly when it is empty. */
  function Height(t: Tree): (h: int)
    ensures -1 <= h
    ensures h == -1 <==> t.Leaf?
  {
    match t
    case Leaf => -1
    case Node(l, _, r) => 1 + Max(Height(l), Height(r))
  }

  /** A tree is never as high as it has nodes: each level holds at least one. */
  lemma {:induction false} HeightBelowCount(t: Tree)
    ensures Height(t) < |Inorder(t)|
  {
    if t.Node? {
      HeightBelowCount(t.left);
      HeightBelowCount(t.right);
    }
  }

  /** A step left or right from a node. */
  datatype Dir = GoLeft | GoRight

  /** The subtree reached by following `p` from the root (empty once the path leaves the tree). */
  function SubtreeAt(t: Tree, p: seq<Dir>): Tree
    decreases |p|
  {
    if |p| == 0 then t
    else match t
      case Leaf => Leaf
      case Node(l, _, r) => SubtreeAt(if p[0] == GoLeft then l else r, p[1..])
  }

  /** The path to a deepest node: it has as many steps as the tree's height. */
  function DeepestPath(t: Tree): (p: seq<Dir>)
    requires t.Node?
    ensures SubtreeAt(t, p).Node? && |p| == Height(t)
  {
    var Node(l, _, r) := t;
    if l.Leaf? && r.Leaf? then []
    else if Height(l) >= Height(r) then
      var q := DeepestPath(l);
      assert ([GoLeft] + q)[1..] == q;
      [GoLeft] + q
    else
      var q := DeepestPath(r);
      assert ([GoRight] + q)[1..] == q;
      [GoRight] + q
  }

  /** No node lies deeper than the height: together with `DeepestPath`, the
      height is the number of steps to the deepest node. */
  lemma {:induction false} NoNodeBelowHeight(t: Tree, p: seq<Dir>)
    requires SubtreeAt(t, p).Node?
    ensures |p| <= Height(t)
    decreases |p|
  {
    if |p| > 0 {
      var Node(l, _, r) := t;
      NoNodeBelowHeight(if p[0] == GoLeft then l else r, p[1..]);
    }
  }

  /** The order invariant: everything left of a node is strictly smaller than
      its item and everything right of it strictly greater. */
  ghost predicate IsBst(t: Tree) {
    match t
    case Leaf => true
    case Node(l, v, r) => IsBst(l) && IsBst(r) && AllBelow(Inorder(l), v) && AllAbove(Inorder(r), v)
  }

  /** The order invariant holds exactly when the in-order list is strictly ascending. */
  lemma {:induction false} BstIffIncreasing(t: Tree)
    ensures IsBst(t) <==> StrictlyIncreasing(Inorder(t))
  {
    match t
    case Leaf =>
    case Node(l, v, r) =>
      BstIffIncreasing(l);
      BstIffIncreasing(r);
      IncreasingConcat(Inorder(l), v, Inorder(r));
  }

  /** Two trees with nodes in the same places, whatever their items. */
  ghost predicate SameShape(t: Tree, u: Tree) {
    match t
    case Leaf => u.Leaf?
    case Node(l, _, r) => u.Node? && SameShape(l, u.left) && SameShape(r, u.right)
  }

  lemma {:induction false} SameShapeReflexive(t: Tree)
    ensures SameShape(t, t)
  {
    if t.Node? {
      SameShapeReflexive(t.left);
      SameShapeReflexive(t.right);
    }
  }

  /** 2 to the power `k`. */
  function Pow2(k: nat): (r: nat)
    ensures r >= 1
  {
    if k == 0 then 1 else 2 * Pow2(k - 1)
  }

  /** The integer part of the base-2 logarithm of `n`. */
  function Log2Floor(n: nat): (r: nat)
    requires n >= 1
    ensures Pow2(r) <= n < Pow2(r + 1)
  {
    if n == 1 then 0 else 1 + Log2Floor(n / 2)
  }

  /** A tree of height `h` has at most 2^(h+1) - 1 nodes. */
  lemma {:induction false} NodeCountBound(t: Tree)
    ensures |Inorder(t)| < Pow2(Height(t) + 1)
  {
    if t.Node? {
      var l, r := t.left, t.right;
      NodeCountBound(l);
      NodeCountBound(r);
      var hl, hr := Height(l), Height(r);
      var h: nat := Height(t);
      assert h == 1 + Max(hl, hr);
      PowMonotone(hl + 1, h);
      PowMonotone(hr + 1, h);
      var n, nl, nr := |Inorder(t)|, |Inorder(l)|, |Inorder(r)|;
      assert n == nl + 1 + nr;
      assert Pow2(h + 1) == 2 * Pow2(h);
      CountStep(nl, nr, Pow2(hl + 1), Pow2(hr + 1), Pow2(h), Pow2(h + 1));
    }
  }

  /** Two halves each below `p` plus one node stay below `2p`. */
  lemma {:induction false} CountStep(nl: int, nr: int, pl: int, pr: int, p: int, p2: int)
    requires nl < pl <= p && nr < pr <= p && p2 == 2 * p
    ensures nl + 1 + nr < p2
  {
  }

  lemma {:induction false} PowMonotone(a: nat, b: nat)
    requires a <= b
    ensures Pow2(a) <= Pow2(b)
  {
    if a < b {
      PowMonotone(a, b - 1);
    }
  }

  /** No tree with `n >= 1` nodes is lower than floor(log2 n). */
  lemma {:induction false} HeightLowerBound(t: Tree)
    requires |Inorder(t)| >= 1
    ensures Height(t) >= Log2Floor(|Inorder(t)|)
  {
    var n := |Inorder(t)|;
    NodeCountBound(t);
    if Log2Floor(n) > Height(t) {
      PowMonotone(Height(t) + 1, Log2Floor(n));
    }
  }
}
