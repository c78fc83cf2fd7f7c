/** Worked cases: small trees built by a sequence of calls, and what the
    operations give on them. */
module Scenarios {
  import opened Wrappers
  import opened Trees
  import opened LinkedBst
  import opened Traversal
  import opened Rebalancing
  import opened Queries

  /** Adds the items one after another, first to last. */
  function AddAll(s: Bst, items: seq<int>): (r: Bst)
    requires Valid(s)
    ensures Valid(r) && r.size == s.size + |items|
    ensures multiset(Inorder(r.root)) == multiset(Inorder(s.root)) + multiset(items)
    decreases |items|
  {
    if |items| == 0 then s
    else
      assert items == [items[0]] + items[1..];
      AddAll(Add(s, items[0]), items[1..])
  }

  /** The empty collection. */
  function Empty(): (r: Bst)
    ensures Valid(r) && IsEmpty(r)
  {
    Bst(Leaf, 0)
  }

  /** One call of `AddAll`: the first item goes in at the descent's leaf. */
  lemma {:induction false} AddThenRest(s: Bst, items: seq<int>, next: Bst)
    requires Valid(s) && |items| > 0 && next == Bst(Insert(s.root, items[0]), s.size + 1)
    ensures AddAll(s, items) == AddAll(next, items[1..])
  {
    AddIsInsert(s, items[0]);
  }

  /** Adding 5, 3, 8, 1, 4: 5 at the root, 3 and 8 below it, 1 and 4 below 3;
      the three recursive traversals and the level order read it as below.
      The example enters as a parameter fixed by the precondition, so the
      verifier does not unfold the literal until the proof asks it to. */
  lemma {:induction false} FiveItems(items: seq<int>)
    requires items == [5, 3, 8, 1, 4]
    ensures var s := AddAll(Empty(), items);
      && s.root == Node(Node(Single(1), 3, Single(4)), 5, Single(8))
      && Inorder(s.root) == [1, 3, 4, 5, 8]
      && Preorder(s.root) == [5, 3, 1, 4, 8]
      && Postorder(s.root) == [1, 4, 3, 8, 5]
      && Levelorder(s) == [5, 3, 8, 1, 4]
  {
    var t := Node(Node(Single(1), 3, Single(4)), 5, Single(8));
    BuildFive(t);
    var s := AddAll(Empty(), items);
    assert s == Bst(t, 5);
    TraversalsOfFive(t);
    LevelsOfShape(t, 1, 3, 4, 5, 8);
  }

  /** The example enters as a parameter fixed by the precondition, so the
      verifier does not unfold the literal until the proof asks it to. */
  lemma {:induction false} TraversalsOfFive(t: Tree)
    requires t == Node(Node(Single(1), 3, Single(4)), 5, Single(8))
    ensures Inorder(t) == [1, 3, 4, 5, 8]
    ensures Preorder(t) == [5, 3, 1, 4, 8]
    ensures Postorder(t) == [1, 4, 3, 8, 5]
  {
    TraversalsOfShape(t, 1, 3, 4, 5, 8);
  }

  /** The traversals of a root with a two-leaf left child and a leaf right child. */
  lemma {:induction false} TraversalsOfShape(t: Tree, a: int, b: int, c: int, d: int, e: int)
    requires t == Node(Node(Single(a), b, Single(c)), d, Single(e))
    ensures Inorder(t) == [a, b, c, d, e]
    ensures Preorder(t) == [d, b, a, c, e]
    ensures Postorder(t) == [a, c, b, e, d]
  {
    var l := Node(Single(a), b, Single(c));
    SingleOrders(a);
    SingleOrders(c);
    SingleOrders(e);
    assert Inorder(l) == [a, b, c];
    assert Preorder(l) == [b, a, c];
    assert Postorder(l) == [a, c, b];
  }

  lemma {:induction false} SingleOrders(x: int)
    ensures Inorder(Single(x)) == [x] && Preorder(Single(x)) == [x] && Postorder(Single(x)) == [x]
  {
    assert Inorder(Single(x)) == [] + [x] + [];
    assert Preorder(Single(x)) == [x] + [] + [];
    assert Postorder(Single(x)) == [] + [] + [x];
  }

  /** The example enters as a parameter fixed by the precondition, so the
      verifier does not unfold the literal until the proof asks it to. */
  lemma {:induction false} BuildFive(t: Tree)
    requires t == Node(Node(Single(1), 3, Single(4)), 5, Single(8))
    ensures AddAll(Empty(), [5, 3, 8, 1, 4]) == Bst(t, 5)
  {
    var s1 := Bst(Single(5), 1);
    var s2 := Bst(Node(Single(3), 5, Leaf), 2);
    var s3 := Bst(Node(Single(3), 5, Single(8)), 3);
    var s4 := Bst(Node(Node(Single(1), 3, Leaf), 5, Single(8)), 4);
    AddThenRest(Empty(), [5, 3, 8, 1, 4], s1);
    AddThenRest(s1, [3, 8, 1, 4], s2);
    AddThenRest(s2, [8, 1, 4], s3);
    AddThenRest(s3, [1, 4], s4);
    AddThenRest(s4, [4], Bst(t, 5));
    assert [5, 3, 8, 1, 4][1..] == [3, 8, 1, 4];
    assert [3, 8, 1, 4][1..] == [8, 1, 4];
    assert [8, 1, 4][1..] == [1, 4];
    assert [1, 4][1..] == [4];
    assert [4][1..] == [];
  }

  /** The level order of a root with a two-leaf left child and a leaf right child. */
  lemma {:induction false} LevelsOfShape(t: Tree, a: int, b: int, c: int, d: int, e: int)
    requires t == Node(Node(Single(a), b, Single(c)), d, Single(e))
    ensures AllNodes([t]) && LevelsOf([t]) == [d, b, e, a, c]
  {
    var second := [t.left, t.right];
    assert Kids([]) == [] && Roots([]) == [];
    assert [t][1..] == [];
    assert AllNodes([t]);
    assert Kids([t]) == second && Roots([t]) == [d];
    LevelsOfStep([t]);
    SecondLevel(t.left, t.right, a, b, c, e);
  }

  lemma {:induction false} SecondLevel(l: Tree, r: Tree, a: int, b: int, c: int, e: int)
    requires l == Node(Single(a), b, Single(c)) && r == Single(e)
    ensures AllNodes([l, r]) && LevelsOf([l, r]) == [b, e, a, c]
  {
    var second := [l, r];
    assert Kids([]) == [] && Roots([]) == [];
    assert second[1..] == [r] && [r][1..] == [];
    assert AllNodes(second);
    assert Kids([r]) == [] && Roots([r]) == [e];
    assert Kids(second) == [l.left, l.right] && Roots(second) == [b, e];
    LevelsOfStep(second);
    LeafLevel(l.left, l.right);
  }

  lemma {:induction false} LeafLevel(x: Tree, y: Tree)
    requires x.Node? && x.left.Leaf? && x.right.Leaf? && y.Node? && y.left.Leaf? && y.right.Leaf?
    ensures AllNodes([x, y]) && LevelsOf([x, y]) == [x.data, y.data]
  {
    var f := [x, y];
    assert Kids([]) == [] && Roots([]) == [] && LevelsOf([]) == [];
    assert f[1..] == [y] && [y][1..] == [];
    assert AllNodes(f);
    assert Kids([y]) == [] && Roots([y]) == [y.data];
    assert Kids(f) == [] && Roots(f) == [x.data, y.data];
    LevelsOfStep(f);
  }

  /** One level of `LevelsOf`. */
  lemma {:induction false} LevelsOfStep(f: seq<Tree>)
    requires AllNodes(f) && |f| > 0
    ensures AllNodes(Kids(f)) && LevelsOf(f) == Roots(f) + LevelsOf(Kids(f))
  {
    RootsAndKids(f);
  }

  /** Deleting 5 from that tree: the root has two children, so it takes the
      greatest item of its left subtree, 4, and keeps its place. */
  lemma {:induction false} RemoveRootOfFive()
    ensures var s := Bst(Node(Node(Single(1), 3, Single(4)), 5, Single(8)), 5);
      var (s', out) := Remove(s, 5);
      && out == Success(5)
      && s'.root == Node(Node(Single(1), 3, Leaf), 4, Single(8))
      && s'.size == 4 && Valid(s') && IsBst(s'.root)
  {
    var t := Node(Node(Single(1), 3, Single(4)), 5, Single(8));
    assert RemoveMax(t.left) == (4, Node(Single(1), 3, Leaf));
    var r := Node(Node(Single(1), 3, Leaf), 4, Single(8));
    assert Inorder(r) == [1, 3, 4, 8];
    BstIffIncreasing(r);
  }

  /** On the tree holding 1, 3, 5 and 7 the neighbour queries give the
      adjacent items, and nothing beyond the ends.
      The example enters as a parameter fixed by the precondition, so the
      verifier does not unfold the literal until the proof asks it to. */
  lemma {:induction false} NeighboursOfOdd(s: Bst)
    requires s == Bst(Node(Single(1), 3, Node(Leaf, 5, Single(7))), 4)
    ensures Successor(s, 5) == Some(7) && Successor(s, 7) == None
    ensures Predecessor(s, 1) == None && Predecessor(s, 5) == Some(3)
  {
    NeighboursOfShape(s, 1, 3, 5, 7);
  }

  lemma {:induction false} NeighboursOfShape(s: Bst, a: int, b: int, c: int, d: int)
    requires s.root == Node(Single(a), b, Node(Leaf, c, Single(d))) && a < b < c < d
    ensures Successor(s, c) == Some(d) && Successor(s, d) == None
    ensures Predecessor(s, a) == None && Predecessor(s, c) == Some(b)
  {
    var xs := Inorder(s.root);
    SingleOrders(a);
    SingleOrders(d);
    assert Inorder(Node(Leaf, c, Single(d))) == [] + [c] + [d];
    assert xs == [a] + [b] + [c, d];
    assert xs == [a, b, c, d];
    BstIffIncreasing(s.root);
    SuccessorOfHeld(s, 2);
    SuccessorOfHeld(s, 3);
    PredecessorOfHeld(s, 0);
    PredecessorOfHeld(s, 2);
  }

  /** An empty collection: height -1, every query absent, `remove` fails. */
  lemma {:induction false} EmptyCases(x: int)
    ensures var s := Empty();
      && Height(s.root) == -1
      && Find(s.root, x) == None && Successor(s, x) == None && Predecessor(s, x) == None
      && Remove(s, x) == (s, Failure(KeyError))
  {
  }

  /** The integers from `lo` up to but not including `hi`. */
  function Range(lo: int, hi: int): (r: seq<int>)
    requires lo <= hi
    ensures |r| == hi - lo && forall i | 0 <= i < |r| :: r[i] == lo + i
  {
    seq(hi - lo, i => lo + i)
  }

  /** The tree that adding `lo`, `lo + 1`, ..., `hi - 1` in that order grows:
      every node has only a right child. */
  function Chain(lo: int, hi: int): Tree
    decreases hi - lo
  {
    if hi <= lo then Leaf else Node(Leaf, lo, Chain(lo + 1, hi))
  }

  lemma {:induction false} RangeSplit(lo: int, hi: int)
    requires lo < hi
    ensures Range(lo, hi) == [lo] + Range(lo + 1, hi)
  {
    assert Range(lo, hi) == [lo] + Range(lo + 1, hi);
  }

  /** A chain lists its range in order, is a search tree, and has height one
      less than its number of items. */
  lemma {:induction false} ChainFacts(lo: int, hi: int)
    requires lo <= hi
    ensures Inorder(Chain(lo, hi)) == Range(lo, hi)
    ensures Height(Chain(lo, hi)) == hi - lo - 1
    ensures IsBst(Chain(lo, hi))
    decreases hi - lo
  {
    if lo < hi {
      ChainFacts(lo + 1, hi);
      RangeSplit(lo, hi);
      assert Inorder(Chain(lo, hi)) == [] + [lo] + Range(lo + 1, hi);
    }
    BstIffIncreasing(Chain(lo, hi));
  }

  /** Adding the item just past the end of a chain extends the chain. */
  lemma {:induction false} InsertAtChainEnd(lo: int, hi: int)
    requires lo <= hi
    ensures Insert(Chain(lo, hi), hi) == Chain(lo, hi + 1)
    decreases hi - lo
  {
    if lo < hi {
      InsertAtChainEnd(lo + 1, hi);
      assert Chain(lo, hi) == Node(Leaf, lo, Chain(lo + 1, hi));
      assert Chain(lo, hi + 1) == Node(Leaf, lo, Chain(lo + 1, hi + 1));
    } else {
      assert Chain(lo + 1, hi + 1) == Leaf;
    }
  }

  /** The consistent state whose tree is the chain of `lo` to `hi`. */
  function ChainState(lo: int, hi: int): (r: Bst)
    requires lo <= hi
    ensures Valid(r) && r.root == Chain(lo, hi) && r.size == hi - lo
  {
    ChainFacts(lo, hi);
    Bst(Chain(lo, hi), hi - lo)
  }

  /** Adding the rest of the range to a chain holding its first items
      completes the chain. */
  lemma {:induction false} SortedAddsGrowChain(lo: int, mid: int, hi: int)
    requires lo <= mid <= hi
    ensures AddAll(ChainState(lo, mid), Range(mid, hi)) == ChainState(lo, hi)
    decreases hi - mid
  {
    if mid < hi {
      ChainGrowsByOne(lo, mid, hi);
      SortedAddsGrowChain(lo, mid + 1, hi);
    } else {
      NothingLeftToAdd(lo, mid);
    }
  }

  /** Once the chain covers the whole range there is nothing left to add. */
  lemma {:induction false} NothingLeftToAdd(lo: int, hi: int)
    requires lo <= hi
    ensures AddAll(ChainState(lo, hi), Range(hi, hi)) == ChainState(lo, hi)
  {
    assert Range(hi, hi) == [];
  }

  lemma {:induction false} ChainGrowsByOne(lo: int, mid: int, hi: int)
    requires lo <= mid < hi
    ensures AddAll(ChainState(lo, mid), Range(mid, hi))
      == AddAll(ChainState(lo, mid + 1), Range(mid + 1, hi))
  {
    var rest := Range(mid, hi);
    RangeSplit(mid, hi);
    assert rest[0] == mid && rest[1..] == Range(mid + 1, hi);
    InsertAtChainEnd(lo, mid);
    AddThenRest(ChainState(lo, mid), rest, ChainState(lo, mid + 1));
  }

  /** Adding the items of `lo` to `hi` in increasing order to an empty
      collection grows a chain of height one less than the number of items;
      rebalancing it gives height `floor(log2 n)`, the least height any tree
      of `n` items can have. */
  lemma {:induction false} SortedAddsThenRebalance(lo: int, hi: int)
    requires lo < hi
    ensures var s := AddAll(Empty(), Range(lo, hi));
      && s.root == Chain(lo, hi)
      && Height(s.root) == hi - lo - 1
      && Height(Rebalance(s).0.root) == Log2Floor(hi - lo)
  {
    SortedAddsBuildChain(lo, hi);
    ChainFacts(lo, hi);
    RebalanceChain(lo, hi);
  }

  lemma {:induction false} RebalanceChain(lo: int, hi: int)
    requires lo < hi
    ensures Height(Rebalance(ChainState(lo, hi)).0.root) == Log2Floor(hi - lo)
  {
    ChainFacts(lo, hi);
    var c := Chain(lo, hi);
    RebalanceHeight(ChainState(lo, hi), c);
  }

  lemma {:induction false} SortedAddsBuildChain(lo: int, hi: int)
    requires lo <= hi
    ensures AddAll(Empty(), Range(lo, hi)) == ChainState(lo, hi)
  {
    SortedAddsGrowChain(lo, lo, hi);
    assert ChainState(lo, lo) == Empty();
  }

  /** Seven increasing items: a chain of height 6, rebalanced to height 2.
      The example enters as a parameter fixed by the precondition, so the
      verifier does not unfold the literal until the proof asks it to. */
  lemma {:induction false} RebalanceChainOfSeven(items: seq<int>)
    requires items == [1, 2, 3, 4, 5, 6, 7]
    ensures var s := AddAll(Empty(), items);
      Height(s.root) == 6 && Height(Rebalance(s).0.root) == 2
  {
    assert items == Range(1, 8);
    SortedAddsThenRebalance(1, 8);
    SevenLog();
  }

  lemma {:induction false} SevenLog()
    ensures Log2Floor(7) == 2
  {
    assert Log2Floor(1) == 0;
    assert Log2Floor(3) == 1;
  }
}
