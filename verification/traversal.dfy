/** The two traversals that keep explicit work lists: the stack-driven
    iteration and the queue-driven level order. */
module Traversal {
  import opened Sequences
  import opened Trees
  import opened LinkedBst

  /** Every tree on a work list is a node: only present children are ever pushed or queued. */
  ghost predicate AllNodes(f: seq<Tree>) {
    forall i | 0 <= i < |f| :: f[i].Node?
  }

  lemma {:induction false} AllNodesConcat(a: seq<Tree>, b: seq<Tree>)
    requires AllNodes(a) && AllNodes(b)
    ensures AllNodes(a + b)
  {
    assert forall i | 0 <= i < |a + b| :: (a + b)[i] == if i < |a| then a[i] else b[i - |a|];
  }

  /** The items held by the trees of a work list, as a multiset. */
  function Contents(f: seq<Tree>): multiset<int> {
    if |f| == 0 then multiset{} else multiset(Inorder(f[0])) + Contents(f[1..])
  }

  lemma {:induction false} ContentsConcat(a: seq<Tree>, b: seq<Tree>)
    ensures Contents(a + b) == Contents(a) + Contents(b)
    decreases |a|
  {
    if |a| == 0 {
      assert a + b == b;
    } else {
      TailOfConcat(a, b);
      ContentsConcat(a[1..], b);
    }
  }

  /** The children of a node that are present, left before right. */
  function Children(t: Tree): seq<Tree>
    requires t.Node?
  {
    (if t.left.Node? then [t.left] else []) + (if t.right.Node? then [t.right] else [])
  }

  /** A node's present children are nodes and hold everything below it. */
  lemma {:induction false} ChildrenFacts(t: Tree)
    requires t.Node?
    ensures AllNodes(Children(t))
    ensures Contents(Children(t)) == multiset(Inorder(t.left)) + multiset(Inorder(t.right))
  {
    var ls: seq<Tree> := if t.left.Node? then [t.left] else [];
    var rs: seq<Tree> := if t.right.Node? then [t.right] else [];
    OptionalContents(t.left, ls);
    OptionalContents(t.right, rs);
    ContentsConcat(ls, rs);
    AllNodesConcat(ls, rs);
  }

  /** A work list holding one tree if it is a node, none otherwise. */
  lemma {:induction false} OptionalContents(t: Tree, f: seq<Tree>)
    requires f == if t.Node? then [t] else []
    ensures AllNodes(f) && Contents(f) == multiset(Inorder(t))
  {
    if t.Node? {
      assert f[1..] == [];
    }
  }

  // ---------------------------------------------------------------- iteration

  /** What the trees on a stack still have to yield, top (last) tree first, each in preorder. */
  function StackPreorder(stack: seq<Tree>): seq<int> {
    if |stack| == 0 then [] else Preorder(stack[|stack| - 1]) + StackPreorder(stack[..|stack| - 1])
  }

  /** Default iteration: pop a node, yield its item, push its right child and
      then its left child. It yields exactly the preorder list. */
  method Iterate(s: Bst) returns (out: seq<int>)
    requires Valid(s)
    ensures out == Preorder(s.root)
  {
    out := [];
    if !IsEmpty(s) {
      var stack := [s.root];
      StartStack(s.root);
      while |stack| > 0
        invariant AllNodes(stack)
        invariant out + StackPreorder(stack) == Preorder(s.root)
        decreases |Contents(stack)|
      {
        var node := stack[|stack| - 1];
        IterateStep(out, stack);
        stack := PushChildren(stack[..|stack| - 1], node);
        out := out + [node.data];
      }
    }
  }

  /** The stack the loop starts from yields the whole tree. */
  lemma {:induction false} StartStack(t: Tree)
    requires t.Node?
    ensures AllNodes([t]) && StackPreorder([t]) == Preorder(t)
  {
    Push([], t);
    assert [] + [t] == [t];
  }

  /** Push the right child if present, then the left child if present, so the
      left child is popped first and no absent child is ever pushed. */
  function PushChildren(stack: seq<Tree>, node: Tree): (r: seq<Tree>)
    requires node.Node?
    ensures |stack| <= |r| <= |stack| + 2 && r[..|stack|] == stack
    ensures node.left.Node? ==> |r| > |stack| && r[|r| - 1] == node.left
    ensures node.left.Leaf? && node.right.Node? ==> |r| > |stack| && r[|r| - 1] == node.right
    ensures AllNodes(stack) ==> AllNodes(r)
  {
    var withRight := if node.right.Node? then stack + [node.right] else stack;
    if node.left.Node? then withRight + [node.left] else withRight
  }

  /** One round of the loop: popping the top node, yielding its item and
      pushing its children keeps the stack all nodes, keeps what is still to
      be yielded, and shrinks the stack's contents. */
  lemma {:induction false} IterateStep(out: seq<int>, stack: seq<Tree>)
    requires AllNodes(stack) && |stack| > 0
    ensures var node := stack[|stack| - 1];
      var next := PushChildren(stack[..|stack| - 1], node);
      && AllNodes(next)
      && (out + [node.data]) + StackPreorder(next) == out + StackPreorder(stack)
      && |Contents(next)| < |Contents(stack)|
  {
    var node := stack[|stack| - 1];
    var rest := stack[..|stack| - 1];
    Pop(stack);
    var middle := if node.right.Node? then rest + [node.right] else rest;
    PushIfPresent(rest, node.right, middle);
    PushIfPresent(middle, node.left, PushChildren(rest, node));
    YieldStep(out, node, StackPreorder(rest));
  }

  /** Popping the top tree: it comes first in what the stack yields. */
  lemma {:induction false} Pop(stack: seq<Tree>)
    requires |stack| > 0
    ensures var rest := stack[..|stack| - 1];
      && StackPreorder(stack) == Preorder(stack[|stack| - 1]) + StackPreorder(rest)
      && Contents(stack) == Contents(rest) + multiset(Inorder(stack[|stack| - 1]))
      && (AllNodes(stack) ==> AllNodes(rest))
  {
    var rest := stack[..|stack| - 1];
    assert stack == rest + [stack[|stack| - 1]];
    ContentsConcat(rest, [stack[|stack| - 1]]);
    assert [stack[|stack| - 1]][1..] == [];
  }

  /** Pushing a tree puts its preorder in front of what the stack yields. */
  lemma {:induction false} Push(stack: seq<Tree>, t: Tree)
    requires t.Node?
    ensures StackPreorder(stack + [t]) == Preorder(t) + StackPreorder(stack)
    ensures Contents(stack + [t]) == Contents(stack) + multiset(Inorder(t))
    ensures AllNodes(stack) ==> AllNodes(stack + [t])
  {
    assert (stack + [t])[..|stack|] == stack;
    ContentsConcat(stack, [t]);
    assert [t][1..] == [];
  }

  /** Pushing a child only when it is present: the same effect on what the
      stack yields and holds as pushing it unconditionally, since an absent
      child yields and holds nothing. */
  lemma {:induction false} PushIfPresent(stack: seq<Tree>, t: Tree, after: seq<Tree>)
    requires after == if t.Node? then stack + [t] else stack
    ensures StackPreorder(after) == Preorder(t) + StackPreorder(stack)
    ensures Contents(after) == Contents(stack) + multiset(Inorder(t))
    ensures AllNodes(stack) ==> AllNodes(after)
  {
    if t.Node? {
      Push(stack, t);
    } else {
      assert Preorder(t) + StackPreorder(stack) == StackPreorder(stack);
    }
  }

  lemma {:induction false} YieldStep(out: seq<int>, node: Tree, rest: seq<int>)
    requires node.Node?
    ensures (out + [node.data]) + (Preorder(node.left) + (Preorder(node.right) + rest))
      == out + (Preorder(node) + rest)
  {
    var d, a, b := node.data, Preorder(node.left), Preorder(node.right);
    assert Preorder(node) == [d] + a + b;
    Associative(a, b, rest);
    Associative(out, [d], a + b + rest);
    Associative([d], a, b);
    Associative([d], a + b, rest);
  }

  // -------------------------------------------------------------- level order

  /** Breadth-first order over a queue: take the front node, yield its item,
      append its present children. */
  function Bfs(queue: seq<Tree>): (r: seq<int>)
    requires AllNodes(queue)
    ensures |queue| > 0 ==> |r| > 0 && r[0] == queue[0].data
    decreases |Contents(queue)|
  {
    if |queue| == 0 then []
    else
      BfsStep(queue);
      [queue[0].data] + Bfs(queue[1..] + Children(queue[0]))
  }

  /** One dequeue: the queue stays all nodes and loses exactly the front item. */
  lemma {:induction false} BfsStep(queue: seq<Tree>)
    requires AllNodes(queue) && |queue| > 0
    ensures var next := queue[1..] + Children(queue[0]);
      AllNodes(next) && Contents(queue) == multiset{queue[0].data} + Contents(next)
  {
    var node := queue[0];
    ChildrenFacts(node);
    ContentsConcat(queue[1..], Children(node));
    AllNodesConcat(queue[1..], Children(node));
  }

  /** Draining a queue yields every item of the queued trees once. */
  lemma {:induction false} BfsPermutation(queue: seq<Tree>)
    requires AllNodes(queue)
    ensures multiset(Bfs(queue)) == Contents(queue)
    decreases |Contents(queue)|
  {
    if |queue| > 0 {
      BfsStep(queue);
      BfsPermutation(queue[1..] + Children(queue[0]));
    }
  }

  /** `levelorder`: the queue starts with the root when there is one. The
      result is a permutation of the in-order list, as long as the counter says,
      root first, and is the tree's levels read top to bottom, left to right. */
  function Levelorder(s: Bst): (r: seq<int>)
    ensures multiset(r) == multiset(Inorder(s.root))
    ensures Valid(s) ==> |r| == s.size
    ensures s.root.Node? ==> |r| > 0 && r[0] == s.root.data && r == LevelsOf([s.root])
  {
    if s.root.Node? then
      assert AllNodes([s.root]);
      assert Contents([s.root]) == multiset(Inorder(s.root)) by {
        assert [s.root][1..] == [];
      }
      BfsPermutation([s.root]);
      BfsIsLevels([s.root]);
      var r := Bfs([s.root]);
      assert |r| == |multiset(r)|;
      r
    else []
  }

  /** The items of the nodes of a forest, left to right. */
  function Roots(f: seq<Tree>): seq<int> {
    if |f| == 0 then [] else (if f[0].Node? then [f[0].data] else []) + Roots(f[1..])
  }

  /** The present children of the nodes of a forest, left to right: the next level down. */
  function Kids(f: seq<Tree>): seq<Tree> {
    if |f| == 0 then [] else (if f[0].Node? then Children(f[0]) else []) + Kids(f[1..])
  }

  /** A forest holds its roots and the items one level down, and that level is all nodes. */
  lemma {:induction false} RootsAndKids(f: seq<Tree>)
    ensures AllNodes(Kids(f))
    ensures Contents(f) == multiset(Roots(f)) + Contents(Kids(f))
    decreases |f|
  {
    if |f| > 0 {
      RootsAndKids(f[1..]);
      RootsAndKidsStep(f);
    }
  }

  lemma {:induction false} RootsAndKidsStep(f: seq<Tree>)
    requires |f| > 0 && AllNodes(Kids(f[1..]))
    requires Contents(f[1..]) == multiset(Roots(f[1..])) + Contents(Kids(f[1..]))
    ensures AllNodes(Kids(f))
    ensures Contents(f) == multiset(Roots(f)) + Contents(Kids(f))
  {
    var k: seq<Tree> := if f[0].Node? then Children(f[0]) else [];
    var top: seq<int> := if f[0].Node? then [f[0].data] else [];
    var rest := f[1..];
    FirstTreeSplit(f[0]);
    assert Kids(f) == k + Kids(rest);
    ContentsConcat(k, Kids(rest));
    AllNodesConcat(k, Kids(rest));
    assert Roots(f) == top + Roots(rest);
    assert multiset(Roots(f)) == multiset(top) + multiset(Roots(rest));
    assert Contents(f) == multiset(Inorder(f[0])) + Contents(rest);
  }

  /** One tree of a forest: its root, if any, and its present children. */
  lemma {:induction false} FirstTreeSplit(t: Tree)
    ensures var k: seq<Tree> := if t.Node? then Children(t) else [];
      var top: seq<int> := if t.Node? then [t.data] else [];
      AllNodes(k) && multiset(Inorder(t)) == multiset(top) + Contents(k)
  {
    if t.Node? {
      ChildrenFacts(t);
    } else {
      assert Contents([]) == multiset{};
    }
  }


  /** Level by level: the roots of a forest, then the levels of their children. */
  function LevelsOf(f: seq<Tree>): seq<int>
    requires AllNodes(f)
    decreases |Contents(f)|
  {
    if |f| == 0 then []
    else
      RootsAndKids(f);
      assert |Roots(f)| > 0;
      Roots(f) + LevelsOf(Kids(f))
  }

  /** Draining a queue whose front is the forest `f` yields the roots of `f`,
      then drains the rest with the children of `f` appended. */
  lemma {:induction false} BfsSplit(f: seq<Tree>, g: seq<Tree>)
    requires AllNodes(f) && AllNodes(g)
    ensures AllNodes(f + g) && AllNodes(g + Kids(f))
    ensures Bfs(f + g) == Roots(f) + Bfs(g + Kids(f))
    decreases |f|
  {
    AllNodesConcat(f, g);
    RootsAndKids(f);
    AllNodesConcat(g, Kids(f));
    if |f| == 0 {
      assert f + g == g && g + Kids(f) == g;
    } else {
      var c := Children(f[0]);
      ChildrenFacts(f[0]);
      AllNodesConcat(g, c);
      BfsSplit(f[1..], g + c);
      BfsFront(f, g);
    }
  }

  /** One step of `BfsSplit`: the front node of `f` is taken first. */
  lemma {:induction false} BfsFront(f: seq<Tree>, g: seq<Tree>)
    requires AllNodes(f) && AllNodes(g) && |f| > 0
    requires AllNodes(f + g) && AllNodes(g + Kids(f))
    requires AllNodes(g + Children(f[0])) && AllNodes(g + Children(f[0]) + Kids(f[1..]))
    requires Bfs(f[1..] + (g + Children(f[0])))
      == Roots(f[1..]) + Bfs(g + Children(f[0]) + Kids(f[1..]))
    ensures Bfs(f + g) == Roots(f) + Bfs(g + Kids(f))
  {
    var c := Children(f[0]);
    var d := f[0].data;
    assert Bfs(f + g) == [d] + Bfs(f[1..] + (g + c)) by {
      assert (f + g)[0] == f[0];
      TailOfConcat(f, g);
      Associative(f[1..], g, c);
    }
    assert Kids(f) == c + Kids(f[1..]);
    Associative(g, c, Kids(f[1..]));
    assert Roots(f) == [d] + Roots(f[1..]);
    Associative([d], Roots(f[1..]), Bfs(g + Kids(f)));
  }

  /** Breadth-first draining of a queue reads the forest level by level. */
  lemma {:induction false} BfsIsLevels(f: seq<Tree>)
    requires AllNodes(f)
    ensures Bfs(f) == LevelsOf(f)
    decreases |Contents(f)|
  {
    if |f| > 0 {
      BfsSplit(f, []);
      assert f + [] == f && [] + Kids(f) == Kids(f);
      RootsAndKids(f);
      BfsIsLevels(Kids(f));
    }
  }
}
