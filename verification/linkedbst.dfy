/** The tree object: its root and separately kept item count, with lookup,
    insertion, deletion and in-place replacement. */
module LinkedBst {
  import opened Wrappers
  import opened Sequences
  import opened Trees

  /** The error `remove` raises for an item that is not in the tree. */
  datatype Error = KeyError

  /** The collection state: the root and the item counter that drives `isEmpty`. */
  datatype Bst = Bst(root: Tree, size: int)

  /** The counter agrees with the number of reachable nodes. */
  ghost predicate Valid(s: Bst) {
    s.size == |Inorder(s.root)|
  }

  /** Emptiness is decided by the counter, not by the root; on a consistent
      state the two agree. */
  function IsEmpty(s: Bst): (b: bool)
    ensures Valid(s) ==> (b <==> s.root.Leaf?)
  {
    s.size == 0
  }

  /** Lookup by descent: right past smaller items, left past greater ones.
      It only ever answers the item itself, and on a search tree it finds every item present. */
  function Find(t: Tree, x: int): (r: Option<int>)
    ensures r.Some? ==> r.value == x && x in Inorder(t)
    ensures IsBst(t) && x in Inorder(t) ==> r == Some(x)
  {
    match t
    case Leaf => None
    case Node(l, v, rt) =>
      if v < x then Find(rt, x)
      else if v > x then Find(l, x)
      else Some(v)
  }

  /** Membership through lookup. */
  function Contains(s: Bst, x: int): (b: bool)
    ensures b ==> x in Inorder(s.root)
    ensures IsBst(s.root) ==> (b <==> x in Inorder(s.root))
  {
    Find(s.root, x).Some?
  }

  /** The in-order position of the node at which lookup of `x` stops. */
  function DescentIndex(t: Tree, x: int): (i: nat)
    requires Find(t, x).Some?
    ensures i < |Inorder(t)| && Inorder(t)[i] == x
  {
    var Node(l, v, rt) := t;
    if v < x then |Inorder(l)| + 1 + DescentIndex(rt, x)
    else if v > x then DescentIndex(l, x)
    else |Inorder(l)|
  }

  /** Makes the collection empty. */
  function Clear(s: Bst): (r: Bst)
    ensures Valid(r) && IsEmpty(r) && Inorder(r.root) == []
  {
    Bst(Leaf, 0)
  }

  /** Insertion at the leaf the descent reaches, an equal item going right.
      The in-order contents gain exactly the new item, and a search tree stays
      one when the item was absent. */
  function Insert(t: Tree, x: int): (r: Tree)
    ensures multiset(Inorder(r)) == multiset(Inorder(t)) + multiset{x}
  {
    match t
    case Leaf => Single(x)
    case Node(l, v, rt) =>
      if x < v then Node(Insert(l, x), v, rt) else Node(l, v, Insert(rt, x))
  }

  /** Inserting an absent item into a search tree leaves a search tree. */
  lemma {:induction false} InsertKeepsBst(t: Tree, x: int)
    requires IsBst(t) && x !in Inorder(t)
    ensures IsBst(Insert(t, x))
  {
    match t
    case Leaf =>
    case Node(l, v, rt) =>
      if x < v {
        InsertKeepsBst(l, x);
        InsertKeepsBounds(l, x, v, true);
      } else {
        InsertKeepsBst(rt, x);
        InsertKeepsBounds(rt, x, v, false);
      }
  }

  /** Inserting an item on the same side of `v` as a tree's items keeps them all on that side. */
  lemma {:induction false} InsertKeepsBounds(t: Tree, x: int, v: int, below: bool)
    requires if below then AllBelow(Inorder(t), v) && x < v else AllAbove(Inorder(t), v) && v < x
    ensures if below then AllBelow(Inorder(Insert(t, x)), v) else AllAbove(Inorder(Insert(t, x)), v)
  {
    forall y | y in Inorder(Insert(t, x)) ensures if below then y < v else v < y {
      InsertedMember(t, x, y);
    }
  }

  /** An item of the grown tree is an old item or the inserted one. */
  lemma {:induction false} InsertedMember(t: Tree, x: int, y: int)
    requires y in Inorder(Insert(t, x))
    ensures y in Inorder(t) || y == x
  {
    assert y in multiset(Inorder(Insert(t, x)));
  }

  /** `add` with the attachment step corrected to use the side the descent took. */
  function Add(s: Bst, x: int): (r: Bst)
    requires Valid(s)
    ensures Valid(r) && r.size == s.size + 1
    ensures multiset(Inorder(r.root)) == multiset(Inorder(s.root)) + multiset{x}
    ensures IsBst(s.root) && x !in Inorder(s.root) ==> IsBst(r.root)
    ensures IsEmpty(s) ==> r.root == Single(x)
  {
    assert |Inorder(Insert(s.root, x))| == |multiset(Inorder(Insert(s.root, x)))|;
    assert IsBst(s.root) && x !in Inorder(s.root) ==> IsBst(Insert(s.root, x)) by {
      if IsBst(s.root) && x !in Inorder(s.root) {
        InsertKeepsBst(s.root, x);
      }
    }
    if IsEmpty(s) then Bst(Single(x), s.size + 1) else Bst(Insert(s.root, x), s.size + 1)
  }

  /** The descent and attachment of `add` as written: the descent sends an equal
      item right, but the attachment test sends it left of the last node visited,
      replacing whatever left subtree that node had. For an absent item it is the
      corrected insertion. */
  function AttachAsWritten(t: Tree, x: int): (r: Tree)
    requires t.Node?
    ensures x !in Inorder(t) ==> r == Insert(t, x)
  {
    var Node(l, v, rt) := t;
    if x < v then
      if l.Leaf? then Node(Single(x), v, rt) else Node(AttachAsWritten(l, x), v, rt)
    else if rt.Leaf? then
      if v < x then Node(l, v, Single(x)) else Node(Single(x), v, rt)
    else
      Node(l, v, AttachAsWritten(rt, x))
  }

  /** On a consistent state the empty-tree branch of `add` is an insertion
      into the empty tree, so adding is inserting at the descent's leaf. */
  lemma {:induction false} AddIsInsert(s: Bst, x: int)
    requires Valid(s)
    ensures Add(s, x) == Bst(Insert(s.root, x), s.size + 1)
  {
    if IsEmpty(s) {
      assert s.root == Leaf;
    }
  }

  /** `add` as written; it agrees with the corrected `Add` whenever the item
      is absent. A state the counter calls non-empty must have a root: the
      descent would otherwise leave the last probe unbound. */
  function AddAsWritten(s: Bst, x: int): (r: Bst)
    requires IsEmpty(s) || s.root.Node?
    ensures r.root.Node? && r.size == s.size + 1
    ensures Valid(s) && x !in Inorder(s.root) ==> r == Add(s, x)
  {
    if IsEmpty(s) then Bst(Single(x), s.size + 1) else Bst(AttachAsWritten(s.root, x), s.size + 1)
  }

  /** Adding 5, then 3, then 5 again: the last call's descent goes right from
      the root, but the attachment test sends the new node left of the root,
      where it replaces the node 3. The counter says three items while two
      remain, and 3 is lost. */
  lemma {:induction false} AddAsWrittenLosesSubtree()
    ensures var s := AddAsWritten(AddAsWritten(Bst(Leaf, 0), 5), 3);
      && s == Bst(Node(Single(3), 5, Leaf), 2)
      && Valid(s) && IsBst(s.root)
      && AddAsWritten(s, 5) == Bst(Node(Single(5), 5, Leaf), 3)
      && !Valid(AddAsWritten(s, 5)) && 3 !in Inorder(AddAsWritten(s, 5).root)
  {
    var s := BuildFiveThree();
    var r := AddAsWritten(s, 5);
    assert r == Bst(Node(Single(5), 5, Leaf), 3);
    assert Inorder(Single(5)) == [5];
    assert Inorder(r.root) == [5, 5];
  }

  /** Adding 5 and then 3 as written: 3 goes left of the root. */
  lemma {:induction false} BuildFiveThree() returns (s: Bst)
    ensures s == AddAsWritten(AddAsWritten(Bst(Leaf, 0), 5), 3)
    ensures s == Bst(Node(Single(3), 5, Leaf), 2) && Valid(s) && IsBst(s.root)
  {
    var s1 := AddAsWritten(Bst(Leaf, 0), 5);
    assert s1 == Bst(Single(5), 1);
    s := AddAsWritten(s1, 3);
    assert s == Bst(Node(Single(3), 5, Leaf), 2);
    assert Inorder(Single(3)) == [3];
    assert Inorder(s.root) == [3, 5];
    BstIffIncreasing(s.root);
  }

  /** Removes the rightmost node, returning its item: the in-order list loses its last element. */
  function RemoveMax(t: Tree): (r: (int, Tree))
    requires t.Node?
    ensures Inorder(t) == Inorder(r.1) + [r.0]
  {
    var Node(l, v, rt) := t;
    if rt.Leaf? then (v, l)
    else
      var (m, rt') := RemoveMax(rt);
      (m, Node(l, v, rt'))
  }

  /** The two-children case: the node stays where it is, its item becomes the
      greatest item of its left subtree, and that item's node is spliced out. */
  function LiftMaxInLeftSubtreeToTop(t: Tree): (r: Tree)
    requires t.Node? && t.left.Node?
    ensures r.Node? && r.right == t.right
    ensures Inorder(r.left) + [r.data] == Inorder(t.left)
    ensures Inorder(r) == Inorder(t.left) + Inorder(t.right)
    ensures IsBst(t) ==> forall y | y in Inorder(t.left) :: y <= r.data
  {
    var (m, l') := RemoveMax(t.left);
    BstIffIncreasing(t.left);
    LastIsMaximum(Inorder(t.left));
    Node(l', m, t.right)
  }

  /** Removes the item at the top of `t`: lift the left maximum when both
      children exist, otherwise splice in the only child (or nothing). */
  function DeleteNode(t: Tree): (r: Tree)
    requires t.Node?
    ensures Inorder(r) == Inorder(t.left) + Inorder(t.right)
    ensures t.left.Node? && t.right.Node? ==>
      r.Node? && r.right == t.right && Inorder(r.left) + [r.data] == Inorder(t.left)
    ensures t.left.Leaf? ==> r == t.right
    ensures t.left.Node? && t.right.Leaf? ==> r == t.left
  {
    if t.left.Node? && t.right.Node? then LiftMaxInLeftSubtreeToTop(t)
    else if t.left.Leaf? then t.right
    else t.left
  }

  /** Deletion below the root: descend as lookup does and delete the node
      found. Exactly one position of the in-order list disappears, the one
      lookup stops at; nothing changes when lookup fails. */
  function RemoveFrom(t: Tree, x: int): (r: Tree)
    ensures Find(t, x).None? ==> r == t
    ensures Find(t, x).Some? ==> Inorder(r) == Delete(Inorder(t), DescentIndex(t, x))
  {
    match t
    case Leaf => Leaf
    case Node(l, v, rt) =>
      if v == x then
        DeleteAtTop(l, v, rt);
        DeleteNode(t)
      else if v > x then
        DeleteOnLeft(l, v, rt, x);
        Node(RemoveFrom(l, x), v, rt)
      else
        DeleteOnRight(l, v, rt, x);
        Node(l, v, RemoveFrom(rt, x))
  }

  lemma {:induction false} DeleteAtTop(l: Tree, v: int, rt: Tree)
    ensures Delete(Inorder(Node(l, v, rt)), |Inorder(l)|) == Inorder(l) + Inorder(rt)
  {
    DeleteInSuffix(Inorder(l), [v] + Inorder(rt), 0);
    assert Inorder(Node(l, v, rt)) == Inorder(l) + ([v] + Inorder(rt));
    assert Delete([v] + Inorder(rt), 0) == Inorder(rt);
  }

  lemma {:induction false} DeleteOnLeft(l: Tree, v: int, rt: Tree, x: int)
    requires x < v
    ensures Find(l, x).Some? ==>
      && Find(Node(l, v, rt), x).Some?
      && Delete(Inorder(Node(l, v, rt)), DescentIndex(Node(l, v, rt), x))
        == Delete(Inorder(l), DescentIndex(l, x)) + [v] + Inorder(rt)
  {
    if Find(l, x).Some? {
      assert Inorder(Node(l, v, rt)) == Inorder(l) + ([v] + Inorder(rt));
      DeleteInPrefix(Inorder(l), [v] + Inorder(rt), DescentIndex(l, x));
    }
  }

  lemma {:induction false} DeleteOnRight(l: Tree, v: int, rt: Tree, x: int)
    requires v < x
    ensures Find(rt, x).Some? ==>
      && Find(Node(l, v, rt), x).Some?
      && Delete(Inorder(Node(l, v, rt)), DescentIndex(Node(l, v, rt), x))
        == Inorder(l) + [v] + Delete(Inorder(rt), DescentIndex(rt, x))
  {
    if Find(rt, x).Some? {
      DeleteInSuffix(Inorder(l) + [v], Inorder(rt), DescentIndex(rt, x));
    }
  }

  /** `remove`: KeyError and no change for an item lookup does not find;
      otherwise the item is returned, one in-order position disappears, the
      counter drops by one and the root is empty exactly when the counter is zero. */
  function Remove(s: Bst, x: int): (r: (Bst, Result<int, Error>))
    requires Valid(s)
    ensures !Contains(s, x) <==> r.1 == Failure(KeyError)
    ensures !Contains(s, x) ==> r.0 == s
    ensures Contains(s, x) ==>
      && r.1 == Success(x)
      && Valid(r.0)
      && r.0.size == s.size - 1
      && (r.0.root.Leaf? <==> r.0.size == 0)
      && Inorder(r.0.root) == Delete(Inorder(s.root), DescentIndex(s.root, x))
  {
    if !Contains(s, x) then
      (s, Failure(KeyError))
    else
      var size := s.size - 1;
      (Bst(if size == 0 then Leaf else RemoveFrom(s.root, x), size), Success(x))
  }

  /** `remove` on any state, including one the overwrite in `add` leaves
      behind. Besides KeyError it has the early `return None` for a counter of
      zero. Otherwise the located node goes, the counter drops by one, and the
      root is reset from the counter alone: cleared at zero, else kept. On a
      consistent state it is `Remove`. */
  function RemoveAsWritten(s: Bst, x: int): (r: (Bst, Result<Option<int>, Error>))
    ensures !Contains(s, x) <==> r.1 == Failure(KeyError)
    ensures Contains(s, x) && IsEmpty(s) ==> r == (s, Success(None))
    ensures Contains(s, x) && !IsEmpty(s) ==>
      && r.1 == Success(Some(x))
      && r.0.size == s.size - 1
      && (r.0.size == 0 ==> r.0.root.Leaf?)
      && (r.0.size != 0 ==> Inorder(r.0.root) == Delete(Inorder(s.root), DescentIndex(s.root, x)))
    ensures Valid(s) ==> r.0 == Remove(s, x).0
  {
    if !Contains(s, x) then
      (s, Failure(KeyError))
    else if IsEmpty(s) then
      (s, Success(None))
    else
      var size := s.size - 1;
      (Bst(if size == 0 then Leaf else RemoveFrom(s.root, x), size), Success(Some(x)))
  }

  /** After `add(5)`, `add(3)`, `add(5)` as written the counter is 3 over the
      two nodes 5 and 5. Removing 5 twice takes both nodes while the counter
      only drops to 1, so the state has a positive counter and no root. The
      program's next `add` finds no probe to attach to: `AddAsWritten` cannot
      be applied to that state. */
  lemma {:induction false} RemovalsLeaveNoRoot()
    ensures var s := AddAsWritten(AddAsWritten(AddAsWritten(Bst(Leaf, 0), 5), 3), 5);
      var t := RemoveAsWritten(RemoveAsWritten(s, 5).0, 5).0;
      && t == Bst(Leaf, 1)
      && !(IsEmpty(t) || t.root.Node?)
  {
    var s := OverwrittenState();
    var u := RemoveAsWritten(s, 5).0;
    assert Find(s.root, 5) == Some(5);
    assert RemoveFrom(s.root, 5) == Single(5);
    assert u == Bst(Single(5), 2);
    assert Find(u.root, 5) == Some(5);
    assert RemoveFrom(u.root, 5) == Leaf;
  }

  /** The state `add(5)`, `add(3)`, `add(5)` as written leave. */
  lemma {:induction false} OverwrittenState() returns (s: Bst)
    ensures s == AddAsWritten(AddAsWritten(AddAsWritten(Bst(Leaf, 0), 5), 3), 5)
    ensures s == Bst(Node(Single(5), 5, Leaf), 3)
  {
    var t := BuildFiveThree();
    s := AddAsWritten(t, 5);
    assert s == Bst(Node(Single(5), 5, Leaf), 3);
  }

  /** Removing a present item from a search tree leaves a search tree whose
      contents lost exactly that one occurrence, so the item is no longer found. */
  lemma {:induction false} RemovePresent(s: Bst, x: int)
    requires Valid(s) && IsBst(s.root) && x in Inorder(s.root)
    ensures var (s', out) := Remove(s, x);
      && out == Success(x)
      && IsBst(s'.root)
      && multiset(Inorder(s'.root)) == multiset(Inorder(s.root)) - multiset{x}
      && s'.size == s.size - 1
      && Find(s'.root, x).None?
  {
    var s' := Remove(s, x).0;
    var i := DescentIndex(s.root, x);
    BstIffIncreasing(s.root);
    DeleteFromIncreasing(Inorder(s.root), i);
    DeleteContents(Inorder(s.root), i);
    BstIffIncreasing(s'.root);
  }

  /** `replace`: the descent checks equality first. The old item comes back
      exactly when lookup finds it; then only that node's item changes,
      otherwise nothing does. The order invariant is not rechecked. */
  function Replace(t: Tree, x: int, y: int): (r: (Option<int>, Tree))
    ensures r.0 == Find(t, x)
    ensures r.0.None? ==> r.1 == t
    ensures r.0.Some? ==>
      SameShape(t, r.1) && Inorder(r.1) == Inorder(t)[DescentIndex(t, x) := y]
  {
    match t
    case Leaf => (None, Leaf)
    case Node(l, v, rt) =>
      if v == x then
        SameShapeReflexive(l);
        SameShapeReflexive(rt);
        (Some(v), Node(l, y, rt))
      else if v > x then
        UpdateOnLeft(l, v, rt, x, y);
        SameShapeReflexive(rt);
        var (found, l') := Replace(l, x, y);
        (found, Node(l', v, rt))
      else
        UpdateOnRight(l, v, rt, x, y);
        SameShapeReflexive(l);
        var (found, rt') := Replace(rt, x, y);
        (found, Node(l, v, rt'))
  }

  lemma {:induction false} UpdateOnLeft(l: Tree, v: int, rt: Tree, x: int, y: int)
    requires x < v
    ensures Find(l, x).Some? ==>
      && Find(Node(l, v, rt), x).Some?
      && Inorder(Node(l, v, rt))[DescentIndex(Node(l, v, rt), x) := y]
        == Inorder(l)[DescentIndex(l, x) := y] + [v] + Inorder(rt)
  {
    if Find(l, x).Some? {
      assert Inorder(Node(l, v, rt)) == Inorder(l) + ([v] + Inorder(rt));
      UpdateInPrefix(Inorder(l), [v] + Inorder(rt), DescentIndex(l, x), y);
    }
  }

  lemma {:induction false} UpdateOnRight(l: Tree, v: int, rt: Tree, x: int, y: int)
    requires v < x
    ensures Find(rt, x).Some? ==>
      && Find(Node(l, v, rt), x).Some?
      && Inorder(Node(l, v, rt))[DescentIndex(Node(l, v, rt), x) := y]
        == Inorder(l) + [v] + Inorder(rt)[DescentIndex(rt, x) := y]
  {
    if Find(rt, x).Some? {
      UpdateInSuffix(Inorder(l) + [v], Inorder(rt), DescentIndex(rt, x), y);
    }
  }

  /** On a search tree, replacing a held item keeps the order exactly when
      the new item lies strictly between the in-order neighbours of the old. */
  lemma {:induction false} ReplaceKeepsOrder(t: Tree, x: int, y: int)
    requires IsBst(t) && x in Inorder(t)
    ensures Find(t, x).Some?
    ensures var xs, i := Inorder(t), DescentIndex(t, x);
      IsBst(Replace(t, x, y).1) <==>
        (i == 0 || xs[i - 1] < y) && (i + 1 == |xs| || y < xs[i + 1])
  {
    var xs, i := Inorder(t), DescentIndex(t, x);
    var r := Replace(t, x, y).1;
    assert Inorder(r) == xs[i := y];
    BstIffIncreasing(t);
    BstIffIncreasing(r);
    UpdateIncreasing(xs, i, y);
  }

  /** Replacing the root item 2 of the search tree holding 1, 2, 3 by 9
      reports success and leaves a tree that is no longer a search tree.
      The example enters as a parameter fixed by the precondition, so the
      verifier does not unfold the literal until the proof asks it to. */
  lemma {:induction false} ReplaceBreaksOrder(t: Tree)
    requires t == Node(Single(1), 2, Single(3))
    ensures IsBst(t)
    ensures Replace(t, 2, 9) == (Some(2), Node(Single(1), 9, Single(3)))
    ensures !IsBst(Replace(t, 2, 9).1)
  {
    var r := Node(Single(1), 9, Single(3));
    assert Inorder(Single(1)) == [1] && Inorder(Single(3)) == [3];
    assert Inorder(t) == [1, 2, 3];
    assert Inorder(r) == [1, 9, 3];
    BstIffIncreasing(t);
    BstIffIncreasing(r);
    assert Inorder(r)[1] > Inorder(r)[2];
  }

  /** The path lookup of `x` follows; it ends at a node holding `x`. */
  function DescentPath(t: Tree, x: int): (p: seq<Dir>)
    requires Find(t, x).Some?
    ensures SubtreeAt(t, p).Node? && SubtreeAt(t, p).data == x
  {
    var Node(l, v, rt) := t;
    if v < x then
      var p := DescentPath(rt, x);
      assert ([GoRight] + p)[1..] == p;
      [GoRight] + p
    else if v > x then
      var p := DescentPath(l, x);
      assert ([GoLeft] + p)[1..] == p;
      [GoLeft] + p
    else []
  }

  /** What deletion leaves at the place of the located node: with two children
      the node stays, keeps its right subtree and takes the greatest item of its
      left subtree; with fewer it is replaced by its only child, or by nothing. */
  lemma {:induction false} RemoveAtLocatedNode(t: Tree, x: int)
    requires Find(t, x).Some?
    ensures var p := DescentPath(t, x);
      var n := SubtreeAt(t, p);
      var m := SubtreeAt(RemoveFrom(t, x), p);
      && (n.left.Node? && n.right.Node? ==>
            && m.Node? && m.right == n.right
            && Inorder(m.left) + [m.data] == Inorder(n.left)
            && (IsBst(t) ==> forall y | y in Inorder(n.left) :: y <= m.data))
      && (n.left.Leaf? ==> m == n.right)
      && (n.left.Node? && n.right.Leaf? ==> m == n.left)
  {
    var Node(l, v, rt) := t;
    var p := DescentPath(t, x);
    if v < x {
      RemoveAtLocatedNode(rt, x);
      assert p[1..] == DescentPath(rt, x);
    } else if v > x {
      RemoveAtLocatedNode(l, x);
      assert p[1..] == DescentPath(l, x);
    } else {
      var m := RemoveFrom(t, x);
      if l.Node? && rt.Node? && IsBst(t) {
        BstIffIncreasing(l);
        LastIsMaximum(Inorder(l));
        assert m.data == Last(Inorder(l));
      }
    }
  }
}
