/** `rebalance`: empty the tree, then add back the in-order list middle
    first, recursing on the half before the middle and then on the half after
    it. On a search tree this rebuilds the same items as a tree of the least
    possible height. */
module Rebalancing {
  import opened Wrappers
  import opened Sequences
  import opened Trees
  import opened LinkedBst

  /** The tree the rebuild aims at: the item at index `|xs| / 2` at the root,
      the items before it balanced on the left, those after it on the right.
      Read in order it gives back `xs`. */
  function Balanced(xs: seq<int>): (t: Tree)
    ensures Inorder(t) == xs
    decreases |xs|
  {
    if |xs| == 0 then Leaf
    else
      var m := |xs| / 2;
      SplitAround(xs, m);
      Node(Balanced(xs[..m]), xs[m], Balanced(xs[m + 1..]))
  }

  /** The inner `recurse(tree, list_of_items)`: add the middle item, then
      recurse on the items before it, then on the items after it. Every item
      is added once, so the counter grows by their number and stays in step
      with the tree. */
  function InsertMiddles(s: Bst, items: seq<int>): (r: Bst)
    requires Valid(s)
    ensures Valid(r) && r.size == s.size + |items|
    decreases |items|
  {
    if |items| == 0 then s
    else
      var m := |items| / 2;
      var withMiddle := Add(s, items[m]);
      var withBefore := InsertMiddles(withMiddle, items[..m]);
      InsertMiddles(withBefore, items[m + 1..])
  }

  /** `rebalance`: the new state, and what the call returns. The source
      rebinds `self` to the inner helper's result, which is the tree when
      there was something to add and `None` when the tree was empty. */
  function Rebalance(s: Bst): (r: (Bst, Option<Bst>))
    requires Valid(s)
    ensures Valid(r.0) && r.0.size == s.size
    ensures multiset(Inorder(r.0.root)) == multiset(Inorder(s.root))
    ensures r.1.None? <==> IsEmpty(s)
    ensures r.1.Some? ==> r.1.value == r.0
  {
    var sorted := Inorder(s.root);
    var rebuilt := InsertMiddles(Clear(s), sorted);
    InsertMiddlesContents(Clear(s), sorted);
    (rebuilt, if |sorted| == 0 then None else Some(rebuilt))
  }

  /** The rebuild adds exactly the listed items. */
  lemma {:induction false} InsertMiddlesContents(s: Bst, items: seq<int>)
    requires Valid(s)
    ensures multiset(Inorder(InsertMiddles(s, items).root)) == multiset(Inorder(s.root)) + multiset(items)
    decreases |items|
  {
    if |items| > 0 {
      var m := |items| / 2;
      var x, before, after := items[m], items[..m], items[m + 1..];
      SplitAround(items, m);
      var w := Add(s, x);
      var b := InsertMiddles(w, before);
      var r := InsertMiddles(b, after);
      assert InsertMiddles(s, items) == r;
      InsertMiddlesContents(w, before);
      InsertMiddlesContents(b, after);
      AddUp(multiset(Inorder(s.root)), multiset(Inorder(w.root)), multiset(Inorder(b.root)),
        multiset(Inorder(r.root)), multiset(before), multiset{x}, multiset(after), multiset(items));
    }
  }

  /** Multiset bookkeeping of one middle-first step. */
  lemma {:induction false} AddUp(ms: multiset<int>, mw: multiset<int>, mb: multiset<int>, mr: multiset<int>,
                                 before: multiset<int>, x: multiset<int>, after: multiset<int>, items: multiset<int>)
    requires mw == ms + x && mb == mw + before && mr == mb + after
    requires items == before + x + after
    ensures mr == ms + items
  {
    calc {
      mr;
      ms + x + before + after;
      { assert x + before == before + x; }
      ms + (before + x + after);
    }
  }

  // ------------------------------------------------------- add as written

  /** The inner `recurse` with `add` exactly as written. */
  function InsertMiddlesAsWritten(s: Bst, items: seq<int>): (r: Bst)
    requires IsEmpty(s) || s.root.Node?
    ensures (IsEmpty(r) || r.root.Node?) && r.size == s.size + |items|
    decreases |items|
  {
    if |items| == 0 then s
    else
      var m := |items| / 2;
      var withMiddle := AddAsWritten(s, items[m]);
      var withBefore := InsertMiddlesAsWritten(withMiddle, items[..m]);
      InsertMiddlesAsWritten(withBefore, items[m + 1..])
  }

  /** `rebalance` with `add` exactly as written. The counter ends equal to
      the number of items the in-order list held. */
  function RebalanceAsWritten(s: Bst): (r: (Bst, Option<Bst>))
    ensures r.0.size == |Inorder(s.root)|
    ensures r.1.None? <==> Inorder(s.root) == []
    ensures r.1.Some? ==> r.1.value == r.0
  {
    var sorted := Inorder(s.root);
    var rebuilt := InsertMiddlesAsWritten(Clear(s), sorted);
    (rebuilt, if |sorted| == 0 then None else Some(rebuilt))
  }

  /** When the rebuilt items are distinct and new to the tree, every `add`
      adds an absent item, so the rebuild as written is the corrected one. */
  lemma {:induction false} InsertMiddlesAgree(s: Bst, items: seq<int>)
    requires Valid(s) && StrictlyIncreasing(items)
    requires Fresh(items, Inorder(s.root))
    ensures InsertMiddlesAsWritten(s, items) == InsertMiddles(s, items)
    decreases |items|
  {
    if |items| > 0 {
      var m := |items| / 2;
      var x, before, after := items[m], items[..m], items[m + 1..];
      var w, b := MiddleFresh(s, items);
      InsertMiddlesAgree(w, before);
      InsertMiddlesAgree(b, after);
    }
  }

  /** No item of `ys` occurs in `xs`. */
  ghost predicate Fresh(ys: seq<int>, xs: seq<int>) {
    forall y | y in ys :: y !in xs
  }

  /** One step of the agreement: the middle item is added as written like
      the corrected `add`, and the two halves stay new to the tree. */
  lemma {:induction false} MiddleFresh(s: Bst, items: seq<int>) returns (w: Bst, b: Bst)
    requires Valid(s) && StrictlyIncreasing(items) && |items| > 0
    requires Fresh(items, Inorder(s.root))
    ensures var m := |items| / 2;
      && w == Add(s, items[m]) && AddAsWritten(s, items[m]) == w
      && b == InsertMiddles(w, items[..m]) && Valid(w) && Valid(b)
      && StrictlyIncreasing(items[..m]) && StrictlyIncreasing(items[m + 1..])
      && Fresh(items[..m], Inorder(w.root)) && Fresh(items[m + 1..], Inorder(b.root))
      && InsertMiddlesAsWritten(s, items)
         == InsertMiddlesAsWritten(InsertMiddlesAsWritten(w, items[..m]), items[m + 1..])
      && InsertMiddles(s, items) == InsertMiddles(b, items[m + 1..])
  {
    var m := |items| / 2;
    var x, before, after := items[m], items[..m], items[m + 1..];
    SplitAround(items, m);
    IncreasingSplits(before, x, after);
    assert x in items;
    w := Add(s, x);
    assert AddAsWritten(s, x) == w;
    forall y | y in before ensures y !in Inorder(s.root) && y !in [x] {
      assert y in items && y < x;
    }
    FreshAfter(Inorder(s.root), Inorder(w.root), [x], before);
    b := InsertMiddles(w, before);
    InsertMiddlesContents(w, before);
    forall y | y in after ensures y !in Inorder(w.root) && y !in before {
      assert y in items && x < y;
      assert y !in multiset(Inorder(s.root)) && y !in multiset([x]);
      assert y !in multiset(Inorder(w.root));
    }
    FreshAfter(Inorder(w.root), Inorder(b.root), before, after);
  }

  /** Items absent from `xs` and from what was added stay absent. */
  lemma {:induction false} FreshAfter(xs: seq<int>, zs: seq<int>, extra: seq<int>, ys: seq<int>)
    requires multiset(zs) == multiset(xs) + multiset(extra)
    requires forall y | y in ys :: y !in xs && y !in extra
    ensures Fresh(ys, zs)
  {
    forall y | y in ys ensures y !in zs {
      assert y !in multiset(xs) && y !in multiset(extra);
      assert y !in multiset(zs);
    }
  }

  /** On a consistent search tree `rebalance` as written is the model's `Rebalance`. */
  lemma {:induction false} RebalanceAgrees(s: Bst)
    requires Valid(s) && IsBst(s.root)
    ensures RebalanceAsWritten(s) == Rebalance(s)
  {
    BstIffIncreasing(s.root);
    assert Inorder(Clear(s).root) == [];
    InsertMiddlesAgree(Clear(s), Inorder(s.root));
  }

  /** Adding 5, 5 and 3 as written gives a consistent tree holding 3, 5, 5.
      Rebalancing it as written re-adds 5, then 3, then 5; the last 5 is
      attached left of the root and replaces 3, so the counter says three
      items while two remain. The model's `Rebalance` keeps 3. */
  lemma {:induction false} RebalanceAsWrittenLosesItem()
    ensures var s := AddAsWritten(AddAsWritten(AddAsWritten(Bst(Leaf, 0), 5), 5), 3);
      && s == Bst(Node(Node(Single(3), 5, Leaf), 5, Leaf), 3) && Valid(s)
      && RebalanceAsWritten(s).0 == Bst(Node(Single(5), 5, Leaf), 3)
      && 3 !in Inorder(RebalanceAsWritten(s).0.root) && !Valid(RebalanceAsWritten(s).0)
      && 3 in Inorder(Rebalance(s).0.root)
  {
    var s := BuildFiveFiveThree();
    var c := RebuildThreeFiveFive();
    assert RebalanceAsWritten(s).0 == c;
    assert Inorder(Single(5)) == [5];
    assert Inorder(c.root) == [5, 5];
    RebalanceKeepsItem(s, 3);
  }

  /** The model's `Rebalance` keeps every held item. */
  lemma {:induction false} RebalanceKeepsItem(s: Bst, x: int)
    requires Valid(s) && x in Inorder(s.root)
    ensures x in Inorder(Rebalance(s).0.root)
  {
    assert x in multiset(Inorder(s.root));
    assert x in multiset(Inorder(Rebalance(s).0.root));
  }

  /** The middle-first rebuild of [3, 5, 5] as written. */
  lemma {:induction false} RebuildThreeFiveFive() returns (c: Bst)
    ensures InsertMiddlesAsWritten(Bst(Leaf, 0), [3, 5, 5]) == c
    ensures c == Bst(Node(Single(5), 5, Leaf), 3)
  {
    var xs := [3, 5, 5];
    assert xs[..1] == [3] && xs[1] == 5 && xs[2..] == [5];
    var a := AddAsWritten(Bst(Leaf, 0), 5);
    assert a == Bst(Single(5), 1);
    assert [3][..0] == [] && [3][1..] == [] && [5][..0] == [] && [5][1..] == [];
    var b := AddAsWritten(a, 3);
    assert b == Bst(Node(Single(3), 5, Leaf), 2);
    assert InsertMiddlesAsWritten(a, [3]) == b;
    c := AddAsWritten(b, 5);
    assert c == Bst(Node(Single(5), 5, Leaf), 3);
    assert InsertMiddlesAsWritten(b, [5]) == c;
  }

  lemma {:induction false} BuildFiveFiveThree() returns (s: Bst)
    ensures s == AddAsWritten(AddAsWritten(AddAsWritten(Bst(Leaf, 0), 5), 5), 3)
    ensures s == Bst(Node(Node(Single(3), 5, Leaf), 5, Leaf), 3) && Valid(s)
    ensures Inorder(s.root) == [3, 5, 5]
  {
    var s1 := AddAsWritten(Bst(Leaf, 0), 5);
    assert s1 == Bst(Single(5), 1);
    var s2 := AddAsWritten(s1, 5);
    assert s2 == Bst(Node(Single(5), 5, Leaf), 2);
    s := AddAsWritten(s2, 3);
    assert s == Bst(Node(Node(Single(3), 5, Leaf), 5, Leaf), 3);
    assert Inorder(Single(3)) == [3];
    assert Inorder(Node(Single(3), 5, Leaf)) == [3, 5];
  }

  // ------------------------------------------------------------ the proof

  /** No item of `t` lies strictly between `lo` and `hi`. */
  ghost predicate NoneBetween(t: Tree, lo: int, hi: int) {
    forall y | y in Inorder(t) :: y <= lo || hi <= y
  }

  /** `t` with the empty spot just after `lo` filled by `u`: the descent goes
      right at items up to `lo` and left at larger ones, as an insertion of an
      item just above `lo` would. */
  function Graft(t: Tree, lo: int, u: Tree): Tree {
    match t
    case Leaf => u
    case Node(l, v, r) => if v <= lo then Node(l, v, Graft(r, lo, u)) else Node(Graft(l, lo, u), v, r)
  }

  /** Filling a spot with nothing changes nothing. */
  lemma {:induction false} GraftLeaf(t: Tree, lo: int)
    ensures Graft(t, lo, Leaf) == t
  {
    if t.Node? {
      GraftLeaf(t.left, lo);
      GraftLeaf(t.right, lo);
    }
  }

  /** A grafted tree holds the items of both parts and nothing else. */
  lemma {:induction false} GraftMember(t: Tree, lo: int, u: Tree, y: int)
    ensures y in Inorder(Graft(t, lo, u)) <==> y in Inorder(t) || y in Inorder(u)
  {
    match t
    case Leaf =>
    case Node(l, v, r) =>
      if v <= lo {
        GraftMember(r, lo, u, y);
      } else {
        GraftMember(l, lo, u, y);
      }
  }

  /** Inserting an item that falls in the gap of `t` between `lo` and `hi`
      descends to the grafted part and inserts there. */
  lemma {:induction false} InsertGraft(t: Tree, lo: int, hi: int, u: Tree, x: int)
    requires NoneBetween(t, lo, hi) && lo < x < hi
    ensures Insert(Graft(t, lo, u), x) == Graft(t, lo, Insert(u, x))
  {
    match t
    case Leaf =>
    case Node(l, v, r) =>
      assert v in Inorder(t);
      if v <= lo {
        assert NoneBetween(r, lo, hi) by {
          forall y | y in Inorder(r) ensures y <= lo || hi <= y {
            assert y in Inorder(t);
          }
        }
        InsertGraft(r, lo, hi, u, x);
      } else {
        assert NoneBetween(l, lo, hi) by {
          forall y | y in Inorder(l) ensures y <= lo || hi <= y {
            assert y in Inorder(t);
          }
        }
        InsertGraft(l, lo, hi, u, x);
      }
  }

  /** Grafting into the grafted part: a narrower gap `lo2` inside the gap of
      `t` is reached through the same descent in `t`. */
  lemma {:induction false} GraftCompose(t: Tree, lo: int, hi: int, u: Tree, lo2: int, w: Tree)
    requires NoneBetween(t, lo, hi) && lo <= lo2 < hi
    ensures Graft(Graft(t, lo, u), lo2, w) == Graft(t, lo, Graft(u, lo2, w))
  {
    match t
    case Leaf =>
    case Node(l, v, r) =>
      assert v in Inorder(t);
      if v <= lo {
        assert NoneBetween(r, lo, hi) by {
          forall y | y in Inorder(r) ensures y <= lo || hi <= y {
            assert y in Inorder(t);
          }
        }
        GraftCompose(r, lo, hi, u, lo2, w);
      } else {
        assert NoneBetween(l, lo, hi) by {
          forall y | y in Inorder(l) ensures y <= lo || hi <= y {
            assert y in Inorder(t);
          }
        }
        GraftCompose(l, lo, hi, u, lo2, w);
      }
  }

  /** The gap stays empty below its new content. */
  lemma {:induction false} NoneBetweenGraft(t: Tree, lo: int, hi: int, u: Tree, lo2: int, hi2: int)
    requires NoneBetween(t, lo, hi) && lo <= lo2 && hi2 <= hi && NoneBetween(u, lo2, hi2)
    ensures NoneBetween(Graft(t, lo, u), lo2, hi2)
  {
    forall y | y in Inorder(Graft(t, lo, u)) ensures y <= lo2 || hi2 <= y {
      GraftMember(t, lo, u, y);
    }
  }

  /** Adding every item of a strictly increasing list lying in an empty gap of
      the tree, middle first, grows exactly the balanced tree of the list in
      that gap. */
  lemma {:induction false} InsertMiddlesGrafts(s: Bst, items: seq<int>, lo: int, hi: int)
    requires Valid(s) && NoneBetween(s.root, lo, hi)
    requires StrictlyIncreasing(items) && forall i | 0 <= i < |items| :: lo < items[i] < hi
    ensures InsertMiddles(s, items) == Bst(Graft(s.root, lo, Balanced(items)), s.size + |items|)
    decreases |items|
  {
    if |items| == 0 {
      GraftLeaf(s.root, lo);
    } else {
      var m := |items| / 2;
      var x, before, after := items[m], items[..m], items[m + 1..];
      SplitAtMiddle(items, lo, hi);
      var withMiddle := Add(s, x);
      MiddleStep(s, lo, hi, x);
      InsertMiddlesGrafts(withMiddle, before, lo, x);
      var withBefore := InsertMiddles(withMiddle, before);
      BeforeStep(s.root, lo, hi, x, Balanced(before));
      InsertMiddlesGrafts(withBefore, after, x, hi);
      AfterStep(s.root, lo, hi, x, Balanced(before), Balanced(after));
    }
  }

  /** The items before the middle lie between `lo` and the middle, those
      after it between the middle and `hi`, and both halves stay increasing. */
  lemma {:induction false} SplitAtMiddle(items: seq<int>, lo: int, hi: int)
    requires |items| > 0
    requires StrictlyIncreasing(items) && forall i | 0 <= i < |items| :: lo < items[i] < hi
    ensures var m := |items| / 2;
      var x, before, after := items[m], items[..m], items[m + 1..];
      && lo < x < hi
      && StrictlyIncreasing(before) && (forall i | 0 <= i < |before| :: lo < before[i] < x)
      && StrictlyIncreasing(after) && (forall i | 0 <= i < |after| :: x < after[i] < hi)
      && AllBelow(Inorder(Balanced(before)), x)
  {
    var m := |items| / 2;
    var x, before, after := items[m], items[..m], items[m + 1..];
    SplitAround(items, m);
    IncreasingSplits(before, x, after);
    forall i | 0 <= i < |before| ensures lo < before[i] < x {
      assert before[i] == items[i] && before[i] in before;
    }
    forall i | 0 <= i < |after| ensures x < after[i] < hi {
      assert after[i] == items[m + 1 + i] && after[i] in after;
    }
  }

  /** The middle item lands alone in the gap, which it splits in two. */
  lemma {:induction false} MiddleStep(s: Bst, lo: int, hi: int, x: int)
    requires Valid(s) && NoneBetween(s.root, lo, hi) && lo < x < hi
    ensures Add(s, x) == Bst(Graft(s.root, lo, Single(x)), s.size + 1)
    ensures NoneBetween(Add(s, x).root, lo, x)
  {
    MiddleAdd(s, lo, hi, x);
    NoneBetweenGraft(s.root, lo, hi, Single(x), lo, x);
  }

  lemma {:induction false} MiddleAdd(s: Bst, lo: int, hi: int, x: int)
    requires Valid(s) && NoneBetween(s.root, lo, hi) && lo < x < hi
    ensures Add(s, x) == Bst(Graft(s.root, lo, Single(x)), s.size + 1)
  {
    AddIsInsert(s, x);
    GraftLeaf(s.root, lo);
    InsertGraft(s.root, lo, hi, Leaf, x);
  }

  /** After the items before the middle, the gap holds them left of the middle. */
  lemma {:induction false} BeforeStep(t: Tree, lo: int, hi: int, x: int, b: Tree)
    requires NoneBetween(t, lo, hi) && lo < x < hi && AllBelow(Inorder(b), x)
    ensures Graft(Graft(t, lo, Single(x)), lo, b) == Graft(t, lo, Node(b, x, Leaf))
    ensures NoneBetween(Graft(t, lo, Node(b, x, Leaf)), x, hi)
  {
    GraftCompose(t, lo, hi, Single(x), lo, b);
    NoneBetweenGraft(t, lo, hi, Node(b, x, Leaf), x, hi);
  }

  /** After the items past the middle, the gap holds the balanced tree. */
  lemma {:induction false} AfterStep(t: Tree, lo: int, hi: int, x: int, b: Tree, a: Tree)
    requires NoneBetween(t, lo, hi) && lo < x < hi
    ensures Graft(Graft(t, lo, Node(b, x, Leaf)), x, a) == Graft(t, lo, Node(b, x, a))
  {
    GraftCompose(t, lo, hi, Node(b, x, Leaf), x, a);
  }

  // ------------------------------------------------------------ the result

  /** On a search tree, rebalancing keeps the in-order list, keeps the order
      invariant, and yields the balanced tree of that list. */
  lemma {:induction false} RebalanceBuildsBalanced(s: Bst)
    requires Valid(s) && IsBst(s.root)
    ensures Rebalance(s).0.root == Balanced(Inorder(s.root))
    ensures Inorder(Rebalance(s).0.root) == Inorder(s.root)
    ensures IsBst(Rebalance(s).0.root)
  {
    var xs := Inorder(s.root);
    BstIffIncreasing(s.root);
    if |xs| > 0 {
      var lo, hi := xs[0] - 1, Last(xs) + 1;
      LastIsMaximum(xs);
      forall i | 0 <= i < |xs| ensures lo < xs[i] < hi {
        assert xs[i] in xs;
        if i > 0 {
          assert xs[0] < xs[i];
        }
      }
      InsertMiddlesGrafts(Clear(s), xs, lo, hi);
    } else {
      InsertMiddlesGrafts(Clear(s), xs, 0, 0);
    }
    BstIffIncreasing(Rebalance(s).0.root);
  }

  /** On a non-empty search tree, rebalancing reaches the least height any
      tree with that many nodes can have: floor(log2 n). */
  lemma {:induction false} RebalanceHeight(s: Bst, other: Tree)
    requires Valid(s) && IsBst(s.root) && !IsEmpty(s)
    requires |Inorder(other)| == s.size
    ensures Height(Rebalance(s).0.root) == Log2Floor(s.size)
    ensures Height(Rebalance(s).0.root) <= Height(other)
  {
    RebalanceBuildsBalanced(s);
    BalancedHeight(Inorder(s.root));
    HeightLowerBound(other);
  }

  /** The balanced tree of `n >= 1` items has height floor(log2 n). */
  lemma {:induction false} BalancedHeight(xs: seq<int>)
    requires |xs| >= 1
    ensures Height(Balanced(xs)) == Log2Floor(|xs|)
    decreases |xs|
  {
    var n, m := |xs|, |xs| / 2;
    var before, after := xs[..m], xs[m + 1..];
    assert Balanced(xs) == Node(Balanced(before), xs[m], Balanced(after));
    if n == 1 {
      assert before == [] && after == [];
    } else {
      assert Log2Floor(n) == 1 + Log2Floor(m);
      BalancedHeight(before);
      if |after| > 0 {
        BalancedHeight(after);
        Log2FloorMonotone(|after|, m);
      }
    }
  }

  lemma {:induction false} Log2FloorMonotone(a: nat, b: nat)
    requires 1 <= a <= b
    ensures Log2Floor(a) <= Log2Floor(b)
    decreases b
  {
    if a > 1 {
      Log2FloorMonotone(a / 2, b / 2);
    }
  }
}
