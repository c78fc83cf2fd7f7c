/** The queries answered from the in-order list: `range_find`, `successor`
    and `predecessor`. Each scans `list(self.inorder())`. */
module Queries {
  import opened Wrappers
  import opened Sequences
  import opened Trees
  import opened LinkedBst

  /** Items `y` of `xs` with `low <= y <= high`, in their order in `xs`. */
  function RangeFilter(xs: seq<int>, low: int, high: int): (r: seq<int>)
    ensures forall y :: y in r <==> y in xs && low <= y <= high
    ensures |r| <= |xs|
  {
    if |xs| == 0 then []
    else
      var rest := RangeFilter(xs[1..], low, high);
      assert forall y :: y in xs <==> y == xs[0] || y in xs[1..] by {
        assert xs == [xs[0]] + xs[1..];
      }
      if low <= xs[0] <= high then [xs[0]] + rest else rest
  }

  /** `range_find(low, high)`: the loop over the in-order list, appending each
      item that lies in the closed range. */
  method RangeFind(s: Bst, low: int, high: int) returns (found: seq<int>)
    ensures found == RangeFilter(Inorder(s.root), low, high)
    ensures forall y :: y in found <==> y in Inorder(s.root) && low <= y <= high
  {
    var sorted := Inorder(s.root);
    found := [];
    var i := 0;
    while i < |sorted|
      invariant 0 <= i <= |sorted|
      invariant found + RangeFilter(sorted[i..], low, high) == RangeFilter(sorted, low, high)
    {
      var value := sorted[i];
      assert sorted[i..][1..] == sorted[i + 1..];
      if low <= value <= high {
        Associative(found, [value], RangeFilter(sorted[i + 1..], low, high));
        found := found + [value];
      }
      i := i + 1;
    }
    assert sorted[i..] == [];
  }

  /** Filtering keeps the order: a strictly increasing list filters to a
      strictly increasing list. */
  lemma {:induction false} RangeFilterIncreasing(xs: seq<int>, low: int, high: int)
    requires StrictlyIncreasing(xs)
    ensures StrictlyIncreasing(RangeFilter(xs, low, high))
    decreases |xs|
  {
    if |xs| > 0 {
      var tail := xs[1..];
      assert StrictlyIncreasing(tail) by {
        forall i, j | 0 <= i < j < |tail| ensures tail[i] < tail[j] {
          assert tail[i] == xs[i + 1] && tail[j] == xs[j + 1];
        }
      }
      RangeFilterIncreasing(tail, low, high);
      var rest := RangeFilter(tail, low, high);
      assert AllAbove(rest, xs[0]) by {
        forall y | y in rest ensures xs[0] < y {
          var k :| 0 <= k < |tail| && tail[k] == y;
          assert xs[k + 1] == y;
        }
      }
      assert [] + [xs[0]] + rest == [xs[0]] + rest;
      IncreasingJoins([], xs[0], rest);
    }
  }

  /** On a search tree `range_find` lists the items of the range in ascending order. */
  lemma {:induction false} RangeFindSorted(s: Bst, low: int, high: int)
    requires IsBst(s.root)
    ensures StrictlyIncreasing(RangeFilter(Inorder(s.root), low, high))
  {
    BstIffIncreasing(s.root);
    RangeFilterIncreasing(Inorder(s.root), low, high);
  }

  /** The first item of `xs` above `item`, scanning from the front. */
  function FirstAbove(xs: seq<int>, item: int): (r: Option<int>)
    ensures r.None? <==> forall i | 0 <= i < |xs| :: xs[i] <= item
    ensures r.Some? ==> exists i | 0 <= i < |xs| ::
      (xs[i] == r.value && item < r.value && forall j | 0 <= j < i :: xs[j] <= item)
  {
    if |xs| == 0 then None
    else if xs[0] > item then
      Some(xs[0])
    else
      var r := FirstAbove(xs[1..], item);
      assert forall i | 0 < i < |xs| :: xs[i] == xs[1..][i - 1];
      if r.Some? then
        var k :| 0 <= k < |xs[1..]| && xs[1..][k] == r.value && item < r.value
          && forall j | 0 <= j < k :: xs[1..][j] <= item;
        assert xs[k + 1] == r.value && forall j | 0 <= j < k + 1 :: xs[j] <= item;
        r
      else r
  }

  /** The last item of `xs` below `item`, scanning from the back as the
      loop over `reversed(sorted_list)` does. */
  function LastBelow(xs: seq<int>, item: int): (r: Option<int>)
    ensures r.None? <==> forall i | 0 <= i < |xs| :: item <= xs[i]
    ensures r.Some? ==> exists i | 0 <= i < |xs| ::
      (xs[i] == r.value && r.value < item && forall j | i < j < |xs| :: item <= xs[j])
  {
    if |xs| == 0 then None
    else if Last(xs) < item then
      var n := |xs| - 1;
      assert xs[n] == Last(xs);
      Some(Last(xs))
    else
      var front := xs[..|xs| - 1];
      var r := LastBelow(front, item);
      assert forall i | 0 <= i < |front| :: xs[i] == front[i];
      if r.Some? then
        var k :| 0 <= k < |front| && front[k] == r.value && r.value < item
          && forall j | k < j < |front| :: item <= front[j];
        assert xs[k] == r.value && forall j | k < j < |xs| :: item <= xs[j];
        r
      else r
  }

  /** `successor(item)`. */
  function Successor(s: Bst, item: int): (r: Option<int>)
    ensures r.None? <==> NoneAbove(Inorder(s.root), item)
    ensures r.Some? ==> r.value in Inorder(s.root) && item < r.value
  {
    FirstAboveHeld(Inorder(s.root), item);
    FirstAbove(Inorder(s.root), item)
  }

  /** `predecessor(item)`. */
  function Predecessor(s: Bst, item: int): (r: Option<int>)
    ensures r.None? <==> NoneBelow(Inorder(s.root), item)
    ensures r.Some? ==> r.value in Inorder(s.root) && r.value < item
  {
    LastBelowHeld(Inorder(s.root), item);
    LastBelow(Inorder(s.root), item)
  }

  /** No listed item exceeds `item`. */
  ghost predicate NoneAbove(xs: seq<int>, item: int) {
    forall y | y in xs :: y <= item
  }

  /** No listed item is below `item`. */
  ghost predicate NoneBelow(xs: seq<int>, item: int) {
    forall y | y in xs :: item <= y
  }

  /** The scan for the first item above a bound, stated over the listed items. */
  lemma {:induction false} FirstAboveHeld(xs: seq<int>, item: int)
    ensures FirstAbove(xs, item).None? <==> NoneAbove(xs, item)
    ensures FirstAbove(xs, item).Some? ==> FirstAbove(xs, item).value in xs && item < FirstAbove(xs, item).value
  {
    var r := FirstAbove(xs, item);
    if r.Some? {
      var i :| 0 <= i < |xs| && xs[i] == r.value && item < r.value
        && forall j | 0 <= j < i :: xs[j] <= item;
      assert xs[i] in xs;
    } else {
      forall y | y in xs ensures y <= item {
        var i :| 0 <= i < |xs| && xs[i] == y;
      }
    }
  }

  /** The scan for the last item below a bound, stated over the listed items. */
  lemma {:induction false} LastBelowHeld(xs: seq<int>, item: int)
    ensures LastBelow(xs, item).None? <==> NoneBelow(xs, item)
    ensures LastBelow(xs, item).Some? ==> LastBelow(xs, item).value in xs && LastBelow(xs, item).value < item
  {
    var r := LastBelow(xs, item);
    if r.Some? {
      var i :| 0 <= i < |xs| && xs[i] == r.value && r.value < item
        && forall j | i < j < |xs| :: item <= xs[j];
      assert xs[i] in xs;
    } else {
      forall y | y in xs ensures item <= y {
        var i :| 0 <= i < |xs| && xs[i] == y;
      }
    }
  }

  /** On a search tree the successor is the least item above `item`. */
  lemma {:induction false} SuccessorIsLeast(s: Bst, item: int)
    requires IsBst(s.root)
    ensures var r := Successor(s, item);
      r.Some? ==> forall y | y in Inorder(s.root) && item < y :: r.value <= y
  {
    var xs := Inorder(s.root);
    var r := FirstAbove(xs, item);
    if r.Some? {
      BstIffIncreasing(s.root);
      var i :| 0 <= i < |xs| && xs[i] == r.value && item < r.value
        && forall j | 0 <= j < i :: xs[j] <= item;
      forall y | y in xs && item < y ensures r.value <= y {
        var k :| 0 <= k < |xs| && xs[k] == y;
        if i < k {
          assert xs[i] < xs[k];
        }
      }
    }
  }

  /** On a search tree the predecessor is the greatest item below `item`. */
  lemma {:induction false} PredecessorIsGreatest(s: Bst, item: int)
    requires IsBst(s.root)
    ensures var r := Predecessor(s, item);
      r.Some? ==> forall y | y in Inorder(s.root) && y < item :: y <= r.value
  {
    var xs := Inorder(s.root);
    var r := LastBelow(xs, item);
    if r.Some? {
      BstIffIncreasing(s.root);
      var i :| 0 <= i < |xs| && xs[i] == r.value && r.value < item
        && forall j | i < j < |xs| :: item <= xs[j];
      forall y | y in xs && y < item ensures y <= r.value {
        var k :| 0 <= k < |xs| && xs[k] == y;
        if k < i {
          assert xs[k] < xs[i];
        }
      }
    }
  }

  /** On a search tree the successor of a held item is the next item of the
      in-order list, and there is none after the last. */
  lemma {:induction false} SuccessorOfHeld(s: Bst, i: int)
    requires IsBst(s.root) && 0 <= i < |Inorder(s.root)|
    ensures var xs := Inorder(s.root);
      Successor(s, xs[i]) == if i + 1 < |xs| then Some(xs[i + 1]) else None
  {
    var xs := Inorder(s.root);
    BstIffIncreasing(s.root);
    SuccessorIsLeast(s, xs[i]);
    var r := Successor(s, xs[i]);
    if i + 1 < |xs| {
      assert xs[i] < xs[i + 1];
      var k :| 0 <= k < |xs| && xs[k] == r.value;
      assert i < k;
    } else {
      forall y | y in xs ensures y <= xs[i] {
        var k :| 0 <= k < |xs| && xs[k] == y;
        if k < i {
          assert xs[k] < xs[i];
        }
      }
    }
  }

  /** On a search tree the predecessor of a held item is the previous item of
      the in-order list, and there is none before the first. */
  lemma {:induction false} PredecessorOfHeld(s: Bst, i: int)
    requires IsBst(s.root) && 0 <= i < |Inorder(s.root)|
    ensures var xs := Inorder(s.root);
      Predecessor(s, xs[i]) == if 0 < i then Some(xs[i - 1]) else None
  {
    var xs := Inorder(s.root);
    BstIffIncreasing(s.root);
    PredecessorIsGreatest(s, xs[i]);
    var r := Predecessor(s, xs[i]);
    if 0 < i {
      assert xs[i - 1] < xs[i];
      var k :| 0 <= k < |xs| && xs[k] == r.value;
      assert k < i;
    } else {
      forall y | y in xs ensures xs[i] <= y {
        var k :| 0 <= k < |xs| && xs[k] == y;
        if i < k {
          assert xs[i] < xs[k];
        }
      }
    }
  }
}
