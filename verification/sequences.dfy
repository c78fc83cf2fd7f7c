/** Ordering facts about integer sequences, the in-order lists of the tree. */
module Sequences {

  /** Every element is strictly smaller than every later one. */
  ghost predicate StrictlyIncreasing(xs: seq<int>) {
    forall i, j | 0 <= i < j < |xs| :: xs[i] < xs[j]
  }

  /** Every element of `xs` is strictly below `v`. */
  ghost predicate AllBelow(xs: seq<int>, v: int) {
    forall y | y in xs :: y < v
  }

  /** Every element of `xs` is strictly above `v`. */
  ghost predicate AllAbove(xs: seq<int>, v: int) {
    forall y | y in xs :: v < y
  }

  /** Concatenation is associative. */
  lemma {:induction false} Associative<T>(a: seq<T>, b: seq<T>, c: seq<T>)
    ensures a + b + c == a + (b + c)
  {
  }

  /** Dropping the head of a concatenation drops the head of its left part. */
  /** A list is its prefix, the item at a position and its suffix. */
  lemma {:induction false} SplitAround<T>(xs: seq<T>, m: int)
    requires 0 <= m < |xs|
    ensures xs == xs[..m] + [xs[m]] + xs[m + 1..]
  {
    assert xs[m..] == [xs[m]] + xs[m + 1..];
    assert xs == xs[..m] + xs[m..];
  }

  lemma {:induction false} TailOfConcat<T>(a: seq<T>, b: seq<T>)
    requires |a| > 0
    ensures (a + b)[1..] == a[1..] + b
  {
  }

  /** The last element of a non-empty sequence. */
  function Last(xs: seq<int>): int
    requires |xs| > 0
  {
    xs[|xs| - 1]
  }

  /** `xs` without the element at position `i`. */
  function Delete(xs: seq<int>, i: nat): (r: seq<int>)
    requires i < |xs|
    ensures |r| == |xs| - 1
  {
    xs[..i] + xs[i + 1..]
  }

  /** Deletion removes one occurrence of the deleted value and nothing else. */
  lemma {:induction false} DeleteContents(xs: seq<int>, i: nat)
    requires i < |xs|
    ensures multiset(Delete(xs, i)) == multiset(xs) - multiset{xs[i]}
  {
    SplitAround(xs, i);
  }

  /** A sequence splits at a value into a strictly increasing prefix below it and
      a strictly increasing suffix above it exactly when the whole is strictly increasing. */
  lemma {:induction false} IncreasingConcat(a: seq<int>, v: int, b: seq<int>)
    ensures StrictlyIncreasing(a + [v] + b) <==>
      StrictlyIncreasing(a) && StrictlyIncreasing(b) && AllBelow(a, v) && AllAbove(b, v)
  {
    if StrictlyIncreasing(a + [v] + b) {
      IncreasingSplits(a, v, b);
    }
    if StrictlyIncreasing(a) && StrictlyIncreasing(b) && AllBelow(a, v) && AllAbove(b, v) {
      IncreasingJoins(a, v, b);
    }
  }

  lemma {:induction false} IncreasingSplits(a: seq<int>, v: int, b: seq<int>)
    requires StrictlyIncreasing(a + [v] + b)
    ensures StrictlyIncreasing(a) && StrictlyIncreasing(b) && AllBelow(a, v) && AllAbove(b, v)
  {
    var s := a + [v] + b;
    assert forall i | 0 <= i < |a| :: s[i] == a[i];
    assert s[|a|] == v;
    assert forall i | 0 <= i < |b| :: s[|a| + 1 + i] == b[i];
    forall i, j | 0 <= i < j < |b| ensures b[i] < b[j] {
      assert s[|a| + 1 + i] < s[|a| + 1 + j];
    }
    forall y | y in a ensures y < v {
      var i :| 0 <= i < |a| && a[i] == y;
      assert s[i] < s[|a|];
    }
    forall y | y in b ensures v < y {
      var i :| 0 <= i < |b| && b[i] == y;
      assert s[|a|] < s[|a| + 1 + i];
    }
  }

  lemma {:induction false} IncreasingJoins(a: seq<int>, v: int, b: seq<int>)
    requires StrictlyIncreasing(a) && StrictlyIncreasing(b) && AllBelow(a, v) && AllAbove(b, v)
    ensures StrictlyIncreasing(a + [v] + b)
  {
    var s := a + [v] + b;
    forall i, j | 0 <= i < j < |s| ensures s[i] < s[j] {
      var n := |a|;
      if j < n {
        assert s[i] == a[i] && s[j] == a[j];
      } else if i < n {
        assert s[i] == a[i] && a[i] in a;
        if j > n {
          assert s[j] == b[j - n - 1] && b[j - n - 1] in b;
        }
      } else if i == n {
        assert s[j] == b[j - n - 1] && b[j - n - 1] in b;
      } else {
        assert s[i] == b[i - n - 1] && s[j] == b[j - n - 1];
      }
    }
  }

  /** Deleting one position keeps a sequence strictly increasing and removes
      every occurrence of the deleted value. */
  lemma {:induction false} DeleteFromIncreasing(xs: seq<int>, i: nat)
    requires i < |xs| && StrictlyIncreasing(xs)
    ensures StrictlyIncreasing(Delete(xs, i))
    ensures xs[i] !in Delete(xs, i)
  {
    var r := Delete(xs, i);
    assert forall k | 0 <= k < |r| :: r[k] == if k < i then xs[k] else xs[k + 1];
    forall k | 0 <= k < |r| ensures r[k] != xs[i] {
      if k < i {
        assert xs[k] < xs[i];
      } else {
        assert xs[i] < xs[k + 1];
      }
    }
  }

  /** Deleting inside the left part of a concatenation. */
  lemma {:induction false} DeleteInPrefix(a: seq<int>, b: seq<int>, i: nat)
    requires i < |a|
    ensures Delete(a + b, i) == Delete(a, i) + b
  {
  }

  /** Deleting inside the right part of a concatenation. */
  lemma {:induction false} DeleteInSuffix(a: seq<int>, b: seq<int>, i: nat)
    requires i < |b|
    ensures Delete(a + b, |a| + i) == a + Delete(b, i)
  {
  }

  /** In a strictly increasing sequence the last element bounds all the others. */
  lemma {:induction false} LastIsMaximum(xs: seq<int>)
    requires |xs| > 0
    ensures StrictlyIncreasing(xs) ==> forall y | y in xs :: y <= Last(xs)
  {
  }

  /** Overwriting inside the left part of a concatenation. */
  lemma {:induction false} UpdateInPrefix(a: seq<int>, b: seq<int>, i: nat, y: int)
    requires i < |a|
    ensures (a + b)[i := y] == a[i := y] + b
  {
  }

  /** Overwriting inside the right part of a concatenation. */
  lemma {:induction false} UpdateInSuffix(a: seq<int>, b: seq<int>, i: nat, y: int)
    requires i < |b|
    ensures (a + b)[|a| + i := y] == a + b[i := y]
  {
  }

  /** Overwriting one element of an increasing list keeps it increasing
      exactly when the new value lies strictly between its neighbours. */
  lemma {:induction false} UpdateIncreasing(xs: seq<int>, i: nat, y: int)
    requires StrictlyIncreasing(xs) && i < |xs|
    ensures StrictlyIncreasing(xs[i := y]) <==>
      (i == 0 || xs[i - 1] < y) && (i + 1 == |xs| || y < xs[i + 1])
  {
    var ys := xs[i := y];
    if (i == 0 || xs[i - 1] < y) && (i + 1 == |xs| || y < xs[i + 1]) {
      forall j, k | 0 <= j < k < |ys| ensures ys[j] < ys[k] {
        if j == i {
          assert y < xs[i + 1] && xs[i + 1] <= xs[k];
        } else if k == i {
          assert xs[j] <= xs[i - 1] && xs[i - 1] < y;
        }
      }
    } else if i > 0 && y <= xs[i - 1] {
      assert ys[i - 1] >= ys[i];
    } else {
      assert ys[i] >= ys[i + 1];
    }
  }
}
