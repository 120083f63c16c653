/**
 * Sequence operations shared by the catalog page and the handlers:
 * `Array.prototype.filter`, `Array.from(new Set(xs))` and newest-first ordering.
 */
module Seqs {

  /** `xs.filter(keep)`: the elements that pass, in their original order. */
  function Filter<T>(xs: seq<T>, keep: T -> bool): (r: seq<T>)
    ensures |r| <= |xs|
    ensures forall k :: 0 <= k < |r| ==> keep(r[k])
  {
    if xs == [] then []
    else (if keep(xs[0]) then [xs[0]] else []) + Filter(xs[1..], keep)
  }

  /** `xs` can be obtained from `ys` by deleting elements, without reordering. */
  predicate IsSubsequence<T(==)>(xs: seq<T>, ys: seq<T>)
    decreases |ys|
  {
    xs == [] ||
    (ys != [] && ((xs[0] == ys[0] && IsSubsequence(xs[1..], ys[1..])) || IsSubsequence(xs, ys[1..])))
  }

  /** What `filter` returns is an order-preserving subsequence of its input. */
  lemma {:induction false} FilterIsSubsequence<T>(xs: seq<T>, keep: T -> bool)
    ensures IsSubsequence(Filter(xs, keep), xs)
  {
    if xs != [] {
      FilterIsSubsequence(xs[1..], keep);
      var r := Filter(xs, keep);
      if keep(xs[0]) {
        assert r[0] == xs[0] && r[1..] == Filter(xs[1..], keep);
      } else {
        assert r == Filter(xs[1..], keep);
      }
    }
  }

  /** Each element occurs in the result as often as in the input if it passes, and not at all otherwise. */
  lemma {:induction false} FilterCount<T>(xs: seq<T>, keep: T -> bool, x: T)
    ensures multiset(Filter(xs, keep))[x] == if keep(x) then multiset(xs)[x] else 0
  {
    if xs != [] {
      FilterCount(xs[1..], keep, x);
      assert xs == [xs[0]] + xs[1..];
      assert multiset(xs) == multiset([xs[0]]) + multiset(xs[1..]);
    }
  }

  /** An element is in the result exactly when it is in the input and passes. */
  lemma FilterMember<T>(xs: seq<T>, keep: T -> bool, x: T)
    ensures x in Filter(xs, keep) <==> x in xs && keep(x)
  {
    FilterCount(xs, keep, x);
    assert x in Filter(xs, keep) <==> x in multiset(Filter(xs, keep));
    assert x in xs <==> x in multiset(xs);
  }

  /** When every element passes, `filter` is the identity. */
  lemma {:induction false} FilterAll<T>(xs: seq<T>, keep: T -> bool)
    requires forall k :: 0 <= k < |xs| ==> keep(xs[k])
    ensures Filter(xs, keep) == xs
  {
    if xs != [] {
      FilterAll(xs[1..], keep);
      assert [xs[0]] + xs[1..] == xs;
    }
  }

  /** When no element passes, `filter` returns nothing. */
  lemma {:induction false} FilterNone<T>(xs: seq<T>, keep: T -> bool)
    requires forall k :: 0 <= k < |xs| ==> !keep(xs[k])
    ensures Filter(xs, keep) == []
  {
    if xs != [] {
      FilterNone(xs[1..], keep);
    }
  }

  /** Filtering the result of a filter is filtering once by both tests. */
  lemma {:induction false} FilterTwice<T>(xs: seq<T>, first: T -> bool, second: T -> bool, both: T -> bool)
    requires forall k :: 0 <= k < |xs| ==> both(xs[k]) == (first(xs[k]) && second(xs[k]))
    ensures Filter(Filter(xs, first), second) == Filter(xs, both)
  {
    if xs != [] {
      var tail := xs[1..];
      forall k | 0 <= k < |tail| ensures both(tail[k]) == (first(tail[k]) && second(tail[k])) {
        assert tail[k] == xs[k + 1];
      }
      FilterTwice(tail, first, second, both);
      var head := if first(xs[0]) then [xs[0]] else [];
      FilterAppend(head, Filter(tail, first), second);
      if first(xs[0]) {
        assert Filter(head, second) == (if second(xs[0]) then [xs[0]] else []) + Filter([], second);
      }
    }
  }

  /** Filtering a concatenation filters each part. */
  lemma {:induction false} FilterAppend<T>(xs: seq<T>, ys: seq<T>, keep: T -> bool)
    ensures Filter(xs + ys, keep) == Filter(xs, keep) + Filter(ys, keep)
  {
    if xs == [] {
      assert xs + ys == ys;
    } else {
      var rest := xs[1..] + ys;
      assert (xs + ys)[0] == xs[0];
      assert (xs + ys)[1..] == rest;
      FilterAppend(xs[1..], ys, keep);
    }
  }

  /** When exactly one position passes, `filter` returns exactly that element. */
  lemma {:induction false} FilterSingle<T>(xs: seq<T>, keep: T -> bool, i: nat)
    requires i < |xs| && keep(xs[i])
    requires forall k :: 0 <= k < |xs| && k != i ==> !keep(xs[k])
    ensures Filter(xs, keep) == [xs[i]]
  {
    var tail := xs[1..];
    if i == 0 {
      forall k | 0 <= k < |tail| ensures !keep(tail[k]) {
        assert tail[k] == xs[k + 1];
      }
      FilterNone(tail, keep);
    } else {
      forall k | 0 <= k < |tail| && k != i - 1 ensures !keep(tail[k]) {
        assert tail[k] == xs[k + 1];
      }
      FilterSingle(tail, keep, i - 1);
    }
  }

  /** No element occurs twice. */
  predicate NoDuplicates<T(==)>(xs: seq<T>) {
    forall i, j :: 0 <= i < j < |xs| ==> xs[i] != xs[j]
  }

  /**
   * `Array.from(new Set(xs))`: a JavaScript Set remembers insertion order and
   * ignores re-insertion, so each value is kept where it was first added.
   */
  function Distinct<T(==)>(xs: seq<T>): (r: seq<T>)
    ensures |r| <= |xs|
  {
    if xs == [] then []
    else
      var seen := Distinct(xs[..|xs| - 1]);
      var x := xs[|xs| - 1];
      if x in seen then seen else seen + [x]
  }

  /** Adding one more value to the set keeps the order so far and appends the value if it is new. */
  lemma DistinctStep<T>(xs: seq<T>, x: T)
    ensures Distinct(xs + [x]) == if x in Distinct(xs) then Distinct(xs) else Distinct(xs) + [x]
  {
    assert (xs + [x])[..|xs|] == xs;
  }

  /** Each value of the input occurs exactly once in the result, and nothing else does. */
  lemma {:induction false} DistinctSpec<T>(xs: seq<T>)
    ensures NoDuplicates(Distinct(xs))
    ensures forall k :: 0 <= k < |xs| ==> xs[k] in Distinct(xs)
    ensures forall k :: 0 <= k < |Distinct(xs)| ==> Distinct(xs)[k] in xs
  {
    if xs != [] {
      var init := xs[..|xs| - 1];
      var x := xs[|xs| - 1];
      DistinctSpec(init);
      assert xs == init + [x];
      var r := Distinct(xs);
      forall k | 0 <= k < |xs| ensures xs[k] in r {
        if k < |init| {
          assert xs[k] == init[k];
        }
      }
    }
  }

  /** Index of the first occurrence of `x`. */
  function FirstIndex<T(==)>(xs: seq<T>, x: T): (i: nat)
    requires x in xs
    ensures i < |xs| && xs[i] == x && x !in xs[..i]
  {
    if xs[0] == x then 0 else 1 + FirstIndex(xs[1..], x)
  }

  lemma FirstIndexExtend<T>(xs: seq<T>, y: T, x: T)
    requires x in xs
    ensures FirstIndex(xs + [y], x) == FirstIndex(xs, x)
  {
    var i := FirstIndex(xs, x);
    var j := FirstIndex(xs + [y], x);
    assert (xs + [y])[i] == x;
  }

  /** The distinct values come out in the order in which each first appears. */
  lemma {:induction false} DistinctFirstAppearance<T>(xs: seq<T>)
    ensures forall i, j :: 0 <= i < j < |Distinct(xs)| ==>
      Distinct(xs)[i] in xs && Distinct(xs)[j] in xs &&
      FirstIndex(xs, Distinct(xs)[i]) < FirstIndex(xs, Distinct(xs)[j])
  {
    DistinctSpec(xs);
    if xs != [] {
      var init := xs[..|xs| - 1];
      var x := xs[|xs| - 1];
      assert xs == init + [x];
      DistinctFirstAppearance(init);
      DistinctSpec(init);
      var seen := Distinct(init);
      var r := Distinct(xs);
      forall i, j | 0 <= i < j < |r|
        ensures r[i] in xs && r[j] in xs && FirstIndex(xs, r[i]) < FirstIndex(xs, r[j])
      {
        FirstIndexExtend(init, x, r[i]);
        if j < |seen| {
          FirstIndexExtend(init, x, r[j]);
        } else {
          assert r[j] == x && x !in init;
          assert FirstIndex(xs, x) == |init| by {
            assert xs[|init|] == x;
            assert x !in xs[..|init|];
          }
        }
      }
    }
  }

  /** Rows in reverse insertion order: `ORDER BY created_at DESC` over rows stamped as inserted. */
  function Reverse<T>(xs: seq<T>): (r: seq<T>)
    ensures |r| == |xs|
    ensures forall k :: 0 <= k < |xs| ==> r[k] == xs[|xs| - 1 - k]
  {
    if xs == [] then [] else Reverse(xs[1..]) + [xs[0]]
  }

  lemma ReverseMember<T>(xs: seq<T>, x: T)
    ensures x in Reverse(xs) <==> x in xs
  {
    if x in xs {
      var k :| 0 <= k < |xs| && xs[k] == x;
      assert Reverse(xs)[|xs| - 1 - k] == x;
    }
  }

  /** Reversing twice gives back the original order. */
  lemma ReverseTwice<T>(xs: seq<T>)
    ensures Reverse(Reverse(xs)) == xs
  {
    assert forall k :: 0 <= k < |xs| ==> Reverse(Reverse(xs))[k] == xs[k];
  }
}
