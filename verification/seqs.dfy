/** Order-preserving filtering and counting over sequences, as `Array.prototype.filter` does it. */
module Seqs {
  import opened Wrappers

  /** The elements of `xs` that satisfy `p`, in their original order. */
  function Filter<T>(xs: seq<T>, p: T -> bool): (r: seq<T>)
    ensures |r| <= |xs|
    ensures forall i :: 0 <= i < |r| ==> p(r[i])
    ensures forall i :: 0 <= i < |r| ==> r[i] in xs
    ensures forall i :: 0 <= i < |xs| && p(xs[i]) ==> xs[i] in r
  {
    if |xs| == 0 then []
    else
      var init := Filter(xs[..|xs| - 1], p);
      var last := xs[|xs| - 1];
      assert xs == xs[..|xs| - 1] + [last];
      if p(last) then init + [last] else init
  }

  lemma {:induction false} FilterAppend<T>(xs: seq<T>, ys: seq<T>, p: T -> bool)
    ensures Filter(xs + ys, p) == Filter(xs, p) + Filter(ys, p)
    decreases |ys|
  {
    if |ys| == 0 {
      assert xs + ys == xs;
    } else {
      var n := |ys| - 1;
      assert (xs + ys)[..|xs + ys| - 1] == xs + ys[..n];
      FilterAppend(xs, ys[..n], p);
    }
  }

  /** Filtering with a predicate that every element satisfies keeps everything. */
  lemma {:induction false} FilterAll<T>(xs: seq<T>, p: T -> bool)
    requires forall i :: 0 <= i < |xs| ==> p(xs[i])
    ensures Filter(xs, p) == xs
    decreases |xs|
  {
    if |xs| > 0 {
      FilterAll(xs[..|xs| - 1], p);
      assert xs == xs[..|xs| - 1] + [xs[|xs| - 1]];
    }
  }

  /** Filtering with a predicate that no element satisfies keeps nothing. */
  lemma FilterNone<T>(xs: seq<T>, p: T -> bool)
    requires forall i :: 0 <= i < |xs| ==> !p(xs[i])
    ensures Filter(xs, p) == []
  {
  }

  /** Filtering twice is filtering once by the conjunction. */
  lemma {:induction false} FilterFilter<T>(xs: seq<T>, p: T -> bool, q: T -> bool)
    ensures Filter(Filter(xs, p), q) == Filter(xs, x => p(x) && q(x))
    decreases |xs|
  {
    if |xs| > 0 {
      var init := xs[..|xs| - 1];
      var last := xs[|xs| - 1];
      FilterFilter(init, p, q);
      if p(last) {
        FilterAppend(Filter(init, p), [last], q);
        assert Filter([last], q) == (if q(last) then [last] else []) by {
          assert [last][..0] == [];
        }
      }
    }
  }

  /** The number of elements that satisfy `p`. */
  function Count<T>(xs: seq<T>, p: T -> bool): (n: nat)
    ensures n <= |xs|
  {
    |Filter(xs, p)|
  }

  /** Counts by two predicates that never hold together add up to the count by their disjunction `pq`. */
  lemma {:induction false} CountDisjoint<T>(xs: seq<T>, p: T -> bool, q: T -> bool, pq: T -> bool)
    requires forall x :: !(p(x) && q(x))
    requires forall x :: pq(x) == (p(x) || q(x))
    ensures Count(xs, p) + Count(xs, q) == Count(xs, pq)
    decreases |xs|
  {
    if |xs| > 0 {
      CountDisjoint(xs[..|xs| - 1], p, q, pq);
    }
  }

  /** Counting by a predicate and by its negation `np` partitions the sequence. */
  lemma {:induction false} CountComplement<T>(xs: seq<T>, p: T -> bool, np: T -> bool)
    requires forall x :: np(x) == !p(x)
    ensures Count(xs, p) + Count(xs, np) == |xs|
    decreases |xs|
  {
    if |xs| > 0 {
      CountComplement(xs[..|xs| - 1], p, np);
    }
  }

  /** The count reaches the length exactly when every element satisfies `p`. */
  lemma {:induction false} CountAllIff<T>(xs: seq<T>, p: T -> bool)
    ensures Count(xs, p) == |xs| <==> forall i :: 0 <= i < |xs| ==> p(xs[i])
    decreases |xs|
  {
    if |xs| > 0 {
      var init := xs[..|xs| - 1];
      CountAllIff(init, p);
      if forall i :: 0 <= i < |xs| ==> p(xs[i]) {
        forall i | 0 <= i < |init| ensures p(init[i]) {
          assert init[i] == xs[i];
        }
      }
      if Count(xs, p) == |xs| {
        forall i | 0 <= i < |xs| ensures p(xs[i]) {
          if i < |init| {
            assert xs[i] == init[i];
          }
        }
      }
    }
  }

  /** Counting by predicates that agree on every element gives the same count. */
  lemma {:induction false} CountCongruent<T>(xs: seq<T>, p: T -> bool, q: T -> bool)
    requires forall i :: 0 <= i < |xs| ==> (p(xs[i]) <==> q(xs[i]))
    ensures Filter(xs, p) == Filter(xs, q)
    decreases |xs|
  {
    if |xs| > 0 {
      CountCongruent(xs[..|xs| - 1], p, q);
    }
  }

  /** Replacing one element changes the count by what the old and the new element contribute. */
  lemma {:induction false} CountUpdate<T>(xs: seq<T>, i: nat, y: T, p: T -> bool)
    requires i < |xs|
    ensures Count(xs[i := y], p) + (if p(xs[i]) then 1 else 0) == Count(xs, p) + (if p(y) then 1 else 0)
    decreases |xs|
  {
    var n := |xs| - 1;
    var ys := xs[i := y];
    if i == n {
      assert ys[..n] == xs[..n];
    } else {
      assert ys[..n] == xs[..n][i := y];
      CountUpdate(xs[..n], i, y, p);
    }
  }

  /** The index of the first element satisfying `p` (`findIndex`), if any. */
  function FindIndex<T>(xs: seq<T>, p: T -> bool): (r: Option<nat>)
    ensures r.Some? ==> r.value < |xs| && p(xs[r.value]) && forall j :: 0 <= j < r.value ==> !p(xs[j])
    ensures r.None? <==> forall j :: 0 <= j < |xs| ==> !p(xs[j])
  {
    if |xs| == 0 then None
    else if p(xs[0]) then Some(0)
    else match FindIndex(xs[1..], p)
      case None => None
      case Some(k) => Some(k + 1)
  }
}
