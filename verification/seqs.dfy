/** Order-preserving list operations the screens use: `Array.prototype.filter`,
    `slice(0, n)`, and a stable sort by a ranking of the sort key. */
module Seqs {

  /** `xs.filter(p)`. */
  function Filter<T(!new)>(xs: seq<T>, p: T -> bool): (r: seq<T>)
    ensures |r| <= |xs|
    ensures |xs| == 1 ==> r == if p(xs[0]) then xs else []
    ensures forall x :: x in r <==> x in xs && p(x)
    ensures multiset(r) <= multiset(xs)
  {
    if |xs| == 0 then []
    else
      var rest := Filter(xs[1..], p);
      assert xs == [xs[0]] + xs[1..];
      if p(xs[0]) then [xs[0]] + rest else rest
  }

  /** A filter keeps every copy of an element that passes and no copy of
      one that fails. */
  lemma {:induction false} FilterCount<T(!new)>(xs: seq<T>, p: T -> bool)
    ensures forall x :: multiset(Filter(xs, p))[x] == if p(x) then multiset(xs)[x] else 0
    decreases |xs|
  {
    if |xs| > 0 {
      FilterCount(xs[1..], p);
      assert xs == [xs[0]] + xs[1..];
    }
  }

  /** Filtering a concatenation filters each part: together with the
      one-element case this says the kept elements stay in their order. */
  lemma {:induction false} FilterAppend<T(!new)>(xs: seq<T>, ys: seq<T>, p: T -> bool)
    ensures Filter(xs + ys, p) == Filter(xs, p) + Filter(ys, p)
    decreases |xs|
  {
    if |xs| > 0 {
      assert (xs + ys)[1..] == xs[1..] + ys;
      FilterAppend(xs[1..], ys, p);
    } else {
      assert xs + ys == ys;
    }
  }

  /** A filter every element passes keeps the whole list. */
  lemma {:induction false} FilterKeepsAll<T(!new)>(xs: seq<T>, p: T -> bool)
    requires forall k :: 0 <= k < |xs| ==> p(xs[k])
    ensures Filter(xs, p) == xs
    decreases |xs|
  {
    if |xs| > 0 {
      FilterKeepsAll(xs[1..], p);
      assert xs == [xs[0]] + xs[1..];
    }
  }

  /** A filter no element passes keeps nothing. */
  lemma {:induction false} FilterKeepsNone<T(!new)>(xs: seq<T>, p: T -> bool)
    requires forall k :: 0 <= k < |xs| ==> !p(xs[k])
    ensures Filter(xs, p) == []
    decreases |xs|
  {
    if |xs| > 0 {
      FilterKeepsNone(xs[1..], p);
    }
  }

  /** `xs.slice(0, n)`. */
  function Take<T>(xs: seq<T>, n: nat): (r: seq<T>)
    ensures |r| == if |xs| <= n then |xs| else n
    ensures r == xs[..|r|]
  {
    if |xs| <= n then xs else xs[..n]
  }

  /** `xs` is ordered by `rank`. */
  predicate SortedBy<T>(xs: seq<T>, rank: T -> real) {
    forall i, j :: 0 <= i < j < |xs| ==> rank(xs[i]) <= rank(xs[j])
  }

  /** Put `x` into the sorted `xs` after every element ranked no higher. */
  function Insert<T>(x: T, xs: seq<T>, rank: T -> real): (r: seq<T>)
    requires SortedBy(xs, rank)
    ensures SortedBy(r, rank)
    ensures multiset(r) == multiset(xs) + multiset{x}
    ensures |r| == |xs| + 1
    ensures r[0] == x || (|xs| > 0 && r[0] == xs[0])
  {
    if xs == [] then [x]
    else if rank(xs[0]) <= rank(x) then
      var rest := Insert(x, xs[1..], rank);
      assert multiset([xs[0]] + rest) == multiset(xs) + multiset{x} by {
        assert xs == [xs[0]] + xs[1..];
      }
      ConsSorted(xs[0], rest, rank);
      [xs[0]] + rest
    else
      ConsSorted(x, xs, rank);
      [x] + xs
  }

  /** An element ranked no higher than the head of a sorted list can go
      in front of it. */
  lemma ConsSorted<T>(a: T, xs: seq<T>, rank: T -> real)
    requires SortedBy(xs, rank) && (|xs| > 0 ==> rank(a) <= rank(xs[0]))
    ensures SortedBy([a] + xs, rank)
  {
    var r := [a] + xs;
    forall i, j | 0 <= i < j < |r| ensures rank(r[i]) <= rank(r[j]) {
      assert r[j] == xs[j - 1];
      if i > 0 {
        assert r[i] == xs[i - 1];
      } else if j > 1 {
        assert rank(xs[0]) <= rank(xs[j - 1]);
      }
    }
  }

  /** `xs.sort((a, b) => compare(a, b))` for a comparator that orders by
      `rank`: a stable insertion sort. */
  function SortBy<T(!new)>(xs: seq<T>, rank: T -> real): (r: seq<T>)
    ensures SortedBy(r, rank)
    ensures multiset(r) == multiset(xs)
    ensures |r| == |xs|
    ensures forall x :: x in r <==> x in xs
  {
    if xs == [] then []
    else
      assert xs == xs[..|xs| - 1] + [xs[|xs| - 1]];
      var r := Insert(xs[|xs| - 1], SortBy(xs[..|xs| - 1], rank), rank);
      assert forall x :: x in r <==> x in multiset(r);
      assert forall x :: x in xs <==> x in multiset(xs);
      r
  }

  /** An element ranked at least as high as all others goes last. */
  lemma {:induction false} InsertAtEnd<T>(x: T, xs: seq<T>, rank: T -> real)
    requires SortedBy(xs, rank)
    requires forall k :: 0 <= k < |xs| ==> rank(xs[k]) <= rank(x)
    ensures Insert(x, xs, rank) == xs + [x]
  {
    if xs != [] {
      InsertAtEnd(x, xs[1..], rank);
      assert xs == [xs[0]] + xs[1..];
    }
  }

  /** Sorting an already sorted list leaves it as it is, so sorting twice
      is sorting once. */
  lemma {:induction false} SortSorted<T(!new)>(xs: seq<T>, rank: T -> real)
    requires SortedBy(xs, rank)
    ensures SortBy(xs, rank) == xs
  {
    if xs != [] {
      var init, last := xs[..|xs| - 1], xs[|xs| - 1];
      SortedSplit(xs, rank);
      SortSorted(init, rank);
      InsertAtEnd(last, init, rank);
      SortByLast(xs, rank);
    }
  }

  /** Sorting a non-empty list inserts its last element into its sorted
      front. */
  lemma SortByLast<T(!new)>(xs: seq<T>, rank: T -> real)
    requires xs != []
    ensures SortBy(xs, rank) == Insert(xs[|xs| - 1], SortBy(xs[..|xs| - 1], rank), rank)
  {
  }

  /** The front of a sorted list is sorted and ranked no higher than its
      last element, which ends it. */
  lemma SortedSplit<T>(xs: seq<T>, rank: T -> real)
    requires xs != [] && SortedBy(xs, rank)
    ensures SortedBy(xs[..|xs| - 1], rank)
    ensures forall k :: 0 <= k < |xs| - 1 ==> rank(xs[k]) <= rank(xs[|xs| - 1])
    ensures xs[..|xs| - 1] + [xs[|xs| - 1]] == xs
  {
  }
}
