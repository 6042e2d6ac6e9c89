/** Order-related helpers for the repository queries: filtering rows of a
    table and sorting them by an integer key (the JPQL `ORDER BY`). */
module Sorting {

  /** Every element's key is at most the key of every later element. */
  predicate SortedBy<T>(xs: seq<T>, key: T -> int)
  {
    forall i, j :: 0 <= i < j < |xs| ==> key(xs[i]) <= key(xs[j])
  }

  /** Every key in `xs` is at least `k`. */
  predicate AllAtLeast<T>(xs: seq<T>, key: T -> int, k: int)
  {
    forall i :: 0 <= i < |xs| ==> k <= key(xs[i])
  }

  /** The rows of `xs` that satisfy `keep`, in their original order. */
  function FilterBy<T(!new)>(xs: seq<T>, keep: T -> bool): (r: seq<T>)
    ensures forall x :: x in r <==> x in xs && keep(x)
    ensures multiset(r) <= multiset(xs)
    ensures forall x :: keep(x) ==> multiset(r)[x] == multiset(xs)[x]
    ensures |r| <= |xs|
  {
    if |xs| == 0 then []
    else
      var rest := FilterBy(xs[1..], keep);
      assert xs == [xs[0]] + xs[1..];
      if keep(xs[0]) then [xs[0]] + rest else rest
  }

  /** Places `x` into the sorted sequence `xs` so that the result stays sorted. */
  function InsertBy<T>(x: T, xs: seq<T>, key: T -> int): (r: seq<T>)
    requires SortedBy(xs, key)
    ensures SortedBy(r, key)
    ensures multiset(r) == multiset(xs) + multiset{x}
    ensures forall k :: AllAtLeast(xs, key, k) && k <= key(x) ==> AllAtLeast(r, key, k)
  {
    if |xs| == 0 then [x]
    else if key(x) <= key(xs[0]) then [x] + xs
    else
      var rest := InsertBy(x, xs[1..], key);
      assert xs == [xs[0]] + xs[1..];
      assert AllAtLeast(xs[1..], key, key(xs[0]));
      [xs[0]] + rest
  }

  /** An ascending permutation of `xs` by `key` (insertion sort). */
  function SortBy<T>(xs: seq<T>, key: T -> int): (r: seq<T>)
    ensures SortedBy(r, key)
    ensures multiset(r) == multiset(xs)
  {
    if |xs| == 0 then []
    else
      assert xs == [xs[0]] + xs[1..];
      InsertBy(xs[0], SortBy(xs[1..], key), key)
  }

  /** Sequences that are permutations of each other hold the same elements. */
  lemma SameMembers<T>(a: seq<T>, b: seq<T>)
    requires multiset(a) == multiset(b)
    ensures forall x :: x in a <==> x in b
  {
    forall x
      ensures x in a <==> x in b
    {
      assert x in a <==> x in multiset(a);
      assert x in b <==> x in multiset(b);
    }
  }
}
