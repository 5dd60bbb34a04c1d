/**
 * `Meta.ordering = ['order']`: a queryset of questions or options comes back
 * sorted by its `order` column. Modelled as an insertion sort by a key.
 */
module Ordering {

  ghost predicate SortedBy<T>(xs: seq<T>, key: T -> nat) {
    forall i, j :: 0 <= i < j < |xs| ==> key(xs[i]) <= key(xs[j])
  }

  /** A key no larger than any key of a sorted sequence can go in front. */
  lemma ConsSorted<T>(h: T, t: seq<T>, key: T -> nat)
    requires SortedBy(t, key)
    requires forall y :: y in t ==> key(h) <= key(y)
    ensures SortedBy([h] + t, key)
  {
    var r := [h] + t;
    forall i, j | 0 <= i < j < |r|
      ensures key(r[i]) <= key(r[j])
    {
      assert r[j] == t[j - 1];
      if i > 0 {
        assert r[i] == t[i - 1];
      } else {
        assert r[j] in t;
      }
    }
  }

  /** Put `x` in front of the first element whose key is not smaller. */
  function InsertBy<T(==)>(x: T, xs: seq<T>, key: T -> nat): (r: seq<T>)
    requires SortedBy(xs, key)
    ensures SortedBy(r, key)
    ensures multiset(r) == multiset(xs) + multiset{x}
  {
    if xs == [] || key(x) <= key(xs[0]) then
      ConsSorted(x, xs, key);
      [x] + xs
    else
      var h, t := xs[0], xs[1..];
      assert xs == [h] + t;
      assert SortedBy(t, key);
      var rest := InsertBy(x, t, key);
      forall y | y in rest
        ensures key(h) <= key(y)
      {
        assert y in multiset(rest);
        if y != x {
          assert y in t;
        }
      }
      ConsSorted(h, rest, key);
      [h] + rest
  }

  /** The rows in ascending key order: a permutation of the input. */
  function SortBy<T(==)>(xs: seq<T>, key: T -> nat): (r: seq<T>)
    ensures SortedBy(r, key)
    ensures multiset(r) == multiset(xs)
  {
    if xs == [] then []
    else
      assert xs == [xs[0]] + xs[1..];
      InsertBy(xs[0], SortBy(xs[1..], key), key)
  }
}
