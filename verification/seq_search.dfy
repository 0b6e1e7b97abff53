/**
 * Order-preserving searches and filters over sequences: the `stream().filter(...)`
 * and `findFirst()` shapes the controllers use on lists read from the store.
 */
module SeqSearch {
  import opened Wrappers

  /** The index of the first element satisfying `p` (`filter(p).findFirst()`), if any. */
  function FirstIndexWhere<T>(xs: seq<T>, p: T -> bool): (r: Option<nat>)
    ensures r.Some? ==> r.value < |xs| && p(xs[r.value])
    ensures r.Some? ==> forall k :: 0 <= k < r.value ==> !p(xs[k])
    ensures r.None? ==> forall k :: 0 <= k < |xs| ==> !p(xs[k])
  {
    if xs == [] then None
    else if p(xs[0]) then Some(0)
    else
      match FirstIndexWhere(xs[1..], p)
      case None => None
      case Some(k) => Some(k + 1)
  }

  /** `a` is obtained from `b` by deleting elements, without reordering the rest. */
  predicate IsSubsequence<T(==)>(a: seq<T>, b: seq<T>)
    decreases |b|
  {
    a == [] || (b != [] && ((a[0] == b[0] && IsSubsequence(a[1..], b[1..])) || IsSubsequence(a, b[1..])))
  }

  /** `stream().filter(p).collect(toList())`: the elements satisfying `p`, in their original order. */
  function Filter<T(==, !new)>(xs: seq<T>, p: T -> bool): (r: seq<T>)
    ensures forall x :: x in r <==> x in xs && p(x)
    ensures forall x :: multiset(r)[x] == if p(x) then multiset(xs)[x] else 0
    ensures IsSubsequence(r, xs)
  {
    if xs == [] then []
    else
      var rest := Filter(xs[1..], p);
      assert xs == [xs[0]] + xs[1..];
      if p(xs[0]) then
        assert ([xs[0]] + rest)[1..] == rest;
        [xs[0]] + rest
      else
        rest
  }

  /** Keys never increase along `xs`. */
  predicate SortedDescending<T>(xs: seq<T>, key: T -> int) {
    forall i, j :: 0 <= i < j < |xs| ==> key(xs[i]) >= key(xs[j])
  }

  /** Inserts `x` into a descending list after every element whose key is at least as large. */
  function InsertDescending<T>(x: T, sorted: seq<T>, key: T -> int): (r: seq<T>)
    requires SortedDescending(sorted, key)
    ensures SortedDescending(r, key)
    ensures multiset(r) == multiset(sorted) + multiset{x}
  {
    if sorted == [] || key(x) > key(sorted[0]) then
      HeadFirst(x, sorted, key);
      [x] + sorted
    else
      var head := sorted[0];
      var rest := sorted[1..];
      assert sorted == [head] + rest;
      var tail := InsertDescending(x, rest, key);
      forall y | y in tail
        ensures key(head) >= key(y)
      {
        assert y in multiset(rest) + multiset{x};
        if y != x {
          assert y in multiset(rest);
          var j :| 0 <= j < |rest| && rest[j] == y;
          assert sorted[j + 1] == y;
        }
      }
      HeadFirst(head, tail, key);
      assert multiset([head] + tail) == multiset{head} + multiset(tail);
      [head] + tail
  }

  /** Putting an element no smaller than every other in front keeps the list descending. */
  lemma HeadFirst<T>(h: T, tail: seq<T>, key: T -> int)
    requires SortedDescending(tail, key)
    requires forall y :: y in tail ==> key(h) >= key(y)
    ensures SortedDescending([h] + tail, key)
  {
    var r := [h] + tail;
    forall i, j | 0 <= i < j < |r|
      ensures key(r[i]) >= key(r[j])
    {
      assert r[j] == tail[j - 1];
      if i > 0 {
        assert r[i] == tail[i - 1];
      }
    }
  }

  /**
   * Insertion sort by descending key. Later elements go after earlier ones of
   * equal key, so ties keep their original order.
   */
  function SortDescending<T>(xs: seq<T>, key: T -> int): (r: seq<T>)
    ensures SortedDescending(r, key)
    ensures multiset(r) == multiset(xs)
  {
    if xs == [] then []
    else
      assert xs == xs[..|xs| - 1] + [xs[|xs| - 1]];
      InsertDescending(xs[|xs| - 1], SortDescending(xs[..|xs| - 1], key), key)
  }
}
