/**
 * The `.sort({ createdAt: -1 })` of the listings: records ordered by a
 * timestamp key, newest first. The store sorts; the model states that order
 * as a function (an insertion into an ordered list) with its two properties,
 * order and permutation, proved. Among records with equal keys the model
 * keeps store order.
 */
module Ordering {

  /** `xs` is ordered by `key`, largest first. */
  ghost predicate NewestFirstOrdered<T>(xs: seq<T>, key: T -> int) {
    forall i, j :: 0 <= i < j < |xs| ==> key(xs[i]) >= key(xs[j])
  }

  /** Inserts `x` into the ordered `sorted`, before the first entry that is
      not newer than it. */
  function InsertNewest<T>(x: T, sorted: seq<T>, key: T -> int): (r: seq<T>)
    ensures multiset(r) == multiset(sorted) + multiset{x}
    ensures |r| == |sorted| + 1
  {
    if |sorted| == 0 then [x]
    else if key(x) >= key(sorted[0]) then [x] + sorted
    else
      assert sorted == [sorted[0]] + sorted[1..];
      [sorted[0]] + InsertNewest(x, sorted[1..], key)
  }

  /** `xs` ordered newest first. */
  function NewestFirst<T>(xs: seq<T>, key: T -> int): (r: seq<T>)
    ensures multiset(r) == multiset(xs)
    ensures |r| == |xs|
  {
    if |xs| == 0 then []
    else
      assert xs == [xs[0]] + xs[1..];
      InsertNewest(xs[0], NewestFirst(xs[1..], key), key)
  }

  /** Insertion keeps a list ordered. */
  lemma {:induction false} InsertNewestOrdered<T>(x: T, sorted: seq<T>, key: T -> int)
    requires NewestFirstOrdered(sorted, key)
    ensures NewestFirstOrdered(InsertNewest(x, sorted, key), key)
  {
    if |sorted| > 0 && key(x) < key(sorted[0]) {
      var rest := sorted[1..];
      assert NewestFirstOrdered(rest, key) by {
        forall i, j | 0 <= i < j < |rest| ensures key(rest[i]) >= key(rest[j]) {
          assert rest[i] == sorted[i + 1] && rest[j] == sorted[j + 1];
        }
      }
      InsertNewestOrdered(x, rest, key);
      var tail := InsertNewest(x, rest, key);
      var r := [sorted[0]] + tail;
      forall k | 0 <= k < |tail| ensures key(sorted[0]) >= key(tail[k]) {
        assert tail[k] in multiset(tail);
        assert tail[k] in multiset(rest) + multiset{x};
        if tail[k] in multiset(rest) {
          var m :| 0 <= m < |rest| && rest[m] == tail[k];
          assert rest[m] == sorted[m + 1];
        }
      }
      forall i, j | 0 <= i < j < |r| ensures key(r[i]) >= key(r[j]) {
        if i > 0 {
          assert r[i] == tail[i - 1] && r[j] == tail[j - 1];
        } else {
          assert r[j] == tail[j - 1];
        }
      }
    }
  }

  /** The listing order holds: every entry is at least as new as every later one. */
  lemma {:induction false} NewestFirstIsOrdered<T>(xs: seq<T>, key: T -> int)
    ensures NewestFirstOrdered(NewestFirst(xs, key), key)
  {
    if |xs| > 0 {
      NewestFirstIsOrdered(xs[1..], key);
      InsertNewestOrdered(xs[0], NewestFirst(xs[1..], key), key);
    }
  }
}
