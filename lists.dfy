/**
 * The list operations the routes and scripts use: `Array.prototype.filter`,
 * and ordering by a numeric key (`ORDER BY ... DESC` in MySQL, and
 * `Array.prototype.sort` with a comparator `(a, b) => key(b) - key(a)` or
 * `key(a) - key(b)`, which is stable).
 */
module Lists {

  /** `xs.filter(p)`. */
  function Filter<T>(xs: seq<T>, p: T -> bool): (r: seq<T>)
    ensures |r| <= |xs|
    ensures forall i :: 0 <= i < |r| ==> p(r[i]) && r[i] in xs
    ensures forall i :: 0 <= i < |xs| && p(xs[i]) ==> xs[i] in r
    ensures multiset(r) <= multiset(xs)
  {
    if xs == [] then []
    else
      assert xs == [xs[0]] + xs[1..];
      if p(xs[0]) then [xs[0]] + Filter(xs[1..], p) else Filter(xs[1..], p)
  }

  /** An element is kept exactly when it is in the list and passes the test. */
  lemma FilterMembers<T>(xs: seq<T>, p: T -> bool)
    ensures forall x :: x in Filter(xs, p) <==> x in xs && p(x)
  {
    var r := Filter(xs, p);
    forall x | x in xs && p(x) ensures x in r {
      var k :| 0 <= k < |xs| && xs[k] == x;
    }
  }

  /** Each element is kept exactly as often as it occurs when it passes the test, and dropped when it fails. */
  lemma {:induction false} FilterKeepsCopies<T>(xs: seq<T>, p: T -> bool, x: T)
    ensures multiset(Filter(xs, p))[x] == if p(x) then multiset(xs)[x] else 0
  {
    if xs != [] {
      var h, t := xs[0], xs[1..];
      FilterKeepsCopies(t, p, x);
      assert xs == [h] + t;
      assert multiset(xs) == multiset([h]) + multiset(t);
      if p(h) {
        assert Filter(xs, p) == [h] + Filter(t, p);
        assert multiset(Filter(xs, p)) == multiset([h]) + multiset(Filter(t, p));
      } else {
        assert Filter(xs, p) == Filter(t, p);
      }
    }
  }

  /** Filtering keeps the order of the input: the kept part of a front comes before the kept part of a back. */
  lemma {:induction false} FilterAppend<T>(xs: seq<T>, ys: seq<T>, p: T -> bool)
    ensures Filter(xs + ys, p) == Filter(xs, p) + Filter(ys, p)
  {
    if xs != [] {
      assert (xs + ys)[1..] == xs[1..] + ys;
      FilterAppend(xs[1..], ys, p);
    } else {
      assert xs + ys == ys;
    }
  }

  /** Filtering keeps the order of the kept elements: filtering twice by the same test changes nothing. */
  lemma {:induction false} FilterIdempotent<T>(xs: seq<T>, p: T -> bool)
    ensures Filter(Filter(xs, p), p) == Filter(xs, p)
  {
    if xs != [] {
      FilterIdempotent(xs[1..], p);
    }
  }

  /** Strictly increasing keys. */
  predicate StrictlyIncreasing<T>(xs: seq<T>, key: T -> int)
  {
    forall i, j :: 0 <= i < j < |xs| ==> key(xs[i]) < key(xs[j])
  }

  /** Filtering keeps the relative order of the kept elements. */
  lemma {:induction false} FilterKeepsIncreasing<T>(xs: seq<T>, p: T -> bool, key: T -> int)
    requires StrictlyIncreasing(xs, key)
    ensures StrictlyIncreasing(Filter(xs, p), key)
  {
    if xs != [] {
      var rest := xs[1..];
      assert StrictlyIncreasing(rest, key) by {
        forall i, j | 0 <= i < j < |rest| ensures key(rest[i]) < key(rest[j]) {
          assert rest[i] == xs[i + 1] && rest[j] == xs[j + 1];
        }
      }
      FilterKeepsIncreasing(rest, p, key);
      var fr := Filter(rest, p);
      if p(xs[0]) {
        HeadBelowFiltered(xs, p, key);
        ConsIncreasing(xs[0], fr, key);
      }
    }
  }

  /** The head of a strictly increasing list is below every kept element of its tail. */
  lemma HeadBelowFiltered<T>(xs: seq<T>, p: T -> bool, key: T -> int)
    requires xs != [] && StrictlyIncreasing(xs, key)
    ensures forall j :: 0 <= j < |Filter(xs[1..], p)| ==> key(xs[0]) < key(Filter(xs[1..], p)[j])
  {
    var rest := xs[1..];
    var fr := Filter(rest, p);
    forall j | 0 <= j < |fr|
      ensures key(xs[0]) < key(fr[j])
    {
      var k :| 0 <= k < |rest| && rest[k] == fr[j];
      assert xs[k + 1] == fr[j];
    }
  }

  /** An element below every element of an increasing list can go in front. */
  lemma ConsIncreasing<T>(x: T, ys: seq<T>, key: T -> int)
    requires StrictlyIncreasing(ys, key)
    requires forall j :: 0 <= j < |ys| ==> key(x) < key(ys[j])
    ensures StrictlyIncreasing([x] + ys, key)
  {
    var r := [x] + ys;
    forall i, j | 0 <= i < j < |r| ensures key(r[i]) < key(r[j]) {
      assert r[j] == ys[j - 1];
      if i > 0 {
        assert r[i] == ys[i - 1];
      }
    }
  }

  /** No key twice. */
  predicate DistinctKeys<T, K(==)>(xs: seq<T>, key: T -> K)
  {
    forall i, j :: 0 <= i < j < |xs| ==> key(xs[i]) != key(xs[j])
  }

  /** Filtering keeps keys distinct. */
  lemma {:induction false} FilterKeepsDistinct<T, K>(xs: seq<T>, p: T -> bool, key: T -> K)
    requires DistinctKeys(xs, key)
    ensures DistinctKeys(Filter(xs, p), key)
  {
    if xs != [] {
      var rest := xs[1..];
      assert DistinctKeys(rest, key) by {
        forall i, j | 0 <= i < j < |rest| ensures key(rest[i]) != key(rest[j]) {
          assert rest[i] == xs[i + 1] && rest[j] == xs[j + 1];
        }
      }
      FilterKeepsDistinct(rest, p, key);
      if p(xs[0]) {
        HeadKeyNotFiltered(xs, p, key);
        ConsDistinct(xs[0], Filter(rest, p), key);
      }
    }
  }

  /** The head's key differs from the key of every kept element of the tail. */
  lemma HeadKeyNotFiltered<T, K>(xs: seq<T>, p: T -> bool, key: T -> K)
    requires xs != [] && DistinctKeys(xs, key)
    ensures forall j :: 0 <= j < |Filter(xs[1..], p)| ==> key(xs[0]) != key(Filter(xs[1..], p)[j])
  {
    var rest := xs[1..];
    var fr := Filter(rest, p);
    forall j | 0 <= j < |fr|
      ensures key(xs[0]) != key(fr[j])
    {
      var k :| 0 <= k < |rest| && rest[k] == fr[j];
      assert xs[k + 1] == fr[j];
    }
  }

  /** An element whose key is new can go in front. */
  lemma ConsDistinct<T, K>(x: T, ys: seq<T>, key: T -> K)
    requires DistinctKeys(ys, key)
    requires forall j :: 0 <= j < |ys| ==> key(x) != key(ys[j])
    ensures DistinctKeys([x] + ys, key)
  {
    var r := [x] + ys;
    forall i, j | 0 <= i < j < |r| ensures key(r[i]) != key(r[j]) {
      assert r[j] == ys[j - 1];
      if i > 0 {
        assert r[i] == ys[i - 1];
      }
    }
  }

  /** Largest key first. */
  predicate NonIncreasing<T>(xs: seq<T>, key: T -> real)
  {
    forall i, j :: 0 <= i < j < |xs| ==> key(xs[i]) >= key(xs[j])
  }

  /** Smallest key first. */
  predicate NonDecreasing<T>(xs: seq<T>, key: T -> real)
  {
    forall i, j :: 0 <= i < j < |xs| ==> key(xs[i]) <= key(xs[j])
  }

  /**
   * Places `x` in front of the first element whose key is not larger than
   * its own, so that `x` stays ahead of the elements it ties with.
   */
  function InsertDesc<T>(x: T, ys: seq<T>, key: T -> real): (r: seq<T>)
    ensures multiset(r) == multiset(ys) + multiset{x}
  {
    if ys == [] || key(x) >= key(ys[0]) then [x] + ys
    else
      assert ys == [ys[0]] + ys[1..];
      [ys[0]] + InsertDesc(x, ys[1..], key)
  }

  lemma {:induction false} InsertDescKeepsOrder<T>(x: T, ys: seq<T>, key: T -> real)
    requires NonIncreasing(ys, key)
    ensures NonIncreasing(InsertDesc(x, ys, key), key)
  {
    if ys != [] && key(x) < key(ys[0]) {
      var rest := InsertDesc(x, ys[1..], key);
      InsertDescKeepsOrder(x, ys[1..], key);
      forall j | 0 <= j < |rest|
        ensures key(rest[j]) <= key(ys[0])
      {
        assert rest[j] in multiset(rest);
        if rest[j] != x {
          assert rest[j] in multiset(ys[1..]);
          var k :| 0 <= k < |ys[1..]| && ys[1..][k] == rest[j];
          assert ys[k + 1] == rest[j];
        }
      }
    }
  }

  /** Stable insertion sort, largest key first. */
  function SortDesc<T>(xs: seq<T>, key: T -> real): (r: seq<T>)
    ensures multiset(r) == multiset(xs)
  {
    if xs == [] then []
    else
      assert xs == [xs[0]] + xs[1..];
      InsertDesc(xs[0], SortDesc(xs[1..], key), key)
  }

  /** The sorted list is ordered largest key first. */
  lemma {:induction false} SortDescOrders<T>(xs: seq<T>, key: T -> real)
    ensures NonIncreasing(SortDesc(xs, key), key)
  {
    if xs != [] {
      SortDescOrders(xs[1..], key);
      InsertDescKeepsOrder(xs[0], SortDesc(xs[1..], key), key);
    }
  }

  /** Stable sort, smallest key first: the descending sort of the negated key. */
  function SortAsc<T>(xs: seq<T>, key: T -> real): (r: seq<T>)
    ensures multiset(r) == multiset(xs)
  {
    SortDesc(xs, x => -key(x))
  }

  lemma SortAscOrders<T>(xs: seq<T>, key: T -> real)
    ensures NonDecreasing(SortAsc(xs, key), key)
  {
    SortDescOrders(xs, x => -key(x));
  }
}
