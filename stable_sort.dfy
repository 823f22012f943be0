/**
 * Python's `sorted(xs, key=...)` on integer keys: a stable sort, written as an
 * insertion sort.
 */
module StableSorts {
  ghost predicate SortedBy<T>(xs: seq<T>, key: T -> int) {
    forall i, j | 0 <= i < j < |xs| :: key(xs[i]) <= key(xs[j])
  }

  /** Puts `x` after every element of `xs` whose key is no greater than its own. */
  function Insert<T>(x: T, xs: seq<T>, key: T -> int): (r: seq<T>)
    ensures multiset(r) == multiset(xs) + multiset{x}
  {
    if |xs| == 0 || key(x) < key(xs[0]) then [x] + xs
    else
      assert xs == [xs[0]] + xs[1..];
      [xs[0]] + Insert(x, xs[1..], key)
  }

  function Sort<T>(xs: seq<T>, key: T -> int): seq<T> {
    if |xs| == 0 then [] else Insert(xs[|xs| - 1], Sort(xs[..|xs| - 1], key), key)
  }

  lemma {:induction false} InsertSorted<T>(x: T, xs: seq<T>, key: T -> int)
    requires SortedBy(xs, key)
    ensures SortedBy(Insert(x, xs, key), key)
  {
    if |xs| > 0 && key(x) >= key(xs[0]) {
      var rest := Insert(x, xs[1..], key);
      InsertSorted(x, xs[1..], key);
      forall y | y in rest
        ensures key(xs[0]) <= key(y)
      {
        assert y in multiset(rest);
        assert y in multiset(xs[1..]) || y == x;
      }
      ConsSorted(xs[0], rest, key);
    }
  }

  lemma ConsSorted<T>(h: T, rest: seq<T>, key: T -> int)
    requires SortedBy(rest, key)
    requires forall y | y in rest :: key(h) <= key(y)
    ensures SortedBy([h] + rest, key)
  {
    var r := [h] + rest;
    forall i, j | 0 <= i < j < |r|
      ensures key(r[i]) <= key(r[j])
    {
      assert r[j] == rest[j - 1];
      if i > 0 {
        assert r[i] == rest[i - 1];
      }
    }
  }

  /** The result is ordered by key and is a permutation of the input. */
  lemma SortSpec<T>(xs: seq<T>, key: T -> int)
    ensures SortedBy(Sort(xs, key), key)
    ensures multiset(Sort(xs, key)) == multiset(xs)
  {
    SortSorted(xs, key);
    SortPermutes(xs, key);
  }

  lemma {:induction false} SortSorted<T>(xs: seq<T>, key: T -> int)
    ensures SortedBy(Sort(xs, key), key)
  {
    if |xs| > 0 {
      SortSorted(xs[..|xs| - 1], key);
      InsertSorted(xs[|xs| - 1], Sort(xs[..|xs| - 1], key), key);
    }
  }

  lemma {:induction false} SortPermutes<T>(xs: seq<T>, key: T -> int)
    ensures multiset(Sort(xs, key)) == multiset(xs)
  {
    if |xs| > 0 {
      var init := xs[..|xs| - 1];
      SortPermutes(init, key);
      assert xs == init + [xs[|xs| - 1]];
    }
  }

  /** The elements of `xs` whose key is `k`, in order. */
  function WithKey<T>(xs: seq<T>, key: T -> int, k: int): seq<T> {
    if |xs| == 0 then []
    else (if key(xs[0]) == k then [xs[0]] else []) + WithKey(xs[1..], key, k)
  }

  lemma {:induction false} WithKeyAppend<T>(a: seq<T>, b: seq<T>, key: T -> int, k: int)
    ensures WithKey(a + b, key, k) == WithKey(a, key, k) + WithKey(b, key, k)
  {
    if |a| == 0 {
      assert a + b == b;
    } else {
      var head := if key(a[0]) == k then [a[0]] else [];
      assert (a + b)[0] == a[0];
      assert (a + b)[1..] == a[1..] + b;
      calc {
        WithKey(a + b, key, k);
        head + WithKey(a[1..] + b, key, k);
        { WithKeyAppend(a[1..], b, key, k); }
        head + (WithKey(a[1..], key, k) + WithKey(b, key, k));
        { Regroup(head, WithKey(a[1..], key, k), WithKey(b, key, k)); }
        WithKey(a, key, k) + WithKey(b, key, k);
      }
    }
  }

  lemma Regroup<T>(x: seq<T>, y: seq<T>, z: seq<T>)
    ensures x + (y + z) == (x + y) + z
  {
  }

  lemma {:induction false} WithKeyNone<T>(xs: seq<T>, key: T -> int, k: int)
    requires forall i | 0 <= i < |xs| :: key(xs[i]) > k
    ensures WithKey(xs, key, k) == []
  {
    if |xs| > 0 {
      WithKeyNone(xs[1..], key, k);
    }
  }

  lemma {:induction false} InsertWithKey<T>(x: T, xs: seq<T>, key: T -> int, k: int)
    requires SortedBy(xs, key)
    ensures WithKey(Insert(x, xs, key), key, k) == WithKey(xs, key, k) + (if key(x) == k then [x] else [])
  {
    if |xs| == 0 {
    } else if key(x) < key(xs[0]) {
      InsertFront(x, xs, key, k);
    } else {
      var rest := Insert(x, xs[1..], key);
      var head := if key(xs[0]) == k then [xs[0]] else [];
      var tail := if key(x) == k then [x] else [];
      assert Insert(x, xs, key) == [xs[0]] + rest;
      assert ([xs[0]] + rest)[1..] == rest;
      calc {
        WithKey(Insert(x, xs, key), key, k);
        head + WithKey(rest, key, k);
        { InsertWithKey(x, xs[1..], key, k); }
        head + (WithKey(xs[1..], key, k) + tail);
        { Regroup(head, WithKey(xs[1..], key, k), tail); }
        WithKey(xs, key, k) + tail;
      }
    }
  }

  /** Inserting before every element of a sorted list adds nothing before elements of its own key. */
  lemma InsertFront<T>(x: T, xs: seq<T>, key: T -> int, k: int)
    requires SortedBy(xs, key) && |xs| > 0 && key(x) < key(xs[0])
    ensures WithKey([x] + xs, key, k) == WithKey(xs, key, k) + (if key(x) == k then [x] else [])
  {
    assert ([x] + xs)[0] == x;
    assert ([x] + xs)[1..] == xs;
    if key(x) == k {
      WithKeyNone(xs, key, k);
    }
  }

  /** The sort is stable: the elements with any one key keep their relative order. */
  lemma {:induction false} SortStable<T>(xs: seq<T>, key: T -> int, k: int)
    ensures WithKey(Sort(xs, key), key, k) == WithKey(xs, key, k)
  {
    if |xs| > 0 {
      var init, last := xs[..|xs| - 1], xs[|xs| - 1];
      var tail := if key(last) == k then [last] else [];
      calc {
        WithKey(Sort(xs, key), key, k);
        WithKey(Insert(last, Sort(init, key), key), key, k);
        { SortSorted(init, key); InsertWithKey(last, Sort(init, key), key, k); }
        WithKey(Sort(init, key), key, k) + tail;
        { SortStable(init, key, k); }
        WithKey(init, key, k) + tail;
        { WithKeyLast(init, last, key, k); }
        WithKey(init + [last], key, k);
        { assert xs == init + [last]; }
        WithKey(xs, key, k);
      }
    }
  }

  lemma WithKeyLast<T>(xs: seq<T>, x: T, key: T -> int, k: int)
    ensures WithKey(xs + [x], key, k) == WithKey(xs, key, k) + (if key(x) == k then [x] else [])
  {
    WithKeyAppend(xs, [x], key, k);
    assert WithKey([x], key, k) == (if key(x) == k then [x] else []) + WithKey([], key, k);
  }
}
