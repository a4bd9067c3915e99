/** The stable descending sort behind `standings.sort((a, b) => b.wins - a.wins)`.
    JavaScript's `Array.prototype.sort` is stable, and a stable sort by a consistent
    key has exactly one possible result, so an insertion sort stands in for the
    engine's algorithm: the result is ordered by key, is a permutation of the input,
    and keeps the input order among equal keys. */
module Ranking {

  /** Non-increasing by `key`. */
  predicate SortedDesc<T>(s: seq<T>, key: T -> int) {
    forall i, j :: 0 <= i < j < |s| ==> key(s[i]) >= key(s[j])
  }

  /** The elements whose key is `k`, in order. */
  function WithKey<T>(s: seq<T>, key: T -> int, k: int): seq<T> {
    if s == [] then []
    else WithKey(s[..|s| - 1], key, k) + (if key(s[|s| - 1]) == k then [s[|s| - 1]] else [])
  }

  lemma {:induction false} WithKeyAppend<T>(a: seq<T>, b: seq<T>, key: T -> int, k: int)
    ensures WithKey(a + b, key, k) == WithKey(a, key, k) + WithKey(b, key, k)
  {
    if b == [] {
      assert a + b == a;
    } else {
      assert (a + b)[..|a + b| - 1] == a + b[..|b| - 1];
      WithKeyAppend(a, b[..|b| - 1], key, k);
    }
  }

  /** `x` placed after every element whose key is at least its own. */
  function Insert<T>(x: T, s: seq<T>, key: T -> int): (r: seq<T>)
    ensures |r| == |s| + 1
    ensures forall i :: 0 <= i < |r| ==> r[i] in s || r[i] == x
    ensures SortedDesc(s, key) ==> SortedDesc(r, key)
  {
    if s == [] || key(s[|s| - 1]) >= key(x) then
      s + [x]
    else
      var init := s[..|s| - 1];
      assert s == init + [s[|s| - 1]];
      var r := Insert(x, init, key) + [s[|s| - 1]];
      assert SortedDesc(s, key) ==> forall i :: 0 <= i < |r| - 1 ==> key(r[i]) >= key(s[|s| - 1]);
      r
  }

  /** The run of key `k` in `s + [y]`. */
  lemma WithKeySnoc<T>(s: seq<T>, y: T, key: T -> int, k: int)
    ensures WithKey(s + [y], key, k) == WithKey(s, key, k) + (if key(y) == k then [y] else [])
  {
    assert (s + [y])[..|s + [y]| - 1] == s;
  }

  /** Two elements with different keys cannot both join the run of `k`, so the order in
      which they are appended does not matter. */
  lemma SwapRuns<T>(w: seq<T>, x: T, y: T, key: T -> int, k: int)
    requires key(x) != key(y)
    ensures w + (if key(x) == k then [x] else []) + (if key(y) == k then [y] else [])
            == w + (if key(y) == k then [y] else []) + (if key(x) == k then [x] else [])
  {
  }

  /** Inserting into a sorted list adds `x` to the run of its key after the elements
      already there and leaves every other key's run unchanged. */
  lemma {:induction false} InsertWithKey<T>(x: T, s: seq<T>, key: T -> int, k: int)
    requires SortedDesc(s, key)
    ensures WithKey(Insert(x, s, key), key, k) == WithKey(s, key, k) + (if key(x) == k then [x] else [])
  {
    if s == [] || key(s[|s| - 1]) >= key(x) {
      assert Insert(x, s, key) == s + [x];
      WithKeySnoc(s, x, key, k);
    } else {
      var init := s[..|s| - 1];
      var last := s[|s| - 1];
      assert s == init + [last];
      var r' := Insert(x, init, key);
      assert Insert(x, s, key) == r' + [last];
      assert SortedDesc(init, key);
      InsertWithKey(x, init, key, k);
      WithKeySnoc(r', last, key, k);
      WithKeySnoc(init, last, key, k);
      SwapRuns(WithKey(init, key, k), x, last, key, k);
    }
  }

  /** Insertion sort taking the input left to right. */
  function SortDesc<T>(xs: seq<T>, key: T -> int): (r: seq<T>)
    ensures |r| == |xs|
    ensures SortedDesc(r, key)
  {
    if xs == [] then []
    else
      assert xs == xs[..|xs| - 1] + [xs[|xs| - 1]];
      Insert(xs[|xs| - 1], SortDesc(xs[..|xs| - 1], key), key)
  }

  /** Inserting adds exactly one copy of `x`. */
  lemma {:induction false} InsertPermutes<T>(x: T, s: seq<T>, key: T -> int)
    ensures multiset(Insert(x, s, key)) == multiset(s) + multiset{x}
  {
    if s != [] && key(s[|s| - 1]) < key(x) {
      var init := s[..|s| - 1];
      InsertPermutes(x, init, key);
      assert s == init + [s[|s| - 1]];
    }
  }

  /** The sorted list is a permutation of the input. */
  lemma {:induction false} SortDescPermutes<T>(xs: seq<T>, key: T -> int)
    ensures multiset(SortDesc(xs, key)) == multiset(xs)
  {
    if xs != [] {
      var init := xs[..|xs| - 1];
      SortDescPermutes(init, key);
      InsertPermutes(xs[|xs| - 1], SortDesc(init, key), key);
      assert xs == init + [xs[|xs| - 1]];
    }
  }

  /** Stability: for every key, its elements appear in the same order as in the input. */
  lemma {:induction false} SortDescIsStable<T>(xs: seq<T>, key: T -> int, k: int)
    ensures WithKey(SortDesc(xs, key), key, k) == WithKey(xs, key, k)
  {
    if xs != [] {
      var init := xs[..|xs| - 1];
      SortDescIsStable(init, key, k);
      InsertWithKey(xs[|xs| - 1], SortDesc(init, key), key, k);
    }
  }

  /** An input already in order is returned unchanged. */
  lemma {:induction false} SortDescOfSorted<T>(xs: seq<T>, key: T -> int)
    requires SortedDesc(xs, key)
    ensures SortDesc(xs, key) == xs
  {
    if xs != [] {
      var init := xs[..|xs| - 1];
      assert SortedDesc(init, key);
      SortDescOfSorted(init, key);
      assert SortDesc(xs, key) == Insert(xs[|xs| - 1], init, key);
      assert init == [] || key(init[|init| - 1]) >= key(xs[|xs| - 1]);
      assert xs == init + [xs[|xs| - 1]];
    }
  }
}
