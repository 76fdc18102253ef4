/**
  Python's `sorted(xs, key=...)` on integer keys: a stable sort, written as
  an insertion sort that places each element before the first element whose
  key is not smaller.
*/
module Sorting {

  predicate SortedBy<T>(s: seq<T>, key: T -> int) {
    forall i, j | 0 <= i < j < |s| :: key(s[i]) <= key(s[j])
  }

  function InsertBy<T>(x: T, s: seq<T>, key: T -> int): (r: seq<T>)
    requires SortedBy(s, key)
    ensures SortedBy(r, key)
    ensures multiset(r) == multiset(s) + multiset{x}
    decreases |s|
  {
    if s == [] || key(x) <= key(s[0]) then [x] + s
    else
      var rest := InsertBy(x, s[1..], key);
      BelowAll(x, s, rest, key);
      ConsSorted(s[0], rest, key);
      assert s == [s[0]] + s[1..];
      [s[0]] + rest
  }

  /** The head of a sorted `s`, smaller than `x`, is below every element of
      `s[1..]` with `x` inserted. */
  lemma BelowAll<T>(x: T, s: seq<T>, rest: seq<T>, key: T -> int)
    requires s != [] && SortedBy(s, key) && key(s[0]) < key(x)
    requires multiset(rest) == multiset(s[1..]) + multiset{x}
    ensures forall j | 0 <= j < |rest| :: key(s[0]) <= key(rest[j])
  {
    forall j | 0 <= j < |rest| ensures key(s[0]) <= key(rest[j]) {
      assert rest[j] in multiset(rest);
      if rest[j] != x {
        assert rest[j] in multiset(s[1..]);
        var i :| 0 <= i < |s[1..]| && s[1..][i] == rest[j];
        assert s[1 + i] == rest[j];
      }
    }
  }

  lemma ConsSorted<T>(a: T, rest: seq<T>, key: T -> int)
    requires SortedBy(rest, key) && forall j | 0 <= j < |rest| :: key(a) <= key(rest[j])
    ensures SortedBy([a] + rest, key)
  {
    var r := [a] + rest;
    forall i, j | 0 <= i < j < |r| ensures key(r[i]) <= key(r[j]) {
      assert r[j] == rest[j - 1];
      if i > 0 {
        assert r[i] == rest[i - 1];
      }
    }
  }

  function SortBy<T>(s: seq<T>, key: T -> int): (r: seq<T>)
    ensures SortedBy(r, key)
    ensures multiset(r) == multiset(s)
    decreases |s|
  {
    if s == [] then []
    else
      assert s == [s[0]] + s[1..];
      InsertBy(s[0], SortBy(s[1..], key), key)
  }

  /** Sorting a sequence that is already in order changes nothing. */
  lemma {:induction false} SortBySorted<T>(s: seq<T>, key: T -> int)
    requires SortedBy(s, key)
    ensures SortBy(s, key) == s
    decreases |s|
  {
    if s != [] {
      SortBySorted(s[1..], key);
      assert s == [s[0]] + s[1..];
    }
  }

  /** The elements of `s` whose key is `k`, in order. */
  function Having<T>(s: seq<T>, key: T -> int, k: int): seq<T>
    decreases |s|
  {
    if s == [] then [] else (if key(s[0]) == k then [s[0]] else []) + Having(s[1..], key, k)
  }

  lemma {:induction false} InsertHaving<T>(x: T, s: seq<T>, key: T -> int, k: int)
    requires SortedBy(s, key)
    ensures Having(InsertBy(x, s, key), key, k) == (if key(x) == k then [x] else []) + Having(s, key, k)
    decreases |s|
  {
    if s == [] || key(x) <= key(s[0]) {
      HavingCons(x, s, key, k);
    } else {
      InsertHaving(x, s[1..], key, k);
      HavingPast(s[0], s[1..], InsertBy(x, s[1..], key), if key(x) == k then [x] else [], key, k);
      assert s == [s[0]] + s[1..];
    }
  }

  /** Putting `a` in front of two sequences whose key-`k` elements differ by a
      prefix `p` keeps that difference. */
  lemma HavingPast<T>(a: T, t: seq<T>, rest: seq<T>, p: seq<T>, key: T -> int, k: int)
    requires Having(rest, key, k) == p + Having(t, key, k)
    requires key(a) != k || p == []
    ensures Having([a] + rest, key, k) == p + Having([a] + t, key, k)
  {
    HavingCons(a, rest, key, k);
    HavingCons(a, t, key, k);
  }

  lemma HavingCons<T>(a: T, t: seq<T>, key: T -> int, k: int)
    ensures Having([a] + t, key, k) == (if key(a) == k then [a] else []) + Having(t, key, k)
  {
    assert ([a] + t)[1..] == t;
  }

  /** Stability: elements with equal keys keep their relative order. */
  lemma {:induction false} SortByStable<T>(s: seq<T>, key: T -> int, k: int)
    ensures Having(SortBy(s, key), key, k) == Having(s, key, k)
    decreases |s|
  {
    if s != [] {
      InsertHaving(s[0], SortBy(s[1..], key), key, k);
      SortByStable(s[1..], key, k);
    }
  }
}
