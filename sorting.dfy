/**
 * The stable descending sort that `Array.prototype.sort` performs with a
 * comparator of the form `(a, b) => key(b) - key(a)`.
 */
module Sorting {

  /** Keys never increase from left to right. */
  predicate SortedDesc<T>(s: seq<T>, key: T -> int) {
    forall i, j :: 0 <= i < j < |s| ==> key(s[i]) >= key(s[j])
  }

  /** The elements of `s` whose key is `k`, in their order in `s`. */
  function WithKey<T>(s: seq<T>, key: T -> int, k: int): (r: seq<T>)
    ensures |r| <= |s|
  {
    if s == [] then []
    else (if key(s[0]) == k then [s[0]] else []) + WithKey(s[1..], key, k)
  }

  /** `x` goes in front of the first element whose key is not larger than its own. */
  function Insert<T>(x: T, s: seq<T>, key: T -> int): (r: seq<T>)
    requires SortedDesc(s, key)
    ensures SortedDesc(r, key)
    ensures |r| == |s| + 1
    ensures r[0] == x || (s != [] && r[0] == s[0])
  {
    if s == [] || key(s[0]) <= key(x) then [x] + s
    else
      SortedTail(s, key);
      var t := Insert(x, s[1..], key);
      assert forall i :: 0 <= i < |t| ==> key(t[i]) <= key(t[0]);
      [s[0]] + t
  }

  /** Insertion adds `x` and loses nothing. */
  lemma {:induction false} InsertMultiset<T>(x: T, s: seq<T>, key: T -> int)
    requires SortedDesc(s, key)
    ensures multiset(Insert(x, s, key)) == multiset(s) + multiset{x}
  {
    if s != [] && key(s[0]) > key(x) {
      SortedTail(s, key);
      InsertMultiset(x, s[1..], key);
      MultisetCons(s);
    }
  }

  /** Insertion sort, run from the back so that equal keys keep their order. */
  function SortDesc<T>(s: seq<T>, key: T -> int): (r: seq<T>)
    ensures SortedDesc(r, key)
    ensures multiset(r) == multiset(s)
    ensures |r| == |s|
  {
    if s == [] then []
    else
      var rest := SortDesc(s[1..], key);
      InsertMultiset(s[0], rest, key);
      MultisetCons(s);
      Insert(s[0], rest, key)
  }

  lemma {:induction false} WithKeyInsert<T>(x: T, s: seq<T>, key: T -> int, k: int)
    requires SortedDesc(s, key)
    ensures WithKey(Insert(x, s, key), key, k) == (if key(x) == k then [x] else []) + WithKey(s, key, k)
  {
    if s == [] || key(s[0]) <= key(x) {
      WithKeyCons(x, s, key, k);
    } else {
      SortedTail(s, key);
      var t := Insert(x, s[1..], key);
      WithKeyInsert(x, s[1..], key, k);
      WithKeyCons(s[0], t, key, k);
      if key(x) == k {
        WithKeyAbove(s, key, key(s[0]), k);
      }
    }
  }

  lemma MultisetCons<T>(s: seq<T>)
    requires s != []
    ensures multiset(s) == multiset{s[0]} + multiset(s[1..])
  {
    assert s == [s[0]] + s[1..];
  }

  lemma WithKeyCons<T>(y: T, t: seq<T>, key: T -> int, k: int)
    ensures WithKey([y] + t, key, k) == (if key(y) == k then [y] else []) + WithKey(t, key, k)
  {
    assert ([y] + t)[1..] == t;
  }

  lemma SortedTail<T>(s: seq<T>, key: T -> int)
    requires s != [] && SortedDesc(s, key)
    ensures SortedDesc(s[1..], key)
  {
    assert forall i :: 0 <= i < |s| - 1 ==> s[1..][i] == s[i + 1];
  }

  /** In a sorted sequence whose head key is `h`, no element of the tail has a key above `h`. */
  lemma {:induction false} WithKeyAbove<T>(s: seq<T>, key: T -> int, h: int, k: int)
    requires SortedDesc(s, key) && s != [] && key(s[0]) == h && k < h
    ensures WithKey(s, key, k) == WithKey(s[1..], key, k)
  {
  }

  /**
   * Cutting a sorted sequence after `n` elements: the prefix is part of the
   * whole, what is left out is exactly the rest, and nothing left out has a
   * larger key than anything kept.
   */
  lemma SortedPrefix<T>(s: seq<T>, key: T -> int, n: nat)
    requires SortedDesc(s, key) && n <= |s|
    ensures multiset(s[..n]) <= multiset(s)
    ensures multiset(s) - multiset(s[..n]) == multiset(s[n..])
    ensures forall x, y :: x in s[n..] && y in s[..n] ==> key(x) <= key(y)
  {
    assert s == s[..n] + s[n..];
    forall x, y | x in s[n..] && y in s[..n] ensures key(x) <= key(y) {
      var j :| 0 <= j < |s[n..]| && s[n..][j] == x;
      var i :| 0 <= i < |s[..n]| && s[..n][i] == y;
      assert s[n + j] == x && s[i] == y;
    }
  }

  /** Stability: for every key, the elements with that key keep their relative order. */
  lemma {:induction false} SortDescStable<T>(s: seq<T>, key: T -> int, k: int)
    ensures WithKey(SortDesc(s, key), key, k) == WithKey(s, key, k)
  {
    if s != [] {
      SortDescStable(s[1..], key, k);
      WithKeyInsert(s[0], SortDesc(s[1..], key), key, k);
    }
  }
}
