/** Stable sorting, largest key first: the library sort the program calls. */
module Sorting {

  /** `x` came before everything in `s`, so it goes in front of equal keys. */
  function Insert<T>(key: T -> real, x: T, s: seq<T>): seq<T> {
    if s == [] || key(s[0]) <= key(x) then [x] + s else [s[0]] + Insert(key, x, s[1..])
  }

  function SortDescending<T>(key: T -> real, s: seq<T>): seq<T> {
    if s == [] then [] else Insert(key, s[0], SortDescending(key, s[1..]))
  }

  predicate Descending<T>(key: T -> real, s: seq<T>) {
    forall i, j :: 0 <= i < j < |s| ==> key(s[i]) >= key(s[j])
  }

  predicate AtMost<T>(key: T -> real, s: seq<T>, bound: real) {
    forall i :: 0 <= i < |s| ==> key(s[i]) <= bound
  }

  lemma {:induction false} InsertAtMost<T>(key: T -> real, x: T, s: seq<T>, bound: real)
    requires key(x) <= bound && AtMost(key, s, bound)
    ensures AtMost(key, Insert(key, x, s), bound)
  {
    if s != [] && !(key(s[0]) <= key(x)) {
      InsertAtMost(key, x, s[1..], bound);
    }
  }

  lemma {:induction false} InsertSorts<T>(key: T -> real, x: T, s: seq<T>)
    requires Descending(key, s)
    ensures Descending(key, Insert(key, x, s))
  {
    if s != [] && !(key(s[0]) <= key(x)) {
      InsertSorts(key, x, s[1..]);
      InsertAtMost(key, x, s[1..], key(s[0]));
    }
  }

  lemma {:induction false} InsertAdds<T>(key: T -> real, x: T, s: seq<T>)
    ensures multiset(Insert(key, x, s)) == multiset{x} + multiset(s)
    ensures |Insert(key, x, s)| == |s| + 1
  {
    if s != [] && !(key(s[0]) <= key(x)) {
      InsertAdds(key, x, s[1..]);
      assert s == [s[0]] + s[1..];
    }
  }

  /** The result is sorted and holds the same elements. */
  lemma {:induction false} SortSorts<T>(key: T -> real, s: seq<T>)
    ensures Descending(key, SortDescending(key, s))
    ensures multiset(SortDescending(key, s)) == multiset(s)
    ensures |SortDescending(key, s)| == |s|
  {
    if s != [] {
      SortSorts(key, s[1..]);
      InsertSorts(key, s[0], SortDescending(key, s[1..]));
      InsertAdds(key, s[0], SortDescending(key, s[1..]));
      assert s == [s[0]] + s[1..];
    }
  }

  /** Sorting leaves a sorted sequence alone. */
  lemma {:induction false} SortKeepsSorted<T>(key: T -> real, s: seq<T>)
    requires Descending(key, s)
    ensures SortDescending(key, s) == s
  {
    if s != [] {
      SortKeepsSorted(key, s[1..]);
      assert s == [s[0]] + s[1..];
    }
  }

  /** The elements with key `k`, in order. */
  function WithKey<T>(key: T -> real, k: real, s: seq<T>): seq<T> {
    if s == [] then []
    else if key(s[0]) == k then [s[0]] + WithKey(key, k, s[1..])
    else WithKey(key, k, s[1..])
  }

  lemma {:induction false} InsertIsStable<T>(key: T -> real, x: T, s: seq<T>, k: real)
    ensures WithKey(key, k, Insert(key, x, s)) == WithKey(key, k, [x]) + WithKey(key, k, s)
  {
    if s == [] || key(s[0]) <= key(x) {
      assert ([x] + s)[1..] == s;
    } else {
      InsertIsStable(key, x, s[1..], k);
      var t := Insert(key, x, s[1..]);
      assert ([s[0]] + t)[1..] == t;
      if key(s[0]) == k {
        assert WithKey(key, k, [x]) == [];
      }
    }
  }

  /** Elements with equal keys keep their order. */
  lemma {:induction false} SortIsStable<T>(key: T -> real, s: seq<T>, k: real)
    ensures WithKey(key, k, SortDescending(key, s)) == WithKey(key, k, s)
  {
    if s != [] {
      SortIsStable(key, s[1..], k);
      InsertIsStable(key, s[0], SortDescending(key, s[1..]), k);
    }
  }
}
