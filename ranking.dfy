/** Java's `List.sort` with a descending comparator, as used by the army builder and by the
    battle's turn order. `List.sort` is a stable merge sort: elements the comparator calls
    equal keep their input order. The model is a stable insertion sort on a two-level key
    (primary, then secondary), both compared exactly. */
module Ranking {

  /** A sort key; keys are compared lexicographically, larger first. */
  datatype Key = Key(primary: real, secondary: real)

  /** `a` may stand before `b` in a descending order. */
  predicate AtLeast(a: Key, b: Key) {
    a.primary > b.primary || (a.primary == b.primary && a.secondary >= b.secondary)
  }

  predicate SortedDesc<T>(s: seq<T>, key: T -> Key) {
    forall i, j :: 0 <= i < j < |s| ==> AtLeast(key(s[i]), key(s[j]))
  }

  /** The elements of `s` whose key is `k`, in their order in `s`. */
  function WithKey<T>(s: seq<T>, key: T -> Key, k: Key): (r: seq<T>)
    ensures |r| <= |s|
  {
    if s == [] then []
    else (if key(s[0]) == k then [s[0]] else []) + WithKey(s[1..], key, k)
  }

  /** Puts `x` in front of the first element it is at least as large as. */
  function Insert<T>(x: T, s: seq<T>, key: T -> Key): (r: seq<T>)
    ensures multiset(r) == multiset(s) + multiset{x}
    ensures |r| == |s| + 1
  {
    if s == [] || AtLeast(key(x), key(s[0])) then
      [x] + s
    else
      assert s == [s[0]] + s[1..];
      [s[0]] + Insert(x, s[1..], key)
  }

  /** `Sort(s)` orders `s` by descending key; equal keys keep their order in `s`. Its order,
      permutation and stability properties are the lemmas below. */
  function Sort<T>(s: seq<T>, key: T -> Key): (r: seq<T>)
    ensures |r| == |s|
  {
    if s == [] then [] else Insert(s[0], Sort(s[1..], key), key)
  }

  /** Inserting into a descending sequence keeps it descending. */
  lemma {:induction false} InsertSorted<T>(x: T, s: seq<T>, key: T -> Key)
    requires SortedDesc(s, key)
    ensures SortedDesc(Insert(x, s, key), key)
  {
    if s != [] && !AtLeast(key(x), key(s[0])) {
      var rest := Insert(x, s[1..], key);
      InsertSorted(x, s[1..], key);
      assert forall j :: 0 <= j < |rest| ==> AtLeast(key(s[0]), key(rest[j])) by {
        forall j | 0 <= j < |rest|
          ensures AtLeast(key(s[0]), key(rest[j]))
        {
          assert rest[j] in multiset(s[1..]) + multiset{x};
          if rest[j] != x {
            assert rest[j] in s[1..];
          }
        }
      }
    }
  }

  /** The result is in descending key order. */
  lemma {:induction false} SortSorted<T>(s: seq<T>, key: T -> Key)
    ensures SortedDesc(Sort(s, key), key)
  {
    if s != [] {
      SortSorted(s[1..], key);
      InsertSorted(s[0], Sort(s[1..], key), key);
    }
  }

  /** The result is a permutation of the input. */
  lemma {:induction false} SortPermutes<T>(s: seq<T>, key: T -> Key)
    ensures multiset(Sort(s, key)) == multiset(s)
  {
    if s != [] {
      SortPermutes(s[1..], key);
      assert s == [s[0]] + s[1..];
    }
  }

  lemma {:induction false} InsertStable<T>(x: T, s: seq<T>, key: T -> Key, k: Key)
    ensures WithKey(Insert(x, s, key), key, k)
            == (if key(x) == k then [x] else []) + WithKey(s, key, k)
  {
    if s == [] || AtLeast(key(x), key(s[0])) {
      assert Insert(x, s, key) == [x] + s;
      assert ([x] + s)[1..] == s;
    } else {
      var rest := Insert(x, s[1..], key);
      assert Insert(x, s, key) == [s[0]] + rest;
      assert ([s[0]] + rest)[1..] == rest;
      InsertStable(x, s[1..], key, k);
      // s[0] has a strictly larger key than x, so the two never share key k
      assert key(s[0]) != key(x);
    }
  }

  /** Stability: for every key, the elements with that key appear in the same order
      before and after sorting. */
  lemma {:induction false} SortStable<T>(s: seq<T>, key: T -> Key, k: Key)
    ensures WithKey(Sort(s, key), key, k) == WithKey(s, key, k)
  {
    if s != [] {
      SortStable(s[1..], key, k);
      InsertStable(s[0], Sort(s[1..], key), key, k);
    }
  }
}
