/**
 * Python's `list.sort(key=...)`, which is stable: elements with equal keys keep
 * their relative order, also under `reverse=True`. The sort is specified here
 * by insertion; a descending sort is an ascending sort on negated keys.
 */
module Sorting {

  /** A sort key, compared lexicographically as Python compares tuples. */
  type Key = (int, int)

  predicate KeyLe(a: Key, b: Key) {
    a.0 < b.0 || (a.0 == b.0 && a.1 <= b.1)
  }

  predicate KeyLt(a: Key, b: Key) {
    a.0 < b.0 || (a.0 == b.0 && a.1 < b.1)
  }

  predicate SortedBy<T>(s: seq<T>, key: T -> Key) {
    forall i, j :: 0 <= i < j < |s| ==> KeyLe(key(s[i]), key(s[j]))
  }

  predicate StrictlySortedBy<T>(s: seq<T>, key: T -> Key) {
    forall i, j :: 0 <= i < j < |s| ==> KeyLt(key(s[i]), key(s[j]))
  }

  predicate DistinctKeys<T>(s: seq<T>, key: T -> Key) {
    forall i, j :: 0 <= i < j < |s| ==> key(s[i]) != key(s[j])
  }

  /** Puts `x` in front of the first element whose key is not below its own. */
  function Insert<T>(x: T, s: seq<T>, key: T -> Key): seq<T> {
    if s == [] || KeyLe(key(x), key(s[0])) then [x] + s
    else [s[0]] + Insert(x, s[1..], key)
  }

  /** Inserting adds `x` and loses nothing. */
  lemma {:induction false} InsertPermutes<T>(x: T, s: seq<T>, key: T -> Key)
    ensures multiset(Insert(x, s, key)) == multiset(s) + multiset{x}
  {
    if s != [] && !KeyLe(key(x), key(s[0])) {
      InsertPermutes(x, s[1..], key);
      assert s == [s[0]] + s[1..];
    }
  }

  lemma {:induction false} InsertSorted<T>(x: T, s: seq<T>, key: T -> Key)
    requires SortedBy(s, key)
    ensures SortedBy(Insert(x, s, key), key)
  {
    if s != [] && !KeyLe(key(x), key(s[0])) {
      var rest := Insert(x, s[1..], key);
      InsertSorted(x, s[1..], key);
      InsertPermutes(x, s[1..], key);
      var r := [s[0]] + rest;
      forall i, j | 0 <= i < j < |r| ensures KeyLe(key(r[i]), key(r[j])) {
        if i == 0 {
          assert r[j] in multiset(rest);
          assert r[j] == x || r[j] in multiset(s[1..]);
          if r[j] != x {
            var m :| 0 <= m < |s[1..]| && s[1..][m] == r[j];
            assert KeyLe(key(s[0]), key(s[m + 1]));
          }
        } else {
          assert r[i] == rest[i - 1] && r[j] == rest[j - 1];
        }
      }
    }
  }

  /** The stable sort of `s` by `key`, ascending. */
  function SortBy<T>(s: seq<T>, key: T -> Key): (r: seq<T>)
    ensures multiset(r) == multiset(s) && |r| == |s|
    ensures SortedBy(r, key)
  {
    if s == [] then []
    else
      assert s == [s[0]] + s[1..];
      var rest := SortBy(s[1..], key);
      InsertSorted(s[0], rest, key);
      InsertPermutes(s[0], rest, key);
      assert |multiset(Insert(s[0], rest, key))| == |Insert(s[0], rest, key)|;
      Insert(s[0], rest, key)
  }

  /** The elements of `s` whose key is `k`, in order. */
  function WithKey<T>(s: seq<T>, key: T -> Key, k: Key): seq<T> {
    if s == [] then []
    else (if key(s[0]) == k then [s[0]] else []) + WithKey(s[1..], key, k)
  }

  lemma {:induction false} InsertWithKey<T>(x: T, s: seq<T>, key: T -> Key, k: Key)
    ensures WithKey(Insert(x, s, key), key, k) == (if key(x) == k then [x] else []) + WithKey(s, key, k)
  {
    if s == [] || KeyLe(key(x), key(s[0])) {
      assert Insert(x, s, key) == [x] + s;
      WithKeyCons(x, s, key, k);
    } else {
      var rest := Insert(x, s[1..], key);
      assert Insert(x, s, key) == [s[0]] + rest;
      WithKeyCons(s[0], rest, key, k);
      InsertWithKey(x, s[1..], key, k);
      WithKeyCons(s[0], s[1..], key, k);
      assert [s[0]] + s[1..] == s;
      var tail := WithKey(s[1..], key, k);
      if key(x) == k {
        // x goes behind s[0] only when its key is larger, so s[0] does not have key k
        assert KeyLe(k, k) && key(s[0]) != k;
        assert WithKey(rest, key, k) == [x] + tail;
      } else {
        assert WithKey(rest, key, k) == tail;
      }
    }
  }

  lemma WithKeyCons<T>(y: T, t: seq<T>, key: T -> Key, k: Key)
    ensures WithKey([y] + t, key, k) == (if key(y) == k then [y] else []) + WithKey(t, key, k)
  {
    assert ([y] + t)[1..] == t;
  }

  /** Stability: sorting keeps the relative order of the elements of each key. */
  lemma {:induction false} SortByStable<T>(s: seq<T>, key: T -> Key, k: Key)
    ensures WithKey(SortBy(s, key), key, k) == WithKey(s, key, k)
  {
    if s != [] {
      SortByStable(s[1..], key, k);
      InsertWithKey(s[0], SortBy(s[1..], key), key, k);
    }
  }

  lemma {:induction false} InsertStrict<T>(x: T, s: seq<T>, key: T -> Key)
    requires StrictlySortedBy(s, key)
    requires forall i :: 0 <= i < |s| ==> key(s[i]) != key(x)
    ensures StrictlySortedBy(Insert(x, s, key), key)
  {
    if s != [] && !KeyLe(key(x), key(s[0])) {
      var rest := Insert(x, s[1..], key);
      InsertStrict(x, s[1..], key);
      InsertPermutes(x, s[1..], key);
      forall y | y in rest ensures KeyLt(key(s[0]), key(y)) {
        assert y in multiset(rest);
      }
    }
  }

  /** With distinct keys, the sorted sequence is strictly ascending. */
  lemma {:induction false} SortByStrict<T>(s: seq<T>, key: T -> Key)
    requires DistinctKeys(s, key)
    ensures StrictlySortedBy(SortBy(s, key), key)
  {
    if s != [] {
      var rest := SortBy(s[1..], key);
      SortByStrict(s[1..], key);
      forall i | 0 <= i < |rest| ensures key(rest[i]) != key(s[0]) {
        assert rest[i] in multiset(s[1..]);
      }
      InsertStrict(s[0], rest, key);
    }
  }

  /** The first element of a non-empty sorted sequence has the least key. */
  lemma SortByHeadIsLeast<T>(s: seq<T>, key: T -> Key)
    requires s != []
    ensures SortBy(s, key) != [] && SortBy(s, key)[0] in s
    ensures forall y :: y in s ==> KeyLe(key(SortBy(s, key)[0]), key(y))
  {
    var r := SortBy(s, key);
    assert |r| == |s| by { assert |multiset(r)| == |multiset(s)|; }
    assert r[0] in multiset(s);
    forall y | y in s ensures KeyLe(key(r[0]), key(y)) {
      assert y in multiset(r);
      var j :| 0 <= j < |r| && r[j] == y;
      if j > 0 {
        assert KeyLe(key(r[0]), key(r[j]));
      }
    }
  }

  /** The first element of `WithKey(s, key, k)` is the first element of `s` with key `k`. */
  lemma {:induction false} WithKeyHead<T>(s: seq<T>, key: T -> Key, k: Key)
    requires WithKey(s, key, k) != []
    ensures exists i :: (0 <= i < |s| && s[i] == WithKey(s, key, k)[0] && key(s[i]) == k
                         && forall j :: 0 <= j < i ==> key(s[j]) != k)
  {
    if key(s[0]) != k {
      WithKeyHead(s[1..], key, k);
      var i :| (0 <= i < |s[1..]| && s[1..][i] == WithKey(s[1..], key, k)[0] && key(s[1..][i]) == k
                && forall j :: 0 <= j < i ==> key(s[1..][j]) != k);
      assert s[i + 1] == WithKey(s, key, k)[0];
      forall j | 0 <= j < i + 1 ensures key(s[j]) != k {
        if j > 0 { assert s[j] == s[1..][j - 1]; }
      }
    } else {
      assert s[0] == WithKey(s, key, k)[0];
    }
  }

  lemma WithKeyHasOwnHead<T>(s: seq<T>, key: T -> Key)
    requires s != []
    ensures WithKey(s, key, key(s[0])) != [] && WithKey(s, key, key(s[0]))[0] == s[0]
  {
  }
}
