/** `sorted(items, key=lambda x: x.upload_date, reverse=True)`: Python's sort is
    stable, and `reverse=True` keeps equal keys in their original order, so the
    result is ordered by key, largest first, with ties left as they were. */
module Ordering {

  ghost predicate NewestFirst<T>(s: seq<T>, key: T -> int) {
    forall i, j :: 0 <= i < j < |s| ==> key(s[i]) >= key(s[j])
  }

  /** The elements of s whose key is k, in their order in s. */
  function WithKey<T>(s: seq<T>, key: T -> int, k: int): seq<T> {
    if |s| == 0 then []
    else (if key(s[0]) == k then [s[0]] else []) + WithKey(s[1..], key, k)
  }

  /** Places x before the first element whose key is not larger than its own. */
  function Insert<T>(x: T, s: seq<T>, key: T -> int): seq<T> {
    if |s| == 0 || key(x) >= key(s[0]) then [x] + s
    else [s[0]] + Insert(x, s[1..], key)
  }

  function SortNewestFirst<T>(s: seq<T>, key: T -> int): seq<T> {
    if |s| == 0 then [] else Insert(s[0], SortNewestFirst(s[1..], key), key)
  }

  lemma {:induction false} InsertCounts<T>(x: T, s: seq<T>, key: T -> int)
    ensures multiset(Insert(x, s, key)) == multiset(s) + multiset{x}
    ensures |Insert(x, s, key)| == |s| + 1
  {
    if |s| > 0 && key(x) < key(s[0]) {
      InsertCounts(x, s[1..], key);
      assert s == [s[0]] + s[1..];
    }
  }

  /** Insertion brings in no key above a bound that x and s keep. */
  lemma {:induction false} InsertBounded<T>(x: T, s: seq<T>, key: T -> int, b: int)
    requires key(x) <= b && forall i :: 0 <= i < |s| ==> key(s[i]) <= b
    ensures forall i :: 0 <= i < |Insert(x, s, key)| ==> key(Insert(x, s, key)[i]) <= b
  {
    var r := Insert(x, s, key);
    if |s| == 0 || key(x) >= key(s[0]) {
      assert forall i :: 0 < i < |r| ==> r[i] == s[i - 1];
    } else {
      var rest := Insert(x, s[1..], key);
      InsertBounded(x, s[1..], key, b);
      assert forall i :: 0 < i < |r| ==> r[i] == rest[i - 1];
    }
  }

  lemma {:induction false} InsertOrdered<T>(x: T, s: seq<T>, key: T -> int)
    requires NewestFirst(s, key)
    ensures NewestFirst(Insert(x, s, key), key)
  {
    var r := Insert(x, s, key);
    if |s| == 0 || key(x) >= key(s[0]) {
      forall i, j | 0 <= i < j < |r| ensures key(r[i]) >= key(r[j]) {
        if i > 0 {
          assert r[i] == s[i - 1] && r[j] == s[j - 1];
        } else {
          assert r[j] == s[j - 1];
          assert key(s[0]) >= key(s[j - 1]);
        }
      }
    } else {
      var tail := s[1..];
      var rest := Insert(x, tail, key);
      assert forall i :: 0 <= i < |tail| ==> tail[i] == s[i + 1];
      InsertOrdered(x, tail, key);
      InsertBounded(x, tail, key, key(s[0]));
      assert forall i :: 0 < i < |r| ==> r[i] == rest[i - 1];
    }
  }

  lemma {:induction false} InsertWithKey<T>(x: T, s: seq<T>, key: T -> int, k: int)
    requires NewestFirst(s, key)
    ensures WithKey(Insert(x, s, key), key, k)
            == (if key(x) == k then [x] else []) + WithKey(s, key, k)
  {
    var r := Insert(x, s, key);
    if |s| == 0 || key(x) >= key(s[0]) {
      assert r[1..] == s;
    } else {
      var rest := Insert(x, s[1..], key);
      assert r[1..] == rest;
      InsertWithKey(x, s[1..], key, k);
      assert NewestFirst(s[1..], key) by {
        forall i, j | 0 <= i < j < |s[1..]| ensures key(s[1..][i]) >= key(s[1..][j]) {
          assert s[1..][i] == s[i + 1] && s[1..][j] == s[j + 1];
        }
      }
    }
  }

  lemma {:induction false} SortFacts<T>(s: seq<T>, key: T -> int)
    ensures NewestFirst(SortNewestFirst(s, key), key)
    ensures multiset(SortNewestFirst(s, key)) == multiset(s)
    ensures |SortNewestFirst(s, key)| == |s|
    ensures forall k :: WithKey(SortNewestFirst(s, key), key, k) == WithKey(s, key, k)
  {
    if |s| > 0 {
      var rest := SortNewestFirst(s[1..], key);
      SortFacts(s[1..], key);
      InsertOrdered(s[0], rest, key);
      InsertCounts(s[0], rest, key);
      forall k ensures WithKey(SortNewestFirst(s, key), key, k) == WithKey(s, key, k) {
        InsertWithKey(s[0], rest, key, k);
      }
      assert s == [s[0]] + s[1..];
    }
  }

  /** The sorted list is a permutation of the collected one, newest first, and
      entries with equal dates keep the order in which they were collected. */
  lemma SortNewestFirstSpec<T>(s: seq<T>, key: T -> int)
    ensures var r := SortNewestFirst(s, key);
      && multiset(r) == multiset(s)
      && (forall i, j :: 0 <= i < j < |r| ==> key(r[i]) >= key(r[j]))
      && (forall k :: WithKey(r, key, k) == WithKey(s, key, k))
  {
    SortFacts(s, key);
  }

  /** Sorting neither adds nor drops an element. */
  lemma SortKeepsMembers<T>(s: seq<T>, key: T -> int)
    ensures forall x :: x in SortNewestFirst(s, key) <==> x in s
  {
    SortFacts(s, key);
    var r := SortNewestFirst(s, key);
    forall x ensures x in r <==> x in s {
      assert x in r <==> x in multiset(r);
      assert x in s <==> x in multiset(s);
    }
  }
}
