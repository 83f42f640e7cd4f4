/**
 * Selection and ordering by a real-valued key, as the source relies on it:
 * Python's `max(items, key=...)` returns the FIRST item whose key is maximal,
 * FAISS's flat inner-product search with k = 1 keeps the first (lowest-index)
 * best vector because it only replaces its candidate on a strictly better score,
 * and Python's `list.sort` is stable.
 */
module Ranking {

  /** The index of the first maximal element. */
  function ArgMaxFirst(s: seq<real>): (i: nat)
    requires |s| > 0
    ensures i < |s|
    ensures forall j :: 0 <= j < |s| ==> s[j] <= s[i]
    ensures forall j :: 0 <= j < i ==> s[j] < s[i]
  {
    if |s| == 1 then 0
    else
      var k := ArgMaxFirst(s[..|s| - 1]);
      if s[|s| - 1] > s[k] then |s| - 1 else k
  }

  /** Inserts `x` after every element whose key is at most `key(x)`. */
  function InsertBy<T>(x: T, s: seq<T>, key: T -> real): (r: seq<T>)
    ensures |r| == |s| + 1
  {
    if s == [] then [x]
    else if key(x) < key(s[0]) then [x] + s
    else [s[0]] + InsertBy(x, s[1..], key)
  }

  /** Stable insertion sort, ascending by `key`. */
  function SortBy<T>(s: seq<T>, key: T -> real): (r: seq<T>)
    ensures |r| == |s|
  {
    if s == [] then [] else InsertBy(s[|s| - 1], SortBy(s[..|s| - 1], key), key)
  }

  predicate SortedBy<T>(s: seq<T>, key: T -> real)
  {
    forall i, j :: 0 <= i < j < |s| ==> key(s[i]) <= key(s[j])
  }

  lemma {:induction false} InsertBySorted<T>(x: T, s: seq<T>, key: T -> real)
    requires SortedBy(s, key)
    ensures SortedBy(InsertBy(x, s, key), key)
  {
    if s != [] && key(x) >= key(s[0]) {
      InsertBySorted(x, s[1..], key);
      var r := InsertBy(x, s[1..], key);
      InsertByElements(x, s[1..], key);
      assert forall k :: 0 <= k < |r| ==> key(s[0]) <= key(r[k]);
    }
  }

  lemma {:induction false} InsertByElements<T>(x: T, s: seq<T>, key: T -> real)
    ensures forall k :: 0 <= k < |InsertBy(x, s, key)| ==>
      InsertBy(x, s, key)[k] == x || InsertBy(x, s, key)[k] in s
  {
    if s != [] && key(x) >= key(s[0]) {
      InsertByElements(x, s[1..], key);
    }
  }

  lemma {:induction false} InsertByMultiset<T>(x: T, s: seq<T>, key: T -> real)
    ensures multiset(InsertBy(x, s, key)) == multiset(s) + multiset{x}
  {
    if s != [] && key(x) >= key(s[0]) {
      InsertByMultiset(x, s[1..], key);
      assert s == [s[0]] + s[1..];
    }
  }

  /** Sorting orders the elements by key. */
  lemma {:induction false} SortBySorted<T>(s: seq<T>, key: T -> real)
    ensures SortedBy(SortBy(s, key), key)
  {
    if s != [] {
      SortBySorted(s[..|s| - 1], key);
      InsertBySorted(s[|s| - 1], SortBy(s[..|s| - 1], key), key);
    }
  }

  /** Sorting neither loses nor invents elements. */
  lemma {:induction false} SortByPermutes<T>(s: seq<T>, key: T -> real)
    ensures multiset(SortBy(s, key)) == multiset(s)
  {
    if s != [] {
      SortByPermutes(s[..|s| - 1], key);
      InsertByMultiset(s[|s| - 1], SortBy(s[..|s| - 1], key), key);
      assert s == s[..|s| - 1] + [s[|s| - 1]];
    }
  }

  /**
   * The first `m` elements of a sort are the `m` best: each of them has a key no
   * larger than any element of the input that was left out.
   */
  lemma {:induction false} SortByPrefixIsSmallest<T>(s: seq<T>, key: T -> real, m: nat, p: nat, x: T)
    requires p < m <= |s|
    requires x in SortBy(s, key)[m..]
    ensures key(SortBy(s, key)[p]) <= key(x)
  {
    var r := SortBy(s, key);
    SortBySorted(s, key);
    var q :| m <= q < |r| && r[q] == x;
  }

  /** The first element of a sort has the smallest key of the input. */
  lemma {:induction false} SortByFirstIsMin<T>(s: seq<T>, key: T -> real, x: T)
    requires x in s
    ensures |SortBy(s, key)| > 0 && key(SortBy(s, key)[0]) <= key(x)
  {
    var r := SortBy(s, key);
    SortBySorted(s, key);
    SortByPermutes(s, key);
    assert x in multiset(r);
    var q :| 0 <= q < |r| && r[q] == x;
  }
}
