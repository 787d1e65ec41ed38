/** Kotlin's `sortedWith` for a comparator that compares one integer key of
    each element: a stable sort, here an insertion sort. Any two stable sorts
    by the same key return the same list, so the algorithm chosen does not
    change what the model returns. */
module Sorting {
  import opened Sequences

  /** Keys never decrease from left to right. */
  ghost predicate SortedBy<T>(s: seq<T>, key: T -> int) {
    forall i, j :: 0 <= i < j < |s| ==> key(s[i]) <= key(s[j])
  }

  /** `i` holds the least key of `s`, and no earlier element holds it. */
  ghost predicate IsFirstMinimal<T>(s: seq<T>, key: T -> int, i: int) {
    && 0 <= i < |s|
    && (forall j :: 0 <= j < |s| ==> key(s[i]) <= key(s[j]))
    && (forall j :: 0 <= j < i ==> key(s[i]) < key(s[j]))
  }

  /** Inserts `x` into the sorted `s` in front of every element whose key is
      not smaller than its own. */
  function InsertBy<T(==)>(x: T, s: seq<T>, key: T -> int): (r: seq<T>)
    requires SortedBy(s, key)
    ensures SortedBy(r, key)
    ensures multiset(r) == multiset(s) + multiset{x}
    ensures r[0] == if s == [] || key(x) <= key(s[0]) then x else s[0]
  {
    if s == [] || key(x) <= key(s[0]) then
      [x] + s
    else
      var rest := InsertBy(x, s[1..], key);
      assert s == [s[0]] + s[1..];
      assert forall j :: 0 <= j < |rest| ==> key(s[0]) <= key(rest[j]) by {
        forall j | 0 <= j < |rest| ensures key(s[0]) <= key(rest[j]) {
          assert key(s[0]) <= key(rest[0]);
        }
      }
      [s[0]] + rest
  }

  /** The stable sort of `s` by `key`: sorted, and a permutation of `s`. */
  function SortBy<T(==)>(s: seq<T>, key: T -> int): (r: seq<T>)
    ensures SortedBy(r, key)
    ensures multiset(r) == multiset(s)
    ensures |r| == |s|
  {
    if s == [] then []
    else
      assert s == [s[0]] + s[1..];
      InsertBy(s[0], SortBy(s[1..], key), key)
  }

  /** The position of the first element of `s` with the least key. */
  function FirstMinIndex<T>(s: seq<T>, key: T -> int): (i: nat)
    requires |s| > 0
    ensures IsFirstMinimal(s, key, i)
  {
    if |s| == 1 then 0
    else
      var k := FirstMinIndex(s[1..], key) + 1;
      if key(s[0]) <= key(s[k]) then 0 else k
  }

  /** The sort is stable: the elements of any one key keep their input order. */
  lemma {:induction false} SortByIsStable<T(!new)>(s: seq<T>, key: T -> int, k: int)
    ensures Filter(SortBy(s, key), x => key(x) == k) == Filter(s, x => key(x) == k)
  {
    if s != [] {
      SortByIsStable(s[1..], key, k);
      InsertByFilter(s[0], SortBy(s[1..], key), key, k);
      assert s == [s[0]] + s[1..];
      FilterAppend([s[0]], s[1..], x => key(x) == k);
    }
  }

  /** Selecting the elements of key `k` after an insertion is the same as
      selecting them before it, with `x` in front when its key is `k`. */
  lemma {:induction false} InsertByFilter<T(!new)>(x: T, s: seq<T>, key: T -> int, k: int)
    requires SortedBy(s, key)
    ensures Filter(InsertBy(x, s, key), y => key(y) == k)
         == (if key(x) == k then [x] else []) + Filter(s, y => key(y) == k)
  {
    var p := y => key(y) == k;
    if s == [] || key(x) <= key(s[0]) {
      FilterAppend([x], s, p);
    } else {
      assert s == [s[0]] + s[1..];
      InsertByFilter(x, s[1..], key, k);
      FilterAppend([s[0]], InsertBy(x, s[1..], key), p);
      FilterAppend([s[0]], s[1..], p);
    }
  }

  /** The head of the stable sort is the first element with the least key. */
  lemma {:induction false} SortByHead<T>(s: seq<T>, key: T -> int)
    requires |s| > 0
    ensures SortBy(s, key)[0] == s[FirstMinIndex(s, key)]
  {
    if |s| > 1 {
      SortByHead(s[1..], key);
    }
  }
}
