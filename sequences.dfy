/** Kotlin's `filter` over lists, and what it means for a list to be an
    order-preserving selection of another. */
module Sequences {

  /** `r` can be obtained from `s` by deleting elements, without reordering
      or inventing any. */
  ghost predicate IsSubsequence<T>(r: seq<T>, s: seq<T>)
    decreases |s|
  {
    || r == []
    || (&& s != []
        && (|| (r[0] == s[0] && IsSubsequence(r[1..], s[1..]))
            || IsSubsequence(r, s[1..])))
  }

  /** Kotlin's `filter`: a fresh list holding the elements of `s` that satisfy
      `p`, in their original order. */
  function Filter<T(==,!new)>(s: seq<T>, p: T -> bool): (r: seq<T>)
    ensures |r| <= |s|
    ensures forall x :: x in r <==> x in s && p(x)
    ensures IsSubsequence(r, s)
  {
    if s == [] then []
    else
      var rest := Filter(s[1..], p);
      assert s == [s[0]] + s[1..];
      if p(s[0]) then
        assert ([s[0]] + rest)[1..] == rest;
        [s[0]] + rest
      else
        assert rest != [] ==> rest[0] in rest;
        rest
  }

  /** `Filter` keeps every element satisfying `p` as often as it occurs in
      `s`, and no other element. */
  lemma {:induction false} FilterMultiset<T(!new)>(s: seq<T>, p: T -> bool)
    ensures forall x :: multiset(Filter(s, p))[x] == if p(x) then multiset(s)[x] else 0
  {
    if s != [] {
      FilterMultiset(s[1..], p);
      assert s == [s[0]] + s[1..];
      if p(s[0]) {
        assert Filter(s, p) == [s[0]] + Filter(s[1..], p);
      }
    }
  }

  /** A subsequence never holds an element more often than the sequence it
      was taken from. */
  lemma {:induction false} SubsequenceMultiset<T>(r: seq<T>, s: seq<T>)
    requires IsSubsequence(r, s)
    ensures multiset(r) <= multiset(s)
    decreases |s|
  {
    if r != [] {
      assert s == [s[0]] + s[1..];
      if r[0] == s[0] && IsSubsequence(r[1..], s[1..]) {
        SubsequenceMultiset(r[1..], s[1..]);
        assert r == [r[0]] + r[1..];
      } else {
        SubsequenceMultiset(r, s[1..]);
      }
    }
  }

  /** `Filter` is the only order-preserving selection from `s` that keeps
      every element satisfying `p`, as often as it occurs, and nothing else. */
  lemma {:induction false} FilterIsUnique<T(!new)>(s: seq<T>, p: T -> bool, r: seq<T>)
    requires IsSubsequence(r, s)
    requires forall x :: multiset(r)[x] == if p(x) then multiset(s)[x] else 0
    ensures r == Filter(s, p)
    decreases |s|
  {
    if s == [] {
    } else {
      var h, t := s[0], s[1..];
      assert s == [h] + t;
      if p(h) {
        assert multiset(r)[h] > 0;
        if IsSubsequence(r, t) {
          SubsequenceMultiset(r, t);
          assert false;
        }
        assert r[0] == h && IsSubsequence(r[1..], t);
        assert r == [h] + r[1..];
        forall x ensures multiset(r[1..])[x] == if p(x) then multiset(t)[x] else 0 {
        }
        FilterIsUnique(t, p, r[1..]);
      } else {
        assert multiset(r)[h] == 0;
        assert r != [] ==> r[0] in multiset(r);
        assert IsSubsequence(r, t);
        forall x ensures multiset(r)[x] == if p(x) then multiset(t)[x] else 0 {
          if p(x) { assert x != h; }
        }
        FilterIsUnique(t, p, r);
      }
    }
  }

  /** `Filter` distributes over concatenation. */
  lemma {:induction false} FilterAppend<T(!new)>(a: seq<T>, b: seq<T>, p: T -> bool)
    ensures Filter(a + b, p) == Filter(a, p) + Filter(b, p)
  {
    if a != [] {
      var ab := a + b;
      assert ab[0] == a[0] && ab[1..] == a[1..] + b;
      FilterAppend(a[1..], b, p);
      if p(a[0]) {
        assert Filter(ab, p) == [a[0]] + Filter(ab[1..], p);
        assert Filter(a, p) == [a[0]] + Filter(a[1..], p);
        assert Filter(ab, p) == [a[0]] + (Filter(a[1..], p) + Filter(b, p));
      } else {
        assert Filter(ab, p) == Filter(ab[1..], p);
        assert Filter(a, p) == Filter(a[1..], p);
      }
    } else {
      assert a + b == b;
    }
  }
}
