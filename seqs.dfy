/** `Array.prototype.filter` on immutable sequences, and the facts about it
    that the task list relies on: it keeps exactly the elements that pass the
    test, each as often as it occurs, in their original order. */
module Seqs {

  /** `r` can be obtained from `s` by deleting elements: the elements of `r`
      occur in `s` in the same order. */
  predicate IsSubsequence<T(==)>(r: seq<T>, s: seq<T>) {
    r == [] ||
    (s != [] &&
     ((r[0] == s[0] && IsSubsequence(r[1..], s[1..])) || IsSubsequence(r, s[1..])))
  }

  /** `s.filter(p)`: the elements of `s` that satisfy `p`, in their original
      order. */
  function Filter<T(==,!new)>(s: seq<T>, p: T -> bool): (r: seq<T>)
    ensures |r| <= |s|
    ensures forall x :: x in r <==> x in s && p(x)
    ensures IsSubsequence(r, s)
  {
    if s == [] then []
    else if p(s[0]) then [s[0]] + Filter(s[1..], p)
    else Filter(s[1..], p)
  }

  /** A subsequence uses each value at most as often as the sequence has it. */
  lemma {:induction false} SubsequenceMultiset<T>(r: seq<T>, s: seq<T>)
    requires IsSubsequence(r, s)
    ensures multiset(r) <= multiset(s)
  {
    if r == [] {
    } else if r[0] == s[0] && IsSubsequence(r[1..], s[1..]) {
      SubsequenceMultiset(r[1..], s[1..]);
      assert r == [r[0]] + r[1..];
      assert s == [s[0]] + s[1..];
    } else {
      SubsequenceMultiset(r, s[1..]);
      assert s == [s[0]] + s[1..];
    }
  }

  /** Filtering keeps every occurrence of a value that passes the test and
      none of a value that fails it. */
  lemma {:induction false} FilterMultiset<T(!new)>(s: seq<T>, p: T -> bool)
    ensures forall x :: multiset(Filter(s, p))[x] == if p(x) then multiset(s)[x] else 0
  {
    if s != [] {
      FilterMultiset(s[1..], p);
      assert s == [s[0]] + s[1..];
    }
  }

  /** The converse: the only subsequence of `s` that keeps every occurrence of
      each passing value and nothing else is `Filter(s, p)`. With
      `FilterMultiset` and the contract of `Filter`, this characterises
      `Filter` completely. */
  lemma {:induction false} FilterUnique<T(!new)>(s: seq<T>, p: T -> bool, r: seq<T>)
    requires IsSubsequence(r, s)
    requires forall x :: multiset(r)[x] == if p(x) then multiset(s)[x] else 0
    ensures r == Filter(s, p)
  {
    if s == [] {
      assert r == [];
    } else {
      var a, t := s[0], s[1..];
      assert s == [a] + t;
      if r == [] {
        assert multiset(s)[a] > 0;
        assert !p(a);
        FilterUnique(t, p, r);
      } else if r[0] == a && IsSubsequence(r[1..], t) {
        assert r == [a] + r[1..];
        assert multiset(r)[a] > 0;
        forall x ensures multiset(r[1..])[x] == if p(x) then multiset(t)[x] else 0 {
          assert multiset(r)[x] == multiset(r[1..])[x] + (if x == a then 1 else 0);
          assert multiset(s)[x] == multiset(t)[x] + (if x == a then 1 else 0);
        }
        FilterUnique(t, p, r[1..]);
      } else {
        assert IsSubsequence(r, t);
        SubsequenceMultiset(r, t);
        assert multiset(s)[a] == multiset(t)[a] + 1;
        assert !p(a);
        forall x ensures multiset(r)[x] == if p(x) then multiset(t)[x] else 0 {
          assert multiset(s)[x] == multiset(t)[x] + (if x == a then 1 else 0);
        }
        FilterUnique(t, p, r);
      }
    }
  }

  /** Filtering twice with the same test is filtering once. */
  lemma {:induction false} FilterIdempotent<T(!new)>(s: seq<T>, p: T -> bool)
    ensures Filter(Filter(s, p), p) == Filter(s, p)
  {
    if s != [] {
      FilterIdempotent(s[1..], p);
    }
  }

  /** Filtering changes nothing exactly when every element passes. */
  lemma {:induction false} FilterKeepsAll<T(!new)>(s: seq<T>, p: T -> bool)
    ensures Filter(s, p) == s <==> forall x :: x in s ==> p(x)
  {
    if s != [] {
      FilterKeepsAll(s[1..], p);
      if forall x :: x in s ==> p(x) {
        assert forall x :: x in s[1..] ==> x in s;
      }
    }
  }

  /** Two tests that agree on the elements of `s` select the same elements. */
  lemma {:induction false} FilterAgree<T(!new)>(s: seq<T>, p: T -> bool, q: T -> bool)
    requires forall x :: x in s ==> p(x) == q(x)
    ensures Filter(s, p) == Filter(s, q)
  {
    if s != [] {
      assert forall x :: x in s[1..] ==> x in s;
      FilterAgree(s[1..], p, q);
    }
  }

  /** Filtering by a test and by its negation splits `s` in two: every
      occurrence of every value goes to exactly one side. */
  lemma {:induction false} FilterSplit<T(!new)>(s: seq<T>, p: T -> bool, q: T -> bool)
    requires forall x :: q(x) == !p(x)
    ensures multiset(Filter(s, p)) + multiset(Filter(s, q)) == multiset(s)
    ensures |Filter(s, p)| + |Filter(s, q)| == |s|
  {
    if s != [] {
      FilterSplit(s[1..], p, q);
      assert s == [s[0]] + s[1..];
    }
  }
}
