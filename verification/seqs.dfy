/** Order-preserving filtering of sequences, and the subsequence relation it
    establishes. Both the directory walk and the legacy file-input filter keep
    exactly the elements a predicate accepts, in their original order. */
module Seqs {

  /** The elements of `s` that `keep` accepts, in the order they occur in `s`
      (`Array.prototype.filter`). */
  function Filter<T>(s: seq<T>, keep: T -> bool): (r: seq<T>)
    ensures |r| <= |s|
    ensures forall x :: x in r ==> x in s && keep(x)
    ensures forall x :: x in s && keep(x) ==> x in r
  {
    if |s| == 0 then []
    else if keep(s[0]) then [s[0]] + Filter(s[1..], keep)
    else Filter(s[1..], keep)
  }

  /** `a` is obtained from `b` by deleting zero or more elements. */
  ghost predicate IsSubsequence<T>(a: seq<T>, b: seq<T>)
  {
    if |a| == 0 then true
    else if |b| == 0 then false
    else (a[0] == b[0] && IsSubsequence(a[1..], b[1..])) || IsSubsequence(a, b[1..])
  }

  /** Filtering distributes over concatenation: what is kept from a prefix stays
      in front of what is kept from the rest. */
  lemma {:induction false} FilterAppend<T>(a: seq<T>, b: seq<T>, keep: T -> bool)
    ensures Filter(a + b, keep) == Filter(a, keep) + Filter(b, keep)
  {
    if |a| == 0 {
      assert a + b == b;
    } else {
      assert (a + b)[0] == a[0];
      assert (a + b)[1..] == a[1..] + b;
      FilterAppend(a[1..], b, keep);
    }
  }

  /** Filtering never reorders: its result is a subsequence of its input. */
  lemma {:induction false} FilterIsSubsequence<T>(s: seq<T>, keep: T -> bool)
    ensures IsSubsequence(Filter(s, keep), s)
  {
    if |s| == 0 {
    } else {
      FilterIsSubsequence(s[1..], keep);
      if keep(s[0]) {
        var r := Filter(s, keep);
        assert r[0] == s[0] && r[1..] == Filter(s[1..], keep);
      }
    }
  }

  /** Filtering keeps every accepted element as many times as it occurs in
      the input, and drops every occurrence of a rejected one. */
  lemma {:induction false} FilterCounts<T>(s: seq<T>, keep: T -> bool)
    ensures forall x :: x in s ==>
              multiset(Filter(s, keep))[x] == if keep(x) then multiset(s)[x] else 0
  {
    if |s| > 0 {
      assert s == [s[0]] + s[1..];
      FilterCounts(s[1..], keep);
      forall x | x in s
        ensures multiset(Filter(s, keep))[x] == if keep(x) then multiset(s)[x] else 0
      {
        if x !in s[1..] {
          assert multiset(s[1..])[x] == 0;
          assert multiset(Filter(s[1..], keep))[x] == 0;
        }
      }
    }
  }

  /** A predicate that accepts nothing in `s` filters `s` down to nothing. */
  lemma {:induction false} FilterRejectAll<T>(s: seq<T>, keep: T -> bool)
    requires forall x :: x in s ==> !keep(x)
    ensures Filter(s, keep) == []
  {
    if |s| > 0 {
      assert s[0] in s;
      assert forall x :: x in s[1..] ==> x in s;
      FilterRejectAll(s[1..], keep);
    }
  }
}
