/** Order-preserving filtering of sequences, shared by the host-list processing. */
module Seqs {

  /** `a` can be obtained from `b` by deleting elements, keeping the order of the rest. */
  ghost predicate IsSubsequence<T>(a: seq<T>, b: seq<T>)
    decreases |b|
  {
    if a == [] then true
    else if b == [] then false
    else (a[0] == b[0] && IsSubsequence(a[1..], b[1..])) || IsSubsequence(a, b[1..])
  }

  /** The elements of `s` satisfying `keep`, in their original order and with
      repetitions, as the list comprehension `[x for x in s if keep(x)]` builds them. */
  function Filter<T>(s: seq<T>, keep: T -> bool): seq<T> {
    if s == [] then []
    else if keep(s[0]) then [s[0]] + Filter(s[1..], keep)
    else Filter(s[1..], keep)
  }

  /** What filtering keeps: only passing elements, all of them, drawn from the
      input in its order; nothing is kept exactly when nothing passes. */
  lemma {:induction false} FilterSpec<T>(s: seq<T>, keep: T -> bool)
    ensures |Filter(s, keep)| <= |s|
    ensures forall x :: x in Filter(s, keep) ==> keep(x) && x in s
    ensures forall k :: 0 <= k < |s| && keep(s[k]) ==> s[k] in Filter(s, keep)
    ensures IsSubsequence(Filter(s, keep), s)
    ensures Filter(s, keep) == [] <==> forall k :: 0 <= k < |s| ==> !keep(s[k])
    decreases |s|
  {
    if s != [] {
      var rest := Filter(s[1..], keep);
      FilterSpec(s[1..], keep);
      assert forall k :: 0 <= k < |s| - 1 ==> s[1..][k] == s[k + 1];
      if keep(s[0]) {
        assert ([s[0]] + rest)[1..] == rest;
      } else if rest == [] {
        assert IsSubsequence(rest, s);
      }
    }
  }

  /** Filtering keeps every occurrence of a passing value and none of a failing one:
      duplicates survive, and nothing else does. */
  lemma {:induction false} FilterOccurrences<T>(s: seq<T>, keep: T -> bool, x: T)
    ensures multiset(Filter(s, keep))[x] == if keep(x) then multiset(s)[x] else 0
    decreases |s|
  {
    if s != [] {
      var rest := Filter(s[1..], keep);
      FilterOccurrences(s[1..], keep, x);
      assert s == [s[0]] + s[1..];
      assert multiset(s)[x] == multiset([s[0]])[x] + multiset(s[1..])[x];
      if keep(s[0]) {
        assert multiset(Filter(s, keep))[x] == multiset([s[0]])[x] + multiset(rest)[x];
      }
    }
  }

  /** Filtering a sequence extended at the end: the shape of an appending loop. */
  lemma {:induction false} FilterAppend<T>(s: seq<T>, x: T, keep: T -> bool)
    ensures Filter(s + [x], keep) == Filter(s, keep) + (if keep(x) then [x] else [])
    decreases |s|
  {
    var tail := if keep(x) then [x] else [];
    var t := s + [x];
    if s == [] {
      assert t == [x];
      assert t[1..] == [];
    } else {
      assert t[0] == s[0];
      assert t[1..] == s[1..] + [x];
      FilterAppend(s[1..], x, keep);
      if keep(s[0]) {
        assert Filter(t, keep) == [s[0]] + (Filter(s[1..], keep) + tail);
        assert [s[0]] + (Filter(s[1..], keep) + tail) == ([s[0]] + Filter(s[1..], keep)) + tail;
      }
    }
  }

  /** Every element lands in exactly one of the two filters by `keep` and by its negation. */
  lemma {:induction false} FilterSplitsLength<T>(s: seq<T>, keep: T -> bool, drop: T -> bool)
    requires forall x :: drop(x) <==> !keep(x)
    ensures |Filter(s, keep)| + |Filter(s, drop)| == |s|
    decreases |s|
  {
    if s != [] {
      FilterSplitsLength(s[1..], keep, drop);
    }
  }
}
