/** Order-preserving selection over sequences: the shape shared by every
    slice-filtering loop of the application (visibility, search, delete). */
module Seqs {

  /** The elements of `s` that satisfy `p`, in their original order. Defined
      from the end so that it follows a loop that appends one element at a time. */
  function Filter<T>(p: T -> bool, s: seq<T>): (r: seq<T>)
    ensures |r| <= |s|
  {
    if s == [] then []
    else Filter(p, s[..|s| - 1]) + (if p(s[|s| - 1]) then [s[|s| - 1]] else [])
  }

  /** The positions in `s` of the elements that `Filter(p, s)` keeps. */
  function FilterIndices<T>(p: T -> bool, s: seq<T>): seq<int>
  {
    if s == [] then []
    else FilterIndices(p, s[..|s| - 1]) + (if p(s[|s| - 1]) then [|s| - 1] else [])
  }

  /** `idx` places every element of `a` at a strictly increasing position of `b`:
      `a` is a subsequence of `b` and each element of `b` is used at most once. */
  ghost predicate Embeds<T>(a: seq<T>, b: seq<T>, idx: seq<int>)
  {
    && |idx| == |a|
    && (forall k :: 0 <= k < |idx| ==> 0 <= idx[k] < |b| && a[k] == b[idx[k]])
    && (forall k, l :: 0 <= k < l < |idx| ==> idx[k] < idx[l])
  }

  /** The filtered sequence is an order-preserving subsequence of its input. */
  lemma {:induction false} FilterEmbeds<T>(p: T -> bool, s: seq<T>)
    ensures Embeds(Filter(p, s), s, FilterIndices(p, s))
  {
    if s != [] {
      var init := s[..|s| - 1];
      FilterEmbeds(p, init);
    }
  }

  /** An element occurs in the result exactly when it occurs in the input and
      passes the test. */
  lemma {:induction false} FilterMembership<T>(p: T -> bool, s: seq<T>, x: T)
    ensures x in Filter(p, s) <==> x in s && p(x)
  {
    if s != [] {
      var init := s[..|s| - 1];
      FilterMembership(p, init, x);
      assert s == init + [s[|s| - 1]];
    }
  }

  /** Every element is kept as often as it occurs in the input, or not at all:
      nothing is duplicated. */
  lemma {:induction false} FilterMultiplicity<T>(p: T -> bool, s: seq<T>, x: T)
    ensures multiset(Filter(p, s))[x] == if p(x) then multiset(s)[x] else 0
  {
    if s != [] {
      var init := s[..|s| - 1];
      FilterMultiplicity(p, init, x);
      assert s == init + [s[|s| - 1]];
    }
  }

  /** When every element passes, the filter returns its input unchanged. */
  lemma {:induction false} FilterAllPass<T>(p: T -> bool, s: seq<T>)
    requires forall i :: 0 <= i < |s| ==> p(s[i])
    ensures Filter(p, s) == s
  {
    if s != [] {
      var init := s[..|s| - 1];
      FilterAllPass(p, init);
    }
  }

  /** When no element passes, the filter returns the empty sequence. */
  lemma {:induction false} FilterNonePass<T>(p: T -> bool, s: seq<T>)
    requires forall i :: 0 <= i < |s| ==> !p(s[i])
    ensures Filter(p, s) == []
  {
    if s != [] {
      var init := s[..|s| - 1];
      FilterNonePass(p, init);
    }
  }

  /** Filtering twice by the same test is filtering once. */
  lemma {:induction false} FilterIdempotent<T>(p: T -> bool, s: seq<T>)
    ensures Filter(p, Filter(p, s)) == Filter(p, s)
  {
    var r := Filter(p, s);
    FilterEmbeds(p, s);
    forall i | 0 <= i < |r| ensures p(r[i]) {
      FilterPasses(p, s, i);
    }
    FilterAllPass(p, r);
  }

  /** Each element of the result passes the test. */
  lemma {:induction false} FilterPasses<T>(p: T -> bool, s: seq<T>, i: int)
    requires 0 <= i < |Filter(p, s)|
    ensures p(Filter(p, s)[i])
  {
    var init := s[..|s| - 1];
    if i < |Filter(p, init)| {
      FilterPasses(p, init, i);
    }
  }

  /** `s` in the opposite order (a query with ORDER BY ... DESC over rows kept
      in ascending order). */
  function Reverse<T>(s: seq<T>): (r: seq<T>)
    ensures |r| == |s|
    ensures forall i :: 0 <= i < |s| ==> r[i] == s[|s| - 1 - i]
  {
    if s == [] then [] else [s[|s| - 1]] + Reverse(s[..|s| - 1])
  }
}
