/** Order-preserving filtering and prefix truncation of sequences (Python's
    list comprehension with an `if` and the slice `xs[:n]`). */
module Seqs {

  function Min(a: int, b: int): int { if a <= b then a else b }

  function Max(a: int, b: int): int { if a <= b then b else a }

  /** `xs[:n]`. */
  function Take<T>(xs: seq<T>, n: nat): (r: seq<T>)
    ensures |r| == Min(|xs|, n)
    ensures IsPrefixOf(r, xs)
  {
    if |xs| <= n then xs else xs[..n]
  }

  /** `s.startswith(p)`. */
  predicate IsPrefixOf<T(==)>(p: seq<T>, s: seq<T>) {
    |p| <= |s| && s[..|p|] == p
  }

  /** `[f(x) for x in s]`. */
  function Map<A, B>(f: A -> B, s: seq<A>): (r: seq<B>)
    ensures |r| == |s|
    ensures forall i :: 0 <= i < |s| ==> r[i] == f(s[i])
  {
    seq(|s|, i requires 0 <= i < |s| => f(s[i]))
  }

  lemma MapCons<A, B>(f: A -> B, s: seq<A>)
    requires s != []
    ensures Map(f, s) == [f(s[0])] + Map(f, s[1..])
  {
    var l, r := Map(f, s), [f(s[0])] + Map(f, s[1..]);
    forall i | 0 <= i < |l| ensures l[i] == r[i] {
      if i > 0 { assert r[i] == Map(f, s[1..])[i - 1]; }
    }
  }

  /** `[x for x in s if keep(x)]`, peeled from the end so that it follows a
      loop that walks `s` from the front. */
  function Filter<T>(keep: T -> bool, s: seq<T>): (r: seq<T>)
    ensures |r| <= |s|
    ensures forall i :: 0 <= i < |r| ==> keep(r[i])
  {
    if s == [] then []
    else Filter(keep, s[..|s| - 1]) + (if keep(s[|s| - 1]) then [s[|s| - 1]] else [])
  }

  /** Filtering keeps every kept element as often as it occurs and drops the
      others entirely. */
  lemma {:induction false} FilterCount<T>(keep: T -> bool, s: seq<T>, x: T)
    ensures multiset(Filter(keep, s))[x] == if keep(x) then multiset(s)[x] else 0
  {
    if s != [] {
      var init, last := s[..|s| - 1], s[|s| - 1];
      assert s == init + [last];
      FilterCount(keep, init, x);
    }
  }

  /** Filtering from the front: the partner of the definition, which peels
      from the end. */
  lemma {:induction false} FilterCons<T>(keep: T -> bool, x: T, s: seq<T>)
    ensures Filter(keep, [x] + s) == (if keep(x) then [x] else []) + Filter(keep, s)
    decreases |s|
  {
    var xs := [x] + s;
    if s == [] {
      assert xs[..0] == [];
    } else {
      var init := s[..|s| - 1];
      FilterCons(keep, x, init);
      assert xs[..|xs| - 1] == [x] + init;
      assert xs[|xs| - 1] == s[|s| - 1];
    }
  }

  /** `out` is `s` with some elements left out and the rest in their order. */
  ghost predicate IsSubsequence<T>(out: seq<T>, s: seq<T>)
    decreases |s|
  {
    if out == [] then true
    else if s == [] then false
    else (out[|out| - 1] == s[|s| - 1] && IsSubsequence(out[..|out| - 1], s[..|s| - 1]))
         || IsSubsequence(out, s[..|s| - 1])
  }

  lemma {:induction false} FilterIsSubsequence<T>(keep: T -> bool, s: seq<T>)
    ensures IsSubsequence(Filter(keep, s), s)
  {
    if s != [] {
      var init := s[..|s| - 1];
      FilterIsSubsequence(keep, init);
      var f := Filter(keep, init);
      if keep(s[|s| - 1]) {
        assert (f + [s[|s| - 1]])[..|f|] == f;
      } else {
        assert Filter(keep, s) == f;
      }
    }
  }

  /** The filtered sequence keeps the order of `s`, keeps each kept element
      as often as it occurs and drops the others. */
  lemma FilterKeeps<T>(keep: T -> bool, s: seq<T>)
    ensures IsSubsequence(Filter(keep, s), s)
    ensures forall x :: multiset(Filter(keep, s))[x] == if keep(x) then multiset(s)[x] else 0
  {
    FilterIsSubsequence(keep, s);
    forall x ensures multiset(Filter(keep, s))[x] == if keep(x) then multiset(s)[x] else 0 {
      FilterCount(keep, s, x);
    }
  }

  /** Two filters that never keep the same element keep no more than the
      whole sequence between them. */
  lemma {:induction false} FilterDisjointLength<T>(p: T -> bool, q: T -> bool, s: seq<T>)
    requires forall x :: !(p(x) && q(x))
    ensures |Filter(p, s)| + |Filter(q, s)| <= |s|
  {
    if s != [] {
      FilterDisjointLength(p, q, s[..|s| - 1]);
    }
  }
}
