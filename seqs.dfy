/** Filtering a sequence, as a Python list comprehension with an `if` clause does,
    and the facts that pin the filtered list down exactly. */
module Seqs {

  /** r occurs in s in order, possibly with gaps. */
  predicate IsSubsequence<T(==)>(r: seq<T>, s: seq<T>)
    decreases |s|
  {
    if r == [] then true
    else if s == [] then false
    else (r[0] == s[0] && IsSubsequence(r[1..], s[1..])) || IsSubsequence(r, s[1..])
  }

  /** Number of elements of s that satisfy p. */
  function Count<T>(p: T -> bool, s: seq<T>): nat
  {
    if s == [] then 0 else (if p(s[0]) then 1 else 0) + Count(p, s[1..])
  }

  /** `[x for x in s if p(x)]` */
  function Filter<T(==)>(p: T -> bool, s: seq<T>): (r: seq<T>)
    ensures |r| == Count(p, s)
    ensures forall i :: 0 <= i < |r| ==> r[i] in s && p(r[i])
    ensures forall i :: 0 <= i < |s| && p(s[i]) ==> s[i] in r
  {
    if s == [] then []
    else if p(s[0]) then [s[0]] + Filter(p, s[1..])
    else Filter(p, s[1..])
  }

  lemma {:induction false} FilterIsSubsequence<T>(p: T -> bool, s: seq<T>)
    ensures IsSubsequence(Filter(p, s), s)
  {
    if s != [] {
      FilterIsSubsequence(p, s[1..]);
      var r := Filter(p, s);
      if p(s[0]) {
        assert r[0] == s[0] && r[1..] == Filter(p, s[1..]);
      } else {
        if r != [] {
          assert IsSubsequence(r, s[1..]);
        }
      }
    }
  }

  /** A subsequence made only of elements satisfying p is no longer than the filter. */
  lemma {:induction false} SubsequenceBound<T>(p: T -> bool, r: seq<T>, s: seq<T>)
    requires IsSubsequence(r, s)
    requires forall x :: x in r ==> p(x)
    ensures |r| <= Count(p, s)
    decreases |s|
  {
    if r != [] {
      assert s != [];
      if r[0] == s[0] && IsSubsequence(r[1..], s[1..]) {
        assert r[0] in r;
        forall x | x in r[1..] ensures p(x) {
          assert x in r;
        }
        SubsequenceBound(p, r[1..], s[1..]);
      } else {
        SubsequenceBound(p, r, s[1..]);
      }
    }
  }

  /** The filter is the only subsequence of s that keeps every element satisfying p
      and nothing else: so "in order, exactly the matching ones" determines it. */
  lemma {:induction false} FilterUnique<T>(p: T -> bool, r: seq<T>, s: seq<T>)
    requires IsSubsequence(r, s)
    requires forall x :: x in r ==> p(x)
    requires |r| == Count(p, s)
    ensures r == Filter(p, s)
    decreases |s|
  {
    if s == [] {
    } else if r == [] {
    } else if r[0] == s[0] && IsSubsequence(r[1..], s[1..]) {
      assert r[0] in r;
      forall x | x in r[1..] ensures p(x) {
        assert x in r;
      }
      FilterUnique(p, r[1..], s[1..]);
      assert r == [r[0]] + r[1..];
    } else {
      SubsequenceBound(p, r, s[1..]);
      if p(s[0]) {
        assert false;
      }
      FilterUnique(p, r, s[1..]);
    }
  }

  /** Filtering a list whose elements all satisfy p returns it unchanged. */
  lemma {:induction false} FilterKeepsAll<T>(p: T -> bool, s: seq<T>)
    requires forall x :: x in s ==> p(x)
    ensures Filter(p, s) == s
  {
    if s != [] {
      assert s[0] in s;
      forall x | x in s[1..] ensures p(x) {
        assert x in s;
      }
      FilterKeepsAll(p, s[1..]);
      assert s == [s[0]] + s[1..];
    }
  }

  lemma FilterIdempotent<T>(p: T -> bool, s: seq<T>)
    ensures Filter(p, Filter(p, s)) == Filter(p, s)
  {
    FilterKeepsAll(p, Filter(p, s));
  }
}
