/** Order-preserving selection over sequences: the `Array.prototype.filter`
    the filter stages are written with. */
module Seqs {

  /** `r` is `s` with some elements dropped and the rest kept in order. */
  predicate IsSubsequence<T(==)>(r: seq<T>, s: seq<T>)
    decreases |s|
  {
    if r == [] then true
    else if s == [] then false
    else if r[0] == s[0] then IsSubsequence(r[1..], s[1..])
    else IsSubsequence(r, s[1..])
  }

  /** `s.filter(p)`: the elements satisfying `p`, in their original order. */
  function Keep<T>(s: seq<T>, p: T -> bool): (r: seq<T>)
    ensures |r| <= |s|
    decreases |s|
  {
    if s == [] then []
    else if p(s[0]) then [s[0]] + Keep(s[1..], p)
    else Keep(s[1..], p)
  }

  /** A subsequence stays one when its first element is dropped, and when
      an element is put in front of the sequence it is taken from. */
  lemma {:induction false} SubsequenceWeaken<T>(r: seq<T>, s: seq<T>)
    ensures r != [] && IsSubsequence(r, s) ==> IsSubsequence(r[1..], s)
    ensures s != [] && IsSubsequence(r, s[1..]) ==> IsSubsequence(r, s)
    decreases |s|
  {
    if s != [] {
      SubsequenceWeaken(r, s[1..]);
      if r != [] {
        SubsequenceWeaken(r[1..], s[1..]);
      }
      if r != [] && r[1..] != [] && IsSubsequence(r[1..], s[1..]) && r[1] == s[0] {
        SubsequenceWeaken(r[1..][1..], s[1..]);
      }
    }
  }

  /** `Keep` drops elements but never reorders them. */
  lemma {:induction false} KeepIsSubsequence<T>(s: seq<T>, p: T -> bool)
    ensures IsSubsequence(Keep(s, p), s)
    decreases |s|
  {
    if s != [] {
      KeepIsSubsequence(s[1..], p);
      var k := Keep(s[1..], p);
      if p(s[0]) {
        assert ([s[0]] + k)[1..] == k;
      } else if k != [] && k[0] == s[0] {
        SubsequenceWeaken(k, s[1..]);
      }
    }
  }

  /** `Keep` holds each element satisfying `p` as often as `s` does, and no
      other element. */
  lemma {:induction false} KeepCounts<T>(s: seq<T>, p: T -> bool)
    ensures forall x :: multiset(Keep(s, p))[x] == if p(x) then multiset(s)[x] else 0
    decreases |s|
  {
    if s != [] {
      KeepCounts(s[1..], p);
      assert s == [s[0]] + s[1..];
    }
  }

  /** What `Keep` selects, pinned down completely: an in-order selection of
      `s` that holds every element satisfying `p` as often as `s` does, and
      nothing else. */
  lemma KeepSelects<T>(s: seq<T>, p: T -> bool)
    ensures IsSubsequence(Keep(s, p), s)
    ensures multiset(Keep(s, p)) <= multiset(s)
    ensures forall x :: x in Keep(s, p) ==> p(x)
    ensures forall x :: x in s && p(x) ==> multiset(Keep(s, p))[x] == multiset(s)[x]
  {
    KeepIsSubsequence(s, p);
    KeepCounts(s, p);
    forall x | x in Keep(s, p)
      ensures p(x)
    {
      assert multiset(Keep(s, p))[x] > 0;
    }
  }

  /** Predicates that agree on every element select the same elements. */
  lemma {:induction false} KeepAgree<T>(s: seq<T>, p: T -> bool, q: T -> bool)
    requires forall i :: 0 <= i < |s| ==> p(s[i]) == q(s[i])
    ensures Keep(s, p) == Keep(s, q)
    decreases |s|
  {
    if s != [] {
      KeepAgree(s[1..], p, q);
    }
  }
}
