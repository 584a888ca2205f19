/** The JavaScript string operations the repository code relies on:
    `toLowerCase`, `includes`, `startsWith` and the relational `<`. */
module Strings {

  /** `toLowerCase` on one character, restricted to ASCII letters. */
  function LowerChar(c: char): (r: char)
    ensures 'A' <= c <= 'Z' ==> 'a' <= r <= 'z' && r as int == c as int + 32
    ensures !('A' <= c <= 'Z') ==> r == c
  {
    if 'A' <= c <= 'Z' then (c as int + 32) as char else c
  }

  /** `toLowerCase` on a string, character by character. */
  function Lower(s: string): (r: string)
    ensures |r| == |s|
    ensures forall i :: 0 <= i < |s| ==> r[i] == LowerChar(s[i])
  {
    if s == [] then [] else [LowerChar(s[0])] + Lower(s[1..])
  }

  /** A lower-cased string holds no upper-case ASCII letter, so lower-casing
      it again changes nothing. */
  lemma LowerIdempotent(s: string)
    ensures forall i :: 0 <= i < |Lower(s)| ==> !('A' <= Lower(s)[i] <= 'Z')
    ensures Lower(Lower(s)) == Lower(s)
  {
  }

  /** `s.startsWith(p)`. */
  predicate IsPrefix(p: string, s: string) {
    |p| <= |s| && s[..|p|] == p
  }

  /** `needle` occurs in `hay` starting at index `i`. */
  ghost predicate OccursAt(hay: string, needle: string, i: int) {
    0 <= i && i + |needle| <= |hay| && hay[i..i + |needle|] == needle
  }

  /** `hay.includes(needle)`: a left-to-right scan for an occurrence. */
  predicate Contains(hay: string, needle: string)
    decreases |hay|
  {
    IsPrefix(needle, hay) || (|hay| > 0 && Contains(hay[1..], needle))
  }

  /** The scan finds an occurrence exactly when one exists. */
  lemma {:induction false} ContainsIff(hay: string, needle: string)
    ensures Contains(hay, needle) <==> exists i :: OccursAt(hay, needle, i)
    decreases |hay|
  {
    if Contains(hay, needle) {
      if IsPrefix(needle, hay) {
        assert OccursAt(hay, needle, 0);
      } else {
        ContainsIff(hay[1..], needle);
        var i :| OccursAt(hay[1..], needle, i);
        assert hay[1..][i..i + |needle|] == hay[i + 1..i + 1 + |needle|];
        assert OccursAt(hay, needle, i + 1);
      }
    }
    if exists i :: OccursAt(hay, needle, i) {
      var i :| OccursAt(hay, needle, i);
      if i == 0 {
        assert IsPrefix(needle, hay);
      } else {
        assert hay[1..][i - 1..i - 1 + |needle|] == hay[i..i + |needle|];
        assert OccursAt(hay[1..], needle, i - 1);
        ContainsIff(hay[1..], needle);
      }
    }
  }

  /** A non-empty needle is not found where no position that leaves room
      for it holds its first character. */
  lemma NoStartingChar(hay: string, needle: string)
    requires needle != []
    requires forall i :: 0 <= i <= |hay| - |needle| ==> hay[i] != needle[0]
    ensures !Contains(hay, needle)
  {
    forall i | 0 <= i <= |hay| - |needle|
      ensures !OccursAt(hay, needle, i)
    {
      assert hay[i..i + |needle|][0] == hay[i];
    }
    ContainsIff(hay, needle);
  }

  /** Every slice of a string is contained in it. */
  lemma SliceContained(hay: string, i: int, j: int)
    requires 0 <= i <= j <= |hay|
    ensures Contains(hay, hay[i..j])
  {
    assert OccursAt(hay, hay[i..j], i);
    ContainsIff(hay, hay[i..j]);
  }

  /** JavaScript `a < b` on strings: lexicographic comparison of characters,
      where a proper prefix comes first. */
  predicate Less(a: string, b: string)
    decreases |a|
  {
    if a == [] then b != []
    else if b == [] then false
    else if a[0] != b[0] then a[0] < b[0]
    else Less(a[1..], b[1..])
  }

  /** No string is less than itself. */
  lemma {:induction false} LessIrreflexive(a: string)
    ensures !Less(a, a)
    decreases |a|
  {
    if a != [] {
      LessIrreflexive(a[1..]);
    }
  }

  /** `Less` is transitive. */
  lemma {:induction false} LessTransitive(a: string, b: string, c: string)
    requires Less(a, b) && Less(b, c)
    ensures Less(a, c)
    decreases |a|
  {
    if a != [] && a[0] == b[0] && b[0] == c[0] {
      LessTransitive(a[1..], b[1..], c[1..]);
    }
  }

  /** Two different strings are always ordered one way or the other. */
  lemma {:induction false} LessTotal(a: string, b: string)
    requires a != b
    ensures Less(a, b) || Less(b, a)
    decreases |a|
  {
    if a != [] && b != [] && a[0] == b[0] {
      assert a == [a[0]] + a[1..] && b == [b[0]] + b[1..];
      LessTotal(a[1..], b[1..]);
    }
  }

  /** `Less` is asymmetric. */
  lemma LessAsymmetric(a: string, b: string)
    requires Less(a, b)
    ensures !Less(b, a)
  {
    if Less(b, a) {
      LessTransitive(a, b, a);
      LessIrreflexive(a);
    }
  }

  /** "Not less than" is transitive: the order is a total preorder's complement. */
  lemma NotLessTransitive(a: string, b: string, c: string)
    requires !Less(b, a) && !Less(c, b)
    ensures !Less(c, a)
  {
    if Less(c, a) {
      if a == b {
      } else {
        LessTotal(a, b);
        LessTransitive(c, a, b);
      }
    }
  }
}
