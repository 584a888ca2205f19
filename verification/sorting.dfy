/** The stable comparison sort `Array.prototype.sort` performs, specialised
    to the three-way comparator of the repository's sort stage: records are
    ordered by a string key, ascending or descending, and records whose keys
    compare equal keep their relative order. */
module Sorting {
  import opened Strings
  import opened Seqs

  datatype Direction = Ascending | Descending

  /** The comparator puts `x` strictly before `y` (it returns a negative number). */
  predicate Precedes<T>(x: T, y: T, key: T -> string, dir: Direction) {
    if dir == Ascending then Less(key(x), key(y)) else Less(key(y), key(x))
  }

  /** No two elements are out of order. */
  ghost predicate Sorted<T>(s: seq<T>, key: T -> string, dir: Direction) {
    forall i, j :: 0 <= i < j < |s| ==> !Precedes(s[j], s[i], key, dir)
  }

  /** The selector for elements whose key is `k`. */
  function KeyIs<T>(key: T -> string, k: string): T -> bool {
    x => key(x) == k
  }

  /** For every key, the elements holding that key appear in `r` in the same
      order as in `s`: the stability requirement on a sort. */
  ghost predicate SameTies<T>(r: seq<T>, s: seq<T>, key: T -> string) {
    forall k :: Keep(r, KeyIs(key, k)) == Keep(s, KeyIs(key, k))
  }

  /** Inserts `x` in front of the first element of `t` that does not precede it. */
  function Insert<T>(x: T, t: seq<T>, key: T -> string, dir: Direction): (r: seq<T>)
    ensures |r| == |t| + 1
    ensures multiset(r) == multiset{x} + multiset(t)
    decreases |t|
  {
    if t == [] then [x]
    else if Precedes(t[0], x, key, dir) then
      assert t == [t[0]] + t[1..];
      [t[0]] + Insert(x, t[1..], key, dir)
    else [x] + t
  }

  /** The sort stage: a permutation of `s` ordered by `key` in direction `dir`. */
  function SortBy<T>(s: seq<T>, key: T -> string, dir: Direction): (r: seq<T>)
    ensures |r| == |s|
    ensures multiset(r) == multiset(s)
    decreases |s|
  {
    if s == [] then []
    else
      assert s == [s[0]] + s[1..];
      Insert(s[0], SortBy(s[1..], key, dir), key, dir)
  }

  /** An element that precedes another has a different key. */
  lemma PrecedesDistinctKeys<T>(x: T, y: T, key: T -> string, dir: Direction)
    requires Precedes(x, y, key, dir)
    ensures key(x) != key(y)
  {
    if key(x) == key(y) {
      LessIrreflexive(key(x));
    }
  }

  /** Two elements never precede each other. */
  lemma PrecedesAsymmetric<T>(x: T, y: T, key: T -> string, dir: Direction)
    requires Precedes(x, y, key, dir)
    ensures !Precedes(y, x, key, dir)
  {
    if dir == Ascending {
      LessAsymmetric(key(x), key(y));
    } else {
      LessAsymmetric(key(y), key(x));
    }
  }

  /** "Does not precede" is transitive. */
  lemma NotPrecedesTransitive<T>(x: T, y: T, z: T, key: T -> string, dir: Direction)
    requires !Precedes(y, x, key, dir) && !Precedes(z, y, key, dir)
    ensures !Precedes(z, x, key, dir)
  {
    if dir == Ascending {
      NotLessTransitive(key(x), key(y), key(z));
    } else {
      NotLessTransitive(key(z), key(y), key(x));
    }
  }

  /** Of two elements with different keys, one precedes the other. */
  lemma PrecedesTotal<T>(x: T, y: T, key: T -> string, dir: Direction)
    requires key(x) != key(y)
    ensures Precedes(x, y, key, dir) || Precedes(y, x, key, dir)
  {
    LessTotal(key(x), key(y));
  }

  /** Inserting into a sorted sequence keeps it sorted. */
  lemma {:induction false} InsertSorted<T>(x: T, t: seq<T>, key: T -> string, dir: Direction)
    requires Sorted(t, key, dir)
    ensures Sorted(Insert(x, t, key, dir), key, dir)
    decreases |t|
  {
    var r := Insert(x, t, key, dir);
    if t == [] {
    } else if Precedes(t[0], x, key, dir) {
      InsertSorted(x, t[1..], key, dir);
      var rest := Insert(x, t[1..], key, dir);
      assert r == [t[0]] + rest;
      assert multiset(rest) == multiset{x} + multiset(t[1..]);
      forall j | 0 < j < |r|
        ensures !Precedes(r[j], r[0], key, dir)
      {
        assert r[j] in multiset(rest);
        if r[j] == x {
          PrecedesAsymmetric(t[0], x, key, dir);
        } else {
          assert r[j] in t[1..];
          var m :| 0 <= m < |t[1..]| && t[1..][m] == r[j];
          assert t[m + 1] == r[j];
        }
      }
    } else {
      assert r == [x] + t;
      forall j | 0 < j < |r|
        ensures !Precedes(r[j], r[0], key, dir)
      {
        assert r[j] == t[j - 1];
        if j > 1 {
          NotPrecedesTransitive(x, t[0], t[j - 1], key, dir);
        }
      }
    }
  }

  /** Inserting `x` leaves every other key's elements in their order, and puts
      `x` ahead of every element already holding its key. */
  lemma {:induction false} InsertTies<T>(x: T, t: seq<T>, key: T -> string, dir: Direction, k: string)
    ensures Keep(Insert(x, t, key, dir), KeyIs(key, k))
         == (if key(x) == k then [x] else []) + Keep(t, KeyIs(key, k))
    decreases |t|
  {
    var p := KeyIs(key, k);
    var r := Insert(x, t, key, dir);
    if t == [] {
    } else if Precedes(t[0], x, key, dir) {
      InsertTies(x, t[1..], key, dir, k);
      var rest := Insert(x, t[1..], key, dir);
      assert r == [t[0]] + rest;
      assert r[0] == t[0] && r[1..] == rest;
      if key(t[0]) == k {
        PrecedesDistinctKeys(t[0], x, key, dir);
      }
    } else {
      assert r == [x] + t;
      assert r[0] == x && r[1..] == t;
    }
  }

  /** The sort is stable. */
  lemma {:induction false} SortByStable<T>(s: seq<T>, key: T -> string, dir: Direction)
    ensures SameTies(SortBy(s, key, dir), s, key)
    decreases |s|
  {
    if s != [] {
      SortByStable(s[1..], key, dir);
      forall k
        ensures Keep(SortBy(s, key, dir), KeyIs(key, k)) == Keep(s, KeyIs(key, k))
      {
        InsertTies(s[0], SortBy(s[1..], key, dir), key, dir, k);
      }
    }
  }

  /** The sort orders its output. */
  lemma {:induction false} SortBySorted<T>(s: seq<T>, key: T -> string, dir: Direction)
    ensures Sorted(SortBy(s, key, dir), key, dir)
    decreases |s|
  {
    if s != [] {
      SortBySorted(s[1..], key, dir);
      InsertSorted(s[0], SortBy(s[1..], key, dir), key, dir);
    }
  }

  /** An element of a selection is an element of the selected sequence. */
  lemma KeepMember<T>(s: seq<T>, p: T -> bool, x: T)
    requires x in Keep(s, p)
    ensures x in s
  {
    KeepSelects(s, p);
    assert x in multiset(Keep(s, p));
  }

  /** The first element of a sequence is selected among the elements sharing its key. */
  lemma HeadTieKept<T>(r: seq<T>, key: T -> string)
    ensures r != [] ==> Keep(r, KeyIs(key, key(r[0]))) != []
    ensures r == [] ==> forall k :: Keep(r, KeyIs(key, k)) == []
  {
  }

  /** Sequences that are both ordered and agree on the order of every key's
      elements are identical: ordering plus stability leaves no freedom. */
  lemma {:induction false} SortedTiesUnique<T>(r1: seq<T>, r2: seq<T>, key: T -> string, dir: Direction)
    requires Sorted(r1, key, dir) && Sorted(r2, key, dir)
    requires SameTies(r1, r2, key)
    ensures r1 == r2
    decreases |r1| + |r2|
  {
    if r1 == [] || r2 == [] {
      HeadTieKept(r1, key);
      HeadTieKept(r2, key);
    } else {
      var k1, k2 := key(r1[0]), key(r2[0]);
      assert Keep(r1, KeyIs(key, k1)) == [r1[0]] + Keep(r1[1..], KeyIs(key, k1));
      assert Keep(r2, KeyIs(key, k2)) == [r2[0]] + Keep(r2[1..], KeyIs(key, k2));
      if k1 != k2 {
        KeepMember(r2, KeyIs(key, k1), r1[0]);
        var j :| 0 <= j < |r2| && r2[j] == r1[0];
        assert !Precedes(r1[0], r2[0], key, dir);
        KeepMember(r1, KeyIs(key, k2), r2[0]);
        var i :| 0 <= i < |r1| && r1[i] == r2[0];
        assert !Precedes(r2[0], r1[0], key, dir);
        PrecedesTotal(r1[0], r2[0], key, dir);
        assert false;
      }
      assert Keep(r1, KeyIs(key, k1)) == Keep(r2, KeyIs(key, k1));
      assert r1[0] == Keep(r1, KeyIs(key, k1))[0] == r2[0];
      forall k
        ensures Keep(r1[1..], KeyIs(key, k)) == Keep(r2[1..], KeyIs(key, k))
      {
        var h := if key(r1[0]) == k then [r1[0]] else [];
        var a, b := Keep(r1[1..], KeyIs(key, k)), Keep(r2[1..], KeyIs(key, k));
        assert Keep(r1, KeyIs(key, k)) == h + a;
        assert Keep(r2, KeyIs(key, k)) == h + b;
        assert (h + a)[|h|..] == a && (h + b)[|h|..] == b;
      }
      assert Sorted(r1[1..], key, dir) by {
        forall i, j | 0 <= i < j < |r1[1..]|
          ensures !Precedes(r1[1..][j], r1[1..][i], key, dir)
        {
          assert r1[1..][j] == r1[j + 1] && r1[1..][i] == r1[i + 1];
        }
      }
      assert Sorted(r2[1..], key, dir) by {
        forall i, j | 0 <= i < j < |r2[1..]|
          ensures !Precedes(r2[1..][j], r2[1..][i], key, dir)
        {
          assert r2[1..][j] == r2[j + 1] && r2[1..][i] == r2[i + 1];
        }
      }
      SortedTiesUnique(r1[1..], r2[1..], key, dir);
      assert r1 == [r1[0]] + r1[1..] && r2 == [r2[0]] + r2[1..];
    }
  }

  /** `SortBy` is the one and only stable ordering of `s`: any sequence that
      is ordered by the key and keeps the order of `s` among equal keys is
      exactly `SortBy(s)`. */
  lemma SortByIsTheStableSort<T>(s: seq<T>, r: seq<T>, key: T -> string, dir: Direction)
    requires Sorted(r, key, dir)
    requires SameTies(r, s, key)
    ensures r == SortBy(s, key, dir)
  {
    SortBySorted(s, key, dir);
    SortByStable(s, key, dir);
    SortedTiesUnique(r, SortBy(s, key, dir), key, dir);
  }
}
