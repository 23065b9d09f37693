/**
 * The orderings the relational store's queries sort by: a stable insertion sort
 * parameterised by a "comes before" relation (the model of `ORDER BY`), and the
 * lexicographic order on strings that SQLite's default BINARY collation uses.
 */
module Ordering {

  ghost predicate Total<T(!new)>(before: (T, T) -> bool) {
    forall a, b :: before(a, b) || before(b, a)
  }

  ghost predicate Transitive<T(!new)>(before: (T, T) -> bool) {
    forall a, b, c :: before(a, b) && before(b, c) ==> before(a, c)
  }

  /** Every earlier element comes before every later one. */
  predicate SortedBy<T>(s: seq<T>, before: (T, T) -> bool) {
    forall i, j :: 0 <= i < j < |s| ==> before(s[i], s[j])
  }

  /** No value occurs twice. */
  predicate NoDuplicates<T(==)>(s: seq<T>) {
    forall i, j :: 0 <= i < j < |s| ==> s[i] != s[j]
  }

  /** Puts `x` in front of the first element it comes before. */
  function InsertBy<T>(x: T, s: seq<T>, before: (T, T) -> bool): (r: seq<T>)
    ensures multiset(r) == multiset(s) + multiset{x}
    ensures |r| == |s| + 1
  {
    if s == [] || before(x, s[0]) then [x] + s
    else
      assert s == [s[0]] + s[1..];
      [s[0]] + InsertBy(x, s[1..], before)
  }

  /** Insertion sort: the result is a permutation of `s`. */
  function SortBy<T>(s: seq<T>, before: (T, T) -> bool): (r: seq<T>)
    ensures multiset(r) == multiset(s)
    ensures |r| == |s|
  {
    if s == [] then []
    else
      assert s == [s[0]] + s[1..];
      InsertBy(s[0], SortBy(s[1..], before), before)
  }

  lemma {:induction false} InsertBySorted<T(!new)>(x: T, s: seq<T>, before: (T, T) -> bool)
    requires Total(before) && Transitive(before)
    requires SortedBy(s, before)
    ensures SortedBy(InsertBy(x, s, before), before)
  {
    if s == [] || before(x, s[0]) {
    } else {
      var rest := InsertBy(x, s[1..], before);
      InsertBySorted(x, s[1..], before);
      assert before(s[0], x);
      forall k | 0 <= k < |rest| ensures before(s[0], rest[k]) {
        assert rest[k] in multiset(rest);
        assert rest[k] == x || rest[k] in multiset(s[1..]);
        if rest[k] != x {
          var m :| 0 <= m < |s[1..]| && s[1..][m] == rest[k];
          assert s[m + 1] == rest[k];
        }
      }
    }
  }

  lemma {:induction false} SortBySorted<T(!new)>(s: seq<T>, before: (T, T) -> bool)
    requires Total(before) && Transitive(before)
    ensures SortedBy(SortBy(s, before), before)
  {
    if s != [] {
      SortBySorted(s[1..], before);
      InsertBySorted(s[0], SortBy(s[1..], before), before);
    }
  }

  lemma MultisetMembers<T>(s: seq<T>, t: seq<T>)
    requires multiset(s) == multiset(t)
    ensures forall x :: x in s <==> x in t
  {
    forall x ensures x in s <==> x in t {
      assert x in s <==> x in multiset(s);
      assert x in t <==> x in multiset(t);
    }
  }

  lemma {:induction false} NoDuplicatesCount<T>(s: seq<T>, x: T)
    requires NoDuplicates(s)
    ensures multiset(s)[x] <= 1
  {
    if s != [] {
      assert s == [s[0]] + s[1..];
      assert NoDuplicates(s[1..]) by {
        forall i, j | 0 <= i < j < |s[1..]| ensures s[1..][i] != s[1..][j] {
          assert s[1..][i] == s[i + 1] && s[1..][j] == s[j + 1];
        }
      }
      NoDuplicatesCount(s[1..], x);
      if s[0] == x {
        forall m | 0 <= m < |s[1..]| ensures s[1..][m] != x {
          assert s[1..][m] == s[m + 1];
        }
      }
    }
  }

  lemma RepeatedValueCount<T>(t: seq<T>, a: nat, b: nat)
    requires a < b < |t|
    ensures t[a] == t[b] ==> multiset(t)[t[b]] >= 2
  {
    assert t == t[..b] + [t[b]] + t[b + 1..];
    assert t[a] in t[..b];
  }

  /** A permutation of a sequence without duplicates has none either. */
  lemma NoDuplicatesPermutation<T>(s: seq<T>, t: seq<T>)
    requires NoDuplicates(s) && multiset(s) == multiset(t)
    ensures NoDuplicates(t)
  {
    forall a, b | 0 <= a < b < |t| ensures t[a] != t[b] {
      NoDuplicatesCount(s, t[b]);
      RepeatedValueCount(t, a, b);
    }
  }

  /** SQLite's BINARY collation: compare code point by code point; a proper prefix sorts first. */
  predicate LexLe(a: string, b: string)
  {
    if a == [] then true
    else if b == [] then false
    else if a[0] != b[0] then a[0] < b[0]
    else LexLe(a[1..], b[1..])
  }

  lemma {:induction false} LexLeTotal(a: string, b: string)
    ensures LexLe(a, b) || LexLe(b, a)
  {
    if a != [] && b != [] && a[0] == b[0] {
      LexLeTotal(a[1..], b[1..]);
    }
  }

  lemma {:induction false} LexLeTransitive(a: string, b: string, c: string)
    requires LexLe(a, b) && LexLe(b, c)
    ensures LexLe(a, c)
  {
    if a != [] && b != [] && c != [] && a[0] == b[0] && b[0] == c[0] {
      LexLeTransitive(a[1..], b[1..], c[1..]);
    }
  }

  lemma {:induction false} LexLeAntisymmetric(a: string, b: string)
    requires LexLe(a, b) && LexLe(b, a)
    ensures a == b
  {
    if a != [] && b != [] {
      LexLeAntisymmetric(a[1..], b[1..]);
      assert a == [a[0]] + a[1..] && b == [b[0]] + b[1..];
    }
  }
}
