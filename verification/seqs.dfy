/** Order facts about sequences: subsequences, duplicates, and the insertion
    order that a JavaScript `Set` keeps. */
module Seqs {

  /** `a` is obtained from `b` by deleting elements, without adding or reordering any. */
  predicate IsSubseq<T(==)>(a: seq<T>, b: seq<T>)
    decreases |b|
  {
    |a| == 0 || (|b| > 0 && ((a[0] == b[0] && IsSubseq(a[1..], b[1..])) || IsSubseq(a, b[1..])))
  }

  predicate NoDuplicates<T(==)>(s: seq<T>)
  {
    forall i, j :: 0 <= i < j < |s| ==> s[i] != s[j]
  }

  /** Without duplicates, no value occurs more than once. */
  lemma {:induction false} NoDuplicatesCountsOne<T>(s: seq<T>, x: T)
    requires NoDuplicates(s)
    ensures multiset(s)[x] <= 1
  {
    if |s| > 0 {
      assert s == [s[0]] + s[1..];
      assert NoDuplicates(s[1..]);
      NoDuplicatesCountsOne(s[1..], x);
      if s[0] == x {
        assert x !in s[1..];
      }
    }
  }

  /** The position of the first occurrence of `x` in `s`. */
  function FirstIndex<T(==)>(s: seq<T>, x: T): (k: nat)
    requires x in s
    ensures k < |s| && s[k] == x && x !in s[..k]
  {
    if s[0] == x then 0 else 1 + FirstIndex(s[1..], x)
  }

  /** `Array.from(new Set(s))`: each value kept once, at its first occurrence,
      in the order the values were first inserted. Set membership is equality
      of values, which for the numbers here is SameValueZero: NaN is one value. */
  function Distinct<T(==)>(s: seq<T>): (r: seq<T>)
    ensures NoDuplicates(r)
    ensures forall i :: 0 <= i < |r| ==> r[i] in s
    ensures forall i :: 0 <= i < |s| ==> s[i] in r
    ensures |r| <= |s|
  {
    if |s| == 0 then []
    else
      var d := Distinct(s[..|s| - 1]);
      var x := s[|s| - 1];
      assert forall i :: 0 <= i < |s| - 1 ==> s[i] == s[..|s| - 1][i];
      if x in d then d else d + [x]
  }

  /** The first occurrence of `x` is the only index that holds `x` with no earlier `x`. */
  lemma FirstIndexUnique<T>(s: seq<T>, x: T, k: nat)
    requires k < |s| && s[k] == x && x !in s[..k]
    ensures FirstIndex(s, x) == k
  {
  }

  /** A value that occurs in a prefix has its first occurrence there. */
  lemma FirstIndexOfPrefix<T>(s: seq<T>, n: nat, y: T)
    requires n <= |s| && y in s[..n]
    ensures FirstIndex(s, y) == FirstIndex(s[..n], y) < n
  {
    var k := FirstIndex(s[..n], y);
    assert s[..k] == s[..n][..k];
    FirstIndexUnique(s, y, k);
  }

  /** The elements of `r` come from `s` and appear in the order of their first occurrences in `s`. */
  predicate InFirstOccurrenceOrder<T(==)>(r: seq<T>, s: seq<T>)
  {
    && (forall i :: 0 <= i < |r| ==> r[i] in s)
    && (forall i, j :: 0 <= i < j < |r| ==> FirstIndex(s, r[i]) < FirstIndex(s, r[j]))
  }

  /** An order by first occurrence in `s` without its last element is an order by first occurrence in `s`. */
  lemma OrderWidens<T>(d: seq<T>, s: seq<T>)
    requires |s| > 0 && InFirstOccurrenceOrder(d, s[..|s| - 1])
    ensures InFirstOccurrenceOrder(d, s)
    ensures forall i :: 0 <= i < |d| ==> FirstIndex(s, d[i]) < |s| - 1
  {
    var p := s[..|s| - 1];
    forall i | 0 <= i < |d|
      ensures d[i] in s && FirstIndex(s, d[i]) == FirstIndex(p, d[i]) < |p|
    {
      FirstIndexOfPrefix(s, |p|, d[i]);
    }
  }

  /** Appending the last element of `s`, new to the rest of `s`, keeps the order by first occurrence. */
  lemma OrderExtends<T>(d: seq<T>, s: seq<T>)
    requires |s| > 0 && InFirstOccurrenceOrder(d, s[..|s| - 1])
    requires s[|s| - 1] !in s[..|s| - 1]
    ensures InFirstOccurrenceOrder(d + [s[|s| - 1]], s)
  {
    var x := s[|s| - 1];
    var r := d + [x];
    OrderWidens(d, s);
    FirstIndexUnique(s, x, |s| - 1);
    forall i, j | 0 <= i < j < |r|
      ensures FirstIndex(s, r[i]) < FirstIndex(s, r[j])
    {
      assert r[i] == d[i];
      if j < |d| {
        assert r[j] == d[j];
      }
    }
  }

  /** `Distinct` lists values in the order of their first occurrences in `s`. */
  lemma {:induction false} DistinctFirstOccurrenceOrder<T>(s: seq<T>)
    ensures InFirstOccurrenceOrder(Distinct(s), s)
  {
    if |s| > 0 {
      var p := s[..|s| - 1];
      var x := s[|s| - 1];
      var d := Distinct(p);
      DistinctFirstOccurrenceOrder(p);
      if x in d {
        OrderWidens(d, s);
      } else {
        assert x !in p;
        OrderExtends(d, s);
      }
    }
  }
}
