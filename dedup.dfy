/**
 * `DataFrame.drop_duplicates()` with its defaults (all columns compared,
 * `keep='first'`): a row is dropped exactly when it equals an earlier row,
 * and the rows that stay keep their relative order.
 */
module Dedup {

  /** No two positions of `s` hold equal values. */
  predicate NoDuplicates<T(==)>(s: seq<T>) {
    forall i, j :: 0 <= i < j < |s| ==> s[i] != s[j]
  }

  /** The position at which `x` first appears in `s`. */
  function FirstIndex<T(==)>(s: seq<T>, x: T): (i: nat)
    requires x in s
    ensures i < |s| && s[i] == x && x !in s[..i]
  {
    if s[0] == x then 0
    else
      var k := FirstIndex(s[1..], x);
      assert s[..k + 1] == [s[0]] + s[1..][..k];
      k + 1
  }

  /** `r` and `s` hold the same values (in any order, any number of times). */
  predicate SameValues<T(==)>(r: seq<T>, s: seq<T>) {
    (forall i :: 0 <= i < |r| ==> r[i] in s) && (forall j :: 0 <= j < |s| ==> s[j] in r)
  }

  /** Both `x` and `y` occur in `s`, and `x` occurs first. */
  ghost predicate SeenBefore<T>(s: seq<T>, x: T, y: T) {
    x in s && y in s && FirstIndex(s, x) < FirstIndex(s, y)
  }

  /** `r` lists values of `s` in the order of their first appearance in `s`. */
  ghost predicate InFirstSeenOrder<T>(s: seq<T>, r: seq<T>) {
    forall i, j :: 0 <= i < j < |r| ==> SeenBefore(s, r[i], r[j])
  }

  /** The reference definition: `r` holds every value of `s`, each once,
      in the order in which the values first appear in `s`. */
  ghost predicate KeepsFirstOccurrences<T>(s: seq<T>, r: seq<T>) {
    SameValues(r, s) && InFirstSeenOrder(s, r)
  }

  /** The row at position `i` is kept: no earlier row equals it. */
  predicate IsFirstOccurrence<T(==)>(s: seq<T>, i: nat)
    requires i < |s|
  {
    s[i] !in s[..i]
  }

  /** Keep each row that is the first occurrence of its value, in order. */
  function Dedup<T(==)>(s: seq<T>): (r: seq<T>)
    ensures NoDuplicates(r)
    ensures SameValues(r, s)
    ensures |r| <= |s|
  {
    if s == [] then []
    else
      var p := s[..|s| - 1];
      if IsFirstOccurrence(s, |s| - 1) then Dedup(p) + [s[|s| - 1]] else Dedup(p)
  }

  /** Any position holding `x` with no `x` before it is the first index of `x`. */
  lemma FirstIndexUnique<T>(s: seq<T>, x: T, j: nat)
    requires j < |s| && s[j] == x && x !in s[..j]
    ensures FirstIndex(s, x) == j
  {
  }

  /** Appending a value does not move the first index of values already present. */
  lemma FirstIndexOfPrefix<T>(p: seq<T>, e: T, y: T)
    requires y in p
    ensures FirstIndex(p + [e], y) == FirstIndex(p, y)
  {
    var i := FirstIndex(p, y);
    assert (p + [e])[..i] == p[..i];
    FirstIndexUnique(p + [e], y, i);
  }

  lemma {:induction false} DedupKeepsFirstOccurrences<T>(s: seq<T>)
    ensures KeepsFirstOccurrences(s, Dedup(s))
  {
    if s != [] {
      var n := |s|;
      var p, x := s[..n - 1], s[n - 1];
      assert s == p + [x];
      var d := Dedup(p);
      DedupKeepsFirstOccurrences(p);
      forall y | y in p ensures FirstIndex(s, y) == FirstIndex(p, y) {
        FirstIndexOfPrefix(p, x, y);
      }
      if IsFirstOccurrence(s, n - 1) {
        FirstIndexUnique(s, x, n - 1);
        var r := d + [x];
        forall i, j | 0 <= i < j < |r| ensures SeenBefore(s, r[i], r[j]) {
          assert r[i] == d[i] && r[i] in p;
          if j < |d| {
            assert SeenBefore(p, d[i], d[j]);
          }
        }
      } else {
        forall i, j | 0 <= i < j < |d| ensures SeenBefore(s, d[i], d[j]) {
          assert SeenBefore(p, d[i], d[j]);
        }
      }
    }
  }

  /** The head of a first-seen ordering was seen before every other value in it. */
  lemma HeadSeenFirst<T>(s: seq<T>, r: seq<T>, x: T)
    requires InFirstSeenOrder(s, r)
    requires x in r && x != r[0]
    ensures SeenBefore(s, r[0], x)
  {
    var i :| 0 <= i < |r| && r[i] == x;
    assert SeenBefore(s, r[0], r[i]);
  }

  /** Two orderings of the same values by first appearance in `s` are equal. */
  lemma {:induction false} FirstSeenOrderUnique<T>(s: seq<T>, r1: seq<T>, r2: seq<T>)
    requires SameValues(r1, r2)
    requires InFirstSeenOrder(s, r1) && InFirstSeenOrder(s, r2)
    ensures r1 == r2
  {
    if r1 == [] {
      assert r2 == [];
    } else {
      assert r1[0] in r2;
      assert r2 != [];
      assert r2[0] in r1;
      if r1[0] != r2[0] {
        HeadSeenFirst(s, r1, r2[0]);
        HeadSeenFirst(s, r2, r1[0]);
        assert false;
      }
      var t1, t2 := r1[1..], r2[1..];
      forall i | 0 <= i < |t1| ensures t1[i] in t2 {
        assert SeenBefore(s, r1[0], r1[i + 1]);
        assert t1[i] != r2[0] && t1[i] in r2;
      }
      forall i | 0 <= i < |t2| ensures t2[i] in t1 {
        assert SeenBefore(s, r2[0], r2[i + 1]);
        assert t2[i] != r1[0] && t2[i] in r1;
      }
      assert InFirstSeenOrder(s, t1) by {
        forall i, j | 0 <= i < j < |t1| ensures SeenBefore(s, t1[i], t1[j]) {
          assert SeenBefore(s, r1[i + 1], r1[j + 1]);
        }
      }
      assert InFirstSeenOrder(s, t2) by {
        forall i, j | 0 <= i < j < |t2| ensures SeenBefore(s, t2[i], t2[j]) {
          assert SeenBefore(s, r2[i + 1], r2[j + 1]);
        }
      }
      FirstSeenOrderUnique(s, t1, t2);
      assert r1 == [r1[0]] + t1 && r2 == [r2[0]] + t2;
    }
  }

  /** `Dedup(s)` is exactly the sequence that keeps the first occurrences of `s`. */
  lemma DedupCharacterized<T>(s: seq<T>, r: seq<T>)
    ensures KeepsFirstOccurrences(s, r) <==> r == Dedup(s)
  {
    DedupKeepsFirstOccurrences(s);
    if KeepsFirstOccurrences(s, r) {
      FirstSeenOrderUnique(s, r, Dedup(s));
    }
  }

  /** A table without duplicate rows is left as it is. */
  lemma {:induction false} DedupOfDistinct<T>(s: seq<T>)
    requires NoDuplicates(s)
    ensures Dedup(s) == s
  {
    if s != [] {
      var p := s[..|s| - 1];
      assert IsFirstOccurrence(s, |s| - 1);
      DedupOfDistinct(p);
      assert s == p + [s[|s| - 1]];
    }
  }

  /** Dropping duplicates twice is the same as dropping them once. */
  lemma DedupIdempotent<T>(s: seq<T>)
    ensures Dedup(Dedup(s)) == Dedup(s)
  {
    DedupOfDistinct(Dedup(s));
  }

  /** Of two equal rows the first is kept. */
  lemma DedupRepeatedPair<T>(x: T)
    ensures Dedup([x, x]) == [x]
  {
    assert [x, x][..1] == [x];
    assert [x][..0] == [];
  }

  /** Two different rows are both kept, in order. */
  lemma DedupDistinctPair<T>(a: T, b: T)
    requires a != b
    ensures Dedup([a, b]) == [a, b]
  {
    DedupOfDistinct([a, b]);
  }

  /** A table with two equal rows loses at least one row. */
  lemma {:induction false} DedupShrinksDuplicates<T>(s: seq<T>)
    requires !NoDuplicates(s)
    ensures |Dedup(s)| < |s|
  {
    var n := |s|;
    var p := s[..n - 1];
    var i, j :| 0 <= i < j < n && s[i] == s[j];
    if j == n - 1 {
      assert s[i] == p[i];
      assert !IsFirstOccurrence(s, n - 1);
    } else {
      assert p[i] == p[j];
      DedupShrinksDuplicates(p);
    }
  }
}
