/**
  Bytes, and the order in which Rust compares `[u8]`, `Vec<u8>` and `String`
  values: lexicographic over the bytes, a proper prefix before any extension of it.
 */
module Bytes {

  /** One octet, Rust's `u8`. */
  newtype byte = b: int | 0 <= b < 0x100

  type Bytes = seq<byte>

  /** `a <= b` in Rust's bytewise lexicographic order. */
  predicate LexLessEq(a: Bytes, b: Bytes)
  {
    if a == [] then true
    else if b == [] then false
    else a[0] < b[0] || (a[0] == b[0] && LexLessEq(a[1..], b[1..]))
  }

  /** Every element is at most every later one. */
  predicate Sorted(s: seq<Bytes>)
  {
    forall p, q :: 0 <= p < q < |s| ==> LexLessEq(s[p], s[q])
  }

  /** Every element is at most its right neighbour. */
  predicate AdjacentSorted(s: seq<Bytes>)
  {
    forall k :: 0 < k < |s| ==> LexLessEq(s[k - 1], s[k])
  }

  /** Every element is strictly below every later one: sorted, with no repeats. */
  predicate StrictlySorted(s: seq<Bytes>)
  {
    forall p, q :: 0 <= p < q < |s| ==> LexLessEq(s[p], s[q]) && s[p] != s[q]
  }

  lemma {:induction false} LexReflexive(a: Bytes)
    ensures LexLessEq(a, a)
  {
    if a != [] {
      LexReflexive(a[1..]);
    }
  }

  lemma {:induction false} LexTotal(a: Bytes, b: Bytes)
    ensures LexLessEq(a, b) || LexLessEq(b, a)
  {
    if a != [] && b != [] && a[0] == b[0] {
      LexTotal(a[1..], b[1..]);
    }
  }

  lemma {:induction false} LexAntisymmetric(a: Bytes, b: Bytes)
    requires LexLessEq(a, b) && LexLessEq(b, a)
    ensures a == b
  {
    if a != [] && b != [] {
      LexAntisymmetric(a[1..], b[1..]);
      assert a == [a[0]] + a[1..] && b == [b[0]] + b[1..];
    }
  }

  lemma {:induction false} LexTransitive(a: Bytes, b: Bytes, c: Bytes)
    requires LexLessEq(a, b) && LexLessEq(b, c)
    ensures LexLessEq(a, c)
  {
    if a != [] && b != [] && c != [] && a[0] == b[0] == c[0] {
      LexTransitive(a[1..], b[1..], c[1..]);
    }
  }

  /** A proper prefix comes first: `"ab" < "abc"`. */
  lemma {:induction false} LexPrefixFirst(a: Bytes, suffix: Bytes)
    ensures LexLessEq(a, a + suffix)
    ensures suffix != [] ==> !LexLessEq(a + suffix, a)
  {
    if a != [] {
      assert (a + suffix)[1..] == a[1..] + suffix;
      LexPrefixFirst(a[1..], suffix);
    }
  }

  /** Neighbour-by-neighbour order is enough for the whole sequence to be sorted. */
  lemma {:induction false} AdjacentSortedIsSorted(s: seq<Bytes>)
    requires AdjacentSorted(s)
    ensures Sorted(s)
    decreases |s|
  {
    if |s| > 1 {
      var init := s[..|s| - 1];
      assert AdjacentSorted(init);
      AdjacentSortedIsSorted(init);
      forall p, q | 0 <= p < q < |s|
        ensures LexLessEq(s[p], s[q])
      {
        if q < |s| - 1 {
          assert s[p] == init[p] && s[q] == init[q];
        } else if p < q - 1 {
          assert s[p] == init[p] && s[q - 1] == init[q - 1];
          LexTransitive(s[p], s[q - 1], s[q]);
        }
      }
    }
  }

  /** A sorted sequence whose elements are pairwise distinct is strictly sorted. */
  lemma SortedDistinctIsStrict(s: seq<Bytes>)
    requires Sorted(s)
    requires forall p, q :: 0 <= p < q < |s| ==> s[p] != s[q]
    ensures StrictlySorted(s)
  {
  }

  /**
    The sorted rendering of a set is unique: two strictly sorted sequences with
    the same elements are the same sequence. This is why the aggregated output
    depends only on the set of candidates and not on how that set was produced.
   */
  lemma {:induction false} StrictlySortedUnique(r1: seq<Bytes>, r2: seq<Bytes>)
    requires StrictlySorted(r1) && StrictlySorted(r2)
    requires forall x :: x in r1 <==> x in r2
    ensures r1 == r2
    decreases |r1|
  {
    // a non-empty side has its head in the other side, which is then non-empty too
    assert r1 != [] ==> r1[0] in r1;
    assert r2 != [] ==> r2[0] in r2;
    if r1 != [] && r2 != [] {
      // both heads are the least element of the common set
      assert r2[0] in r1;
      var i :| 0 <= i < |r1| && r1[i] == r2[0];
      assert r1[0] in r2;
      var j :| 0 <= j < |r2| && r2[j] == r1[0];
      if i != 0 && j != 0 {
        assert LexLessEq(r1[0], r1[i]) && LexLessEq(r2[0], r2[j]);
        LexAntisymmetric(r1[0], r2[0]);
      }
      assert r1[0] == r2[0];
      forall x
        ensures x in r1[1..] <==> x in r2[1..]
      {
        if x in r1[1..] {
          var k :| 1 <= k < |r1| && r1[k] == x;
          assert x != r1[0];
          assert x in r2;
        }
        if x in r2[1..] {
          var k :| 1 <= k < |r2| && r2[k] == x;
          assert x != r2[0];
          assert x in r1;
        }
      }
      StrictlySortedUnique(r1[1..], r2[1..]);
      assert r1 == [r1[0]] + r1[1..] && r2 == [r2[0]] + r2[1..];
    }
  }
}
