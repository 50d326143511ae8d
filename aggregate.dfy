/**
  `parse_all_blobs`: the candidate sets found in every blob are merged by set
  union, the merged set is collected into a vector and the vector is sorted
  in place. The candidate scanner itself (`Extractor::unique`) is a parameter
  `unique` of every member: whatever it returns for a blob, the aggregation
  delivers exactly the union of it, sorted and without repeats.
 */
module Aggregate {
  import opened Bytes

  /** A candidate is a byte string cut out of a blob; its text is those bytes. */
  type Candidate = Bytes

  /** The union of the candidate sets of all blobs, folded from the left. */
  function UnionAll(blobs: seq<Bytes>, unique: Bytes -> set<Candidate>): set<Candidate>
    decreases |blobs|
  {
    if blobs == [] then {}
    else UnionAll(blobs[..|blobs| - 1], unique) + unique(blobs[|blobs| - 1])
  }

  /** A candidate is in the union exactly when some blob yields it. */
  lemma {:induction false} UnionAllMembership(blobs: seq<Bytes>, unique: Bytes -> set<Candidate>, x: Candidate)
    ensures x in UnionAll(blobs, unique) <==> exists i :: 0 <= i < |blobs| && x in unique(blobs[i])
    decreases |blobs|
  {
    if blobs != [] {
      var init := blobs[..|blobs| - 1];
      UnionAllMembership(init, unique, x);
      if x in UnionAll(init, unique) {
        var i :| 0 <= i < |init| && x in unique(init[i]);
        assert blobs[i] == init[i];
      }
      if exists i :: 0 <= i < |blobs| && x in unique(blobs[i]) {
        var i :| 0 <= i < |blobs| && x in unique(blobs[i]);
        if i < |init| {
          assert init[i] == blobs[i];
        }
      }
    }
  }

  /** The union over a concatenation is the union of the two unions: any split of the blobs merges back to the same set. */
  lemma {:induction false} UnionAllAppend(a: seq<Bytes>, b: seq<Bytes>, unique: Bytes -> set<Candidate>)
    ensures UnionAll(a + b, unique) == UnionAll(a, unique) + UnionAll(b, unique)
    decreases |b|
  {
    if b == [] {
      assert a + b == a;
    } else {
      var ab := a + b;
      assert ab[..|ab| - 1] == a + b[..|b| - 1];
      assert ab[|ab| - 1] == b[|b| - 1];
      UnionAllAppend(a, b[..|b| - 1], unique);
    }
  }

  /** Reordering the blobs does not change the union. */
  lemma UnionAllPermutation(a: seq<Bytes>, b: seq<Bytes>, unique: Bytes -> set<Candidate>)
    requires multiset(a) == multiset(b)
    ensures UnionAll(a, unique) == UnionAll(b, unique)
  {
    forall x | x in UnionAll(a, unique)
      ensures x in UnionAll(b, unique)
    {
      UnionAllMembership(a, unique, x);
      var i :| 0 <= i < |a| && x in unique(a[i]);
      assert a[i] in multiset(b);
      var j :| 0 <= j < |b| && b[j] == a[i];
      UnionAllMembership(b, unique, x);
    }
    forall x | x in UnionAll(b, unique)
      ensures x in UnionAll(a, unique)
    {
      UnionAllMembership(b, unique, x);
      var j :| 0 <= j < |b| && x in unique(b[j]);
      assert b[j] in multiset(a);
      var i :| 0 <= i < |a| && a[i] == b[j];
      UnionAllMembership(a, unique, x);
    }
  }

  /**
    How the parallel reduction may group the work: a worker folds a run of
    blobs by itself, or the run is split at some position and the two halves'
    results are merged with `extend`.
   */
  datatype Plan = Sequential | Split(at: nat, left: Plan, right: Plan)

  /** The set a reduction following `plan` produces. */
  function ReduceBy(plan: Plan, blobs: seq<Bytes>, unique: Bytes -> set<Candidate>): set<Candidate>
  {
    match plan
    case Sequential => UnionAll(blobs, unique)
    case Split(at, left, right) =>
      var k := if at <= |blobs| then at else |blobs|;
      ReduceBy(left, blobs[..k], unique) + ReduceBy(right, blobs[k..], unique)
  }

  /** Every grouping of the reduction gives the same set: the union of all blobs' candidates. */
  lemma {:induction false} ReduceByAnyPlan(plan: Plan, blobs: seq<Bytes>, unique: Bytes -> set<Candidate>)
    ensures ReduceBy(plan, blobs, unique) == UnionAll(blobs, unique)
  {
    match plan
    case Sequential =>
    case Split(at, left, right) =>
      var k := if at <= |blobs| then at else |blobs|;
      ReduceByAnyPlan(left, blobs[..k], unique);
      ReduceByAnyPlan(right, blobs[k..], unique);
      assert blobs == blobs[..k] + blobs[k..];
      UnionAllAppend(blobs[..k], blobs[k..], unique);
  }

  /** No element occurs twice. */
  predicate Distinct(s: seq<Candidate>)
  {
    forall p, q :: 0 <= p < q < |s| ==> s[p] != s[q]
  }

  /** In a sequence without repeats every element occurs once. */
  lemma {:induction false} DistinctOccursOnce(s: seq<Candidate>, x: Candidate)
    requires Distinct(s)
    ensures multiset(s)[x] <= 1
    decreases |s|
  {
    if s != [] {
      var init := s[..|s| - 1];
      assert s == init + [s[|s| - 1]];
      DistinctOccursOnce(init, x);
      if x == s[|s| - 1] {
        assert x !in init;
      }
    }
  }

  /** A rearrangement of a sequence without repeats has no repeats. */
  lemma DistinctPermutation(s: seq<Candidate>, t: seq<Candidate>)
    requires multiset(s) == multiset(t) && Distinct(t)
    ensures Distinct(s)
  {
    forall p, q | 0 <= p < q < |s|
      ensures s[p] != s[q]
    {
      var x := s[q];
      DistinctOccursOnce(t, x);
      assert s == s[..q] + [x] + s[q + 1..];
      assert s[..q][p] == s[p];
      assert s[p] in multiset(s[..q]);
      assert multiset(s)[x] == multiset(s[..q])[x] + 1 + multiset(s[q + 1..])[x];
    }
  }

  /**
    The collection of the merged set into a vector. The set is walked in an
    unspecified order, as the iteration of a hash set is.
   */
  method CollectSet(s: set<Candidate>) returns (r: seq<Candidate>)
    ensures forall x :: x in r <==> x in s
    ensures Distinct(r)
    ensures |r| == |s|
  {
    r := [];
    var rest := s;
    while rest != {}
      invariant rest <= s
      invariant forall x :: x in r <==> x in s - rest
      invariant Distinct(r)
      invariant |r| + |rest| == |s|
      decreases |rest|
    {
      var x :| x in rest;
      assert x !in r;
      r := r + [x];
      rest := rest - {x};
    }
  }

  /** Exchanges two elements of the vector, keeping its elements. */
  method Swap(a: array<Candidate>, i: nat, j: nat)
    requires i < j < a.Length
    modifies a
    ensures a[i] == old(a[j]) && a[j] == old(a[i])
    ensures forall k :: 0 <= k < a.Length && k != i && k != j ==> a[k] == old(a[k])
    ensures multiset(a[..]) == multiset(old(a[..]))
  {
    a[i], a[j] := a[j], a[i];
  }

  /**
    `result.sort()`: sorts the vector in place, in bytewise lexicographic order,
    keeping its elements. Insertion sort stands in for the library's algorithm;
    for a total order the sorted rearrangement of a vector without repeats is
    unique (StrictlySortedUnique), so the outcome is the library's.
   */
  method SortInPlace(a: array<Candidate>)
    modifies a
    ensures Sorted(a[..])
    ensures multiset(a[..]) == multiset(old(a[..]))
  {
    var i := 0;
    while i < a.Length
      invariant 0 <= i <= a.Length
      invariant forall k :: 0 < k < i ==> LexLessEq(a[k - 1], a[k])
      invariant multiset(a[..]) == multiset(old(a[..]))
    {
      var j := i;
      while j > 0 && !LexLessEq(a[j - 1], a[j])
        invariant 0 <= j <= i
        invariant forall k :: 0 < k <= i && k != j ==> LexLessEq(a[k - 1], a[k])
        invariant 0 < j < i ==> LexLessEq(a[j - 1], a[j + 1])
        invariant multiset(a[..]) == multiset(old(a[..]))
      {
        LexTotal(a[j - 1], a[j]);
        Swap(a, j - 1, j);
        j := j - 1;
      }
      i := i + 1;
    }
    AdjacentSortedIsSorted(a[..]);
  }

  /** What `parse_all_blobs` returns: every candidate of every blob, once each, in ascending order. */
  ghost predicate IsAggregate(result: seq<Candidate>, blobs: seq<Bytes>, unique: Bytes -> set<Candidate>)
  {
    && StrictlySorted(result)
    && forall x :: x in result <==> x in UnionAll(blobs, unique)
  }

  /** `parse_all_blobs`: scan every blob, merge the sets, collect, sort. */
  method ParseAllBlobs(blobs: seq<Bytes>, unique: Bytes -> set<Candidate>) returns (result: seq<Candidate>)
    ensures IsAggregate(result, blobs, unique)
    ensures |result| == |UnionAll(blobs, unique)|
  {
    var merged: set<Candidate> := {};
    var i := 0;
    while i < |blobs|
      invariant 0 <= i <= |blobs|
      invariant merged == UnionAll(blobs[..i], unique)
    {
      assert blobs[..i + 1][..i] == blobs[..i];
      merged := merged + unique(blobs[i]);
      i := i + 1;
    }
    assert blobs[..i] == blobs;
    var collected := CollectSet(merged);
    var a := new Candidate[|collected|](k requires 0 <= k < |collected| => collected[k]);
    assert a[..] == collected;
    SortInPlace(a);
    result := a[..];
    forall x
      ensures x in result <==> x in merged
    {
      assert x in result <==> x in multiset(result);
      assert x in collected <==> x in multiset(collected);
    }
    DistinctPermutation(result, collected);
    SortedDistinctIsStrict(result);
  }

  /**
    The output depends only on which blobs there are, not on their order:
    any two aggregates of rearranged blob sequences are the same sequence.
   */
  lemma AggregateDeterministic(b1: seq<Bytes>, b2: seq<Bytes>, unique: Bytes -> set<Candidate>,
                               r1: seq<Candidate>, r2: seq<Candidate>)
    requires multiset(b1) == multiset(b2)
    requires IsAggregate(r1, b1, unique) && IsAggregate(r2, b2, unique)
    ensures r1 == r2
  {
    UnionAllPermutation(b1, b2, unique);
    StrictlySortedUnique(r1, r2);
  }
}
